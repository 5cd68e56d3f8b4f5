/**
 * The collaborators the helper scripts drive but do not implement: KiCad's
 * pcbnew board handle and the host file system (os.path.exists, shutil.copy).
 *
 * Every call that can raise an exception in the scripts takes a `Reply` that
 * says how that call ends, so that each failure path of the scripts can be
 * followed by the verifier.
 */
module Platform {

  datatype Option<+T> = None | Some(value: T)

  datatype Outcome<+E> = Pass | Fail(error: E)

  datatype Result<+T, +E> = Success(value: T) | Failure(error: E)

  /** How a foreign call ends: normally, or by raising an exception whose text is `error`. */
  type Reply = Outcome<string>

  /** The reply scripted for the i-th pass of a loop; passes beyond the script end normally. */
  function ReplyAt(script: seq<Reply>, i: nat): Reply
  {
    if i < |script| then script[i] else Pass
  }

  /** A board coordinate in KiCad's internal units (1,000,000 per millimetre). */
  datatype Point = Point(x: int, y: int)

  /** The attributes of a track segment that the scripts never compare. */
  datatype Extra = Extra(width: int, layer: int, net: int)

  /** A routed track segment (a via is a segment whose start and end coincide). */
  datatype Trace = Trace(start: Point, end: Point, extra: Extra)

  type Path = string

  /** What a board file holds, as far as the scripts can observe it. */
  datatype Content = BoardFile(tracks: seq<Trace>)

  /** A change the file system has carried out, in the order it happened. */
  datatype Event = Copied(from: Path, to: Path) | Wrote(path: Path)

  class FileSystem {
    var files: map<Path, Content>
    ghost var journal: seq<Event>

    constructor (files: map<Path, Content>)
      ensures this.files == files && journal == []
    {
      this.files := files;
      journal := [];
    }

    /** os.path.exists */
    predicate Exists(p: Path): (r: bool)
      reads this
      ensures r <==> p in files
    {
      p in files
    }

    /** shutil.copy: the target gets the source's content, whatever it held before. */
    method Copy(from: Path, to: Path, reply: Reply) returns (r: Reply)
      modifies this
      ensures r == if from in old(files) then reply else Fail("No such file or directory")
      ensures r.Pass? ==> files == old(files)[to := old(files)[from]]
      ensures r.Pass? ==> journal == old(journal) + [Copied(from, to)]
      ensures r.Fail? ==> files == old(files) && journal == old(journal)
    {
      if from !in files {
        return Fail("No such file or directory");
      }
      if reply.Fail? {
        return reply;
      }
      files := files[to := files[from]];
      journal := journal + [Copied(from, to)];
      return Pass;
    }

    /** Writing a whole file, creating or replacing it. */
    method Write(p: Path, c: Content, reply: Reply) returns (r: Reply)
      modifies this
      ensures r == reply
      ensures r.Pass? ==> files == old(files)[p := c] && journal == old(journal) + [Wrote(p)]
      ensures r.Fail? ==> files == old(files) && journal == old(journal)
    {
      if reply.Pass? {
        files := files[p := c];
        journal := journal + [Wrote(p)];
      }
      return reply;
    }
  }

  /** A loaded board (pcbnew.BOARD), reduced to its tracks and its backing file. */
  class Board {
    var tracks: seq<Trace>
    const fileName: Path

    constructor (fileName: Path, tracks: seq<Trace>)
      ensures this.fileName == fileName && this.tracks == tracks
    {
      this.fileName := fileName;
      this.tracks := tracks;
    }

    /** BOARD.GetTracks: a snapshot of the tracks, in storage order. */
    method GetTracks(reply: Reply) returns (r: Result<seq<Trace>, string>)
      ensures r == if reply.Pass? then Success(tracks) else Failure(reply.error)
    {
      if reply.Fail? {
        return Failure(reply.error);
      }
      return Success(tracks);
    }

    /** BOARD.Add: appends the segment, or raises and leaves the board as it was. */
    method Add(t: Trace, reply: Reply) returns (r: Reply)
      modifies this
      ensures r == reply
      ensures tracks == if reply.Pass? then old(tracks) + [t] else old(tracks)
    {
      if reply.Pass? {
        tracks := tracks + [t];
      }
      return reply;
    }

    /** BOARD.Save: writes the board as it is in memory to `path`. */
    method Save(path: Path, fs: FileSystem, reply: Reply) returns (r: Reply)
      modifies fs
      ensures r == reply
      ensures r.Pass? ==> fs.files == old(fs.files)[path := BoardFile(tracks)]
      ensures r.Pass? ==> fs.journal == old(fs.journal) + [Wrote(path)]
      ensures r.Fail? ==> fs.files == old(fs.files) && fs.journal == old(fs.journal)
    {
      r := fs.Write(path, BoardFile(tracks), reply);
    }
  }
}
