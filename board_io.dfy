/**
 * `get_traces` and `save_pcb`, which both helper scripts carry line for line,
 * and the errors they raise (ErgogenHelperException and its message).
 */
module BoardIo {
  import opened Platform
  import opened Paths

  /** Why a command stops. Every kind but the last is an ErgogenHelperException. */
  datatype Error =
    | TracesUnreadable(reason: string)
    | CopyFailed(reason: string)
    | BackupFailed(backupPath: Path, reason: string)
    | SaveFailed(path: Path, reason: string)
      /** pathlib's ValueError from with_stem; it is raised outside every try block. */
    | InvalidBackupPath(path: Path, backupName: string)

  predicate IsHelperException(e: Error)
  {
    !e.InvalidBackupPath?
  }

  /** The text an ErgogenHelperException carries. */
  function Message(e: Error): (m: string)
    requires IsHelperException(e)
    ensures e.TracesUnreadable? ==> StartsWith(m, "ERROR: Could not get traces: ")
    ensures e.CopyFailed? ==> StartsWith(m, "Could not copy trace: ")
    ensures e.BackupFailed? ==> StartsWith(m, "Could not backup pcb to " + e.backupPath + ": ")
    ensures e.SaveFailed? ==> StartsWith(m, "Could not save pcb to " + e.path + ": ")
    ensures |e.reason| < |m| && m[|m| - |e.reason|..] == e.reason
  {
    match e
    case TracesUnreadable(reason) => "ERROR: Could not get traces: " + reason
    case CopyFailed(reason) => "Could not copy trace: " + reason
    case BackupFailed(backupPath, reason) => "Could not backup pcb to " + backupPath + ": " + reason
    case SaveFailed(path, reason) => "Could not save pcb to " + path + ": " + reason
  }

  predicate StartsWith(s: string, prefix: string)
  {
    |prefix| <= |s| && s[..|prefix|] == prefix
  }

  /** The message names the step that failed: two errors of different kinds never read alike. */
  lemma MessageNamesStep(e1: Error, e2: Error)
    requires IsHelperException(e1) && IsHelperException(e2)
    requires e1.TracesUnreadable? != e2.TracesUnreadable? || e1.CopyFailed? != e2.CopyFailed?
          || e1.BackupFailed? != e2.BackupFailed?
    ensures Message(e1) != Message(e2)
  {
    var m1, m2 := Message(e1), Message(e2);
    if e1.TracesUnreadable? || e2.TracesUnreadable? {
      assert m1[0] != m2[0];
    } else {
      assert m1[10] != m2[10];
    }
  }

  /**
   * get_traces: the source board's tracks, or TracesUnreadable when reading
   * them raises; its message starts with "ERROR: Could not get traces:".
   */
  method GetTraces(pcb: Board, reply: Reply) returns (r: Result<seq<Trace>, Error>)
    ensures r.Success? <==> reply.Pass?
    ensures r.Success? ==> r.value == pcb.tracks
    ensures r.Failure? ==> r.error == TracesUnreadable(reply.error)
    ensures r.Failure? ==> StartsWith(Message(r.error), "ERROR: Could not get traces:")
  {
    var traces := pcb.GetTracks(reply);
    if traces.Failure? {
      var e := TracesUnreadable(traces.error);
      assert Message(e)[..28] == "ERROR: Could not get traces:";
      return Failure(e);
    }
    return Success(traces.value);
  }

  /** save_pcb makes a backup exactly when one is asked for and the board's file exists. */
  ghost predicate WantsBackup(fs: map<Path, Content>, p: Path, shouldBackup: bool)
  {
    shouldBackup && p in fs
  }

  /** save_pcb reaches pcb.Save unless a wanted backup could not be named or made. */
  ghost predicate ReachesSave(fs: map<Path, Content>, p: Path, shouldBackup: bool, backupName: string, copyReply: Reply)
  {
    !WantsBackup(fs, p, shouldBackup) || (BackupPath(p, backupName).Some? && copyReply.Pass?)
  }

  /** The backup copy save_pcb records when it makes one. */
  ghost function BackupEvents(fs: map<Path, Content>, p: Path, shouldBackup: bool, backupName: string): seq<Event>
  {
    if WantsBackup(fs, p, shouldBackup) && BackupPath(p, backupName).Some? then [Copied(p, BackupPath(p, backupName).value)] else []
  }

  /** The files after save_pcb's backup step: when a backup is made, it holds the board file's content. */
  ghost function AfterBackup(fs: map<Path, Content>, p: Path, shouldBackup: bool, backupName: string): map<Path, Content>
  {
    if WantsBackup(fs, p, shouldBackup) && p in fs && BackupPath(p, backupName).Some?
    then fs[BackupPath(p, backupName).value := fs[p]]
    else fs
  }

  /**
   * The backup step of save_pcb: name the backup with with_stem (outside the
   * try, so an invalid name is not wrapped), then copy the board's file to it.
   */
  method BackupPcb(fs: FileSystem, pcbPath: Path, backupName: string, copyReply: Reply) returns (r: Outcome<Error>)
    requires pcbPath in fs.files
    modifies fs
    ensures BackupPath(pcbPath, backupName).None? ==> r == Fail(InvalidBackupPath(pcbPath, backupName))
    ensures BackupPath(pcbPath, backupName).Some? && copyReply.Fail? ==>
              r == Fail(BackupFailed(BackupPath(pcbPath, backupName).value, copyReply.error))
    ensures r.Pass? <==> BackupPath(pcbPath, backupName).Some? && copyReply.Pass?
    ensures r.Pass? ==> var b := BackupPath(pcbPath, backupName).value;
              b != pcbPath
              && fs.files == old(fs.files)[b := old(fs.files)[pcbPath]]
              && fs.journal == old(fs.journal) + [Copied(pcbPath, b)]
    ensures r.Fail? ==> fs.files == old(fs.files) && fs.journal == old(fs.journal)
  {
    var backupPath := BackupPath(pcbPath, backupName);
    if backupPath.None? {
      return Fail(InvalidBackupPath(pcbPath, backupName));
    }
    var copied := fs.Copy(pcbPath, backupPath.value, copyReply);
    if copied.Fail? {
      return Fail(BackupFailed(backupPath.value, copied.error));
    }
    return Pass;
  }

  /**
   * save_pcb: optionally copy the board's file to its backup, then overwrite
   * the file with the board as it is in memory. `copyReply` and `saveReply`
   * say how shutil.copy and pcb.Save end.
   */
  method SavePcb(pcb: Board, fs: FileSystem, shouldBackup: bool, backupName: string, copyReply: Reply, saveReply: Reply)
    returns (r: Outcome<Error>)
    modifies fs
    // the error kinds, in the order the steps run
    ensures WantsBackup(old(fs.files), pcb.fileName, shouldBackup) && BackupPath(pcb.fileName, backupName).None? ==>
              r == Fail(InvalidBackupPath(pcb.fileName, backupName))
    ensures WantsBackup(old(fs.files), pcb.fileName, shouldBackup) && BackupPath(pcb.fileName, backupName).Some? && copyReply.Fail? ==>
              r == Fail(BackupFailed(BackupPath(pcb.fileName, backupName).value, copyReply.error))
    ensures ReachesSave(old(fs.files), pcb.fileName, shouldBackup, backupName, copyReply) ==>
              r == if saveReply.Pass? then Pass else Fail(SaveFailed(pcb.fileName, saveReply.error))
    // a backup that was asked for and not made leaves every file as it was
    ensures !ReachesSave(old(fs.files), pcb.fileName, shouldBackup, backupName, copyReply) ==>
              fs.files == old(fs.files) && fs.journal == old(fs.journal)
    // the changes made, in order: the backup copy strictly before the overwrite
    ensures ReachesSave(old(fs.files), pcb.fileName, shouldBackup, backupName, copyReply) ==>
              fs.journal == old(fs.journal) + BackupEvents(old(fs.files), pcb.fileName, shouldBackup, backupName)
                + (if r.Pass? then [Wrote(pcb.fileName)] else [])
    ensures ReachesSave(old(fs.files), pcb.fileName, shouldBackup, backupName, copyReply) ==>
              var backedUp := AfterBackup(old(fs.files), pcb.fileName, shouldBackup, backupName);
              fs.files == if r.Pass? then backedUp[pcb.fileName := BoardFile(pcb.tracks)] else backedUp
    // after a successful save with a backup, the backup holds what the file held before
    ensures r.Pass? && WantsBackup(old(fs.files), pcb.fileName, shouldBackup) ==>
              fs.files[BackupPath(pcb.fileName, backupName).value] == old(fs.files)[pcb.fileName]
              && fs.files[pcb.fileName] == BoardFile(pcb.tracks)
  {
    var pcbPath := pcb.fileName;
    ghost var files0, journal0 := fs.files, fs.journal;
    if shouldBackup && fs.Exists(pcbPath) {
      var backedUp := BackupPcb(fs, pcbPath, backupName, copyReply);
      if backedUp.Fail? {
        return backedUp;
      }
    }
    assert fs.journal == journal0 + BackupEvents(files0, pcbPath, shouldBackup, backupName);
    assert fs.files == AfterBackup(files0, pcbPath, shouldBackup, backupName);
    var saved := pcb.Save(pcbPath, fs, saveReply);
    if saved.Fail? {
      return Fail(SaveFailed(pcbPath, saved.error));
    }
    return Pass;
  }
}
