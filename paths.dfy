/**
 * The part of Python's pathlib that save_pcb relies on to name its backup:
 * a path's name, stem and suffix, and `with_stem`, on POSIX paths whose
 * separator is '/'.
 */
module Paths {
  import opened Platform

  const Sep: char := '/'

  /** str.rfind for one character: the last position holding `c`, or -1. */
  function LastIndexOf(s: string, c: char): (i: int)
    ensures -1 <= i < |s|
    ensures 0 <= i ==> s[i] == c
    ensures forall j :: i < j < |s| ==> s[j] != c
  {
    if s == [] then -1
    else if s[|s| - 1] == c then |s| - 1
    else LastIndexOf(s[..|s| - 1], c)
  }

  /** Everything up to and including the last separator ("" for a bare file name). */
  function Parent(p: Path): (d: string)
    ensures |d| <= |p| && p[..|d|] == d
    ensures d == [] || d[|d| - 1] == Sep
  {
    p[..LastIndexOf(p, Sep) + 1]
  }

  /** PurePath.name: the final component. */
  function Name(p: Path): (n: string)
    ensures Sep !in n
    ensures |n| <= |p| && p[|p| - |n|..] == n
  {
    p[LastIndexOf(p, Sep) + 1..]
  }

  /** A name has a suffix when its last dot is neither its first nor its last character. */
  predicate HasSuffix(name: string)
  {
    0 < LastIndexOf(name, '.') < |name| - 1
  }

  /** PurePath.suffix */
  function Suffix(name: string): (x: string)
  {
    if HasSuffix(name) then name[LastIndexOf(name, '.')..] else ""
  }

  /** PurePath.stem */
  function Stem(name: string): (t: string)
  {
    if HasSuffix(name) then name[..LastIndexOf(name, '.')] else name
  }

  /** PurePath.with_name: None where pathlib raises ValueError. */
  function WithName(p: Path, name: string): (r: Option<Path>)
    ensures r.Some? ==> Parent(r.value) == Parent(p) && Name(r.value) == name
    ensures r.Some? ==> name != "." && Name(p) != []
  {
    if Name(p) == [] || name == [] || name == "." || Sep in name then None
    else
      LastIndexOfAppend(Parent(p), name, Sep);
      Some(Parent(p) + name)
  }

  /** PurePath.with_stem */
  function WithStem(p: Path, stem: string): (r: Option<Path>)
    ensures r.Some? ==> Parent(r.value) == Parent(p) && Name(r.value) == stem + Suffix(Name(p))
  {
    WithName(p, stem + Suffix(Name(p)))
  }

  /** The backup of `p`: the same directory and suffix, with `_` and the backup name added to the stem. */
  function BackupPath(p: Path, backupName: string): (r: Option<Path>)
    ensures r.Some? ==> r.value != p
  {
    WithStem(p, Stem(Name(p)) + "_" + backupName)
  }

  lemma NameSplit(p: Path)
    ensures Parent(p) + Name(p) == p
    ensures Sep !in Name(p)
    ensures Parent(p) == [] || Parent(p)[|Parent(p)| - 1] == Sep
  {
  }

  lemma StemSuffixSplit(name: string)
    ensures Stem(name) + Suffix(name) == name
    ensures HasSuffix(name) ==> Stem(name) != [] && |Suffix(name)| >= 2 && Suffix(name)[0] == '.'
    ensures HasSuffix(name) ==> '.' !in Suffix(name)[1..]
  {
  }

  /** Appending text without the character leaves its last occurrence where it was. */
  lemma {:induction false} LastIndexOfAppend(a: string, b: string, c: char)
    requires c !in b
    ensures LastIndexOf(a + b, c) == LastIndexOf(a, c)
  {
    if b != [] {
      assert (a + b)[..|a + b| - 1] == a + b[..|b| - 1];
      LastIndexOfAppend(a, b[..|b| - 1], c);
    } else {
      assert a + b == a;
    }
  }

  /** The backup keeps the directory and suffix and extends the stem by "_" and the backup name. */
  lemma BackupPathShape(p: Path, backupName: string)
    requires BackupPath(p, backupName).Some?
    ensures var b := BackupPath(p, backupName).value;
      Parent(b) == Parent(p) && Name(b) == Stem(Name(p)) + "_" + backupName + Suffix(Name(p))
  {
    var name := Stem(Name(p)) + "_" + backupName + Suffix(Name(p));
    var b := BackupPath(p, backupName).value;
    assert Sep !in name;
    NameSplit(p);
    assert b == Parent(p) + name;
    var k := LastIndexOf(Parent(p), Sep);
    LastIndexOfAppend(Parent(p), name, Sep);
    assert k == |Parent(p)| - 1;
  }

  /** pathlib refuses the new name only when the path has no name or the backup name holds a separator. */
  lemma BackupPathDefined(p: Path, backupName: string)
    ensures BackupPath(p, backupName).Some? <==> Name(p) != [] && Sep !in backupName
  {
    var name := Name(p);
    var newName := Stem(name) + "_" + backupName + Suffix(name);
    assert Sep !in Stem(name) && Sep !in Suffix(name) by {
      StemSuffixSplit(name);
      assert Sep !in Stem(name) + Suffix(name);
    }
    assert Sep in newName <==> Sep in backupName;
    assert newName != [] && newName != "." by {
      assert newName[|Stem(name)|] == '_';
    }
    assert BackupPath(p, backupName) == WithName(p, newName);
  }

  /** The backup never lands on the file it protects. */
  lemma BackupPathDistinct(p: Path, backupName: string)
    requires BackupPath(p, backupName).Some?
    ensures BackupPath(p, backupName).value != p
    ensures |BackupPath(p, backupName).value| == |p| + 1 + |backupName|
  {
    BackupPathShape(p, backupName);
    NameSplit(p);
    StemSuffixSplit(Name(p));
    var b := BackupPath(p, backupName).value;
    NameSplit(b);
  }

  /** When the file has a suffix, reading the backup's name back gives the new stem and the old suffix. */
  lemma BackupPathReparses(p: Path, backupName: string)
    requires HasSuffix(Name(p))
    requires BackupPath(p, backupName).Some?
    ensures var b := BackupPath(p, backupName).value;
      Stem(Name(b)) == Stem(Name(p)) + "_" + backupName && Suffix(Name(b)) == Suffix(Name(p))
  {
    BackupPathShape(p, backupName);
    StemSuffixSplit(Name(p));
    var stem := Stem(Name(p)) + "_" + backupName;
    ReparseSplit(stem, Suffix(Name(p)));
  }

  /** A name made of a non-empty stem and a proper suffix splits back into the two. */
  lemma ReparseSplit(stem: string, x: string)
    requires stem != [] && |x| >= 2 && x[0] == '.' && '.' !in x[1..]
    ensures HasSuffix(stem + x) && Stem(stem + x) == stem && Suffix(stem + x) == x
  {
    var head := stem + ".";
    assert stem + x == head + x[1..];
    LastIndexOfAppend(head, x[1..], '.');
    assert LastIndexOf(head, '.') == |stem|;
    assert (stem + x)[..|stem|] == stem;
    assert (stem + x)[|stem|..] == x;
  }

  /** The backup of a file inside a directory is a sibling of that file. */
  lemma BackupInDirectory(dir: string, name: string, backupName: string)
    requires name != [] && Sep !in name && Sep !in backupName
    ensures BackupPath(dir + [Sep] + name, backupName) == Some(dir + [Sep] + (Stem(name) + "_" + backupName + Suffix(name)))
  {
    var p := dir + [Sep] + name;
    LastIndexOfAppend(dir + [Sep], name, Sep);
    assert p[..|dir| + 1] == dir + [Sep] && p[|dir| + 1..] == name;
    assert Parent(p) == dir + [Sep] && Name(p) == name;
    BackupPathDefined(p, backupName);
    BackupPathShape(p, backupName);
    NameSplit(BackupPath(p, backupName).value);
  }

  /** The backup of a file named relative to the working directory stays there. */
  lemma BackupOfBareName(name: string, backupName: string)
    requires name != [] && Sep !in name && Sep !in backupName
    ensures BackupPath(name, backupName) == Some(Stem(name) + "_" + backupName + Suffix(name))
  {
    assert LastIndexOf(name, Sep) == -1;
    assert Parent(name) == [] && Name(name) == name;
    BackupPathDefined(name, backupName);
    BackupPathShape(name, backupName);
    NameSplit(BackupPath(name, backupName).value);
  }

  lemma BoardOrigSpelling()
    ensures "board" + "_" + "orig" + ".kicad_pcb" == "board_orig.kicad_pcb"
  {
  }

  /** A KiCad board file name splits into the stem "board" and the suffix ".kicad_pcb". */
  lemma BoardFileSplit()
    ensures Stem("board.kicad_pcb") == "board" && Suffix("board.kicad_pcb") == ".kicad_pcb"
  {
    assert '.' !in "kicad_pcb";
    ReparseSplit("board", ".kicad_pcb");
    assert "board" + ".kicad_pcb" == "board.kicad_pcb";
  }

  /** A KiCad board file keeps its extension in its backup. */
  lemma BackupOfBoardFile()
    ensures BackupPath("board.kicad_pcb", "orig") == Some("board_orig.kicad_pcb")
  {
    BoardFileSplit();
    assert BackupPath("board.kicad_pcb", "orig") == Some("board" + "_" + "orig" + ".kicad_pcb") by {
      assert Sep !in "board.kicad_pcb" && Sep !in "orig";
      BackupOfBareName("board.kicad_pcb", "orig");
    }
    BoardOrigSpelling();
  }

  /**
   * Without a suffix there is nothing to keep, and a dot in the backup name
   * then becomes the backup's suffix: the name is what pathlib builds, but
   * it no longer reads back as stem plus "_" plus backup name.
   */
  lemma SuffixlessNameGainsSuffix()
    ensures BackupPath("README", "v1.2") == Some("README_v1.2")
    ensures Suffix(Name("README_v1.2")) == ".2"
  {
    assert Stem("README") == "README" && Suffix("README") == "" by {
      assert '.' !in "README";
    }
    assert Sep !in "README" && Sep !in "v1.2";
    BackupOfBareName("README", "v1.2");
    assert "README" + "_" + "v1.2" + "" == "README_v1.2";
    DottedBackupName();
  }

  /** The backup name "README_v1.2" reads back with the suffix ".2". */
  lemma DottedBackupName()
    ensures Suffix(Name("README_v1.2")) == ".2"
  {
    assert Name("README_v1.2") == "README_v1.2" by {
      assert Sep !in "README_v1.2";
    }
    ReparseSplit("README_v1", ".2");
    assert "README_v1" + ".2" == "README_v1.2";
  }
}
