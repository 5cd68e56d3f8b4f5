# kb_ergogen_helper: trace copy and backup-protected save, modelled in Dafny

The helper scripts copy routed tracks from one KiCad board to another and
then write the destination board back to its file, optionally keeping a copy
of the old file first. There are two versions of the script:

- `ergogen_helper.py` is the current one. Its `copy_traces` skips every source
  trace that the destination already has, counts the skips and reports
  `copied = total - skipped`.
- `ergogen-helper.py` is the earlier one. Its `copy_traces` adds every source
  trace, so duplicates are added too.

Both scripts have the same `get_traces` and `save_pcb`, line for line. The
model therefore has one copy of each, in module `BoardIo`.

Modules:

- `Platform` (platform.dfy) models the collaborators. A KiCad board is a
  `Board` object holding a `seq<Trace>` and the path of its file. The file
  system is a `FileSystem` object holding a `map<Path, Content>` and a ghost
  journal of the copies and writes it has made, in order. Each call that can
  raise (`GetTracks`, `Add`, `Save`, `shutil.copy`) takes a `Reply` parameter.
  The reply says whether the call ends normally or raises, and with what text.
  The copy loops take one reply per pass. Passes past the end of that list
  succeed.
- `Paths` (paths.dfy) models the part of `pathlib` that names the backup:
  `name`, `stem`, `suffix`, `with_name` and `with_stem`, on POSIX paths, as
  they behave in Python 3.12 and 3.13. A name has a suffix when its last dot
  is neither its first nor its last character; Python 3.14 also counts a
  trailing dot as a suffix, which the model does not.
  `with_name` gives `None` where pathlib raises `ValueError`: the path has no
  name, or the new name is empty, is `.` or contains `/`.
- `BoardIo` (board_io.dfy) models `get_traces`, `save_pcb` and the exceptions
  they raise, with their messages.
- `ErgogenHelper` (ergogen_helper.dfy) models the current script:
  `check_traces_equal`, `pcb_has_trace` and the deduplicating `copy_traces`.
  - The ghost function `Merged(d, s)` gives the destination after a copy that
    does not raise.
  - `Kept(d, s)` is an independent definition of the traces that copy
    appends: each source trace that has no equal trace in the destination and
    no equal trace earlier in the source.
- `ErgogenHelperLegacy` (ergogen_helper_legacy.dfy) models the earlier
  script's `copy_traces` and states how its result differs from the current
  one's.

Trace identity is `start == start && end == end`, compared exactly. The pair
is ordered: a segment and its reversal are different traces, unless it starts
where it ends. Width, layer and net are not compared.

`pathlib.with_stem` runs outside every `try` block at ergogen_helper.py:80.
When the new name is invalid (the path has no name, or the backup name
contains `/`), it raises a `ValueError` that is not an
`ErgogenHelperException`. The model keeps that error separate
(`InvalidBackupPath`). Like the other backup failures, it stops the save
before the file is overwritten.

Three facts about the code that the model follows:

- Traces are equal only when their endpoints match in order.
- Each source trace is checked against the destination as it grows, so a
  trace repeated in the source is copied once.
- The scripts have no lock filter, lock operation, timestamped backup or
  atomic overwrite.

## Model

| member | source | states |
|---|---|---|
| `ErgogenHelper.TracesEqual` | ergogen_helper.py:25-30 | two traces are equal iff they differ at most in width, layer and net |
| `ErgogenHelper.TracesEqualSymmetric` | ergogen_helper.py:25-30 | trace equality does not depend on the order of its two arguments |
| `ErgogenHelper.TracesEqualIgnoresExtra` | ergogen_helper.py:25-30 | changing only width, layer or net keeps a trace equal to itself and does not change whether two traces are equal |
| `ErgogenHelper.TracesEqualOrdered` | ergogen_helper.py:25-30 | a trace equals its reversal iff its start is its end: endpoints are compared in order |
| `ErgogenHelper.TracesEqualEquivalence` | ergogen_helper.py:25-30 | trace equality is reflexive and transitive |
| `ErgogenHelper.PcbHasTrace` | ergogen_helper.py:33-40 | the scan over the board's current tracks returns true iff some track equals the lookup trace; if reading the tracks raises, the reason is passed on |
| `ErgogenHelper.Merged` | ergogen_helper.py:56-66 | the destination after a copy that does not raise keeps the old tracks at the front and grows by at most the number of source traces |
| `ErgogenHelper.Kept` | ergogen_helper.py:56-66 | the traces a copy appends are no more than the source traces, and each of them is a source trace |
| `ErgogenHelper.KeptAvoidsDestination` | ergogen_helper.py:57-66 | no trace the copy appends has an equal trace in the old destination |
| `ErgogenHelper.Skipped` | ergogen_helper.py:56-65 | a copy never skips more traces than the source has |
| `ErgogenHelper.HasMergedIff` | ergogen_helper.py:57-66 | after the copy, the destination has a trace equal to t iff the old destination or the source had one |
| `ErgogenHelper.MergedIsFilter` | ergogen_helper.py:57-66 | the copy appends exactly the source traces with no equal trace in the destination or earlier in the source, and skips the others |
| `ErgogenHelper.KeptIsSubsequence` | ergogen_helper.py:57-66 | the appended traces appear in source order |
| `ErgogenHelper.MergedKeepsDestination` | ergogen_helper.py:56-71 | the old tracks stay at the front, in order, and the destination grows by total minus skipped |
| `ErgogenHelper.MergedCoversSource` | ergogen_helper.py:57-66 | afterwards every source trace has an equal trace in the destination |
| `ErgogenHelper.MergedAddsNoDuplicates` | ergogen_helper.py:33-66 | no appended trace equals an earlier trace, whether that trace was already there or was appended by the same call |
| `ErgogenHelper.MergeOfPresentTraces` | ergogen_helper.py:59-71 | if the destination already has every source trace, every trace is skipped and the destination is unchanged |
| `ErgogenHelper.SelfMerge` | ergogen_helper.py:53-71 | copying a board into itself skips every trace and copies none |
| `ErgogenHelper.MergeIdempotent` | ergogen_helper.py:53-71 | repeating a copy changes nothing and skips every trace |
| `ErgogenHelper.CopyTraces` | ergogen_helper.py:53-72 | it fails with the get_traces error if the source cannot be read. It succeeds iff no pass raises; then the destination is `Merged`, skipped is `Skipped`, and copied + skipped = total = the number of source traces. If a pass raises, the error is "Could not copy trace" with that pass's reason, the contract identifies the first raising pass k, and the destination is the merge of the first k source traces: traces appended by earlier passes stay, and nothing is rolled back |
| `ErgogenHelperLegacy.CopyTraces` | ergogen-helper.py:25-33 | it succeeds iff every Add succeeds; then the destination is the old tracks followed by all source traces. If Add raises first at pass k, the destination is the old tracks plus source traces 0..k-1, and the error is "Could not copy trace" |
| `ErgogenHelperLegacy.DedupMatchesAppendAllIff` | ergogen-helper.py:25-33 | both scripts' copies leave the same destination iff no source trace has an equal trace in the destination or earlier in the source |
| `ErgogenHelperLegacy.DedupIsSubsequenceOfAppendAll` | ergogen-helper.py:28-30 | the current copy's result is the earlier copy's result with some source traces deleted |
| `ErgogenHelperLegacy.SelfMergeContrast` | ergogen-helper.py:28-30 | copying a non-empty board into itself leaves it unchanged with the current script; the earlier script's result differs from that |
| `BoardIo.GetTraces` | ergogen_helper.py:15-22 | returns the board's tracks unchanged, or a TracesUnreadable error whose message starts with "ERROR: Could not get traces:" |
| `BoardIo.Message` | ergogen_helper.py:19-90 | each exception's text starts with the words for its step (the backup and save texts name the path) and ends with the reason raised by the failing call |
| `BoardIo.MessageNamesStep` | ergogen_helper.py:19-90 | the messages for unreadable traces, a failed copy, a failed backup and a failed save never coincide |
| `BoardIo.BackupPcb` | ergogen_helper.py:80-85 | the backup is named with `with_stem` outside the `try`: an invalid name gives `InvalidBackupPath`, a failed copy gives `BackupFailed` with the backup path and reason, and either leaves files and journal unchanged. On success the board file is copied to a different path, and the copy is recorded |
| `BoardIo.SavePcb` | ergogen_helper.py:75-91 | a backup is attempted only when asked for and the file exists. A backup that cannot be named or made stops the call with every file unchanged. Otherwise the journal shows the backup copy strictly before the overwrite. On success the backup holds the file's previous content and the file holds the board |
| `Platform.Board.GetTracks` | ergogen_helper.py:17 | reading the tracks returns the board's current tracks, or fails with the reason raised |
| `Platform.Board.Add` | ergogen_helper.py:66 | a successful Add appends exactly that trace; a raising Add leaves the tracks as they were |
| `Platform.Board.Save` | ergogen_helper.py:88 | a successful save replaces the file at the path with the board's tracks and records the write; a raising save changes nothing |
| `Platform.FileSystem.Exists` | ergogen_helper.py:79 | a path exists iff the file system holds a file there |
| `Platform.FileSystem.Copy` | ergogen_helper.py:82 | a copy fails when the source file is missing; otherwise it ends as the call ends, and on success the target holds the source's content, whatever it held before, and the copy is recorded |
| `Paths.LastIndexOf` | ergogen_helper.py:80 | the last position of a character in a string, or -1; used by pathlib to split off the directory and the suffix |
| `Paths.Parent` | ergogen_helper.py:80 | a path's directory part is a prefix of the path and is empty or ends in `/` |
| `Paths.Name` | ergogen_helper.py:80 | a path's name is the end of the path and holds no `/` |
| `Paths.NameSplit` | ergogen_helper.py:80 | a path is its directory part followed by its name |
| `Paths.StemSuffixSplit` | ergogen_helper.py:80 | `Stem` and `Suffix` split a name: stem + suffix = name; a suffix is a dot and at least one more character with no further dot, after a non-empty stem |
| `Paths.WithName` | ergogen_helper.py:80 | a new name that pathlib accepts becomes the name of a path in the same directory; `.` is refused |
| `Paths.WithStem` | ergogen_helper.py:80 | the new path keeps the directory, and its name is the new stem followed by the old suffix |
| `Paths.BackupPath` | ergogen_helper.py:80 | a backup path is never the path it is made from |
| `Paths.BackupPathShape` | ergogen_helper.py:80 | the backup path has the same directory, and its name is stem + "_" + backup name + suffix |
| `Paths.BackupPathDefined` | ergogen_helper.py:80 | a backup path exists iff the path has a file name and the backup name contains no `/` |
| `Paths.BackupPathDistinct` | ergogen_helper.py:80-82 | the backup path is never the path of the file it protects |
| `Paths.BackupPathReparses` | ergogen_helper.py:80 | if the file name has a suffix, the backup's name has stem = old stem + "_" + backup name and the same suffix |
| `Paths.BackupInDirectory` | ergogen_helper.py:80 | the backup of `dir/name` is `dir/<new name>`, in the same directory |
| `Paths.BackupOfBareName` | ergogen-helper.py:41 | a file name with no directory gets a backup name with no directory |
| `Paths.BackupOfBoardFile` | ergogen-helper.py:41 | `board.kicad_pcb` is backed up as `board_orig.kicad_pcb` |
| `Paths.SuffixlessNameGainsSuffix` | ergogen-helper.py:41 | if a name has no suffix, a dot in the backup name becomes the backup's suffix: `README` with `v1.2` gives `README_v1.2`, whose suffix is `.2` |

`BoardIo.GetTraces` and `BoardIo.SavePcb` also model ergogen-helper.py:15-22
and ergogen-helper.py:36-52, which are the same code as in the current script.

## Left out

- Command-line handling is not modelled: `main`, `cmd_copy_traces`,
  `cmd_update_pcb`, argparse, `print` and `exit(-1)`. These only dispatch and
  make no decisions.
- Loading a board is not modelled. `pcbnew.LoadBoard` and `GetFileName` are
  replaced by a `Board` object that is given with its path.
- `get_trace_descr` and `GetLength` are not modelled. They compute a
  floating-point length and are used only in warning text.
- The printed WARN and summary lines are not modelled.
  `ErgogenHelper.CopyTraces` returns the counts it would print.
- The native KiCad objects are not modelled. `GetTracks` is read as a snapshot
  of values, and `Add` appends a value. A trace object's ownership, and its
  reparenting from the source board to the destination, are out of scope.
- Where `Add` places a track on the board is not modelled: the model appends
  it at the end. Every statement that puts the old tracks before the new ones
  holds for that placement only: `Platform.Board.Add`, the prefix ensures of
  `Merged`, `MergedKeepsDestination`, `KeptIsSubsequence`, the comparisons
  with old + source in `DedupMatchesAppendAllIff` and
  `DedupIsSubsequenceOfAppendAll`, and the prefix parts of both `CopyTraces`
  contracts. Membership, counts and duplicate-freedom do not depend on where
  a track goes.
- Path normalisation is not modelled. Repeated or trailing separators, `.`
  components and Windows separators are not handled. The file name is the
  text after the last `/`.
- File-system detail is not modelled: `shutil.copy` into a directory, file
  metadata, and the time between `os.path.exists` and the copy.
- `BoardIo.SavePcb` treats a failed `shutil.copy` or `Save` as leaving every
  file as it was. A partly written file is not modelled.
- Lock-state filtering, locking every trace and the "unlocked-only" mode are
  not in the code, so they are not modelled.
