/** One pass of the compression loop of `main` (zoterobulkcompression.py, lines 72-96),
    as a function of the disk before it: what Ghostscript is asked, what the size
    comparison decides, and what the backup, overwrite and marker steps leave behind.
    `Pipeline.Session.Process` performs this pass on the session's fields. */
module Iteration {
  import opened Text
  import opened Vault
  import opened Markers
  import opened Ghostscript
  import opened Scanner

  /** The temporary output of Ghostscript, `Path('temp.pdf')`. */
  const TempName: string := "temp.pdf"

  /** Plain ASCII text as bytes (all the text the script writes into a marker is ASCII). */
  function Ascii(s: string): (r: Bytes)
    ensures |r| == |s|
  {
    seq(|s|, i requires 0 <= i < |s| => (s[i] as int % 256) as bv8)
  }

  /** Content of a marker: `f"Compressed at: {timestamp}."`, the timestamp being opaque. */
  function MarkerText(stamp: Bytes): Bytes
  {
    Ascii("Compressed at: ") + stamp + Ascii(".")
  }

  /** What Ghostscript leaves at the temporary path: its output if it wrote one, otherwise
      whatever was there before. */
  function AfterTool(previous: Option<Bytes>, produced: Option<Bytes>): Option<Bytes>
  {
    if produced.Some? then produced else previous
  }

  /** The result of one pass of the loop. */
  datatype Outcome =
    | NotAttempted                          // dry run: nothing is done
    | Committed(output: Bytes, saved: nat)  // backed up, overwritten and marked
    | AbortedLarger(output: Bytes)          // output larger than the original
    | Stopped(fault: Fault)                 // the run ends here

  function Saved(o: Outcome): nat
  {
    if o.Committed? then o.saved else 0
  }

  /** The sum of the savings of a sequence of outcomes. */
  function TotalSaved(os: seq<Outcome>): (r: int)
    ensures r >= 0
  {
    if os == [] then 0 else TotalSaved(os[..|os| - 1]) + Saved(os[|os| - 1])
  }

  lemma TotalSavedSnoc(os: seq<Outcome>, o: Outcome)
    ensures TotalSaved(os + [o]) == TotalSaved(os) + Saved(o)
  {
    assert (os + [o])[..|os|] == os;
  }

  /** The `compress` call for one entry of one directory, up to the subprocess. */
  function Command(dir: ItemDir, e: Entry, gsPath: string, power: int): Result<seq<string>, Fault>
  {
    CompressCommand(gsPath, FilePath(dir.path, e.name), TempName, e.node.File?, power)
  }

  /** What the temporary file holds after the subprocess for entry `j` of `dir`:
      `None` when `compress` exits before it, or when there is no file to measure. */
  function ToolOutput(dir: ItemDir, j: nat, gsPath: string, power: int,
                      tool: (seq<string>, Bytes) -> Option<Bytes>, previous: Option<Bytes>): Option<Bytes>
    requires j < |dir.entries|
  {
    var e := dir.entries[j];
    var cmd := Command(dir, e, gsPath, power);
    if cmd.Ok? then AfterTool(previous, tool(cmd.value, e.node.content)) else None
  }

  /** The backup location of line 83: the last `'\\'`-separated segment of the parent
      directory's path, then the file name. */
  function BackupOf(dir: ItemDir, e: Entry): BackupKey
  {
    BackupKey(LastSegment(dir.path, PathSep), e.name)
  }

  /** `split('\\')[-1]` of a parent path without `'\\'` is the whole path. */
  lemma BackupFolderOfUnsplitPath(dir: ItemDir, e: Entry)
    requires PathSep !in dir.path
    ensures BackupOf(dir, e).folder == dir.path
  {
  }

  /** A Windows item path `<root>\<item>` gives the backup folder `<item>`. */
  lemma BackupFolderOfWindowsPath(root: string, item: string, e: Entry)
    requires PathSep !in item
    ensures BackupOf(ItemDir(root + [PathSep] + item, []), e).folder == item
  {
    LastSegmentAfterSep(root, item, PathSep);
  }

  /** What the script touches on disk: the item directories, `temp.pdf`, the run's backup
      folder, and the running `total_reduction`. */
  datatype Disk = Disk(vault: seq<ItemDir>, temp: Option<Bytes>, backups: map<BackupKey, Bytes>, total: int)

  /** Every item directory lists each name at most once. */
  ghost predicate Sound(s: Disk)
  {
    AllUnique(s.vault)
  }

  /** Entry `c` exists on disk `s`. */
  predicate Present(s: Disk, c: Candidate)
  {
    c.dir < |s.vault| && c.entry < |s.vault[c.dir].entries|
  }

  /** The directory's entries after lines 86-93: entry `j` overwritten with `output`,
      then the marker file written beside it, if that write succeeds. */
  function Settled(es: seq<Entry>, j: nat, output: Bytes, name: string, text: Bytes): seq<Entry>
    requires j < |es|
  {
    var written := es[j := Entry(es[j].name, File(output))];
    var m := WriteFile(written, name, text);
    if m.Ok? then m.value else written
  }

  /** Lines 82-93, once the output is known to be no larger than the original: the
      backup copy (unless `--nobackup`), the saving added to the total, the original
      overwritten with the output, then the marker written beside it. */
  function CommitStep(s: Disk, c: Candidate, output: Bytes, power: int, nobackup: bool, stamp: Bytes)
    : (Disk, Outcome)
    requires Present(s, c)
    requires s.vault[c.dir].entries[c.entry].node.File?
    requires |output| <= Size(s.vault[c.dir].entries[c.entry].node)
  {
    var dir := s.vault[c.dir];
    var e := dir.entries[c.entry];
    var backups := if nobackup then s.backups else s.backups[BackupOf(dir, e) := e.node.content];
    var total := s.total + Size(e.node) - |output|;
    var written := dir.entries[c.entry := Entry(e.name, File(output))];
    var m := WriteFile(written, MarkerName(power), MarkerText(stamp));
    (Disk(s.vault[c.dir := ItemDir(dir.path, Settled(dir.entries, c.entry, output, MarkerName(power), MarkerText(stamp)))],
          s.temp, backups, total),
     if m.Ok? then Committed(output, Size(e.node) - |output|) else Stopped(m.error))
  }

  /** One non-dry-run pass for candidate `c` (lines 77-96): the checks of `compress`,
      Ghostscript writing `temp.pdf`, the ratio of line 130 (a division by the input's
      size), the comparison of line 79, the commit, and the
      removal of `temp.pdf` in both branches. */
  function Step(s: Disk, c: Candidate, power: int, nobackup: bool, gsPath: string,
                tool: (seq<string>, Bytes) -> Option<Bytes>, stamp: Bytes): (Disk, Outcome)
    requires Present(s, c)
  {
    var dir := s.vault[c.dir];
    var e := dir.entries[c.entry];
    match Command(dir, e, gsPath, power)
    case Err(f) => (s, Stopped(f))
    case Ok(argv) =>
      var temp := AfterTool(s.temp, tool(argv, e.node.content));
      if temp.None? then (s, Stopped(NoToolOutput))
      else if Size(e.node) == 0 then (s.(temp := temp), Stopped(EmptyInput))
      else if |temp.value| > Size(e.node) then (s.(temp := None), AbortedLarger(temp.value))
      else
        var r := CommitStep(s.(temp := temp), c, temp.value, power, nobackup, stamp);
        (if r.1.Stopped? then r.0 else r.0.(temp := None), r.1)
  }

  /** When `compress` exits before the subprocess, or Ghostscript leaves no file to
      measure, the run ends with nothing changed. */
  lemma StepWithoutOutput(s: Disk, c: Candidate, power: int, nobackup: bool, gsPath: string,
                          tool: (seq<string>, Bytes) -> Option<Bytes>, stamp: Bytes)
    requires Present(s, c)
    requires ToolOutput(s.vault[c.dir], c.entry, gsPath, power, tool, s.temp).None?
    ensures var cmd := Command(s.vault[c.dir], s.vault[c.dir].entries[c.entry], gsPath, power);
      Step(s, c, power, nobackup, gsPath, tool, stamp) ==
        (s, if cmd.Err? then Stopped(cmd.error) else Stopped(NoToolOutput))
  {
  }

  /** An empty original (a candidate only under `-max 0`) ends the run at the ratio of
      line 130, a division by its size: Ghostscript has written `temp.pdf`, which stays,
      and nothing else has changed. */
  lemma StepStopsOnEmptyInput(s: Disk, c: Candidate, power: int, nobackup: bool, gsPath: string,
                              tool: (seq<string>, Bytes) -> Option<Bytes>, stamp: Bytes)
    requires Present(s, c)
    requires ToolOutput(s.vault[c.dir], c.entry, gsPath, power, tool, s.temp).Some?
    requires Size(s.vault[c.dir].entries[c.entry].node) == 0
    ensures var out := ToolOutput(s.vault[c.dir], c.entry, gsPath, power, tool, s.temp);
      Step(s, c, power, nobackup, gsPath, tool, stamp) == (s.(temp := out), Stopped(EmptyInput))
  {
  }

  /** A non-empty original whose output is strictly larger: the output is thrown away,
      the original, the markers, the backups and the total stay as they were, and
      `temp.pdf` is gone. */
  lemma StepAbortsLarger(s: Disk, c: Candidate, power: int, nobackup: bool, gsPath: string,
                         tool: (seq<string>, Bytes) -> Option<Bytes>, stamp: Bytes)
    requires Present(s, c)
    requires var out := ToolOutput(s.vault[c.dir], c.entry, gsPath, power, tool, s.temp);
      out.Some? && 0 < Size(s.vault[c.dir].entries[c.entry].node) < |out.value|
    ensures var out := ToolOutput(s.vault[c.dir], c.entry, gsPath, power, tool, s.temp);
      Step(s, c, power, nobackup, gsPath, tool, stamp) == (s.(temp := None), AbortedLarger(out.value))
  {
  }

  /** The marker's path never passes the extension test of `compress`: its name ends in
      `compressed`, not in a `pdf` extension. */
  lemma MarkerPathIsNoPdf(dir: string, power: int)
    ensures !IsPdfName(FilePath(dir, MarkerName(power)))
  {
    var m := MarkerName(power);
    assert m[4] == '.';
    PathTestFollowsName(dir, m);
    PdfNameShape(m);
    assert m[|m| - 3] == 's';
  }

  /** Overwriting file `j` with new bytes, then writing the file `name` beside it:
      nothing is lost or renamed, entry `j` keeps the new bytes, every other entry but
      one called `name` keeps its bytes, and the second write fails exactly when a
      directory is called `name`. */
  lemma OverwriteThenWrite(es: seq<Entry>, j: nat, output: Bytes, name: string, text: Bytes)
    requires j < |es| && es[j].name != name && UniqueNames(es)
    requires es[j].node.File?
    ensures var m := WriteFile(es[j := Entry(es[j].name, File(output))], name, text);
      var after := Settled(es, j, output, name, text);
      && EntriesGrow(es, after) && UniqueNames(after)
      && j < |after| && after[j] == Entry(es[j].name, File(output))
      && (forall k :: 0 <= k < |es| && k != j && es[k].name != name ==> after[k] == es[k])
      && (m.Ok? <==> !FolderNamed(es, name))
      && (m.Ok? ==> HasEntry(after, name))
      && (m.Err? ==> m.error == MarkerIsFolder)
  {
    var written := es[j := Entry(es[j].name, File(output))];
    assert EntriesGrow(es, written);
    assert UniqueNames(written) by {
      assert forall i :: 0 <= i < |written| ==> written[i].name == es[i].name;
    }
    var m := WriteFile(written, name, text);
    WriteFileEffect(written, name, text);
    if m.Ok? {
      assert m.value[j] == written[j];
    }
    if FolderNamed(es, name) {
      var k :| 0 <= k < |es| && es[k].name == name && es[k].node.Folder?;
      assert written[k] == es[k];
    } else {
      assert forall k :: 0 <= k < |written| && written[k].name == name ==> written[k].node.File?;
    }
  }

  /** Settling one directory keeps every directory free of duplicate names. */
  lemma SettledKeepsUnique(v: seq<ItemDir>, d: nat, j: nat, output: Bytes, name: string, text: Bytes)
    requires d < |v| && AllUnique(v) && j < |v[d].entries|
    requires v[d].entries[j].name != name && v[d].entries[j].node.File?
    ensures AllUnique(v[d := ItemDir(v[d].path, Settled(v[d].entries, j, output, name, text))])
  {
    OverwriteThenWrite(v[d].entries, j, output, name, text);
    ReplaceEntries(v, d, Settled(v[d].entries, j, output, name, text));
  }

  /** Only unfolds `CommitStep` into its components, adding nothing to its definition but
      the error of a failed marker write; a stepping stone for the lemmas that state what
      the commit means (`StepCommits`). */
  lemma CommitStepEffect(s: Disk, c: Candidate, output: Bytes, power: int, nobackup: bool, stamp: Bytes)
    requires Present(s, c)
    requires s.vault[c.dir].entries[c.entry].node.File?
    requires |output| <= Size(s.vault[c.dir].entries[c.entry].node)
    requires s.vault[c.dir].entries[c.entry].name != MarkerName(power)
    requires UniqueNames(s.vault[c.dir].entries)
    ensures var dir := s.vault[c.dir];
      var e := dir.entries[c.entry];
      var r := CommitStep(s, c, output, power, nobackup, stamp);
      var m := WriteFile(dir.entries[c.entry := Entry(e.name, File(output))], MarkerName(power), MarkerText(stamp));
      && r.0.backups == (if nobackup then s.backups else s.backups[BackupOf(dir, e) := e.node.content])
      && r.0.total == s.total + |e.node.content| - |output|
      && r.0.temp == s.temp
      && r.0.vault == s.vault[c.dir := ItemDir(dir.path, Settled(dir.entries, c.entry, output, MarkerName(power), MarkerText(stamp)))]
      && (r.1.Committed? <==> m.Ok?)
      && (r.1.Committed? ==> r.1 == Committed(output, |e.node.content| - |output|))
      && (!r.1.Committed? ==> r.1 == Stopped(MarkerIsFolder))
  {
    var dir := s.vault[c.dir];
    OverwriteThenWrite(dir.entries, c.entry, output, MarkerName(power), MarkerText(stamp));
  }

  /** An output no larger than the original leads to the commit, for a file that passed
      every check of `compress` and is not itself the marker. */
  lemma StepEntersCommit(s: Disk, c: Candidate, power: int, nobackup: bool, gsPath: string,
                         tool: (seq<string>, Bytes) -> Option<Bytes>, stamp: Bytes)
    requires Present(s, c)
    requires var out := ToolOutput(s.vault[c.dir], c.entry, gsPath, power, tool, s.temp);
      out.Some? && 0 < Size(s.vault[c.dir].entries[c.entry].node) && |out.value| <= Size(s.vault[c.dir].entries[c.entry].node)
    ensures var dir := s.vault[c.dir];
      var e := dir.entries[c.entry];
      var out := ToolOutput(dir, c.entry, gsPath, power, tool, s.temp);
      && e.node.File? && 0 <= power <= MaxPower && IsPdfName(FilePath(dir.path, e.name))
      && e.name != MarkerName(power)
      && var k := CommitStep(s.(temp := out), c, out.value, power, nobackup, stamp);
         Step(s, c, power, nobackup, gsPath, tool, stamp) ==
           (if k.1.Stopped? then k.0 else k.0.(temp := None), k.1)
  {
    MarkerPathIsNoPdf(s.vault[c.dir].path, power);
  }

  /** A non-empty original whose output is no larger is committed: the original bytes are
      backed up under `<item folder>/<file name>` (unless `--nobackup`), the total grows by
      the saving, the file now holds the output, every other entry but the marker keeps
      its bytes, no other directory changes, and the marker for this power sits in the
      same directory, after which `temp.pdf` is removed. The only way this fails is a
      directory carrying the marker's name; the run then ends with `temp.pdf` left behind. */
  lemma StepCommits(s: Disk, c: Candidate, power: int, nobackup: bool, gsPath: string,
                    tool: (seq<string>, Bytes) -> Option<Bytes>, stamp: Bytes)
    requires Present(s, c) && UniqueNames(s.vault[c.dir].entries)
    requires var out := ToolOutput(s.vault[c.dir], c.entry, gsPath, power, tool, s.temp);
      out.Some? && 0 < Size(s.vault[c.dir].entries[c.entry].node) && |out.value| <= Size(s.vault[c.dir].entries[c.entry].node)
    ensures var dir := s.vault[c.dir];
      var e := dir.entries[c.entry];
      var out := ToolOutput(dir, c.entry, gsPath, power, tool, s.temp).value;
      var r := Step(s, c, power, nobackup, gsPath, tool, stamp);
      && e.node.File? && 0 <= power <= MaxPower && IsPdfName(FilePath(dir.path, e.name))
      && EntriesGrow(dir.entries, r.0.vault[c.dir].entries)
      && UniqueNames(r.0.vault[c.dir].entries)
      && r.0.backups == (if nobackup then s.backups else s.backups[BackupOf(dir, e) := e.node.content])
      && r.0.total == s.total + |e.node.content| - |out|
      && c.dir < |r.0.vault| && r.0.vault == s.vault[c.dir := ItemDir(dir.path, r.0.vault[c.dir].entries)]
      && c.entry < |r.0.vault[c.dir].entries|
      && r.0.vault[c.dir].entries[c.entry] == Entry(e.name, File(out))
      && (forall j :: 0 <= j < |dir.entries| && j != c.entry && dir.entries[j].name != MarkerName(power) ==>
            r.0.vault[c.dir].entries[j] == dir.entries[j])
      && (r.1.Committed? <==> !FolderNamed(dir.entries, MarkerName(power)))
      && (r.1.Committed? ==>
            r.1 == Committed(out, |e.node.content| - |out|) && r.0.temp == None &&
            HasEntry(r.0.vault[c.dir].entries, MarkerName(power)))
      && (!r.1.Committed? ==> r.1 == Stopped(MarkerIsFolder) && r.0.temp == Some(out))
  {
    var out := ToolOutput(s.vault[c.dir], c.entry, gsPath, power, tool, s.temp);
    StepEntersCommit(s, c, power, nobackup, gsPath, tool, stamp);
    CommitStepEffect(s.(temp := out), c, out.value, power, nobackup, stamp);
    OverwriteThenWrite(s.vault[c.dir].entries, c.entry, out.value, MarkerName(power), MarkerText(stamp));
  }

  /** What a pass `r` from disk `s` for file `c` keeps: no entry is lost, renamed or
      changes kind, and names stay unique; it is attempted; no other directory changes,
      and in `c`'s directory every entry but `c` and the marker keeps its bytes; a pass
      that neither commits nor meets a directory named like the marker changes no file
      and no backup; except for that directory the total grows by exactly the saving,
      and only that directory, present before the pass, stops a commit; unless the run
      stops `temp.pdf` is gone; with `--nobackup` the backup folder is untouched; a commit
      leaves the marker of this power beside the file. */
  ghost predicate Keeps(s: Disk, c: Candidate, power: int, nobackup: bool, r: (Disk, Outcome))
  {
    && Sound(r.0) && DirsGrow(s.vault, r.0.vault)
    && !r.1.NotAttempted?
    && (forall d :: 0 <= d < |s.vault| && d != c.dir ==> r.0.vault[d] == s.vault[d])
    && (c.dir < |s.vault| ==>
          forall j :: 0 <= j < |s.vault[c.dir].entries| && j != c.entry &&
                      s.vault[c.dir].entries[j].name != MarkerName(power) ==>
            r.0.vault[c.dir].entries[j] == s.vault[c.dir].entries[j])
    && (!r.1.Committed? && r.1 != Stopped(MarkerIsFolder) ==> r.0.vault == s.vault && r.0.backups == s.backups)
    && (r.1 != Stopped(MarkerIsFolder) ==> r.0.total == s.total + Saved(r.1))
    && (r.1 == Stopped(MarkerIsFolder) ==>
          0 <= power <= MaxPower && c.dir < |s.vault| && FolderNamed(s.vault[c.dir].entries, MarkerName(power)))
    && (!r.1.Stopped? ==> r.0.temp == None)
    && (nobackup ==> r.0.backups == s.backups)
    && (r.1.Committed? ==>
          && 0 <= power <= MaxPower && c.dir < |r.0.vault|
          && HasEntry(r.0.vault[c.dir].entries, MarkerName(power)))
  }

  /** Every pass keeps these, whatever Ghostscript does. */
  lemma StepInvariants(s: Disk, c: Candidate, power: int, nobackup: bool, gsPath: string,
                       tool: (seq<string>, Bytes) -> Option<Bytes>, stamp: Bytes)
    requires Present(s, c) && Sound(s)
    ensures Keeps(s, c, power, nobackup, Step(s, c, power, nobackup, gsPath, tool, stamp))
  {
    var dir := s.vault[c.dir];
    var e := dir.entries[c.entry];
    var out := ToolOutput(dir, c.entry, gsPath, power, tool, s.temp);
    if out.None? {
      StepWithoutOutput(s, c, power, nobackup, gsPath, tool, stamp);
    } else if Size(e.node) == 0 {
      StepStopsOnEmptyInput(s, c, power, nobackup, gsPath, tool, stamp);
    } else if |out.value| > Size(e.node) {
      StepAbortsLarger(s, c, power, nobackup, gsPath, tool, stamp);
    } else {
      CommitKeeps(s, c, power, nobackup, gsPath, tool, stamp);
    }
  }

  /** Every pass keeps each directory free of duplicate names. */
  lemma StepKeepsUnique(s: Disk, c: Candidate, power: int, nobackup: bool, gsPath: string,
                        tool: (seq<string>, Bytes) -> Option<Bytes>, stamp: Bytes)
    requires Present(s, c) && Sound(s)
    ensures Sound(Step(s, c, power, nobackup, gsPath, tool, stamp).0)
  {
    StepInvariants(s, c, power, nobackup, gsPath, tool, stamp);
  }

  lemma CommitKeeps(s: Disk, c: Candidate, power: int, nobackup: bool, gsPath: string,
                    tool: (seq<string>, Bytes) -> Option<Bytes>, stamp: Bytes)
    requires Present(s, c) && Sound(s)
    requires var out := ToolOutput(s.vault[c.dir], c.entry, gsPath, power, tool, s.temp);
      out.Some? && 0 < Size(s.vault[c.dir].entries[c.entry].node) && |out.value| <= Size(s.vault[c.dir].entries[c.entry].node)
    ensures Keeps(s, c, power, nobackup, Step(s, c, power, nobackup, gsPath, tool, stamp))
  {
    StepCommits(s, c, power, nobackup, gsPath, tool, stamp);
    var r := Step(s, c, power, nobackup, gsPath, tool, stamp);
    ReplaceEntries(s.vault, c.dir, r.0.vault[c.dir].entries);
  }
}
