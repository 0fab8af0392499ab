/** `main` of zoterobulkcompression.py: argument defaulting, the scan of the storage
    directory, and the loop that compresses, checks, backs up, overwrites and marks each
    candidate. The file system is held in a `Session` object whose fields the methods
    update, as the script updates the disk. */
module Pipeline {
  import opened Text
  import opened Vault
  import opened Markers
  import opened Scanner
  import opened Ghostscript
  import opened Iteration
  import opened Loop

  /** Default of `-p`. */
  const PowerDefault: int := 2
  /** Default of `-max`, in kilobytes. */
  const MaxDefault: int := 5000
  /** The parsed command line; an omitted `-p` or `-max` is `None`. */
  datatype Args = Args(power: Option<int>, nobackup: bool, dryrun: bool, max: Option<int>)

  /** Lines 39-43: only an omitted option takes its default; an explicit value, 0
      included, is kept. */
  function Resolve(a: Args): (c: Config)
    ensures c.power == (if a.power.None? then PowerDefault else a.power.value)
    ensures c.max == (if a.max.None? then MaxDefault else a.max.value)
    ensures c.nobackup == a.nobackup && c.dryrun == a.dryrun
    ensures a.power.None? ==> Quality(c.power) == Some("/printer")
  {
    Config(if a.power.Some? then a.power.value else PowerDefault,
           a.nobackup, a.dryrun,
           if a.max.Some? then a.max.value else MaxDefault)
  }

  /** Line 58: `len([file for file in child.iterdir() if check_ignore_conditions(...)]) > 0`,
      which asks the predicate of every entry. */
  method HasMarker(es: seq<Entry>, power: int) returns (marked: bool)
    ensures marked == Skipped(es, power)
  {
    marked := false;
    var j := 0;
    while j < |es|
      invariant 0 <= j <= |es|
      invariant marked == exists i :: 0 <= i < j && IsSkipMarker(es[i].name, power)
    {
      var hit := CheckIgnoreConditions(es[j].name, power);
      marked := marked || hit;
      j := j + 1;
    }
  }

  /** Line 59: the entries of directory `d` with a `pdf` extension and a size of at
      least `max` kilobytes, in directory order. */
  method FindPdfs(d: nat, es: seq<Entry>, max: int) returns (found: seq<Candidate>)
    ensures found == PdfsIn(d, es, max)
  {
    found := [];
    var j := 0;
    while j < |es|
      invariant 0 <= j <= |es|
      invariant found == PdfsIn(d, es[..j], max)
    {
      var keep := PassesFilters(es[j], max);
      if keep {
        found := found + [Candidate(d, j)];
      }
      PdfsInStep(d, es, j, max);
      j := j + 1;
    }
    assert es[..j] == es;
  }

  /** The script's view of the disk during one run, and its running total. */
  class Session {
    /** The item directories under `<Zotero>/storage`. */
    var vault: seq<ItemDir>
    /** `temp.pdf` in the working directory, if it exists. */
    var temp: Option<Bytes>
    /** Whether `compression_backups/<run timestamp>` exists. */
    var backupRootMade: bool
    /** The files under `compression_backups/<run timestamp>`. */
    var backups: map<BackupKey, Bytes>
    /** `total_reduction`, in bytes. */
    var totalReduction: int

    /** The fields as a value, for the specification functions of `Iteration`. */
    function State(): Disk
      reads this
    {
      Disk(vault, temp, backups, totalReduction)
    }

    /** A directory never lists two entries under one name. */
    ghost predicate Valid()
      reads this
    {
      Sound(State())
    }

    constructor (vault: seq<ItemDir>, temp: Option<Bytes>)
      requires forall d :: 0 <= d < |vault| ==> UniqueNames(vault[d].entries)
      ensures Valid()
      ensures this.vault == vault && this.temp == temp
      ensures !backupRootMade && backups == map[] && totalReduction == 0
    {
      this.vault := vault;
      this.temp := temp;
      backupRootMade := false;
      backups := map[];
      totalReduction := 0;
    }

    /** Lines 53-60: for each item directory, unless one of its entries is a skip
        marker, append the entries that pass the extension and size filter. */
    method Scan(power: int, max: int) returns (pdfs: seq<Candidate>)
      ensures pdfs == Candidates(vault, power, max)
    {
      pdfs := [];
      var d := 0;
      while d < |vault|
        invariant 0 <= d <= |vault|
        invariant pdfs == Candidates(vault[..d], power, max)
      {
        var marked := HasMarker(vault[d].entries, power);
        if !marked {
          var found := FindPdfs(d, vault[d].entries, max);
          pdfs := pdfs + found;
        }
        CandidatesStep(vault, d, power, max);
        d := d + 1;
      }
      assert vault[..d] == vault;
    }

    /** Lines 64-69: the run's backup folder is made up front unless `--nobackup` is
        given, dry runs included. */
    method PrepareBackupRoot(nobackup: bool)
      modifies this`backupRootMade
      ensures backupRootMade == (old(backupRootMade) || !nobackup)
    {
      if !nobackup {
        backupRootMade := true;
      }
    }

    /** Lines 82-93, once the output is known to be no larger than the original: the
        backup copy of the original bytes (unless `--nobackup`), the saving added to
        the total, the original overwritten with the output, then the marker written
        beside it. */
    method Commit(c: Candidate, output: Bytes, power: int, nobackup: bool, stamp: Bytes)
      returns (outcome: Outcome)
      requires Valid() && Present(State(), c)
      requires vault[c.dir].entries[c.entry].node.File?
      requires vault[c.dir].entries[c.entry].name != MarkerName(power)
      requires |output| <= Size(vault[c.dir].entries[c.entry].node)
      modifies this`vault, this`backups, this`totalReduction
      ensures Valid()
      ensures State() == CommitStep(old(State()), c, output, power, nobackup, stamp).0
      ensures outcome == CommitStep(old(State()), c, output, power, nobackup, stamp).1
    {
      ghost var k := CommitStep(State(), c, output, power, nobackup, stamp);
      var dir := vault[c.dir];
      var e := dir.entries[c.entry];
      assert k.0.backups == (if nobackup then backups else backups[BackupOf(dir, e) := e.node.content]);
      assert k.0.total == totalReduction + (Size(e.node) - |output|);
      if !nobackup {
        backups := backups[BackupOf(dir, e) := e.node.content];
      }
      totalReduction := totalReduction + (Size(e.node) - |output|);
      var written := dir.entries[c.entry := Entry(e.name, File(output))];
      vault := vault[c.dir := ItemDir(dir.path, written)];
      var marked := WriteFile(written, MarkerName(power), MarkerText(stamp));
      if marked.Ok? {
        vault := vault[c.dir := ItemDir(dir.path, marked.value)];
        outcome := Committed(output, Size(e.node) - |output|);
      } else {
        outcome := Stopped(marked.error);
      }
      assert vault == k.0.vault by {
        assert k.0.vault == old(vault)[c.dir := ItemDir(dir.path, Settled(dir.entries, c.entry, output, MarkerName(power), MarkerText(stamp)))];
      }
      SettledKeepsUnique(old(vault), c.dir, c.entry, output, MarkerName(power), MarkerText(stamp));
      assert backups == k.0.backups && totalReduction == k.0.total && outcome == k.1;
    }

    /** One non-dry-run iteration of the loop (lines 77-96) for the file `c`: the checks
        of `compress`, Ghostscript writing the temporary file, the size comparison of
        line 79, the commit, and the removal of the temporary file. What this does is
        `Iteration.Step`, whose lemmas state what each branch leaves on disk. */
    method Process(c: Candidate, power: int, nobackup: bool, gsPath: string,
                   tool: (seq<string>, Bytes) -> Option<Bytes>, stamp: Bytes)
      returns (outcome: Outcome)
      requires Valid() && Present(State(), c)
      modifies this
      ensures Valid()
      ensures State() == Step(old(State()), c, power, nobackup, gsPath, tool, stamp).0
      ensures outcome == Step(old(State()), c, power, nobackup, gsPath, tool, stamp).1
      ensures backupRootMade == old(backupRootMade)
    {
      StepKeepsUnique(State(), c, power, nobackup, gsPath, tool, stamp);
      var dir := vault[c.dir];
      var e := dir.entries[c.entry];
      var cmd := Command(dir, e, gsPath, power);
      if cmd.Err? {
        return Stopped(cmd.error);
      }
      var produced := tool(cmd.value, e.node.content);
      if produced.Some? {
        temp := produced;
      }
      if temp.None? {
        return Stopped(NoToolOutput);
      }
      var output := temp.value;
      if Size(e.node) == 0 {
        return Stopped(EmptyInput);
      }
      if |output| > Size(e.node) {
        outcome := AbortedLarger(output);
      } else {
        MarkerPathIsNoPdf(dir.path, power);
        outcome := Commit(c, output, power, nobackup, stamp);
        if outcome.Stopped? {
          return;
        }
      }
      temp := None;
    }

    /** Iteration `i` of the loop: nothing in a dry run, otherwise `Process` for the
        `i`-th scanned file; `done` says whether the loop ends here. */
    method Visit(ghost start: Disk, pdfs: seq<Candidate>, i: nat, cfg: Config, env: Env, outcomes: seq<Outcome>)
      returns (outcomes': seq<Outcome>, done: bool)
      requires Ready(start, pdfs) && i < |pdfs|
      requires (State(), outcomes) == Passes(start, pdfs, i, cfg, Pass(cfg, env))
      requires !Halted(outcomes)
      modifies this
      ensures (State(), outcomes') == Passes(start, pdfs, i + 1, cfg, Pass(cfg, env))
      ensures done == Halted(outcomes')
      ensures done ==> Passes(start, pdfs, |pdfs|, cfg, Pass(cfg, env)) == Passes(start, pdfs, i + 1, cfg, Pass(cfg, env))
      ensures backupRootMade == old(backupRootMade)
    {
      var outcome := NotAttempted;
      if !cfg.dryrun {
        PassesKeepFiles(start, pdfs, i, cfg, Pass(cfg, env), i);
        outcome := Process(pdfs[i], cfg.power, cfg.nobackup, env.gsPath, env.tool, env.now(i));
      }
      outcomes' := outcomes + [outcome];
      done := outcome.Stopped?;
      if done {
        PassesStayHalted(start, pdfs, i + 1, |pdfs|, cfg, Pass(cfg, env));
      }
    }

    /** Lines 71-96: every candidate in order; a dry run attempts none, and a pass that
        ends the run ends the loop. What this does is `Loop.Passes`, whose lemmas state
        what the loop leaves on disk. */
    method ProcessAll(pdfs: seq<Candidate>, cfg: Config, env: Env) returns (outcomes: seq<Outcome>)
      requires Ready(State(), pdfs)
      modifies this
      ensures (State(), outcomes) == Passes(old(State()), pdfs, |pdfs|, cfg, Pass(cfg, env))
      ensures backupRootMade == old(backupRootMade)
    {
      ghost var start := old(State());
      outcomes := [];
      var i := 0;
      while i < |pdfs|
        invariant 0 <= i <= |pdfs|
        invariant (State(), outcomes) == Passes(start, pdfs, i, cfg, Pass(cfg, env))
        invariant !Halted(outcomes)
        invariant backupRootMade == old(backupRootMade)
      {
        var done;
        outcomes, done := Visit(start, pdfs, i, cfg, env, outcomes);
        if done {
          return;
        }
        i := i + 1;
      }
    }

    /** `main` after argument parsing: defaults, scan, backup folder, the loop. The
        Ghostscript executable, the tool itself and the clock are in `env`. */
    method Run(args: Args, env: Env) returns (pdfs: seq<Candidate>, outcomes: seq<Outcome>)
      requires Valid()
      modifies this
      ensures var cfg := Resolve(args);
        && pdfs == Candidates(old(vault), cfg.power, cfg.max)
        && Ready(old(State()), pdfs)
        && var start := old(State()).(total := 0);
           State() == Passes(start, pdfs, |pdfs|, cfg, Pass(cfg, env)).0 &&
           outcomes == Passes(start, pdfs, |pdfs|, cfg, Pass(cfg, env)).1
      ensures backupRootMade == (old(backupRootMade) || !args.nobackup)
      // `total_reduction` is the sum of the savings of the commits.
      ensures totalReduction == TotalSaved(outcomes)
      // Rerunning at the same or a lower power, with any threshold, skips every
      // directory in which a file was committed.
      ensures forall i :: 0 <= i < |outcomes| && outcomes[i].Committed? ==>
        forall q, m, c :: q <= Resolve(args).power && c in Candidates(vault, q, m) ==> c.dir != pdfs[i].dir
    {
      var cfg := Resolve(args);
      pdfs := Scan(cfg.power, cfg.max);
      forall c | c in pdfs ensures Present(State(), c) {
        CandidatesMembership(vault, cfg.power, cfg.max, c);
      }
      PrepareBackupRoot(cfg.nobackup);
      totalReduction := 0;
      ghost var start := State();
      outcomes := ProcessAll(pdfs, cfg, env);
      forall i | 0 <= i < |pdfs| && 0 <= cfg.power <= MaxPower
        ensures !FolderNamed(start.vault[pdfs[i].dir].entries, MarkerName(cfg.power))
      {
        CandidateDirHasNoMarker(start.vault, cfg.power, cfg.max, pdfs[i]);
      }
      PassesTotal(start, pdfs, |pdfs|, cfg, Pass(cfg, env));
      PassesMarkCommitted(start, pdfs, |pdfs|, cfg, Pass(cfg, env));
      forall i, q, m, c | 0 <= i < |outcomes| && outcomes[i].Committed? && q <= cfg.power && c in Candidates(vault, q, m)
        ensures c.dir != pdfs[i].dir
      {
        MarkedDirNotRescanned(vault, pdfs[i].dir, cfg.power, q, m);
      }
    }
  }
}
