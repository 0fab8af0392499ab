/** The whole compression loop of `main` (zoterobulkcompression.py, lines 71-96) as a
    function of the disk before it: one pass per scanned file, in order, none in a dry
    run, and none after a pass that ends the run. The loop is stated for any pass that
    keeps `Iteration.Keeps`; `Pass` is the script's own, and
    `Pipeline.Session.ProcessAll` performs the loop on the session's fields. */
module Loop {
  import opened Vault
  import opened Markers
  import opened Scanner
  import opened Iteration

  /** The options the loop reads, after defaulting. */
  datatype Config = Config(power: int, nobackup: bool, dryrun: bool, max: int)

  /** What the loop gets from outside: the Ghostscript executable, what Ghostscript
      produces for a command line and an input, and the clock, read once per iteration
      for the marker text. */
  datatype Env = Env(gsPath: string, tool: (seq<string>, Bytes) -> Option<Bytes>, now: nat -> Bytes)

  /** One pass: the disk before, the file, the iteration's index; the disk after and
      the outcome. */
  type PassFn = (Disk, Candidate, nat) -> (Disk, Outcome)

  /** Every pass from a sound disk on a present file keeps `Keeps`. The quantifier is
      used only where `PassKeeps` asks for it. */
  ghost predicate WellBehaved(pass: PassFn, cfg: Config)
  {
    forall s, c, i {:trigger Keeps(s, c, cfg.power, cfg.nobackup, pass(s, c, i))} ::
      Sound(s) && Present(s, c) ==> Keeps(s, c, cfg.power, cfg.nobackup, pass(s, c, i))
  }

  /** One pass of a well-behaved loop keeps `Keeps`. */
  lemma PassKeeps(pass: PassFn, cfg: Config, s: Disk, c: Candidate, i: nat)
    requires WellBehaved(pass, cfg) && Sound(s) && Present(s, c)
    ensures Keeps(s, c, cfg.power, cfg.nobackup, pass(s, c, i))
  {
  }

  /** The script's pass for `cfg` and `env`: `Iteration.Step`. Every scanned file stays
      present (`PassesKeepFiles`), so the second branch is never taken by the loop. */
  function Pass(cfg: Config, env: Env): (pass: PassFn)
    ensures WellBehaved(pass, cfg)
  {
    var pass: PassFn := (s: Disk, c: Candidate, i: nat) =>
      if Present(s, c) then Step(s, c, cfg.power, cfg.nobackup, env.gsPath, env.tool, env.now(i))
      else (s, Stopped(NoToolOutput));
    assert WellBehaved(pass, cfg) by {
      forall s, c, i | Sound(s) && Present(s, c)
        ensures Keeps(s, c, cfg.power, cfg.nobackup, pass(s, c, i))
      {
        StepInvariants(s, c, cfg.power, cfg.nobackup, env.gsPath, env.tool, env.now(i));
      }
    }
    pass
  }

  /** The last pass ended the run. */
  predicate Halted(os: seq<Outcome>)
  {
    |os| > 0 && os[|os| - 1].Stopped?
  }

  /** A disk the loop can start on: unique names, and every scanned file present. */
  ghost predicate Ready(s: Disk, pdfs: seq<Candidate>)
  {
    Sound(s) && forall c :: c in pdfs ==> Present(s, c)
  }

  /** The disk and the outcomes after the first `n` iterations. */
  function Passes(s: Disk, pdfs: seq<Candidate>, n: nat, cfg: Config, pass: PassFn): (r: (Disk, seq<Outcome>))
    requires Ready(s, pdfs) && n <= |pdfs| && WellBehaved(pass, cfg)
    ensures Sound(r.0) && DirsGrow(s.vault, r.0.vault)
    ensures |r.1| == n || (|r.1| < n && Halted(r.1))
    decreases n
  {
    if n == 0 then (s, [])
    else
      var p := Passes(s, pdfs, n - 1, cfg, pass);
      if Halted(p.1) then p
      else if cfg.dryrun then (p.0, p.1 + [NotAttempted])
      else
        var c := pdfs[n - 1];
        assert c in pdfs;
        var q := pass(p.0, c, n - 1);
        PassKeeps(pass, cfg, p.0, c, n - 1);
        DirsGrowTransitive(s.vault, p.0.vault, q.0.vault);
        (q.0, p.1 + [q.1])
  }

  /** Every scanned file is still present after any number of iterations. */
  lemma PassesKeepFiles(s: Disk, pdfs: seq<Candidate>, n: nat, cfg: Config, pass: PassFn, i: nat)
    requires Ready(s, pdfs) && n <= |pdfs| && WellBehaved(pass, cfg) && i < |pdfs|
    ensures Present(Passes(s, pdfs, n, cfg, pass).0, pdfs[i])
  {
    assert pdfs[i] in pdfs;
  }

  /** Once the run has ended, later iterations change nothing. */
  lemma {:induction false} PassesStayHalted(s: Disk, pdfs: seq<Candidate>, m: nat, n: nat, cfg: Config, pass: PassFn)
    requires Ready(s, pdfs) && m <= n <= |pdfs| && WellBehaved(pass, cfg)
    requires Halted(Passes(s, pdfs, m, cfg, pass).1)
    ensures Passes(s, pdfs, n, cfg, pass) == Passes(s, pdfs, m, cfg, pass)
    decreases n
  {
    if m < n {
      PassesStayHalted(s, pdfs, m, n - 1, cfg, pass);
    }
  }

  /** Only the last outcome can end the run. */
  lemma {:induction false} PassesStopOnlyLast(s: Disk, pdfs: seq<Candidate>, n: nat, cfg: Config, pass: PassFn)
    requires Ready(s, pdfs) && n <= |pdfs| && WellBehaved(pass, cfg)
    ensures forall i :: 0 <= i < |Passes(s, pdfs, n, cfg, pass).1| - 1 ==>
      !Passes(s, pdfs, n, cfg, pass).1[i].Stopped?
  {
    if n > 0 {
      PassesStopOnlyLast(s, pdfs, n - 1, cfg, pass);
      var p := Passes(s, pdfs, n - 1, cfg, pass);
      var r := Passes(s, pdfs, n, cfg, pass);
      if !Halted(p.1) {
        assert r.1 == p.1 + [r.1[|r.1| - 1]];
        forall i | 0 <= i < |r.1| - 1 ensures !r.1[i].Stopped? {
          assert r.1[i] == p.1[i];
        }
      }
    }
  }

  /** No scanned file's directory holds a directory named like the marker of `power`,
      a valid power: the one thing that stops a commit after the total has grown. */
  ghost predicate NoMarkerFolder(v: seq<ItemDir>, pdfs: seq<Candidate>, power: int)
  {
    forall i :: 0 <= i < |pdfs| && pdfs[i].dir < |v| && 0 <= power <= MaxPower ==>
      !FolderNamed(v[pdfs[i].dir].entries, MarkerName(power))
  }

  /** `total_reduction` has grown by exactly the sum of the savings of the commits, when no
      scanned file's directory holds a directory named like the marker. */
  lemma {:induction false} PassesTotal(s: Disk, pdfs: seq<Candidate>, n: nat, cfg: Config, pass: PassFn)
    requires Ready(s, pdfs) && n <= |pdfs| && WellBehaved(pass, cfg)
    requires NoMarkerFolder(s.vault, pdfs, cfg.power)
    ensures Passes(s, pdfs, n, cfg, pass).0.total == s.total + TotalSaved(Passes(s, pdfs, n, cfg, pass).1)
  {
    if n > 0 {
      PassesTotal(s, pdfs, n - 1, cfg, pass);
      var p := Passes(s, pdfs, n - 1, cfg, pass);
      if !Halted(p.1) {
        if cfg.dryrun {
          TotalSavedSnoc(p.1, NotAttempted);
        } else {
          var c := pdfs[n - 1];
          PassesKeepFiles(s, pdfs, n - 1, cfg, pass, n - 1);
          var q := pass(p.0, c, n - 1);
          PassKeeps(pass, cfg, p.0, c, n - 1);
          if q.1 == Stopped(MarkerIsFolder) {
            FolderNamedBefore(s.vault[c.dir].entries, p.0.vault[c.dir].entries, MarkerName(cfg.power));
            assert false;
          }
          TotalSavedSnoc(p.1, q.1);
        }
      }
    }
  }

  /** With `--nobackup` the backup folder is never written. */
  lemma {:induction false} PassesKeepBackups(s: Disk, pdfs: seq<Candidate>, n: nat, cfg: Config, pass: PassFn)
    requires Ready(s, pdfs) && n <= |pdfs| && WellBehaved(pass, cfg) && cfg.nobackup
    ensures Passes(s, pdfs, n, cfg, pass).0.backups == s.backups
  {
    if n > 0 {
      PassesKeepBackups(s, pdfs, n - 1, cfg, pass);
      var p := Passes(s, pdfs, n - 1, cfg, pass);
      if !Halted(p.1) && !cfg.dryrun {
        PassesKeepFiles(s, pdfs, n - 1, cfg, pass, n - 1);
        PassKeeps(pass, cfg, p.0, pdfs[n - 1], n - 1);
      }
    }
  }

  /** A dry run attempts nothing and changes nothing. */
  lemma {:induction false} PassesDryRun(s: Disk, pdfs: seq<Candidate>, n: nat, cfg: Config, pass: PassFn)
    requires Ready(s, pdfs) && n <= |pdfs| && WellBehaved(pass, cfg) && cfg.dryrun
    ensures var r := Passes(s, pdfs, n, cfg, pass);
      r.0 == s && |r.1| == n && forall i :: 0 <= i < n ==> r.1[i] == NotAttempted
  {
    if n > 0 {
      PassesDryRun(s, pdfs, n - 1, cfg, pass);
    }
  }

  /** Outside a dry run every file reached is attempted, and after a pass that does not
      end the run `temp.pdf` is gone. */
  lemma {:induction false} PassesAttemptAll(s: Disk, pdfs: seq<Candidate>, n: nat, cfg: Config, pass: PassFn)
    requires Ready(s, pdfs) && n <= |pdfs| && WellBehaved(pass, cfg) && !cfg.dryrun
    ensures var r := Passes(s, pdfs, n, cfg, pass);
      && (forall i :: 0 <= i < |r.1| ==> !r.1[i].NotAttempted?)
      && (0 < n && !Halted(r.1) ==> r.0.temp == None)
  {
    if n > 0 {
      PassesAttemptAll(s, pdfs, n - 1, cfg, pass);
      var p := Passes(s, pdfs, n - 1, cfg, pass);
      if !Halted(p.1) {
        PassesKeepFiles(s, pdfs, n - 1, cfg, pass, n - 1);
        PassKeeps(pass, cfg, p.0, pdfs[n - 1], n - 1);
      }
    }
  }

  /** Every file committed so far, the `i`-th scanned for the `i`-th outcome, has the
      marker of `power` in its directory on `v`. */
  ghost predicate MarksCommitted(v: seq<ItemDir>, pdfs: seq<Candidate>, os: seq<Outcome>, power: int)
  {
    forall i :: 0 <= i < |os| && i < |pdfs| && os[i].Committed? ==>
      && 0 <= power <= MaxPower && pdfs[i].dir < |v|
      && HasEntry(v[pdfs[i].dir].entries, MarkerName(power))
  }

  /** Markers stay when directories only grow, and one more marked outcome keeps them all. */
  lemma MarksGrow(v: seq<ItemDir>, v': seq<ItemDir>, pdfs: seq<Candidate>, os: seq<Outcome>, o: Outcome, power: int)
    requires MarksCommitted(v, pdfs, os, power) && DirsGrow(v, v')
    requires |os| < |pdfs| && o.Committed? ==>
      0 <= power <= MaxPower && pdfs[|os|].dir < |v'| && HasEntry(v'[pdfs[|os|].dir].entries, MarkerName(power))
    ensures MarksCommitted(v', pdfs, os + [o], power)
  {
    forall i | 0 <= i < |os| && i < |pdfs| && os[i].Committed?
      ensures HasEntry(v'[pdfs[i].dir].entries, MarkerName(power))
    {
      EntryPersists(v[pdfs[i].dir].entries, v'[pdfs[i].dir].entries, MarkerName(power));
    }
    assert forall i :: 0 <= i < |os| ==> (os + [o])[i] == os[i];
  }

  /** Every file committed so far has the marker of this power in its directory, so a
      later scan at this power skips that directory. */
  lemma {:induction false} PassesMarkCommitted(s: Disk, pdfs: seq<Candidate>, n: nat, cfg: Config, pass: PassFn)
    requires Ready(s, pdfs) && n <= |pdfs| && WellBehaved(pass, cfg)
    ensures var r := Passes(s, pdfs, n, cfg, pass);
      MarksCommitted(r.0.vault, pdfs, r.1, cfg.power)
  {
    if n > 0 {
      PassesMarkCommitted(s, pdfs, n - 1, cfg, pass);
      var p := Passes(s, pdfs, n - 1, cfg, pass);
      if !Halted(p.1) {
        if cfg.dryrun {
          MarksGrow(p.0.vault, p.0.vault, pdfs, p.1, NotAttempted, cfg.power);
        } else {
          PassesKeepFiles(s, pdfs, n - 1, cfg, pass, n - 1);
          var q := pass(p.0, pdfs[n - 1], n - 1);
          PassKeeps(pass, cfg, p.0, pdfs[n - 1], n - 1);
          MarksGrow(p.0.vault, q.0.vault, pdfs, p.1, q.1, cfg.power);
        }
      }
    }
  }
}
