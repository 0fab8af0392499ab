/** What the scan of `main` (zoterobulkcompression.py, lines 53-60) computes: the ordered
    list of PDFs to compress, given the storage directory, the requested power and the
    size threshold in kilobytes. The imperative scan itself is `Pipeline.Session.Scan`. */
module Scanner {
  import opened Text
  import opened Vault
  import opened Markers

  /** A file found by the scan: the `e`-th entry of the `d`-th item directory. */
  datatype Candidate = Candidate(dir: nat, entry: nat)

  /** Directory order first, then entry order. */
  predicate Precedes(a: Candidate, b: Candidate)
  {
    a.dir < b.dir || (a.dir == b.dir && a.entry < b.entry)
  }

  /** The per-file filter of line 59: a `pdf` extension in any case, and
      `st_size / 1000 >= max`, which for integers is `st_size >= 1000 * max`. */
  predicate PassesFilters(e: Entry, max: int)
  {
    IsPdfName(e.name) && Size(e.node) >= 1000 * max
  }

  /** The directory test of line 58: some entry's name is a skip marker. */
  ghost predicate Skipped(es: seq<Entry>, power: int)
  {
    exists j :: 0 <= j < |es| && IsSkipMarker(es[j].name, power)
  }

  /** The files of directory `d` that pass the per-file filter, in entry order. */
  ghost function PdfsIn(d: nat, es: seq<Entry>, max: int): (r: seq<Candidate>)
    ensures forall i :: 0 <= i < |r| ==> r[i].dir == d && r[i].entry < |es|
  {
    if es == [] then []
    else
      PdfsIn(d, es[..|es| - 1], max) +
      (if PassesFilters(es[|es| - 1], max) then [Candidate(d, |es| - 1)] else [])
  }

  /** What directory `d` contributes: nothing when it is skipped. */
  ghost function DirCandidates(d: nat, es: seq<Entry>, power: int, max: int): seq<Candidate>
  {
    if Skipped(es, power) then [] else PdfsIn(d, es, max)
  }

  /** The `pdfs` list after the scan: the contributions of the directories, concatenated
      in directory order. */
  ghost function Candidates(v: seq<ItemDir>, power: int, max: int): (r: seq<Candidate>)
    ensures forall i :: 0 <= i < |r| ==> r[i].dir < |v|
  {
    if v == [] then []
    else
      var d := |v| - 1;
      Candidates(v[..d], power, max) + DirCandidates(d, v[d].entries, power, max)
  }

  /** One more entry extends a directory's filtered list by at most that entry. */
  lemma PdfsInStep(d: nat, es: seq<Entry>, j: nat, max: int)
    requires j < |es|
    ensures PdfsIn(d, es[..j + 1], max) ==
      PdfsIn(d, es[..j], max) + (if PassesFilters(es[j], max) then [Candidate(d, j)] else [])
  {
    assert es[..j + 1][..j] == es[..j];
  }

  /** One more directory extends the scan result by that directory's contribution. */
  lemma CandidatesStep(v: seq<ItemDir>, d: nat, power: int, max: int)
    requires d < |v|
    ensures Candidates(v[..d + 1], power, max) ==
      Candidates(v[..d], power, max) + DirCandidates(d, v[d].entries, power, max)
  {
    assert v[..d + 1][..d] == v[..d];
  }

  /** A directory's filtered list is in strictly increasing entry order. */
  lemma {:induction false} PdfsInOrdered(d: nat, es: seq<Entry>, max: int)
    ensures forall i, j :: 0 <= i < j < |PdfsIn(d, es, max)| ==>
      PdfsIn(d, es, max)[i].entry < PdfsIn(d, es, max)[j].entry
  {
    if es != [] {
      PdfsInOrdered(d, es[..|es| - 1], max);
    }
  }

  /** The scan result is in directory order, then entry order, without repetition. */
  lemma {:induction false} CandidatesOrdered(v: seq<ItemDir>, power: int, max: int)
    ensures forall i, j :: 0 <= i < j < |Candidates(v, power, max)| ==>
      Precedes(Candidates(v, power, max)[i], Candidates(v, power, max)[j])
  {
    if v != [] {
      var d := |v| - 1;
      CandidatesOrdered(v[..d], power, max);
      PdfsInOrdered(d, v[d].entries, max);
    }
  }

  /** A file is in a directory's filtered list exactly when it passes the filter. */
  lemma {:induction false} PdfsInMembership(d: nat, es: seq<Entry>, max: int, c: Candidate)
    ensures c in PdfsIn(d, es, max) <==> c.dir == d && c.entry < |es| && PassesFilters(es[c.entry], max)
  {
    if es != [] {
      var front := es[..|es| - 1];
      var last := if PassesFilters(es[|es| - 1], max) then [Candidate(d, |es| - 1)] else [];
      PdfsInMembership(d, front, max, c);
      assert PdfsIn(d, es, max) == PdfsIn(d, front, max) + last;
      assert c in PdfsIn(d, es, max) <==> c in PdfsIn(d, front, max) || c in last;
      if c.entry < |front| {
        assert front[c.entry] == es[c.entry];
      }
    }
  }

  /** The scan result holds exactly the files of unskipped directories that pass the
      per-file filter; with the ordering ensured by `Candidates`, this fixes the list. */
  lemma {:induction false} CandidatesMembership(v: seq<ItemDir>, power: int, max: int, c: Candidate)
    ensures c in Candidates(v, power, max) <==>
      && c.dir < |v|
      && c.entry < |v[c.dir].entries|
      && !Skipped(v[c.dir].entries, power)
      && PassesFilters(v[c.dir].entries[c.entry], max)
  {
    if v != [] {
      var front := v[..|v| - 1];
      var d := |v| - 1;
      CandidatesMembership(front, power, max, c);
      PdfsInMembership(d, v[d].entries, max, c);
      if c.dir < d {
        assert front[c.dir] == v[c.dir];
      }
    }
  }

  /** A directory holding the ignore marker is never scanned, whatever the power. */
  lemma IgnoredDirNeverScanned(v: seq<ItemDir>, d: nat, power: int, max: int)
    requires d < |v| && HasEntry(v[d].entries, IgnoreName)
    ensures forall c :: c in Candidates(v, power, max) ==> c.dir != d
  {
    var j :| 0 <= j < |v[d].entries| && v[d].entries[j].name == IgnoreName;
    assert IsSkipMarker(v[d].entries[j].name, power);
    forall c | c in Candidates(v, power, max) ensures c.dir != d {
      CandidatesMembership(v, power, max, c);
    }
  }

  /** A directory holding `.zbc.p{k}-compressed` is left out of every scan at a power
      `p <= k <= 4`: rerunning at the same or a lower power does not redo it. */
  lemma MarkedDirNotRescanned(v: seq<ItemDir>, d: nat, k: int, power: int, max: int)
    requires d < |v| && HasEntry(v[d].entries, MarkerName(k))
    requires power <= k <= MaxPower
    ensures forall c :: c in Candidates(v, power, max) ==> c.dir != d
  {
    var j :| 0 <= j < |v[d].entries| && v[d].entries[j].name == MarkerName(k);
    MarkerSkipsExactly(k, power);
    assert Skipped(v[d].entries, power);
    forall c | c in Candidates(v, power, max) ensures c.dir != d {
      CandidatesMembership(v, power, max, c);
    }
  }

  /** The directory of a scanned file holds no marker of the requested power, when that
      power has a preset: neither a file nor a directory of that name. */
  lemma CandidateDirHasNoMarker(v: seq<ItemDir>, power: int, max: int, c: Candidate)
    requires c in Candidates(v, power, max) && 0 <= power <= MaxPower
    ensures c.dir < |v| && !HasEntry(v[c.dir].entries, MarkerName(power))
  {
    CandidatesMembership(v, power, max, c);
    MarkerSkipsExactly(power, power);
  }

  /** A candidate whose name has no dot (a file called `pdf`) passes the scan, yet the
      extension test of `compress` on its full path fails. */
  lemma DotlessCandidateFailsCompressCheck(v: seq<ItemDir>, power: int, max: int, c: Candidate)
    requires c in Candidates(v, power, max)
    ensures c.dir < |v| && c.entry < |v[c.dir].entries|
    ensures '.' !in v[c.dir].entries[c.entry].name <==>
      !IsPdfName(FilePath(v[c.dir].path, v[c.dir].entries[c.entry].name))
  {
    CandidatesMembership(v, power, max, c);
    var name := v[c.dir].entries[c.entry].name;
    if '.' in name {
      PathTestFollowsName(v[c.dir].path, name);
    } else {
      DotlessNameFailsPathTest(v[c.dir].path, name);
    }
  }
}
