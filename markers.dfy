/** The marker files that make an item directory skippable, and the predicate
    `check_ignore_conditions` (zoterobulkcompression.py, lines 145-153) that recognises
    them by file name for a requested compression power. */
module Markers {
  import opened Text

  /** Name of the permanent "never compress this item" marker. */
  const IgnoreName: string := ".zbc.ignore"

  /** Every marker name carries this tag; the predicate tests it first. */
  const Tag: string := ".zbc."

  /** The highest power that has a quality preset; the predicate's search stops there. */
  const MaxPower: int := 4

  /** `f'.zbc.p{k}-compressed'`: the marker written after a compression at power `k`. */
  function MarkerName(k: int): (r: string)
    ensures |Tag| <= |r| && r[..|Tag|] == Tag
  {
    ".zbc.p" + IntToString(k) + "-compressed"
  }

  /** The meaning of the predicate: the ignore marker, or a compression marker of a
      power between the requested one and `MaxPower`. */
  ghost predicate IsSkipMarker(name: string, power: int)
  {
    name == IgnoreName || exists k :: power <= k <= MaxPower && name == MarkerName(k)
  }

  /** `check_ignore_conditions(filename, power)`: the tag test, the ignore test, then the
      search over `range(power, 4 + 1)` that returns at the first matching marker name. */
  method CheckIgnoreConditions(filename: string, power: int) returns (skip: bool)
    ensures skip == IsSkipMarker(filename, power)
  {
    if HasInfix(Tag, filename) {
      if filename == IgnoreName {
        return true;
      }
      var k := power;
      while k <= MaxPower
        invariant forall j :: power <= j < k ==> filename != MarkerName(j)
        decreases MaxPower - k
      {
        if filename == MarkerName(k) {
          return true;
        }
        k := k + 1;
      }
      return false;
    }
    UntaggedNameNeverSkips(filename, power);
    return false;
  }

  /** A compression marker is never the ignore marker, and both carry the tag. */
  lemma MarkerNamesAreTagged(k: int)
    ensures HasInfix(Tag, MarkerName(k)) && HasInfix(Tag, IgnoreName)
    ensures MarkerName(k) != IgnoreName
  {
    PrefixIsInfix(Tag, MarkerName(k));
    assert IgnoreName[..|Tag|] == Tag;
    PrefixIsInfix(Tag, IgnoreName);
    assert MarkerName(k)[5] == 'p' && IgnoreName[5] == 'i';
  }

  /** The ignore marker skips at every power; a name without the `.zbc.` tag never skips. */
  lemma UntaggedNameNeverSkips(name: string, power: int)
    ensures IsSkipMarker(IgnoreName, power)
    ensures !HasInfix(Tag, name) ==> !IsSkipMarker(name, power)
  {
    MarkerNamesAreTagged(0);
    if IsSkipMarker(name, power) && name != IgnoreName {
      var k :| power <= k <= MaxPower && name == MarkerName(k);
      MarkerNamesAreTagged(k);
    }
  }

  /** Different powers give different marker names. */
  lemma MarkerNameInjective(j: int, k: int)
    requires MarkerName(j) == MarkerName(k)
    ensures j == k
  {
    var m := MarkerName(j);
    var n := |m| - |"-compressed"|;
    assert m[6..n] == IntToString(j);
    assert |IntToString(j)| == |IntToString(k)|;
    assert m[6..n] == IntToString(k);
    IntToStringInjective(j, k);
  }

  /** `.zbc.p{k}-compressed` skips at power `p` exactly when `p <= k <= 4`. */
  lemma MarkerSkipsExactly(k: int, power: int)
    ensures IsSkipMarker(MarkerName(k), power) <==> power <= k <= MaxPower
  {
    MarkerNamesAreTagged(k);
    if IsSkipMarker(MarkerName(k), power) {
      var j :| power <= j <= MaxPower && MarkerName(k) == MarkerName(j);
      MarkerNameInjective(j, k);
    }
  }

  /** A name that skips at some power also skips at every lower power. */
  lemma SkipIsDownwardClosed(name: string, power: int, lower: int)
    requires lower <= power
    requires IsSkipMarker(name, power)
    ensures IsSkipMarker(name, lower)
  {
    if name != IgnoreName {
      var k :| power <= k <= MaxPower && name == MarkerName(k);
      assert lower <= k <= MaxPower;
    }
  }

  /** Above power 4 the search range is empty: only the ignore marker skips. */
  lemma OnlyIgnoreAboveMaxPower(name: string, power: int)
    requires power > MaxPower
    ensures IsSkipMarker(name, power) <==> name == IgnoreName
  {
  }
}
