/** String operations the script uses on file names and paths: `str.split(sep)[-1]`,
    `str.lower()`, the substring test `t in s`, and the decimal rendering of an `int`
    inside an f-string. */
module Text {

  /** `str.lower()` on one character; only the ASCII letters are mapped. */
  function LowerChar(c: char): char
  {
    if 'A' <= c <= 'Z' then (c as int + 32) as char else c
  }

  /** `str.lower()`; the result has the same length as `s`. */
  function Lower(s: string): (r: string)
    ensures |r| == |s|
  {
    seq(|s|, i requires 0 <= i < |s| => LowerChar(s[i]))
  }

  /** `s.split(sep)[-1]`: the longest suffix of `s` in which `sep` does not occur.
      The three postconditions determine that suffix uniquely: it is free of `sep`,
      it is a suffix, and it either is all of `s` or is preceded by `sep`. */
  function LastSegment(s: string, sep: char): (r: string)
    ensures sep !in r
    ensures |r| <= |s| && r == s[|s| - |r|..]
    ensures |r| == |s| || s[|s| - |r| - 1] == sep
  {
    if s == [] then []
    else if s[|s| - 1] == sep then []
    else
      var front := s[..|s| - 1];
      var r' := LastSegment(front, sep);
      assert s == front + [s[|s| - 1]];
      r' + [s[|s| - 1]]
  }

  /** A separator-free tail is carried over unchanged: whatever precedes the last
      `sep` does not affect the last segment. */
  lemma {:induction false} LastSegmentOfSuffix(s: string, t: string, sep: char)
    requires sep in t
    ensures LastSegment(s + t, sep) == LastSegment(t, sep)
  {
    if t[|t| - 1] != sep {
      var t' := t[..|t| - 1];
      assert (s + t)[..|s + t| - 1] == s + t';
      assert sep in t' by {
        var k :| 0 <= k < |t| && t[k] == sep;
        assert k < |t| - 1 && t'[k] == sep;
      }
      LastSegmentOfSuffix(s, t', sep);
    }
  }

  /** A tail free of `sep` always ends up inside the last segment. */
  lemma {:induction false} LastSegmentCoversTail(s: string, t: string, sep: char)
    requires sep !in t
    ensures |LastSegment(s + t, sep)| >= |t|
  {
    if t != [] {
      var t' := t[..|t| - 1];
      assert (s + t)[..|s + t| - 1] == s + t';
      assert sep !in t' by {
        forall k | 0 <= k < |t'| ensures t'[k] != sep { assert t'[k] == t[k]; }
      }
      LastSegmentCoversTail(s, t', sep);
    }
  }

  /** Whatever precedes the last `sep`, the segment after it is the last segment. */
  lemma {:induction false} LastSegmentAfterSep(s: string, t: string, sep: char)
    requires sep !in t
    ensures LastSegment(s + [sep] + t, sep) == t
  {
    if t != [] {
      var t' := t[..|t| - 1];
      assert (s + [sep] + t)[..|s + [sep] + t| - 1] == s + [sep] + t';
      assert sep !in t' by {
        forall k | 0 <= k < |t'| ensures t'[k] != sep { assert t'[k] == t[k]; }
      }
      LastSegmentAfterSep(s, t', sep);
      assert t == t' + [t[|t| - 1]];
    }
  }

  /** Python's `t in s` for strings: `t` occurs as a contiguous block of `s`. */
  predicate HasInfix(t: string, s: string)
    decreases |s|
  {
    |t| <= |s| && (s[..|t|] == t || (|s| > 0 && HasInfix(t, s[1..])))
  }

  /** A string contains each of its prefixes. */
  lemma PrefixIsInfix(t: string, s: string)
    requires |t| <= |s| && s[..|t|] == t
    ensures HasInfix(t, s)
  {
  }

  function DigitChar(d: nat): (c: char)
    requires d < 10
    ensures '0' <= c <= '9'
  {
    ('0' as int + d) as char
  }

  /** The decimal digits of `n`, without leading zeros. */
  function NatToString(n: nat): (r: string)
    ensures 1 <= |r| && (|r| == 1 <==> n < 10)
    ensures forall i :: 0 <= i < |r| ==> '0' <= r[i] <= '9'
  {
    if n < 10 then [DigitChar(n)] else NatToString(n / 10) + [DigitChar(n % 10)]
  }

  /** `f'{i}'` for an `int`: a minus sign before the digits of a negative number. */
  function IntToString(i: int): (r: string)
    ensures 1 <= |r|
  {
    if i < 0 then "-" + NatToString(-i) else NatToString(i)
  }

  /** Different numbers are rendered differently. */
  lemma {:induction false} NatToStringInjective(m: nat, n: nat)
    requires NatToString(m) == NatToString(n)
    ensures m == n
  {
    var s := NatToString(m);
    if m < 10 || n < 10 {
      assert m < 10 && n < 10;
      assert s[0] == DigitChar(m) && s[0] == DigitChar(n);
    } else {
      assert s == NatToString(m / 10) + [DigitChar(m % 10)];
      assert s == NatToString(n / 10) + [DigitChar(n % 10)];
      assert s[..|s| - 1] == NatToString(m / 10) && s[..|s| - 1] == NatToString(n / 10);
      assert s[|s| - 1] == DigitChar(m % 10) && s[|s| - 1] == DigitChar(n % 10);
      NatToStringInjective(m / 10, n / 10);
    }
  }

  /** The rendering starts with a minus sign exactly for negative numbers. */
  lemma SignOfIntToString(i: int)
    ensures IntToString(i)[0] == '-' <==> i < 0
  {
    if i >= 0 {
      assert '0' <= NatToString(i)[0] <= '9';
    }
  }

  /** `f'{i}'` is injective on all integers, negative ones included. */
  lemma IntToStringInjective(i: int, j: int)
    requires IntToString(i) == IntToString(j)
    ensures i == j
  {
    var s := IntToString(i);
    SignOfIntToString(i);
    SignOfIntToString(j);
    if i < 0 && j < 0 {
      assert s[1..] == NatToString(-i) && s[1..] == NatToString(-j);
      NatToStringInjective(-i, -j);
    } else if i >= 0 && j >= 0 {
      NatToStringInjective(i, j);
    }
  }
}
