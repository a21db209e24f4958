/** The C string routines the name code calls on code-unit sequences: a
    sequence stands for the characters in front of the terminating NUL, so a
    read one past its end yields 0. */
module CStrings {
  import opened Chars

  /** A C string's characters contain no NUL: the first NUL ends the string. */
  predicate NulFree(s: seq<CodeUnit>) {
    forall i :: 0 <= i < |s| ==> s[i] != 0
  }

  /** -1, 0 or 1 as x is negative, zero or positive. */
  function Sign(x: int): (r: int)
    ensures -1 <= r <= 1 && (r < 0 <==> x < 0) && (r == 0 <==> x == 0)
  {
    if x < 0 then -1 else if x > 0 then 1 else 0
  }

  /** FPlatformString::Strnicmp(A, B, Count): compare at most `n` characters
      after ASCII lower-casing; the result is the difference of the first pair
      that differs, or 0 when none does before the count runs out or both
      strings end together. */
  function Strnicmp(a: seq<CodeUnit>, b: seq<CodeUnit>, n: nat): int {
    if n == 0 then 0
    else
      var ca := if |a| == 0 then 0 else ToLower(a[0]);
      var cb := if |b| == 0 then 0 else ToLower(b[0]);
      if ca != cb then ca - cb
      else if ca == 0 then 0
      else Strnicmp(a[1..], b[1..], n - 1)
  }

  /** The reference order on sequences: element by element from the front,
      and a proper prefix before the longer sequence. */
  function LexCompare(x: seq<int>, y: seq<int>): (r: int) {
    if |x| == 0 && |y| == 0 then 0
    else if |x| == 0 then -1
    else if |y| == 0 then 1
    else if x[0] < y[0] then -1
    else if x[0] > y[0] then 1
    else LexCompare(x[1..], y[1..])
  }

  /** The code units of an ASCII string literal. */
  function Ascii(s: string): (r: seq<CodeUnit>)
    requires forall i :: 0 <= i < |s| ==> s[i] as int < 0x80
    ensures |r| == |s|
  {
    seq(|s|, i requires 0 <= i < |s| => s[i] as int)
  }

  /** The narrow characters of an ASCII string literal. */
  function AsciiBytes(s: string): seq<Byte>
    requires forall i :: 0 <= i < |s| ==> s[i] as int < 0x80
  {
    seq(|s|, i requires 0 <= i < |s| => s[i] as int)
  }

  /** Lower-casing keeps a character nonzero. */
  lemma LowerNonzero(c: CodeUnit)
    requires c != 0
    ensures ToLower(c) != 0
  {
  }

  /** Over NUL-free strings, Strnicmp of the first n characters is 0 exactly
      when both strings have those characters and they are equal ignoring case. */
  lemma {:induction false} StrnicmpZero(a: seq<CodeUnit>, b: seq<CodeUnit>, n: nat)
    requires NulFree(a) && NulFree(b) && n <= |a|
    ensures Strnicmp(a, b, n) == 0 <==> n <= |b| && LowerWide(a[..n]) == LowerWide(b[..n])
  {
    if n > 0 {
      LowerNonzero(a[0]);
      if |b| > 0 {
        LowerNonzero(b[0]);
        StrnicmpZero(a[1..], b[1..], n - 1);
        if ToLower(a[0]) == ToLower(b[0]) {
          assert a[..n] == [a[0]] + a[1..][..n - 1];
          if n <= |b| {
            assert b[..n] == [b[0]] + b[1..][..n - 1];
            assert LowerWide(a[..n]) == [ToLower(a[0])] + LowerWide(a[1..][..n - 1]);
            assert LowerWide(b[..n]) == [ToLower(b[0])] + LowerWide(b[1..][..n - 1]);
          }
        } else if n <= |b| {
          assert LowerWide(a[..n])[0] != LowerWide(b[..n])[0];
        }
      }
    }
  }

  /** Swapping the arguments negates Strnicmp. */
  lemma {:induction false} StrnicmpAntisymmetric(a: seq<CodeUnit>, b: seq<CodeUnit>, n: nat)
    ensures Strnicmp(a, b, n) == -Strnicmp(b, a, n)
  {
    if n > 0 && |a| > 0 && |b| > 0 && ToLower(a[0]) == ToLower(b[0]) && ToLower(a[0]) != 0 {
      StrnicmpAntisymmetric(a[1..], b[1..], n - 1);
    }
  }

  /** LexCompare is -1, 0 or 1, and 0 exactly on equal sequences. */
  lemma {:induction false} LexCompareZero(x: seq<int>, y: seq<int>)
    ensures -1 <= LexCompare(x, y) <= 1
    ensures LexCompare(x, y) == 0 <==> x == y
  {
    if |x| > 0 && |y| > 0 && x[0] == y[0] {
      LexCompareZero(x[1..], y[1..]);
      if x[1..] == y[1..] {
        assert x == [x[0]] + x[1..] && y == [y[0]] + y[1..];
      }
    }
  }

  /** Swapping the arguments negates LexCompare. */
  lemma {:induction false} LexCompareAntisymmetric(x: seq<int>, y: seq<int>)
    ensures LexCompare(x, y) == -LexCompare(y, x)
  {
    if |x| > 0 && |y| > 0 && x[0] == y[0] {
      LexCompareAntisymmetric(x[1..], y[1..]);
    }
  }

  /** LexCompare orders transitively. */
  lemma {:induction false} LexCompareTransitive(x: seq<int>, y: seq<int>, z: seq<int>)
    requires LexCompare(x, y) < 0 && LexCompare(y, z) < 0
    ensures LexCompare(x, z) < 0
  {
    if |x| > 0 && x[0] == y[0] && y[0] == z[0] {
      LexCompareTransitive(x[1..], y[1..], z[1..]);
    }
  }
}
