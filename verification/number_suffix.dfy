/** FName number suffixes: ParseNumber splits a trailing "_<digits>" off a
    name, the string form appends "_<number>" again, and EqualsString
    compares a name and number against a C string. Numbers are kept in the
    internal form, external number + 1, with 0 meaning "no number". */
module NumberSuffix {
  import opened Chars
  import opened CStrings

  /** NAME_NO_NUMBER_INTERNAL */
  const NoNumber: nat := 0
  /** MAX_int32 */
  const MaxInt32: nat := 0x7FFF_FFFF
  /** MaxDigitsInt32 in ParseNumber */
  const MaxDigitsInt32: nat := 10
  /** The int64 range strtoll saturates to. */
  const MinInt64: int := -0x8000_0000_0000_0000
  const MaxInt64: int := 0x7FFF_FFFF_FFFF_FFFF

  const Underscore: CodeUnit := '_' as int
  const Zero: CodeUnit := '0' as int

  predicate IsDigit(c: CodeUnit) {
    '0' as int <= c <= '9' as int
  }

  predicate AllDigits(s: seq<CodeUnit>) {
    forall i :: 0 <= i < |s| ==> IsDigit(s[i])
  }

  /** The value of a digit string read from the left, ten times the value so
      far plus the next digit. */
  function DigitsValue(s: seq<CodeUnit>): nat
    requires AllDigits(s)
  {
    if |s| == 0 then 0 else 10 * DigitsValue(s[..|s| - 1]) + (s[|s| - 1] - Zero)
  }

  /** The decimal digits of n without leading zeros, as "%d" prints them. */
  function Decimal(n: nat): (s: seq<CodeUnit>)
    ensures |s| > 0 && AllDigits(s)
    ensures |s| > 1 ==> s[0] != Zero
  {
    if n < 10 then [Zero + n] else Decimal(n / 10) + [Zero + n % 10]
  }

  /** Atoi64(Str, Len): the caller guarantees that the first `len` characters
      are digits and that their value fits in an int64. */
  method Atoi64(s: seq<CodeUnit>, len: nat) returns (n: int)
    requires len <= |s| && AllDigits(s[..len])
    requires DigitsValue(s[..len]) <= MaxInt64
    ensures n == DigitsValue(s[..len])
  {
    n := 0;
    var idx := 0;
    while idx < len
      invariant idx <= len
      invariant n == DigitsValue(s[..idx])
    {
      assert s[..idx + 1][..idx] == s[..idx];
      n := 10 * n + s[idx] - Zero;
      idx := idx + 1;
    }
  }

  /** The number of digits at the end of the string. */
  function TrailingDigits(s: seq<CodeUnit>): (d: nat)
    ensures d <= |s|
    ensures AllDigits(s[|s| - d..])
    ensures d < |s| ==> !IsDigit(s[|s| - 1 - d])
  {
    if |s| == 0 || !IsDigit(s[|s| - 1]) then 0
    else
      var d := TrailingDigits(s[..|s| - 1]);
      assert s[|s| - 1 - d..] == s[..|s| - 1][|s| - 1 - d..] + [s[|s| - 1]];
      1 + d
  }

  /** The digit-counting loop of ParseNumber, walking back from the last character. */
  method CountTrailingDigits(s: seq<CodeUnit>) returns (digits: nat)
    ensures digits <= |s| && AllDigits(s[|s| - digits..])
    ensures digits < |s| ==> !IsDigit(s[|s| - 1 - digits])
  {
    digits := 0;
    while digits < |s| && IsDigit(s[|s| - 1 - digits])
      invariant digits <= |s|
      invariant AllDigits(s[|s| - digits..])
    {
      assert s[|s| - 1 - digits..] == [s[|s| - 1 - digits]] + s[|s| - digits..];
      digits := digits + 1;
    }
  }

  /** FNameHelper::ParseNumber: the internal number and the shortened length.
      A suffix is split only when there are digits, not only digits, an
      underscore in front of them, at most ten of them, no leading zero unless
      there is a single digit, and a value below MAX_int32. */
  function ParseNumber(s: seq<CodeUnit>): (r: (nat, nat))
    ensures r.1 <= |s|
    ensures r.0 == NoNumber <==> r.1 == |s|
    ensures r.0 != NoNumber ==> r.0 <= MaxInt32 && s[r.1] == Underscore
  {
    var len := |s|;
    var digits := TrailingDigits(s);
    var first := len - digits;
    if digits > 0 && digits < len && s[first - 1] == Underscore && digits <= MaxDigitsInt32
       && (digits == 1 || s[first] != Zero)
    then
      var number := DigitsValue(s[first..]);
      if number < MaxInt32 then (number + 1, len - 1 - digits) else (NoNumber, len)
    else (NoNumber, len)
  }

  /** The name's string form: its characters, then "_" and the external
      number when it has one (FName::ToString). */
  function NameString(name: seq<CodeUnit>, internal: nat): (s: seq<CodeUnit>)
    ensures internal == NoNumber ==> s == name
    ensures internal != NoNumber ==> |s| > |name| + 1 && s[..|name|] == name && s[|name|] == Underscore
  {
    if internal == NoNumber then name else name + [Underscore] + Decimal(internal - 1)
  }

  /** Decimal reads back as its number. */
  lemma {:induction false} DecimalValue(n: nat)
    ensures DigitsValue(Decimal(n)) == n
  {
    if n >= 10 {
      DecimalValue(n / 10);
      var s := Decimal(n);
      assert s[..|s| - 1] == Decimal(n / 10);
    }
  }

  /** A digit string that does not start with 0 has a positive value. */
  lemma {:induction false} LeadingDigitPositive(s: seq<CodeUnit>)
    requires |s| > 0 && AllDigits(s) && s[0] != Zero
    ensures DigitsValue(s) >= 1
  {
    if |s| > 1 {
      LeadingDigitPositive(s[..|s| - 1]);
    }
  }

  /** A digit string without a leading zero is the decimal form of its value. */
  lemma {:induction false} DigitsAreDecimal(s: seq<CodeUnit>)
    requires |s| > 0 && AllDigits(s) && (|s| == 1 || s[0] != Zero)
    ensures Decimal(DigitsValue(s)) == s
  {
    if |s| > 1 {
      var p := s[..|s| - 1];
      LeadingDigitPositive(p);
      DigitsAreDecimal(p);
      var v := DigitsValue(s);
      assert v / 10 == DigitsValue(p) && v % 10 == s[|s| - 1] - Zero;
      assert s == p + [s[|s| - 1]];
    }
  }

  /** Fewer than 10^k means at most k decimal digits. */
  lemma {:induction false} DecimalLength(n: nat, k: nat, bound: nat)
    requires k >= 1 && n < bound && bound == Pow10(k)
    ensures |Decimal(n)| <= k
  {
    if n >= 10 {
      DecimalLength(n / 10, k - 1, Pow10(k - 1));
    }
  }

  function Pow10(k: nat): (p: nat)
    ensures p >= 1
  {
    if k == 0 then 1 else 10 * Pow10(k - 1)
  }

  /** The digits at the end of p + "_" + d, for a digit string d, are d. */
  lemma {:induction false} TrailingDigitsAfterUnderscore(p: seq<CodeUnit>, d: seq<CodeUnit>)
    requires AllDigits(d)
    ensures TrailingDigits(p + [Underscore] + d) == |d|
  {
    var s := p + [Underscore] + d;
    if |d| > 0 {
      assert s[..|s| - 1] == p + [Underscore] + d[..|d| - 1];
      TrailingDigitsAfterUnderscore(p, d[..|d| - 1]);
    }
  }

  /** ParseNumber takes back the suffix the string form appends: every number
      below MAX_int32 written after any name and an underscore is split off. */
  lemma ParseNameString(name: seq<CodeUnit>, internal: nat)
    requires NoNumber < internal <= MaxInt32
    ensures ParseNumber(NameString(name, internal)) == (internal, |name|)
  {
    var d := Decimal(internal - 1);
    var s := name + [Underscore] + d;
    TrailingDigitsAfterUnderscore(name, d);
    DecimalLength(internal - 1, 10, 10_000_000_000);
    assert s[|s| - |d|..] == d;
    DecimalValue(internal - 1);
  }

  /** Conversely, a string ParseNumber splits is its prefix's string form with
      the number it returned. */
  lemma SplitIsNameString(s: seq<CodeUnit>)
    requires ParseNumber(s).0 != NoNumber
    ensures var (internal, len) := ParseNumber(s);
      s == NameString(s[..len], internal)
  {
    var (internal, len) := ParseNumber(s);
    var digits := TrailingDigits(s);
    var d := s[|s| - digits..];
    DigitsAreDecimal(d);
    assert s == s[..len] + [Underscore] + d;
  }

  /** A single "_0" suffix is split off as number 0 (internal 1), whatever
      the name before it holds: "Text_0" gives "Text", "Text_1_0" gives
      "Text_1". */
  lemma ParseSplitsZeroSuffix(name: seq<CodeUnit>)
    ensures ParseNumber(name + [Underscore, Zero]) == (1, |name|)
  {
    ParseNameString(name, 1);
    assert Decimal(0) == [Zero];
    assert name + [Underscore, Zero] == NameString(name, 1);
  }

  /** A suffix of two or more digits starting with 0 ("Text_00", "Text_01")
      stays in the name. */
  lemma ParseKeepsLeadingZero(name: seq<CodeUnit>, d: seq<CodeUnit>)
    requires |d| >= 2 && AllDigits(d) && d[0] == Zero
    ensures var s := name + [Underscore] + d;
      ParseNumber(s) == (NoNumber, |s|)
  {
    var s := name + [Underscore] + d;
    TrailingDigitsAfterUnderscore(name, d);
    assert s[|s| - |d|] == d[0];
  }

  /** One below MAX_int32 is the largest number split off. */
  lemma ParseNumberLargestExample()
    ensures ParseNumber(Ascii("Used_") + Decimal(MaxInt32 - 1)) == (MaxInt32, 4)
  {
    assert Ascii("Used_") == Ascii("Used") + [Underscore];
    ParseNameString(Ascii("Used"), MaxInt32);
  }

  /** A number from MAX_int32 up is never split off: it has too many digits
      or too large a value. */
  lemma ParseKeepsLargeNumbers(name: seq<CodeUnit>, n: nat)
    requires n >= MaxInt32
    ensures var s := name + [Underscore] + Decimal(n);
      ParseNumber(s) == (NoNumber, |s|)
  {
    var d := Decimal(n);
    var s := name + [Underscore] + d;
    TrailingDigitsAfterUnderscore(name, d);
    assert s[|s| - |d|..] == d;
    DecimalValue(n);
  }

  /** MAX_int32 itself stays in the name. */
  lemma ParseNumberLimitExample()
    ensures ParseNumber(Ascii("Used_") + Decimal(MaxInt32)) == (NoNumber, 15)
  {
    assert Ascii("Used_") == Ascii("Used") + [Underscore];
    ParseKeepsLargeNumbers(Ascii("Used"), MaxInt32);
    DecimalLength(MaxInt32, 10, 10_000_000_000);
    DecimalLength(MaxInt32 / 10, 9, 1_000_000_000);
  }

  // ---------------------------------------------------------------------
  // strtoll and the string comparison built on it

  /** isspace in the C locale. */
  predicate IsSpace(c: CodeUnit) {
    c == ' ' as int || '\t' as int <= c <= '\r' as int
  }

  function LeadingSpaces(s: seq<CodeUnit>): (n: nat)
    ensures n <= |s|
  {
    if |s| == 0 || !IsSpace(s[0]) then 0 else 1 + LeadingSpaces(s[1..])
  }

  function LeadingDigits(s: seq<CodeUnit>): (n: nat)
    ensures n <= |s| && AllDigits(s[..n])
  {
    if |s| == 0 || !IsDigit(s[0]) then 0
    else
      var n := LeadingDigits(s[1..]);
      assert s[..n + 1] == [s[0]] + s[1..][..n];
      1 + n
  }

  function Clamp64(x: int): int {
    if x > MaxInt64 then MaxInt64 else if x < MinInt64 then MinInt64 else x
  }

  /** TCString::Strtoi64(Str, &End, 10), i.e. strtoll: skip white space, take
      an optional sign and the decimal digits after it, saturating to the
      int64 range. End is the index after the last digit, or 0 (the start of
      the string) when there is no digit. */
  function Strtoi64(s: seq<CodeUnit>): (r: (int, nat))
    ensures r.1 <= |s|
    ensures r.1 == 0 ==> r.0 == 0
    ensures MinInt64 <= r.0 <= MaxInt64
  {
    var i := LeadingSpaces(s);
    var neg := i < |s| && s[i] == '-' as int;
    var j := if i < |s| && (s[i] == '-' as int || s[i] == '+' as int) then i + 1 else i;
    var d := LeadingDigits(s[j..]);
    if d == 0 then (0, 0)
    else
      var m := DigitsValue(s[j..][..d]);
      var v: int := if neg then -(m as int) else m;
      (Clamp64(v), j + d)
  }

  /** NumberEqualsString as written: Strtoi64 reads the number and stops at
      the terminator. */
  predicate NumberEqualsString(number: nat, s: seq<CodeUnit>)
    requires NulFree(s)
  {
    var (value, end) := Strtoi64(s);
    value == number && end == |s|
  }

  /** StringAndNumberEqualsString as written: the name's characters match the
      start of the string ignoring case; then the string ends there when the
      name has no number, and otherwise continues with "_" and the number. */
  predicate StringAndNumberEqualsString(name: seq<CodeUnit>, internal: nat, s: seq<CodeUnit>)
    requires NulFree(name) && NulFree(s)
  {
    if Strnicmp(name, s, |name|) != 0 then false
    else if internal == NoNumber then |s| == |name|
    else |s| > |name| && s[|name|] == Underscore && NumberEqualsString(internal - 1, s[|name| + 1..])
  }

  /** The number part matches only when it is exactly the number's decimal
      form, as the string form writes it and ParseNumber reads it. */
  predicate NumberEqualsStringExactly(number: nat, s: seq<CodeUnit>) {
    s == Decimal(number)
  }

  /** StringAndNumberEqualsString with the exact number comparison. */
  predicate StringAndNumberEqualsStringExactly(name: seq<CodeUnit>, internal: nat, s: seq<CodeUnit>)
    requires NulFree(name) && NulFree(s)
  {
    if Strnicmp(name, s, |name|) != 0 then false
    else if internal == NoNumber then |s| == |name|
    else |s| > |name| && s[|name|] == Underscore && NumberEqualsStringExactly(internal - 1, s[|name| + 1..])
  }

  lemma {:induction false} LeadingDigitsAll(s: seq<CodeUnit>)
    requires AllDigits(s)
    ensures LeadingDigits(s) == |s|
  {
    if |s| > 0 {
      LeadingDigitsAll(s[1..]);
    }
  }

  /** strtoll reads a nonempty digit string in range as its value and stops at its end. */
  lemma Strtoi64Digits(s: seq<CodeUnit>)
    requires |s| > 0 && AllDigits(s) && DigitsValue(s) <= MaxInt64
    ensures Strtoi64(s) == (DigitsValue(s), |s|)
  {
    assert !IsSpace(s[0]) && s[0] != '-' as int && s[0] != '+' as int;
    LeadingDigitsAll(s);
    assert s[0..] == s && s[..|s|] == s;
  }

  /** In particular it reads a decimal form back as its number. */
  lemma Strtoi64Decimal(n: nat)
    requires n <= MaxInt64
    ensures Strtoi64(Decimal(n)) == (n, |Decimal(n)|)
  {
    DecimalValue(n);
    Strtoi64Digits(Decimal(n));
  }

  /** Digits and '_' are the only lower-case forms of themselves. */
  predicate DigitOrUnderscore(c: CodeUnit) {
    IsDigit(c) || c == Underscore
  }

  /** Comparing s with name + rest ignoring case, where rest holds only digits
      and underscores, compares the front ignoring case and the rest exactly. */
  lemma LowerEqualsWithSuffix(s: seq<CodeUnit>, name: seq<CodeUnit>, rest: seq<CodeUnit>)
    requires forall i :: 0 <= i < |rest| ==> DigitOrUnderscore(rest[i])
    ensures LowerWide(s) == LowerWide(name + rest) <==>
      |s| == |name| + |rest| && LowerWide(s[..|name|]) == LowerWide(name) && s[|name|..] == rest
  {
    var t := name + rest;
    var n := |name|;
    if LowerWide(s) == LowerWide(t) {
      forall i | 0 <= i < n
        ensures LowerWide(s[..n])[i] == LowerWide(name)[i]
      {
        assert LowerWide(s)[i] == LowerWide(t)[i] && t[i] == name[i];
      }
      forall i | 0 <= i < |rest|
        ensures s[n..][i] == rest[i]
      {
        assert LowerWide(s)[n + i] == LowerWide(t)[n + i] && t[n + i] == rest[i];
      }
    }
    if |s| == n + |rest| && LowerWide(s[..n]) == LowerWide(name) && s[n..] == rest {
      forall i | 0 <= i < |s|
        ensures LowerWide(s)[i] == LowerWide(t)[i]
      {
        if i < n {
          assert LowerWide(s[..n])[i] == LowerWide(name)[i];
        } else {
          assert s[n..][i - n] == rest[i - n];
        }
      }
    }
  }

  /** The exact comparison means what EqualsString promises: a name and number
      equal a string exactly when the string is, ignoring case, the name's
      string form. */
  lemma StringAndNumberEqualsStringExactlyIff(name: seq<CodeUnit>, internal: nat, s: seq<CodeUnit>)
    requires NulFree(name) && NulFree(s)
    ensures StringAndNumberEqualsStringExactly(name, internal, s) <==> LowerWide(s) == LowerWide(NameString(name, internal))
  {
    var n := |name|;
    StrnicmpZero(name, s, n);
    assert name[..n] == name;
    if internal == NoNumber {
      LowerEqualsWithSuffix(s, name, []);
      assert name + [] == name;
    } else {
      var rest := [Underscore] + Decimal(internal - 1);
      LowerEqualsWithSuffix(s, name, rest);
      assert NameString(name, internal) == name + rest;
      if |s| > n {
        assert s[n..] == [s[n]] + s[n + 1..];
      }
    }
  }

  /** The code as written accepts number suffixes the string form never
      writes: the name "abc" with number 0 equals "abc_" (string form
      "abc_0") and "abc_00", and with number 1 it equals "abc_01". */
  lemma NumberEqualsStringAcceptsOtherForms()
    ensures NulFree(Ascii("abc_")) && NulFree(Ascii("abc_00")) && NulFree(Ascii("abc_01"))
    ensures StringAndNumberEqualsString(Ascii("abc"), 1, Ascii("abc_"))
    ensures StringAndNumberEqualsString(Ascii("abc"), 1, Ascii("abc_00"))
    ensures StringAndNumberEqualsString(Ascii("abc"), 2, Ascii("abc_01"))
    ensures !StringAndNumberEqualsStringExactly(Ascii("abc"), 1, Ascii("abc_"))
  {
    var abc := Ascii("abc");
    var zz: seq<CodeUnit> := [Zero, Zero];
    var z1: seq<CodeUnit> := [Zero, Zero + 1];
    assert Ascii("abc_") == abc + [Underscore] + [];
    assert Ascii("abc_00") == abc + [Underscore] + zz;
    assert Ascii("abc_01") == abc + [Underscore] + z1;
    assert [Zero][..0] == [] && DigitsValue([Zero]) == 0;
    assert zz[..1] == [Zero] && DigitsValue(zz) == 0;
    assert z1[..1] == [Zero] && DigitsValue(z1) == 1;
    Strtoi64Digits(zz);
    Strtoi64Digits(z1);
    SuffixAccepted(abc, 1, []);
    SuffixAccepted(abc, 1, zz);
    SuffixAccepted(abc, 2, z1);
  }

  /** The as-written comparison accepts name + "_" + digits whenever strtoll
      reads the digits as the number, whatever their form. */
  lemma SuffixAccepted(name: seq<CodeUnit>, internal: nat, digits: seq<CodeUnit>)
    requires NulFree(name) && AllDigits(digits) && internal != NoNumber
    requires Strtoi64(digits) == (internal - 1, |digits|)
    ensures NulFree(name + [Underscore] + digits)
    ensures StringAndNumberEqualsString(name, internal, name + [Underscore] + digits)
  {
    var s := name + [Underscore] + digits;
    var n := |name|;
    assert s[..n] == name && name[..n] == name;
    StrnicmpZero(name, s, n);
    assert s[n + 1..] == digits;
  }

  /** Both versions accept the name's own string form. */
  lemma StringFormAccepted(name: seq<CodeUnit>, internal: nat)
    requires NulFree(name) && internal <= 0x1_0000_0000
    ensures NulFree(NameString(name, internal))
    ensures StringAndNumberEqualsString(name, internal, NameString(name, internal))
    ensures StringAndNumberEqualsStringExactly(name, internal, NameString(name, internal))
  {
    var t := NameString(name, internal);
    StrnicmpZero(name, t, |name|);
    assert t[..|name|] == name;
    if internal != NoNumber {
      var d := Decimal(internal - 1);
      assert t[|name| + 1..] == d;
      Strtoi64Decimal(internal - 1);
    }
  }

  /** The source's accepting cases: "abc" with number 10 equals "abc_10",
      and "abc" without a number equals "abc". */
  lemma StringAndNumberAcceptExamples()
    ensures NulFree(Ascii("abc_10"))
    ensures StringAndNumberEqualsString(Ascii("abc"), 11, Ascii("abc_10"))
    ensures StringAndNumberEqualsString(Ascii("abc"), NoNumber, Ascii("abc"))
  {
    var abc := Ascii("abc");
    assert Decimal(10) == Ascii("10");
    assert Ascii("abc_10") == NameString(abc, 11);
    StringFormAccepted(abc, 11);
    StringFormAccepted(abc, NoNumber);
  }

  /** A different number is rejected: "abc" with number 10 against "abc_11". */
  lemma StringAndNumberRejectsNumber()
    ensures NulFree(Ascii("abc_11"))
    ensures !StringAndNumberEqualsString(Ascii("abc"), 11, Ascii("abc_11"))
  {
    assert Ascii("11") == Decimal(11);
    DecimalValue(11);
    RejectsNumber(Ascii("abc"), 11, Ascii("11"), 11);
    assert Ascii("abc_11") == Ascii("abc") + [Underscore] + Ascii("11");
  }

  /** A number with extra digits is rejected: "abc" with number 10 against "abc_100". */
  lemma StringAndNumberRejectsLongerNumber()
    ensures NulFree(Ascii("abc_100"))
    ensures !StringAndNumberEqualsString(Ascii("abc"), 11, Ascii("abc_100"))
  {
    assert Ascii("100") == Decimal(100);
    DecimalValue(100);
    RejectsNumber(Ascii("abc"), 11, Ascii("100"), 100);
    assert Ascii("abc_100") == Ascii("abc") + [Underscore] + Ascii("100");
  }

  /** A different name part is rejected: "abc" with number 10 against "aba_10". */
  lemma StringAndNumberRejectsName()
    ensures NulFree(Ascii("aba_10"))
    ensures !StringAndNumberEqualsString(Ascii("abc"), 11, Ascii("aba_10"))
  {
    var abc := Ascii("abc");
    StrnicmpZero(abc, Ascii("aba_10"), 3);
    assert LowerWide(Ascii("aba_10")[..3])[2] != LowerWide(abc[..3])[2];
  }

  /** The source's rejecting cases without a number: the first two characters
      of "abc" against "abc", and "abc" against "abcd", "abc_0" and "abc_". */
  lemma StringWithoutNumberRejectExamples()
    ensures NulFree(Ascii("abcd")) && NulFree(Ascii("abc_0")) && NulFree(Ascii("abc_"))
    ensures !StringAndNumberEqualsString(Ascii("ab"), NoNumber, Ascii("abc"))
    ensures !StringAndNumberEqualsString(Ascii("abc"), NoNumber, Ascii("abcd"))
    ensures !StringAndNumberEqualsString(Ascii("abc"), NoNumber, Ascii("abc_0"))
    ensures !StringAndNumberEqualsString(Ascii("abc"), NoNumber, Ascii("abc_"))
  {
  }

  /** name + "_" + digits is rejected when strtoll reads another number from the digits. */
  lemma RejectsNumber(name: seq<CodeUnit>, internal: nat, digits: seq<CodeUnit>, value: nat)
    requires NulFree(name) && |digits| > 0 && AllDigits(digits) && internal != NoNumber
    requires value <= MaxInt64 && DigitsValue(digits) == value && value != internal - 1
    ensures NulFree(name + [Underscore] + digits)
    ensures !StringAndNumberEqualsString(name, internal, name + [Underscore] + digits)
  {
    var s := name + [Underscore] + digits;
    assert s[|name| + 1..] == digits;
    Strtoi64Digits(digits);
  }
}
