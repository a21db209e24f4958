/** Lexical order of names: CompareDifferentIdsAlphabetically compares two
    entries' strings ignoring case over their common length and then by
    length, FNameEntryId::CompareLexical wraps it for ids, and FName::Compare
    adds the number. */
module LexicalOrder {
  import opened Chars
  import opened CStrings
  import opened NameHashing
  import opened EntryAllocator

  /** ConvertInPlace<ANSICHAR, WIDECHAR> assigns each narrow character to a
      wide one. A narrow character is the platform's char: where char is
      signed, a byte of 0x80 or more is sign-extended (0xE9 becomes 0xFFE9);
      where it is unsigned, the byte keeps its value. */
  function Widen(signedChar: bool, c: Byte): CodeUnit {
    if signedChar && c >= 0x80 then 0xFF00 + c else c
  }

  function WidenAnsi(signedChar: bool, a: seq<Byte>): (r: seq<CodeUnit>)
    ensures |r| == |a|
    ensures forall i :: 0 <= i < |a| ==> r[i] == Widen(signedChar, a[i])
  {
    seq(|a|, i requires 0 <= i < |a| => Widen(signedChar, a[i]))
  }

  /** The code units a name is compared by against `other`: when only one of
      the two is wide, the narrow one is widened first; otherwise each name
      keeps its own units, so two narrow names compare their byte values. */
  function Operand(signedChar: bool, v: NameView, other: NameView): (u: seq<CodeUnit>)
    ensures |u| == Len(v)
  {
    if v.Ansi? && other.Wide? then WidenAnsi(signedChar, v.ansi) else Units(v)
  }

  /** The comparison of two name strings (CompareDifferentIdsAlphabetically
      after resolving the ids): Strnicmp over the shorter length, then the
      length difference. */
  function CompareViews(signedChar: bool, a: NameView, b: NameView): int {
    CompareUnits(Operand(signedChar, a, b), Operand(signedChar, b, a))
  }

  /** The same comparison on code units: Strnicmp over the shorter length,
      then the length difference. */
  function CompareUnits(x: seq<CodeUnit>, y: seq<CodeUnit>): int {
    var minLen := if |x| < |y| then |x| else |y|;
    var diff := Strnicmp(x, y, minLen);
    if diff != 0 then diff else |x| - |y|
  }

  /** Over NUL-free strings, the comparison orders exactly as the reference
      order on the lower-cased code units: its sign is LexCompare's result. */
  lemma {:induction false} CompareUnitsOrder(x: seq<CodeUnit>, y: seq<CodeUnit>)
    requires NulFree(x) && NulFree(y)
    ensures Sign(CompareUnits(x, y)) == LexCompare(LowerWide(x), LowerWide(y))
  {
    if |x| > 0 && |y| > 0 {
      LowerNonzero(x[0]);
      LowerNonzero(y[0]);
      assert LowerWide(x)[1..] == LowerWide(x[1..]);
      assert LowerWide(y)[1..] == LowerWide(y[1..]);
      if ToLower(x[0]) == ToLower(y[0]) {
        CompareUnitsOrder(x[1..], y[1..]);
      }
    }
  }

  /** The units a name is ordered by whatever it is compared with: a narrow
      name's widened characters, a wide name's own units. */
  function Widened(signedChar: bool, v: NameView): (u: seq<CodeUnit>)
    ensures |u| == Len(v)
  {
    match v
    case Ansi(a) => WidenAnsi(signedChar, a)
    case Wide(w) => w
  }

  /** The order on names: the reference order on their widened, lower-cased
      code units. */
  function ViewOrder(signedChar: bool, a: NameView, b: NameView): int {
    LexCompare(LowerWide(Widened(signedChar, a)), LowerWide(Widened(signedChar, b)))
  }

  /** A name is NUL-free when its code units are. */
  predicate NulFreeView(v: NameView) {
    NulFree(Units(v))
  }

  /** Widening keeps a NUL-free name NUL-free. */
  lemma OperandNulFree(signedChar: bool, v: NameView, other: NameView)
    requires NulFreeView(v)
    ensures NulFree(Operand(signedChar, v, other)) && NulFree(Widened(signedChar, v))
  {
  }

  /** Lower-casing and widening commute, and widening is strictly increasing
      on bytes, so two sequences of bytes order as their widened images do. */
  lemma {:induction false} WidenKeepsOrder(signedChar: bool, p: seq<int>, q: seq<int>, p': seq<int>, q': seq<int>)
    requires |p'| == |p| && |q'| == |q|
    requires forall i :: 0 <= i < |p| ==> 0 <= p[i] < 0x100 && p'[i] == Widen(signedChar, p[i])
    requires forall i :: 0 <= i < |q| ==> 0 <= q[i] < 0x100 && q'[i] == Widen(signedChar, q[i])
    ensures LexCompare(p', q') == LexCompare(p, q)
  {
    if |p| > 0 && |q| > 0 && p[0] == q[0] {
      WidenKeepsOrder(signedChar, p[1..], q[1..], p'[1..], q'[1..]);
    }
  }

  /** The lower-cased widened characters of a narrow name are the widened
      lower-cased bytes. */
  lemma LowerWidened(signedChar: bool, a: seq<Byte>)
    ensures forall i :: 0 <= i < |a| ==>
      (0 <= LowerWide(Units(Ansi(a)))[i] < 0x100
       && LowerWide(WidenAnsi(signedChar, a))[i] == Widen(signedChar, LowerWide(Units(Ansi(a)))[i] as Byte))
  {
  }

  /** The view comparison's sign is the reference order on the widened names,
      whatever their widths. */
  lemma CompareViewsOrder(signedChar: bool, a: NameView, b: NameView)
    requires NulFreeView(a) && NulFreeView(b)
    ensures Sign(CompareViews(signedChar, a, b)) == ViewOrder(signedChar, a, b)
  {
    OperandNulFree(signedChar, a, b);
    OperandNulFree(signedChar, b, a);
    CompareUnitsOrder(Operand(signedChar, a, b), Operand(signedChar, b, a));
    if a.Ansi? && b.Ansi? {
      LowerWidened(signedChar, a.ansi);
      LowerWidened(signedChar, b.ansi);
      WidenKeepsOrder(signedChar, LowerWide(Units(a)), LowerWide(Units(b)),
        LowerWide(Widened(signedChar, a)), LowerWide(Widened(signedChar, b)));
    }
  }

  /** A name's lower-cased units are the units of its lower-cased copy, and
      names of one width with the same units are the same name. */
  lemma LowerUnits(a: NameView, b: NameView)
    requires a.Ansi? == b.Ansi?
    ensures Lower(a) == Lower(b) <==> LowerWide(Units(a)) == LowerWide(Units(b))
  {
    assert Units(Lower(a)) == LowerWide(Units(a));
    assert Units(Lower(b)) == LowerWide(Units(b));
    if a.Ansi? && Units(Lower(a)) == Units(Lower(b)) {
      assert Lower(a).ansi == Lower(b).ansi;
    }
  }

  /** The comparison is 0 exactly when the widened names agree ignoring case;
      for names of the same width that is the pool's Equals ignoring case. */
  lemma CompareViewsZero(signedChar: bool, a: NameView, b: NameView)
    requires NulFreeView(a) && NulFreeView(b)
    ensures CompareViews(signedChar, a, b) == 0 <==>
      LowerWide(Widened(signedChar, a)) == LowerWide(Widened(signedChar, b))
    ensures a.Ansi? == b.Ansi? ==> (CompareViews(signedChar, a, b) == 0 <==> Equals(IgnoreCase, a, b))
  {
    CompareViewsOrder(signedChar, a, b);
    LexCompareZero(LowerWide(Widened(signedChar, a)), LowerWide(Widened(signedChar, b)));
    if a.Ansi? == b.Ansi? {
      OperandNulFree(signedChar, a, b);
      OperandNulFree(signedChar, b, a);
      CompareUnitsOrder(Units(a), Units(b));
      LexCompareZero(LowerWide(Units(a)), LowerWide(Units(b)));
      LowerUnits(a, b);
    }
  }

  /** Swapping the names flips the comparison's sign. */
  lemma CompareViewsAntisymmetric(signedChar: bool, a: NameView, b: NameView)
    requires NulFreeView(a) && NulFreeView(b)
    ensures Sign(CompareViews(signedChar, a, b)) == -Sign(CompareViews(signedChar, b, a))
  {
    CompareViewsOrder(signedChar, a, b);
    CompareViewsOrder(signedChar, b, a);
    LexCompareAntisymmetric(LowerWide(Widened(signedChar, a)), LowerWide(Widened(signedChar, b)));
  }

  /** The comparison orders transitively, across widths too. */
  lemma CompareViewsTransitive(signedChar: bool, a: NameView, b: NameView, c: NameView)
    requires NulFreeView(a) && NulFreeView(b) && NulFreeView(c)
    requires CompareViews(signedChar, a, b) < 0 && CompareViews(signedChar, b, c) < 0
    ensures CompareViews(signedChar, a, c) < 0
  {
    CompareViewsOrder(signedChar, a, b);
    CompareViewsOrder(signedChar, b, c);
    CompareViewsOrder(signedChar, a, c);
    LexCompareTransitive(LowerWide(Widened(signedChar, a)), LowerWide(Widened(signedChar, b)),
      LowerWide(Widened(signedChar, c)));
  }

  /** Names the pool treats as the same case-insensitive name compare equal. */
  lemma EqualNamesCompareZero(signedChar: bool, a: NameView, b: NameView)
    requires NulFreeView(a) && NulFreeView(b) && Equals(IgnoreCase, a, b)
    ensures CompareViews(signedChar, a, b) == 0
  {
    EqualsSameDimensions(IgnoreCase, a, b);
    CompareViewsZero(signedChar, a, b);
  }

  /** The comparison ignores width, unlike the pool's Equals: narrow "abc"
      and wide "abc" compare equal but are different names. */
  lemma WidthIgnoredExample(signedChar: bool)
    ensures CompareViews(signedChar, Ansi(AsciiBytes("abc")), Wide(Ascii("abc"))) == 0
    ensures !Equals(IgnoreCase, Ansi(AsciiBytes("abc")), Wide(Ascii("abc")))
  {
    var a := Ansi(AsciiBytes("abc"));
    var w := Wide(Ascii("abc"));
    assert Widened(signedChar, a) == Units(w);
    CompareViewsZero(signedChar, a, w);
  }

  /** A narrow byte of 0x80 or more against a wide name: where char is signed
      narrow 0xE9 compares as 0xFFE9, so it equals wide 0xFFE9 and orders
      after wide 0x100; where char is unsigned it orders before 0x100. */
  lemma HighByteExample()
    ensures CompareViews(true, Ansi([0xE9]), Wide([0xFFE9])) == 0
    ensures CompareViews(true, Ansi([0xE9]), Wide([0x100])) > 0
    ensures CompareViews(false, Ansi([0xE9]), Wide([0x100])) < 0
    ensures CompareViews(false, Ansi([0xE9]), Wide([0xE9])) == 0
  {
    assert Operand(true, Ansi([0xE9]), Wide([0x100])) == [0xFFE9];
    assert Operand(false, Ansi([0xE9]), Wide([0x100])) == [0xE9];
  }

  // ---------------------------------------------------------------------
  // Comparing entries by id

  /** CompareDifferentIdsAlphabetically: the caller passes two different ids
      of entries the pool holds, and the entries' strings are compared. */
  function CompareDifferentIds(signedChar: bool, entries: map<nat, Entry>, a: nat, b: nat): int
    requires a in entries && b in entries && a != b
  {
    CompareViews(signedChar, entries[a].name, entries[b].name)
  }

  /** FNameEntryId::CompareLexical as written: the comparison is joined to
      "ids differ" with a logical and, so the result is the bool 0 or 1. */
  function CompareLexicalAsWritten(signedChar: bool, entries: map<nat, Entry>, a: nat, b: nat): (r: int)
    requires a in entries && b in entries
  {
    if a != b && CompareDifferentIds(signedChar, entries, a, b) != 0 then 1 else 0
  }

  /** The result as written is never negative, so no id ever orders before another. */
  lemma CompareLexicalAsWrittenNeverNegative(signedChar: bool, entries: map<nat, Entry>, a: nat, b: nat)
    requires a in entries && b in entries
    ensures CompareLexicalAsWritten(signedChar, entries, a, b) == 0 || CompareLexicalAsWritten(signedChar, entries, a, b) == 1
    ensures a != b && CompareViews(signedChar, entries[a].name, entries[b].name) != 0 ==>
      CompareLexicalAsWritten(signedChar, entries, a, b) == CompareLexicalAsWritten(signedChar, entries, b, a) == 1
  {
    var x, y := entries[a].name, entries[b].name;
    if a != b && CompareViews(signedChar, x, y) != 0 {
      StrnicmpAntisymmetric(Operand(signedChar, x, y), Operand(signedChar, y, x),
        if Len(x) < Len(y) then Len(x) else Len(y));
    }
  }

  /** Entries 1 = "FooA" and 2 = "FooB": each compares as greater than the other. */
  lemma CompareLexicalAsWrittenExample(signedChar: bool, h: EntryHeader)
    ensures var entries := map[1 := Entry(h, Ansi(AsciiBytes("FooA")), 1), 2 := Entry(h, Ansi(AsciiBytes("FooB")), 2)];
      && CompareViews(signedChar, entries[1].name, entries[2].name) < 0
      && CompareLexicalAsWritten(signedChar, entries, 1, 2) == 1
      && CompareLexicalAsWritten(signedChar, entries, 2, 1) == 1
  {
    var entries := map[1 := Entry(h, Ansi(AsciiBytes("FooA")), 1), 2 := Entry(h, Ansi(AsciiBytes("FooB")), 2)];
    DifferAt(signedChar, entries[1].name, entries[2].name, 3);
    CompareLexicalAsWrittenNeverNegative(signedChar, entries, 1, 2);
  }

  /** Two sequences with a common prefix of length k that differ at k are
      ordered by their elements at k. */
  lemma {:induction false} LexCompareFirstDifference(x: seq<int>, y: seq<int>, k: nat)
    requires k < |x| && k < |y| && x[..k] == y[..k]
    ensures x[k] < y[k] ==> LexCompare(x, y) == -1
    ensures x[k] > y[k] ==> LexCompare(x, y) == 1
  {
    if k > 0 {
      assert x[1..][..k - 1] == x[..k][1..] && y[1..][..k - 1] == y[..k][1..];
      LexCompareFirstDifference(x[1..], y[1..], k - 1);
    }
  }

  /** A proper prefix orders before the longer sequence. */
  lemma {:induction false} LexComparePrefix(x: seq<int>, y: seq<int>)
    requires |x| < |y| && x == y[..|x|]
    ensures LexCompare(x, y) == -1
  {
    if |x| > 0 {
      assert x[1..] == y[1..][..|x| - 1];
      LexComparePrefix(x[1..], y[1..]);
    }
  }

  /** CompareLexical as evidently intended: 0 for the same id, otherwise the
      alphabetical comparison. */
  function CompareLexical(signedChar: bool, entries: map<nat, Entry>, a: nat, b: nat): int
    requires a in entries && b in entries
  {
    if a == b then 0 else CompareDifferentIds(signedChar, entries, a, b)
  }

  /** The intended comparison is antisymmetric, 0 exactly for equal ids and
      for different entries with the same widened string ignoring case, and
      otherwise follows the reference order on the widened, lower-cased strings. */
  lemma CompareLexicalOrder(signedChar: bool, entries: map<nat, Entry>, a: nat, b: nat)
    requires a in entries && b in entries
    requires NulFreeView(entries[a].name) && NulFreeView(entries[b].name)
    ensures Sign(CompareLexical(signedChar, entries, a, b)) == -Sign(CompareLexical(signedChar, entries, b, a))
    ensures CompareLexical(signedChar, entries, a, b) == 0 <==>
      a == b || LowerWide(Widened(signedChar, entries[a].name)) == LowerWide(Widened(signedChar, entries[b].name))
    ensures a != b ==> Sign(CompareLexical(signedChar, entries, a, b)) == ViewOrder(signedChar, entries[a].name, entries[b].name)
  {
    if a != b {
      CompareViewsAntisymmetric(signedChar, entries[a].name, entries[b].name);
      CompareViewsZero(signedChar, entries[a].name, entries[b].name);
      CompareViewsOrder(signedChar, entries[a].name, entries[b].name);
    }
  }

  // ---------------------------------------------------------------------
  // FName::Compare

  /** An FName as a comparison id and an internal number. */
  datatype Name = Name(comparisonId: nat, number: nat)

  /** FName::Compare: the number difference for the same comparison id, the
      alphabetical comparison otherwise. */
  function CompareNames(signedChar: bool, entries: map<nat, Entry>, a: Name, b: Name): int
    requires a.comparisonId in entries && b.comparisonId in entries
  {
    if a.comparisonId == b.comparisonId then a.number - b.number
    else CompareDifferentIds(signedChar, entries, a.comparisonId, b.comparisonId)
  }

  /** FName::Compare is 0 only for the same name and number, or for
      different entries with the same widened string ignoring case; swapping
      the names flips its sign. */
  lemma CompareNamesOrder(signedChar: bool, entries: map<nat, Entry>, a: Name, b: Name)
    requires a.comparisonId in entries && b.comparisonId in entries
    requires NulFreeView(entries[a.comparisonId].name) && NulFreeView(entries[b.comparisonId].name)
    ensures Sign(CompareNames(signedChar, entries, a, b)) == -Sign(CompareNames(signedChar, entries, b, a))
    ensures CompareNames(signedChar, entries, a, b) == 0 <==>
      a == b || (a.comparisonId != b.comparisonId
        && LowerWide(Widened(signedChar, entries[a.comparisonId].name))
           == LowerWide(Widened(signedChar, entries[b.comparisonId].name)))
  {
    if a.comparisonId != b.comparisonId {
      CompareLexicalOrder(signedChar, entries, a.comparisonId, b.comparisonId);
    }
  }

  // ---------------------------------------------------------------------
  // The sorted example

  function FooNames(): seq<NameView> {
    [Ansi(AsciiBytes("FooA")), Ansi(AsciiBytes("FooAB")), Ansi(AsciiBytes("FooABC")),
     Ansi(AsciiBytes("FooABCD")), Ansi(AsciiBytes("FooB")), Ansi(AsciiBytes("FooC")),
     Wide(Ascii("Foo") + [2000])]
  }

  /** ASCII characters widen to themselves, whether char is signed or not. */
  lemma WidenAscii(signedChar: bool, v: NameView)
    requires forall i :: 0 <= i < Len(v) ==> Units(v)[i] < 0x80
    ensures Widened(signedChar, v) == Units(v)
  {
  }

  /** Each name in the source's sorted list orders before the next, whether
      char is signed or not. */
  lemma FooNamesSorted(signedChar: bool)
    ensures forall i :: 0 <= i < |FooNames()| - 1 ==> CompareViews(signedChar, FooNames()[i], FooNames()[i + 1]) < 0
  {
    forall i | 0 <= i < |FooNames()| - 1
      ensures CompareViews(signedChar, FooNames()[i], FooNames()[i + 1]) < 0
    {
      FooPair(signedChar, i);
    }
  }

  /** One adjacent pair of the sorted list. */
  lemma FooPair(signedChar: bool, i: nat)
    requires i < |FooNames()| - 1
    ensures CompareViews(signedChar, FooNames()[i], FooNames()[i + 1]) < 0
  {
    if i < 3 {
      FooPrefixPair(signedChar, i);
    } else {
      FooDifferPair(signedChar, i);
    }
  }

  /** FooA, FooAB, FooABC and FooABCD: each is a prefix of the next. */
  lemma FooPrefixPair(signedChar: bool, i: nat)
    requires i < 3
    ensures CompareViews(signedChar, FooNames()[i], FooNames()[i + 1]) < 0
  {
    var a, b := FooNames()[i], FooNames()[i + 1];
    WidenAscii(signedChar, a);
    WidenAscii(signedChar, b);
    PrefixOrdersFirst(signedChar, a, b);
  }

  /** FooABCD, FooB, FooC and the wide name: each pair differs first at the fourth unit. */
  lemma FooDifferPair(signedChar: bool, i: nat)
    requires 3 <= i < 6
    ensures CompareViews(signedChar, FooNames()[i], FooNames()[i + 1]) < 0
  {
    var a, b := FooNames()[i], FooNames()[i + 1];
    WidenAscii(signedChar, a);
    if i < 5 {
      WidenAscii(signedChar, b);
    }
    DifferAt(signedChar, a, b, 3);
  }

  /** A name whose widened units are a proper prefix of another's orders first. */
  lemma PrefixOrdersFirst(signedChar: bool, a: NameView, b: NameView)
    requires NulFreeView(a) && NulFreeView(b) && Len(a) < Len(b)
    requires Widened(signedChar, a) == Widened(signedChar, b)[..Len(a)]
    ensures CompareViews(signedChar, a, b) < 0
  {
    CompareViewsOrder(signedChar, a, b);
    assert LowerWide(Widened(signedChar, a)) == LowerWide(Widened(signedChar, b))[..Len(a)];
    LexComparePrefix(LowerWide(Widened(signedChar, a)), LowerWide(Widened(signedChar, b)));
  }

  /** Names whose widened units agree on the first k and differ ignoring case
      at k order by the units at k. */
  lemma DifferAt(signedChar: bool, a: NameView, b: NameView, k: nat)
    requires NulFreeView(a) && NulFreeView(b) && k < Len(a) && k < Len(b)
    requires Widened(signedChar, a)[..k] == Widened(signedChar, b)[..k]
    requires ToLower(Widened(signedChar, a)[k]) < ToLower(Widened(signedChar, b)[k])
    ensures CompareViews(signedChar, a, b) < 0
  {
    var x, y := LowerWide(Widened(signedChar, a)), LowerWide(Widened(signedChar, b));
    CompareViewsOrder(signedChar, a, b);
    assert x[..k] == LowerWide(Widened(signedChar, a)[..k]);
    assert y[..k] == LowerWide(Widened(signedChar, b)[..k]);
    LexCompareFirstDifference(x, y, k);
  }
}
