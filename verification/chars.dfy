/** Name strings as the pool sees them: narrow (ANSI) or wide code units,
    with the ASCII case folding used by the case-insensitive paths. */
module Chars {

  type Byte = x: int | 0 <= x < 0x100
  type CodeUnit = x: int | 0 <= x < 0x1_0000

  /** FNameStringView: a length-delimited string that is either narrow or wide. */
  datatype NameView = Ansi(ansi: seq<Byte>) | Wide(wide: seq<CodeUnit>)

  /** ENameCase: how two names are compared. */
  datatype Case = IgnoreCase | CaseSensitive

  function Len(v: NameView): nat {
    match v
    case Ansi(a) => |a|
    case Wide(w) => |w|
  }

  /** The code units of a view: a narrow character's unit is its byte value,
      a wide name's units are its own. */
  function Units(v: NameView): (u: seq<CodeUnit>)
    ensures |u| == Len(v)
    ensures v.Wide? ==> u == v.wide
    ensures v.Ansi? ==> forall i :: 0 <= i < |u| ==> u[i] == v.ansi[i]
  {
    match v
    case Ansi(a) => seq(|a|, i requires 0 <= i < |a| => a[i] as CodeUnit)
    case Wide(w) => w
  }

  /** ASCII lower-casing of one code unit; every other unit is unchanged. */
  function ToLower(c: CodeUnit): (r: CodeUnit)
    ensures 'A' as int <= c <= 'Z' as int ==> r == c + 32
    ensures !('A' as int <= c <= 'Z' as int) ==> r == c
  {
    if 'A' as int <= c <= 'Z' as int then c + 32 else c
  }

  function LowerAnsi(a: seq<Byte>): (r: seq<Byte>)
    ensures |r| == |a|
    ensures forall i :: 0 <= i < |a| ==> r[i] == ToLower(a[i])
  {
    seq(|a|, i requires 0 <= i < |a| => ToLower(a[i]) as Byte)
  }

  function LowerWide(w: seq<CodeUnit>): (r: seq<CodeUnit>)
    ensures |r| == |w|
    ensures forall i :: 0 <= i < |w| ==> r[i] == ToLower(w[i])
  {
    seq(|w|, i requires 0 <= i < |w| => ToLower(w[i]))
  }

  /** The lower-case copy the hashing code builds before hashing (HashLowerCase). */
  function Lower(v: NameView): (r: NameView)
    ensures r.Ansi? == v.Ansi? && Len(r) == Len(v)
    ensures forall i :: 0 <= i < Len(v) ==> Units(r)[i] == ToLower(Units(v)[i])
  {
    match v
    case Ansi(a) => Ansi(LowerAnsi(a))
    case Wide(w) => Wide(LowerWide(w))
  }

  /** Equals<Sensitivity>: same width, same length, and the same units, compared
      after lower-casing when the comparison ignores case. */
  predicate Equals(sens: Case, a: NameView, b: NameView) {
    match sens
    case CaseSensitive => a == b
    case IgnoreCase => Lower(a) == Lower(b)
  }

  /** The bytes a view occupies in memory: narrow characters as they are, wide
      code units as two little-endian bytes each. These are the bytes hashed. */
  function Bytes(v: NameView): (r: seq<Byte>)
    ensures |r| == (if v.Wide? then 2 * Len(v) else Len(v))
  {
    match v
    case Ansi(a) => a
    case Wide(w) => WideBytes(w)
  }

  function WideBytes(w: seq<CodeUnit>): (r: seq<Byte>)
    ensures |r| == 2 * |w|
  {
    if w == [] then [] else [w[0] % 0x100, w[0] / 0x100] + WideBytes(w[1..])
  }

  lemma LowerIdempotent(v: NameView)
    ensures Lower(Lower(v)) == Lower(v)
  {
    match v
    case Ansi(a) => assert LowerAnsi(LowerAnsi(a)) == LowerAnsi(a);
    case Wide(w) => assert LowerWide(LowerWide(w)) == LowerWide(w);
  }

  /** Both comparisons are equivalence relations, and a case-sensitive match is
      also a case-insensitive one. */
  lemma EqualsIsEquivalence(sens: Case, a: NameView, b: NameView, c: NameView)
    ensures Equals(sens, a, a)
    ensures Equals(sens, a, b) ==> Equals(sens, b, a)
    ensures Equals(sens, a, b) && Equals(sens, b, c) ==> Equals(sens, a, c)
    ensures Equals(CaseSensitive, a, b) ==> Equals(IgnoreCase, a, b)
  {
  }

  /** Names that compare equal have the same width and length. */
  lemma EqualsSameDimensions(sens: Case, a: NameView, b: NameView)
    requires Equals(sens, a, b)
    ensures a.Wide? == b.Wide? && Len(a) == Len(b)
  {
    if sens == IgnoreCase {
      assert Len(Lower(a)) == Len(Lower(b));
    }
  }

  /** A name is case-insensitively equal to its own lower-case copy. */
  lemma EqualsLower(v: NameView)
    ensures Equals(IgnoreCase, v, Lower(v))
  {
    LowerIdempotent(v);
  }
}
