/** Positions on a cyclic slot array and counts of used slots. Linear probing
    visits `start, start+1, ...` wrapping at the capacity; `Pos(s, k, cap)` is
    the k-th slot visited and `Dist(s, j, cap)` the step at which slot j is
    reached. */
module Probing {
  import opened Slots

  /** The capacity of a shard is a power of two, so `x & (cap - 1)` is `x % cap`. */
  predicate IsPow2(n: nat)
    decreases n
  {
    n == 1 || (n > 1 && n % 2 == 0 && IsPow2(n / 2))
  }

  lemma DoublePow2(n: nat)
    requires IsPow2(n)
    ensures IsPow2(2 * n) && n >= 1
  {
  }

  /** The k-th slot visited from `start`. */
  function Pos(start: nat, k: nat, cap: nat): (p: nat)
    requires start < cap && k < cap
    ensures p < cap
  {
    if start + k < cap then start + k else start + k - cap
  }

  /** The number of steps from `start` to slot `j`. */
  function Dist(start: nat, j: nat, cap: nat): (d: nat)
    requires start < cap && j < cap
    ensures d < cap && Pos(start, d, cap) == j
  {
    if start <= j then j - start else j + cap - start
  }

  /** `(I + 1) & Mask`: the slot after i. */
  function Next(i: nat, cap: nat): (n: nat)
    requires i < cap
    ensures n < cap
  {
    if i + 1 < cap then i + 1 else 0
  }

  /** Every slot is visited exactly once in the first `cap` steps. */
  lemma PosDist(start: nat, k: nat, cap: nat)
    requires start < cap && k < cap
    ensures Dist(start, Pos(start, k, cap), cap) == k
  {
  }

  lemma PosInjective(start: nat, k1: nat, k2: nat, cap: nat)
    requires start < cap && k1 < cap && k2 < cap
    ensures Pos(start, k1, cap) == Pos(start, k2, cap) <==> k1 == k2
  {
  }

  lemma NextPos(start: nat, k: nat, cap: nat)
    requires start < cap && k + 1 < cap
    ensures Next(Pos(start, k, cap), cap) == Pos(start, k + 1, cap)
  {
  }

  /** The number of used slots. */
  function CountUsed(s: seq<Slot>): (n: nat)
    ensures n <= |s|
  {
    if s == [] then 0 else (if Used(s[0]) then 1 else 0) + CountUsed(s[1..])
  }

  /** The set of used slot words. */
  function UsedValues(s: seq<Slot>): set<Slot> {
    set i | 0 <= i < |s| && Used(s[i]) :: s[i]
  }

  /** The slot array holds an unused slot, so probing stops. */
  predicate HasFree(s: seq<Slot>) {
    exists i :: 0 <= i < |s| && !Used(s[i])
  }

  /** No slot word occurs twice. */
  predicate Distinct(s: seq<Slot>) {
    forall i, j :: 0 <= i < j < |s| && Used(s[i]) ==> s[i] != s[j]
  }

  /** A fresh slot array: every slot unused. */
  function Unused(n: nat): (s: seq<Slot>)
    ensures |s| == n && CountUsed(s) == 0 && UsedValues(s) == {} && Distinct(s)
    ensures forall i :: 0 <= i < n ==> !Used(s[i])
  {
    var s := seq(n, _ => UnusedSlot);
    CountNoneUsed(s);
    s
  }

  lemma {:induction false} CountNoneUsed(s: seq<Slot>)
    requires forall i :: 0 <= i < |s| ==> !Used(s[i])
    ensures CountUsed(s) == 0
  {
    if s != [] {
      CountNoneUsed(s[1..]);
    }
  }

  /** Fewer used slots than slots: some slot is free. */
  lemma {:induction false} CountBelowLenHasFree(s: seq<Slot>)
    requires CountUsed(s) < |s|
    ensures HasFree(s)
  {
    if !Used(s[0]) {
    } else {
      CountBelowLenHasFree(s[1..]);
      var i :| 0 <= i < |s[1..]| && !Used(s[1..][i]);
      assert !Used(s[i + 1]);
    }
  }

  /** Writing a used word into an unused slot adds one used slot. */
  lemma {:induction false} CountClaim(s: seq<Slot>, p: nat, w: Slot)
    requires p < |s| && !Used(s[p]) && Used(w)
    ensures CountUsed(s[p := w]) == CountUsed(s) + 1
  {
    if p == 0 {
      assert s[p := w][1..] == s[1..];
    } else {
      assert s[p := w][1..] == s[1..][p - 1 := w];
      CountClaim(s[1..], p - 1, w);
    }
  }

  lemma CountSuffix(s: seq<Slot>, i: nat)
    requires i < |s|
    ensures CountUsed(s[i..]) == (if Used(s[i]) then 1 else 0) + CountUsed(s[i + 1..])
  {
    assert s[i..][1..] == s[i + 1..];
  }

  lemma UsedValuesClaim(s: seq<Slot>, p: nat, w: Slot)
    requires p < |s| && !Used(s[p]) && Used(w)
    ensures UsedValues(s[p := w]) == UsedValues(s) + {w}
  {
    var t := s[p := w];
    forall x | x in UsedValues(s) + {w}
      ensures x in UsedValues(t)
    {
      if x != w {
        var i :| 0 <= i < |s| && Used(s[i]) && s[i] == x;
        assert i != p && t[i] == x;
      } else {
        assert t[p] == w;
      }
    }
  }

  lemma UsedValuesSuffix(s: seq<Slot>, i: nat)
    requires i < |s|
    ensures UsedValues(s[i..]) == (if Used(s[i]) then {s[i]} else {}) + UsedValues(s[i + 1..])
  {
    var a := UsedValues(s[i..]);
    var b := (if Used(s[i]) then {s[i]} else {}) + UsedValues(s[i + 1..]);
    forall x | x in a ensures x in b {
      var k :| 0 <= k < |s[i..]| && Used(s[i..][k]) && s[i..][k] == x;
      if k > 0 {
        assert s[i + 1..][k - 1] == x;
      }
    }
    forall x | x in b ensures x in a {
      if Used(s[i]) && x == s[i] {
        assert s[i..][0] == x;
      } else {
        var k :| 0 <= k < |s[i + 1..]| && Used(s[i + 1..][k]) && s[i + 1..][k] == x;
        assert s[i..][k + 1] == x;
      }
    }
  }
}
