/** The invariant a name pool shard keeps between operations, and what it buys:
    a probe for a name finds the slot of the equal name when there is one and
    a free slot otherwise. Every operation that changes a shard keeps it. */
module ShardInvariant {
  import opened Wrappers
  import opened Chars
  import opened Slots
  import opened NameHashing
  import opened EntryAllocator
  import opened Probing
  import opened NameShard

  function NameOf(entries: map<nat, Entry>, w: Slot): NameView
    requires GetId(w) in entries
  {
    entries[GetId(w)].name
  }

  /** The slot where probing for the name in slot word w starts. */
  function Home(cfg: Config, sens: Case, entries: map<nat, Entry>, w: Slot, cap: nat): (s: nat)
    requires GetId(w) in entries && cap > 0
    ensures s < cap
  {
    ProbeStart(HashName(cfg, sens, NameOf(entries, w)).unmaskedSlotIndex, cap)
  }

  /** A slot word carries its name's slot probe hash, and its entry's header
      is the name's probe header. */
  ghost predicate Matches(cfg: Config, sens: Case, entries: map<nat, Entry>, w: Slot) {
    && GetId(w) in entries
    && var h := HashName(cfg, sens, NameOf(entries, w));
       GetProbeHash(w) == h.slotProbeHash && entries[GetId(w)].header == h.entryProbeHeader
  }

  ghost predicate AllMatch(cfg: Config, sens: Case, u: set<Slot>, entries: map<nat, Entry>) {
    forall w :: w in u ==> Matches(cfg, sens, entries, w)
  }

  /** No two different slot words name equal strings. */
  ghost predicate NamesDiffer(sens: Case, u: set<Slot>, entries: map<nat, Entry>) {
    forall a, b :: a in u && b in u && a != b && GetId(a) in entries && GetId(b) in entries ==>
      !Equals(sens, NameOf(entries, a), NameOf(entries, b))
  }

  /** Every slot on the probe path from `start` up to slot j is used. */
  ghost predicate Reachable(slots: seq<Slot>, start: nat, j: nat)
    requires start < |slots| && j < |slots|
  {
    forall m :: 0 <= m < Dist(start, j, |slots|) ==> Used(slots[Pos(start, m, |slots|)])
  }

  /** Every used slot can be reached from its name's probe start without
      passing a free slot. */
  ghost predicate Placed(cfg: Config, sens: Case, slots: seq<Slot>, entries: map<nat, Entry>) {
    forall j :: 0 <= j < |slots| && Used(slots[j]) && GetId(slots[j]) in entries ==>
      Reachable(slots, Home(cfg, sens, entries, slots[j], |slots|), j)
  }

  ghost predicate Consistent(cfg: Config, sens: Case, slots: seq<Slot>, entries: map<nat, Entry>) {
    && Known(slots, entries)
    && AllMatch(cfg, sens, UsedValues(slots), entries)
    && NamesDiffer(sens, UsedValues(slots), entries)
    && Distinct(slots)
    && Placed(cfg, sens, slots, entries)
  }

  ghost predicate ShardInv(cfg: Config, sens: Case, sh: Shard, entries: map<nat, Entry>) {
    Wellformed(sh, entries) && Consistent(cfg, sens, sh.slots, entries)
  }

  /** The entry map only gained entries. */
  ghost predicate Extends(entries: map<nat, Entry>, entries': map<nat, Entry>) {
    forall id :: id in entries ==> id in entries' && entries'[id] == entries[id]
  }

  /** A used slot word whose entry's name equals `name` under the sensitivity. */
  ghost predicate Holds(sens: Case, slots: seq<Slot>, entries: map<nat, Entry>, name: NameView, w: Slot) {
    w in UsedValues(slots) && GetId(w) in entries && Equals(sens, NameOf(entries, w), name)
  }

  lemma NewShardInv(cfg: Config, sens: Case, entries: map<nat, Entry>)
    ensures ShardInv(cfg, sens, NewShard(), entries)
  {
    NewShardWellformed(entries);
  }

  lemma ConsistentExtends(cfg: Config, sens: Case, slots: seq<Slot>, entries: map<nat, Entry>, entries': map<nat, Entry>)
    requires Consistent(cfg, sens, slots, entries) && Extends(entries, entries')
    ensures Consistent(cfg, sens, slots, entries')
  {
    forall j | 0 <= j < |slots| && Used(slots[j]) && GetId(slots[j]) in entries'
      ensures Reachable(slots, Home(cfg, sens, entries', slots[j], |slots|), j)
    {
      assert slots[j] in UsedValues(slots);
    }
  }

  lemma ShardInvExtends(cfg: Config, sens: Case, sh: Shard, entries: map<nat, Entry>, entries': map<nat, Entry>)
    requires ShardInv(cfg, sens, sh, entries) && Extends(entries, entries')
    ensures ShardInv(cfg, sens, sh, entries')
  {
    ConsistentExtends(cfg, sens, sh.slots, entries, entries');
  }

  /** A probe that would stop at slot j, reachable from the probe start, stops
      at j or at an earlier used slot that satisfies the predicate. */
  lemma ProbeStopsBy(slots: seq<Slot>, t: Target, entries: map<nat, Entry>, unmasked: nat, j: nat)
    requires HasFree(slots) && j < |slots| && Stops(t, entries, slots[j])
    requires Reachable(slots, ProbeStart(unmasked, |slots|), j)
    ensures var i := Probe(slots, t, entries, unmasked);
      i == j || (Used(slots[i]) && Hits(t, entries, slots[i]))
  {
    var s := ProbeStart(unmasked, |slots|);
    var i := Probe(slots, t, entries, unmasked);
    var di, dj := Dist(s, i, |slots|), Dist(s, j, |slots|);
    assert Stops(t, entries, slots[Pos(s, dj, |slots|)]);
    assert di <= dj;
    if di < dj {
      assert Used(slots[Pos(s, di, |slots|)]);
    }
  }

  /** In a consistent shard, a used slot satisfies a value's probe predicate
      exactly when its name equals the value's name. */
  lemma HitIffEqual(cfg: Config, sens: Case, slots: seq<Slot>, entries: map<nat, Entry>, v: Value, j: nat)
    requires Consistent(cfg, sens, slots, entries) && j < |slots|
    requires v.hash == HashName(cfg, sens, v.name)
    ensures Used(slots[j]) ==> GetId(slots[j]) in entries
    ensures Used(slots[j]) ==>
      (Hits(ByValue(sens, v), entries, slots[j]) <==> Equals(sens, NameOf(entries, slots[j]), v.name))
  {
    if Used(slots[j]) {
      assert slots[j] in UsedValues(slots);
      if Equals(sens, NameOf(entries, slots[j]), v.name) {
        EqualNamesHashEqual(cfg, sens, NameOf(entries, slots[j]), v.name);
      }
    }
  }

  /** Two slot words holding names equal to the same name are the same word. */
  lemma HoldersAgree(sens: Case, u: set<Slot>, entries: map<nat, Entry>, name: NameView, a: Slot, b: Slot)
    requires NamesDiffer(sens, u, entries)
    requires a in u && b in u && GetId(a) in entries && GetId(b) in entries
    requires Equals(sens, NameOf(entries, a), name) && Equals(sens, NameOf(entries, b), name)
    ensures a == b
  {
    EqualsIsEquivalence(sens, NameOf(entries, a), name, NameOf(entries, b));
  }

  /** Probing for a name present in the shard stops at its slot. */
  lemma ProbeFindsEqual(cfg: Config, sens: Case, slots: seq<Slot>, entries: map<nat, Entry>, v: Value, j: nat)
    requires Consistent(cfg, sens, slots, entries) && HasFree(slots)
    requires v.hash == HashName(cfg, sens, v.name)
    requires j < |slots| && Used(slots[j]) && GetId(slots[j]) in entries
    requires Equals(sens, NameOf(entries, slots[j]), v.name)
    ensures Probe(slots, ByValue(sens, v), entries, v.hash.unmaskedSlotIndex) == j
  {
    var t := ByValue(sens, v);
    EqualNamesHashEqual(cfg, sens, NameOf(entries, slots[j]), v.name);
    HitIffEqual(cfg, sens, slots, entries, v, j);
    ProbeStopsBy(slots, t, entries, v.hash.unmaskedSlotIndex, j);
    var i := Probe(slots, t, entries, v.hash.unmaskedSlotIndex);
    HitIffEqual(cfg, sens, slots, entries, v, i);
    if Used(slots[i]) && Hits(t, entries, slots[i]) {
      assert slots[i] in UsedValues(slots) && slots[j] in UsedValues(slots);
      HoldersAgree(sens, UsedValues(slots), entries, v.name, slots[i], slots[j]);
    }
  }

  /** Probing for a name absent from the shard stops at a free slot. */
  lemma ProbeMissesAbsent(cfg: Config, sens: Case, slots: seq<Slot>, entries: map<nat, Entry>, v: Value)
    requires Consistent(cfg, sens, slots, entries) && HasFree(slots)
    requires v.hash == HashName(cfg, sens, v.name)
    requires forall w :: !Holds(sens, slots, entries, v.name, w)
    ensures !Used(slots[Probe(slots, ByValue(sens, v), entries, v.hash.unmaskedSlotIndex)])
  {
    var i := Probe(slots, ByValue(sens, v), entries, v.hash.unmaskedSlotIndex);
    HitIffEqual(cfg, sens, slots, entries, v, i);
    var w := slots[i];
    assert !Holds(sens, slots, entries, v.name, w);
    assert Used(w) ==> w in UsedValues(slots);
  }

  /** Find returns the id of the slot holding an equal name, and 0 when no
      slot does. */
  lemma FindCorrect(cfg: Config, sens: Case, sh: Shard, entries: map<nat, Entry>, v: Value)
    requires ShardInv(cfg, sens, sh, entries)
    requires v.hash == HashName(cfg, sens, v.name)
    ensures HasFree(sh.slots)
    ensures forall w :: Holds(sens, sh.slots, entries, v.name, w) ==> Find(sh, sens, entries, v) == GetId(w)
    ensures (forall w :: !Holds(sens, sh.slots, entries, v.name, w)) ==> Find(sh, sens, entries, v) == 0
  {
    CountBelowLenHasFree(sh.slots);
    forall w | Holds(sens, sh.slots, entries, v.name, w)
      ensures Find(sh, sens, entries, v) == GetId(w)
    {
      var j :| 0 <= j < |sh.slots| && Used(sh.slots[j]) && sh.slots[j] == w;
      ProbeFindsEqual(cfg, sens, sh.slots, entries, v, j);
    }
    if forall w :: !Holds(sens, sh.slots, entries, v.name, w) {
      ProbeMissesAbsent(cfg, sens, sh.slots, entries, v);
    }
  }

  /** Writing into a free slot used slots only gain. */
  lemma ReachableClaim(slots: seq<Slot>, p: nat, w: Slot, start: nat, j: nat)
    requires p < |slots| && !Used(slots[p]) && Used(w)
    requires start < |slots| && j < |slots| && Reachable(slots, start, j)
    ensures Reachable(slots[p := w], start, j)
  {
  }

  lemma PlacedClaim(cfg: Config, sens: Case, slots: seq<Slot>, entries: map<nat, Entry>, p: nat, w: Slot)
    requires Placed(cfg, sens, slots, entries)
    requires p < |slots| && !Used(slots[p]) && Used(w) && GetId(w) in entries
    requires Reachable(slots, Home(cfg, sens, entries, w, |slots|), p)
    ensures Placed(cfg, sens, slots[p := w], entries)
  {
    var t := slots[p := w];
    forall j | 0 <= j < |t| && Used(t[j]) && GetId(t[j]) in entries
      ensures Reachable(t, Home(cfg, sens, entries, t[j], |t|), j)
    {
      ReachableClaim(slots, p, w, Home(cfg, sens, entries, t[j], |t|), j);
    }
  }

  lemma DistinctClaim(slots: seq<Slot>, p: nat, w: Slot)
    requires Distinct(slots) && p < |slots| && !Used(slots[p]) && w !in UsedValues(slots)
    ensures Distinct(slots[p := w])
  {
    var t := slots[p := w];
    forall i, j | 0 <= i < j < |t| && Used(t[i])
      ensures t[i] != t[j]
    {
      if i == p {
        assert Used(t[j]) ==> t[j] in UsedValues(slots);
      } else if j == p {
        assert slots[i] in UsedValues(slots);
      }
    }
  }

  /** A used word missing from a distinct array's suffix: its one position is i. */
  lemma DistinctSuffix(s: seq<Slot>, i: nat)
    requires Distinct(s) && i < |s| && Used(s[i])
    ensures s[i] !in UsedValues(s[i + 1..])
  {
    var t := s[i + 1..];
    forall k | 0 <= k < |t| && Used(t[k])
      ensures t[k] != s[i]
    {
      assert t[k] == s[i + 1 + k];
    }
  }

  /** Claiming a free slot on the new word's probe path for a name not yet in
      the shard keeps the shard consistent. */
  lemma ConsistentClaim(cfg: Config, sens: Case, slots: seq<Slot>, entries: map<nat, Entry>, p: nat, w: Slot)
    requires Consistent(cfg, sens, slots, entries)
    requires p < |slots| && !Used(slots[p]) && Used(w) && Matches(cfg, sens, entries, w)
    requires w !in UsedValues(slots)
    requires forall a :: a in UsedValues(slots) && GetId(a) in entries ==>
      !Equals(sens, NameOf(entries, a), NameOf(entries, w))
    requires Reachable(slots, Home(cfg, sens, entries, w, |slots|), p)
    ensures Consistent(cfg, sens, slots[p := w], entries)
  {
    var t := slots[p := w];
    UsedValuesClaim(slots, p, w);
    PlacedClaim(cfg, sens, slots, entries, p, w);
    DistinctClaim(slots, p, w);
    forall a, b | a in UsedValues(t) && b in UsedValues(t) && a != b && GetId(a) in entries && GetId(b) in entries
      ensures !Equals(sens, NameOf(entries, a), NameOf(entries, b))
    {
      EqualsIsEquivalence(sens, NameOf(entries, a), NameOf(entries, b), NameOf(entries, a));
    }
  }

  /** The free slot Grow's probe picks for a word is on that word's probe path. */
  lemma ProbeFreePath(cfg: Config, sens: Case, acc: seq<Slot>, entries: map<nat, Entry>, w: Slot)
    requires HasFree(acc) && GetId(w) in entries
    ensures var j := Probe(acc, NoTarget, entries, Rehash(cfg, sens, entries, GetId(w)).unmaskedSlotIndex);
      !Used(acc[j]) && Reachable(acc, Home(cfg, sens, entries, w, |acc|), j)
  {
  }

  lemma DisjointExcludes(a: set<Slot>, b: set<Slot>, x: Slot)
    requires a * b == {} && x in b
    ensures x !in a
  {
    assert x !in a * b;
  }

  /** One used word of Grow's copy loop placed: the new array stays distinct
      and placed, and still shares no word with the rest of the old array. */
  lemma ReinsertClaim(cfg: Config, sens: Case, src: seq<Slot>, i: nat, acc: seq<Slot>, entries: map<nat, Entry>)
    requires i < |src| && Used(src[i]) && GetId(src[i]) in entries && HasFree(acc)
    requires Distinct(src) && Distinct(acc) && Placed(cfg, sens, acc, entries)
    requires UsedValues(acc) * UsedValues(src[i..]) == {}
    ensures var j := Probe(acc, NoTarget, entries, Rehash(cfg, sens, entries, GetId(src[i])).unmaskedSlotIndex);
      var acc' := acc[j := src[i]];
      && Distinct(acc') && Placed(cfg, sens, acc', entries)
      && UsedValues(acc') * UsedValues(src[i + 1..]) == {}
  {
    var w := src[i];
    var j := Probe(acc, NoTarget, entries, Rehash(cfg, sens, entries, GetId(w)).unmaskedSlotIndex);
    var rest := UsedValues(src[i + 1..]);
    ProbeFreePath(cfg, sens, acc, entries, w);
    UsedValuesSuffix(src, i);
    DisjointExcludes(UsedValues(acc), UsedValues(src[i..]), w);
    UsedValuesClaim(acc, j, w);
    DistinctClaim(acc, j, w);
    PlacedClaim(cfg, sens, acc, entries, j, w);
    DistinctSuffix(src, i);
    forall x | x in UsedValues(acc[j := w])
      ensures x !in rest
    {
      if x != w {
        assert x in UsedValues(acc);
      }
    }
  }

  /** Grow's copy loop keeps slot words distinct and reachable. */
  lemma {:induction false} ReinsertConsistent(cfg: Config, sens: Case, src: seq<Slot>, i: nat, acc: seq<Slot>, entries: map<nat, Entry>)
    requires i <= |src| && Known(src[i..], entries)
    requires CountUsed(acc) + CountUsed(src[i..]) < |acc|
    requires Distinct(src) && Distinct(acc) && Placed(cfg, sens, acc, entries)
    requires UsedValues(acc) * UsedValues(src[i..]) == {}
    decreases |src| - i
    ensures var r := Reinsert(cfg, sens, src, i, acc, entries);
      Distinct(r) && Placed(cfg, sens, r, entries)
  {
    if i < |src| {
      ReinsertStep(cfg, sens, src, i, acc, entries);
      if Used(src[i]) {
        var j := Probe(acc, NoTarget, entries, Rehash(cfg, sens, entries, GetId(src[i])).unmaskedSlotIndex);
        ReinsertClaim(cfg, sens, src, i, acc, entries);
        ReinsertConsistent(cfg, sens, src, i + 1, acc[j := src[i]], entries);
      } else {
        UsedValuesSuffix(src, i);
        ReinsertConsistent(cfg, sens, src, i + 1, acc, entries);
      }
    } else {
      assert src[i..] == [];
    }
  }

  /** Growing keeps the shard consistent. */
  lemma GrowConsistent(cfg: Config, sens: Case, sh: Shard, entries: map<nat, Entry>, newCapacity: nat)
    requires IsPow2(newCapacity) && CountUsed(sh.slots) < newCapacity
    requires Known(sh.slots, entries) && sh.usedSlots == CountUsed(sh.slots)
    requires Consistent(cfg, sens, sh.slots, entries)
    ensures Consistent(cfg, sens, Grow(cfg, sens, sh, entries, newCapacity).slots, entries)
  {
    assert sh.slots[0..] == sh.slots;
    ReinsertConsistent(cfg, sens, sh.slots, 0, Unused(newCapacity), entries);
  }

  /** Claiming (and possibly growing) keeps the shard invariant. */
  lemma ClaimSlotInv(cfg: Config, sens: Case, sh: Shard, entries: map<nat, Entry>, p: nat, w: Slot)
    requires ShardInv(cfg, sens, sh, entries)
    requires p < |sh.slots| && !Used(sh.slots[p]) && Used(w) && Matches(cfg, sens, entries, w)
    requires w !in UsedValues(sh.slots)
    requires forall a :: a in UsedValues(sh.slots) && GetId(a) in entries ==>
      !Equals(sens, NameOf(entries, a), NameOf(entries, w))
    requires Reachable(sh.slots, Home(cfg, sens, entries, w, |sh.slots|), p)
    ensures ShardInv(cfg, sens, ClaimSlot(cfg, sens, sh, entries, p, w), entries)
  {
    ConsistentClaim(cfg, sens, sh.slots, entries, p, w);
    var slots := sh.slots[p := w];
    CountClaim(sh.slots, p, w);
    var claimed := sh.(slots := slots, usedSlots := sh.usedSlots + 1);
    if claimed.usedSlots * LoadFactorDivisor >= LoadFactorQuotient * |slots| {
      DoublePow2(|slots|);
      GrowConsistent(cfg, sens, claimed, entries, 2 * |slots|);
    }
  }

  /** The creating branch of Insert: a fresh entry's slot word claimed at the
      free slot the probe stopped at keeps the shard invariant. */
  lemma ClaimNewEntry(cfg: Config, sens: Case, sh: Shard, entries: map<nat, Entry>, v: Value,
                      p: nat, entries': map<nat, Entry>, id: nat)
    requires ShardInv(cfg, sens, sh, entries) && HasFree(sh.slots)
    requires v.hash == HashName(cfg, sens, v.name)
    requires p == Probe(sh.slots, ByValue(sens, v), entries, v.hash.unmaskedSlotIndex) && !Used(sh.slots[p])
    requires forall w :: !Holds(sens, sh.slots, entries, v.name, w)
    requires id !in entries && id < EntryIdLimit && id in entries' && Extends(entries, entries')
    requires entries'[id].name == v.name && entries'[id].header == v.hash.entryProbeHeader
    requires Used(MakeSlot(id, v.hash.slotProbeHash))
    ensures var w := MakeSlot(id, v.hash.slotProbeHash);
      var r := ClaimSlot(cfg, sens, sh, entries', p, w);
      ShardInv(cfg, sens, r, entries') && w in UsedValues(r.slots)
  {
    var w := MakeSlot(id, v.hash.slotProbeHash);
    ShardInvExtends(cfg, sens, sh, entries, entries');
    assert Matches(cfg, sens, entries', w);
    assert w !in UsedValues(sh.slots);
    forall a | a in UsedValues(sh.slots) && GetId(a) in entries'
      ensures !Equals(sens, NameOf(entries', a), NameOf(entries', w))
    {
      assert !Holds(sens, sh.slots, entries, v.name, a);
    }
    assert Reachable(sh.slots, Home(cfg, sens, entries', w, |sh.slots|), p);
    ClaimSlotInv(cfg, sens, sh, entries', p, w);
  }

  /** A probe for a name present in the shard stops at a used slot. */
  lemma PresentMeansProbeUsed(cfg: Config, sens: Case, slots: seq<Slot>, entries: map<nat, Entry>, v: Value)
    requires Consistent(cfg, sens, slots, entries) && HasFree(slots)
    requires v.hash == HashName(cfg, sens, v.name)
    ensures forall w :: Holds(sens, slots, entries, v.name, w) ==>
      Used(slots[Probe(slots, ByValue(sens, v), entries, v.hash.unmaskedSlotIndex)])
  {
    forall w | Holds(sens, slots, entries, v.name, w)
      ensures Used(slots[Probe(slots, ByValue(sens, v), entries, v.hash.unmaskedSlotIndex)])
    {
      var j :| 0 <= j < |slots| && Used(slots[j]) && slots[j] == w;
      ProbeFindsEqual(cfg, sens, slots, entries, v, j);
    }
  }

  /** Insert when the probe stops at a used slot: that slot holds the name. */
  lemma InsertHit(cfg: Config, sens: Case, sh: Shard, alloc: Allocator, v: Value)
    requires ShardInv(cfg, sens, sh, alloc.entries) && Valid(cfg, alloc)
    requires v.hash == HashName(cfg, sens, v.name) && HasFree(sh.slots)
    requires Used(sh.slots[Probe(sh.slots, ByValue(sens, v), alloc.entries, v.hash.unmaskedSlotIndex)])
    ensures var w := sh.slots[Probe(sh.slots, ByValue(sens, v), alloc.entries, v.hash.unmaskedSlotIndex)];
      && Insert(cfg, sens, sh, alloc, v) == Success((sh, alloc, GetId(w), false))
      && Holds(sens, sh.slots, alloc.entries, v.name, w)
      && forall w' :: Holds(sens, sh.slots, alloc.entries, v.name, w') ==> GetId(w') == GetId(w)
  {
    var entries := alloc.entries;
    var p := Probe(sh.slots, ByValue(sens, v), entries, v.hash.unmaskedSlotIndex);
    HitIffEqual(cfg, sens, sh.slots, entries, v, p);
    var w := sh.slots[p];
    assert w in UsedValues(sh.slots);
    forall w' | Holds(sens, sh.slots, entries, v.name, w')
      ensures GetId(w') == GetId(w)
    {
      HoldersAgree(sens, UsedValues(sh.slots), entries, v.name, w', w);
    }
  }

  /** Insert when the probe stops at a free slot: no slot holds the name, and
      a successful insert creates its entry and keeps the invariant. */
  lemma InsertMiss(cfg: Config, sens: Case, sh: Shard, alloc: Allocator, v: Value)
    requires ShardInv(cfg, sens, sh, alloc.entries) && Valid(cfg, alloc)
    requires v.hash == HashName(cfg, sens, v.name) && HasFree(sh.slots)
    requires !Used(sh.slots[Probe(sh.slots, ByValue(sens, v), alloc.entries, v.hash.unmaskedSlotIndex)])
    ensures forall w :: !Holds(sens, sh.slots, alloc.entries, v.name, w)
    ensures Insert(cfg, sens, sh, alloc, v).Success? ==>
      var (sh', alloc', id, created) := Insert(cfg, sens, sh, alloc, v).value;
      && created && id !in alloc.entries
      && Extends(alloc.entries, alloc'.entries)
      && id in alloc'.entries && alloc'.entries[id].name == v.name
      && ShardInv(cfg, sens, sh', alloc'.entries)
      && MakeSlot(id, v.hash.slotProbeHash) in UsedValues(sh'.slots)
  {
    var entries := alloc.entries;
    var p := Probe(sh.slots, ByValue(sens, v), entries, v.hash.unmaskedSlotIndex);
    PresentMeansProbeUsed(cfg, sens, sh.slots, entries, v);
    var r := Create(cfg, alloc, v.name, v.comparisonId, v.hash.entryProbeHeader);
    if r.Success? {
      var (alloc', id) := r.value;
      var w := MakeSlot(id, v.hash.slotProbeHash);
      if Used(w) {
        ClaimNewEntry(cfg, sens, sh, entries, v, p, alloc'.entries, id);
      }
    }
  }

  /** Insert returns the entry holding an equal name when the shard has one
      (creating nothing), and otherwise creates an entry with the value's name. */
  lemma InsertCorrect(cfg: Config, sens: Case, sh: Shard, alloc: Allocator, v: Value)
    requires ShardInv(cfg, sens, sh, alloc.entries) && Valid(cfg, alloc)
    requires v.hash == HashName(cfg, sens, v.name)
    ensures IsProbeHash(v.hash.slotProbeHash)
    ensures Insert(cfg, sens, sh, alloc, v).Success? ==>
      var (sh', alloc', id, created) := Insert(cfg, sens, sh, alloc, v).value;
      && Extends(alloc.entries, alloc'.entries)
      && id in alloc'.entries && Equals(sens, alloc'.entries[id].name, v.name)
      && (created <==> forall w :: !Holds(sens, sh.slots, alloc.entries, v.name, w))
      && (forall w :: Holds(sens, sh.slots, alloc.entries, v.name, w) ==> GetId(w) == id)
  {
    CountBelowLenHasFree(sh.slots);
    var p := Probe(sh.slots, ByValue(sens, v), alloc.entries, v.hash.unmaskedSlotIndex);
    if Used(sh.slots[p]) {
      InsertHit(cfg, sens, sh, alloc, v);
    } else {
      InsertMiss(cfg, sens, sh, alloc, v);
    }
  }

  /** After Insert the shard invariant holds and the returned id has a slot. */
  lemma InsertKeepsInv(cfg: Config, sens: Case, sh: Shard, alloc: Allocator, v: Value)
    requires ShardInv(cfg, sens, sh, alloc.entries) && Valid(cfg, alloc)
    requires v.hash == HashName(cfg, sens, v.name)
    ensures IsProbeHash(v.hash.slotProbeHash)
    ensures Insert(cfg, sens, sh, alloc, v).Success? ==>
      var (sh', alloc', id, _) := Insert(cfg, sens, sh, alloc, v).value;
      && ShardInv(cfg, sens, sh', alloc'.entries)
      && (exists w :: w in UsedValues(sh'.slots) && GetId(w) == id)
  {
    CountBelowLenHasFree(sh.slots);
    var p := Probe(sh.slots, ByValue(sens, v), alloc.entries, v.hash.unmaskedSlotIndex);
    if Used(sh.slots[p]) {
      InsertHit(cfg, sens, sh, alloc, v);
    } else {
      InsertMiss(cfg, sens, sh, alloc, v);
    }
  }

  /** InsertExistingEntry gives an entry a slot unless its slot word is
      already present, in which case the shard is unchanged; it keeps the
      shard invariant when no other entry holds an equal name. */
  lemma InsertExistingCorrect(cfg: Config, sens: Case, sh: Shard, entries: map<nat, Entry>, id: nat)
    requires ShardInv(cfg, sens, sh, entries) && id in entries && id < EntryIdLimit
    requires entries[id].header == HashName(cfg, sens, entries[id].name).entryProbeHeader
    requires forall w :: Holds(sens, sh.slots, entries, entries[id].name, w) ==> GetId(w) == id
    ensures IsProbeHash(HashName(cfg, sens, entries[id].name).slotProbeHash)
    ensures var h := HashName(cfg, sens, entries[id].name);
      var r := InsertExistingEntry(cfg, sens, sh, entries, h, id);
      r.Success? ==>
        && ShardInv(cfg, sens, r.value, entries)
        && MakeSlot(id, h.slotProbeHash) in UsedValues(r.value.slots)
        && (MakeSlot(id, h.slotProbeHash) in UsedValues(sh.slots) ==> r.value == sh)
  {
    var h := HashName(cfg, sens, entries[id].name);
    var w := MakeSlot(id, h.slotProbeHash);
    if Used(w) {
      CountBelowLenHasFree(sh.slots);
      var t := ByWord(w);
      var p := Probe(sh.slots, t, entries, h.unmaskedSlotIndex);
      assert Matches(cfg, sens, entries, w);
      if w in UsedValues(sh.slots) {
        var j :| 0 <= j < |sh.slots| && Used(sh.slots[j]) && sh.slots[j] == w;
        ProbeStopsBy(sh.slots, t, entries, h.unmaskedSlotIndex, j);
        assert p == j;
      } else {
        assert !Used(sh.slots[p]);
        forall a | a in UsedValues(sh.slots) && GetId(a) in entries
          ensures !Equals(sens, NameOf(entries, a), NameOf(entries, w))
        {
          SlotDecomposes(a);
          assert Equals(sens, NameOf(entries, a), NameOf(entries, w)) ==> a == w;
        }
        ClaimSlotInv(cfg, sens, sh, entries, p, w);
      }
    }
  }

  /** Inserting a name the shard already holds returns the holder's id and
      changes neither the shard nor the allocator. */
  lemma InsertFindsHeld(cfg: Config, sens: Case, sh: Shard, alloc: Allocator, v: Value, w: Slot)
    requires ShardInv(cfg, sens, sh, alloc.entries) && Valid(cfg, alloc)
    requires v.hash == HashName(cfg, sens, v.name)
    requires Holds(sens, sh.slots, alloc.entries, v.name, w)
    ensures Insert(cfg, sens, sh, alloc, v) == Success((sh, alloc, GetId(w), false))
  {
    CountBelowLenHasFree(sh.slots);
    PresentMeansProbeUsed(cfg, sens, sh.slots, alloc.entries, v);
    InsertHit(cfg, sens, sh, alloc, v);
  }
}
