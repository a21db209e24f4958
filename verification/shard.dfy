/** FNamePoolShard: an open-addressing hash table of FNameSlots with linear
    probing, grown to twice its capacity when 90% full. The slot array is a
    sequence whose length is the capacity; entries are looked up in the
    allocator's entry map. */
module NameShard {
  import opened Wrappers
  import opened Chars
  import opened Slots
  import opened NameHashing
  import opened EntryAllocator
  import opened Probing

  /** FNamePoolInitialSlotsPerShard = 1 << FNamePoolInitialSlotBits */
  const InitialSlots: nat := 0x100
  const LoadFactorQuotient: nat := 9
  const LoadFactorDivisor: nat := 10

  /** The slot array (its length is Capacity()), UsedSlots, NumCreatedEntries
      and NumCreatedWideEntries. */
  datatype Shard = Shard(slots: seq<Slot>, usedSlots: nat, numCreated: nat, numCreatedWide: nat)

  /** FNameValue: a name, its hash under the shard's sensitivity, and the
      comparison id to store in a new entry (display shards only). */
  datatype Value = Value(name: NameView, hash: NameHash, comparisonId: Option<nat>)

  /** FNameValue(Name): the value hashed under the given sensitivity. */
  function MakeValue(cfg: Config, sens: Case, name: NameView): (v: Value)
    ensures v.name == name && v.comparisonId.None?
    ensures IsProbeHash(v.hash.slotProbeHash)
  {
    Value(name, HashName(cfg, sens, name), None)
  }

  /** Every used slot names an entry that exists. */
  ghost predicate Known(slots: seq<Slot>, entries: map<nat, Entry>) {
    forall w :: w in UsedValues(slots) ==> GetId(w) in entries
  }

  /** What the shard's code relies on: a power-of-two capacity, an accurate
      UsedSlots, a load below 90% (so probing always meets a free slot), and
      slots that resolve. */
  ghost predicate Wellformed(sh: Shard, entries: map<nat, Entry>) {
    && IsPow2(|sh.slots|)
    && sh.usedSlots == CountUsed(sh.slots)
    && sh.usedSlots * LoadFactorDivisor < LoadFactorQuotient * |sh.slots|
    && Known(sh.slots, entries)
  }

  /** Below 90% load some slot is free, so every probe stops. */
  lemma WellformedHasFree(sh: Shard, entries: map<nat, Entry>)
    requires Wellformed(sh, entries)
    ensures HasFree(sh.slots)
  {
    CountBelowLenHasFree(sh.slots);
  }

  /** Adding entries keeps a shard well formed. */
  lemma WellformedMonotone(sh: Shard, entries: map<nat, Entry>, entries': map<nat, Entry>)
    requires Wellformed(sh, entries)
    requires forall id :: id in entries ==> id in entries'
    ensures Wellformed(sh, entries')
  {
  }

  /** Initialize(): 256 unused slots. */
  function NewShard(): (sh: Shard)
    ensures |sh.slots| == InitialSlots && UsedValues(sh.slots) == {}
    ensures sh.usedSlots == 0 && sh.numCreated == 0 && sh.numCreatedWide == 0
  {
    Shard(Unused(InitialSlots), 0, 0, 0)
  }

  lemma NewShardWellformed(entries: map<nat, Entry>)
    ensures Wellformed(NewShard(), entries)
  {
    var n: nat := InitialSlots;
    assert IsPow2(n / 2 / 2 / 2 / 2 / 2 / 2 / 2 / 2);
  }

  /** EntryEqualsValue: the stored header matches the value's probe header and
      the characters match under the sensitivity. */
  predicate EntryEqualsValue(sens: Case, e: Entry, v: Value) {
    e.header == v.hash.entryProbeHeader && Equals(sens, e.name, v.name)
  }

  /** The predicate a probe looks for besides a free slot: a slot holding an
      equal value (Probe(Value)), a given slot word (InsertExistingEntry), or
      nothing (Grow). */
  datatype Target = ByValue(sens: Case, value: Value) | ByWord(word: Slot) | NoTarget

  predicate Hits(t: Target, entries: map<nat, Entry>, s: Slot) {
    match t
    case ByValue(sens, v) =>
      GetProbeHash(s) == v.hash.slotProbeHash && GetId(s) in entries
      && EntryEqualsValue(sens, entries[GetId(s)], v)
    case ByWord(w) => s == w
    case NoTarget => false
  }

  /** `!Slot.Used() || Predicate(Slot)` */
  predicate Stops(t: Target, entries: map<nat, Entry>, s: Slot) {
    !Used(s) || Hits(t, entries, s)
  }

  /** GetProbeStart: `UnmaskedSlotIndex & (Capacity - 1)`. */
  function ProbeStart(unmasked: nat, cap: nat): (s: nat)
    requires cap > 0
    ensures s < cap
  {
    unmasked % cap
  }

  /** The number of steps from `start` (at least k) to the first slot where
      the probe stops. */
  function ProbeSteps(slots: seq<Slot>, t: Target, entries: map<nat, Entry>, start: nat, k: nat): (r: nat)
    requires start < |slots|
    requires exists m :: k <= m < |slots| && Stops(t, entries, slots[Pos(start, m, |slots|)])
    decreases |slots| - k
    ensures k <= r < |slots|
    ensures Stops(t, entries, slots[Pos(start, r, |slots|)])
    ensures forall m :: k <= m < r ==> !Stops(t, entries, slots[Pos(start, m, |slots|)])
  {
    if Stops(t, entries, slots[Pos(start, k, |slots|)]) then k
    else ProbeSteps(slots, t, entries, start, k + 1)
  }

  /** A free slot stops every probe, whatever its start. */
  lemma FreeSlotStops(slots: seq<Slot>, t: Target, entries: map<nat, Entry>, start: nat)
    requires HasFree(slots) && start < |slots|
    ensures exists m :: 0 <= m < |slots| && Stops(t, entries, slots[Pos(start, m, |slots|)])
  {
    var i :| 0 <= i < |slots| && !Used(slots[i]);
    assert Stops(t, entries, slots[Pos(start, Dist(start, i, |slots|), |slots|)]);
  }

  /** Probe(UnmaskedSlotIndex, Predicate): the first slot from the probe start
      that is free or satisfies the predicate; every slot passed before it is
      used and fails the predicate. */
  function Probe(slots: seq<Slot>, t: Target, entries: map<nat, Entry>, unmasked: nat): (i: nat)
    requires HasFree(slots)
    ensures i < |slots| && Stops(t, entries, slots[i])
    ensures var s := ProbeStart(unmasked, |slots|);
      forall m :: 0 <= m < Dist(s, i, |slots|) ==> !Stops(t, entries, slots[Pos(s, m, |slots|)])
  {
    var s := ProbeStart(unmasked, |slots|);
    FreeSlotStops(slots, t, entries, s);
    var k := ProbeSteps(slots, t, entries, s, 0);
    PosDist(s, k, |slots|);
    Pos(s, k, |slots|)
  }

  /** The probe loop as written: start at the masked index and step with
      `(I + 1) & Mask` until the slot is free or matches. */
  method ProbeLoop(slots: seq<Slot>, t: Target, entries: map<nat, Entry>, unmasked: nat) returns (i: nat)
    requires HasFree(slots)
    ensures i == Probe(slots, t, entries, unmasked)
  {
    var s := unmasked % |slots|;
    FreeSlotStops(slots, t, entries, s);
    i := s;
    ghost var k := 0;
    while !Stops(t, entries, slots[i])
      invariant k < |slots| && i == Pos(s, k, |slots|)
      invariant forall m :: 0 <= m < k ==> !Stops(t, entries, slots[Pos(s, m, |slots|)])
      decreases |slots| - k
    {
      ghost var m :| 0 <= m < |slots| && Stops(t, entries, slots[Pos(s, m, |slots|)]);
      assert m > k;
      NextPos(s, k, |slots|);
      i := Next(i, |slots|);
      k := k + 1;
    }
    var r := ProbeSteps(slots, t, entries, s, 0);
    assert Stops(t, entries, slots[Pos(s, k, |slots|)]);
    assert Stops(t, entries, slots[Pos(s, r, |slots|)]);
    PosDist(s, k, |slots|);
  }

  /** Find(Value): the id in the slot the probe stops at; 0 when that slot is
      free. A nonzero id names an entry equal to the value. */
  function Find(sh: Shard, sens: Case, entries: map<nat, Entry>, v: Value): (id: nat)
    requires HasFree(sh.slots)
    ensures id != 0 ==> id in entries && EntryEqualsValue(sens, entries[id], v)
  {
    GetId(sh.slots[Probe(sh.slots, ByValue(sens, v), entries, v.hash.unmaskedSlotIndex)])
  }

  /** Rehash(EntryId): the hash of the stored name under the shard's sensitivity. */
  function Rehash(cfg: Config, sens: Case, entries: map<nat, Entry>, id: nat): NameHash
    requires id in entries
  {
    HashName(cfg, sens, entries[id].name)
  }

  /** Grow's copy loop from old slot i on: each used old slot is written to
      the first free slot of the new array from its own probe start. */
  function Reinsert(cfg: Config, sens: Case, src: seq<Slot>, i: nat, acc: seq<Slot>, entries: map<nat, Entry>)
    : (r: seq<Slot>)
    requires i <= |src| && Known(src[i..], entries)
    requires CountUsed(acc) + CountUsed(src[i..]) < |acc|
    decreases |src| - i
    ensures |r| == |acc|
    ensures CountUsed(r) == CountUsed(acc) + CountUsed(src[i..])
    ensures UsedValues(r) == UsedValues(acc) + UsedValues(src[i..])
  {
    if i == |src| then
      assert src[i..] == [];
      acc
    else
      CountSuffix(src, i);
      UsedValuesSuffix(src, i);
      if !Used(src[i]) then Reinsert(cfg, sens, src, i + 1, acc, entries)
      else
        CountBelowLenHasFree(acc);
        var j := Probe(acc, NoTarget, entries, Rehash(cfg, sens, entries, GetId(src[i])).unmaskedSlotIndex);
        CountClaim(acc, j, src[i]);
        UsedValuesClaim(acc, j, src[i]);
        Reinsert(cfg, sens, src, i + 1, acc[j := src[i]], entries)
  }

  /** Grow(NewCapacity): a fresh all-free array of the new capacity receives
      every used slot word; the used count is unchanged. */
  function Grow(cfg: Config, sens: Case, sh: Shard, entries: map<nat, Entry>, newCapacity: nat): (r: Shard)
    requires IsPow2(newCapacity) && CountUsed(sh.slots) < newCapacity
    requires Known(sh.slots, entries)
    requires sh.usedSlots == CountUsed(sh.slots)
    ensures |r.slots| == newCapacity
    ensures r.usedSlots == sh.usedSlots == CountUsed(r.slots)
    ensures UsedValues(r.slots) == UsedValues(sh.slots)
    ensures r.numCreated == sh.numCreated && r.numCreatedWide == sh.numCreatedWide
  {
    assert sh.slots[0..] == sh.slots;
    Shard(Reinsert(cfg, sens, sh.slots, 0, Unused(newCapacity), entries), sh.usedSlots, sh.numCreated, sh.numCreatedWide)
  }

  /** One iteration of Grow's copy loop, unfolded. */
  lemma ReinsertStep(cfg: Config, sens: Case, src: seq<Slot>, i: nat, acc: seq<Slot>, entries: map<nat, Entry>)
    requires i < |src| && Known(src[i..], entries)
    requires CountUsed(acc) + CountUsed(src[i..]) < |acc|
    ensures CountUsed(src[i..]) == (if Used(src[i]) then 1 else 0) + CountUsed(src[i + 1..])
    ensures Known(src[i + 1..], entries)
    ensures !Used(src[i]) ==>
      Reinsert(cfg, sens, src, i, acc, entries) == Reinsert(cfg, sens, src, i + 1, acc, entries)
    ensures Used(src[i]) ==>
      && GetId(src[i]) in entries
      && HasFree(acc)
      && var j := Probe(acc, NoTarget, entries, Rehash(cfg, sens, entries, GetId(src[i])).unmaskedSlotIndex);
         && !Used(acc[j])
         && CountUsed(acc[j := src[i]]) == CountUsed(acc) + 1
         && Reinsert(cfg, sens, src, i, acc, entries) == Reinsert(cfg, sens, src, i + 1, acc[j := src[i]], entries)
  {
    CountSuffix(src, i);
    UsedValuesSuffix(src, i);
    if Used(src[i]) {
      CountBelowLenHasFree(acc);
      var j := Probe(acc, NoTarget, entries, Rehash(cfg, sens, entries, GetId(src[i])).unmaskedSlotIndex);
      CountClaim(acc, j, src[i]);
    }
  }

  /** One pass of Grow's loop body: a used old slot is written where
      ProbeLoop stops in the new array. */
  method GrowStep(cfg: Config, sens: Case, src: seq<Slot>, i: nat, acc: seq<Slot>, entries: map<nat, Entry>)
    returns (r: seq<Slot>)
    requires i < |src| && Known(src[i..], entries)
    requires CountUsed(acc) + CountUsed(src[i..]) < |acc|
    ensures |r| == |acc| && Known(src[i + 1..], entries)
    ensures CountUsed(r) + CountUsed(src[i + 1..]) < |r|
    ensures Reinsert(cfg, sens, src, i + 1, r, entries) == Reinsert(cfg, sens, src, i, acc, entries)
  {
    ReinsertStep(cfg, sens, src, i, acc, entries);
    var w := src[i];
    r := acc;
    if Used(w) {
      var j := ProbeLoop(acc, NoTarget, entries, Rehash(cfg, sens, entries, GetId(w)).unmaskedSlotIndex);
      r := acc[j := w];
    }
  }

  /** Grow's loop over the old slots. */
  method GrowLoop(cfg: Config, sens: Case, sh: Shard, entries: map<nat, Entry>, newCapacity: nat) returns (r: seq<Slot>)
    requires IsPow2(newCapacity) && CountUsed(sh.slots) < newCapacity
    requires Known(sh.slots, entries)
    requires sh.usedSlots == CountUsed(sh.slots)
    ensures r == Grow(cfg, sens, sh, entries, newCapacity).slots
  {
    r := Unused(newCapacity);
    assert sh.slots[0..] == sh.slots;
    var i := 0;
    while i < |sh.slots|
      invariant 0 <= i <= |sh.slots| && |r| == newCapacity
      invariant Known(sh.slots[i..], entries)
      invariant CountUsed(r) + CountUsed(sh.slots[i..]) < newCapacity
      invariant Reinsert(cfg, sens, sh.slots, i, r, entries) == Grow(cfg, sens, sh, entries, newCapacity).slots
    {
      r := GrowStep(cfg, sens, sh.slots, i, r, entries);
      i := i + 1;
    }
    assert sh.slots[i..] == [];
  }

  /** ClaimSlot: write the new word into the free slot the probe found, count
      it, and grow to twice the capacity once UsedSlots * 10 >= 9 * Capacity. */
  function ClaimSlot(cfg: Config, sens: Case, sh: Shard, entries: map<nat, Entry>, p: nat, w: Slot): (r: Shard)
    requires Wellformed(sh, entries)
    requires p < |sh.slots| && !Used(sh.slots[p]) && Used(w) && GetId(w) in entries
    ensures Wellformed(r, entries)
    ensures r.usedSlots == sh.usedSlots + 1
    ensures UsedValues(r.slots) == UsedValues(sh.slots) + {w}
    ensures r.numCreated == sh.numCreated && r.numCreatedWide == sh.numCreatedWide
    ensures (sh.usedSlots + 1) * LoadFactorDivisor < LoadFactorQuotient * |sh.slots| ==> r.slots == sh.slots[p := w]
    ensures (sh.usedSlots + 1) * LoadFactorDivisor >= LoadFactorQuotient * |sh.slots| ==> |r.slots| == 2 * |sh.slots|
  {
    var slots := sh.slots[p := w];
    CountClaim(sh.slots, p, w);
    UsedValuesClaim(sh.slots, p, w);
    var claimed := sh.(slots := slots, usedSlots := sh.usedSlots + 1);
    if claimed.usedSlots * LoadFactorDivisor >= LoadFactorQuotient * |slots| then
      DoublePow2(|slots|);
      Grow(cfg, sens, claimed, entries, 2 * |slots|)
    else
      claimed
  }

  /** Insert(Value): return the id of an equal entry if the probe meets one;
      otherwise create an entry, claim the free slot for it and count it. */
  function Insert(cfg: Config, sens: Case, sh: Shard, alloc: Allocator, v: Value)
    : (r: Result<(Shard, Allocator, nat, bool), Fatal>)
    requires Wellformed(sh, alloc.entries) && Valid(cfg, alloc)
    requires IsProbeHash(v.hash.slotProbeHash)
    ensures r.Success? ==> Wellformed(r.value.0, r.value.1.entries) && Valid(cfg, r.value.1)
    ensures r.Success? && !r.value.3 ==>
      && r.value.0 == sh && r.value.1 == alloc
      && r.value.2 in alloc.entries && EntryEqualsValue(sens, alloc.entries[r.value.2], v)
    ensures r.Success? && r.value.3 ==>
      var (sh', alloc', id, _) := r.value;
      && id !in alloc.entries && id < EntryIdLimit
      && alloc'.entries == alloc.entries[id := Entry(v.hash.entryProbeHeader, v.name,
                                                     if cfg.casePreserving then v.comparisonId.GetOr(id) else id)]
      && UsedValues(sh'.slots) == UsedValues(sh.slots) + {MakeSlot(id, v.hash.slotProbeHash)}
      && sh'.usedSlots == sh.usedSlots + 1
      && sh'.numCreated == sh.numCreated + 1
      && sh'.numCreatedWide == sh.numCreatedWide + (if v.name.Wide? then 1 else 0)
  {
    CountBelowLenHasFree(sh.slots);
    var p := Probe(sh.slots, ByValue(sens, v), alloc.entries, v.hash.unmaskedSlotIndex);
    if Used(sh.slots[p]) then Success((sh, alloc, GetId(sh.slots[p]), false))
    else
      var (alloc', id) :- Create(cfg, alloc, v.name, v.comparisonId, v.hash.entryProbeHeader);
      var w := MakeSlot(id, v.hash.slotProbeHash);
      if !Used(w) then Failure(UnusedSlotValue)
      else
        var claimed := ClaimSlot(cfg, sens, sh, alloc'.entries, p, w);
        Success((claimed.(numCreated := claimed.numCreated + 1,
                          numCreatedWide := claimed.numCreatedWide + (if v.name.Wide? then 1 else 0)),
                 alloc', id, true))
  }

  /** InsertExistingEntry: add a slot for an entry that already exists unless
      the probe meets the very same slot word. */
  function InsertExistingEntry(cfg: Config, sens: Case, sh: Shard, entries: map<nat, Entry>, hash: NameHash, existingId: nat)
    : (r: Result<Shard, Fatal>)
    requires Wellformed(sh, entries) && existingId in entries
    requires existingId < EntryIdLimit && IsProbeHash(hash.slotProbeHash)
    ensures r.Failure? <==> existingId == 0 && hash.slotProbeHash == 0
    ensures r.Success? ==> Wellformed(r.value, entries)
    ensures r.Success? ==> UsedValues(r.value.slots) == UsedValues(sh.slots) + {MakeSlot(existingId, hash.slotProbeHash)}
  {
    var w := MakeSlot(existingId, hash.slotProbeHash);
    if !Used(w) then Failure(UnusedSlotValue)
    else
      CountBelowLenHasFree(sh.slots);
      var p := Probe(sh.slots, ByWord(w), entries, hash.unmaskedSlotIndex);
      if Used(sh.slots[p]) then
        assert sh.slots[p] in UsedValues(sh.slots);
        Success(sh)
      else
        Success(ClaimSlot(cfg, sens, sh, entries, p, w))
  }
}
