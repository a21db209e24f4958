/** The FNamePool constructor: an empty pool that stores "None" first, so
    "None" receives entry id 0 and the pool starts out in the state Store
    promises. */
module NewPoolProperties {
  import opened Wrappers
  import opened Chars
  import opened Slots
  import opened NameHashing
  import opened EntryAllocator
  import opened Probing
  import NameShard
  import opened ShardInvariant
  import opened NamePool
  import opened PoolInvariant
  import opened StoreProperties

  /** A fresh shard has no used slot, so every probe ends on a free slot. */
  lemma NewShardProbeFree(t: NameShard.Target, entries: map<nat, Entry>, unmasked: nat)
    ensures var sh := NameShard.NewShard();
      HasFree(sh.slots) && !Used(sh.slots[NameShard.Probe(sh.slots, t, entries, unmasked)])
  {
    var sh := NameShard.NewShard();
    NameShard.WellformedHasFree(sh, entries) by { NameShard.NewShardWellformed(entries); }
  }

  /** The first value inserted into a fresh shard with a fresh allocator gets
      entry id 0, provided its slot word for id 0 reads as used. */
  lemma FirstInsert(cfg: Config, sens: Case, sh: NameShard.Shard, alloc: Allocator, v: NameShard.Value)
    requires sh == NameShard.NewShard() && alloc == Initial()
    requires ShardInv(cfg, sens, sh, alloc.entries) && Valid(cfg, alloc)
    requires v.hash == HashName(cfg, sens, v.name) && v.comparisonId.None?
    requires AlignToStride(cfg, EntrySize(cfg, v.name)) <= BlockSizeBytes(cfg)
    requires Used(MakeSlot(0, v.hash.slotProbeHash))
    ensures var r := NameShard.Insert(cfg, sens, sh, alloc, v);
      && r.Success? && r.value.2 == 0 && r.value.3
      && ShardInv(cfg, sens, r.value.0, r.value.1.entries)
      && r.value.1.entries == map[0 := Entry(v.hash.entryProbeHeader, v.name, 0)]
      && MakeSlot(0, v.hash.slotProbeHash) in UsedValues(r.value.0.slots)
  {
    NewShardProbeFree(NameShard.ByValue(sens, v), map[], v.hash.unmaskedSlotIndex);
    InsertMiss(cfg, sens, sh, alloc, v);
  }

  /** "None" is narrow and four bytes long; its slot word for id 0 is used
      under either sensitivity. */
  lemma NoneNameFacts(cfg: Config, sens: Case)
    ensures AlignToStride(cfg, EntrySize(cfg, NoneName)) <= BlockSizeBytes(cfg)
    ensures Used(MakeSlot(0, HashName(cfg, sens, NoneName).slotProbeHash))
  {
    assert IsAnsiNone(NoneName) == 1;
    IsAnsiNoneIgnoresCase(NoneName);
  }

  /** Inserting the comparison value of "None" into the empty pool creates
      entry 0, and the pool then keeps the invariant. */
  lemma NoneComparison(cfg: Config)
    ensures var r := InsertComparison(cfg, Empty(cfg), NameShard.MakeValue(cfg, IgnoreCase, NoneName));
      && r.Success? && r.value.1 == 0 && r.value.2
      && PoolInv(cfg, r.value.0) && Grows(Empty(cfg), r.value.0)
      && r.value.0.alloc.entries.Keys == {0} && r.value.0.alloc.entries[0].name == NoneName
  {
    NoneInserted(cfg);
    var p1 := InsertComparison(cfg, Empty(cfg), NameShard.MakeValue(cfg, IgnoreCase, NoneName)).value.0;
    EmptyGrows(cfg, p1);
    NoneComparisonInv(cfg, p1);
  }

  /** The insertion itself: entry 0 holds "None" and only its shard changes. */
  lemma NoneInserted(cfg: Config)
    ensures var r := InsertComparison(cfg, Empty(cfg), NameShard.MakeValue(cfg, IgnoreCase, NoneName));
      var k := HashName(cfg, IgnoreCase, NoneName).shardIndex;
      && r.Success? && r.value.1 == 0 && r.value.2
      && var p1 := r.value.0;
      && PoolWellformed(cfg, p1)
      && p1.alloc.entries == map[0 := Entry(HashName(cfg, IgnoreCase, NoneName).entryProbeHeader, NoneName, 0)]
      && p1.comparisonShards == Empty(cfg).comparisonShards[k := p1.comparisonShards[k]]
      && p1.displayShards == Empty(cfg).displayShards
      && ShardInv(cfg, IgnoreCase, p1.comparisonShards[k], p1.alloc.entries)
      && MakeSlot(0, HashName(cfg, IgnoreCase, NoneName).slotProbeHash) in UsedValues(p1.comparisonShards[k].slots)
  {
    var p := Empty(cfg);
    var cv := NameShard.MakeValue(cfg, IgnoreCase, NoneName);
    var k := cv.hash.shardIndex;
    NoneNameFacts(cfg, IgnoreCase);
    NewShardInv(cfg, IgnoreCase, map[]);
    InitialValid(cfg);
    assert p.comparisonShards[k] == NameShard.NewShard();
    FirstInsert(cfg, IgnoreCase, p.comparisonShards[k], p.alloc, cv);
  }

  /** The empty pool's shards hold nothing, so every pool of the same shape grows it. */
  lemma EmptyGrows(cfg: Config, p1: Pool)
    requires |p1.comparisonShards| == ShardCount(cfg) && |p1.displayShards| == DisplayShardCount(cfg)
    ensures Grows(Empty(cfg), p1)
  {
  }

  /** The pool holding only "None" as entry 0 in its comparison shard keeps the invariant. */
  lemma NoneComparisonInv(cfg: Config, p1: Pool)
    requires var k := HashName(cfg, IgnoreCase, NoneName).shardIndex;
      && PoolWellformed(cfg, p1)
      && p1.alloc.entries == map[0 := Entry(HashName(cfg, IgnoreCase, NoneName).entryProbeHeader, NoneName, 0)]
      && p1.comparisonShards == Empty(cfg).comparisonShards[k := p1.comparisonShards[k]]
      && p1.displayShards == Empty(cfg).displayShards
      && ShardInv(cfg, IgnoreCase, p1.comparisonShards[k], p1.alloc.entries)
      && MakeSlot(0, HashName(cfg, IgnoreCase, NoneName).slotProbeHash) in UsedValues(p1.comparisonShards[k].slots)
    ensures PoolInv(cfg, p1)
  {
    var e1 := p1.alloc.entries;
    var h := HashName(cfg, IgnoreCase, NoneName);
    NewShardInv(cfg, IgnoreCase, e1);
    NewShardInv(cfg, CaseSensitive, e1);
    assert ShardsInv(cfg, IgnoreCase, p1.comparisonShards, e1) by {
      forall j | 0 <= j < |p1.comparisonShards|
        ensures ShardInv(cfg, IgnoreCase, p1.comparisonShards[j], e1)
      {
        if j != h.shardIndex {
          assert p1.comparisonShards[j] == NameShard.NewShard();
        }
      }
    }
    assert HeldInComparison(cfg, p1, 0) by {
      assert GetId(MakeSlot(0, h.slotProbeHash)) == 0;
    }
    EqualsIsEquivalence(IgnoreCase, NoneName, NoneName, NoneName);
    assert EntryOk(cfg, p1, 0);
  }

  /** The constructor stores "None" as entry 0 and leaves the pool in the
      state Store promises, holding that one entry. */
  lemma NewPoolCorrect(cfg: Config)
    ensures NewPool(cfg).Success?
    ensures var (p, id) := NewPool(cfg).value;
      && id == 0 && Stored(cfg, Empty(cfg), NoneName, p, 0)
      && p.alloc.entries.Keys == {0} && p.alloc.entries[0].name == NoneName
  {
    var p := Empty(cfg);
    var cv := NameShard.MakeValue(cfg, IgnoreCase, NoneName);
    NoneComparison(cfg);
    var (p1, cid, added) := InsertComparison(cfg, p, cv).value;
    EqualsIsEquivalence(IgnoreCase, NoneName, NoneName, NoneName);
    NoneHeld(cfg, p1);
    if cfg.casePreserving {
      NoneDisplay(cfg, p1);
    }
  }

  /** With case preservation on, "None" gets its display slot next to its
      comparison entry. */
  lemma NoneDisplay(cfg: Config, p1: Pool)
    requires cfg.casePreserving
    requires InsertComparison(cfg, Empty(cfg), NameShard.MakeValue(cfg, IgnoreCase, NoneName)) == Success((p1, 0, true))
    requires PoolInv(cfg, p1) && Grows(Empty(cfg), p1)
    requires p1.alloc.entries.Keys == {0} && p1.alloc.entries[0].name == NoneName
    ensures var r := NewPool(cfg);
      && r.Success? && r.value.1 == 0 && Stored(cfg, Empty(cfg), NoneName, r.value.0, 0)
      && r.value.0.alloc == p1.alloc
  {
    var p := Empty(cfg);
    var dv := NameShard.MakeValue(cfg, CaseSensitive, NoneName);
    NewShardProbeFree(NameShard.ByValue(CaseSensitive, dv), p.alloc.entries, dv.hash.unmaskedSlotIndex);
    assert FindDisplay(cfg, p, NoneName) == 0;
    assert NewPool(cfg) == StoreDisplay(cfg, p1, NoneName, 0, true);
    NoneNameFacts(cfg, CaseSensitive);
    assert p1.displayShards[dv.hash.shardIndex] == NameShard.NewShard();
    StoreExistingCase(cfg, p, NoneName, p1, 0, true);
  }
}
