/** The invariant a name pool keeps, and what Store and Find promise under it:
    Store returns an entry whose name is the stored one, Find then returns
    that same entry, storing again changes nothing, and names equal ignoring
    case share one comparison id. */
module PoolInvariant {
  import opened Wrappers
  import opened Chars
  import opened Slots
  import opened NameHashing
  import opened EntryAllocator
  import opened Probing
  import NameShard
  import opened ShardInvariant
  import opened NamePool

  ghost predicate ShardsInv(cfg: Config, sens: Case, shards: seq<NameShard.Shard>, entries: map<nat, Entry>) {
    forall k :: 0 <= k < |shards| ==> ShardInv(cfg, sens, shards[k], entries)
  }

  /** Entry c has a slot word in the comparison shard its name hashes to. */
  ghost predicate HeldInComparison(cfg: Config, p: Pool, c: nat) {
    && c in p.alloc.entries
    && var k := HashName(cfg, IgnoreCase, p.alloc.entries[c].name).shardIndex;
       && k < |p.comparisonShards|
       && exists w :: w in UsedValues(p.comparisonShards[k].slots) && GetId(w) == c
  }

  /** An entry's header is its name's, and its comparison id names an entry
      equal to it ignoring case that is its own comparison entry and is held
      in the comparison shards. */
  ghost predicate EntryOk(cfg: Config, p: Pool, id: nat)
    requires id in p.alloc.entries
  {
    var e := p.alloc.entries[id];
    && e.header == HashName(cfg, IgnoreCase, e.name).entryProbeHeader
    && HeldInComparison(cfg, p, e.comparisonId)
    && p.alloc.entries[e.comparisonId].comparisonId == e.comparisonId
    && Equals(IgnoreCase, p.alloc.entries[e.comparisonId].name, e.name)
  }

  /** "None" is entry 0 and its own comparison entry. */
  ghost predicate NoneFirst(p: Pool) {
    0 in p.alloc.entries && p.alloc.entries[0].name == NoneName && p.alloc.entries[0].comparisonId == 0
  }

  ghost predicate PoolInv(cfg: Config, p: Pool) {
    && PoolWellformed(cfg, p)
    && ShardsInv(cfg, IgnoreCase, p.comparisonShards, p.alloc.entries)
    && ShardsInv(cfg, CaseSensitive, p.displayShards, p.alloc.entries)
    && (forall id :: id in p.alloc.entries ==> EntryOk(cfg, p, id))
    && NoneFirst(p)
  }

  /** The pool only gained: entries, and slot words in every shard. */
  ghost predicate Grows(p: Pool, p': Pool) {
    && Extends(p.alloc.entries, p'.alloc.entries)
    && |p'.comparisonShards| == |p.comparisonShards|
    && |p'.displayShards| == |p.displayShards|
    && (forall k :: 0 <= k < |p.comparisonShards| ==>
          UsedValues(p.comparisonShards[k].slots) <= UsedValues(p'.comparisonShards[k].slots))
    && (forall k :: 0 <= k < |p.displayShards| ==>
          UsedValues(p.displayShards[k].slots) <= UsedValues(p'.displayShards[k].slots))
  }

  /** Replacing shard k by one holding at least its slot words leaves every
      shard with at least its slot words. */
  lemma UpdateGrowsShards(shards: seq<NameShard.Shard>, k: nat, sh: NameShard.Shard)
    requires k < |shards| && UsedValues(shards[k].slots) <= UsedValues(sh.slots)
    ensures forall j :: 0 <= j < |shards| ==> UsedValues(shards[j].slots) <= UsedValues(shards[k := sh][j].slots)
  {
    forall j | 0 <= j < |shards|
      ensures UsedValues(shards[j].slots) <= UsedValues(shards[k := sh][j].slots)
    {
      if j != k {
        assert shards[k := sh][j] == shards[j];
      }
    }
  }

  /** Growing keeps HeldInComparison. */
  lemma HeldGrows(cfg: Config, p: Pool, p': Pool, c: nat)
    requires Grows(p, p') && HeldInComparison(cfg, p, c)
    ensures HeldInComparison(cfg, p', c)
  {
    var k := HashName(cfg, IgnoreCase, p.alloc.entries[c].name).shardIndex;
    var w :| w in UsedValues(p.comparisonShards[k].slots) && GetId(w) == c;
    assert w in UsedValues(p'.comparisonShards[k].slots);
  }

  lemma EntriesGrow(cfg: Config, p: Pool, p': Pool)
    requires forall id :: id in p.alloc.entries ==> EntryOk(cfg, p, id)
    requires Grows(p, p')
    requires forall id :: id in p'.alloc.entries ==> id in p.alloc.entries || EntryOk(cfg, p', id)
    ensures forall id :: id in p'.alloc.entries ==> EntryOk(cfg, p', id)
  {
    forall id | id in p'.alloc.entries && id in p.alloc.entries
      ensures EntryOk(cfg, p', id)
    {
      assert EntryOk(cfg, p, id);
      HeldGrows(cfg, p, p', p.alloc.entries[id].comparisonId);
    }
  }

  /** The old part of the invariant survives growth; the update only has to
      vouch for the shards' invariants and for the entries it added. */
  lemma InvStep(cfg: Config, p: Pool, p': Pool)
    requires (forall id :: id in p.alloc.entries ==> EntryOk(cfg, p, id)) && NoneFirst(p)
    requires PoolWellformed(cfg, p') && Grows(p, p')
    requires ShardsInv(cfg, IgnoreCase, p'.comparisonShards, p'.alloc.entries)
    requires ShardsInv(cfg, CaseSensitive, p'.displayShards, p'.alloc.entries)
    requires forall id :: id in p'.alloc.entries ==> id in p.alloc.entries || EntryOk(cfg, p', id)
    ensures PoolInv(cfg, p')
  {
    EntriesGrow(cfg, p, p');
  }

  /** What inserting a name's comparison value returns: the one comparison
      entry of the names equal to it ignoring case, created when there was none. */
  ghost predicate ComparisonResult(cfg: Config, p: Pool, name: NameView, p': Pool, id: nat, added: bool) {
    var k := HashName(cfg, IgnoreCase, name).shardIndex;
    && k < |p.comparisonShards|
    && p'.displayShards == p.displayShards
    && id in p'.alloc.entries && Equals(IgnoreCase, p'.alloc.entries[id].name, name)
    && HeldInComparison(cfg, p', id) && p'.alloc.entries[id].comparisonId == id
    && (added <==> forall w :: !Holds(IgnoreCase, p.comparisonShards[k].slots, p.alloc.entries, name, w))
    && (!added ==> p' == p)
    && (added ==> id !in p.alloc.entries && p'.alloc.entries[id].name == name)
  }

  /** The comparison value of a name is found when an equal name ignoring case
      is held; it is created otherwise. */
  lemma InsertComparisonCorrect(cfg: Config, p: Pool, name: NameView)
    requires PoolInv(cfg, p)
    ensures var r := InsertComparison(cfg, p, NameShard.MakeValue(cfg, IgnoreCase, name));
      r.Success? ==> ComparisonResult(cfg, p, name, r.value.0, r.value.1, r.value.2)
  {
    InsertComparisonCases(cfg, p, name);
  }

  /** Inserting a comparison value keeps the pool invariant. */
  lemma InsertComparisonKeepsInv(cfg: Config, p: Pool, name: NameView)
    requires PoolInv(cfg, p)
    ensures var r := InsertComparison(cfg, p, NameShard.MakeValue(cfg, IgnoreCase, name));
      r.Success? ==> PoolInv(cfg, r.value.0) && Grows(p, r.value.0)
  {
    InsertComparisonCases(cfg, p, name);
  }

  /** Both cases of inserting a comparison value. */
  lemma InsertComparisonCases(cfg: Config, p: Pool, name: NameView)
    requires PoolInv(cfg, p)
    ensures var r := InsertComparison(cfg, p, NameShard.MakeValue(cfg, IgnoreCase, name));
      r.Success? ==> FullyInserted(cfg, p, name, r.value.0, r.value.1, r.value.2)
  {
    var k := HashName(cfg, IgnoreCase, name).shardIndex;
    assert ShardInv(cfg, IgnoreCase, p.comparisonShards[k], p.alloc.entries);
    ComparisonInsertFacts(cfg, p, name);
    var r := InsertComparison(cfg, p, NameShard.MakeValue(cfg, IgnoreCase, name));
    if r.Success? {
      var (p', id, added) := r.value;
      if !added {
        var w :| Holds(IgnoreCase, p.comparisonShards[k].slots, p.alloc.entries, name, w) && GetId(w) == id;
        InsertFoundCase(cfg, p, name, w);
      } else {
        InsertAddedCase(cfg, p, name, p'.comparisonShards[k], p'.alloc, id);
      }
    }
  }

  /** What the shard-level insertion tells about InsertComparison, without the
      pool invariant. */
  lemma ComparisonInsertFacts(cfg: Config, p: Pool, name: NameView)
    requires PoolWellformed(cfg, p)
    requires ShardInv(cfg, IgnoreCase, p.comparisonShards[HashName(cfg, IgnoreCase, name).shardIndex], p.alloc.entries)
    ensures var h := HashName(cfg, IgnoreCase, name);
      var k := h.shardIndex;
      var e := p.alloc.entries;
      var r := InsertComparison(cfg, p, NameShard.MakeValue(cfg, IgnoreCase, name));
      r.Success? ==>
        var (p', id, added) := r.value;
        && (!added ==> p' == p && exists w :: Holds(IgnoreCase, p.comparisonShards[k].slots, e, name, w) && GetId(w) == id)
        && (added ==>
              && (forall w :: !Holds(IgnoreCase, p.comparisonShards[k].slots, e, name, w))
              && Valid(cfg, p'.alloc) && ShardInv(cfg, IgnoreCase, p'.comparisonShards[k], p'.alloc.entries)
              && id !in e && id < EntryIdLimit && IsProbeHash(h.slotProbeHash)
              && p'.alloc.entries == e[id := Entry(h.entryProbeHeader, name, id)]
              && UsedValues(p'.comparisonShards[k].slots)
                 == UsedValues(p.comparisonShards[k].slots) + {MakeSlot(id, h.slotProbeHash)}
              && p' == Pool(p'.alloc, p.comparisonShards[k := p'.comparisonShards[k]], p.displayShards))
  {
    var cv := NameShard.MakeValue(cfg, IgnoreCase, name);
    var k := cv.hash.shardIndex;
    var sh := p.comparisonShards[k];
    var e := p.alloc.entries;
    InsertCorrect(cfg, IgnoreCase, sh, p.alloc, cv);
    var ins := NameShard.Insert(cfg, IgnoreCase, sh, p.alloc, cv);
    if ins.Success? {
      var (sh', alloc', id, added) := ins.value;
      assert InsertComparison(cfg, p, cv) == Success((Pool(alloc', p.comparisonShards[k := sh'], p.displayShards), id, added));
      if !added {
        assert p.comparisonShards[k := sh] == p.comparisonShards;
      } else {
        InsertKeepsInv(cfg, IgnoreCase, sh, p.alloc, cv);
      }
    }
  }

  ghost predicate FullyInserted(cfg: Config, p: Pool, name: NameView, p': Pool, id: nat, added: bool) {
    ComparisonResult(cfg, p, name, p', id, added) && PoolInv(cfg, p') && Grows(p, p')
  }

  /** An entry held in the comparison shard its name hashes to is its own
      comparison entry: its comparison entry is held there too, under an equal
      name, and a shard holds one word per name. */
  lemma HeldIsSelf(cfg: Config, p: Pool, w: Slot)
    requires PoolInv(cfg, p) && GetId(w) in p.alloc.entries
    requires var k := HashName(cfg, IgnoreCase, p.alloc.entries[GetId(w)].name).shardIndex;
      k < |p.comparisonShards| && w in UsedValues(p.comparisonShards[k].slots)
    ensures p.alloc.entries[GetId(w)].comparisonId == GetId(w)
  {
    var e := p.alloc.entries;
    var id := GetId(w);
    var k := HashName(cfg, IgnoreCase, e[id].name).shardIndex;
    assert EntryOk(cfg, p, id);
    var c := e[id].comparisonId;
    EqualNamesHashEqual(cfg, IgnoreCase, e[c].name, e[id].name);
    var wc :| wc in UsedValues(p.comparisonShards[k].slots) && GetId(wc) == c;
    assert ShardInv(cfg, IgnoreCase, p.comparisonShards[k], e);
    EqualsIsEquivalence(IgnoreCase, e[id].name, e[id].name, e[id].name);
    HoldersAgree(IgnoreCase, UsedValues(p.comparisonShards[k].slots), e, e[id].name, wc, w);
  }

  /** The found case of InsertComparisonCorrect: the pool is unchanged. */
  lemma InsertFoundCase(cfg: Config, p: Pool, name: NameView, w: Slot)
    requires PoolInv(cfg, p)
    requires Holds(IgnoreCase, p.comparisonShards[HashName(cfg, IgnoreCase, name).shardIndex].slots, p.alloc.entries, name, w)
    ensures FullyInserted(cfg, p, name, p, GetId(w), false)
  {
    var e := p.alloc.entries;
    var id := GetId(w);
    EqualNamesHashEqual(cfg, IgnoreCase, e[id].name, name);
    EqualsIsEquivalence(IgnoreCase, e[id].name, name, name);
    HeldIsSelf(cfg, p, w);
  }

  /** The created case of InsertComparisonCorrect, stated on the new shard and
      allocator. */
  lemma InsertAddedCase(cfg: Config, p: Pool, name: NameView, sh': NameShard.Shard, alloc': Allocator, id: nat)
    requires PoolInv(cfg, p)
    requires var h := HashName(cfg, IgnoreCase, name);
      && (forall w :: !Holds(IgnoreCase, p.comparisonShards[h.shardIndex].slots, p.alloc.entries, name, w))
      && Valid(cfg, alloc') && ShardInv(cfg, IgnoreCase, sh', alloc'.entries)
      && id !in p.alloc.entries && id < EntryIdLimit && IsProbeHash(h.slotProbeHash)
      && alloc'.entries == p.alloc.entries[id := Entry(h.entryProbeHeader, name, id)]
      && UsedValues(sh'.slots) == UsedValues(p.comparisonShards[h.shardIndex].slots) + {MakeSlot(id, h.slotProbeHash)}
    ensures var k := HashName(cfg, IgnoreCase, name).shardIndex;
      FullyInserted(cfg, p, name, Pool(alloc', p.comparisonShards[k := sh'], p.displayShards), id, true)
  {
    InsertAddedInv(cfg, p, name, sh', alloc', id);
    EqualsIsEquivalence(IgnoreCase, name, name, name);
  }

  /** Replacing one shard by one that keeps the shard invariant, while the
      entry map grows, keeps every shard's invariant. */
  lemma ShardsInvUpdate(cfg: Config, sens: Case, shards: seq<NameShard.Shard>, e: map<nat, Entry>, e': map<nat, Entry>,
                        k: nat, sh': NameShard.Shard)
    requires ShardsInv(cfg, sens, shards, e) && Extends(e, e')
    requires k < |shards| && ShardInv(cfg, sens, sh', e')
    ensures ShardsInv(cfg, sens, shards[k := sh'], e')
  {
    forall j | 0 <= j < |shards| && j != k
      ensures ShardInv(cfg, sens, shards[j], e')
    {
      ShardInvExtends(cfg, sens, shards[j], e, e');
    }
  }

  lemma ShardsInvExtend(cfg: Config, sens: Case, shards: seq<NameShard.Shard>, e: map<nat, Entry>, e': map<nat, Entry>)
    requires ShardsInv(cfg, sens, shards, e) && Extends(e, e')
    ensures ShardsInv(cfg, sens, shards, e')
  {
    forall j | 0 <= j < |shards|
      ensures ShardInv(cfg, sens, shards[j], e')
    {
      ShardInvExtends(cfg, sens, shards[j], e, e');
    }
  }

  /** Replacing one shard and the allocator keeps the pool well formed. */
  lemma WellformedUpdate(cfg: Config, p: Pool, alloc': Allocator, cs: seq<NameShard.Shard>, ds: seq<NameShard.Shard>)
    requires PoolWellformed(cfg, p) && Valid(cfg, alloc') && Extends(p.alloc.entries, alloc'.entries)
    requires |cs| == |p.comparisonShards| && |ds| == |p.displayShards|
    requires forall j :: 0 <= j < |cs| ==>
      cs[j] == p.comparisonShards[j] || NameShard.Wellformed(cs[j], alloc'.entries)
    requires forall j :: 0 <= j < |ds| ==>
      ds[j] == p.displayShards[j] || NameShard.Wellformed(ds[j], alloc'.entries)
    ensures PoolWellformed(cfg, Pool(alloc', cs, ds))
  {
    AllWellformedMonotone(p.comparisonShards, p.alloc.entries, alloc'.entries);
    AllWellformedMonotone(p.displayShards, p.alloc.entries, alloc'.entries);
  }

  /** The created case of InsertComparisonCorrect: shard k gained the slot
      word of a new entry for the name. */
  lemma InsertAddedInv(cfg: Config, p: Pool, name: NameView, sh': NameShard.Shard, alloc': Allocator, id: nat)
    requires PoolInv(cfg, p)
    requires var h := HashName(cfg, IgnoreCase, name);
      && Valid(cfg, alloc') && ShardInv(cfg, IgnoreCase, sh', alloc'.entries)
      && id !in p.alloc.entries && id < EntryIdLimit && IsProbeHash(h.slotProbeHash)
      && alloc'.entries == p.alloc.entries[id := Entry(h.entryProbeHeader, name, id)]
      && UsedValues(sh'.slots) == UsedValues(p.comparisonShards[h.shardIndex].slots) + {MakeSlot(id, h.slotProbeHash)}
    ensures var k := HashName(cfg, IgnoreCase, name).shardIndex;
      var p' := Pool(alloc', p.comparisonShards[k := sh'], p.displayShards);
      && PoolInv(cfg, p') && Grows(p, p')
      && HeldInComparison(cfg, p', id) && p'.alloc.entries[id].comparisonId == id
  {
    var k := HashName(cfg, IgnoreCase, name).shardIndex;
    assert Extends(p.alloc.entries, alloc'.entries);
    ShardsInvUpdate(cfg, IgnoreCase, p.comparisonShards, p.alloc.entries, alloc'.entries, k, sh');
    ShardsInvExtend(cfg, CaseSensitive, p.displayShards, p.alloc.entries, alloc'.entries);
    WellformedUpdate(cfg, p, alloc', p.comparisonShards[k := sh'], p.displayShards);
    InsertAddedEntries(cfg, p, name, sh', alloc', id);
  }

  /** The part of InsertAddedInv that is about entries rather than shards. */
  lemma InsertAddedEntries(cfg: Config, p: Pool, name: NameView, sh': NameShard.Shard, alloc': Allocator, id: nat)
    requires |p.comparisonShards| == ShardCount(cfg) && NoneFirst(p)
    requires forall i :: i in p.alloc.entries ==> EntryOk(cfg, p, i)
    requires var h := HashName(cfg, IgnoreCase, name);
      && id !in p.alloc.entries && id < EntryIdLimit && IsProbeHash(h.slotProbeHash)
      && alloc'.entries == p.alloc.entries[id := Entry(h.entryProbeHeader, name, id)]
      && UsedValues(sh'.slots) == UsedValues(p.comparisonShards[h.shardIndex].slots) + {MakeSlot(id, h.slotProbeHash)}
    ensures var k := HashName(cfg, IgnoreCase, name).shardIndex;
      var p' := Pool(alloc', p.comparisonShards[k := sh'], p.displayShards);
      && NoneFirst(p') && Grows(p, p')
      && (forall i :: i in p'.alloc.entries ==> EntryOk(cfg, p', i))
      && HeldInComparison(cfg, p', id) && p'.alloc.entries[id].comparisonId == id
  {
    var k := HashName(cfg, IgnoreCase, name).shardIndex;
    var p' := Pool(alloc', p.comparisonShards[k := sh'], p.displayShards);
    InsertAddedGains(cfg, p, name, sh', alloc', id);
    EntriesGrow(cfg, p, p');
  }

  /** The entry the created case added satisfies the invariant. */
  lemma InsertAddedGains(cfg: Config, p: Pool, name: NameView, sh': NameShard.Shard, alloc': Allocator, id: nat)
    requires |p.comparisonShards| == ShardCount(cfg)
    requires var h := HashName(cfg, IgnoreCase, name);
      && id !in p.alloc.entries && id < EntryIdLimit && IsProbeHash(h.slotProbeHash)
      && alloc'.entries == p.alloc.entries[id := Entry(h.entryProbeHeader, name, id)]
      && UsedValues(sh'.slots) == UsedValues(p.comparisonShards[h.shardIndex].slots) + {MakeSlot(id, h.slotProbeHash)}
    ensures var k := HashName(cfg, IgnoreCase, name).shardIndex;
      var p' := Pool(alloc', p.comparisonShards[k := sh'], p.displayShards);
      && Grows(p, p')
      && HeldInComparison(cfg, p', id) && p'.alloc.entries[id].comparisonId == id
      && forall i :: i in p'.alloc.entries ==> i in p.alloc.entries || EntryOk(cfg, p', i)
  {
    var h := HashName(cfg, IgnoreCase, name);
    var k := h.shardIndex;
    var p' := Pool(alloc', p.comparisonShards[k := sh'], p.displayShards);
    var w := MakeSlot(id, h.slotProbeHash);
    assert HeldInComparison(cfg, p', id) by {
      assert w in UsedValues(p'.comparisonShards[k].slots);
    }
    assert EntryOk(cfg, p', id);
  }

  lemma GrowsRefl(p: Pool)
    ensures Grows(p, p)
  {
  }

  lemma GrowsTrans(p: Pool, p1: Pool, p2: Pool)
    requires Grows(p, p1) && Grows(p1, p2)
    ensures Grows(p, p2)
  {
  }

  /** A shard holds one slot word per name: two entries held in the
      comparison shards under names equal ignoring case are the same entry. */
  lemma UniqueComparisonHolder(cfg: Config, p: Pool, a: nat, b: nat)
    requires ShardsInv(cfg, IgnoreCase, p.comparisonShards, p.alloc.entries)
    requires HeldInComparison(cfg, p, a) && HeldInComparison(cfg, p, b)
    requires Equals(IgnoreCase, p.alloc.entries[a].name, p.alloc.entries[b].name)
    ensures a == b
  {
    var e := p.alloc.entries;
    EqualNamesHashEqual(cfg, IgnoreCase, e[a].name, e[b].name);
    var k := HashName(cfg, IgnoreCase, e[a].name).shardIndex;
    var wa :| wa in UsedValues(p.comparisonShards[k].slots) && GetId(wa) == a;
    var wb :| wb in UsedValues(p.comparisonShards[k].slots) && GetId(wb) == b;
    assert ShardInv(cfg, IgnoreCase, p.comparisonShards[k], e);
    EqualsIsEquivalence(IgnoreCase, e[a].name, e[b].name, e[b].name);
    HoldersAgree(IgnoreCase, UsedValues(p.comparisonShards[k].slots), e, e[b].name, wa, wb);
  }

  /** Entry 0, "None", is held in the comparison shards. */
  lemma NoneHeld(cfg: Config, p: Pool)
    requires PoolInv(cfg, p)
    ensures HeldInComparison(cfg, p, 0)
  {
    assert EntryOk(cfg, p, 0);
  }
}
