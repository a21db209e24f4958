/** What Store promises under the pool invariant: the returned entry carries
    the stored name (its exact spelling with case preservation on), the pool
    keeps its invariant and only grows, Find then returns the same entry, and
    storing the name again changes nothing. */
module StoreProperties {
  import opened Wrappers
  import opened Chars
  import opened Slots
  import opened NameHashing
  import opened EntryAllocator
  import opened Probing
  import NameShard
  import opened ShardInvariant
  import opened NamePool
  import opened PoolInvariant

  /** Entry id has a slot word in the display shard the name hashes to. */
  ghost predicate HeldInDisplay(cfg: Config, p: Pool, id: nat, name: NameView) {
    var k := HashName(cfg, CaseSensitive, name).shardIndex;
    && k < |p.displayShards|
    && exists w :: w in UsedValues(p.displayShards[k].slots) && GetId(w) == id
  }

  /** The state Store leaves behind when it returns entry id for the name. */
  ghost predicate Stored(cfg: Config, p: Pool, name: NameView, p': Pool, id: nat) {
    && PoolInv(cfg, p') && Grows(p, p')
    && id in p'.alloc.entries && Equals(IgnoreCase, p'.alloc.entries[id].name, name)
    && (cfg.casePreserving ==> p'.alloc.entries[id].name == name && HeldInDisplay(cfg, p', id, name))
    && (!cfg.casePreserving ==> HeldInComparison(cfg, p', id))
  }

  /** Store keeps the invariant and returns an entry for the name. */
  lemma StoreCorrect(cfg: Config, p: Pool, name: NameView)
    requires PoolInv(cfg, p)
    ensures var r := Store(cfg, p, name);
      r.Success? ==> Stored(cfg, p, name, r.value.0, r.value.1)
  {
    var r1 := InsertComparison(cfg, p, NameShard.MakeValue(cfg, IgnoreCase, name));
    if !cfg.casePreserving {
      InsertComparisonCases(cfg, p, name);
      if r1.Success? {
        var (p1, cid, added) := r1.value;
        assert Store(cfg, p, name) == Success((p1, cid));
      }
    } else if FindDisplay(cfg, p, name) != 0 {
      StoreHitCase(cfg, p, name);
    } else if r1.Success? {
      InsertComparisonCases(cfg, p, name);
      var (p1, cid, added) := r1.value;
      assert Store(cfg, p, name) == StoreDisplay(cfg, p1, name, cid, added);
      DisplayMiss(cfg, p, name, p1);
      StoreDisplayCorrect(cfg, p, name, p1, cid, added);
    }
  }

  /** With case preservation on, a name whose exact spelling has a display
      entry is returned as is. */
  lemma StoreHitCase(cfg: Config, p: Pool, name: NameView)
    requires cfg.casePreserving && PoolInv(cfg, p) && FindDisplay(cfg, p, name) != 0
    ensures Store(cfg, p, name) == Success((p, FindDisplay(cfg, p, name)))
    ensures Stored(cfg, p, name, p, FindDisplay(cfg, p, name))
  {
    var dv := NameShard.MakeValue(cfg, CaseSensitive, name);
    var k := dv.hash.shardIndex;
    assert ShardInv(cfg, CaseSensitive, p.displayShards[k], p.alloc.entries);
    FindCorrect(cfg, CaseSensitive, p.displayShards[k], p.alloc.entries, dv);
    assert exists w :: Holds(CaseSensitive, p.displayShards[k].slots, p.alloc.entries, name, w);
    GrowsRefl(p);
    EqualsIsEquivalence(IgnoreCase, name, name, name);
  }

  /** A display lookup that returns 0 leaves at most entry 0 holding the exact
      spelling, also after the comparison insert added entries. */
  lemma DisplayMiss(cfg: Config, p: Pool, name: NameView, p1: Pool)
    requires cfg.casePreserving && PoolWellformed(cfg, p) && FindDisplay(cfg, p, name) == 0
    requires ShardInv(cfg, CaseSensitive, p.displayShards[HashName(cfg, CaseSensitive, name).shardIndex], p.alloc.entries)
    requires p1.displayShards == p.displayShards && Extends(p.alloc.entries, p1.alloc.entries)
    ensures var k := HashName(cfg, CaseSensitive, name).shardIndex;
      forall w :: Holds(CaseSensitive, p1.displayShards[k].slots, p1.alloc.entries, name, w) ==> GetId(w) == 0
  {
    var dv := NameShard.MakeValue(cfg, CaseSensitive, name);
    var k := dv.hash.shardIndex;
    FindCorrect(cfg, CaseSensitive, p.displayShards[k], p.alloc.entries, dv);
    forall w | Holds(CaseSensitive, p1.displayShards[k].slots, p1.alloc.entries, name, w)
      ensures GetId(w) == 0
    {
      assert Holds(CaseSensitive, p.displayShards[k].slots, p.alloc.entries, name, w);
    }
  }

  /** The display half of Store, after a display miss. */
  lemma StoreDisplayCorrect(cfg: Config, p: Pool, name: NameView, p1: Pool, cid: nat, added: bool)
    requires cfg.casePreserving && FullyInserted(cfg, p, name, p1, cid, added)
    requires var k := HashName(cfg, CaseSensitive, name).shardIndex;
      forall w :: Holds(CaseSensitive, p1.displayShards[k].slots, p1.alloc.entries, name, w) ==> GetId(w) == 0
    ensures var r := StoreDisplay(cfg, p1, name, cid, added);
      r.Success? ==> Stored(cfg, p, name, r.value.0, r.value.1)
  {
    DisplayHolder(cfg, p1, name, cid);
    if added || Equals(CaseSensitive, p1.alloc.entries[cid].name, name) {
      StoreExistingCase(cfg, p, name, p1, cid, added);
    } else {
      StoreNewDisplayCase(cfg, p, name, p1, cid, added);
    }
  }

  /** A display slot for the exact spelling can only be entry 0's, and then
      entry 0 is also the name's comparison entry. */
  lemma DisplayHolder(cfg: Config, p1: Pool, name: NameView, cid: nat)
    requires cfg.casePreserving && PoolInv(cfg, p1)
    requires HeldInComparison(cfg, p1, cid) && Equals(IgnoreCase, p1.alloc.entries[cid].name, name)
    requires var k := HashName(cfg, CaseSensitive, name).shardIndex;
      forall w :: Holds(CaseSensitive, p1.displayShards[k].slots, p1.alloc.entries, name, w) ==> GetId(w) == 0
    ensures var k := HashName(cfg, CaseSensitive, name).shardIndex;
      forall w :: Holds(CaseSensitive, p1.displayShards[k].slots, p1.alloc.entries, name, w) ==>
        GetId(w) == cid && p1.alloc.entries[cid].name == name
  {
    var k := HashName(cfg, CaseSensitive, name).shardIndex;
    var e1 := p1.alloc.entries;
    forall w | Holds(CaseSensitive, p1.displayShards[k].slots, e1, name, w)
      ensures GetId(w) == cid && e1[cid].name == name
    {
      NoneHeld(cfg, p1);
      EqualsIsEquivalence(IgnoreCase, e1[0].name, name, e1[cid].name);
      UniqueComparisonHolder(cfg, p1, 0, cid);
    }
  }

  /** The comparison entry doubles as the display entry. */
  lemma StoreExistingCase(cfg: Config, p: Pool, name: NameView, p1: Pool, cid: nat, added: bool)
    requires cfg.casePreserving && PoolInv(cfg, p1) && Grows(p, p1)
    requires cid in p1.alloc.entries && p1.alloc.entries[cid].name == name
    requires added || Equals(CaseSensitive, p1.alloc.entries[cid].name, name)
    requires var k := HashName(cfg, CaseSensitive, name).shardIndex;
      forall w :: Holds(CaseSensitive, p1.displayShards[k].slots, p1.alloc.entries, name, w) ==> GetId(w) == cid
    ensures var r := StoreDisplay(cfg, p1, name, cid, added);
      r.Success? ==> Stored(cfg, p, name, r.value.0, r.value.1)
  {
    var h := HashName(cfg, CaseSensitive, name);
    var k := h.shardIndex;
    var e1 := p1.alloc.entries;
    assert EntryOk(cfg, p1, cid);
    CasePreservingHeadersAgree(cfg, name);
    ValidIdsBelowLimit(cfg, p1.alloc, cid);
    assert ShardInv(cfg, CaseSensitive, p1.displayShards[k], e1);
    InsertExistingCorrect(cfg, CaseSensitive, p1.displayShards[k], e1, cid);
    var r := NameShard.InsertExistingEntry(cfg, CaseSensitive, p1.displayShards[k], e1, h, cid);
    if r.Success? {
      var p2 := p1.(displayShards := p1.displayShards[k := r.value]);
      assert StoreDisplay(cfg, p1, name, cid, added) == Success((p2, cid));
      ExistingInv(cfg, p, p1, k, r.value);
      EqualsIsEquivalence(IgnoreCase, name, name, name);
      assert GetId(MakeSlot(cid, h.slotProbeHash)) == cid;
    }
  }

  /** Replacing display shard k by one that keeps its invariant and only
      gains slot words keeps the pool invariant. */
  lemma ExistingInv(cfg: Config, p: Pool, p1: Pool, k: nat, ds: NameShard.Shard)
    requires PoolInv(cfg, p1) && Grows(p, p1) && k < |p1.displayShards|
    requires ShardInv(cfg, CaseSensitive, ds, p1.alloc.entries)
    requires UsedValues(p1.displayShards[k].slots) <= UsedValues(ds.slots)
    ensures var p2 := p1.(displayShards := p1.displayShards[k := ds]);
      PoolInv(cfg, p2) && Grows(p, p2)
  {
    var e1 := p1.alloc.entries;
    var p2 := p1.(displayShards := p1.displayShards[k := ds]);
    ShardsInvUpdate(cfg, CaseSensitive, p1.displayShards, e1, e1, k, ds);
    WellformedUpdate(cfg, p1, p1.alloc, p1.comparisonShards, p2.displayShards);
    InvStep(cfg, p1, p2);
    GrowsTrans(p, p1, p2);
  }

  /** A new display entry pointing at the comparison entry is created. */
  lemma StoreNewDisplayCase(cfg: Config, p: Pool, name: NameView, p1: Pool, cid: nat, added: bool)
    requires cfg.casePreserving && PoolInv(cfg, p1) && Grows(p, p1)
    requires HeldInComparison(cfg, p1, cid) && p1.alloc.entries[cid].comparisonId == cid
    requires Equals(IgnoreCase, p1.alloc.entries[cid].name, name)
    requires !(added || Equals(CaseSensitive, p1.alloc.entries[cid].name, name))
    requires var k := HashName(cfg, CaseSensitive, name).shardIndex;
      forall w :: Holds(CaseSensitive, p1.displayShards[k].slots, p1.alloc.entries, name, w) ==>
        p1.alloc.entries[cid].name == name
    ensures var r := StoreDisplay(cfg, p1, name, cid, added);
      r.Success? ==> Stored(cfg, p, name, r.value.0, r.value.1)
  {
    var h := HashName(cfg, CaseSensitive, name);
    var k := h.shardIndex;
    assert ShardInv(cfg, CaseSensitive, p1.displayShards[k], p1.alloc.entries);
    DisplayInsertFacts(cfg, p1, name, cid);
    var v := NameShard.MakeValue(cfg, CaseSensitive, name).(comparisonId := Some(cid));
    var r := NameShard.Insert(cfg, CaseSensitive, p1.displayShards[k], p1.alloc, v);
    if r.Success? {
      var (ds, alloc', did, _) := r.value;
      var p2 := Pool(alloc', p1.comparisonShards, p1.displayShards[k := ds]);
      assert StoreDisplay(cfg, p1, name, cid, added) == Success((p2, did));
      NewDisplayInv(cfg, name, p1, cid, ds, alloc', did);
      GrowsTrans(p, p1, p2);
      EqualsIsEquivalence(IgnoreCase, name, name, name);
      assert GetId(MakeSlot(did, h.slotProbeHash)) == did;
    }
  }

  /** Inserting the display value of a name no display slot holds creates an
      entry for it whose comparison id is the given one. */
  lemma DisplayInsertFacts(cfg: Config, p1: Pool, name: NameView, cid: nat)
    requires cfg.casePreserving && PoolWellformed(cfg, p1)
    requires var k := HashName(cfg, CaseSensitive, name).shardIndex;
      && ShardInv(cfg, CaseSensitive, p1.displayShards[k], p1.alloc.entries)
      && forall w :: !Holds(CaseSensitive, p1.displayShards[k].slots, p1.alloc.entries, name, w)
    ensures var h := HashName(cfg, CaseSensitive, name);
      var v := NameShard.MakeValue(cfg, CaseSensitive, name).(comparisonId := Some(cid));
      var r := NameShard.Insert(cfg, CaseSensitive, p1.displayShards[h.shardIndex], p1.alloc, v);
      r.Success? ==>
        var (ds, alloc', did, _) := r.value;
        && Valid(cfg, alloc') && ShardInv(cfg, CaseSensitive, ds, alloc'.entries)
        && did !in p1.alloc.entries && did < EntryIdLimit
        && alloc'.entries == p1.alloc.entries[did := Entry(h.entryProbeHeader, name, cid)]
        && UsedValues(ds.slots) == UsedValues(p1.displayShards[h.shardIndex].slots) + {MakeSlot(did, h.slotProbeHash)}
  {
    var v := NameShard.MakeValue(cfg, CaseSensitive, name).(comparisonId := Some(cid));
    var k := v.hash.shardIndex;
    InsertCorrect(cfg, CaseSensitive, p1.displayShards[k], p1.alloc, v);
    InsertKeepsInv(cfg, CaseSensitive, p1.displayShards[k], p1.alloc, v);
  }

  /** The pool after a new display entry did for the name was added to
      display shard k keeps the invariant. */
  lemma NewDisplayInv(cfg: Config, name: NameView, p1: Pool, cid: nat,
                      ds: NameShard.Shard, alloc': Allocator, did: nat)
    requires cfg.casePreserving && PoolInv(cfg, p1)
    requires HeldInComparison(cfg, p1, cid) && p1.alloc.entries[cid].comparisonId == cid
    requires Equals(IgnoreCase, p1.alloc.entries[cid].name, name)
    requires var h := HashName(cfg, CaseSensitive, name);
      && Valid(cfg, alloc') && ShardInv(cfg, CaseSensitive, ds, alloc'.entries)
      && did !in p1.alloc.entries && did < EntryIdLimit
      && alloc'.entries == p1.alloc.entries[did := Entry(h.entryProbeHeader, name, cid)]
      && UsedValues(ds.slots) == UsedValues(p1.displayShards[h.shardIndex].slots) + {MakeSlot(did, h.slotProbeHash)}
    ensures var k := HashName(cfg, CaseSensitive, name).shardIndex;
      var p2 := Pool(alloc', p1.comparisonShards, p1.displayShards[k := ds]);
      PoolInv(cfg, p2) && Grows(p1, p2)
  {
    var k := HashName(cfg, CaseSensitive, name).shardIndex;
    var e1, e2 := p1.alloc.entries, alloc'.entries;
    assert Extends(e1, e2);
    ShardsInvExtend(cfg, IgnoreCase, p1.comparisonShards, e1, e2);
    ShardsInvUpdate(cfg, CaseSensitive, p1.displayShards, e1, e2, k, ds);
    WellformedUpdate(cfg, p1, alloc', p1.comparisonShards, p1.displayShards[k := ds]);
    NewDisplayEntries(cfg, name, p1, cid, ds, alloc', did);
  }

  /** The entry part of NewDisplayInv: old entries keep their comparison
      entries, and the new one points at the name's comparison entry. */
  lemma NewDisplayEntries(cfg: Config, name: NameView, p1: Pool, cid: nat,
                          ds: NameShard.Shard, alloc': Allocator, did: nat)
    requires cfg.casePreserving && NoneFirst(p1)
    requires |p1.displayShards| == ShardCount(cfg)
    requires forall i :: i in p1.alloc.entries ==> EntryOk(cfg, p1, i)
    requires HeldInComparison(cfg, p1, cid) && p1.alloc.entries[cid].comparisonId == cid
    requires Equals(IgnoreCase, p1.alloc.entries[cid].name, name)
    requires var h := HashName(cfg, CaseSensitive, name);
      && did !in p1.alloc.entries && did < EntryIdLimit
      && alloc'.entries == p1.alloc.entries[did := Entry(h.entryProbeHeader, name, cid)]
      && UsedValues(ds.slots) == UsedValues(p1.displayShards[h.shardIndex].slots) + {MakeSlot(did, h.slotProbeHash)}
    ensures var k := HashName(cfg, CaseSensitive, name).shardIndex;
      var p2 := Pool(alloc', p1.comparisonShards, p1.displayShards[k := ds]);
      && Grows(p1, p2) && NoneFirst(p2)
      && (forall i :: i in p2.alloc.entries ==> EntryOk(cfg, p2, i))
  {
    var k := HashName(cfg, CaseSensitive, name).shardIndex;
    var p2 := Pool(alloc', p1.comparisonShards, p1.displayShards[k := ds]);
    assert UsedValues(p1.displayShards[k].slots) <= UsedValues(ds.slots);
    UpdateGrowsShards(p1.displayShards, k, ds);
    assert Extends(p1.alloc.entries, alloc'.entries);
    assert Grows(p1, p2);
    NewDisplayEntryOk(cfg, name, p1, p2, cid, did);
    EntriesGrow(cfg, p1, p2);
  }

  /** The new display entry points at the name's comparison entry. */
  lemma NewDisplayEntryOk(cfg: Config, name: NameView, p1: Pool, p2: Pool, cid: nat, did: nat)
    requires cfg.casePreserving && Grows(p1, p2)
    requires HeldInComparison(cfg, p1, cid) && p1.alloc.entries[cid].comparisonId == cid
    requires Equals(IgnoreCase, p1.alloc.entries[cid].name, name)
    requires did !in p1.alloc.entries
    requires p2.alloc.entries == p1.alloc.entries[did := Entry(HashName(cfg, CaseSensitive, name).entryProbeHeader, name, cid)]
    ensures did in p2.alloc.entries && EntryOk(cfg, p2, did)
  {
    HeldGrows(cfg, p1, p2, cid);
    CasePreservingHeadersAgree(cfg, name);
  }

  /** An entry held in the comparison shard of a name equal to it ignoring
      case is what the comparison lookup returns. */
  lemma FindComparisonHeld(cfg: Config, p: Pool, id: nat, name: NameView)
    requires PoolWellformed(cfg, p) && ShardsInv(cfg, IgnoreCase, p.comparisonShards, p.alloc.entries)
    requires HeldInComparison(cfg, p, id) && Equals(IgnoreCase, p.alloc.entries[id].name, name)
    ensures FindComparison(cfg, p, name) == id
  {
    var e := p.alloc.entries;
    EqualNamesHashEqual(cfg, IgnoreCase, e[id].name, name);
    var cv := NameShard.MakeValue(cfg, IgnoreCase, name);
    var k := cv.hash.shardIndex;
    var w :| w in UsedValues(p.comparisonShards[k].slots) && GetId(w) == id;
    assert ShardInv(cfg, IgnoreCase, p.comparisonShards[k], e);
    assert Holds(IgnoreCase, p.comparisonShards[k].slots, e, name, w);
    FindCorrect(cfg, IgnoreCase, p.comparisonShards[k], e, cv);
  }

  /** An entry spelled exactly like the name and held in its display shard
      is what the display lookup returns. */
  lemma FindDisplayHeld(cfg: Config, p: Pool, id: nat, name: NameView)
    requires cfg.casePreserving && PoolWellformed(cfg, p)
    requires ShardsInv(cfg, CaseSensitive, p.displayShards, p.alloc.entries)
    requires id in p.alloc.entries && p.alloc.entries[id].name == name && HeldInDisplay(cfg, p, id, name)
    ensures FindDisplay(cfg, p, name) == id
  {
    var e := p.alloc.entries;
    var dv := NameShard.MakeValue(cfg, CaseSensitive, name);
    var k := dv.hash.shardIndex;
    var w :| w in UsedValues(p.displayShards[k].slots) && GetId(w) == id;
    EqualsIsEquivalence(CaseSensitive, name, name, name);
    assert ShardInv(cfg, CaseSensitive, p.displayShards[k], e);
    assert Holds(CaseSensitive, p.displayShards[k].slots, e, name, w);
    FindCorrect(cfg, CaseSensitive, p.displayShards[k], e, dv);
  }

  /** After Store returned an entry, Find returns that same entry. */
  lemma FindAfterStore(cfg: Config, p: Pool, name: NameView, p': Pool, id: nat)
    requires Stored(cfg, p, name, p', id)
    ensures Find(cfg, p', name) == id
  {
    if cfg.casePreserving {
      FindDisplayHeld(cfg, p', id, name);
      if id == 0 {
        NoneHeld(cfg, p');
        EqualsIsEquivalence(IgnoreCase, name, name, name);
        FindComparisonHeld(cfg, p', 0, name);
      }
    } else {
      FindComparisonHeld(cfg, p', id, name);
    }
  }

  /** Inserting the comparison value of a name whose comparison entry is
      already held changes nothing and returns that entry. */
  lemma InsertComparisonHeld(cfg: Config, p: Pool, id: nat, name: NameView)
    requires PoolWellformed(cfg, p) && ShardsInv(cfg, IgnoreCase, p.comparisonShards, p.alloc.entries)
    requires HeldInComparison(cfg, p, id) && Equals(IgnoreCase, p.alloc.entries[id].name, name)
    ensures InsertComparison(cfg, p, NameShard.MakeValue(cfg, IgnoreCase, name)) == Success((p, id, false))
  {
    var e := p.alloc.entries;
    EqualNamesHashEqual(cfg, IgnoreCase, e[id].name, name);
    var cv := NameShard.MakeValue(cfg, IgnoreCase, name);
    var k := cv.hash.shardIndex;
    var w :| w in UsedValues(p.comparisonShards[k].slots) && GetId(w) == id;
    assert ShardInv(cfg, IgnoreCase, p.comparisonShards[k], e);
    assert Holds(IgnoreCase, p.comparisonShards[k].slots, e, name, w);
    InsertFindsHeld(cfg, IgnoreCase, p.comparisonShards[k], p.alloc, cv, w);
    assert p.comparisonShards[k := p.comparisonShards[k]] == p.comparisonShards;
  }

  /** Storing a name again returns the same entry and leaves the pool as it is. */
  lemma StoreIdempotent(cfg: Config, p: Pool, name: NameView, p': Pool, id: nat)
    requires Stored(cfg, p, name, p', id)
    ensures Store(cfg, p', name) == Success((p', id))
  {
    if !cfg.casePreserving {
      InsertComparisonHeld(cfg, p', id, name);
    } else {
      FindDisplayHeld(cfg, p', id, name);
      if id == 0 {
        StoreAgainNone(cfg, p', name);
      }
    }
  }

  /** Storing again the spelling entry 0 carries, with case preservation on:
      the comparison entry is entry 0 itself and its display slot is there. */
  lemma StoreAgainNone(cfg: Config, p: Pool, name: NameView)
    requires cfg.casePreserving && PoolInv(cfg, p)
    requires p.alloc.entries[0].name == name && HeldInDisplay(cfg, p, 0, name)
    requires FindDisplay(cfg, p, name) == 0
    ensures Store(cfg, p, name) == Success((p, 0))
  {
    NoneHeld(cfg, p);
    EqualsIsEquivalence(CaseSensitive, name, name, name);
    InsertComparisonHeld(cfg, p, 0, name);
    assert Store(cfg, p, name) == StoreDisplay(cfg, p, name, 0, false);
    assert ShardInv(cfg, CaseSensitive, p.displayShards[HashName(cfg, CaseSensitive, name).shardIndex], p.alloc.entries);
    assert EntryOk(cfg, p, 0);
    StoreDisplayHeld(cfg, p, name);
  }

  /** StoreDisplay for entry 0 whose display slot is already there. */
  lemma StoreDisplayHeld(cfg: Config, p: Pool, name: NameView)
    requires cfg.casePreserving && PoolWellformed(cfg, p)
    requires var e := p.alloc.entries;
      && 0 in e && e[0].name == name && e[0].header == HashName(cfg, IgnoreCase, name).entryProbeHeader
    requires ShardInv(cfg, CaseSensitive, p.displayShards[HashName(cfg, CaseSensitive, name).shardIndex], p.alloc.entries)
    requires HeldInDisplay(cfg, p, 0, name) && FindDisplay(cfg, p, name) == 0
    ensures StoreDisplay(cfg, p, name, 0, false) == Success((p, 0))
  {
    var e := p.alloc.entries;
    var h := HashName(cfg, CaseSensitive, name);
    var sh := p.displayShards[h.shardIndex];
    NameShard.WellformedHasFree(sh, e);
    ExistingSlotKept(cfg, sh, e, name);
    EqualsIsEquivalence(CaseSensitive, name, name, name);
    assert p.displayShards[h.shardIndex := sh] == p.displayShards;
  }

  /** Re-inserting entry 0 into a display shard that already has its slot
      word, and no other holder of the spelling, leaves the shard as it is. */
  lemma ExistingSlotKept(cfg: Config, sh: NameShard.Shard, e: map<nat, Entry>, name: NameView)
    requires cfg.casePreserving && ShardInv(cfg, CaseSensitive, sh, e)
    requires 0 in e && e[0].name == name && e[0].header == HashName(cfg, IgnoreCase, name).entryProbeHeader
    requires exists w :: w in UsedValues(sh.slots) && GetId(w) == 0
    requires HasFree(sh.slots) && NameShard.Find(sh, CaseSensitive, e, NameShard.MakeValue(cfg, CaseSensitive, name)) == 0
    ensures IsProbeHash(HashName(cfg, CaseSensitive, name).slotProbeHash)
    ensures NameShard.InsertExistingEntry(cfg, CaseSensitive, sh, e, HashName(cfg, CaseSensitive, name), 0) == Success(sh)
  {
    var dv := NameShard.MakeValue(cfg, CaseSensitive, name);
    var h := dv.hash;
    CasePreservingHeadersAgree(cfg, name);
    FindCorrect(cfg, CaseSensitive, sh, e, dv);
    InsertExistingCorrect(cfg, CaseSensitive, sh, e, 0);
    var w :| w in UsedValues(sh.slots) && GetId(w) == 0;
    assert Matches(cfg, CaseSensitive, e, w);
    SlotDecomposes(w);
    assert MakeSlot(0, h.slotProbeHash) in UsedValues(sh.slots);
  }

  /** Two entries' names are equal ignoring case exactly when the entries
      share a comparison id. */
  lemma ComparisonIdsAgree(cfg: Config, p: Pool, a: nat, b: nat)
    requires PoolInv(cfg, p) && a in p.alloc.entries && b in p.alloc.entries
    ensures Equals(IgnoreCase, p.alloc.entries[a].name, p.alloc.entries[b].name)
        <==> p.alloc.entries[a].comparisonId == p.alloc.entries[b].comparisonId
  {
    var e := p.alloc.entries;
    assert EntryOk(cfg, p, a) && EntryOk(cfg, p, b);
    var ca, cb := e[a].comparisonId, e[b].comparisonId;
    EqualsIsEquivalence(IgnoreCase, e[ca].name, e[a].name, e[b].name);
    EqualsIsEquivalence(IgnoreCase, e[a].name, e[ca].name, e[b].name);
    EqualsIsEquivalence(IgnoreCase, e[b].name, e[cb].name, e[ca].name);
    EqualsIsEquivalence(IgnoreCase, e[ca].name, e[b].name, e[cb].name);
    if Equals(IgnoreCase, e[a].name, e[b].name) {
      UniqueComparisonHolder(cfg, p, ca, cb);
    }
  }
}
