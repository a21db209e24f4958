/** FNamePool: the entry allocator, the comparison shards that map names equal
    ignoring case to one entry and, with case preservation on, the display
    shards that map every exact spelling to an entry of its own. A display
    entry records the id of its comparison entry. */
module NamePool {
  import opened Wrappers
  import opened Chars
  import opened Slots
  import opened NameHashing
  import opened EntryAllocator
  import opened Probing
  import NameShard
  import opened ShardInvariant

  datatype Pool = Pool(alloc: Allocator, comparisonShards: seq<NameShard.Shard>, displayShards: seq<NameShard.Shard>)

  /** The ANSI string "None": the pool stores it first, so it receives id 0. */
  const NoneName: NameView := Ansi(['N' as int as Byte, 'o' as int as Byte, 'n' as int as Byte, 'e' as int as Byte])

  /** Display shards exist only with case preservation on. */
  function DisplayShardCount(cfg: Config): nat {
    if cfg.casePreserving then ShardCount(cfg) else 0
  }

  ghost predicate AllWellformed(shards: seq<NameShard.Shard>, entries: map<nat, Entry>) {
    forall k :: 0 <= k < |shards| ==> NameShard.Wellformed(shards[k], entries)
  }

  /** The structural invariant every pool operation needs to run. */
  ghost predicate PoolWellformed(cfg: Config, p: Pool) {
    && Valid(cfg, p.alloc)
    && |p.comparisonShards| == ShardCount(cfg)
    && |p.displayShards| == DisplayShardCount(cfg)
    && AllWellformed(p.comparisonShards, p.alloc.entries)
    && AllWellformed(p.displayShards, p.alloc.entries)
  }

  lemma AllWellformedMonotone(shards: seq<NameShard.Shard>, entries: map<nat, Entry>, entries': map<nat, Entry>)
    requires AllWellformed(shards, entries)
    requires forall id :: id in entries ==> id in entries'
    ensures AllWellformed(shards, entries')
  {
    forall k | 0 <= k < |shards|
      ensures NameShard.Wellformed(shards[k], entries')
    {
      NameShard.WellformedMonotone(shards[k], entries, entries');
    }
  }

  /** The pool as the constructor leaves it before registering any name. */
  function Empty(cfg: Config): (p: Pool)
    ensures PoolWellformed(cfg, p) && p.alloc.entries == map[]
  {
    InitialValid(cfg);
    NameShard.NewShardWellformed(map[]);
    Pool(Initial(),
         seq(ShardCount(cfg), _ => NameShard.NewShard()),
         seq(DisplayShardCount(cfg), _ => NameShard.NewShard()))
  }

  /** Insert a comparison value into the comparison shard its hash selects;
      also reports whether a new entry was created. */
  function InsertComparison(cfg: Config, p: Pool, cv: NameShard.Value): (r: Result<(Pool, nat, bool), Fatal>)
    requires PoolWellformed(cfg, p)
    requires IsProbeHash(cv.hash.slotProbeHash) && cv.hash.shardIndex < ShardCount(cfg)
    ensures r.Success? ==>
      var (p', id, _) := r.value;
      && PoolWellformed(cfg, p') && id in p'.alloc.entries
      && p'.displayShards == p.displayShards
  {
    var k := cv.hash.shardIndex;
    var (sh', alloc', id, added) :- NameShard.Insert(cfg, IgnoreCase, p.comparisonShards[k], p.alloc, cv);
    AllWellformedMonotone(p.comparisonShards, p.alloc.entries, alloc'.entries);
    AllWellformedMonotone(p.displayShards, p.alloc.entries, alloc'.entries);
    Success((Pool(alloc', p.comparisonShards[k := sh'], p.displayShards), id, added))
  }

  /** BatchStore: insert a comparison value whose hash was computed elsewhere;
      display shards are not touched. */
  function BatchStore(cfg: Config, p: Pool, cv: NameShard.Value): (r: Result<(Pool, nat), Fatal>)
    requires PoolWellformed(cfg, p)
    requires IsProbeHash(cv.hash.slotProbeHash) && cv.hash.shardIndex < ShardCount(cfg)
    ensures r.Success? ==> PoolWellformed(cfg, r.value.0) && r.value.1 in r.value.0.alloc.entries
    ensures r.Success? ==> r.value.0.displayShards == p.displayShards
  {
    var (p', id, _) :- InsertComparison(cfg, p, cv);
    Success((p', id))
  }

  /** The comparison shards' lookup: the entry of a name equal ignoring case, or 0. */
  function FindComparison(cfg: Config, p: Pool, name: NameView): (id: nat)
    requires PoolWellformed(cfg, p)
    ensures id != 0 ==> id in p.alloc.entries && Equals(IgnoreCase, p.alloc.entries[id].name, name)
  {
    var cv := NameShard.MakeValue(cfg, IgnoreCase, name);
    NameShard.WellformedHasFree(p.comparisonShards[cv.hash.shardIndex], p.alloc.entries);
    NameShard.Find(p.comparisonShards[cv.hash.shardIndex], IgnoreCase, p.alloc.entries, cv)
  }

  /** The display shards' lookup: the entry spelled exactly like the name, or 0. */
  function FindDisplay(cfg: Config, p: Pool, name: NameView): (id: nat)
    requires PoolWellformed(cfg, p) && cfg.casePreserving
    ensures id != 0 ==> id in p.alloc.entries && p.alloc.entries[id].name == name
  {
    var dv := NameShard.MakeValue(cfg, CaseSensitive, name);
    NameShard.WellformedHasFree(p.displayShards[dv.hash.shardIndex], p.alloc.entries);
    NameShard.Find(p.displayShards[dv.hash.shardIndex], CaseSensitive, p.alloc.entries, dv)
  }

  /** Find(FNameStringView): the exact spelling's display entry when there is
      one, else the comparison entry of a name equal ignoring case, else 0. */
  function Find(cfg: Config, p: Pool, name: NameView): (id: nat)
    requires PoolWellformed(cfg, p)
    ensures id != 0 ==> id in p.alloc.entries && Equals(IgnoreCase, p.alloc.entries[id].name, name)
  {
    if cfg.casePreserving && FindDisplay(cfg, p, name) != 0 then
      EqualsIsEquivalence(CaseSensitive, name, name, name);
      FindDisplay(cfg, p, name)
    else FindComparison(cfg, p, name)
  }

  /** Store(FNameStringView). With case preservation on, an existing display
      entry is returned as is; otherwise the comparison entry is found or
      created first, and StoreDisplay registers the spelling. */
  function Store(cfg: Config, p: Pool, name: NameView): (r: Result<(Pool, nat), Fatal>)
    requires PoolWellformed(cfg, p)
    ensures r.Success? ==> PoolWellformed(cfg, r.value.0) && r.value.1 in r.value.0.alloc.entries
  {
    var cv := NameShard.MakeValue(cfg, IgnoreCase, name);
    if !cfg.casePreserving then
      var (p1, cid, _) :- InsertComparison(cfg, p, cv);
      Success((p1, cid))
    else
      var existing := FindDisplay(cfg, p, name);
      if existing != 0 then Success((p, existing))
      else
        var (p1, cid, added) :- InsertComparison(cfg, p, cv);
        StoreDisplay(cfg, p1, name, cid, added)
  }

  /** The display half of Store: the comparison entry doubles as the display
      entry when it was just created or is spelled exactly like the name;
      otherwise a new display entry pointing at the comparison entry is created. */
  function StoreDisplay(cfg: Config, p: Pool, name: NameView, cid: nat, added: bool): (r: Result<(Pool, nat), Fatal>)
    requires PoolWellformed(cfg, p) && cfg.casePreserving && cid in p.alloc.entries
    ensures r.Success? ==> PoolWellformed(cfg, r.value.0) && r.value.1 in r.value.0.alloc.entries
  {
    var dv := NameShard.MakeValue(cfg, CaseSensitive, name);
    var dk := dv.hash.shardIndex;
    if added || Equals(CaseSensitive, p.alloc.entries[cid].name, name) then
      ValidIdsBelowLimit(cfg, p.alloc, cid);
      var ds :- NameShard.InsertExistingEntry(cfg, CaseSensitive, p.displayShards[dk], p.alloc.entries, dv.hash, cid);
      Success((p.(displayShards := p.displayShards[dk := ds]), cid))
    else
      var (ds, alloc', did, _) :- NameShard.Insert(cfg, CaseSensitive, p.displayShards[dk], p.alloc,
                                                   dv.(comparisonId := Some(cid)));
      AllWellformedMonotone(p.comparisonShards, p.alloc.entries, alloc'.entries);
      AllWellformedMonotone(p.displayShards, p.alloc.entries, alloc'.entries);
      Success((Pool(alloc', p.comparisonShards, p.displayShards[dk := ds]), did))
  }

  /** Every id a valid allocator has written fits the slot's id field. */
  lemma ValidIdsBelowLimit(cfg: Config, a: Allocator, id: nat)
    requires Valid(cfg, a) && id in a.entries
    ensures id < EntryIdLimit
  {
  }

  /** The constructor: an empty pool with "None" stored first. */
  function NewPool(cfg: Config): Result<(Pool, nat), Fatal> {
    Store(cfg, Empty(cfg), NoneName)
  }
}
