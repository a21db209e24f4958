/** FNameEntryAllocator: a bump allocator over blocks of Stride * 2^16 bytes.
    Block contents are abstracted as a map from entry id to the entry written
    there; an entry is never moved, rewritten or freed. */
module EntryAllocator {
  import opened Wrappers
  import opened Chars
  import opened EntryIds
  import opened NameHashing
  import Slots

  /** FNameEntry: its header, its characters and, with case preservation on,
      the id of its case-insensitive sibling (otherwise the entry's own id). */
  datatype Entry = Entry(header: EntryHeader, name: NameView, comparisonId: nat)

  /** CurrentBlock, CurrentByteCursor and the entries written so far. */
  datatype Allocator = Allocator(currentBlock: nat, cursor: nat, entries: map<nat, Entry>)

  /** alignof(FNameEntry): 4 when the entry carries a ComparisonId, else 2. */
  function Stride(cfg: Config): (s: nat)
    ensures s > 0
  {
    if cfg.casePreserving then 4 else 2
  }

  /** FNameEntry::GetDataOffset(): bytes in front of the characters. */
  function DataOffset(cfg: Config): nat {
    if cfg.casePreserving then 6 else 2
  }

  /** BlockSizeBytes = Stride * FNameBlockOffsets */
  function BlockSizeBytes(cfg: Config): (n: nat)
    ensures n == Stride(cfg) * BlockOffsets
  {
    if cfg.casePreserving then 4 * BlockOffsets else 2 * BlockOffsets
  }

  /** `bytes / Stride`: the number of whole strides in a byte count. */
  function Strides(cfg: Config, bytes: nat): nat {
    if cfg.casePreserving then bytes / 4 else bytes / 2
  }

  /** The byte count is a multiple of the stride. */
  predicate OnStride(cfg: Config, bytes: nat) {
    if cfg.casePreserving then bytes % 4 == 0 else bytes % 2 == 0
  }

  /** Align(Bytes, alignof(FNameEntry)): round up to a multiple of the stride. */
  function AlignToStride(cfg: Config, bytes: nat): (r: nat)
    ensures r >= bytes && OnStride(cfg, r) && r < bytes + Stride(cfg)
  {
    if cfg.casePreserving then (bytes + 3) / 4 * 4 else (bytes + 1) / 2 * 2
  }

  /** The first id the allocator has not handed out yet. */
  function Frontier(cfg: Config, a: Allocator): nat {
    a.currentBlock * BlockOffsets + Strides(cfg, a.cursor)
  }

  /** The allocator's invariant: the cursor lies on a stride boundary inside
      the current block, the block index is in range, and every written entry
      lies below the frontier. */
  ghost predicate Valid(cfg: Config, a: Allocator) {
    && a.currentBlock < MaxBlocks
    && a.cursor <= BlockSizeBytes(cfg)
    && OnStride(cfg, a.cursor)
    && forall id :: id in a.entries ==> id < Frontier(cfg, a)
  }

  /** The constructor: block 0 allocated, nothing written. */
  function Initial(): Allocator {
    Allocator(0, 0, map[])
  }

  lemma InitialValid(cfg: Config)
    ensures Valid(cfg, Initial())
  {
  }

  /** AllocateNewBlock: move to the next block with an empty cursor; running
      out of block indices is fatal. */
  function AllocateNewBlock(cfg: Config, a: Allocator): (r: Result<Allocator, Fatal>)
    requires Valid(cfg, a)
    ensures r.Failure? <==> a.currentBlock + 1 >= MaxBlocks
    ensures r.Success? ==> Valid(cfg, r.value) && r.value.entries == a.entries
    ensures r.Success? ==> r.value.currentBlock == a.currentBlock + 1 && r.value.cursor == 0
    ensures r.Success? ==> Frontier(cfg, r.value) >= Frontier(cfg, a)
  {
    if a.currentBlock + 1 >= MaxBlocks then Failure(BlockSpaceExhausted)
    else Success(Allocator(a.currentBlock + 1, 0, a.entries))
  }

  /** Hand out the bytes [cursor, cursor + size) of the current block: the
      handle's offset is cursor / Stride, and the frontier moves past it. */
  function Bump(cfg: Config, a: Allocator, size: nat): (r: (Allocator, Handle))
    requires Valid(cfg, a) && OnStride(cfg, size) && size > 0
    requires a.cursor + size <= BlockSizeBytes(cfg)
    ensures var (a', h) := r;
      && ValidHandle(h)
      && Valid(cfg, a')
      && a'.entries == a.entries && a'.currentBlock == a.currentBlock
      && h.block == a.currentBlock && h.offset == Strides(cfg, a.cursor)
      && a'.cursor == a.cursor + size
      && Frontier(cfg, a) <= ToId(h) < Frontier(cfg, a')
  {
    StrideSteps(cfg, a.cursor, size);
    (a.(cursor := a.cursor + size), Handle(a.currentBlock, Strides(cfg, a.cursor)))
  }

  /** The arithmetic of Bump. */
  lemma StrideSteps(cfg: Config, cursor: nat, size: nat)
    requires OnStride(cfg, cursor) && OnStride(cfg, size) && size > 0
    requires cursor + size <= BlockSizeBytes(cfg)
    ensures Strides(cfg, cursor) < BlockOffsets
    ensures OnStride(cfg, cursor + size)
    ensures Strides(cfg, cursor + size) > Strides(cfg, cursor)
    ensures Strides(cfg, cursor + size) <= BlockOffsets
  {
    if cfg.casePreserving {
      var c, z := cursor / 4, size / 4;
      assert cursor == 4 * c && size == 4 * z;
      assert (cursor + size) / 4 == c + z;
    } else {
      var c, z := cursor / 2, size / 2;
      assert cursor == 2 * c && size == 2 * z;
      assert (cursor + size) / 2 == c + z;
    }
  }

  /** Allocate: round the size up to the stride, open a new block when the rest
      of the current one is too small, and hand out the cursor position. */
  function Allocate(cfg: Config, a: Allocator, bytes: nat): (r: Result<(Allocator, Handle), Fatal>)
    requires Valid(cfg, a) && bytes > 0
    ensures r.Failure? <==>
      || AlignToStride(cfg, bytes) > BlockSizeBytes(cfg)
      || (BlockSizeBytes(cfg) - a.cursor < AlignToStride(cfg, bytes) && a.currentBlock + 1 >= MaxBlocks)
    ensures r.Success? ==>
      var (a', h) := r.value;
      && ValidHandle(h)
      && Valid(cfg, a')
      && a'.entries == a.entries
      && Frontier(cfg, a) <= ToId(h) < Frontier(cfg, a')
      // the allocation starts at the cursor, or at the start of the next block
      // when the current one has too little room left, and spans the aligned size
      && (h.block == a.currentBlock ==>
            h.offset == Strides(cfg, a.cursor) && a'.cursor == a.cursor + AlignToStride(cfg, bytes))
      && (h.block != a.currentBlock ==>
            h.block == a.currentBlock + 1 && h.offset == 0 && a'.cursor == AlignToStride(cfg, bytes))
    // with room left in the current block, the allocation starts at the frontier
    ensures AlignToStride(cfg, bytes) <= BlockSizeBytes(cfg) - a.cursor ==>
      r.Success? && ToId(r.value.1) == Frontier(cfg, a)
  {
    var size := AlignToStride(cfg, bytes);
    if size > BlockSizeBytes(cfg) then Failure(AllocationTooLarge)
    else if BlockSizeBytes(cfg) - a.cursor < size then
      var b :- AllocateNewBlock(cfg, a);
      Success(Bump(cfg, b, size))
    else
      Success(Bump(cfg, a, size))
  }

  /** The number of bytes an entry occupies before alignment. */
  function EntrySize(cfg: Config, name: NameView): (n: nat)
    ensures n > 0
  {
    DataOffset(cfg) + |Bytes(name)|
  }

  /** Create: allocate an entry for the name and write it. With case
      preservation on, the entry's comparison id is the given one or, when
      none is given, the entry's own id; otherwise it is the entry's own id. */
  function Create(cfg: Config, a: Allocator, name: NameView, comparisonId: Option<nat>, header: EntryHeader)
    : (r: Result<(Allocator, nat), Fatal>)
    requires Valid(cfg, a)
    ensures r.Failure? <==> Allocate(cfg, a, EntrySize(cfg, name)).Failure?
    ensures r.Success? ==>
      var (a', id) := r.value;
      && Valid(cfg, a')
      && id !in a.entries
      && id < Slots.EntryIdLimit
      && Frontier(cfg, a) <= id
      && a'.entries == a.entries[id := Entry(header, name, if cfg.casePreserving then comparisonId.GetOr(id) else id)]
    ensures AlignToStride(cfg, EntrySize(cfg, name)) <= BlockSizeBytes(cfg) - a.cursor ==>
      r.Success? && r.value.1 == Frontier(cfg, a)
  {
    var (b, h) :- Allocate(cfg, a, EntrySize(cfg, name));
    var id := ToId(h);
    PackUnpack(h);
    var entry := Entry(header, name, if cfg.casePreserving then comparisonId.GetOr(id) else id);
    Success((b.(entries := b.entries[id := entry]), id))
  }
}
