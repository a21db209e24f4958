/** FNameEntryHandle: an entry id is a 32-bit word holding a 13-bit block index
    above a 16-bit offset. Shifts and masks are written as multiplication,
    division and remainder by powers of two over unbounded integers. */
module EntryIds {

  type U32 = x: int | 0 <= x < 0x1_0000_0000

  const BlockBits: nat := 13
  const BlockOffsetBits: nat := 16
  /** FNameMaxBlocks = 1 << FNameMaxBlockBits */
  const MaxBlocks: nat := 0x2000
  /** FNameBlockOffsets = 1 << FNameBlockOffsetBits */
  const BlockOffsets: nat := 0x1_0000

  /** An unpacked FNameEntryId. */
  datatype Handle = Handle(block: U32, offset: U32)

  /** A handle the allocator can hand out: the block index fits 13 bits and
      the offset 16 bits. */
  predicate ValidHandle(h: Handle) {
    h.block < MaxBlocks && h.offset < BlockOffsets
  }

  /** `Block << FNameBlockOffsetBits | Offset` on 32 bits: the shift drops the
      block's bits above bit 15, and the offset fills the low 16 bits. */
  function ToId(h: Handle): (id: U32)
    requires h.offset < BlockOffsets
    ensures id % BlockOffsets == h.offset
    ensures id / BlockOffsets == h.block % 0x1_0000
  {
    (h.block % 0x1_0000) * BlockOffsets + h.offset
  }

  /** FNameEntryHandle(FNameEntryId): `Id >> 16` and `Id & 0xFFFF`. */
  function FromId(id: U32): (h: Handle)
    ensures h.offset < BlockOffsets && h.block < 0x1_0000
    ensures ToId(h) == id
  {
    Handle(id / BlockOffsets, id % BlockOffsets)
  }

  /** `explicit operator bool`: `Block | Offset` is nonzero. */
  predicate IsSet(h: Handle) {
    h.block != 0 || h.offset != 0
  }

  /** Packing a valid handle and unpacking it returns the same block and
      offset, and the id fits in FNameSlot::EntryIdBits = 29 bits. */
  lemma PackUnpack(h: Handle)
    requires ValidHandle(h)
    ensures FromId(ToId(h)) == h
    ensures ToId(h) < 0x2000_0000
  {
  }

  /** The id is nonzero exactly when the handle is set. */
  lemma IdNonzeroIffSet(h: Handle)
    requires ValidHandle(h)
    ensures ToId(h) != 0 <==> IsSet(h)
  {
  }

  /** Ids order like handles compared block first, then offset. */
  lemma IdOrder(h1: Handle, h2: Handle)
    requires ValidHandle(h1) && ValidHandle(h2)
    ensures ToId(h1) < ToId(h2) <==>
      h1.block < h2.block || (h1.block == h2.block && h1.offset < h2.offset)
  {
  }
}
