/** FNameSlot: one 32-bit hash-table cell. The low 29 bits hold an entry id,
    the high 3 bits a fragment of the name's hash; the all-zero word marks an
    unused cell. The `|` of two disjoint bit fields is written as `+`. */
module Slots {
  import opened EntryIds

  /** FNameSlot::EntryIdBits = FNameMaxBlockBits + FNameBlockOffsetBits */
  const EntryIdBits: nat := 29
  /** EntryIdMask + 1, i.e. 1 << EntryIdBits */
  const EntryIdLimit: nat := 0x2000_0000

  datatype Slot = Slot(idAndHash: U32)

  /** A default-constructed slot. */
  const UnusedSlot := Slot(0)

  /** `Used()`: the word is nonzero. */
  predicate Used(s: Slot) {
    s.idAndHash != 0
  }

  /** `GetId()`: `IdAndHash & EntryIdMask`. */
  function GetId(s: Slot): nat {
    s.idAndHash % EntryIdLimit
  }

  /** `GetProbeHash()`: `IdAndHash & ProbeHashMask`. */
  function GetProbeHash(s: Slot): nat {
    s.idAndHash - s.idAndHash % EntryIdLimit
  }

  /** A probe hash has no bits in the id field and fits 32 bits. */
  predicate IsProbeHash(h: nat) {
    h % EntryIdLimit == 0 && h < 0x1_0000_0000
  }

  /** FNameSlot(Value, ProbeHash): the constructor's check demands that the id
      has no probe-hash bits and the hash no id bits; the word is their union. */
  function MakeSlot(id: nat, probeHash: nat): (s: Slot)
    requires id < EntryIdLimit && IsProbeHash(probeHash)
    ensures GetId(s) == id && GetProbeHash(s) == probeHash
    ensures Used(s) <==> id != 0 || probeHash != 0
  {
    Slot(id + probeHash)
  }

  /** Two slots built from (id, hash) pairs are equal exactly when the pairs are. */
  lemma MakeSlotInjective(id1: nat, h1: nat, id2: nat, h2: nat)
    requires id1 < EntryIdLimit && IsProbeHash(h1)
    requires id2 < EntryIdLimit && IsProbeHash(h2)
    ensures MakeSlot(id1, h1) == MakeSlot(id2, h2) <==> id1 == id2 && h1 == h2
  {
  }

  /** Every word is the slot of its own id and probe hash. */
  lemma SlotDecomposes(s: Slot)
    ensures GetId(s) < EntryIdLimit && IsProbeHash(GetProbeHash(s))
    ensures MakeSlot(GetId(s), GetProbeHash(s)) == s
  {
  }
}
