/** FNameHash: a 64-bit string hash split into a shard index, a probe start,
    a slot probe hash and an entry probe header. */
module NameHashing {
  import opened Chars
  import opened Slots

  type U64 = x: int | 0 <= x < 0x1_0000_0000_0000_0000
  type U32 = x: int | 0 <= x < 0x1_0000_0000

  /** The build configuration and the 64-bit string hash. `casePreserving` is
      WITH_CASE_PRESERVING_NAME; `cityHash` stands for CityHash64, a foreign
      function the model leaves uninterpreted. */
  datatype Config = Config(casePreserving: bool, cityHash: seq<Byte> -> U64)

  /** FNamePoolShardBits */
  function ShardBits(cfg: Config): nat {
    if cfg.casePreserving then 10 else 4
  }

  /** FNamePoolShards = 1 << FNamePoolShardBits */
  function ShardCount(cfg: Config): (n: nat)
    ensures n > 0
  {
    if cfg.casePreserving then 0x400 else 0x10
  }

  /** FNameEntryHeader::ProbeHashBits (only present when case preservation is off) */
  const EntryProbeHashLimit: nat := 0x20

  /** FNameHash::AlgorithmId, the version tag written in front of batch hashes. */
  const AlgorithmId: U64 := 0xC164_0000

  /** FNameEntryHeader: width flag, a few lower-case hash bits and the length. */
  datatype EntryHeader = EntryHeader(isWide: bool, lowercaseProbeHash: nat, len: nat)

  datatype NameHash = NameHash(
    shardIndex: nat,
    unmaskedSlotIndex: U32,
    slotProbeHash: nat,
    entryProbeHeader: EntryHeader)

  /** One byte AND 0xDF: the bit that separates ASCII lower from upper case is cleared. */
  function ClearCaseBit(c: Byte): Byte {
    if (c / 0x20) % 2 == 1 then c - 0x20 else c
  }

  /** IsAnsiNone: 1 when the view is narrow, four characters long, and its four
      bytes with the case bit cleared read "NONE"; 0 otherwise (always 0 for
      wide views). The source compares the four bytes as one 32-bit word. */
  function IsAnsiNone(v: NameView): (r: nat)
    ensures r <= 1
  {
    match v
    case Wide(_) => 0
    case Ansi(a) =>
      if |a| != 4 then 0
      else if ClearCaseBit(a[0]) == 'N' as int && ClearCaseBit(a[1]) == 'O' as int
           && ClearCaseBit(a[2]) == 'N' as int && ClearCaseBit(a[3]) == 'E' as int
      then 1 else 0
  }

  /** The ANSI string "none". */
  const NoneLower: NameView := Ansi(['n' as int as Byte, 'o' as int as Byte, 'n' as int as Byte, 'e' as int as Byte])

  /** (Hi & ProbeHashMask) | IsNoneBit: keep the top three bits of Hi and force
      bit 29 for a "none" name. */
  function SlotProbeHashOf(hi: U32, isNone: nat): (h: nat)
    requires isNone <= 1
    ensures IsProbeHash(h)
    ensures isNone == 1 ==> h != 0
  {
    var top := hi / EntryIdLimit;
    (if isNone == 1 && top % 2 == 0 then top + 1 else top) * EntryIdLimit
  }

  /** FNameHash(Str, Len, Hash): splits a 64-bit hash of the view. The shard
      index is `Hi & (ShardCount - 1)`; without case preservation the entry
      header keeps `(Hi >> ShardBits) & 0x1F`, and ShardBits is then 4. The
      divisors are written as literals for each configuration. */
  function FromHash(cfg: Config, v: NameView, hash: U64): (h: NameHash)
    ensures h.shardIndex < ShardCount(cfg)
    ensures IsProbeHash(h.slotProbeHash)
    ensures IsAnsiNone(v) == 1 ==> h.slotProbeHash != 0
    ensures h.entryProbeHeader.len == Len(v) && h.entryProbeHeader.isWide == v.Wide?
    ensures h.entryProbeHeader.lowercaseProbeHash < EntryProbeHashLimit
    ensures cfg.casePreserving ==> h.entryProbeHeader.lowercaseProbeHash == 0
  {
    var hi: U32 := hash / 0x1_0000_0000;
    var lo: U32 := hash % 0x1_0000_0000;
    NameHash(
      if cfg.casePreserving then hi % 0x400 else hi % 0x10,
      lo,
      SlotProbeHashOf(hi, IsAnsiNone(v)),
      EntryHeader(
        v.Wide?,
        if cfg.casePreserving then 0 else (hi / 0x10) % 0x20,
        Len(v)))
  }

  /** GenerateHash: CityHash64 of the view's bytes. */
  function GenerateHash(cfg: Config, v: NameView): U64 {
    cfg.cityHash(Bytes(v))
  }

  /** GenerateLowerCaseHash: the hash of the lower-cased view. */
  function GenerateLowerCaseHash(cfg: Config, v: NameView): U64 {
    GenerateHash(cfg, Lower(v))
  }

  /** HashName<Sensitivity>: case-insensitive hashing splits the hash of the
      lower-case copy (HashLowerCase); case-sensitive hashing hashes the view. */
  function HashName(cfg: Config, sens: Case, v: NameView): NameHash {
    match sens
    case IgnoreCase => FromHash(cfg, Lower(v), GenerateHash(cfg, Lower(v)))
    case CaseSensitive => FromHash(cfg, v, GenerateHash(cfg, v))
  }

  /** IsAnsiNone is 1 exactly for narrow four-character views equal to "none"
      ignoring case, and 0 for every wide view. */
  lemma IsAnsiNoneIff(v: NameView)
    ensures IsAnsiNone(v) == 1 <==> v.Ansi? && Lower(v) == NoneLower
    ensures v.Wide? ==> IsAnsiNone(v) == 0
  {
    if v.Ansi? && |v.ansi| == 4 {
      var a := v.ansi;
      var l := Lower(v).ansi;
      if IsAnsiNone(v) == 1 {
        assert l == NoneLower.ansi;
      }
    } else if v.Ansi? {
      assert Len(Lower(v)) != 4;
    }
  }

  /** Lower-casing does not change IsAnsiNone, so the none bit is the same
      whether it is computed on a name or on its lower-case copy. */
  lemma IsAnsiNoneIgnoresCase(v: NameView)
    ensures IsAnsiNone(Lower(v)) == IsAnsiNone(v)
  {
    IsAnsiNoneIff(v);
    IsAnsiNoneIff(Lower(v));
    LowerIdempotent(v);
  }

  /** The slot built for a "none" name is used even when its entry id is 0,
      so id 0 never reads as an empty slot. */
  lemma NoneSlotIsUsed(cfg: Config, v: NameView, hash: U64)
    requires v.Ansi? && Lower(v) == NoneLower
    ensures Used(MakeSlot(0, FromHash(cfg, v, hash).slotProbeHash))
  {
    IsAnsiNoneIff(v);
  }

  /** No false negatives: names equal under a sensitivity hash identically
      under it. */
  lemma EqualNamesHashEqual(cfg: Config, sens: Case, a: NameView, b: NameView)
    requires Equals(sens, a, b)
    ensures HashName(cfg, sens, a) == HashName(cfg, sens, b)
  {
  }

  /** A precomputed lower-case hash split against the original casing gives
      the same FNameHash as hashing case-insensitively (the check made when a
      batch is loaded with stored hashes). */
  lemma LowerCaseHashAgrees(cfg: Config, v: NameView)
    ensures FromHash(cfg, v, GenerateLowerCaseHash(cfg, v)) == HashName(cfg, IgnoreCase, v)
  {
    IsAnsiNoneIgnoresCase(v);
  }

  /** With case preservation on, the entry header carries no hash bits, so both
      sensitivities produce the same header. */
  lemma CasePreservingHeadersAgree(cfg: Config, v: NameView)
    requires cfg.casePreserving
    ensures HashName(cfg, IgnoreCase, v).entryProbeHeader == HashName(cfg, CaseSensitive, v).entryProbeHeader
  {
  }
}
