/** Name batches: SaveNameBatch writes the strings of a list of entries into
    one byte buffer, each behind a two-byte header, and their lower-case
    hashes into a second buffer behind the hash algorithm id; LoadNameBatch
    reads both back and stores every name in the comparison shards. */
module NameBatch {
  import opened Wrappers
  import opened Chars
  import opened Slots
  import opened NameHashing
  import opened EntryAllocator
  import NameShard
  import opened NamePool
  import opened PoolInvariant
  import opened StoreProperties

  /** NAME_SIZE: the longest name plus its terminator. */
  const NameSize: nat := 1024

  // ---------------------------------------------------------------------
  // FSerializedNameHeader

  /** Two bytes: the UTF-16 flag in the top bit of the first, then the
      length in the other fifteen bits, high byte first. */
  datatype SerializedHeader = SerializedHeader(hi: Byte, lo: Byte)

  /** IsUtf16: the top bit of the first byte. */
  predicate IsUtf16(h: SerializedHeader) {
    h.hi >= 0x80
  }

  /** Len: the low seven bits of the first byte, then the second byte. */
  function HeaderLen(h: SerializedHeader): (len: nat)
    ensures len < 0x8000
  {
    (h.hi % 0x80) * 0x100 + h.lo
  }

  /** The header constructor, for lengths up to NAME_SIZE; reading it back
      gives the same length and flag. */
  function MakeHeader(len: nat, utf16: bool): (h: SerializedHeader)
    requires len <= NameSize
    ensures HeaderLen(h) == len && IsUtf16(h) == utf16
  {
    SerializedHeader((if utf16 then 0x80 else 0) + len / 0x100, len % 0x100)
  }

  /** Conversely, a header is determined by its length and flag. */
  lemma HeaderFromFields(h: SerializedHeader)
    requires HeaderLen(h) <= NameSize
    ensures MakeHeader(HeaderLen(h), IsUtf16(h)) == h
  {
  }

  // ---------------------------------------------------------------------
  // Little-endian hash words (INTEL_ORDER64)

  function Pow256(n: nat): (p: nat)
    ensures p >= 1
  {
    if n == 0 then 1 else 0x100 * Pow256(n - 1)
  }

  /** The n low bytes of x, least significant first. */
  function LeBytes(x: nat, n: nat): (b: seq<Byte>)
    ensures |b| == n
  {
    if n == 0 then [] else [x % 0x100] + LeBytes(x / 0x100, n - 1)
  }

  /** The number whose little-endian bytes these are. */
  function ReadLe(b: seq<Byte>): (x: nat)
    ensures x < Pow256(|b|)
  {
    if |b| == 0 then 0 else b[0] + 0x100 * ReadLe(b[1..])
  }

  /** Writing n bytes and reading them back returns any number below 256^n. */
  lemma {:induction false} ReadLeBytes(x: nat, n: nat)
    requires x < Pow256(n)
    ensures ReadLe(LeBytes(x, n)) == x
  {
    if n > 0 {
      assert LeBytes(x, n)[1..] == LeBytes(x / 0x100, n - 1);
      ReadLeBytes(x / 0x100, n - 1);
    }
  }

  lemma Pow256Eight()
    ensures Pow256(8) == 0x1_0000_0000_0000_0000
  {
  }

  function Le64(x: U64): (b: seq<Byte>)
    ensures |b| == 8
  {
    LeBytes(x, 8)
  }

  function ReadLe64(b: seq<Byte>): (x: U64)
    requires |b| == 8
  {
    Pow256Eight();
    ReadLe(b)
  }

  lemma ReadLe64Inverse(x: U64)
    ensures ReadLe64(Le64(x)) == x
  {
    Pow256Eight();
    ReadLeBytes(x, 8);
  }

  /** A sequence of hash words, eight bytes each. */
  function HashBytes(hashes: seq<U64>): (b: seq<Byte>)
    ensures |b| == 8 * |hashes|
  {
    if hashes == [] then [] else Le64(hashes[0]) + HashBytes(hashes[1..])
  }

  function ReadHashes(b: seq<Byte>): (hashes: seq<U64>)
    requires |b| % 8 == 0
    ensures |hashes| == |b| / 8
  {
    if |b| == 0 then [] else [ReadLe64(b[..8])] + ReadHashes(b[8..])
  }

  /** Reading hash words back returns the words written. */
  lemma {:induction false} ReadHashBytes(hashes: seq<U64>)
    ensures ReadHashes(HashBytes(hashes)) == hashes
  {
    if hashes != [] {
      var b := HashBytes(hashes);
      assert b[..8] == Le64(hashes[0]) && b[8..] == HashBytes(hashes[1..]);
      ReadLe64Inverse(hashes[0]);
      ReadHashBytes(hashes[1..]);
    }
  }

  // ---------------------------------------------------------------------
  // Saving

  function Zeros(n: nat): (z: seq<Byte>)
    ensures |z| == n
  {
    seq(n, _ => 0)
  }

  /** GetRequiredUtf16Padding: one byte when the offset is odd. Buffers start
      eight-byte aligned, so an offset's parity is its address's. */
  function Utf16Padding(offset: nat): nat {
    offset % 2
  }

  /** The UTF-16 code units of little-endian byte pairs. */
  function ReadUtf16(b: seq<Byte>): (w: seq<CodeUnit>)
    requires |b| % 2 == 0
    ensures |w| == |b| / 2
  {
    if |b| == 0 then [] else [b[0] as int + 0x100 * b[1] as int] + ReadUtf16(b[2..])
  }

  /** Reading the bytes of wide code units back returns the code units. */
  lemma {:induction false} ReadWideBytes(w: seq<CodeUnit>)
    ensures ReadUtf16(WideBytes(w)) == w
  {
    if w != [] {
      assert WideBytes(w)[2..] == WideBytes(w[1..]);
      ReadWideBytes(w[1..]);
    }
  }

  /** SaveAnsiOrUtf16Name: append the header, then either the narrow
      characters or, after a pad byte when the offset is odd, the code units
      as UTF-16LE. */
  function SaveName(out: seq<Byte>, v: NameView): (r: seq<Byte>)
    requires Len(v) <= NameSize
    ensures |r| >= |out| + 2 && r[..|out|] == out
  {
    var h := MakeHeader(Len(v), v.Wide?);
    var withHeader := out + [h.hi, h.lo];
    if v.Wide? then withHeader + Zeros(Utf16Padding(|withHeader|)) + Bytes(v)
    else withHeader + Bytes(v)
  }

  /** Every name fits a header. */
  predicate Saveable(names: seq<NameView>) {
    forall i :: 0 <= i < |names| ==> Len(names[i]) <= NameSize
  }

  /** The names saved one after another behind `out`. */
  function SaveNames(out: seq<Byte>, names: seq<NameView>): (r: seq<Byte>)
    requires Saveable(names)
    ensures |r| >= |out| && r[..|out|] == out
    ensures names == [] <==> |r| == |out|
    decreases |names|
  {
    if names == [] then out
    else
      var o := SaveName(out, names[0]);
      var r := SaveNames(o, names[1..]);
      assert r[..|out|] == r[..|o|][..|out|];
      r
  }

  /** Resolve: the name of each id. */
  function Resolve(entries: map<nat, Entry>, ids: seq<nat>): (names: seq<NameView>)
    requires forall i :: 0 <= i < |ids| ==> ids[i] in entries
    ensures |names| == |ids|
    ensures forall i :: 0 <= i < |ids| ==> names[i] == entries[ids[i]].name
  {
    seq(|ids|, i requires 0 <= i < |ids| => entries[ids[i]].name)
  }

  /** The lower-case hash of each name, as SaveNameBatch records it. */
  function LowerHashes(cfg: Config, names: seq<NameView>): (hashes: seq<U64>)
    ensures |hashes| == |names|
  {
    if names == [] then [] else [GenerateLowerCaseHash(cfg, names[0])] + LowerHashes(cfg, names[1..])
  }

  /** SaveNameBatch: the name data, and the hash data holding the algorithm id
      followed by one hash per name. */
  function SaveNameBatch(cfg: Config, entries: map<nat, Entry>, ids: seq<nat>): (r: (seq<Byte>, seq<Byte>))
    requires forall i :: 0 <= i < |ids| ==> ids[i] in entries
    requires Saveable(Resolve(entries, ids))
    ensures |r.1| == 8 * (1 + |ids|)
    ensures |r.0| >= 2 * |ids|
  {
    var names := Resolve(entries, ids);
    SavedLength([], names);
    (SaveNames([], names), Le64(AlgorithmId) + HashBytes(LowerHashes(cfg, names)))
  }

  lemma {:induction false} SavedLength(out: seq<Byte>, names: seq<NameView>)
    requires Saveable(names)
    ensures |SaveNames(out, names)| >= |out| + 2 * |names|
    decreases |names|
  {
    if names != [] {
      SavedLength(SaveName(out, names[0]), names[1..]);
    }
  }

  /** An empty list saves no name data and only the algorithm id. */
  lemma SaveEmptyBatch(cfg: Config, entries: map<nat, Entry>)
    ensures SaveNameBatch(cfg, entries, []) == ([], Le64(AlgorithmId))
  {
    assert Resolve(entries, []) == [];
    assert LowerHashes(cfg, []) == [];
    assert HashBytes([]) == [];
    assert Le64(AlgorithmId) + [] == Le64(AlgorithmId);
  }

  // ---------------------------------------------------------------------
  // Loading

  /** LoadNameHeader: read a header at `pos` and the name behind it, and
      return the name with the offset just past it. Reads past the end of the
      buffer and lengths beyond NAME_SIZE are malformed. */
  function LoadNameHeader(data: seq<Byte>, pos: nat): (r: Result<(NameView, nat), Fatal>)
    ensures r.Success? ==> pos + 2 <= r.value.1 <= |data|
    ensures r.Success? ==>
      var (v, next) := r.value;
      var h := SerializedHeader(data[pos], data[pos + 1]);
      && Len(v) == HeaderLen(h) <= NameSize && v.Wide? == IsUtf16(h)
      && next == (if v.Wide? then pos + 2 + Utf16Padding(pos + 2) + 2 * Len(v) else pos + 2 + Len(v))
  {
    if pos + 2 > |data| then Failure(MalformedBatch)
    else
      var h := SerializedHeader(data[pos], data[pos + 1]);
      var len := HeaderLen(h);
      var start := pos + 2;
      if len > NameSize then Failure(MalformedBatch)
      else if IsUtf16(h) then
        var s := start + Utf16Padding(start);
        if s + 2 * len > |data| then Failure(MalformedBatch)
        else Success((Wide(ReadUtf16(data[s..s + 2 * len])), s + 2 * len))
      else if start + len > |data| then Failure(MalformedBatch)
      else Success((Ansi(data[start..start + len]), start + len))
  }

  /** The hashed path: one name per stored hash, each stored with the
      comparison hash built from its stored hash. The loader checks that a
      name is left before reading it. */
  function LoadWithHashes(cfg: Config, p: Pool, data: seq<Byte>, pos: nat, hashes: seq<U64>)
    : (r: Result<(Pool, seq<nat>, nat), Fatal>)
    requires PoolWellformed(cfg, p)
    ensures r.Success? ==> PoolWellformed(cfg, r.value.0) && |r.value.1| == |hashes|
    decreases |hashes|
  {
    if hashes == [] then Success((p, [], pos))
    else if pos >= |data| then Failure(MalformedBatch)
    else
      var (v, next) :- LoadNameHeader(data, pos);
      var (p1, id) :- BatchStore(cfg, p, NameShard.Value(v, FromHash(cfg, v, hashes[0]), None));
      var (p2, ids, end) :- LoadWithHashes(cfg, p1, data, next, hashes[1..]);
      Success((p2, [id] + ids, end))
  }

  /** The path for another hash algorithm: names are read until the data
      ends, each hashed again. */
  function LoadWithoutHashes(cfg: Config, p: Pool, data: seq<Byte>, pos: nat)
    : (r: Result<(Pool, seq<nat>, nat), Fatal>)
    requires PoolWellformed(cfg, p)
    ensures r.Success? ==> PoolWellformed(cfg, r.value.0)
    decreases |data| - pos
  {
    if pos >= |data| then Success((p, [], pos))
    else
      var (v, next) :- LoadNameHeader(data, pos);
      var (p1, id) :- BatchStore(cfg, p, NameShard.MakeValue(cfg, IgnoreCase, v));
      var (p2, ids, end) :- LoadWithoutHashes(cfg, p1, data, next);
      Success((p2, [id] + ids, end))
  }

  /** LoadNameBatch: the hash data must be a nonempty whole number of hash
      words; the first is the algorithm id, which picks the path; every name
      byte must be consumed. */
  function LoadNameBatch(cfg: Config, p: Pool, nameData: seq<Byte>, hashData: seq<Byte>)
    : (r: Result<(Pool, seq<nat>), Fatal>)
    requires PoolWellformed(cfg, p)
    ensures r.Success? ==> PoolWellformed(cfg, r.value.0)
    ensures r.Success? && |hashData| >= 8 && ReadLe64(hashData[..8]) == AlgorithmId ==> |r.value.1| == |hashData| / 8 - 1
  {
    if |hashData| == 0 || |hashData| % 8 != 0 then Failure(MalformedBatch)
    else
      var version := ReadLe64(hashData[..8]);
      var (p', ids, end) :-
        if version == AlgorithmId then LoadWithHashes(cfg, p, nameData, 0, ReadHashes(hashData[8..]))
        else LoadWithoutHashes(cfg, p, nameData, 0);
      if end != |nameData| then Failure(MalformedBatch) else Success((p', ids))
  }

  // ---------------------------------------------------------------------
  // Round trips

  /** A saved name is read back from where it was written, whatever follows it. */
  lemma LoadSavedName(out: seq<Byte>, v: NameView, rest: seq<Byte>)
    requires Len(v) <= NameSize
    ensures LoadNameHeader(SaveName(out, v) + rest, |out|) == Success((v, |SaveName(out, v)|))
  {
    match v
    case Ansi(a) => LoadSavedAnsiName(out, a, rest);
    case Wide(w) => LoadSavedWideName(out, w, rest);
  }

  lemma LoadSavedAnsiName(out: seq<Byte>, a: seq<Byte>, rest: seq<Byte>)
    requires |a| <= NameSize
    ensures LoadNameHeader(SaveName(out, Ansi(a)) + rest, |out|) == Success((Ansi(a), |SaveName(out, Ansi(a))|))
  {
    var data := SaveName(out, Ansi(a)) + rest;
    var start := |out| + 2;
    var h := MakeHeader(|a|, false);
    assert data[|out|] == h.hi && data[|out| + 1] == h.lo;
    assert data[start..start + |a|] == a;
  }

  lemma LoadSavedWideName(out: seq<Byte>, w: seq<CodeUnit>, rest: seq<Byte>)
    requires |w| <= NameSize
    ensures LoadNameHeader(SaveName(out, Wide(w)) + rest, |out|) == Success((Wide(w), |SaveName(out, Wide(w))|))
  {
    var h := MakeHeader(|w|, true);
    var withHeader := out + [h.hi, h.lo];
    var body := WideBytes(w);
    var s := |withHeader| + Utf16Padding(|withHeader|);
    var data := withHeader + Zeros(Utf16Padding(|withHeader|)) + body + rest;
    assert SaveName(out, Wide(w)) + rest == data;
    assert data[|out|] == h.hi && data[|out| + 1] == h.lo;
    assert data[s..s + |body|] == body;
    ReadWideBytes(w);
  }

  /** The names saved behind `out` are read back starting at the end of `out`. */
  lemma SavedNamesFront(out: seq<Byte>, names: seq<NameView>)
    requires Saveable(names) && names != []
    ensures var data := SaveNames(out, names);
      LoadNameHeader(data, |out|) == Success((names[0], |SaveName(out, names[0])|))
  {
    var o := SaveName(out, names[0]);
    var data := SaveNames(o, names[1..]);
    assert data == o + data[|o|..];
    LoadSavedName(out, names[0], data[|o|..]);
  }

  /** Each id is held in the comparison shards under a name equal to the
      saved one ignoring case. */
  ghost predicate HeldFor(cfg: Config, p: Pool, ids: seq<nat>, names: seq<NameView>) {
    && |ids| == |names|
    && forall i :: 0 <= i < |ids| ==>
         HeldInComparison(cfg, p, ids[i]) && Equals(IgnoreCase, p.alloc.entries[ids[i]].name, names[i])
  }

  /** One step of the unhashed loop, when the name read is held: the pool
      stays as it is and the held id is prepended. */
  lemma LoadWithoutHashesStep(cfg: Config, p: Pool, data: seq<Byte>, pos: nat, next: nat, end: nat,
                              names: seq<NameView>, ids: seq<nat>)
    requires PoolWellformed(cfg, p) && pos < |data| && names != [] && |ids| == |names|
    requires BatchStore(cfg, p, NameShard.MakeValue(cfg, IgnoreCase, names[0])) == Success((p, ids[0]))
    requires LoadNameHeader(data, pos) == Success((names[0], next))
    requires LoadWithoutHashes(cfg, p, data, next) == Success((p, ids[1..], end))
    ensures LoadWithoutHashes(cfg, p, data, pos) == Success((p, ids, end))
  {
    assert [ids[0]] + ids[1..] == ids;
  }

  /** Storing each name's comparison value finds the matching id and leaves
      the pool as it is. */
  ghost predicate StoresAsHeld(cfg: Config, p: Pool, names: seq<NameView>, ids: seq<nat>)
    requires PoolWellformed(cfg, p)
  {
    && |names| == |ids|
    && forall i :: 0 <= i < |ids| ==>
         BatchStore(cfg, p, NameShard.MakeValue(cfg, IgnoreCase, names[i])) == Success((p, ids[i]))
  }

  lemma HeldStoresAsHeld(cfg: Config, p: Pool, ids: seq<nat>, names: seq<NameView>)
    requires PoolWellformed(cfg, p) && ShardsInv(cfg, IgnoreCase, p.comparisonShards, p.alloc.entries)
    requires HeldFor(cfg, p, ids, names)
    ensures StoresAsHeld(cfg, p, names, ids)
  {
    forall i | 0 <= i < |ids|
      ensures BatchStore(cfg, p, NameShard.MakeValue(cfg, IgnoreCase, names[i])) == Success((p, ids[i]))
    {
      InsertComparisonHeld(cfg, p, ids[i], names[i]);
    }
  }

  lemma StoresAsHeldSplit(cfg: Config, p: Pool, names: seq<NameView>, ids: seq<nat>)
    requires PoolWellformed(cfg, p) && StoresAsHeld(cfg, p, names, ids) && ids != []
    ensures BatchStore(cfg, p, NameShard.MakeValue(cfg, IgnoreCase, names[0])) == Success((p, ids[0]))
    ensures StoresAsHeld(cfg, p, names[1..], ids[1..])
  {
    assert forall i :: 0 <= i < |ids| - 1 ==> ids[1..][i] == ids[i + 1] && names[1..][i] == names[i + 1];
  }

  /** One step of the hashed loop, when the name read is held and the next
      stored hash is its lower-case hash. */
  lemma LoadWithHashesStep(cfg: Config, p: Pool, data: seq<Byte>, pos: nat, next: nat, end: nat,
                           hashes: seq<U64>, names: seq<NameView>, ids: seq<nat>)
    requires PoolWellformed(cfg, p) && pos < |data| && names != [] && |ids| == |names| == |hashes|
    requires BatchStore(cfg, p, NameShard.Value(names[0], FromHash(cfg, names[0], hashes[0]), None)) == Success((p, ids[0]))
    requires LoadNameHeader(data, pos) == Success((names[0], next))
    requires LoadWithHashes(cfg, p, data, next, hashes[1..]) == Success((p, ids[1..], end))
    ensures LoadWithHashes(cfg, p, data, pos, hashes) == Success((p, ids, end))
  {
    assert [ids[0]] + ids[1..] == ids;
  }

  /** A value carrying the stored lower-case hash is the comparison value
      Store would build, so it finds the same id. */
  lemma StoreWithLowerHash(cfg: Config, p: Pool, v: NameView, hash: U64, id: nat)
    requires PoolWellformed(cfg, p) && hash == GenerateLowerCaseHash(cfg, v)
    requires BatchStore(cfg, p, NameShard.MakeValue(cfg, IgnoreCase, v)) == Success((p, id))
    ensures BatchStore(cfg, p, NameShard.Value(v, FromHash(cfg, v, hash), None)) == Success((p, id))
  {
    LowerCaseHashAgrees(cfg, v);
    assert NameShard.Value(v, FromHash(cfg, v, hash), None) == NameShard.MakeValue(cfg, IgnoreCase, v);
  }

  lemma {:induction false} LoadWithoutHashesSaved(cfg: Config, p: Pool, out: seq<Byte>, names: seq<NameView>, ids: seq<nat>)
    requires PoolWellformed(cfg, p) && Saveable(names) && StoresAsHeld(cfg, p, names, ids)
    ensures var data := SaveNames(out, names);
      LoadWithoutHashes(cfg, p, data, |out|) == Success((p, ids, |data|))
    decreases |names|
  {
    var data := SaveNames(out, names);
    if names != [] {
      var o := SaveName(out, names[0]);
      SavedNamesFront(out, names);
      StoresAsHeldSplit(cfg, p, names, ids);
      LoadWithoutHashesSaved(cfg, p, o, names[1..], ids[1..]);
      LoadWithoutHashesStep(cfg, p, data, |out|, |o|, |data|, names, ids);
    }
  }

  lemma {:induction false} LoadWithHashesSaved(cfg: Config, p: Pool, out: seq<Byte>, names: seq<NameView>, ids: seq<nat>)
    requires PoolWellformed(cfg, p) && Saveable(names) && StoresAsHeld(cfg, p, names, ids)
    ensures var data := SaveNames(out, names);
      LoadWithHashes(cfg, p, data, |out|, LowerHashes(cfg, names)) == Success((p, ids, |data|))
    decreases |names|
  {
    var data := SaveNames(out, names);
    if names != [] {
      var o := SaveName(out, names[0]);
      SavedNamesFront(out, names);
      StoresAsHeldSplit(cfg, p, names, ids);
      LoadWithHashesSaved(cfg, p, o, names[1..], ids[1..]);
      var hashes := LowerHashes(cfg, names);
      assert hashes[0] == GenerateLowerCaseHash(cfg, names[0]) && hashes[1..] == LowerHashes(cfg, names[1..]);
      StoreWithLowerHash(cfg, p, names[0], hashes[0], ids[0]);
      LoadWithHashesStep(cfg, p, data, |out|, |o|, |data|, hashes, names, ids);
    }
  }

  /** A version word followed by a list of hashes reads back as the same
      word and list. */
  lemma HashDataWords(version: U64, hashes: seq<U64>)
    ensures var hashData := Le64(version) + HashBytes(hashes);
      && |hashData| >= 8 && |hashData| % 8 == 0
      && ReadLe64(hashData[..8]) == version
      && ReadHashes(hashData[8..]) == hashes
  {
    var hashData := Le64(version) + HashBytes(hashes);
    assert hashData[..8] == Le64(version);
    assert hashData[8..] == HashBytes(hashes);
    ReadLe64Inverse(version);
    ReadHashBytes(hashes);
  }

  /** Loading a batch saved from ids the pool holds returns the same ids and
      leaves the pool unchanged. */
  lemma LoadSavedBatch(cfg: Config, p: Pool, ids: seq<nat>)
    requires PoolWellformed(cfg, p) && ShardsInv(cfg, IgnoreCase, p.comparisonShards, p.alloc.entries)
    requires forall i :: 0 <= i < |ids| ==> ids[i] in p.alloc.entries && HeldInComparison(cfg, p, ids[i])
    requires Saveable(Resolve(p.alloc.entries, ids))
    ensures var (nameData, hashData) := SaveNameBatch(cfg, p.alloc.entries, ids);
      LoadNameBatch(cfg, p, nameData, hashData) == Success((p, ids))
  {
    var names := Resolve(p.alloc.entries, ids);
    var (nameData, hashData) := SaveNameBatch(cfg, p.alloc.entries, ids);
    HeldForOwnNames(cfg, p, ids);
    HeldStoresAsHeld(cfg, p, ids, names);
    HashDataWords(AlgorithmId, LowerHashes(cfg, names));
    LoadWithHashesSaved(cfg, p, [], names, ids);
    assert nameData == SaveNames([], names);
  }

  /** With another algorithm id in front of the hashes, the names are hashed
      again and the load returns the same ids, whatever the rest of the hash
      data holds. */
  lemma LoadSavedBatchOtherAlgorithm(cfg: Config, p: Pool, ids: seq<nat>, hashData: seq<Byte>)
    requires PoolWellformed(cfg, p) && ShardsInv(cfg, IgnoreCase, p.comparisonShards, p.alloc.entries)
    requires forall i :: 0 <= i < |ids| ==> ids[i] in p.alloc.entries && HeldInComparison(cfg, p, ids[i])
    requires Saveable(Resolve(p.alloc.entries, ids))
    requires |hashData| > 0 && |hashData| % 8 == 0 && ReadLe64(hashData[..8]) != AlgorithmId
    ensures LoadNameBatch(cfg, p, SaveNameBatch(cfg, p.alloc.entries, ids).0, hashData) == Success((p, ids))
  {
    var names := Resolve(p.alloc.entries, ids);
    HeldForOwnNames(cfg, p, ids);
    HeldStoresAsHeld(cfg, p, ids, names);
    LoadWithoutHashesSaved(cfg, p, [], names, ids);
  }

  lemma HeldForOwnNames(cfg: Config, p: Pool, ids: seq<nat>)
    requires forall i :: 0 <= i < |ids| ==> ids[i] in p.alloc.entries && HeldInComparison(cfg, p, ids[i])
    ensures HeldFor(cfg, p, ids, Resolve(p.alloc.entries, ids))
  {
    var names := Resolve(p.alloc.entries, ids);
    forall i | 0 <= i < |ids|
      ensures Equals(IgnoreCase, p.alloc.entries[ids[i]].name, names[i])
    {
      EqualsIsEquivalence(IgnoreCase, names[i], names[i], names[i]);
    }
  }

  /** The edit the source makes to the hash data, 0xBA 0xAD over the first two
      bytes, changes the algorithm id. */
  lemma EditedAlgorithmDiffers(hashData: seq<Byte>)
    requires |hashData| >= 8
    ensures ReadLe64(([0xBA, 0xAD] + hashData[2..])[..8]) != AlgorithmId
  {
    var b := ([0xBA, 0xAD] + hashData[2..])[..8];
    assert ReadLe(b) == 0xBA + 0x100 * (0xAD + 0x100 * ReadLe(b[2..]));
  }
}
