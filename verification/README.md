# Unreal name pool, modelled in Dafny

This project models the name-interning pool of Unreal's `UnrealNames.cpp` as
pure Dafny functions over immutable values, and proves what the pool promises
its callers. Locks are dropped; one `Pool` value stands for the global
`FNamePool`.

- **Entry ids** (`EntryIds`): an `FNameEntryHandle` is a 13-bit block index
  and a 16-bit offset, packed into one id.
- **Slots** (`Slots`): an `FNameSlot` is the id in the low 29 bits and a
  probe-hash fragment in the high bits. A zero word is an unused slot.
- **Hashing** (`NameHashing`): `FNameHash` derives the shard index, probe
  start, slot probe hash and entry header from a 64-bit hash. The ANSI string
  "None" in any casing gets an extra probe-hash bit, so its slot is never zero.
  `CityHash64` is a parameter of the model (`Config.cityHash`), and so is
  `WITH_CASE_PRESERVING_NAME` (`Config.casePreserving`).
- **Entry allocator** (`EntryAllocator`): a bump allocator over blocks of
  `Stride * 2^16` bytes. Entries are an abstract map from id to
  `(header, name, comparison id)`.
- **Shards** (`NameShard`, `ShardInvariant`): an open-addressing table with
  linear probing.
  - `Find`, `Insert`, `InsertExistingEntry` and `ClaimSlot` work on it.
  - `Grow` doubles the table once 90% of it is used.
  - `Probe` is a recursive function, and `ProbeLoop` and `GrowLoop` are the
    loop versions of `Probe` and `Grow`.
- **The pool** (`NamePool`, `PoolInvariant`, `StoreProperties`,
  `NewPoolProperties`):
  - `Store`, `Find` and `BatchStore` route a name through the case-insensitive
    comparison shards and, with case preservation on, the case-sensitive
    display shards.
  - The constructor stores "None" first.
  - `PoolInv` is the invariant all of this keeps.
- **Number suffixes** (`NumberSuffix`): `ParseNumber`, `Atoi64`, `strtoll`,
  `NumberEqualsString` and `StringAndNumberEqualsString`.
- **Lexical order** (`LexicalOrder`): `CompareDifferentIdsAlphabetically`,
  `FNameEntryId::CompareLexical` and `FName::Compare`.
  - When only one name is wide, the narrow one is widened as
    `ConvertInPlace<ANSICHAR, WIDECHAR>` does, by assigning each `char` to a
    wide character.
  - Whether `char` is signed depends on the platform, so it is a parameter
    (`signedChar`). Where it is signed, a byte of 0x80 or more becomes
    `0xFF00` plus the byte.
  - Every name has one widened, lower-cased key. The comparison orders names
    as their keys order, across widths and for either signedness.
- **Batch codec** (`NameBatch`): `FSerializedNameHeader`, `LoadNameHeader`,
  `SaveNameBatch` and `LoadNameBatch`, over byte sequences.

Error handling:
- A `check()` that depends on runtime state becomes a `Failure(Fatal)`
  result. Examples are running out of blocks and a slot word of zero.
- A `check()` that states a caller's duty becomes a `requires`. An example is
  a header length within `NAME_SIZE`.
- Batch input that would make the source read out of bounds becomes
  `Failure(MalformedBatch)`.

Two details of the shards:
- A shard grows when `UsedSlots * 10 >= 9 * Capacity`, that is at 90% load,
  not only when the load exceeds 90%.
- Growing rehashes every slot's entry name (`Rehash` resolves the entry,
  lines 811-816). It does not move slot words without looking at entries.

Constants that come from headers which are not part of this model:
- `Stride` and `DataOffset` are 2 and 2 without case preservation, and 4 and
  6 with it.
- `NAME_SIZE` is 1024.
- `FNameEntryHeader::ProbeHashBits` is 5.

Saving is deterministic by construction, because `SaveNameBatch` is a
function. Lines 3067-3087 of the self-test expect exactly that.

## Model

All source paths are `Engine/Source/Runtime/Core/Private/UObject/UnrealNames.cpp`.

| member | source | states |
|---|---|---|
| Chars.Lower | Engine/Source/Runtime/Core/Private/UObject/UnrealNames.cpp:577-586 | lower-casing keeps width and length and lower-cases each code unit (ASCII only) |
| Chars.LowerIdempotent | Engine/Source/Runtime/Core/Private/UObject/UnrealNames.cpp:577-586 | lower-casing twice is lower-casing once |
| Chars.EqualsIsEquivalence | Engine/Source/Runtime/Core/Private/UObject/UnrealNames.cpp:136-158 | name equality is reflexive, symmetric and transitive under either case rule, and case-sensitive equality implies equality ignoring case |
| Chars.EqualsSameDimensions | Engine/Source/Runtime/Core/Private/UObject/UnrealNames.cpp:154-158 | equal names have the same width and length |
| Chars.EqualsLower | Engine/Source/Runtime/Core/Private/UObject/UnrealNames.cpp:136-150 | a name equals its lower-cased form ignoring case |
| CStrings.StrnicmpZero | Engine/Source/Runtime/Core/Private/UObject/UnrealNames.cpp:1643-1649 | over NUL-free strings, Strnicmp of n characters is 0 exactly when the second string has n characters and both agree on them ignoring case |
| CStrings.StrnicmpAntisymmetric | Engine/Source/Runtime/Core/Private/UObject/UnrealNames.cpp:1161-1166 | swapping Strnicmp's arguments negates its result |
| EntryIds.ToId | Engine/Source/Runtime/Core/Private/UObject/UnrealNames.cpp:196-199 | the id's low 16 bits are the offset and the bits above are the block |
| EntryIds.FromId | Engine/Source/Runtime/Core/Private/UObject/UnrealNames.cpp:191-194 | unpacking gives an in-range handle that packs back to the same id |
| EntryIds.PackUnpack | Engine/Source/Runtime/Core/Private/UObject/UnrealNames.cpp:175-202 | a handle with block below 2^13 and offset below 2^16 survives packing and unpacking, and its id is below 2^29 |
| EntryIds.IdNonzeroIffSet | Engine/Source/Runtime/Core/Private/UObject/UnrealNames.cpp:196-201 | the id is nonzero exactly when the handle's block or offset is nonzero |
| EntryIds.IdOrder | Engine/Source/Runtime/Core/Private/UObject/UnrealNames.cpp:191-199 | ids order handles by block, then by offset |
| Slots.MakeSlot | Engine/Source/Runtime/Core/Private/UObject/UnrealNames.cpp:244-261 | GetId and GetProbeHash of a built slot return its parts, and the slot is used unless both parts are zero |
| Slots.MakeSlotInjective | Engine/Source/Runtime/Core/Private/UObject/UnrealNames.cpp:250-259 | two slot words are equal exactly when their ids and probe hashes are |
| Slots.SlotDecomposes | Engine/Source/Runtime/Core/Private/UObject/UnrealNames.cpp:244-257 | every 32-bit slot word is rebuilt from its id and probe hash |
| NameHashing.FromHash | Engine/Source/Runtime/Core/Private/UObject/UnrealNames.cpp:494-521 | the shard index is in range, the probe hash sits in the high bits and is nonzero for "None", the header records the name's length and width, and the entry probe hash is 0 under case preservation |
| NameHashing.IsAnsiNoneIff | Engine/Source/Runtime/Core/Private/UObject/UnrealNames.cpp:533-554 | IsAnsiNone is 1 exactly for ANSI names equal to "none" ignoring case, and 0 for every wide name |
| NameHashing.IsAnsiNoneIgnoresCase | Engine/Source/Runtime/Core/Private/UObject/UnrealNames.cpp:2233-2240 | IsAnsiNone gives the same answer for a name and its lower-cased form |
| NameHashing.NoneSlotIsUsed | Engine/Source/Runtime/Core/Private/UObject/UnrealNames.cpp:500-510 | the slot word for id 0 and any hash of "None" reads as used |
| NameHashing.EqualNamesHashEqual | Engine/Source/Runtime/Core/Private/UObject/UnrealNames.cpp:588-600 | names equal under a case rule hash alike under that rule |
| NameHashing.LowerCaseHashAgrees | Engine/Source/Runtime/Core/Private/UObject/UnrealNames.cpp:565-586 | splitting the saved lower-case hash gives the comparison hash of the name |
| NameHashing.CasePreservingHeadersAgree | Engine/Source/Runtime/Core/Private/UObject/UnrealNames.cpp:511-520 | with case preservation on, a name's comparison and display entry headers agree |
| EntryAllocator.AlignToStride | Engine/Source/Runtime/Core/Private/UObject/UnrealNames.cpp:310 | the aligned size is the least stride multiple at or above the request |
| EntryAllocator.AllocateNewBlock | Engine/Source/Runtime/Core/Private/UObject/UnrealNames.cpp:415-438 | a new block fails exactly when the block limit is reached; otherwise the cursor restarts at 0 in the next block and the entries are kept |
| EntryAllocator.StrideSteps | Engine/Source/Runtime/Core/Private/UObject/UnrealNames.cpp:322-326 | an allocation inside a block starts at an offset below 2^16 and moves the cursor forward on a stride boundary |
| EntryAllocator.Allocate | Engine/Source/Runtime/Core/Private/UObject/UnrealNames.cpp:307-329 | allocation fails exactly when the aligned size exceeds a block, or the current block is full and no block is left; otherwise it returns a valid handle past every earlier entry |
| EntryAllocator.Create | Engine/Source/Runtime/Core/Private/UObject/UnrealNames.cpp:331-353 | a created entry gets a fresh id, at or past the allocator's frontier and below 2^29, holding the given name and header, and comparison id itself unless one is given |
| Probing.PosInjective | Engine/Source/Runtime/Core/Private/UObject/UnrealNames.cpp:801 | the k-th probe position differs for different k below the capacity |
| Probing.NextPos | Engine/Source/Runtime/Core/Private/UObject/UnrealNames.cpp:801 | stepping to the next slot, wrapping at the capacity, is the next probe position |
| Probing.CountClaim | Engine/Source/Runtime/Core/Private/UObject/UnrealNames.cpp:744-746 | writing a used word into an unused slot raises the used count by one |
| Probing.UsedValuesClaim | Engine/Source/Runtime/Core/Private/UObject/UnrealNames.cpp:744 | writing a used word into an unused slot adds exactly that word to the used words |
| NameShard.MakeValue | Engine/Source/Runtime/Core/Private/UObject/UnrealNames.cpp:602-618 | a value carries its name, no comparison id, and a probe hash that fits a slot |
| NameShard.NewShard | Engine/Source/Runtime/Core/Private/UObject/UnrealNames.cpp:634-642 | a new shard has 256 unused slots and zero counters |
| NameShard.NewShardWellformed | Engine/Source/Runtime/Core/Private/UObject/UnrealNames.cpp:456-458 | a new shard meets the shard invariant: power-of-two capacity, accurate used count, load below 90% |
| NameShard.WellformedHasFree | Engine/Source/Runtime/Core/Private/UObject/UnrealNames.cpp:666 | a shard below the load limit has a free slot, so probing ends |
| NameShard.ProbeSteps | Engine/Source/Runtime/Core/Private/UObject/UnrealNames.cpp:796-809 | probing from step k returns the first step on the path whose slot is free or matches |
| NameShard.Probe | Engine/Source/Runtime/Core/Private/UObject/UnrealNames.cpp:788-809 | the probe returns a slot that is free or matches, and every slot before it on the path from the probe start does neither |
| NameShard.ProbeLoop | Engine/Source/Runtime/Core/Private/UObject/UnrealNames.cpp:796-809 | the probe loop returns the slot the recursive probe definition does |
| NameShard.Find | Engine/Source/Runtime/Core/Private/UObject/UnrealNames.cpp:688-693 | a nonzero id found is an entry equal to the value under the shard's case rule |
| NameShard.Reinsert | Engine/Source/Runtime/Core/Private/UObject/UnrealNames.cpp:771-781 | re-inserting the old slots keeps the table size and adds exactly their used words and count |
| NameShard.Grow | Engine/Source/Runtime/Core/Private/UObject/UnrealNames.cpp:758-786 | growing gives the new capacity and keeps the used count (which line 783 asserts), the set of used words and the counters |
| NameShard.GrowLoop | Engine/Source/Runtime/Core/Private/UObject/UnrealNames.cpp:758-786 | the growth loop builds the slots the functional Grow does |
| NameShard.ClaimSlot | Engine/Source/Runtime/Core/Private/UObject/UnrealNames.cpp:742-751 | claiming adds the word and one to the used count, writes in place below 90% load, and doubles the capacity exactly when the load reaches 90% |
| NameShard.Insert | Engine/Source/Runtime/Core/Private/UObject/UnrealNames.cpp:695-715 | a hit returns the existing id and changes nothing; a miss creates a fresh entry, adds its slot word, and raises the used and created counts by one and the wide count for wide names |
| NameShard.InsertExistingEntry | Engine/Source/Runtime/Core/Private/UObject/UnrealNames.cpp:717-728 | it fails only for id 0 with a zero probe hash, and otherwise adds exactly the existing id's slot word |
| ShardInvariant.NewShardInv | Engine/Source/Runtime/Core/Private/UObject/UnrealNames.cpp:634-642 | a new shard meets the lookup invariant |
| ShardInvariant.ProbeStopsBy | Engine/Source/Runtime/Core/Private/UObject/UnrealNames.cpp:796-809 | a probe reaching a stopping slot along used slots stops there or earlier on a hit |
| ShardInvariant.HitIffEqual | Engine/Source/Runtime/Core/Private/UObject/UnrealNames.cpp:789-793 | a used slot passes the probe's test exactly when its entry's name equals the value's name under the case rule |
| ShardInvariant.ProbeFindsEqual | Engine/Source/Runtime/Core/Private/UObject/UnrealNames.cpp:788-809 | the probe for a name returns the slot holding an equal name when there is one |
| ShardInvariant.ProbeMissesAbsent | Engine/Source/Runtime/Core/Private/UObject/UnrealNames.cpp:788-809 | the probe for a name the shard does not hold ends on a free slot |
| ShardInvariant.FindCorrect | Engine/Source/Runtime/Core/Private/UObject/UnrealNames.cpp:688-693 | Find returns the holder's id when an equal name is held, and 0 when none is |
| ShardInvariant.ReinsertConsistent | Engine/Source/Runtime/Core/Private/UObject/UnrealNames.cpp:771-781 | re-inserting keeps slot words distinct and each reachable from its probe start |
| ShardInvariant.GrowConsistent | Engine/Source/Runtime/Core/Private/UObject/UnrealNames.cpp:753-786 | after growth every held name is still found by probing |
| ShardInvariant.ClaimSlotInv | Engine/Source/Runtime/Core/Private/UObject/UnrealNames.cpp:742-751 | claiming a free slot on the new word's probe path keeps the lookup invariant, growth included |
| ShardInvariant.InsertHit | Engine/Source/Runtime/Core/Private/UObject/UnrealNames.cpp:699-704 | when the probe ends on a used slot, Insert returns its id unchanged, and that id is the one holder of the name |
| ShardInvariant.InsertMiss | Engine/Source/Runtime/Core/Private/UObject/UnrealNames.cpp:706-714 | when the probe ends on a free slot, the shard holds no equal name, and Insert creates an entry for the name whose slot the shard then holds |
| ShardInvariant.InsertCorrect | Engine/Source/Runtime/Core/Private/UObject/UnrealNames.cpp:695-715 | Insert returns an id whose name equals the value's, creating one exactly when no equal name was held, and returns the existing holder otherwise |
| ShardInvariant.InsertKeepsInv | Engine/Source/Runtime/Core/Private/UObject/UnrealNames.cpp:695-715 | Insert keeps the lookup invariant and leaves the returned id held |
| ShardInvariant.InsertExistingCorrect | Engine/Source/Runtime/Core/Private/UObject/UnrealNames.cpp:717-728 | InsertExistingEntry keeps the invariant, leaves the id held, and changes nothing when its word is already there |
| ShardInvariant.InsertFindsHeld | Engine/Source/Runtime/Core/Private/UObject/UnrealNames.cpp:699-704 | inserting a held name returns its holder and changes nothing |
| NamePool.Empty | Engine/Source/Runtime/Core/Private/UObject/UnrealNames.cpp:867-879 | the pool before registration is well formed and has no entries |
| NamePool.InsertComparison | Engine/Source/Runtime/Core/Private/UObject/UnrealNames.cpp:958-960 | inserting a comparison value keeps the pool well formed, returns an entry id, and leaves the display shards alone |
| NamePool.BatchStore | Engine/Source/Runtime/Core/Private/UObject/UnrealNames.cpp:990-994 | a batch store keeps the pool well formed, returns an entry id, and leaves the display shards alone |
| NamePool.FindComparison | Engine/Source/Runtime/Core/Private/UObject/UnrealNames.cpp:941-942 | a nonzero id found in the comparison shards names an entry equal to the name ignoring case |
| NamePool.FindDisplay | Engine/Source/Runtime/Core/Private/UObject/UnrealNames.cpp:933-938 | a nonzero id found in the display shards names an entry with exactly that spelling |
| NamePool.Find | Engine/Source/Runtime/Core/Private/UObject/UnrealNames.cpp:931-943 | a nonzero id found names an entry equal to the name ignoring case |
| NamePool.Store | Engine/Source/Runtime/Core/Private/UObject/UnrealNames.cpp:945-977 | a store keeps the pool well formed and returns an entry id |
| NamePool.StoreDisplay | Engine/Source/Runtime/Core/Private/UObject/UnrealNames.cpp:962-973 | the display half of Store keeps the pool well formed and returns an entry id |
| NamePool.ValidIdsBelowLimit | Engine/Source/Runtime/Core/Private/UObject/UnrealNames.cpp:244-245 | every allocated id fits the 29 id bits of a slot |
| PoolInvariant.InsertComparisonCorrect | Engine/Source/Runtime/Core/Private/UObject/UnrealNames.cpp:956-960 | the comparison insert returns the one comparison entry of the names equal to this one ignoring case, created exactly when there was none, and changes nothing when it was there |
| PoolInvariant.InsertComparisonKeepsInv | Engine/Source/Runtime/Core/Private/UObject/UnrealNames.cpp:956-960 | the comparison insert keeps the pool invariant and only adds to the pool |
| PoolInvariant.InsertComparisonCases | Engine/Source/Runtime/Core/Private/UObject/UnrealNames.cpp:956-960 | the comparison insert's result and the invariant together, for either branch |
| PoolInvariant.HeldIsSelf | Engine/Source/Runtime/Core/Private/UObject/UnrealNames.cpp:337-339 | an entry held in the comparison shards is its own comparison entry |
| PoolInvariant.UniqueComparisonHolder | Engine/Source/Runtime/Core/Private/UObject/UnrealNames.cpp:958-960 | two held comparison entries with names equal ignoring case are the same entry |
| PoolInvariant.NoneHeld | Engine/Source/Runtime/Core/Private/UObject/UnrealNames.cpp:881-884 | under the invariant, entry 0 ("None") is held in the comparison shards |
| StoreProperties.StoreCorrect | Engine/Source/Runtime/Core/Private/UObject/UnrealNames.cpp:945-977 | Store keeps the invariant, only adds, and returns an entry equal to the name ignoring case; under case preservation the entry has exactly the name's spelling and is held in the display shards |
| StoreProperties.StoreHitCase | Engine/Source/Runtime/Core/Private/UObject/UnrealNames.cpp:947-953 | a spelling the display shards already hold returns that id and changes nothing |
| StoreProperties.StoreDisplayCorrect | Engine/Source/Runtime/Core/Private/UObject/UnrealNames.cpp:962-973 | after the comparison insert, the display half gives Store's promise |
| StoreProperties.DisplayHolder | Engine/Source/Runtime/Core/Private/UObject/UnrealNames.cpp:962-967 | a display slot for the spelling can only be the comparison entry's, and only when it has that spelling |
| StoreProperties.StoreExistingCase | Engine/Source/Runtime/Core/Private/UObject/UnrealNames.cpp:963-967 | when the comparison entry is new or has the same spelling, its id becomes the display id |
| StoreProperties.StoreNewDisplayCase | Engine/Source/Runtime/Core/Private/UObject/UnrealNames.cpp:969-973 | a new spelling gets its own display entry, which records the comparison id |
| StoreProperties.NewDisplayEntryOk | Engine/Source/Runtime/Core/Private/UObject/UnrealNames.cpp:969-973 | the new display entry's comparison id names an equal, held comparison entry |
| StoreProperties.FindComparisonHeld | Engine/Source/Runtime/Core/Private/UObject/UnrealNames.cpp:941-942 | looking up a name equal to a held comparison entry returns that entry |
| StoreProperties.FindDisplayHeld | Engine/Source/Runtime/Core/Private/UObject/UnrealNames.cpp:933-938 | looking up a spelling held in the display shards returns its entry |
| StoreProperties.FindAfterStore | Engine/Source/Runtime/Core/Private/UObject/UnrealNames.cpp:931-977 | after Store returns an id, Find of the same name returns that id |
| StoreProperties.InsertComparisonHeld | Engine/Source/Runtime/Core/Private/UObject/UnrealNames.cpp:990-994 | inserting the comparison value of a held name returns its entry and changes nothing |
| StoreProperties.StoreIdempotent | Engine/Source/Runtime/Core/Private/UObject/UnrealNames.cpp:945-977 | storing the same name again returns the same id and leaves the pool unchanged |
| StoreProperties.StoreAgainNone | Engine/Source/Runtime/Core/Private/UObject/UnrealNames.cpp:962-967 | storing "None" again under case preservation returns 0 and changes nothing |
| StoreProperties.StoreDisplayHeld | Engine/Source/Runtime/Core/Private/UObject/UnrealNames.cpp:963-967 | the display half for an id already held under its spelling changes nothing |
| StoreProperties.ExistingSlotKept | Engine/Source/Runtime/Core/Private/UObject/UnrealNames.cpp:717-728 | InsertExistingEntry finding the same slot word leaves the shard unchanged |
| StoreProperties.ComparisonIdsAgree | Engine/Source/Runtime/Core/Private/UObject/UnrealNames.cpp:337-339 | two entries share a comparison id exactly when their names are equal ignoring case |
| NewPoolProperties.FirstInsert | Engine/Source/Runtime/Core/Private/UObject/UnrealNames.cpp:695-715 | the first value inserted into a fresh shard and allocator gets id 0 and is held |
| NewPoolProperties.NoneNameFacts | Engine/Source/Runtime/Core/Private/UObject/UnrealNames.cpp:500-503 | "None" fits a block, and its slot word for id 0 is used under either case rule |
| NewPoolProperties.NoneComparison | Engine/Source/Runtime/Core/Private/UObject/UnrealNames.cpp:881-884 | storing "None" in the empty pool creates entry 0 holding it, and the pool then keeps the invariant |
| NewPoolProperties.NoneInserted | Engine/Source/Runtime/Core/Private/UObject/UnrealNames.cpp:881-884 | the comparison insert of "None" into the empty pool creates entry 0 and changes only its own shard |
| NewPoolProperties.NoneComparisonInv | Engine/Source/Runtime/Core/Private/UObject/UnrealNames.cpp:867-884 | the pool holding only "None" as entry 0 keeps the invariant |
| NewPoolProperties.NewPoolCorrect | Engine/Source/Runtime/Core/Private/UObject/UnrealNames.cpp:867-884 | the constructor stores "None" as id 0 and leaves a pool that keeps the invariant and holds that one entry |
| NewPoolProperties.NoneDisplay | Engine/Source/Runtime/Core/Private/UObject/UnrealNames.cpp:962-967 | with case preservation on, "None" gets its display slot under id 0 |
| NumberSuffix.Atoi64 | Engine/Source/Runtime/Core/Private/UObject/UnrealNames.cpp:1728-1739 | the loop computes the decimal value of the digit string |
| NumberSuffix.TrailingDigits | Engine/Source/Runtime/Core/Private/UObject/UnrealNames.cpp:1759-1764 | the count is the length of the longest all-digit tail of the string |
| NumberSuffix.CountTrailingDigits | Engine/Source/Runtime/Core/Private/UObject/UnrealNames.cpp:1759-1764 | the backward loop counts the longest all-digit tail |
| NumberSuffix.ParseNumber | Engine/Source/Runtime/Core/Private/UObject/UnrealNames.cpp:1756-1785 | no number exactly when the length is unchanged; a number found is at most MAX_int32 and follows an underscore |
| NumberSuffix.DecimalValue | Engine/Source/Runtime/Core/Private/UObject/UnrealNames.cpp:1733-1736 | reading the decimal form of n gives n |
| NumberSuffix.DigitsAreDecimal | Engine/Source/Runtime/Core/Private/UObject/UnrealNames.cpp:1770-1773 | a digit string without a leading zero, or a single digit, is the decimal form of its value |
| NumberSuffix.ParseNameString | Engine/Source/Runtime/Core/Private/UObject/UnrealNames.cpp:1756-1785 | a name followed by "_" and a number below MAX_int32 splits back into that name and number |
| NumberSuffix.SplitIsNameString | Engine/Source/Runtime/Core/Private/UObject/UnrealNames.cpp:1766-1779 | whenever ParseNumber splits, the string is the kept name plus "_" plus the number's decimal form |
| NumberSuffix.ParseSplitsZeroSuffix | Engine/Source/Runtime/Core/Private/UObject/UnrealNames.cpp:2304 | a name with the suffix "_0" splits into the name and number 0 |
| NumberSuffix.ParseKeepsLeadingZero | Engine/Source/Runtime/Core/Private/UObject/UnrealNames.cpp:1770-1773 | a suffix of two or more digits starting with 0 stays in the name |
| NumberSuffix.ParseKeepsLargeNumbers | Engine/Source/Runtime/Core/Private/UObject/UnrealNames.cpp:1775-1780 | a suffix whose value is MAX_int32 or more stays in the name |
| NumberSuffix.ParseNumberLargestExample | Engine/Source/Runtime/Core/Private/UObject/UnrealNames.cpp:2321 | "Used_2147483646" splits off the largest number |
| NumberSuffix.ParseNumberLimitExample | Engine/Source/Runtime/Core/Private/UObject/UnrealNames.cpp:2322 | "Used_2147483647" is not split |
| NumberSuffix.Strtoi64 | Engine/Source/Runtime/Core/Private/UObject/UnrealNames.cpp:1639-1640 | the end index is within the string, no digits reads 0 with the end at the start, and the value saturates to the int64 range |
| NumberSuffix.Strtoi64Digits | Engine/Source/Runtime/Core/Private/UObject/UnrealNames.cpp:1639-1640 | strtoll reads a nonempty digit string in range as its value and stops at its end |
| NumberSuffix.LowerEqualsWithSuffix | Engine/Source/Runtime/Core/Private/UObject/UnrealNames.cpp:1646-1657 | comparing ignoring case against a name plus a digits-and-underscore tail compares the name part ignoring case and the tail exactly |
| NumberSuffix.StringAndNumberEqualsStringExactlyIff | Engine/Source/Runtime/Core/Private/UObject/UnrealNames.cpp:1643-1658 | the corrected comparison accepts a string exactly when it equals the name's string form ignoring case |
| NumberSuffix.NumberEqualsStringAcceptsOtherForms | Engine/Source/Runtime/Core/Private/UObject/UnrealNames.cpp:1636-1641 | the code as written accepts "abc_", "abc_00" and "abc_01", which are not the string form of name "abc" with number 0 or 1 |
| NumberSuffix.SuffixAccepted | Engine/Source/Runtime/Core/Private/UObject/UnrealNames.cpp:1643-1658 | as written, any digit tail that strtoll reads as the number is accepted |
| NumberSuffix.StringFormAccepted | Engine/Source/Runtime/Core/Private/UObject/UnrealNames.cpp:1643-1658 | both comparisons accept the name's own string form |
| NumberSuffix.RejectsNumber | Engine/Source/Runtime/Core/Private/UObject/UnrealNames.cpp:1656-1657 | a digit tail whose value is a different number is rejected |
| NumberSuffix.StringAndNumberAcceptExamples | Engine/Source/Runtime/Core/Private/UObject/UnrealNames.cpp:2383-2394 | "abc" with number 10 equals "abc_10", and "abc" without number equals "abc" |
| NumberSuffix.StringAndNumberRejectsNumber | Engine/Source/Runtime/Core/Private/UObject/UnrealNames.cpp:2388 | "abc" with number 10 differs from "abc_11" |
| NumberSuffix.StringAndNumberRejectsLongerNumber | Engine/Source/Runtime/Core/Private/UObject/UnrealNames.cpp:2389 | "abc" with number 10 differs from "abc_100" |
| NumberSuffix.StringAndNumberRejectsName | Engine/Source/Runtime/Core/Private/UObject/UnrealNames.cpp:2387 | "abc" with number 10 differs from "aba_10" |
| NumberSuffix.StringWithoutNumberRejectExamples | Engine/Source/Runtime/Core/Private/UObject/UnrealNames.cpp:2395-2398 | without a number, "ab" differs from "abc", and "abc" differs from "abcd", "abc_0" and "abc_" |
| LexicalOrder.CompareUnitsOrder | Engine/Source/Runtime/Core/Private/UObject/UnrealNames.cpp:1161-1168 | the sign of Strnicmp over the common length, then the length difference, is the reference order on lower-cased strings |
| LexicalOrder.WidenKeepsOrder | Engine/Source/Runtime/Core/Private/UObject/UnrealNames.cpp:80-88 | widening bytes, with or without sign extension, keeps the order of byte sequences |
| LexicalOrder.CompareViewsOrder | Engine/Source/Runtime/Core/Private/UObject/UnrealNames.cpp:1137-1169 | the sign of the comparison is the reference order on the two names' widened, lower-cased code units, for every combination of widths; a narrow name is widened only against a wide one |
| LexicalOrder.CompareViewsZero | Engine/Source/Runtime/Core/Private/UObject/UnrealNames.cpp:1137-1169 | the comparison is 0 exactly when the widened names agree ignoring case; for names of one width, exactly when the pool's Equals ignoring case holds |
| LexicalOrder.CompareViewsAntisymmetric | Engine/Source/Runtime/Core/Private/UObject/UnrealNames.cpp:1137-1169 | swapping the names negates the sign of the comparison |
| LexicalOrder.CompareViewsTransitive | Engine/Source/Runtime/Core/Private/UObject/UnrealNames.cpp:1137-1169 | the comparison orders transitively |
| LexicalOrder.EqualNamesCompareZero | Engine/Source/Runtime/Core/Private/UObject/UnrealNames.cpp:1137-1169 | names equal ignoring case compare as 0 |
| LexicalOrder.WidthIgnoredExample | Engine/Source/Runtime/Core/Private/UObject/UnrealNames.cpp:1146-1159 | ANSI "abc" and wide "abc" compare as 0 although the pool treats them as different names |
| LexicalOrder.HighByteExample | Engine/Source/Runtime/Core/Private/UObject/UnrealNames.cpp:80-88 | with signed `char`, narrow 0xE9 equals wide 0xFFE9 and orders after wide 0x100; with unsigned `char` it orders before 0x100 |
| LexicalOrder.PrefixOrdersFirst | Engine/Source/Runtime/Core/Private/UObject/UnrealNames.cpp:1161-1168 | a name whose widened units are a proper prefix of another's orders before it |
| LexicalOrder.DifferAt | Engine/Source/Runtime/Core/Private/UObject/UnrealNames.cpp:1161-1166 | names whose widened units agree on the first k are ordered by the units at k, ignoring case |
| LexicalOrder.FooNamesSorted | Engine/Source/Runtime/Core/Private/UObject/UnrealNames.cpp:2400-2417 | FooA, FooAB, FooABC, FooABCD, FooB, FooC and the wide Foo name are in strictly increasing order, whether `char` is signed or not |
| LexicalOrder.CompareLexicalAsWrittenNeverNegative | Engine/Source/Runtime/Core/Private/UObject/UnrealNames.cpp:1171-1174 | as written the result is only ever 0 or 1, and two entries with different strings each compare greater than the other |
| LexicalOrder.CompareLexicalAsWrittenExample | Engine/Source/Runtime/Core/Private/UObject/UnrealNames.cpp:1171-1174 | as written, "FooA" and "FooB" each compare as greater than the other |
| LexicalOrder.CompareLexicalOrder | Engine/Source/Runtime/Core/Private/UObject/UnrealNames.cpp:1171-1174 | the corrected comparison is antisymmetric, 0 exactly for the same id or widened strings equal ignoring case, and otherwise follows the order on widened, lower-cased strings |
| LexicalOrder.CompareNamesOrder | Engine/Source/Runtime/Core/Private/UObject/UnrealNames.cpp:1978-1988 | FName::Compare is antisymmetric, and 0 exactly for equal names or different comparison entries with widened strings equal ignoring case |
| NameBatch.MakeHeader | Engine/Source/Runtime/Core/Private/UObject/UnrealNames.cpp:2711-2718 | a header built from a length up to NAME_SIZE and a flag reads back that length and flag |
| NameBatch.HeaderFromFields | Engine/Source/Runtime/Core/Private/UObject/UnrealNames.cpp:2709-2731 | a header whose length is up to NAME_SIZE is rebuilt from its length and flag |
| NameBatch.HeaderLen | Engine/Source/Runtime/Core/Private/UObject/UnrealNames.cpp:2725-2728 | a header's length is below 0x8000 |
| NameBatch.ReadLeBytes | Engine/Source/Runtime/Core/Private/UObject/UnrealNames.cpp:2801 | reading back n little-endian bytes of a value below 256^n gives the value |
| NameBatch.ReadLe64Inverse | Engine/Source/Runtime/Core/Private/UObject/UnrealNames.cpp:2801 | a 64-bit word written in Intel order reads back as itself |
| NameBatch.ReadHashBytes | Engine/Source/Runtime/Core/Private/UObject/UnrealNames.cpp:2898-2900 | the hash words written one after another read back as the same list |
| NameBatch.ReadWideBytes | Engine/Source/Runtime/Core/Private/UObject/UnrealNames.cpp:2762-2776 | UTF-16LE bytes of code units read back as those code units |
| NameBatch.SaveName | Engine/Source/Runtime/Core/Private/UObject/UnrealNames.cpp:2780-2793 | saving a name only appends to the buffer, at least its two header bytes |
| NameBatch.SaveNames | Engine/Source/Runtime/Core/Private/UObject/UnrealNames.cpp:2805-2814 | saving names only appends, and appends nothing exactly when there are no names |
| NameBatch.Resolve | Engine/Source/Runtime/Core/Private/UObject/UnrealNames.cpp:2807 | each saved name is the name of the id at the same position |
| NameBatch.SaveNameBatch | Engine/Source/Runtime/Core/Private/UObject/UnrealNames.cpp:2795-2815 | the hash data is one word for the algorithm id plus one per name, and the name data has at least a header per name |
| NameBatch.SaveEmptyBatch | Engine/Source/Runtime/Core/Private/UObject/UnrealNames.cpp:3014-3018 | an empty list saves no name data and only the algorithm id |
| NameBatch.LoadNameHeader | Engine/Source/Runtime/Core/Private/UObject/UnrealNames.cpp:2733-2750 | a header read gives a name of the header's length and width, and moves past 2 + length bytes for ANSI and 2 + padding to even + 2 * length for UTF-16 |
| NameBatch.LoadWithHashes | Engine/Source/Runtime/Core/Private/UObject/UnrealNames.cpp:2906-2914 | the hashed path keeps the pool well formed and returns one id per stored hash |
| NameBatch.LoadWithoutHashes | Engine/Source/Runtime/Core/Private/UObject/UnrealNames.cpp:2915-2921 | the re-hashing path keeps the pool well formed |
| NameBatch.LoadNameBatch | Engine/Source/Runtime/Core/Private/UObject/UnrealNames.cpp:2888-2928 | loading keeps the pool well formed and, when the algorithm id matches, returns one id per stored hash |
| NameBatch.LoadSavedName | Engine/Source/Runtime/Core/Private/UObject/UnrealNames.cpp:2733-2793 | reading a header where a name was saved gives back that name and the offset just past it, whatever follows |
| NameBatch.LoadSavedAnsiName | Engine/Source/Runtime/Core/Private/UObject/UnrealNames.cpp:2745-2760 | the ANSI half of the name round trip |
| NameBatch.LoadSavedWideName | Engine/Source/Runtime/Core/Private/UObject/UnrealNames.cpp:2739-2744 | the UTF-16 half of the name round trip, padding included |
| NameBatch.SavedNamesFront | Engine/Source/Runtime/Core/Private/UObject/UnrealNames.cpp:2805-2814 | the first name of saved names reads back first |
| NameBatch.HeldStoresAsHeld | Engine/Source/Runtime/Core/Private/UObject/UnrealNames.cpp:2842-2849 | storing the comparison value of each saved name returns its id and leaves the pool unchanged |
| NameBatch.StoreWithLowerHash | Engine/Source/Runtime/Core/Private/UObject/UnrealNames.cpp:2858-2865 | storing a name with its saved lower-case hash does what storing it with a fresh hash does |
| NameBatch.LoadWithoutHashesStep | Engine/Source/Runtime/Core/Private/UObject/UnrealNames.cpp:2917-2921 | one step of the re-hashing loop puts the name's id in front of the rest |
| NameBatch.LoadWithHashesStep | Engine/Source/Runtime/Core/Private/UObject/UnrealNames.cpp:2908-2913 | one step of the hashed loop puts the name's id in front of the rest |
| NameBatch.LoadWithoutHashesSaved | Engine/Source/Runtime/Core/Private/UObject/UnrealNames.cpp:2915-2921 | the re-hashing path reads saved names back as their ids, ends at the end of the data, and leaves the pool unchanged |
| NameBatch.LoadWithHashesSaved | Engine/Source/Runtime/Core/Private/UObject/UnrealNames.cpp:2906-2914 | the hashed path reads saved names with their saved hashes back as their ids, ends at the end of the data, and leaves the pool unchanged |
| NameBatch.HashDataWords | Engine/Source/Runtime/Core/Private/UObject/UnrealNames.cpp:2898-2900 | the hash data splits back into its version word and the hash list |
| NameBatch.LoadSavedBatch | Engine/Source/Runtime/Core/Private/UObject/UnrealNames.cpp:3054-3059 | loading a saved batch of held ids returns the same ids, consumes all the name data, and leaves the pool unchanged |
| NameBatch.LoadSavedBatchOtherAlgorithm | Engine/Source/Runtime/Core/Private/UObject/UnrealNames.cpp:3061-3065 | with any other algorithm id in the hash data, loading saved names still returns the same ids |
| NameBatch.EditedAlgorithmDiffers | Engine/Source/Runtime/Core/Private/UObject/UnrealNames.cpp:3062-3063 | overwriting the first two hash bytes with 0xBA 0xAD changes the algorithm id |

## Left out

- Locks, `BatchLock`/`BatchUnlock`, the lazy singleton and `TearDown`: these concern concurrency and process lifetime. One pool value is threaded through instead.
- `CityHash64` is a parameter (`Config.cityHash`). `FCrc` is not used by the modelled code.
- `FNamePool::Reserve`, `FNamePoolShard::Reserve` and `ReserveNameBatch`: capacity hints only, with no effect on results.
- The hard-coded `EName` table beyond "None", `Find(EName)` and `FindEName`: the table comes from `UnrealNames.inl`, which is not part of this model.
- `ReplaceName`, `DebugDump`, `LogStats`, the churn tracker, console variables and the debug visualizer: these are unsafe in-place edits or diagnostics.
- `Encode`/`Decode`, page protection and `FMemory`: they are platform-dependent or not shown. Memory is not modelled; entries are an abstract id map.
- Lower-casing and character classes beyond ASCII: `TChar` for wide characters is not part of this model, so only A-Z are folded.
- Embedded NUL characters in names: comparisons that use C string routines require NUL-free names (`NulFree`).
- UTF-16 surrogate combining (`PLATFORM_TCHAR_IS_4_BYTES`), big-endian platforms, and `sizeof(UTF16CHAR) != sizeof(WIDECHAR)`: a little-endian target with two-byte wide characters is assumed.
- The `checkfSlow` in `BatchLoadNameWithHash` that the stored hash equals a fresh one: the model uses the stored hash. `StoreWithLowerHash` shows that for saved data it is the fresh one.
- LoadNameBatch: a header length beyond `NAME_SIZE` and reads past the end of either buffer are undefined in the source. The model returns `Failure(MalformedBatch)` for them.
- `FNameEntrySerialized` archive serialization and `FName` construction, `ToString` and `NameToDisplayString`: I/O-bound or locale-dependent, and outside the pool core.
- Two narrow names are compared by `FCStringAnsi::Strnicmp` over their byte values, as the C library's `strnicmp` does. `FCStringAnsi` is not part of this model.
- LexicalOrder.CompareNamesOrder: the number difference in `FName::Compare` is computed as `uint32` and returned as `int32`. Its wrap-around is not modelled; numbers are compared as unbounded integers.
- NumberSuffix.StringAndNumberEqualsStringExactlyIff: `EqualsString`'s special case for an empty or null string (lines 1886-1889) is not modelled. Only the `StringAndNumberEqualsString` part is.
- NameHashing.FromHash: `LowercaseProbeHash` is `Hi >> ShardBits` masked to `ProbeHashBits`. `ProbeHashBits` (5) comes from `NameTypes.h`, which is not part of this model.
- Constants from headers that are not part of this model: `Stride`, `DataOffset`, `NAME_SIZE` and `ProbeHashBits` take the values given above.

## Findings

| source | as written | input that shows it | evidently intended | confidence | as-written member | corrected member |
|---|---|---|---|---|---|---|
| Engine/Source/Runtime/Core/Private/UObject/UnrealNames.cpp:1171-1174 | `Value != Rhs.Value && CompareDifferentIdsAlphabetically(...)` is a logical and, so the `int32` result is the bool 0 or 1 | entries "FooA" and "FooB": each compares as 1, greater than the other | `Value != Rhs.Value ? CompareDifferentIdsAlphabetically(...) : 0`, the signed alphabetical comparison | high, not executed | LexicalOrder.CompareLexicalAsWrittenExample | LexicalOrder.CompareLexicalOrder |
| Engine/Source/Runtime/Core/Private/UObject/UnrealNames.cpp:1636-1658 | the number part is compared with `strtoll`, which accepts an empty digit string as 0 and leading zeros | name "abc" with number 0 equals "abc_" and "abc_00"; with number 1 it equals "abc_01", although `FName("abc_01")` keeps the suffix in its name | a name and number equal a string exactly when the string is the name's string form ignoring case, the inverse of ParseNumber | medium, not executed | NumberSuffix.NumberEqualsStringAcceptsOtherForms | NumberSuffix.StringAndNumberEqualsStringExactlyIff |

The sort test at lines 2400-2417 does not catch the first finding. It sorts
with `FNameLexicalLess`, whose definition is not part of this model and
evidently does not go through `CompareLexical`. `LexicalOrder.FooNamesSorted`
states the order that test expects.
