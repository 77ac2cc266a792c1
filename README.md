# mclib world storage, block positions and item registry in Dafny

This project models three parts of the C++ Minecraft client library mclib and
proves properties of them:

- **Chunk sections** (`Chunk` in `Chunk.cpp`). A section holds 4096 block
  entries packed `bitsPerBlock` bits each into 64-bit words. An entry may
  straddle two words. Below 9 bits per block, an entry is an index into a
  palette of block-state ids.
  - `Load` parses a section from the network buffer. The layout depends on
    the protocol version: a 16-bit block count from 1.14.2 on, the width
    (raised to at least 4), the palette when the width is below 9, and the
    data words. After 1.15.2 it repacks the non-straddling wire layout into
    the straddling one. Up to 1.13.2 it skips the light arrays.
  - `GetBlock` and `SetBlock` do the shift and mask arithmetic on the words.
- **Chunk columns** (`ChunkColumn`). A column stacks 16 optional sections,
  which a section mask selects, and owns a map of block entities.
- **Packed block positions** (`Position`). x, y and z are packed into one
  64-bit value in one of two layouts, chosen by protocol version. Decoding
  sign-extends each field. `to_string` renders `(x, y, z)` in decimal.
- **Items** (`Item`, `ItemRegistry`). The registry has one map by id and one
  by name. An id lookup that misses retries with the id's 4 "meta" bits
  cleared.

## Files

| file | module | contents |
|---|---|---|
| `bits.dfy` | `Bits` | A `u64` as 64 bits, least significant first; the C++ shifts, `&`, `|`, `~`; their arithmetic meaning. |
| `packing.dfy` | `Packing` | The bit stream of a section's words; reading an entry (one word or two); the write of `SetBlock`, as written and fixed. |
| `repack.dfy` | `Repacking` | The repack loop of `Load`, as an imperative method over an array, and its specification. |
| `wire.dfy` | `Wire` | The network buffer as a cursor over already-decoded fields (`u8`, `u16`, VarInt, `u64`). |
| `chunk.dfy` | `Chunks` | The section state, `GetBlock`, `SetBlock`, `Load` and its wire round trip, and the copy operations. |
| `column.dfy` | `Columns` | `ChunkColumn`: construction, `GetBlock` with C++ division, block entities, decoding by section mask. |
| `position.dfy` | `Positions` | `Position`: both packed layouts, decoding with sign extension, both round trips, `to_string`. |
| `item.dfy` | `Items` | `Item` and `ItemRegistry`. |

### Conventions

- Block objects from the block registry are represented by their block-state ids.
- Block entity objects are represented by an opaque id.
- The `DataBuffer` reads and writes are modelled as a cursor over a sequence of typed fields. Their byte encoding is not modelled.
- A read past the end of the buffer makes `Load` fail with `Truncated`. So does a read that finds a field of another kind. A negative length fails with `NegativeLength`.
- Protocol versions are integers: 1.13.2 = 404, 1.14.2 = 485, 1.15.2 = 578.
- The headers that declare `Chunk` and `ChunkColumnMetadata` are not part of this model. Their field types are assumptions:
  - `m_BitsPerBlock` is a `u8`, read as one `u8` field;
  - palette entries are held as `u32`, the type `GetType()` returns;
  - `sectionmask` is a `u16`.
- One light byte is one buffer field. So skipping a 2048-byte light array (Chunk.cpp:105, 109) advances the cursor by 2048 fields.
- Integers are unbounded. Each place where the source truncates or wraps is written out, for example:
  - the `(u16)` cast of a palette entry;
  - the 64-bit wrap of `Encode64`;
  - the 16-bit id built from a type and meta pair.

## Model

| member | source | states |
|---|---|---|
| Chunks.Chunk.constructor | mclib/src/mclib/world/Chunk.cpp:10-12 | A new chunk has width 4, an empty palette and no data. |
| Chunks.Chunk.Copy | mclib/src/mclib/world/Chunk.cpp:14-17 | A copy has the other chunk's width and data and an empty palette. |
| Chunks.Chunk.Assign | mclib/src/mclib/world/Chunk.cpp:19-23 | After assignment the chunk has the other chunk's width and data and keeps its own palette. |
| Chunks.CopyKeepsWideBlocks | mclib/src/mclib/world/Chunk.cpp:14-23 | At 9 or more bits per block, every block reads the same after a copy or a self-assignment. |
| Chunks.CopyLosesPalette | mclib/src/mclib/world/Chunk.cpp:14-17 | Below 9 bits per block, no block of a copy can be read. Its palette is empty. |
| Chunks.AssignMixesPalettes | mclib/src/mclib/world/Chunk.cpp:19-23 | Example: after assignment, a block reads the target's palette entry (9) instead of the source's (7). |
| Chunks.CopiedStateFixed | mclib/src/mclib/world/Chunk.cpp:14-17 | A copy that also copies the palette reads every readable block the same. |
| Chunks.Index | mclib/src/mclib/world/Chunk.cpp:119 | The index `y*256 + z*16 + x` of a position inside the section is below 4096. |
| Chunks.IndexInjective | mclib/src/mclib/world/Chunk.cpp:119 | Distinct positions inside the section have distinct indices. |
| Packing.EntryWords | mclib/src/mclib/world/Chunk.cpp:120-123 | `bitIndex` is 64 * `startIndex` + `startSubIndex`. `endIndex` is `startIndex` or the next word. The two are equal iff the entry fits in one word. |
| Packing.LastEntryWord | mclib/src/mclib/world/Chunk.cpp:122 | Every entry's last word is below word 64*bpb. |
| Packing.ReadEntryBit | mclib/src/mclib/world/Chunk.cpp:128-135 | Both extraction branches give bit t of the entry as stream bit `i*bpb + t` for t < bpb, and 0 above. |
| Packing.ReadEntryIsWindow | mclib/src/mclib/world/Chunk.cpp:125-135 | The extracted value is the entry's bit window and is less than 2^bpb. |
| Chunks.BlockAtWindow | mclib/src/mclib/world/Chunk.cpp:125-137 | The block is the palette entry at the window's value below 9 bits per block, and the value itself otherwise, cast to `u16`. |
| Chunks.Chunk.GetBlock | mclib/src/mclib/world/Chunk.cpp:114-140 | Outside 0..15 on any axis: 0. Inside: the block at the position's index. |
| Chunks.IndexOf | mclib/src/mclib/world/Chunk.cpp:164-171 | The index of the first palette entry equal to the id, or the palette's length. |
| Chunks.WithBlock | mclib/src/mclib/world/Chunk.cpp:164-169 | A present id leaves the palette unchanged. An absent id is appended. Either way the id is at `IndexOf`. |
| Chunks.Storage | mclib/src/mclib/world/Chunk.cpp:156-162 | Lazy initialisation keeps the width. |
| Chunks.StorageHoldsEntry | mclib/src/mclib/world/Chunk.cpp:156-162 | After initialisation the data holds the entry's words. The palette grows by at most one entry. |
| Chunks.StoreBlock | mclib/src/mclib/world/Chunk.cpp:142-182 | `SetBlock` keeps the width and the data length and gives the palette `WithBlock` of the id. |
| Chunks.Chunk.SetBlock | mclib/src/mclib/world/Chunk.cpp:142-182 | The new state is `StoreBlock` of the old state: lazy initialisation, find or append, then the two-word write as written. |
| Chunks.StoreThenReadEntry | mclib/src/mclib/world/Chunk.cpp:171-174 | For an entry in one word, the stored entry is the palette index modulo 2^bpb. |
| Chunks.StoreThenRead | mclib/src/mclib/world/Chunk.cpp:142-182 | For an entry in one word, below 9 bits, with the index below 2^bpb, `GetBlock` then returns the id cast to `u16`. |
| Chunks.StoreKeepsOthers | mclib/src/mclib/world/Chunk.cpp:174 | A write within one word changes no other entry. |
| Chunks.StoreNoDuplicate | mclib/src/mclib/world/Chunk.cpp:164-169 | Storing an id already in the palette does not change the palette. |
| Chunks.WideStoreReadsIndex | mclib/src/mclib/world/Chunk.cpp:171-174 | Example: at 13 bits per block, storing id 1 reads back 0, the palette index. |
| Packing.WriteEntry | mclib/src/mclib/world/Chunk.cpp:173-181 | The write as written keeps the number of words. |
| Packing.WriteEntrySingleWord | mclib/src/mclib/world/Chunk.cpp:174 | In the one-word branch only the entry's own stream bits change, and they become the low bits of the value. |
| Packing.WriteThenReadSingleWord | mclib/src/mclib/world/Chunk.cpp:174 | In the one-word branch, reading back gives the value masked to bpb bits. |
| Packing.WriteSingleWordKeepsOthers | mclib/src/mclib/world/Chunk.cpp:174 | In the one-word branch every other entry reads the same. |
| Packing.SpliceLowBit | mclib/src/mclib/world/Chunk.cpp:174 | The first word changes exactly at bits `startSubIndex ..`, which become the value's low bits. |
| Packing.SpliceHighAsWrittenBit | mclib/src/mclib/world/Chunk.cpp:180 | The second word as written: bits below `64 - startSubIndex` become the value's high bits, and the bits above stay. |
| Chunks.StraddleWriteKeepsStaleBits | mclib/src/mclib/world/Chunk.cpp:176-181 | Example: a straddling write of 0 reads back with a stale bit set. |
| Chunks.StraddleWriteClobbersNeighbour | mclib/src/mclib/world/Chunk.cpp:176-181 | Example: a straddling write changes the next entry. |
| Packing.SpliceHighBit | mclib/src/mclib/world/Chunk.cpp:180 | The corrected second-word splice changes only the entry's own bits. |
| Packing.WriteEntryFixed | mclib/src/mclib/world/Chunk.cpp:173-181 | The corrected write keeps the number of words. |
| Packing.WriteEntryFixedWindow | mclib/src/mclib/world/Chunk.cpp:173-181 | The corrected write changes exactly the entry's stream bits, in both branches. |
| Packing.WriteThenReadFixed | mclib/src/mclib/world/Chunk.cpp:173-181 | After the corrected write, reading gives the value masked to bpb bits, in both branches. |
| Packing.WriteFixedKeepsOthers | mclib/src/mclib/world/Chunk.cpp:173-181 | After the corrected write every other entry reads the same, in both branches. |
| Chunks.StoreBlockFixed | mclib/src/mclib/world/Chunk.cpp:142-182 | The corrected `SetBlock` keeps the width and the data length. |
| Chunks.StoreFixedThenReadEntry | mclib/src/mclib/world/Chunk.cpp:156-181 | The corrected store writes, modulo 2^bpb, the id's index in the palette after lazy initialisation (narrow) or the id itself (wide), also on a chunk without data. |
| Chunks.StoreFixedThenRead | mclib/src/mclib/world/Chunk.cpp:142-182 | After the corrected store, `GetBlock` returns the id cast to `u16` whenever the stored value fits, at any width, with or without prior data. |
| Chunks.StoreFixedKeepsOthers | mclib/src/mclib/world/Chunk.cpp:142-182 | The corrected store leaves every other block of the lazily initialised storage as it was (for a chunk with data, the chunk itself). |
| Chunks.FirstStoreFixedThenRead | mclib/src/mclib/world/Chunk.cpp:156-182 | The first corrected store into a newly constructed chunk (4 bits, no palette, no data) reads back the id cast to `u16`. |
| Chunks.PaletteEntries | mclib/src/mclib/world/Chunk.cpp:44-48 | Each palette entry read is its VarInt cast to `u16`, in order. |
| Chunks.HeaderRoundTrip | mclib/src/mclib/world/Chunk.cpp:26-36 | The header parse consumes the block count only from 1.14.2 on, then the width, and raises a width below 4 to 4. |
| Chunks.PaletteRoundTrip | mclib/src/mclib/world/Chunk.cpp:38-49 | Below 9 bits, exactly `paletteLength` VarInts are read and appended to the palette. At 9 or more nothing is read. |
| Chunks.WordsRoundTrip | mclib/src/mclib/world/Chunk.cpp:51-60 | Exactly `dataArrayLength` words are read, verbatim and in order. |
| Chunks.LoadRoundTrip | mclib/src/mclib/world/Chunk.cpp:25-112 | For every encodable section on the wire, `Load` yields that width, palette and data (repacked when the repack runs) and the offset after the fields and the light bytes. |
| Chunks.LoadReadsSection | mclib/src/mclib/world/Chunk.cpp:25-112 | Every successful `Load` is the decoding of some wire section laid out at the offset. |
| Chunks.Chunk.LoadPalette | mclib/src/mclib/world/Chunk.cpp:38-49 | The palette loop succeeds exactly when the palette parse does, and leaves the palette and the offset that the parse gives. |
| Chunks.Chunk.LoadData | mclib/src/mclib/world/Chunk.cpp:51-60 | The resize and the word loop succeed exactly when the data parse does, and leave its words and offset. |
| Chunks.Chunk.Load | mclib/src/mclib/world/Chunk.cpp:25-112 | `Load` succeeds exactly when the section parse does, and leaves its section and offset. The buffer's fields are unchanged. |
| Repacking.RepackMaskBit | mclib/src/mclib/world/Chunk.cpp:73 | For bpb ≤ 32 the mask keeps the low bpb bits. That is the intended mask, since the source's shift is undefined there. For bpb from 33 to 63 it keeps the low bpb - 32 bits, which is what `0xFFFFFFFF >> (64 - bpb)` gives. |
| Repacking.Repacked | mclib/src/mclib/world/Chunk.cpp:69 | The repacked data has `4096*bpb/8 + 1` words. |
| Repacking.BlockDataBit | mclib/src/mclib/world/Chunk.cpp:81-82 | `blockData` at bit t is bit `bpb*(i%k) + t` of old word `i/k`, where k = 64/bpb. |
| Repacking.RepackWindow | mclib/src/mclib/world/Chunk.cpp:80-96 | Bit t < bpb of the new data's stream at q = i*bpb is bit t of the entry taken from old word `i/k`. |
| Repacking.RepackSurplusZero | mclib/src/mclib/world/Chunk.cpp:69 | Words from 64*bpb on are zero. |
| Repacking.OrInto | mclib/src/mclib/world/Chunk.cpp:83-90 | One loop step ORs the entry into the current word and, when the entry straddles, into the next one. |
| Repacking.RepackEntry | mclib/src/mclib/world/Chunk.cpp:81-95 | One iteration: if the stream is built up to bit q = 64*currentLong + longOffset, it is built up to q + bpb afterwards, with the offset kept below 64. |
| Repacking.Repack | mclib/src/mclib/world/Chunk.cpp:62-98 | The repack loop computes `Repacked`. |
| Repacking.ReadAfterRepack | mclib/src/mclib/world/Chunk.cpp:62-98 | When the repack fits, reading entry i from the repacked data gives the aligned entry i. |
| Repacking.AlignedLayoutsAgree | mclib/src/mclib/world/Chunk.cpp:67 | When 64 is a multiple of bpb, the two layouts coincide, so skipping the repack loses nothing. |
| Columns.ChunkColumn.constructor | mclib/src/mclib/world/Chunk.cpp:184-188 | A new column has 16 empty slots, no block entities, and keeps its metadata and version. |
| Columns.TruncDivRem | mclib/src/mclib/world/Chunk.cpp:191-192 | C++ `/` and `%` agree with Euclidean ones for y ≥ 0. For y < 0 the quotient is ≤ 0 and the remainder is in (-16, 0]. |
| Columns.ChunkColumn.GetBlock | mclib/src/mclib/world/Chunk.cpp:190-197 | y outside 0..255: 0. Otherwise 0 for an empty slot, or the section's block at the same x and z with `y % 16`. |
| Columns.ChunkColumn.GetBlockEntity | mclib/src/mclib/world/Chunk.cpp:199-203 | Some iff the position is in the map, and then its entity. |
| Columns.ChunkColumn.GetBlockEntities | mclib/src/mclib/world/Chunk.cpp:205-212 | One entity per map entry: the values in some order of the distinct keys. An entity is in the result iff it is a value of the map. |
| Columns.DecodeSlotsShape | mclib/src/mclib/world/Chunk.cpp:217-227 | A decoded column has 16 slots. Slot i is loaded iff bit i of the section mask is set. The offset never moves back. |
| Columns.DecodeSlotsFailure | mclib/src/mclib/world/Chunk.cpp:217-227 | A failed load of slot i stops the decode; later slots change nothing. |
| Columns.EmptyMaskReadsNothing | mclib/src/mclib/world/Chunk.cpp:217-227 | With an empty mask, every slot stays empty and nothing is read. |
| Columns.ChunkColumn.LoadSlot | mclib/src/mclib/world/Chunk.cpp:219-222 | One iteration: slot i gets a fresh chunk loaded from the buffer; other slots stay. |
| Columns.ChunkColumn.DecodeSlot | mclib/src/mclib/world/Chunk.cpp:218-225 | One loop step: a marked slot gets a fresh chunk and extends the decode with its section, or the whole decode fails; an unmarked slot is cleared and extends it with none. Other slots stay. |
| Columns.ChunkColumn.Decode | mclib/src/mclib/world/Chunk.cpp:214-230 | The loop fills the slots with `DecodeSlots` of the buffer. On success the loaded chunks are fresh and distinct. |
| Positions.NewPosition | mclib/include/mclib/common/Position.h:22 | The version-only constructor gives (0, 0, 0) and keeps the version. |
| Positions.MakePosition | mclib/src/mclib/common/Position.cpp:10-14 | The coordinates are kept, widened, and lie in the `s32` range. |
| Positions.ToSigned | mclib/src/mclib/common/Position.cpp:16 | The `s64` value has the given 64-bit pattern. |
| Positions.Encode64 | mclib/src/mclib/common/Position.cpp:16-20 | The 64-bit pattern of the result is the packed sum for the version's layout. |
| Positions.LegacyLayout | mclib/src/mclib/common/Position.cpp:17-18 | Before 1.14.2: x mod 2^26 in bits 38-63, y mod 2^12 in bits 26-37, z mod 2^26 in bits 0-25. |
| Positions.NewLayout | mclib/src/mclib/common/Position.cpp:19 | From 1.14.2 on: x mod 2^26 in bits 38-63, z mod 2^26 in bits 12-37, y mod 2^12 in bits 0-11. |
| Positions.EncodeModInvariant | mclib/src/mclib/common/Position.cpp:18-19 | Coordinates equal modulo their field widths encode to the same value. |
| Positions.WritePosition | mclib/src/mclib/common/Position.cpp:23-25 | Writing appends exactly one `u64` field, the pattern of `Encode64`. |
| Positions.ShiftLowField | mclib/src/mclib/common/Position.cpp:34 | `val << 38 >> 38` keeps the low 26 bits. |
| Positions.ShiftMiddleField | mclib/src/mclib/common/Position.cpp:39 | `val << 26 >> 38` keeps bits 12-37. |
| Positions.Decode | mclib/src/mclib/common/Position.cpp:31-44 | The decoded x and z are in [-2^25, 2^25), y in [-2^11, 2^11), and the version is the receiver's. |
| Positions.ReadPosition | mclib/src/mclib/common/Position.cpp:27-47 | The read succeeds iff a `u64` is next. The in-place extraction and sign extension then give `Decode` of it under the receiver's version, which is kept. On failure the position and the offset are unchanged. |
| Positions.SignExtendMod | mclib/src/mclib/common/Position.cpp:42-44 | Sign extension inverts reduction modulo the field width on the signed field range. |
| Positions.DecodeEncode | mclib/src/mclib/common/Position.cpp:16-44 | In either layout, decoding the encoding of an in-range position gives the position back. |
| Positions.EncodeDecode | mclib/src/mclib/common/Position.cpp:16-44 | In either layout, encoding a decoded value gives the value back. |
| Positions.WriteThenRead | mclib/src/mclib/common/Position.cpp:23-47 | The field `operator<<` writes decodes, under the same version, to the position. |
| Positions.Digits | mclib/src/mclib/common/Position.cpp:52 | The decimal digits are non-empty and all in '0'..'9'. |
| Positions.DigitsRoundTrip | mclib/src/mclib/common/Position.cpp:52 | The digits of n read back as n. |
| Positions.DecimalRoundTrip | mclib/src/mclib/common/Position.cpp:52 | A signed decimal (with '-' when negative) reads back as the number. |
| Positions.DecimalInjective | mclib/src/mclib/common/Position.cpp:52 | Distinct numbers have distinct decimals. |
| Positions.DecimalNoComma | mclib/src/mclib/common/Position.cpp:52 | A decimal contains no comma. |
| Positions.ToStringLayout | mclib/src/mclib/common/Position.cpp:49-54 | `to_string` is `"(" x ", " y ", " z ")"` with decimal coordinates. |
| Positions.FramedFields | mclib/src/mclib/common/Position.cpp:52 | In `"(" x ", " y ", " z ")"` with comma-free x and y, the text determines x, y and z. |
| Positions.ToStringFields | mclib/src/mclib/common/Position.cpp:49-54 | Equal `to_string` results have equal decimal coordinates. |
| Positions.ToStringInjective | mclib/src/mclib/common/Position.cpp:49-54 | Positions with the same string have the same coordinates. |
| Items.Item.constructor | mclib/include/mclib/inventory/Item.h:14-24 | `getName()` is the name, `getID()` the id, and `getBlock()` is none. |
| Items.BaseId | mclib/include/mclib/inventory/Item.h:52 | `data & ~15` is a multiple of 16 within 15 below the id. |
| Items.TypeMetaId | mclib/include/mclib/inventory/Item.h:67 | The 16-bit id has type mod 4096 above the low 4 bits and the low 4 bits of meta in them. |
| Items.TypeMetaLowBits | mclib/include/mclib/inventory/Item.h:66-69 | Only the low 4 bits of meta matter. |
| Items.TypeMetaWraps | mclib/include/mclib/inventory/Item.h:66-69 | Types equal modulo 4096 give the same id. |
| Items.TypeMetaBase | mclib/include/mclib/inventory/Item.h:66-69 | The fallback of a type and meta id is the meta 0 id of the same type. |
| Items.ItemRegistry.constructor | mclib/include/mclib/inventory/Item.h:42 | A new registry has both maps empty. |
| Items.ItemRegistry.GetItem | mclib/include/mclib/inventory/Item.h:48-58 | An exact hit returns the registered item. A miss returns the item under `data & ~15` if there is one, and none otherwise. |
| Items.MissFallsBack | mclib/include/mclib/inventory/Item.h:51-56 | A miss is the lookup of the id with its meta bits cleared. |
| Items.BaseLookupExact | mclib/include/mclib/inventory/Item.h:48-58 | A lookup of a meta 0 id finds an item exactly when that id is registered. |
| Items.ItemRegistry.GetItemByName | mclib/include/mclib/inventory/Item.h:60-64 | Exact name lookup: Some iff the name is registered, then its item. |
| Items.ItemRegistry.GetItemTypeMeta | mclib/include/mclib/inventory/Item.h:66-69 | The lookup of the composed 16-bit id. |
| Items.ItemRegistry.RegisterItem | mclib/include/mclib/inventory/Item.h:71-74 | Both keys map to the item afterwards, and both lookups return it. Every other name, and every other id whose lookup cannot fall back to this id, reads as before. So an old name keeps its old item when its id is re-registered. |

## Left out

- I/O: the byte encoding of `DataBuffer` (VarInt, endianness) is not modelled. Reads are typed fields.
- Chunks.Chunk.Load: a negative length makes `reserve` (Chunk.cpp:42) or `resize` (Chunk.cpp:54) throw `std::length_error`, and the model fails with `NegativeLength`. Other inputs have undefined behaviour in the source, and the model makes `Load` fail on them instead. A buffer read past its end fails with `Truncated`. When the repack runs (after 1.15.2, for a width that does not divide 64), two more cases fail with `RepackOutOfBounds`. One is too few data words for entry 4095: `m_Data[blockIndex / blocksPerLong]` (Chunk.cpp:81) would index past the end. The other is a width of 65 or more: `64 / m_BitsPerBlock` is 0, and line 81 would divide by zero. What the source leaves behind on any failure is not modelled.
- The `std::ostream`/`std::wostream` operators for `Position` (Position.cpp:58-67) are output and wide-character conversion; they are left out.
- `ItemRegistry::GetInstance`, `RegisterVanillaItems`, `ClearRegistry` and the destructor are declared without bodies in the header; `ItemRegistry` is modelled as a plain object.
- `Item::setBlock` has no body in the header, and nothing sets an item's block, so it is left out.
- The block registry and `BlockPtr` are replaced by block-state ids. The column's `std::shared_ptr` and `BlockEntityPtr` ownership is not modelled. Block entities are opaque ids.
- Repacking.RepackMaskBit: `0xFFFFFFFF >> (64 - bpb)` shifts a 32-bit constant by 32 or more when bpb ≤ 32. That is undefined behaviour in C++, and the model takes the intended mask of bpb low bits there.
- `Chunk::SetBlock`'s `m_BitsPerBlock == 0` guard (Chunk.cpp:152-154) cannot be reached: the constructor sets 4 and `Load` raises anything below 4. The model requires a width of at least 1 instead.
- Chunks.Chunk.GetBlock: the source does no palette or array bounds checks. The model states them as the precondition `CanRead`, and widths above 30 (where `1 << bpb` overflows `int`) are excluded there.
- Chunks.Chunk.SetBlock: the source checks none of the bounds its arithmetic needs. The model states them as the precondition `CanStore`: the position lies inside the section; the width is 1 to 30, because `1 << m_BitsPerBlock` (Chunk.cpp:149) overflows `int` above that; the data is empty (lazily initialised) or holds the entry's last word, because a shorter loaded `m_Data` would be written out of bounds at lines 174 and 180; and the palette has fewer than 0x7FFF_FFFF entries, because the index is kept in an `int`. For an entry that straddles two words, `maxValue << startSubIndex` and `((s64)value & maxValue) << startSubIndex` (Chunk.cpp:174) overflow `s64`; the model takes their 64-bit wrap for granted, which C++ before C++20 leaves undefined.
- Chunks.StoreThenRead: stated only for entries within one word. For straddling entries the write as written does not keep its neighbours intact (see Findings).
- Columns.ChunkColumn.Decode: the `chunkIndex` argument of `Load` is unused by `Load` and is not passed.
- Positions.Encode64: the model takes the 64-bit wrap of `<< 38` on `s64` for granted, as two's-complement hardware does. In C++ before C++20 that shift is undefined.
- Position getters `GetX`/`GetY`/`GetZ` are the datatype's fields. `Encode64` is a function, so it cannot change the position.
- Positions.ReadPosition: when no `u64` field is next, the read fails. The position is then returned unchanged, and the cursor stays where it was. The source's `DataBuffer` would read past its end instead.

## Findings

| source | as written | input that shows it | evidently intended | confidence | as-written member | corrected member |
|---|---|---|---|---|---|---|
| mclib/src/mclib/world/Chunk.cpp:180 | For an entry straddling two words, `m_Data[endIndex] >> endSubIndex << endSubIndex` clears the low `64 - startSubIndex` bits of the second word. | 5 bits per block, entry 12 starts at bit 60: bits 0-3 of word 1 are cleared, and bits 1-3 belong to entry 13. Entry 51 (bit 63) with bit 1 of word 4 set: writing 0 reads back 4. | Clear and write only the `bpb - (64 - startSubIndex)` bits the entry owns in the second word. | high (not executed) | Chunks.StraddleWriteClobbersNeighbour, Chunks.StraddleWriteKeepsStaleBits | Packing.WriteEntryFixed, Packing.WriteFixedKeepsOthers, Packing.WriteThenReadFixed |
| mclib/src/mclib/world/Chunk.cpp:171-174 | At 9 or more bits per block, `SetBlock` still stores the palette index, while `GetBlock` (line 137) reads the raw value as the id. | 13 bits per block, empty palette, zeroed data, store id 1 at index 0: the palette becomes [1], the entry holds palette index 0, and `GetBlock` returns 0. | Store the id itself when the width is 9 or more. | medium (not executed) | Chunks.WideStoreReadsIndex | Chunks.StoreBlockFixed, Chunks.StoreFixedThenRead |
| mclib/src/mclib/world/Chunk.cpp:14-23 | The copy constructor and the assignment copy `m_Data` and `m_BitsPerBlock` but not `m_Palette`. | A chunk with 4 bits per block, palette [7] and all entries 0: its copy has an empty palette, so `GetBlock` indexes past it. Assigned over a chunk with palette [9], it reads 9 instead of 7. | Copy the palette too. | high (not executed) | Chunks.CopyLosesPalette, Chunks.AssignMixesPalettes | Chunks.CopiedStateFixed |
