/** A chunk section (`Chunk` in the source): 16x16x16 block entries packed at
    `bitsPerBlock` bits each into 64-bit words, with a palette that maps a
    narrow entry (fewer than 9 bits) to a block-state id. Block ids stand for
    the block objects the source looks up in its block registry. */
module Chunks {
  import opened Bits
  import opened Packing
  import opened Repacking
  import opened Wire

  /** The state of a `Chunk`: `m_BitsPerBlock`, `m_Palette` and `m_Data`. */
  datatype Section = Section(bitsPerBlock: U8, palette: seq<U32>, data: seq<Word>)

  /** A freshly constructed chunk. */
  const EmptySection: Section := Section(4, [], [])

  /** Bytes of one light array (half a byte per block) in the 1.13 layout. */
  const LightBytes: nat := 2048

  /** A position inside the section. */
  predicate InSection(x: int, y: int, z: int) {
    0 <= x <= 15 && 0 <= y <= 15 && 0 <= z <= 15
  }

  /** The entry index of a position: `y * 16 * 16 + z * 16 + x`. */
  function Index(x: int, y: int, z: int): (i: nat)
    requires InSection(x, y, z)
    ensures i < SectionEntries
  {
    y * 256 + z * 16 + x
  }

  /** Distinct positions have distinct entries. */
  lemma IndexInjective(x: int, y: int, z: int, x': int, y': int, z': int)
    requires InSection(x, y, z) && InSection(x', y', z')
    requires Index(x, y, z) == Index(x', y', z')
    ensures x == x' && y == y' && z == z'
  {
    DivModUnique(Index(x, y, z), 16, y * 16 + z, x);
    DivModUnique(Index(x', y', z'), 16, y' * 16 + z', x');
    DivModUnique(y * 16 + z, 16, y, z);
    DivModUnique(y' * 16 + z', 16, y', z');
  }

  // ---------------------------------------------------------------------
  // Reading a block (Chunk::GetBlock)

  /** The packed entry at index `i`, as a number. */
  function EntryAt(s: Section, i: nat): nat
    requires 1 <= s.bitsPerBlock <= MaxEntryBits && EndWord(i, s.bitsPerBlock) < |s.data|
  {
    ToNat(ReadEntry(s.data, s.bitsPerBlock, i))
  }

  /** What `GetBlock` needs and does not check: a width its mask handles, the
      entry's words, and a palette slot for a narrow entry. */
  predicate CanRead(s: Section, i: nat) {
    1 <= s.bitsPerBlock <= MaxEntryBits && EndWord(i, s.bitsPerBlock) < |s.data| &&
    (s.bitsPerBlock < 9 ==> EntryAt(s, i) < |s.palette|)
  }

  /** The block id at index `i`: the palette entry a narrow entry selects, or a
      wide entry itself, cut to 16 bits. */
  function BlockAt(s: Section, i: nat): U16
    requires CanRead(s, i)
  {
    var value := EntryAt(s, i);
    (if s.bitsPerBlock < 9 then s.palette[value] else value) % 0x1_0000
  }

  /** The entry `BlockAt` resolves is the `bpb`-bit window of the word stream
      that belongs to index `i`, so it is below 2^bpb. */
  lemma BlockAtWindow(s: Section, i: nat)
    requires CanRead(s, i)
    ensures EntryAt(s, i) == FromBits(Window(s.data, s.bitsPerBlock, i)) < Pow2(s.bitsPerBlock)
    ensures BlockAt(s, i) ==
      (if s.bitsPerBlock < 9 then s.palette[FromBits(Window(s.data, s.bitsPerBlock, i))]
       else FromBits(Window(s.data, s.bitsPerBlock, i))) % 0x1_0000
  {
    ReadEntryIsWindow(s.data, s.bitsPerBlock, i);
  }

  // ---------------------------------------------------------------------
  // Writing a block (Chunk::SetBlock)

  /** The position of the first `x` in `p`, or `|p|` when there is none
      (`std::find_if` over the palette). */
  function IndexOf(p: seq<U32>, x: U32): (i: nat)
    ensures i <= |p|
    ensures i < |p| ==> p[i] == x
    ensures forall k :: 0 <= k < i ==> p[k] != x
  {
    if p == [] then 0
    else if p[0] == x then 0
    else 1 + IndexOf(p[1..], x)
  }

  /** `IndexOf` is the only index meeting its contract. */
  lemma {:induction false} IndexOfUnique(p: seq<U32>, x: U32, i: nat)
    requires i <= |p| && (i < |p| ==> p[i] == x)
    requires forall k :: 0 <= k < i ==> p[k] != x
    ensures IndexOf(p, x) == i
  {
    var j := IndexOf(p, x);
    assert j < |p| ==> p[j] == x;
  }

  /** The palette after `SetBlock` looked `x` up: unchanged if `x` was there,
      else with `x` appended. */
  function WithBlock(p: seq<U32>, x: U32): (q: seq<U32>)
    ensures IndexOf(p, x) < |q| && q[IndexOf(p, x)] == x
    ensures x in p ==> q == p
    ensures x !in p ==> q == p + [x]
  {
    if IndexOf(p, x) < |p| then p else p + [x]
  }

  /** The storage `SetBlock` writes into: an empty chunk first gets palette
      entry 0 and `4096 * bpb / 64` zero words. */
  function Storage(s: Section): (t: Section)
    ensures t.bitsPerBlock == s.bitsPerBlock
  {
    if s.data == [] then
      Section(s.bitsPerBlock, s.palette + [0], seq(SectionEntries * s.bitsPerBlock / 64, w => Zeros(64)))
    else s
  }

  /** What `SetBlock` requires and does not check. */
  predicate CanStore(s: Section, i: nat) {
    i < SectionEntries && 1 <= s.bitsPerBlock <= MaxEntryBits &&
    (s.data == [] || EndWord(i, s.bitsPerBlock) < |s.data|) &&
    |s.palette| < 0x7FFF_FFFF
  }

  lemma StorageHoldsEntry(s: Section, i: nat)
    requires CanStore(s, i)
    ensures EndWord(i, s.bitsPerBlock) < |Storage(s).data|
    ensures |Storage(s).palette| <= |s.palette| + 1
  {
    if s.data == [] {
      LastEntryWord(i, s.bitsPerBlock);
    }
  }

  /** `SetBlock` at index `i`, as written: the palette index of `id` (found or
      appended) is written into the entry, whatever the width. */
  function StoreBlock(s: Section, i: nat, id: U32): (r: Section)
    requires CanStore(s, i)
    ensures r.bitsPerBlock == s.bitsPerBlock
    ensures r.palette == WithBlock(Storage(s).palette, id)
    ensures |r.data| == |Storage(s).data|
  {
    StorageHoldsEntry(s, i);
    var t := Storage(s);
    var value := IndexOf(t.palette, id);
    Section(s.bitsPerBlock, WithBlock(t.palette, id), WriteEntry(t.data, s.bitsPerBlock, i, FromNat(value)))
  }

  /** A single-word write stores the palette index, cut to `bpb` bits. */
  lemma StoreThenReadEntry(s: Section, i: nat, id: U32)
    requires CanStore(s, i)
    requires StartWord(i, s.bitsPerBlock) == EndWord(i, s.bitsPerBlock)
    ensures EndWord(i, s.bitsPerBlock) < |StoreBlock(s, i, id).data|
    ensures EntryAt(StoreBlock(s, i, id), i) == IndexOf(Storage(s).palette, id) % Pow2(s.bitsPerBlock)
  {
    StorageHoldsEntry(s, i);
    var t := Storage(s);
    var v := IndexOf(t.palette, id);
    WriteThenReadSingleWord(t.data, s.bitsPerBlock, i, FromNat(v));
    AndMaskValue(v, s.bitsPerBlock);
  }

  /** Setting a block on a narrow single-word entry whose palette index fits the
      entry reads back the id. */
  lemma StoreThenRead(s: Section, i: nat, id: U32)
    requires CanStore(s, i) && s.bitsPerBlock < 9
    requires StartWord(i, s.bitsPerBlock) == EndWord(i, s.bitsPerBlock)
    requires IndexOf(Storage(s).palette, id) < Pow2(s.bitsPerBlock)
    ensures CanRead(StoreBlock(s, i, id), i)
    ensures BlockAt(StoreBlock(s, i, id), i) == id % 0x1_0000
  {
    StoreThenReadEntry(s, i, id);
    var v := IndexOf(Storage(s).palette, id);
    DivModUnique(v, Pow2(s.bitsPerBlock), 0, v);
    assert StoreBlock(s, i, id).palette[v] == id;
  }

  /** A single-word write leaves every other entry, and the block it selects,
      as it was. */
  lemma StoreKeepsOthers(s: Section, i: nat, j: nat, id: U32)
    requires CanStore(s, i) && j != i
    requires StartWord(i, s.bitsPerBlock) == EndWord(i, s.bitsPerBlock)
    requires CanRead(Storage(s), j)
    ensures CanRead(StoreBlock(s, i, id), j)
    ensures EntryAt(StoreBlock(s, i, id), j) == EntryAt(Storage(s), j)
    ensures BlockAt(StoreBlock(s, i, id), j) == BlockAt(Storage(s), j)
  {
    StorageHoldsEntry(s, i);
    var t := Storage(s);
    WriteSingleWordKeepsOthers(t.data, s.bitsPerBlock, i, j, FromNat(IndexOf(t.palette, id)));
  }

  /** An id already in the palette is not added again. */
  lemma StoreNoDuplicate(s: Section, i: nat, id: U32)
    requires CanStore(s, i) && id in Storage(s).palette
    ensures StoreBlock(s, i, id).palette == Storage(s).palette
  {
  }

  /** A wide entry stores the palette index rather than the id, so reading it
      back yields the index (here: 0 instead of 1). */
  lemma WideStoreReadsIndex()
    ensures var s := Section(13, [], seq(13 * 64, w => ZeroWord));
      CanStore(s, 0) && CanRead(StoreBlock(s, 0, 1), 0) &&
      BlockAt(StoreBlock(s, 0, 1), 0) == 0
  {
    var s := Section(13, [], seq(13 * 64, w => ZeroWord));
    assert EndWord(0, 13) == 0 && StartWord(0, 13) == 0;
    assert IndexOf(Storage(s).palette, 1) == 0;
    StoreThenReadEntry(s, 0, 1);
  }

  /** `SetBlock` as evidently intended: a narrow entry stores the palette index
      and a wide entry stores the id itself (leaving the palette alone), and the
      write clears exactly the entry's own bits in both words. */
  function StoreBlockFixed(s: Section, i: nat, id: U32): (r: Section)
    requires CanStore(s, i)
    ensures r.bitsPerBlock == s.bitsPerBlock
    ensures |r.data| == |Storage(s).data|
  {
    StorageHoldsEntry(s, i);
    var t := Storage(s);
    if s.bitsPerBlock < 9 then
      Section(s.bitsPerBlock, WithBlock(t.palette, id),
        WriteEntryFixed(t.data, s.bitsPerBlock, i, FromNat(IndexOf(t.palette, id))))
    else
      Section(s.bitsPerBlock, t.palette, WriteEntryFixed(t.data, s.bitsPerBlock, i, FromNat(id)))
  }

  /** The value the corrected write stores: the index of the id in the palette
      after lazy initialisation (narrow), or the id itself (wide). */
  function StoredValue(s: Section, id: U32): nat {
    if s.bitsPerBlock < 9 then IndexOf(Storage(s).palette, id) else id
  }

  lemma StoreFixedThenReadEntry(s: Section, i: nat, id: U32)
    requires CanStore(s, i)
    ensures EndWord(i, s.bitsPerBlock) < |StoreBlockFixed(s, i, id).data|
    ensures EntryAt(StoreBlockFixed(s, i, id), i) == StoredValue(s, id) % Pow2(s.bitsPerBlock)
  {
    StorageHoldsEntry(s, i);
    var v := StoredValue(s, id);
    WriteThenReadFixed(Storage(s).data, s.bitsPerBlock, i, FromNat(v));
    AndMaskValue(v, s.bitsPerBlock);
  }

  /** The corrected write reads back the id whenever the stored value fits the
      entry, also on the first store into a chunk without data. */
  lemma StoreFixedThenRead(s: Section, i: nat, id: U32)
    requires CanStore(s, i)
    requires StoredValue(s, id) < Pow2(s.bitsPerBlock)
    ensures CanRead(StoreBlockFixed(s, i, id), i)
    ensures BlockAt(StoreBlockFixed(s, i, id), i) == id % 0x1_0000
  {
    StoreFixedThenReadEntry(s, i, id);
    var v := StoredValue(s, id);
    DivModUnique(v, Pow2(s.bitsPerBlock), 0, v);
  }

  /** The corrected write leaves every other block of the initialised storage
      as it was; for a chunk with data the storage is the chunk itself. */
  lemma StoreFixedKeepsOthers(s: Section, i: nat, j: nat, id: U32)
    requires CanStore(s, i) && j != i
    requires CanRead(Storage(s), j)
    ensures CanRead(StoreBlockFixed(s, i, id), j)
    ensures BlockAt(StoreBlockFixed(s, i, id), j) == BlockAt(Storage(s), j)
  {
    StorageHoldsEntry(s, i);
    WriteFixedKeepsOthers(Storage(s).data, s.bitsPerBlock, i, j, FromNat(StoredValue(s, id)));
  }

  /** The first corrected store into a newly constructed chunk reads back. */
  lemma FirstStoreFixedThenRead(i: nat, id: U32)
    requires i < SectionEntries
    ensures CanRead(StoreBlockFixed(EmptySection, i, id), i)
    ensures BlockAt(StoreBlockFixed(EmptySection, i, id), i) == id % 0x1_0000
  {
    assert Storage(EmptySection).palette == [0];
    assert StoredValue(EmptySection, id) <= 1;
    assert Pow2(4) == 16;
    StoreFixedThenRead(EmptySection, i, id);
  }

  /** A straddling write leaves stale bits in the second word: entry 51 at 5
      bits per block starts at bit 63 of word 3; with bit 1 of word 4 set,
      writing 0 reads back with bit 2 set. */
  lemma StraddleWriteKeepsStaleBits()
    ensures var d: seq<Word> := [ZeroWord, ZeroWord, ZeroWord, ZeroWord, FromNat(2)];
      EndWord(51, 5) == 4 && StartWord(51, 5) == 3 &&
      ReadEntry(WriteEntry(d, 5, 51, ZeroWord), 5, 51)[2] &&
      ReadEntry(WriteEntry(d, 5, 51, ZeroWord), 5, 51) != And(ZeroWord, Mask(5))
  {
    var d: seq<Word> := [ZeroWord, ZeroWord, ZeroWord, ZeroWord, FromNat(2)];
    EntryWords(51, 5);
    assert FromNat(2)[1];
    var r := WriteEntry(d, 5, 51, ZeroWord);
    SpliceHighAsWrittenBit(d[4], 63, 5, ZeroWord, 1);
    ReadEntryBit(r, 5, 51, 2);
    StreamAt(r, 4, 1);
  }

  /** A straddling write clears bits of the next entry: entry 12 at 5 bits per
      block starts at bit 60 of word 0 and ends at bit 0 of word 1, yet the
      write clears bits 0 to 3 of word 1, which belong to entry 13 from bit 1 on. */
  lemma StraddleWriteClobbersNeighbour()
    ensures var d: seq<Word> := [ZeroWord, Mask(64)];
      EndWord(12, 5) == 1 && EndWord(13, 5) == 1 &&
      ReadEntry(WriteEntry(d, 5, 12, ZeroWord), 5, 13) != ReadEntry(d, 5, 13)
  {
    var d: seq<Word> := [ZeroWord, Mask(64)];
    EntryWords(12, 5);
    EntryWords(13, 5);
    var r := WriteEntry(d, 5, 12, ZeroWord);
    SpliceHighAsWrittenBit(d[1], 60, 5, ZeroWord, 1);
    ReadEntryBit(r, 5, 13, 0);
    ReadEntryBit(d, 5, 13, 0);
    StreamAt(r, 1, 1);
    StreamAt(d, 1, 1);
  }

  // ---------------------------------------------------------------------
  // Parsing a section (Chunk::Load)

  /** Why `Load` cannot finish: a field is missing, a length is negative (the
      source's `reserve` and `resize` throw), or the repack would index past
      the old words or divide by zero. */
  datatype LoadError = Truncated | NegativeLength | RepackOutOfBounds

  /** The value one stage of the parse produced and the offset after it. */
  datatype Parsed<T> = Parsed(value: T, next: nat) | ParseFailed(error: LoadError)

  /** The outcome of `Load`: the chunk's new state and the buffer's new offset. */
  datatype Outcome = LoadOk(section: Section, offset: nat) | LoadFailed(error: LoadError)

  /** Bits per block below 4 are raised to 4. */
  function FloorBits(raw: U8): U8 {
    if raw < 4 then 4 else raw
  }

  /** The `(u16)` cast of a palette VarInt. */
  function PaletteEntry(v: S32): U32 {
    v % 0x1_0000
  }

  function PaletteEntries(vs: seq<S32>): (r: seq<U32>)
    ensures |r| == |vs| && forall k :: 0 <= k < |vs| ==> r[k] == PaletteEntry(vs[k])
  {
    seq(|vs|, k requires 0 <= k < |vs| => PaletteEntry(vs[k]))
  }

  /** The block count (from 1.14.2 on, read and dropped) and the bits per block. */
  function HeaderAt(f: seq<Field>, off: nat, version: int): Parsed<U8> {
    var o := if version >= Minecraft_1_14_2 then off + 1 else off;
    if version >= Minecraft_1_14_2 && U16At(f, off).None? then ParseFailed(Truncated)
    else match U8At(f, o)
      case None => ParseFailed(Truncated)
      case Some(raw) => Parsed(FloorBits(raw), o + 1)
  }

  /** The palette: for fewer than 9 bits per block, a VarInt length and that many
      VarInts, appended to `palette`; otherwise nothing is read. */
  function PaletteAt(f: seq<Field>, off: nat, bpb: U8, palette: seq<U32>): Parsed<seq<U32>> {
    if bpb >= 9 then Parsed(palette, off)
    else match VarIntAt(f, off)
      case None => ParseFailed(Truncated)
      case Some(n) =>
        if n < 0 then ParseFailed(NegativeLength)
        else match VarIntsAt(f, off + 1, n)
          case None => ParseFailed(Truncated)
          case Some(vs) =>
            Parsed(palette + PaletteEntries(vs), off + 1 + n)
  }

  /** The data array: a VarInt length and that many `u64` words. */
  function WordsAt(f: seq<Field>, off: nat): Parsed<seq<Word>> {
    match VarIntAt(f, off)
    case None => ParseFailed(Truncated)
    case Some(n) =>
      if n < 0 then ParseFailed(NegativeLength)
      else match U64sAt(f, off + 1, n)
        case None => ParseFailed(Truncated)
        case Some(ws) => Parsed(WordsOf(ws), off + 1 + n)
  }

  /** `u64` values as words. */
  function WordsOf(ws: seq<U64>): (r: seq<Word>)
    ensures |r| == |ws| && forall k :: 0 <= k < |ws| ==> r[k] == FromNat(ws[k])
  {
    if ws == [] then [] else [FromNat(ws[0])] + WordsOf(ws[1..])
  }

  /** Whether the repack runs: after 1.15.2, for a width that does not divide 64. */
  predicate RepackRuns(bpb: U8, version: int) {
    version > Minecraft_1_15_2 && bpb > 0 && 64 % bpb != 0
  }

  /** The data after the repack step; `None` where the source's repack has
      undefined behaviour. */
  function RepackFor(data: seq<Word>, bpb: U8, version: int): Option<seq<Word>> {
    if !RepackRuns(bpb, version) then Some(data)
    else if RepackFits(data, bpb) then Some(Repacked(data, bpb))
    else None
  }

  /** Up to 1.13.2 the block light array, and the sky light array when the
      column has sky light, follow the data and are skipped. */
  function AfterLight(off: nat, skylight: bool, version: int): nat {
    if version <= Minecraft_1_13_2 then off + LightBytes + (if skylight then LightBytes else 0)
    else off
  }

  /** `Load` on a chunk in state `sec`, reading from `f` at `off`. */
  function LoadSection(sec: Section, f: seq<Field>, off: nat, skylight: bool, version: int): Outcome {
    match HeaderAt(f, off, version)
    case ParseFailed(e) => LoadFailed(e)
    case Parsed(bpb, o1) =>
      match PaletteAt(f, o1, bpb, sec.palette)
      case ParseFailed(e) => LoadFailed(e)
      case Parsed(palette, o2) =>
        match WordsAt(f, o2)
        case ParseFailed(e) => LoadFailed(e)
        case Parsed(words, o3) =>
          match RepackFor(words, bpb, version)
          case None => LoadFailed(RepackOutOfBounds)
          case Some(data) => LoadOk(Section(bpb, palette, data), AfterLight(o3, skylight, version))
  }

  // ---------------------------------------------------------------------
  // The wire layout `Load` parses

  /** One section as it is sent: block count, bits per block, palette entries
      and data words. */
  datatype WireSection = WireSection(blockCount: U16, rawBits: U8, entries: seq<S32>, words: seq<U64>)

  /** The lengths fit the VarInts that announce them. */
  predicate Encodable(w: WireSection) {
    |w.entries| < 0x8000_0000 && |w.words| < 0x8000_0000
  }

  function HeaderFields(w: WireSection, version: int): seq<Field> {
    (if version >= Minecraft_1_14_2 then [U16Field(w.blockCount)] else []) + [U8Field(w.rawBits)]
  }

  function PaletteFields(w: WireSection): seq<Field>
    requires Encodable(w)
  {
    if FloorBits(w.rawBits) < 9 then
      [VarIntField(|w.entries|)] + seq(|w.entries|, k requires 0 <= k < |w.entries| => VarIntField(w.entries[k]))
    else []
  }

  function WordFields(w: WireSection): seq<Field>
    requires Encodable(w)
  {
    [VarIntField(|w.words|)] + seq(|w.words|, k requires 0 <= k < |w.words| => U64Field(w.words[k]))
  }

  /** The fields of a section, for the given protocol version. */
  function SectionFields(w: WireSection, version: int): seq<Field>
    requires Encodable(w)
  {
    HeaderFields(w, version) + PaletteFields(w) + WordFields(w)
  }

  /** `g` occurs in `f` at `off`. */
  predicate FieldsAt(f: seq<Field>, off: nat, g: seq<Field>) {
    off + |g| <= |f| && forall k :: 0 <= k < |g| ==> f[off + k] == g[k]
  }

  lemma FieldsAtConcat(f: seq<Field>, off: nat, a: seq<Field>, b: seq<Field>)
    ensures FieldsAt(f, off, a + b) <==> FieldsAt(f, off, a) && FieldsAt(f, off + |a|, b)
  {
    if FieldsAt(f, off, a) && FieldsAt(f, off + |a|, b) {
      forall k | 0 <= k < |a + b|
        ensures f[off + k] == (a + b)[k]
      {
        if k >= |a| {
          assert f[off + |a| + (k - |a|)] == b[k - |a|];
        }
      }
    }
    if FieldsAt(f, off, a + b) {
      forall k | 0 <= k < |a|
        ensures f[off + k] == a[k]
      {
        assert f[off + k] == (a + b)[k];
      }
      forall k | 0 <= k < |b|
        ensures f[off + |a| + k] == b[k]
      {
        assert f[off + (|a| + k)] == (a + b)[|a| + k];
      }
    }
  }

  /** The words of a wire section as the chunk holds them. */
  function WireWords(w: WireSection): seq<Word> {
    WordsOf(w.words)
  }

  /** The palette `Load` leaves after reading `w` into a chunk with `palette`. */
  function WirePalette(w: WireSection, palette: seq<U32>): seq<U32> {
    if FloorBits(w.rawBits) < 9 then
      palette + PaletteEntries(w.entries)
    else palette
  }

  lemma HeaderRoundTrip(w: WireSection, version: int, f: seq<Field>, off: nat)
    requires FieldsAt(f, off, HeaderFields(w, version))
    ensures HeaderAt(f, off, version) == Parsed(FloorBits(w.rawBits), off + |HeaderFields(w, version)|)
  {
    if version >= Minecraft_1_14_2 {
      assert f[off + 0] == HeaderFields(w, version)[0];
      assert f[off + 1] == HeaderFields(w, version)[1];
    } else {
      assert f[off + 0] == HeaderFields(w, version)[0];
    }
  }

  lemma PaletteRoundTrip(w: WireSection, f: seq<Field>, off: nat, palette: seq<U32>)
    requires Encodable(w) && FieldsAt(f, off, PaletteFields(w))
    ensures PaletteAt(f, off, FloorBits(w.rawBits), palette) ==
      Parsed(WirePalette(w, palette), off + |PaletteFields(w)|)
  {
    if FloorBits(w.rawBits) < 9 {
      var g := PaletteFields(w);
      assert f[off + 0] == g[0];
      forall k | off + 1 <= k < off + 1 + |w.entries|
        ensures VarIntAt(f, k).Some?
      {
        assert f[off + (k - off)] == g[k - off];
      }
      var vs := VarIntsAt(f, off + 1, |w.entries|).value;
      forall k | 0 <= k < |w.entries|
        ensures vs[k] == w.entries[k]
      {
        assert f[off + (1 + k)] == g[1 + k];
      }
      assert vs == w.entries;
    }
  }

  lemma WordsRoundTrip(w: WireSection, f: seq<Field>, off: nat)
    requires Encodable(w) && FieldsAt(f, off, WordFields(w))
    ensures WordsAt(f, off) == Parsed(WireWords(w), off + |WordFields(w)|)
  {
    var g := WordFields(w);
    assert f[off + 0] == g[0];
    forall k | off + 1 <= k < off + 1 + |w.words|
      ensures U64At(f, k).Some?
    {
      assert f[off + (k - off)] == g[k - off];
    }
    var ws := U64sAt(f, off + 1, |w.words|).value;
    forall k | 0 <= k < |w.words|
      ensures ws[k] == w.words[k]
    {
      assert f[off + (1 + k)] == g[1 + k];
    }
    assert ws == w.words;
  }

  /** Loading the fields of a section yields the floored width, the palette
      entries appended (for fewer than 9 bits), the words (repacked where the
      version calls for it), and an offset just past the section and the light
      arrays that are skipped. */
  lemma LoadRoundTrip(sec: Section, w: WireSection, version: int, skylight: bool, f: seq<Field>, off: nat)
    requires Encodable(w) && FieldsAt(f, off, SectionFields(w, version))
    requires RepackFor(WireWords(w), FloorBits(w.rawBits), version).Some?
    ensures LoadSection(sec, f, off, skylight, version) ==
      LoadOk(Section(FloorBits(w.rawBits), WirePalette(w, sec.palette),
                     RepackFor(WireWords(w), FloorBits(w.rawBits), version).value),
             AfterLight(off + |SectionFields(w, version)|, skylight, version))
  {
    var h, p, d := HeaderFields(w, version), PaletteFields(w), WordFields(w);
    FieldsAtConcat(f, off, h + p, d);
    FieldsAtConcat(f, off, h, p);
    HeaderRoundTrip(w, version, f, off);
    PaletteRoundTrip(w, f, off + |h|, sec.palette);
    WordsRoundTrip(w, f, off + |h| + |p|);
  }

  /** The three parts of a section, each where it belongs, make the section. */
  lemma SectionFieldsAt(f: seq<Field>, off: nat, w: WireSection, version: int)
    requires Encodable(w)
    requires FieldsAt(f, off, HeaderFields(w, version))
    requires FieldsAt(f, off + |HeaderFields(w, version)|, PaletteFields(w))
    requires FieldsAt(f, off + |HeaderFields(w, version)| + |PaletteFields(w)|, WordFields(w))
    ensures FieldsAt(f, off, SectionFields(w, version))
  {
    var h, p, d := HeaderFields(w, version), PaletteFields(w), WordFields(w);
    FieldsAtConcat(f, off, h, p);
    FieldsAtConcat(f, off, h + p, d);
  }

  lemma HeaderFieldsRead(f: seq<Field>, off: nat, version: int, w: WireSection)
    requires version >= Minecraft_1_14_2 ==> U16At(f, off) == Some(w.blockCount)
    requires U8At(f, if version >= Minecraft_1_14_2 then off + 1 else off) == Some(w.rawBits)
    ensures FieldsAt(f, off, HeaderFields(w, version))
  {
  }

  lemma PaletteFieldsRead(f: seq<Field>, off: nat, w: WireSection)
    requires Encodable(w) && off <= |f|
    requires FloorBits(w.rawBits) < 9 ==>
      VarIntAt(f, off) == Some(|w.entries|) && VarIntsAt(f, off + 1, |w.entries|) == Some(w.entries)
    ensures FieldsAt(f, off, PaletteFields(w))
  {
    if FloorBits(w.rawBits) < 9 {
      var p := PaletteFields(w);
      if |w.entries| > 0 {
        assert VarIntAt(f, off + 1 + (|w.entries| - 1)).Some?;
      }
      forall k | 0 <= k < |p|
        ensures f[off + k] == p[k]
      {
        if k > 0 {
          assert p[k] == VarIntField(w.entries[k - 1]);
          assert Some(w.entries[k - 1]) == VarIntAt(f, off + 1 + (k - 1));
        } else {
          assert p[0] == VarIntField(|w.entries|);
        }
      }
    }
  }

  lemma WordFieldsRead(f: seq<Field>, off: nat, w: WireSection)
    requires Encodable(w)
    requires VarIntAt(f, off) == Some(|w.words|) && U64sAt(f, off + 1, |w.words|) == Some(w.words)
    ensures FieldsAt(f, off, WordFields(w))
  {
    var d := WordFields(w);
    if |w.words| > 0 {
      assert U64At(f, off + 1 + (|w.words| - 1)).Some?;
    }
    forall k | 0 <= k < |d|
      ensures f[off + k] == d[k]
    {
      if k > 0 {
        assert Some(w.words[k - 1]) == U64At(f, off + 1 + (k - 1));
      }
    }
  }

  /** Conversely, every successful `Load` read the fields of some section. */
  lemma LoadReadsSection(sec: Section, f: seq<Field>, off: nat, skylight: bool, version: int)
    requires LoadSection(sec, f, off, skylight, version).LoadOk?
    ensures exists w: WireSection ::
      (Encodable(w) && FieldsAt(f, off, SectionFields(w, version)) &&
       RepackFor(WireWords(w), FloorBits(w.rawBits), version).Some? &&
       LoadSection(sec, f, off, skylight, version) ==
         LoadOk(Section(FloorBits(w.rawBits), WirePalette(w, sec.palette),
                        RepackFor(WireWords(w), FloorBits(w.rawBits), version).value),
                AfterLight(off + |SectionFields(w, version)|, skylight, version)))
  {
    var w := SectionRead(sec, f, off, skylight, version);
    LoadRoundTrip(sec, w, version, skylight, f, off);
  }

  /** The section a successful `Load` read. */
  lemma SectionRead(sec: Section, f: seq<Field>, off: nat, skylight: bool, version: int) returns (w: WireSection)
    requires LoadSection(sec, f, off, skylight, version).LoadOk?
    ensures Encodable(w) && FieldsAt(f, off, SectionFields(w, version))
    ensures RepackFor(WireWords(w), FloorBits(w.rawBits), version).Some?
  {
    var hd := HeaderAt(f, off, version);
    var pa := PaletteAt(f, hd.next, hd.value, sec.palette);
    var wd := WordsAt(f, pa.next);
    assert hd.Parsed? && pa.Parsed? && wd.Parsed? && RepackFor(wd.value, hd.value, version).Some?;
    var o := if version >= Minecraft_1_14_2 then off + 1 else off;
    var count := if version >= Minecraft_1_14_2 then U16At(f, off).value else 0;
    var raw := U8At(f, o).value;
    var entries := if hd.value < 9 then VarIntsAt(f, hd.next + 1, VarIntAt(f, hd.next).value).value else [];
    var words := U64sAt(f, pa.next + 1, VarIntAt(f, pa.next).value).value;
    w := WireSection(count, raw, entries, words);
    HeaderFieldsRead(f, off, version, w);
    PaletteFieldsRead(f, hd.next, w);
    WordFieldsRead(f, pa.next, w);
    assert off + |HeaderFields(w, version)| == hd.next;
    assert hd.next + |PaletteFields(w)| == pa.next;
    SectionFieldsAt(f, off, w, version);
    assert hd.value == FloorBits(raw);
    assert wd.value == WireWords(w);
  }

  // ---------------------------------------------------------------------
  // Copying

  /** The state of a chunk copy-constructed from one in state `s`: the copy
      constructor copies the data and the width but not the palette. */
  function CopiedState(s: Section): Section {
    Section(s.bitsPerBlock, [], s.data)
  }

  /** The state of a chunk in state `t` after `t = s`: data and width from `s`,
      the palette of `t` kept. */
  function AssignedState(t: Section, s: Section): Section {
    Section(s.bitsPerBlock, t.palette, s.data)
  }

  /** A copy reads every wide entry as the original does. */
  lemma CopyKeepsWideBlocks(s: Section, i: nat)
    requires CanRead(s, i) && s.bitsPerBlock >= 9
    ensures CanRead(CopiedState(s), i) && BlockAt(CopiedState(s), i) == BlockAt(s, i)
    ensures CanRead(AssignedState(s, s), i) && BlockAt(AssignedState(s, s), i) == BlockAt(s, i)
  {
  }

  /** A copy of a chunk with a palette has none: no narrow entry of the copy
      can be resolved (the source indexes past the end of the empty palette). */
  lemma CopyLosesPalette(s: Section, i: nat)
    requires s.bitsPerBlock < 9
    ensures !CanRead(CopiedState(s), i)
  {
  }

  /** Assigning a chunk resolves its entries through the wrong palette: here
      the source reads block 7, the assigned chunk block 9. */
  lemma AssignMixesPalettes()
    ensures var s := Section(4, [7], [ZeroWord]);
      var t := Section(4, [9], []);
      CanRead(s, 0) && CanRead(AssignedState(t, s), 0) &&
      BlockAt(s, 0) == 7 && BlockAt(AssignedState(t, s), 0) == 9
  {
    var s := Section(4, [7], [ZeroWord]);
    EntryWords(0, 4);
    ReadEntryIsWindow(s.data, 4, 0);
    assert Window(s.data, 4, 0) == Zeros(4) by {
      forall t | 0 <= t < 4
        ensures Window(s.data, 4, 0)[t] == false
      {
        ReadEntryBit(s.data, 4, 0, t);
        StreamAt(s.data, 0, t);
      }
    }
    AllZeros(4);
  }

  /** Copying as evidently intended: the palette goes along with the data. */
  function CopiedStateFixed(s: Section): (r: Section)
    ensures forall i :: CanRead(s, i) ==> CanRead(r, i) && BlockAt(r, i) == BlockAt(s, i)
  {
    Section(s.bitsPerBlock, s.palette, s.data)
  }

  /// The chunk column metadata as far as `Load` reads it.
  datatype Metadata = Metadata(sectionmask: U16, skylight: bool)

  /** A chunk section held by a column. */
  class Chunk {
    var bitsPerBlock: U8
    var palette: seq<U32>
    var data: seq<Word>

    function Contents(): Section
      reads this
    {
      Section(bitsPerBlock, palette, data)
    }

    constructor()
      ensures Contents() == EmptySection
    {
      bitsPerBlock := 4;
      palette := [];
      data := [];
    }

    /** The copy constructor. */
    constructor Copy(other: Chunk)
      ensures Contents() == CopiedState(other.Contents())
    {
      data := other.data;
      bitsPerBlock := other.bitsPerBlock;
      palette := [];
    }

    /** The copy assignment `*this = other`. */
    method Assign(other: Chunk)
      modifies this
      ensures Contents() == AssignedState(old(Contents()), old(other.Contents()))
    {
      data := other.data;
      bitsPerBlock := other.bitsPerBlock;
    }

    /** The block id at a position of the section; outside it, air (id 0). */
    function GetBlock(x: int, y: int, z: int): (id: U16)
      reads this
      requires InSection(x, y, z) ==> CanRead(Contents(), Index(x, y, z))
      ensures !InSection(x, y, z) ==> id == 0
      ensures InSection(x, y, z) ==> id == BlockAt(Contents(), Index(x, y, z))
    {
      if !InSection(x, y, z) then 0 else BlockAt(Contents(), Index(x, y, z))
    }

    /** Set the block at a position to `blockType`. */
    method SetBlock(x: int, y: int, z: int, blockType: U32)
      requires InSection(x, y, z) && CanStore(Contents(), Index(x, y, z))
      modifies this
      ensures Contents() == StoreBlock(old(Contents()), Index(x, y, z), blockType)
    {
      var index := Index(x, y, z);
      StorageHoldsEntry(Contents(), index);
      if data == [] {
        palette := palette + [0];
        data := seq(SectionEntries * bitsPerBlock / 64, w => Zeros(64));
      }
      assert Contents() == Storage(old(Contents()));
      ghost var t := Contents();
      var k := 0;
      while k < |palette| && palette[k] != blockType
        invariant 0 <= k <= |palette|
        invariant forall j :: 0 <= j < k ==> palette[j] != blockType
      {
        k := k + 1;
      }
      IndexOfUnique(palette, blockType, k);
      if k == |palette| {
        palette := palette + [blockType];
      }
      assert palette == WithBlock(t.palette, blockType);
      var value := FromNat(k);
      WriteEntryWords(t.data, bitsPerBlock, index, value);
      var startIndex, endIndex, startSubIndex :=
        StartWord(index, bitsPerBlock), EndWord(index, bitsPerBlock), StartBit(index, bitsPerBlock);
      data := data[startIndex := SpliceLow(data[startIndex], startSubIndex, bitsPerBlock, value)];
      if startIndex != endIndex {
        data := data[endIndex := SpliceHighAsWritten(data[endIndex], startSubIndex, bitsPerBlock, value)];
      }
      assert data == WriteWords(t.data, startIndex, endIndex, startSubIndex, bitsPerBlock, value);
    }

    /** Read the palette (for fewer than 9 bits per block), appending to the
        current one. */
    method LoadPalette(buffer: Cursor) returns (ok: bool)
      modifies this, buffer
      ensures buffer.fields == old(buffer.fields) && bitsPerBlock == old(bitsPerBlock) && data == old(data)
      ensures var r := PaletteAt(old(buffer.fields), old(buffer.offset), bitsPerBlock, old(palette));
        ok == r.Parsed? && (ok ==> palette == r.value && buffer.offset == r.next)
    {
      if bitsPerBlock >= 9 {
        return true;
      }
      var paletteLength := buffer.ReadVarInt();
      if paletteLength.None? {
        return false;
      }
      var n := paletteLength.value;
      if n < 0 {
        return false;
      }
      ghost var f, start, base := buffer.fields, buffer.offset, palette;
      for i := 0 to n
        invariant buffer.fields == f && buffer.offset == start + i
        invariant bitsPerBlock == old(bitsPerBlock) && data == old(data)
        invariant forall k :: start <= k < start + i ==> VarIntAt(f, k).Some?
        invariant palette == base + PaletteEntries(VarIntsAt(f, start, i).value)
      {
        var v := buffer.ReadVarInt();
        if v.None? {
          assert VarIntsAt(f, start, n).None?;
          return false;
        }
        assert VarIntsAt(f, start, i + 1).value == VarIntsAt(f, start, i).value + [v.value];
        palette := palette + [PaletteEntry(v.value)];
      }
      ok := true;
    }

    /** Read the data array: its length, then that many words. */
    method LoadData(buffer: Cursor) returns (ok: bool)
      modifies this, buffer
      ensures buffer.fields == old(buffer.fields) && bitsPerBlock == old(bitsPerBlock) && palette == old(palette)
      ensures var r := WordsAt(old(buffer.fields), old(buffer.offset));
        ok == r.Parsed? && (ok ==> data == r.value && buffer.offset == r.next)
    {
      var dataArrayLength := buffer.ReadVarInt();
      if dataArrayLength.None? {
        return false;
      }
      var n := dataArrayLength.value;
      if n < 0 {
        return false;
      }
      data := Resized(data, n);
      ghost var f, start := buffer.fields, buffer.offset;
      for i := 0 to n
        invariant buffer.fields == f && buffer.offset == start + i && |data| == n
        invariant bitsPerBlock == old(bitsPerBlock) && palette == old(palette)
        invariant forall k :: start <= k < start + i ==> U64At(f, k).Some?
        invariant data[..i] == WordsOf(U64sAt(f, start, i).value)
      {
        var v := buffer.ReadU64();
        if v.None? {
          assert U64sAt(f, start, n).None?;
          return false;
        }
        assert U64sAt(f, start, i + 1).value == U64sAt(f, start, i).value + [v.value];
        data := data[i := FromNat(v.value)];
      }
      assert data == data[..n];
      ok := true;
    }

    /** Load the section from `in`; `skylight` is the column's sky light flag.
        A failing read makes the load fail (the source throws). */
    method Load(buffer: Cursor, meta: Metadata, version: int) returns (ok: bool)
      modifies this, buffer
      ensures buffer.fields == old(buffer.fields)
      ensures var r := LoadSection(old(Contents()), old(buffer.fields), old(buffer.offset), meta.skylight, version);
        ok == r.LoadOk? && (ok ==> Contents() == r.section && buffer.offset == r.offset)
    {
      ghost var f, off, sec := buffer.fields, buffer.offset, Contents();
      if version >= Minecraft_1_14_2 {
        var blockCount := buffer.ReadU16();
        if blockCount.None? {
          return false;
        }
      }
      var raw := buffer.ReadU8();
      if raw.None? {
        return false;
      }
      bitsPerBlock := raw.value;
      if bitsPerBlock < 4 {
        bitsPerBlock := 4;
      }
      ghost var o1 := buffer.offset;
      assert HeaderAt(f, off, version) == Parsed(bitsPerBlock, o1);
      ok := LoadPalette(buffer);
      if !ok {
        return;
      }
      ghost var o2 := buffer.offset;
      assert PaletteAt(f, o1, bitsPerBlock, sec.palette) == Parsed(palette, o2);
      ok := LoadData(buffer);
      if !ok {
        return;
      }
      ghost var o3 := buffer.offset;
      assert WordsAt(f, o2) == Parsed(data, o3);
      if RepackRuns(bitsPerBlock, version) {
        if !RepackFits(data, bitsPerBlock) {
          return false;
        }
        data := Repack(data, bitsPerBlock);
      }
      if version <= Minecraft_1_13_2 {
        buffer.Advance(LightBytes);
        if meta.skylight {
          buffer.Advance(LightBytes);
        }
      }
    }
  }

  /** `std::vector::resize`: kept words up to `n`, zero words after. */
  function Resized(d: seq<Word>, n: nat): (r: seq<Word>)
    ensures |r| == n
    ensures forall k :: 0 <= k < n ==> r[k] == if k < |d| then d[k] else ZeroWord
  {
    if n <= |d| then d[..n] else d + ZeroWords(n - |d|)
  }

  function ZeroWords(n: nat): (r: seq<Word>)
    ensures |r| == n && forall k :: 0 <= k < n ==> r[k] == ZeroWord
  {
    if n == 0 then [] else [ZeroWord] + ZeroWords(n - 1)
  }
}
