/** A chunk column (`ChunkColumn` in the source): sixteen chunk sections stacked
    along y, of which a section mask says which are present, and the column's
    block entities by position. */
module Columns {
  import opened Bits
  import opened Wire
  import opened Chunks

  /** Sections per column (`ChunkColumn::ChunksPerColumn`). */
  const ChunksPerColumn: nat := 16

  /** A block position, the key of the block entity map. */
  datatype Vector3i = Vector3i(x: int, y: int, z: int)

  /** A block entity; the id stands for the shared object the source keeps. */
  datatype BlockEntity = BlockEntity(id: nat)

  // ---------------------------------------------------------------------
  // C++ integer division on `s32`

  /** C++ `a / b`: rounds toward zero. */
  function TruncDiv(a: int, b: int): int
    requires b > 0
  {
    if a >= 0 then a / b else -((-a) / b)
  }

  /** C++ `a % b`: takes the sign of `a`. */
  function TruncRem(a: int, b: int): int
    requires b > 0
  {
    a - b * TruncDiv(a, b)
  }

  /** For a non-negative `a` the C++ operators agree with Euclidean ones; for a
      negative `a` either the quotient or the remainder is negative. */
  lemma TruncDivRem(a: int, b: int)
    requires b > 0
    ensures a >= 0 ==> TruncDiv(a, b) == a / b && TruncRem(a, b) == a % b
    ensures a < 0 ==> TruncDiv(a, b) <= 0 && -b < TruncRem(a, b) <= 0
    ensures a < 0 && TruncDiv(a, b) == 0 ==> TruncRem(a, b) == a
  {
    if a < 0 {
      var q, r := (-a) / b, (-a) % b;
      assert -a == b * q + r;
      assert TruncRem(a, b) == -r;
    }
  }

  // ---------------------------------------------------------------------
  // Decoding a column (operator>>)

  /** Bit `i` of the section mask: `sectionmask & (1 << i)`. */
  predicate SlotPresent(mask: U16, i: nat) {
    (mask / Pow2(i)) % 2 == 1
  }

  /** The outcome of decoding the first slots of a column: for each slot the
      loaded section or nothing, and the offset after them; or the slot whose
      load failed. */
  datatype ColumnOutcome =
    | ColumnOk(sections: seq<Option<Section>>, offset: nat)
    | ColumnFailed(slot: nat, error: LoadError)

  /** Decoding slots `0 .. n - 1`: a present slot loads into a new chunk, an
      absent one stays empty. */
  function DecodeSlots(f: seq<Field>, off: nat, meta: Metadata, version: int, n: nat): ColumnOutcome {
    if n == 0 then ColumnOk([], off)
    else match DecodeSlots(f, off, meta, version, n - 1)
      case ColumnFailed(slot, e) => ColumnFailed(slot, e)
      case ColumnOk(sections, o) =>
        if !SlotPresent(meta.sectionmask, n - 1) then ColumnOk(sections + [None], o)
        else match LoadSection(EmptySection, f, o, meta.skylight, version)
          case LoadFailed(e) => ColumnFailed(n - 1, e)
          case LoadOk(s, o') => ColumnOk(sections + [Some(s)], o')
  }

  /** A decoded column has one slot per decoded index, filled exactly where the
      mask has its bit set, and the buffer only moves forward. */
  lemma {:induction false} DecodeSlotsShape(f: seq<Field>, off: nat, meta: Metadata, version: int, n: nat)
    requires DecodeSlots(f, off, meta, version, n).ColumnOk?
    ensures var r := DecodeSlots(f, off, meta, version, n);
      |r.sections| == n && r.offset >= off &&
      forall k :: 0 <= k < n ==> (r.sections[k].Some? <==> SlotPresent(meta.sectionmask, k))
  {
    if n > 0 {
      DecodeSlotsShape(f, off, meta, version, n - 1);
      var r := DecodeSlots(f, off, meta, version, n - 1);
      if SlotPresent(meta.sectionmask, n - 1) {
        var o' := AfterLoad(f, r.offset, meta, version);
      }
    }
  }

  /** Where a successful load of a fresh chunk leaves the buffer: never behind
      where it started. */
  function AfterLoad(f: seq<Field>, o: nat, meta: Metadata, version: int): (o': nat)
    requires LoadSection(EmptySection, f, o, meta.skylight, version).LoadOk?
    ensures o' == LoadSection(EmptySection, f, o, meta.skylight, version).offset
    ensures o' >= o
  {
    LoadSection(EmptySection, f, o, meta.skylight, version).offset
  }

  /** Once a slot fails, the column fails at that slot. */
  lemma {:induction false} DecodeSlotsFailure(f: seq<Field>, off: nat, meta: Metadata, version: int, n: nat, m: nat)
    requires n <= m && DecodeSlots(f, off, meta, version, n).ColumnFailed?
    ensures DecodeSlots(f, off, meta, version, m) == DecodeSlots(f, off, meta, version, n)
  {
    if m > n {
      DecodeSlotsFailure(f, off, meta, version, n, m - 1);
    }
  }

  /** With an empty section mask nothing is read. */
  lemma {:induction false} EmptyMaskReadsNothing(f: seq<Field>, off: nat, meta: Metadata, version: int, n: nat)
    requires meta.sectionmask == 0
    ensures DecodeSlots(f, off, meta, version, n) == ColumnOk(NoSections(n), off)
  {
    if n > 0 {
      EmptyMaskReadsNothing(f, off, meta, version, n - 1);
      assert !SlotPresent(meta.sectionmask, n - 1);
    }
  }

  function NoSections(n: nat): (r: seq<Option<Section>>)
    ensures |r| == n && forall k :: 0 <= k < n ==> r[k] == None
  {
    if n == 0 then [] else NoSections(n - 1) + [None]
  }

  lemma DecodeNextPresent(f: seq<Field>, off: nat, meta: Metadata, version: int, i: nat,
                          sections: seq<Option<Section>>, o: nat, s: Section, o': nat)
    requires DecodeSlots(f, off, meta, version, i) == ColumnOk(sections, o)
    requires SlotPresent(meta.sectionmask, i)
    requires LoadSection(EmptySection, f, o, meta.skylight, version) == LoadOk(s, o')
    ensures DecodeSlots(f, off, meta, version, i + 1) == ColumnOk(sections + [Some(s)], o')
  {
  }

  lemma DecodeNextFails(f: seq<Field>, off: nat, meta: Metadata, version: int, i: nat,
                        sections: seq<Option<Section>>, o: nat)
    requires DecodeSlots(f, off, meta, version, i) == ColumnOk(sections, o)
    requires SlotPresent(meta.sectionmask, i)
    requires LoadSection(EmptySection, f, o, meta.skylight, version).LoadFailed?
    ensures DecodeSlots(f, off, meta, version, i + 1).ColumnFailed?
  {
  }

  /** The section a chunk slot holds, if any. */
  function SectionOf(c: Chunk?): Option<Section>
    reads c
  {
    if c == null then None else Some(c.Contents())
  }

  class ChunkColumn {
    const chunks: array<Chunk?>
    const metadata: Metadata
    const version: int
    var blockEntities: map<Vector3i, BlockEntity>

    predicate Valid()
      reads this
    {
      chunks.Length == ChunksPerColumn
    }

    /** The chunks the column points to. */
    function Sections(): set<Chunk>
      reads this, chunks
    {
      set k | 0 <= k < chunks.Length && chunks[k] != null :: chunks[k]
    }

    constructor(metadata: Metadata, version: int)
      ensures Valid() && fresh(chunks)
      ensures this.metadata == metadata && this.version == version
      ensures forall k :: 0 <= k < ChunksPerColumn ==> chunks[k] == null
      ensures blockEntities == map[]
    {
      this.metadata := metadata;
      this.version := version;
      chunks := new Chunk?[ChunksPerColumn](k => null);
      blockEntities := map[];
    }

    /** What `GetBlock` needs of the chunk it reads and does not check. */
    predicate CanGet(x: int, y: int, z: int)
      requires Valid()
      reads this, chunks, Sections()
    {
      var ci, ry := TruncDiv(y, 16), TruncRem(y, 16);
      0 <= ci < ChunksPerColumn && chunks[ci] != null && InSection(x, ry, z) ==>
        CanRead(chunks[ci].Contents(), Index(x, ry, z))
    }

    /** The block id at a column position: below 0 or above 255, or in a
        missing section, air (id 0); otherwise the section's block at the
        same x and z and at `y % 16`. */
    function GetBlock(x: int, y: int, z: int): (id: U16)
      requires Valid() && CanGet(x, y, z)
      reads this, chunks, Sections()
      ensures y < 0 || y >= 16 * ChunksPerColumn ==> id == 0
      ensures 0 <= y < 16 * ChunksPerColumn ==>
        id == if chunks[y / 16] == null then 0 else chunks[y / 16].GetBlock(x, y % 16, z)
    {
      TruncDivRem(y, 16);
      var chunkIndex := TruncDiv(y, 16);
      var relativeY := TruncRem(y, 16);
      if chunkIndex < 0 || chunkIndex > 15 || chunks[chunkIndex] == null then 0
      else chunks[chunkIndex].GetBlock(x, relativeY, z)
    }

    /** The block entity at a position, if there is one. */
    function GetBlockEntity(pos: Vector3i): (e: Option<BlockEntity>)
      reads this
      ensures e.Some? <==> pos in blockEntities
      ensures e.Some? ==> e.value == blockEntities[pos]
    {
      if pos in blockEntities then Some(blockEntities[pos]) else None
    }

    /** All block entities, one per position; `order` is the order of the
        positions they come in. */
    method GetBlockEntities() returns (es: seq<BlockEntity>, ghost order: seq<Vector3i>)
      ensures |order| == |es| == |blockEntities|
      ensures forall i, j :: 0 <= i < j < |order| ==> order[i] != order[j]
      ensures forall p :: p in blockEntities <==> p in order
      ensures forall i :: 0 <= i < |order| ==> order[i] in blockEntities && es[i] == blockEntities[order[i]]
      ensures forall e :: e in es <==> e in blockEntities.Values
    {
      es, order := [], [];
      var rest := blockEntities.Keys;
      while rest != {}
        invariant rest !! set p | p in order
        invariant forall p :: p in blockEntities <==> p in rest || p in order
        invariant forall i, j :: 0 <= i < j < |order| ==> order[i] != order[j]
        invariant |order| == |es| && |order| + |rest| == |blockEntities|
        invariant forall i :: 0 <= i < |order| ==> order[i] in blockEntities && es[i] == blockEntities[order[i]]
        decreases |rest|
      {
        var p :| p in rest;
        es, order := es + [blockEntities[p]], order + [p];
        rest := rest - {p};
      }
    }

    /** Slot `i` of `in >> column`: a new chunk, loaded from `buffer`. */
    method LoadSlot(i: nat, buffer: Cursor) returns (loaded: bool)
      requires Valid() && i < ChunksPerColumn
      modifies chunks, buffer
      ensures buffer.fields == old(buffer.fields)
      ensures forall k :: 0 <= k < ChunksPerColumn && k != i ==> chunks[k] == old(chunks[k])
      ensures chunks[i] != null && fresh(chunks[i])
      ensures var r := LoadSection(EmptySection, old(buffer.fields), old(buffer.offset), metadata.skylight, version);
        loaded == r.LoadOk? && (loaded ==> chunks[i].Contents() == r.section && buffer.offset == r.offset)
    {
      var c := new Chunk();
      chunks[i] := c;
      loaded := c.Load(buffer, metadata, version);
    }

    /** One iteration of `in >> column`: slot `i` gets a new chunk loaded from
        `buffer` when the section mask marks it, and is cleared otherwise. The
        decode of the slots so far is extended by this slot, or fails. */
    method DecodeSlot(i: nat, buffer: Cursor, ghost f: seq<Field>, ghost off: nat,
                      ghost sections: seq<Option<Section>>) returns (ok: bool)
      requires Valid() && i < ChunksPerColumn && buffer.fields == f
      requires DecodeSlots(f, off, metadata, version, i) == ColumnOk(sections, buffer.offset)
      modifies chunks, buffer
      ensures buffer.fields == f
      ensures forall k :: 0 <= k < ChunksPerColumn && k != i ==> chunks[k] == old(chunks[k])
      ensures chunks[i] != null ==> fresh(chunks[i])
      ensures ok ==> DecodeSlots(f, off, metadata, version, i + 1) == ColumnOk(sections + [SectionOf(chunks[i])], buffer.offset)
      ensures !ok ==> DecodeSlots(f, off, metadata, version, ChunksPerColumn).ColumnFailed?
    {
      if SlotPresent(metadata.sectionmask, i) {
        ghost var o := buffer.offset;
        ok := LoadSlot(i, buffer);
        if !ok {
          DecodeNextFails(f, off, metadata, version, i, sections, o);
          DecodeSlotsFailure(f, off, metadata, version, i + 1, ChunksPerColumn);
          return;
        }
        DecodeNextPresent(f, off, metadata, version, i, sections, o, chunks[i].Contents(), buffer.offset);
      } else {
        chunks[i] := null;
        ok := true;
      }
    }

    /** `in >> column`: every slot the section mask marks gets a new chunk loaded
        from `buffer`, every other slot is cleared. */
    method Decode(buffer: Cursor) returns (ok: bool)
      requires Valid()
      modifies chunks, buffer
      ensures buffer.fields == old(buffer.fields)
      ensures var r := DecodeSlots(old(buffer.fields), old(buffer.offset), metadata, version, ChunksPerColumn);
        ok == r.ColumnOk? &&
        (ok ==> buffer.offset == r.offset && |r.sections| == ChunksPerColumn &&
                forall k :: 0 <= k < ChunksPerColumn ==> SectionOf(chunks[k]) == r.sections[k])
      ensures ok ==> forall k :: 0 <= k < ChunksPerColumn && chunks[k] != null ==> fresh(chunks[k])
      ensures ok ==> forall j, k :: 0 <= j < k < ChunksPerColumn && chunks[j] != null ==> chunks[j] != chunks[k]
    {
      ghost var f, off := buffer.fields, buffer.offset;
      ghost var sections: seq<Option<Section>> := [];
      for i := 0 to ChunksPerColumn
        invariant buffer.fields == f
        invariant DecodeSlots(f, off, metadata, version, i) == ColumnOk(sections, buffer.offset)
        invariant |sections| == i
        invariant forall k :: 0 <= k < i ==> SectionOf(chunks[k]) == sections[k]
        invariant forall k :: 0 <= k < i && chunks[k] != null ==> fresh(chunks[k])
        invariant forall j, k :: 0 <= j < k < i && chunks[j] != null ==> chunks[j] != chunks[k]
      {
        ok := DecodeSlot(i, buffer, f, off, sections);
        if !ok {
          return;
        }
        sections := sections + [SectionOf(chunks[i])];
      }
      ok := true;
    }
  }
}
