/** The fixed-width integers, protocol versions and input buffer the core works
    with. The buffer (`DataBuffer` in the source) is modelled one level above its
    bytes: as a sequence of already-decoded fields and a read cursor that moves
    one field per read. */
module Wire {
  import opened Bits

  type U8 = x: int | 0 <= x < 0x100
  type U16 = x: int | 0 <= x < 0x1_0000
  type U32 = x: int | 0 <= x < 0x1_0000_0000
  type S32 = x: int | -0x8000_0000 <= x < 0x8000_0000
  type S64 = x: int | -0x8000_0000_0000_0000 <= x < 0x8000_0000_0000_0000

  /** Protocol versions, ordered by their protocol numbers; only the order is used. */
  const Minecraft_1_13_2: int := 404
  const Minecraft_1_14_2: int := 485
  const Minecraft_1_15_2: int := 578

  datatype Option<T> = None | Some(value: T)

  /** One decoded item of an inbound or outbound buffer. */
  datatype Field =
    | U8Field(u8: U8)
    | U16Field(u16: U16)
    | VarIntField(varint: S32)
    | U64Field(u64: U64)

  function U8At(fields: seq<Field>, offset: nat): (r: Option<U8>)
    ensures r.Some? <==> offset < |fields| && fields[offset].U8Field?
  {
    if offset < |fields| && fields[offset].U8Field? then Some(fields[offset].u8) else None
  }

  function U16At(fields: seq<Field>, offset: nat): (r: Option<U16>)
    ensures r.Some? <==> offset < |fields| && fields[offset].U16Field?
  {
    if offset < |fields| && fields[offset].U16Field? then Some(fields[offset].u16) else None
  }

  function VarIntAt(fields: seq<Field>, offset: nat): (r: Option<S32>)
    ensures r.Some? <==> offset < |fields| && fields[offset].VarIntField?
  {
    if offset < |fields| && fields[offset].VarIntField? then Some(fields[offset].varint) else None
  }

  function U64At(fields: seq<Field>, offset: nat): (r: Option<U64>)
    ensures r.Some? <==> offset < |fields| && fields[offset].U64Field?
  {
    if offset < |fields| && fields[offset].U64Field? then Some(fields[offset].u64) else None
  }

  /** `n` consecutive VarInts from `offset` on, or `None` if any is missing. */
  function VarIntsAt(fields: seq<Field>, offset: nat, n: nat): (r: Option<seq<S32>>)
    ensures r.Some? ==> |r.value| == n
    ensures r.Some? <==> forall k :: offset <= k < offset + n ==> VarIntAt(fields, k).Some?
    ensures r.Some? ==> forall k :: 0 <= k < n ==> Some(r.value[k]) == VarIntAt(fields, offset + k)
  {
    if forall k :: offset <= k < offset + n ==> VarIntAt(fields, k).Some?
    then Some(seq(n, k requires 0 <= k < n => VarIntAt(fields, offset + k).value))
    else None
  }

  /** `n` consecutive `u64` fields from `offset` on, or `None` if any is missing. */
  function U64sAt(fields: seq<Field>, offset: nat, n: nat): (r: Option<seq<U64>>)
    ensures r.Some? ==> |r.value| == n
    ensures r.Some? <==> forall k :: offset <= k < offset + n ==> U64At(fields, k).Some?
    ensures r.Some? ==> forall k :: 0 <= k < n ==> Some(r.value[k]) == U64At(fields, offset + k)
  {
    if forall k :: offset <= k < offset + n ==> U64At(fields, k).Some?
    then Some(seq(n, k requires 0 <= k < n => U64At(fields, offset + k).value))
    else None
  }

  /** A `DataBuffer`: its fields and its read offset. A read that finds no field
      of the expected kind fails and leaves the offset where it was. */
  class Cursor {
    var fields: seq<Field>
    var offset: nat

    constructor(fields: seq<Field>)
      ensures this.fields == fields && offset == 0
    {
      this.fields := fields;
      offset := 0;
    }

    method ReadU8() returns (r: Option<U8>)
      modifies this
      ensures fields == old(fields)
      ensures r == U8At(fields, old(offset))
      ensures offset == if r.Some? then old(offset) + 1 else old(offset)
    {
      r := U8At(fields, offset);
      if r.Some? {
        offset := offset + 1;
      }
    }

    method ReadU16() returns (r: Option<U16>)
      modifies this
      ensures fields == old(fields)
      ensures r == U16At(fields, old(offset))
      ensures offset == if r.Some? then old(offset) + 1 else old(offset)
    {
      r := U16At(fields, offset);
      if r.Some? {
        offset := offset + 1;
      }
    }

    method ReadVarInt() returns (r: Option<S32>)
      modifies this
      ensures fields == old(fields)
      ensures r == VarIntAt(fields, old(offset))
      ensures offset == if r.Some? then old(offset) + 1 else old(offset)
    {
      r := VarIntAt(fields, offset);
      if r.Some? {
        offset := offset + 1;
      }
    }

    method ReadU64() returns (r: Option<U64>)
      modifies this
      ensures fields == old(fields)
      ensures r == U64At(fields, old(offset))
      ensures offset == if r.Some? then old(offset) + 1 else old(offset)
    {
      r := U64At(fields, offset);
      if r.Some? {
        offset := offset + 1;
      }
    }

    /** `SetReadOffset(GetReadOffset() + n)`; it does no bounds check. */
    method Advance(n: nat)
      modifies this
      ensures fields == old(fields) && offset == old(offset) + n
    {
      offset := offset + n;
    }

    /** Append a `u64` (a signed value is written as its two's complement). */
    method WriteU64(v: U64)
      modifies this
      ensures fields == old(fields) + [U64Field(v)] && offset == old(offset)
    {
      fields := fields + [U64Field(v)];
    }
  }
}
