/** Items and the item registry (`Item` and `ItemRegistry` in the source). An
    item id carries the item type in its upper bits and a 4-bit "meta" variant
    in its low bits; a lookup that misses falls back to the variant 0 id. */
module Items {
  import opened Wire

  /** An item: its name, its id, and the block it places (none yet; block
      objects are represented by their ids). */
  class Item {
    const name: string
    const data: U32
    const block: Option<nat>

    constructor(name: string, data: U32)
      ensures GetName() == name && GetID() == data && GetBlock() == None
    {
      this.name := name;
      this.data := data;
      block := None;
    }

    function GetName(): string {
      name
    }

    function GetID(): U32 {
      data
    }

    function GetBlock(): Option<nat> {
      block
    }
  }

  /** `data & ~15`: the id with its meta bits cleared. */
  function BaseId(data: U32): (b: U32)
    ensures b % 16 == 0 && b <= data < b + 16
  {
    data - data % 16
  }

  /** Clearing the meta bits twice clears them once. */
  lemma BaseIdIdempotent(data: U32)
    ensures BaseId(BaseId(data)) == BaseId(data)
  {
  }

  /** `(u16)((type << 4) | (meta & 15))`. The shifted type has its low 4 bits
      clear, so the OR adds the meta bits. */
  function TypeMetaId(kind: U16, meta: U16): (d: U16)
    ensures d / 16 == kind % 4096 && d % 16 == meta % 16
  {
    (kind * 16 + meta % 16) % 0x1_0000
  }

  /** Only the low 4 bits of `meta` matter. */
  lemma TypeMetaLowBits(kind: U16, meta: U16, meta': U16)
    requires meta % 16 == meta' % 16
    ensures TypeMetaId(kind, meta) == TypeMetaId(kind, meta')
  {
    var d, d' := TypeMetaId(kind, meta), TypeMetaId(kind, meta');
    assert d == (d / 16) * 16 + d % 16;
    assert d' == (d' / 16) * 16 + d' % 16;
  }

  /** Types wrap around at 4096, as the 16-bit id has room for 12 bits of type. */
  lemma TypeMetaWraps(kind: U16, kind': U16, meta: U16)
    requires kind % 4096 == kind' % 4096
    ensures TypeMetaId(kind, meta) == TypeMetaId(kind', meta)
  {
    var d, d' := TypeMetaId(kind, meta), TypeMetaId(kind', meta);
    assert d == (d / 16) * 16 + d % 16;
    assert d' == (d' / 16) * 16 + d' % 16;
  }

  /** A kind and meta id falls back to the meta 0 id of the same kind. */
  lemma TypeMetaBase(kind: U16, meta: U16)
    ensures BaseId(TypeMetaId(kind, meta)) == TypeMetaId(kind, 0)
  {
    var d, d0 := TypeMetaId(kind, meta), TypeMetaId(kind, 0);
    assert d == (d / 16) * 16 + d % 16;
    assert d0 == (d0 / 16) * 16 + d0 % 16;
  }

  /** The registry: items by id and by name. */
  class ItemRegistry {
    var items: map<U32, Item>
    var names: map<string, Item>

    constructor()
      ensures items == map[] && names == map[]
    {
      items := map[];
      names := map[];
    }

    /** `GetItem(data)`: the item registered under `data`, else the one under
        its meta 0 id, else none. */
    function GetItem(data: U32): (r: Option<Item>)
      reads this
      ensures data in items ==> r == Some(items[data])
      ensures data !in items ==> (r.Some? <==> BaseId(data) in items)
      ensures data !in items && r.Some? ==> r.value == items[BaseId(data)]
    {
      if data in items then Some(items[data])
      else if BaseId(data) in items then Some(items[BaseId(data)])
      else None
    }

    /** `GetItem(name)`: exact lookup, no fallback. */
    function GetItemByName(name: string): (r: Option<Item>)
      reads this
      ensures r.Some? <==> name in names
      ensures r.Some? ==> r.value == names[name]
    {
      if name in names then Some(names[name]) else None
    }

    /** `GetItem(kind, meta)`: the lookup of the composed id. */
    function GetItemTypeMeta(kind: U16, meta: U16): (r: Option<Item>)
      reads this
      ensures r == GetItem(TypeMetaId(kind, meta))
    {
      GetItem(TypeMetaId(kind, meta))
    }

    /** Register `item` under its id and its name, replacing what was there. */
    method RegisterItem(item: Item)
      modifies this
      ensures items == old(items)[item.GetID() := item]
      ensures names == old(names)[item.GetName() := item]
      ensures GetItem(item.GetID()) == Some(item) && GetItemByName(item.GetName()) == Some(item)
      ensures forall d: U32 :: d != item.GetID() && (d in old(items) || BaseId(d) != item.GetID()) ==>
        GetItem(d) == old(GetItem(d))
      ensures forall n :: n != item.GetName() ==> GetItemByName(n) == old(GetItemByName(n))
    {
      items := items[item.GetID() := item];
      names := names[item.GetName() := item];
    }
  }

  /** A miss is the lookup of the meta 0 id. */
  lemma MissFallsBack(registry: ItemRegistry, data: U32)
    requires data !in registry.items
    ensures registry.GetItem(data) == registry.GetItem(BaseId(data))
  {
    BaseIdIdempotent(data);
  }

  /** The lookup of a meta 0 id never falls back further. */
  lemma BaseLookupExact(registry: ItemRegistry, data: U32)
    requires data % 16 == 0
    ensures registry.GetItem(data).Some? <==> data in registry.items
  {
  }
}
