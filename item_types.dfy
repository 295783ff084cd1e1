/** The item-type catalog: a version bucket chosen from the running server
    version, lazily loaded id mappings, and the key and id indexes that every
    `define` extends. */
module ItemTypes {
  import opened Common
  import opened Versions
  import opened Registry

  datatype ItemAttribute =
    | MUSIC_DISC | EDIBLE | FIRE_RESISTANT
    | WOOD_TIER | STONE_TIER | IRON_TIER | DIAMOND_TIER | GOLD_TIER | NETHERITE_TIER

  /** `ResourceLocation` (defined elsewhere in packetevents): a namespace and a key. */
  datatype ResourceLocation = ResourceLocation(namespace: string, key: string) {
    function ToString(): string {
      namespace + ":" + key
    }
  }

  /** `ResourceLocation.minecraft(key)`. */
  function Minecraft(key: string): ResourceLocation {
    ResourceLocation("minecraft", key)
  }

  /** The anonymous `ItemType` a `define` builds. */
  datatype ItemType = ItemType(
    maxAmount: Int32,
    maxDurability: Int32,
    identifier: ResourceLocation,
    id: int,
    musicDisc: bool,
    craftRemainder: Option<ItemType>)
  {
    function GetId(): int {
      id
    }

    predicate IsMusicDisc() {
      musicDisc
    }

    /** `equals`: two item types are the same item when their ids agree. */
    predicate Equals(other: ItemType) {
      GetId() == other.GetId()
    }
  }

  /** The versions that have an item mapping table, oldest first. */
  const ItemBuckets: seq<ServerVersion> :=
    [V_1_12, V_1_13, V_1_13_2, V_1_14, V_1_15, V_1_16, V_1_17, V_1_18]

  /** `getMappingServerVersion`: every release before 1.13 shares the 1.12 table;
      from 1.13 on, a version uses the newest table that is not newer than itself. */
  function MappingServerVersion(v: ServerVersion): (b: ServerVersion)
    ensures b in ItemBuckets
    ensures v.IsOlderThan(V_1_13) ==> b == V_1_12
    ensures v.IsNewerThanOrEquals(V_1_13) ==> !v.IsOlderThan(b)
  {
    if v.IsOlderThan(V_1_13) then V_1_12
    else if v.IsOlderThan(V_1_13_2) then V_1_13
    else if v.IsOlderThan(V_1_14) then V_1_13_2
    else if v.IsOlderThan(V_1_15) then V_1_14
    else if v.IsOlderThan(V_1_16) then V_1_15
    else if v.IsOlderThan(V_1_17) then V_1_16
    else if v.IsOlderThan(V_1_18) then V_1_17
    else V_1_18
  }

  /** From 1.13 on, the table is the newest one that is not newer than the server. */
  lemma MappingServerVersionNearest(v: ServerVersion, i: nat)
    requires v.IsNewerThanOrEquals(V_1_13)
    requires i < |ItemBuckets| && !v.IsOlderThan(ItemBuckets[i])
    ensures !MappingServerVersion(v).IsOlderThan(ItemBuckets[i])
  {
  }

  /** A newer server never uses an older table. */
  lemma MappingServerVersionMonotonic(v1: ServerVersion, v2: ServerVersion)
    requires !v2.IsOlderThan(v1)
    ensures !MappingServerVersion(v2).IsOlderThan(MappingServerVersion(v1))
  {
  }

  /** The type the five-argument `define` builds from the loaded document `doc`
      on server version `version`, or the exception it throws. */
  function NewItemType(doc: Document, version: ServerVersion, maxAmount: Int32, key: string,
                       craftRemainder: Option<ItemType>, maxDurability: Int32,
                       attributes: seq<ItemAttribute>): (r: Result<ItemType, MappingError>)
    ensures var bucket := MappingServerVersion(version).Name();
      && (r.Failure? <==> bucket !in doc)
      && (r.Success? ==>
            && r.value.identifier.key == key
            && r.value.GetId() == ResolveId(doc, bucket, "minecraft:" + key).value
            && (r.value.IsMusicDisc() <==> MUSIC_DISC in attributes)
            && r.value.maxAmount == maxAmount && r.value.maxDurability == maxDurability
            && r.value.craftRemainder == craftRemainder)
  {
    var identifier := Minecraft(key);
    assert identifier.ToString() == "minecraft:" + key;
    match ResolveId(doc, MappingServerVersion(version).Name(), identifier.ToString())
    case Failure(e) => Failure(e)
    case Success(id) =>
      Success(ItemType(maxAmount, maxDurability, identifier, id, MUSIC_DISC in attributes, craftRemainder))
  }

  /** `getId` and `isMusicDisc` of a defined type: the id the document maps
      `"minecraft:" + key` to in the bucket, or -1 when the bucket lacks that
      key; and whether MUSIC_DISC was among the attributes. */
  lemma DefinedItemAccessors(doc: Document, version: ServerVersion, maxAmount: Int32, key: string,
                             craftRemainder: Option<ItemType>, maxDurability: Int32,
                             attributes: seq<ItemAttribute>)
    requires NewItemType(doc, version, maxAmount, key, craftRemainder, maxDurability, attributes).Success?
    ensures var t := NewItemType(doc, version, maxAmount, key, craftRemainder, maxDurability, attributes).value;
      var ids := doc[MappingServerVersion(version).Name()];
      && ("minecraft:" + key in ids ==> t.GetId() == ids["minecraft:" + key])
      && ("minecraft:" + key !in ids ==> t.GetId() == UNMAPPED)
      && (t.IsMusicDisc() <==> MUSIC_DISC in attributes)
  {
  }

  /** `equals` is an equivalence: reflexive, symmetric and transitive. */
  lemma EqualsIsEquivalence(a: ItemType, b: ItemType, c: ItemType)
    ensures a.Equals(a)
    ensures a.Equals(b) ==> b.Equals(a)
    ensures a.Equals(b) && b.Equals(c) ==> a.Equals(c)
  {
  }

  /** Two types defined from the same bucket are equal exactly when the
      document gives their keys the same id, whatever their other fields;
      unmapped keys all count as -1. */
  lemma DefinedItemsEqualIffSameId(doc: Document, version: ServerVersion,
                                   k1: string, m1: Int32, r1: Option<ItemType>, d1: Int32, a1: seq<ItemAttribute>,
                                   k2: string, m2: Int32, r2: Option<ItemType>, d2: Int32, a2: seq<ItemAttribute>)
    requires MappingServerVersion(version).Name() in doc
    ensures var bucket := MappingServerVersion(version).Name();
      var t1 := NewItemType(doc, version, m1, k1, r1, d1, a1);
      var t2 := NewItemType(doc, version, m2, k2, r2, d2, a2);
      && t1.Success? && t2.Success?
      && (t1.value.Equals(t2.value) <==>
            ResolveId(doc, bucket, "minecraft:" + k1).value == ResolveId(doc, bucket, "minecraft:" + k2).value)
  {
  }

  /** Two items whose keys the bucket does not mention both get the sentinel id,
      so `equals` cannot tell them apart. */
  lemma UnmappedItemsCollide(doc: Document, version: ServerVersion,
                             ka: string, ma: Int32, ra: Option<ItemType>, da: Int32, aa: seq<ItemAttribute>,
                             kb: string, mb: Int32, rb: Option<ItemType>, db: Int32, ab: seq<ItemAttribute>)
    requires MappingServerVersion(version).Name() in doc
    requires "minecraft:" + ka !in doc[MappingServerVersion(version).Name()]
    requires "minecraft:" + kb !in doc[MappingServerVersion(version).Name()]
    ensures var ta := NewItemType(doc, version, ma, ka, ra, da, aa);
      var tb := NewItemType(doc, version, mb, kb, rb, db, ab);
      && ta.Success? && tb.Success?
      && ta.value.GetId() == UNMAPPED && tb.value.GetId() == UNMAPPED
      && ta.value.Equals(tb.value)
  {
  }

  // ---------------------------------------------------------------- CHAINMAIL_BOOTS

  /** CHAINMAIL_BOOTS as the catalog defines it: the durability has slipped
      inside the key's quotes, so the two-argument `define` runs with the key
      "chainmail_boots, 195" and no durability. */
  function ChainmailBootsAsWritten(doc: Document, version: ServerVersion): (r: Result<ItemType, MappingError>)
    ensures r.Success? ==> r.value.identifier.key == "chainmail_boots, 195" && r.value.maxDurability == 0
  {
    NewItemType(doc, version, 1, "chainmail_boots, 195", None, 0, [])
  }

  /** CHAINMAIL_BOOTS as its siblings (IRON_BOOTS, CHAINMAIL_HELMET, ...) are
      defined: key "chainmail_boots", durability 195. */
  function ChainmailBoots(doc: Document, version: ServerVersion): (r: Result<ItemType, MappingError>)
    ensures r.Success? ==> r.value.identifier.key == "chainmail_boots" && r.value.maxDurability == 195
  {
    NewItemType(doc, version, 1, "chainmail_boots", None, 195, [])
  }

  /** As written, the boots get the sentinel id from any document with no key
      that has a comma in it, as no real one has. */
  lemma ChainmailBootsTypo(doc: Document, version: ServerVersion)
    requires MappingServerVersion(version).Name() in doc
    requires "minecraft:" + "chainmail_boots, 195" !in doc[MappingServerVersion(version).Name()]
    ensures ChainmailBootsAsWritten(doc, version).Success?
    ensures ChainmailBootsAsWritten(doc, version).value.GetId() == UNMAPPED
  {
  }

  /** As written, whatever the document, the boots are not filed under
      "chainmail_boots" and have no durability. */
  lemma ChainmailBootsMisfiled(doc: Document, version: ServerVersion)
    ensures var r := ChainmailBootsAsWritten(doc, version);
      r.Success? ==> r.value.identifier.key != "chainmail_boots" && r.value.maxDurability != 195
  {
    assert |"chainmail_boots, 195"| != |"chainmail_boots"|;
  }

  /** Corrected, the boots get the document's id for "minecraft:chainmail_boots"
      and a durability of 195. */
  lemma ChainmailBootsFixed(doc: Document, version: ServerVersion)
    requires MappingServerVersion(version).Name() in doc
    requires "minecraft:chainmail_boots" in doc[MappingServerVersion(version).Name()]
    ensures ChainmailBoots(doc, version).Success?
    ensures ChainmailBoots(doc, version).value.GetId()
         == doc[MappingServerVersion(version).Name()]["minecraft:chainmail_boots"]
    ensures ChainmailBoots(doc, version).value.maxDurability == 195
  {
    assert "minecraft:" + "chainmail_boots" == "minecraft:chainmail_boots";
  }

  /** So a document that maps the boots to an id gives them a different id
      as written than as intended. */
  lemma ChainmailBootsIdDiffers(doc: Document, version: ServerVersion)
    requires MappingServerVersion(version).Name() in doc
    requires "minecraft:chainmail_boots" in doc[MappingServerVersion(version).Name()]
    requires doc[MappingServerVersion(version).Name()]["minecraft:chainmail_boots"] >= 0
    requires "minecraft:" + "chainmail_boots, 195" !in doc[MappingServerVersion(version).Name()]
    ensures ChainmailBootsAsWritten(doc, version).Success? && ChainmailBoots(doc, version).Success?
    ensures ChainmailBootsAsWritten(doc, version).value.GetId() != ChainmailBoots(doc, version).value.GetId()
  {
    ChainmailBootsTypo(doc, version);
    ChainmailBootsFixed(doc, version);
  }

  /** The static item catalog: its two indexes and the lazily loaded document. */
  class ItemTypeRegistry {
    /** The document `MappingHelper` reads from "item/item_type_mappings". */
    const resource: Document
    /** The version the server manager reports; fixed for the process. */
    const serverVersion: ServerVersion

    /** `MAPPINGS`: null until the first `define`. */
    var mappings: Option<Document>
    /** `ITEM_TYPE_MAP`, keyed by the bare key. */
    var itemTypeMap: map<string, ItemType>
    /** `ITEM_TYPE_ID_MAP`. */
    var itemTypeIdMap: map<int, ItemType>

    /** Every `put` into either map so far, in order. */
    ghost var keyLog: seq<(string, ItemType)>
    ghost var idLog: seq<(int, ItemType)>
    /** How many times the document has been loaded. */
    ghost var loads: nat

    ghost predicate Valid()
      reads this
    {
      && (mappings.Some? ==> mappings.value == resource)
      && loads == (if mappings.Some? then 1 else 0)
      && (mappings.None? ==> keyLog == [] && idLog == [])
      && itemTypeMap == Assign(keyLog)
      && itemTypeIdMap == Assign(idLog)
    }

    constructor (resource: Document, serverVersion: ServerVersion)
      ensures Valid()
      ensures this.resource == resource && this.serverVersion == serverVersion
      ensures mappings == None && itemTypeMap == map[] && itemTypeIdMap == map[]
      ensures keyLog == [] && idLog == [] && loads == 0
    {
      this.resource := resource;
      this.serverVersion := serverVersion;
      mappings := None;
      itemTypeMap := map[];
      itemTypeIdMap := map[];
      keyLog := [];
      idLog := [];
      loads := 0;
    }

    /** The five-argument `define`. */
    method Define(maxAmount: Int32, key: string, craftRemainder: Option<ItemType>,
                  maxDurability: Int32, attributes: seq<ItemAttribute>)
      returns (r: Result<ItemType, MappingError>)
      requires Valid()
      modifies this
      ensures Valid()
      ensures mappings == Some(resource)
      ensures old(mappings).Some? ==> mappings == old(mappings)
      ensures loads == 1 && (old(mappings).Some? ==> loads == old(loads))
      ensures r == NewItemType(resource, serverVersion, maxAmount, key, craftRemainder, maxDurability, attributes)
      ensures r.Failure? ==>
        && itemTypeMap == old(itemTypeMap) && itemTypeIdMap == old(itemTypeIdMap)
        && keyLog == old(keyLog) && idLog == old(idLog)
      ensures r.Success? ==>
        && itemTypeMap == old(itemTypeMap)[key := r.value]
        && itemTypeIdMap == old(itemTypeIdMap)[r.value.GetId() := r.value]
        && keyLog == old(keyLog) + [(key, r.value)]
        && idLog == old(idLog) + [(r.value.GetId(), r.value)]
      ensures r.Success? ==> GetByKey(key) == Some(r.value)
      ensures r.Success? ==> forall air :: GetById(r.value.GetId(), air) == r.value
    {
      if mappings.None? {
        mappings := Some(resource);
        loads := loads + 1;
      }
      var identifier := Minecraft(key);
      var id: int;
      var mappingsVersion := MappingServerVersion(serverVersion);
      if mappingsVersion.Name() in mappings.value {
        var ids := mappings.value[mappingsVersion.Name()];
        if identifier.ToString() in ids {
          id := ids[identifier.ToString()];
        } else {
          id := -1;
        }
      } else {
        return Failure(MissingMappings(mappingsVersion.Name()));
      }
      var musicDisc := MUSIC_DISC in attributes;
      var t := ItemType(maxAmount, maxDurability, identifier, id, musicDisc, craftRemainder);
      assert ResolveId(resource, mappingsVersion.Name(), identifier.ToString()) == Success(id);
      assert Success(t) == NewItemType(resource, serverVersion, maxAmount, key, craftRemainder, maxDurability, attributes);
      Put(t);
      r := Success(t);
    }

    /** The two `put`s that end `define`: afterwards both lookups find `t`. */
    method Put(t: ItemType)
      requires Valid() && mappings.Some?
      modifies this`itemTypeMap, this`itemTypeIdMap, this`keyLog, this`idLog
      ensures Valid()
      ensures itemTypeMap == old(itemTypeMap)[t.identifier.key := t]
      ensures itemTypeIdMap == old(itemTypeIdMap)[t.GetId() := t]
      ensures keyLog == old(keyLog) + [(t.identifier.key, t)]
      ensures idLog == old(idLog) + [(t.GetId(), t)]
      ensures GetByKey(t.identifier.key) == Some(t)
      ensures forall air :: GetById(t.GetId(), air) == t
    {
      AssignAppend(keyLog, t.identifier.key, t);
      AssignAppend(idLog, t.GetId(), t);
      itemTypeMap := itemTypeMap[t.identifier.key := t];
      itemTypeIdMap := itemTypeIdMap[t.GetId() := t];
      keyLog := keyLog + [(t.identifier.key, t)];
      idLog := idLog + [(t.GetId(), t)];
    }

    /** The CHAINMAIL_BOOTS definition, corrected: afterwards `getByKey`
        finds the boots under their own key. */
    method DefineChainmailBoots() returns (r: Result<ItemType, MappingError>)
      requires Valid()
      modifies this
      ensures Valid()
      ensures r == ChainmailBoots(resource, serverVersion)
      ensures r.Success? ==> GetByKey("chainmail_boots") == Some(r.value)
    {
      r := Define(1, "chainmail_boots", None, 195, []);
    }

    /** `getByKey`: the type most recently defined under `key`, or null. */
    function GetByKey(key: string): (r: Option<ItemType>)
      reads this
      requires Valid()
      ensures r.Some? <==> LastIndexOf(keyLog, key).Some?
      ensures r.Some? ==> r.value == keyLog[LastIndexOf(keyLog, key).value].1
    {
      LastWriterWins(keyLog, key);
      if key in itemTypeMap then Some(itemTypeMap[key]) else None
    }

    /** `getById`: the type most recently defined with `id`; `air` (the catalog's
        `AIR` constant) when no type has that id. */
    function GetById(id: int, air: ItemType): (r: ItemType)
      reads this
      requires Valid()
      ensures LastIndexOf(idLog, id).Some? ==> r == idLog[LastIndexOf(idLog, id).value].1
      ensures LastIndexOf(idLog, id).None? ==> r == air
    {
      LastWriterWins(idLog, id);
      var cache := if id in itemTypeIdMap then Some(itemTypeIdMap[id]) else None;
      if cache.None? then air else cache.value
    }
  }
}
