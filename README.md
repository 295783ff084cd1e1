# packetevents registries and outbound encoder, in Dafny

This project models three pieces of packetevents, a Minecraft protocol library
for Java servers, and proves properties of the model.

- **The item-type catalog** (`ItemTypes`). The running server version is mapped
  to one of eight mapping buckets. Every `define` loads the mapping document
  once, resolves the item's numeric id from its bucket, and files the new type
  in a key index and an id index. `getById` falls back to `AIR`.
- **The entity-metadata type catalog** (`EntityDataTypes`). It has the same
  lazy load and the same two indexes, with four buckets. The codec factories
  also pick, once, from the server version, the read and write closures for
  ints (VarInt from 1.9 on, a 4-byte int before), block positions (packed from
  1.9 on, three ints before) and optional values (a presence boolean, then the
  payload).
- **The modern outbound encoder** (`PacketEncoderModern`). It copies each
  packet into a buffer of its own. Until it has seen a "compress" stage, it
  checks whether that stage sits after it, and if so decompresses the packet
  and reorders the handlers. It lets listeners see and edit the packet, puts the
  reader index back, recompresses when asked, and balances the buffer's
  reference count.

Files:
- `common.dfy` holds Option/Result, bytes and Java `int`s.
- `versions.dfy` holds the server-version order.
- `registry.dfy` holds what both catalogs share: id resolution, and the
  last-writer-wins indexes.
- `item_types.dfy` and `entity_data_types.dfy` are the two catalogs.
- `primitives.dfy` holds the boolean, int and VarInt encodings of
  `PacketWrapper` and its cursor.
- `packet_encoder.dfy` holds the encoder, with Netty's `ByteBuf` as a class
  with `bytes`, `readerIndex` and `refCnt`.

The catalogs and the encoder change state in place, so each is a class. Their
methods are proved against pure functions: `NewItemType`,
`NewEntityDataType`, the codecs, and `EncodeSpec`. The lemmas are stated
about those functions.

Two behaviours of the code are worth stating up front:
- The table a catalog picks can be newer than the server. `ItemTypes` sends
  every release before 1.13 to the 1.12 table. `EntityDataTypes` sends 1.7.10
  to the 1.8 table, and 1.13 to 1.15.2 to the 1.16 table
  (`EntityDataTypes.BucketAheadOfServer`).
- The compression-order check runs again on every packet until a "compress"
  stage exists, because the flag is only set once that stage is found
  (PacketEncoderModern.java:63-65, `PacketEncoder.CheckRerunsUntilCompressAppears`).

## Model

| member | source | states |
|---|---|---|
| `Registry.ResolveId` | api/src/main/java/com/github/retrooper/packetevents/protocol/item/type/ItemTypes.java:91-101 | A missing bucket is an error naming that bucket. A present bucket gives the mapped id, or -1 when it lacks the name. |
| `Registry.SentinelMeansUnmapped` | api/src/main/java/com/github/retrooper/packetevents/protocol/item/type/ItemTypes.java:93-98 | When no mapped id is negative, resolving to -1 means exactly that the bucket is present and lacks the name. |
| `Registry.LastWriterWins` | api/src/main/java/com/github/retrooper/packetevents/protocol/item/type/ItemTypes.java:145-146 | After a run of `put`s, a key is in the map iff some `put` wrote it, and it holds the value of the last such `put`. |
| `Registry.Shadowed` | api/src/main/java/com/github/retrooper/packetevents/protocol/item/type/ItemTypes.java:146 | A later `put` with the same key hides an earlier one for good. |
| `ItemTypes.MappingServerVersion` | api/src/main/java/com/github/retrooper/packetevents/protocol/item/type/ItemTypes.java:46-64 | The bucket is one of the eight. Every version before 1.13 gets V_1_12. From 1.13 on, the bucket is not newer than the server. |
| `ItemTypes.MappingServerVersionNearest` | api/src/main/java/com/github/retrooper/packetevents/protocol/item/type/ItemTypes.java:49-63 | From 1.13 on, no bucket that is not newer than the server is newer than the chosen one. |
| `ItemTypes.MappingServerVersionMonotonic` | api/src/main/java/com/github/retrooper/packetevents/protocol/item/type/ItemTypes.java:46-64 | A newer server never gets an older bucket. |
| `ItemTypes.NewItemType` | api/src/main/java/com/github/retrooper/packetevents/protocol/item/type/ItemTypes.java:82-148 | `define` throws iff the bucket is missing. Otherwise: the key is the bare key, the id is what `"minecraft:" + key` resolves to, `isMusicDisc` holds iff MUSIC_DISC is among the attributes, and the other fields are as given. |
| `ItemTypes.UnmappedItemsCollide` | api/src/main/java/com/github/retrooper/packetevents/protocol/item/type/ItemTypes.java:97-146 | Two keys the bucket does not mention both get id -1, so `equals` calls them the same item, whatever the other `define` arguments of each are. |
| `ItemTypes.DefinedItemAccessors` | api/src/main/java/com/github/retrooper/packetevents/protocol/item/type/ItemTypes.java:122-130 | `getId` of a defined type is the id the bucket maps `"minecraft:" + key` to, or -1 when the bucket lacks it. `isMusicDisc` holds iff MUSIC_DISC was among the attributes. |
| `ItemTypes.EqualsIsEquivalence` | api/src/main/java/com/github/retrooper/packetevents/protocol/item/type/ItemTypes.java:138-143 | `equals`, comparing ids, is reflexive, symmetric and transitive. |
| `ItemTypes.DefinedItemsEqualIffSameId` | api/src/main/java/com/github/retrooper/packetevents/protocol/item/type/ItemTypes.java:138-143 | Two types defined from a present bucket are `equals` exactly when their keys resolve to the same id, whatever their other fields. |
| `ItemTypes.ChainmailBootsAsWritten` | api/src/main/java/com/github/retrooper/packetevents/protocol/item/type/ItemTypes.java:456 | As written, CHAINMAIL_BOOTS carries the key "chainmail_boots, 195" and durability 0. |
| `ItemTypes.ChainmailBootsTypo` | api/src/main/java/com/github/retrooper/packetevents/protocol/item/type/ItemTypes.java:456 | As written, a document with no comma key gives CHAINMAIL_BOOTS the sentinel id. |
| `ItemTypes.ChainmailBootsMisfiled` | api/src/main/java/com/github/retrooper/packetevents/protocol/item/type/ItemTypes.java:456 | As written, CHAINMAIL_BOOTS is not filed under "chainmail_boots" and does not get durability 195. |
| `ItemTypes.ChainmailBoots` | api/src/main/java/com/github/retrooper/packetevents/protocol/item/type/ItemTypes.java:456 | Corrected to the shape of its siblings, such as IRON_BOOTS at line 271: key "chainmail_boots", durability 195. |
| `ItemTypes.ChainmailBootsFixed` | api/src/main/java/com/github/retrooper/packetevents/protocol/item/type/ItemTypes.java:456 | Corrected, the boots get the document's id for "minecraft:chainmail_boots" and durability 195, as CHAINMAIL_HELMET (line 518) gets its own. |
| `ItemTypes.ChainmailBootsIdDiffers` | api/src/main/java/com/github/retrooper/packetevents/protocol/item/type/ItemTypes.java:456 | When the document maps the boots, the id as written differs from the id as intended. |
| `ItemTypes.ItemTypeRegistry.constructor` | api/src/main/java/com/github/retrooper/packetevents/protocol/item/type/ItemTypes.java:36-39 | Before the first `define`, the document is not loaded and both indexes are empty. |
| `ItemTypes.ItemTypeRegistry.Define` | api/src/main/java/com/github/retrooper/packetevents/protocol/item/type/ItemTypes.java:82-148 | The document is loaded on the first call and reused after it: a ghost load count is 1 after any call and unchanged when the document was already loaded. The result is `NewItemType`'s. On a throw, neither index changes. On success, the key index and the id index each get one `put` (the id `put` replaces any type with the same id), after which `getByKey(key)` and `getById(id)` return the new type. |
| `ItemTypes.ItemTypeRegistry.Put` | api/src/main/java/com/github/retrooper/packetevents/protocol/item/type/ItemTypes.java:145-146 | The two `put`s: the key index and the id index each map the new type's key and id to it, every other entry stays, and `getByKey`/`getById` then return the new type. |
| `ItemTypes.ItemTypeRegistry.DefineChainmailBoots` | api/src/main/java/com/github/retrooper/packetevents/protocol/item/type/ItemTypes.java:456 | The corrected CHAINMAIL_BOOTS is then found by `getByKey("chainmail_boots")`. |
| `ItemTypes.ItemTypeRegistry.GetByKey` | api/src/main/java/com/github/retrooper/packetevents/protocol/item/type/ItemTypes.java:150-153 | The type of the last `define` under that key, or null when there is none. |
| `ItemTypes.ItemTypeRegistry.GetById` | api/src/main/java/com/github/retrooper/packetevents/protocol/item/type/ItemTypes.java:155-162 | The type of the last `define` with that id, and AIR when there is none, so it is never null. |
| `Primitives.ReadFrom` | api/src/main/java/com/github/retrooper/packetevents/protocol/entity/data/EntityDataTypes.java:164-170 | A read never takes more bytes than the buffer holds, whether it returns or throws. |
| `Primitives.ReadFromRoundTrip` | api/src/main/java/com/github/retrooper/packetevents/protocol/entity/data/EntityDataTypes.java:164-170 | Reading through the cursor what a round-tripping codec wrote gives back the value and its length. |
| `Primitives.BooleanRoundTrips` | api/src/main/java/com/github/retrooper/packetevents/protocol/entity/data/EntityDataTypes.java:78-92 | `readBoolean` reads back what `writeBoolean` wrote, one byte. |
| `Primitives.EncodeInt` | api/src/main/java/com/github/retrooper/packetevents/protocol/entity/data/EntityDataTypes.java:178-180 | `writeInt` writes four bytes. |
| `Primitives.IntRoundTrip` | api/src/main/java/com/github/retrooper/packetevents/protocol/entity/data/EntityDataTypes.java:167-180 | `readInt` of what `writeInt` wrote gives back the same Java int, including negative ones, whatever follows it. |
| `Primitives.IntRoundTrips` | api/src/main/java/com/github/retrooper/packetevents/protocol/entity/data/EntityDataTypes.java:167-180 | The 4-byte int codec round-trips. |
| `Primitives.EncodeVarUInt` | api/src/main/java/com/github/retrooper/packetevents/protocol/entity/data/EntityDataTypes.java:174-176 | Seven-bit groups take at least one byte. |
| `Primitives.VarUIntLength` | api/src/main/java/com/github/retrooper/packetevents/protocol/entity/data/EntityDataTypes.java:174-176 | A number below 128^n takes at most n groups. |
| `Primitives.EncodeVarInt` | api/src/main/java/com/github/retrooper/packetevents/protocol/entity/data/EntityDataTypes.java:174-176 | `writeVarInt` writes one to five bytes for any Java int. |
| `Primitives.DecodeVarIntFrom` | api/src/main/java/com/github/retrooper/packetevents/protocol/entity/data/EntityDataTypes.java:164-170 | `readVarInt` takes one to five bytes when it returns, and never more than are left. When it throws it has taken no more than are left, and a VarInt too big has taken six bytes. |
| `Primitives.VarUIntRoundTrip` | api/src/main/java/com/github/retrooper/packetevents/protocol/entity/data/EntityDataTypes.java:165-176 | Reading the groups of a number, after some already read, adds them up to the number, cut to 32 bits, and takes exactly the bytes written. |
| `Primitives.VarIntRoundTrip` | api/src/main/java/com/github/retrooper/packetevents/protocol/entity/data/EntityDataTypes.java:165-176 | `readVarInt` of what `writeVarInt` wrote gives back the same Java int and consumes exactly those bytes. |
| `Primitives.VarIntRoundTrips` | api/src/main/java/com/github/retrooper/packetevents/protocol/entity/data/EntityDataTypes.java:165-176 | The VarInt codec round-trips. |
| `Primitives.PacketWrapper.constructor` | api/src/main/java/com/github/retrooper/packetevents/protocol/entity/data/EntityDataTypes.java:164-170 | A wrapper over some bytes starts reading at the first of them. |
| `Primitives.PacketWrapper.Write` | api/src/main/java/com/github/retrooper/packetevents/protocol/entity/data/EntityDataTypes.java:172-182 | A write appends the value's encoding and changes nothing else. |
| `Primitives.PacketWrapper.Read` | api/src/main/java/com/github/retrooper/packetevents/protocol/entity/data/EntityDataTypes.java:164-170 | A read returns what the codec reads from the unread bytes and advances the reader index by its length. A throw advances the index past the bytes the read had already taken: none for `readInt` and `readBoolean`, which check their length first, and every byte taken for `readVarInt`. |
| `EntityDataTypes.MappingsServerVersion` | api/src/main/java/com/github/retrooper/packetevents/protocol/entity/data/EntityDataTypes.java:120-130 | The bucket is one of the four. From 1.8 up to 1.13 it is not newer than the server. From 1.13 on it is V_1_16. |
| `EntityDataTypes.MappingsServerVersionNearest` | api/src/main/java/com/github/retrooper/packetevents/protocol/entity/data/EntityDataTypes.java:120-127 | Before 1.13, no bucket that is not newer than the server is newer than the chosen one. |
| `EntityDataTypes.MappingsServerVersionMonotonic` | api/src/main/java/com/github/retrooper/packetevents/protocol/entity/data/EntityDataTypes.java:120-130 | A newer server never gets an older bucket. |
| `EntityDataTypes.BucketAheadOfServer` | api/src/main/java/com/github/retrooper/packetevents/protocol/entity/data/EntityDataTypes.java:120-130 | The chosen table is newer than the server exactly for 1.7.10 (which gets the 1.8 table) and from 1.13 up to 1.16 (which get the 1.16 table). |
| `EntityDataTypes.WriteIntSerializer` | api/src/main/java/com/github/retrooper/packetevents/protocol/entity/data/EntityDataTypes.java:172-182 | The write closure is the VarInt one exactly from 1.9 on, and the 4-byte int before. |
| `EntityDataTypes.ReadIntDeserializer` | api/src/main/java/com/github/retrooper/packetevents/protocol/entity/data/EntityDataTypes.java:164-170 | The read closure is the VarInt one exactly from 1.9 on, always the shape the write factory picks. |
| `EntityDataTypes.WriteBlockPositionSerializer` | api/src/main/java/com/github/retrooper/packetevents/protocol/entity/data/EntityDataTypes.java:223-236 | The write closure is the packed position exactly from 1.9 on, and three ints before. |
| `EntityDataTypes.ReadBlockPositionDeserializer` | api/src/main/java/com/github/retrooper/packetevents/protocol/entity/data/EntityDataTypes.java:210-221 | The read closure is the packed position exactly from 1.9 on, always the shape the write factory picks. |
| `EntityDataTypes.WriteOptionalBlockPositionSerializer` | api/src/main/java/com/github/retrooper/packetevents/protocol/entity/data/EntityDataTypes.java:261-294 | After the flag, the packed position exactly from 1.9 on, the same shape as the plain block-position writer. |
| `EntityDataTypes.ReadOptionalBlockPositionDeserializer` | api/src/main/java/com/github/retrooper/packetevents/protocol/entity/data/EntityDataTypes.java:238-259 | After the flag, the packed position exactly from 1.9 on, always the shape the write factory picks. |
| `EntityDataTypes.EncodeIntTriple` | api/src/main/java/com/github/retrooper/packetevents/protocol/entity/data/EntityDataTypes.java:229-234 | A pre-1.9 block position is twelve bytes: the ints x, y and z in that order. |
| `EntityDataTypes.DecodeIntTriple` | api/src/main/java/com/github/retrooper/packetevents/protocol/entity/data/EntityDataTypes.java:214-219 | Reading three ints never takes more bytes than are there. Fewer than 4 bytes throw having taken none, 4 to 7 throw having taken 4, 8 to 11 throw having taken 8, and 12 or more give a position in exactly 12 bytes. |
| `EntityDataTypes.EncodeOptional` | api/src/main/java/com/github/retrooper/packetevents/protocol/entity/data/EntityDataTypes.java:194-207 | The first byte is the presence flag. An empty value is that one false byte and nothing else. A present value is a true byte followed by exactly the payload's bytes. |
| `EntityDataTypes.DecodeOptional` | api/src/main/java/com/github/retrooper/packetevents/protocol/entity/data/EntityDataTypes.java:184-192 | Reading an optional never takes more bytes than are there. No bytes throw having taken none. A false flag gives an empty value in one byte without reading a payload. A true flag gives the payload's read one byte on, and when the payload throws, the flag stays consumed on top of what the payload took. |
| `EntityDataTypes.IntDataRoundTrip` | api/src/main/java/com/github/retrooper/packetevents/protocol/entity/data/EntityDataTypes.java:164-182 | For INT and OPTIONAL_BLOCK_STATE on every server version, the read factory's closure reads back what the write factory's closure wrote, consuming exactly those bytes: four below 1.9, one to five from 1.9 on. For OPTIONAL_BLOCK_STATE this holds only for `Integer` values: it is declared over `Optional<Object>` (line 59), and an `Optional` handed to its serializer fails the `(int)` cast. |
| `EntityDataTypes.IntTripleRoundTrip` | api/src/main/java/com/github/retrooper/packetevents/protocol/entity/data/EntityDataTypes.java:210-236 | Below 1.9, a block position read back gives the same x, y and z. |
| `EntityDataTypes.IntTripleRoundTrips` | api/src/main/java/com/github/retrooper/packetevents/protocol/entity/data/EntityDataTypes.java:210-236 | The three-int block position codec round-trips. |
| `EntityDataTypes.BlockPositionRoundTrips` | api/src/main/java/com/github/retrooper/packetevents/protocol/entity/data/EntityDataTypes.java:210-236 | On every version, the block-position read and write factories pick the same shape, and that shape round-trips when the wrapper's packed position does. |
| `EntityDataTypes.OptionalRoundTrips` | api/src/main/java/com/github/retrooper/packetevents/protocol/entity/data/EntityDataTypes.java:184-207 | An optional codec reads back what it wrote, empty or present, whenever its payload codec round-trips. |
| `EntityDataTypes.OptionalBlockPositionRoundTrips` | api/src/main/java/com/github/retrooper/packetevents/protocol/entity/data/EntityDataTypes.java:238-294 | On every version, the optional-block-position factories pick the same shape, and the presence flag plus that shape round-trips when the wrapper's packed position does. |
| `EntityDataTypes.OptionalIntRoundTrips` | api/src/main/java/com/github/retrooper/packetevents/protocol/entity/data/EntityDataTypes.java:97-110 | OPTIONAL_INT, a flag then a VarInt on every version, reads back what it wrote. |
| `EntityDataTypes.ReadIntData` | api/src/main/java/com/github/retrooper/packetevents/protocol/entity/data/EntityDataTypes.java:164-170 | The int closure reads what the shape's codec reads and moves the cursor by exactly that much, or, on a throw, by the bytes the codec had taken. |
| `EntityDataTypes.WriteIntData` | api/src/main/java/com/github/retrooper/packetevents/protocol/entity/data/EntityDataTypes.java:172-182 | The int closure appends the shape's encoding. |
| `EntityDataTypes.ReadIntTriple` | api/src/main/java/com/github/retrooper/packetevents/protocol/entity/data/EntityDataTypes.java:214-219 | Three `readInt`s in a row read the three-int position from the unread bytes. On a throw, the cursor sits after the ints already read. |
| `EntityDataTypes.WriteIntTriple` | api/src/main/java/com/github/retrooper/packetevents/protocol/entity/data/EntityDataTypes.java:229-234 | Three `writeInt`s of x, y and z append the three-int encoding. |
| `EntityDataTypes.ReadBlockPosition` | api/src/main/java/com/github/retrooper/packetevents/protocol/entity/data/EntityDataTypes.java:210-221 | The block-position closure of either shape reads that shape's codec, and leaves the cursor where that codec's read leaves it, on success or on a throw. |
| `EntityDataTypes.WriteBlockPosition` | api/src/main/java/com/github/retrooper/packetevents/protocol/entity/data/EntityDataTypes.java:223-236 | The block-position closure of either shape appends that shape's encoding. |
| `EntityDataTypes.ReadOptional` | api/src/main/java/com/github/retrooper/packetevents/protocol/entity/data/EntityDataTypes.java:78-84 | OPTIONAL_UUID, OPTIONAL_INT and OPTIONAL_COMPONENT read the flag, then the payload only when it is true. This is the optional codec's read, including where a throw leaves the cursor. |
| `EntityDataTypes.WriteOptional` | api/src/main/java/com/github/retrooper/packetevents/protocol/entity/data/EntityDataTypes.java:85-92 | Those three write a true flag and the payload, or a false flag alone. This is the optional codec's encoding. |
| `EntityDataTypes.ReadOptionalBlockPosition` | api/src/main/java/com/github/retrooper/packetevents/protocol/entity/data/EntityDataTypes.java:238-259 | The flag, then a block position of the factory's shape when it is true, including where a throw leaves the cursor. |
| `EntityDataTypes.WriteOptionalBlockPosition` | api/src/main/java/com/github/retrooper/packetevents/protocol/entity/data/EntityDataTypes.java:261-294 | A true flag and the position in the factory's shape, or a false flag alone. |
| `EntityDataTypes.NewEntityDataType` | api/src/main/java/com/github/retrooper/packetevents/protocol/entity/data/EntityDataTypes.java:140-162 | `define` throws iff the bucket is missing. Otherwise the type has the given name and closures, and its id is the mapped value, or -1 when the bucket lacks the name. |
| `EntityDataTypes.IntTypeRoundTrips` | api/src/main/java/com/github/retrooper/packetevents/protocol/entity/data/EntityDataTypes.java:52 | INT as defined holds one pair of int closures of a single shape, and they round-trip, whatever id the document gave it, -1 included. |
| `EntityDataTypes.EntityDataTypeRegistry.constructor` | api/src/main/java/com/github/retrooper/packetevents/protocol/entity/data/EntityDataTypes.java:42-49 | Before the first `define`, the document is not loaded and both indexes are empty. |
| `EntityDataTypes.EntityDataTypeRegistry.Define` | api/src/main/java/com/github/retrooper/packetevents/protocol/entity/data/EntityDataTypes.java:140-162 | The document is loaded on the first call and reused after it: a ghost load count is 1 after any call and unchanged when the document was already loaded. The result is `NewEntityDataType`'s. On a throw, neither index changes. On success, each index gets one `put`, after which `getByName` and `getById` return the new type. |
| `EntityDataTypes.EntityDataTypeRegistry.Put` | api/src/main/java/com/github/retrooper/packetevents/protocol/entity/data/EntityDataTypes.java:159-160 | The two `put`s: the name index and the id index each map the new type's name and id to it, every other entry stays, and `getByName`/`getById` then return the new type. |
| `EntityDataTypes.EntityDataTypeRegistry.GetById` | api/src/main/java/com/github/retrooper/packetevents/protocol/entity/data/EntityDataTypes.java:132-134 | The type of the last `define` with that id, or null. |
| `EntityDataTypes.EntityDataTypeRegistry.GetByName` | api/src/main/java/com/github/retrooper/packetevents/protocol/entity/data/EntityDataTypes.java:136-138 | The type of the last `define` with that name, or null. |
| `PacketEncoder.ByteBuf.Allocate` | src/main/java/io/github/retrooper/packetevents/injector/modern/PacketEncoderModern.java:39 | A fresh buffer is empty and holds one reference. |
| `PacketEncoder.ByteBuf.WriteBytes` | src/main/java/io/github/retrooper/packetevents/injector/modern/PacketEncoderModern.java:39 | Appends the source's readable bytes and moves the source's reader index to its end. |
| `PacketEncoder.ByteBuf.SetReaderIndex` | src/main/java/io/github/retrooper/packetevents/injector/modern/PacketEncoderModern.java:47-49 | Moves the reader index, and throws iff the index is past the written bytes. |
| `PacketEncoder.ByteBuf.Clear` | src/main/java/io/github/retrooper/packetevents/injector/modern/PacketEncoderModern.java:78 | Nothing is left to read or written. |
| `PacketEncoder.ByteBuf.Retain` | src/main/java/io/github/retrooper/packetevents/injector/modern/PacketEncoderModern.java:54 | One reference more. |
| `PacketEncoder.ByteBuf.Release` | src/main/java/io/github/retrooper/packetevents/injector/modern/PacketEncoderModern.java:56 | One reference fewer. |
| `PacketEncoder.MessageList.Add` | src/main/java/io/github/retrooper/packetevents/injector/modern/PacketEncoderModern.java:54 | Appends one message. |
| `PacketEncoder.IndexOf` | src/main/java/io/github/retrooper/packetevents/injector/modern/PacketEncoderModern.java:63-66 | -1 iff the name is absent. Otherwise the position of its first occurrence. |
| `PacketEncoder.FirstPosition` | src/main/java/io/github/retrooper/packetevents/injector/modern/PacketEncoderModern.java:63-66 | The first occurrence of a name is the position `indexOf` finds. |
| `PacketEncoder.CompressionCheck` | src/main/java/io/github/retrooper/packetevents/injector/modern/PacketEncoderModern.java:60-71 | Once handled, nothing is decided and the flag stays up. Otherwise the flag goes up iff a "compress" stage exists, and a repair needs one. |
| `PacketEncoder.RepairIffCompressAfterEncoder` | src/main/java/io/github/retrooper/packetevents/injector/modern/PacketEncoderModern.java:66-70 | With both stages present, the repair runs iff the first "compress" comes after the encoder. |
| `PacketEncoder.RepairWhenEncoderMissing` | src/main/java/io/github/retrooper/packetevents/injector/modern/PacketEncoderModern.java:63-66 | With the encoder's name missing, any "compress" stage triggers the repair. |
| `PacketEncoder.RepairAtMostOnce` | src/main/java/io/github/retrooper/packetevents/injector/modern/PacketEncoderModern.java:35-71 | Over any run of packets a handler repairs at most once, and never after the flag is set. |
| `PacketEncoder.Repairs` | src/main/java/io/github/retrooper/packetevents/injector/modern/PacketEncoderModern.java:60-71 | The repairs over a run of packets are at most one per packet, and none once the flag is set. |
| `PacketEncoder.CheckRerunsUntilCompressAppears` | src/main/java/io/github/retrooper/packetevents/injector/modern/PacketEncoderModern.java:63-65 | Packets seen while no "compress" stage exists leave the flag down, so a later pipeline is repaired iff the check, run as if on the first packet, asks for it. |
| `PacketEncoder.RepairsAfterCleanRun` | src/main/java/io/github/retrooper/packetevents/injector/modern/PacketEncoderModern.java:63-64 | Packets without a "compress" stage change nothing about later repairs. |
| `PacketEncoder.DispatchEvent` | src/main/java/io/github/retrooper/packetevents/injector/modern/PacketEncoderModern.java:43-48 | After the listeners and the completion hook, the reader index lies within the written bytes. |
| `PacketEncoder.RepairStep` | src/main/java/io/github/retrooper/packetevents/injector/modern/PacketEncoderModern.java:60-72 | Without a repair, the buffer is passed on as it is and nothing is recompressed. With one, the outcome is the decompress-and-reorder step's result, or its exception. |
| `PacketEncoder.EncodeSpec` | src/main/java/io/github/retrooper/packetevents/injector/modern/PacketEncoderModern.java:38-57 | A throw in the repair ends the encode. A packet goes out only when the repair and the event both completed, on the repaired bytes. It is then the listeners' bytes, or, when the repair asked for it, the compressor's output of those bytes. |
| `PacketEncoder.ListenerIndexIsForgotten` | src/main/java/io/github/retrooper/packetevents/injector/modern/PacketEncoderModern.java:45-48 | The completion hook restores the index the event's constructor left, however far the listeners moved it, so only the bytes the listeners leave matter. |
| `PacketEncoder.NoRepairNoRecompress` | src/main/java/io/github/retrooper/packetevents/injector/modern/PacketEncoderModern.java:51-53 | Without a repair the compress stage is never consulted, and what the listeners leave is what is sent. |
| `PacketEncoder.PassThrough` | src/main/java/io/github/retrooper/packetevents/injector/modern/PacketEncoderModern.java:38-57 | Without a repair, a packet no listener edits leaves byte for byte as it came in. |
| `PacketEncoder.RepairThenRecompress` | src/main/java/io/github/retrooper/packetevents/injector/modern/PacketEncoderModern.java:51-53 | After a repair that asks for it, what is sent is the compressor's output on the bytes the listeners left, or the compressor's exception. |
| `PacketEncoder.PacketEncoderModern.constructor` | src/main/java/io/github/retrooper/packetevents/injector/modern/PacketEncoderModern.java:35 | A new handler has not handled compression. |
| `PacketEncoder.PacketEncoderModern.HandleCompressionOrder` | src/main/java/io/github/retrooper/packetevents/injector/modern/PacketEncoderModern.java:60-72 | Sets the flag as `CompressionCheck` decides. It touches the buffer only when repairing, and then leaves the repaired bytes to be read from the start. It returns whether to recompress, or the exception. |
| `PacketEncoder.PacketEncoderModern.Recompress` | src/main/java/io/github/retrooper/packetevents/injector/modern/PacketEncoderModern.java:74-82 | The packet buffer becomes exactly the compressor's output, read from the start, or stays as it was if the compressor throws. Either way the temporary buffer ends with no references. |
| `PacketEncoder.PacketEncoderModern.EncodeCopy` | src/main/java/io/github/retrooper/packetevents/injector/modern/PacketEncoderModern.java:40-54 | On the handler's copy, the outcome is `EncodeSpec`'s. On success the copy holds the bytes to send, reads from the index it had before the event, is appended to `out`, and has been retained once. On a throw, `out` is unchanged. |
| `PacketEncoder.PacketEncoderModern.Encode` | src/main/java/io/github/retrooper/packetevents/injector/modern/PacketEncoderModern.java:37-58 | The packet is copied and consumed, and the outcome is `EncodeSpec`'s. On success `out` gains the copy, holding the bytes to send, with one reference left. On a throw, `out` is unchanged and the copy has none left. |

## Left out

- Loading the mapping JSON (`MappingHelper`) and asking the server manager for its version are calls outside the model. Each registry takes the loaded document and the version as fixed parameters.
- The roughly 1100 literal `define(...)` constants of both catalogs are data. Only CHAINMAIL_BOOTS is modelled; AIR, which `getById` falls back to, is a parameter.
- The other four `define` overloads of `ItemTypes` only fill in defaults (no craft remainder, durability 0) for the five-argument one, and are not modelled.
- Craft-remainder forward references, which are null during static initialisation, are not modelled. The remainder is whatever value was passed.
- `paste` does HTTP I/O, and the commented-out static block is dead code. Neither is modelled.
- `ItemType.equals` against an object that is not an `ItemType` returns false in the source. The model's `Equals` only takes item types.
- `ServerVersion` is defined elsewhere in packetevents. It is modelled by the ordinals of its constants from 1.7.10 to 1.18, in release order, with `name()` as a table of the constant names; its ERROR constant is left out.
- `PacketWrapper` is defined elsewhere in packetevents. Its boolean, int and VarInt encodings are written out. The packed block position, UUID and component codecs are abstract codecs, assumed to round-trip where a lemma needs it. The real packed position holds 26-bit x and z and a 12-bit y, so that assumption stands for positions within the coordinate range the packed position holds; the model does not restrict the `Int32` coordinates to that range. The other wrapper reads and writes (byte, float, string, NBT, item stack, pose, block face, short) are named by their call only.
- The `instanceof Optional` else-branches of the optional serializers write a single false flag. The model's values are typed, so that branch cannot be reached.
- Java's unchecked casts in the factories are not modelled: each closure is typed. OPTIONAL_BLOCK_STATE is declared `EntityDataType<Optional<Object>>` but is given the int closures, so a caller that hands it an `Optional` gets a ClassCastException. The model gives it only ints.
- `PacketWrapper.Read`: an abstract codec (packed position, UUID, component) whose read would run past the end is taken to throw before consuming anything. How far the wrapper's own read gets is not modelled here.
- Netty's pipeline, channel context and allocator are not modelled. The pipeline is its stage names plus abstract steps. `callDecode` followed by `refactorHandlers` is one abstract step that returns whether to recompress and the buffer's new readable bytes, leaving the reader index at 0. `callEncode` is an abstract function from the readable bytes to the compressed bytes.
- The event manager is not modelled. Constructing `PacketSendEvent` is an abstract function giving the reader index after the packet id is read. The listeners are an abstract function giving the buffer's bytes and reader index afterwards. Either may throw. The completion hook is taken to run after the listeners.
- `Recompress`: when the compressor throws, the packet buffer is modelled as unchanged. The source leaves it as far as the compressor read it.
- The release of the incoming message by Netty's `MessageToMessageEncoder`, the `player` field, `@Sharable` concurrency and `exceptionCaught` printing are not modelled.

## Findings

| source | as written | input that shows it | evidently intended | confidence | as-written member | corrected member |
|---|---|---|---|---|---|---|
| api/src/main/java/com/github/retrooper/packetevents/protocol/item/type/ItemTypes.java:456 | `define(1, "chainmail_boots, 195")`: the durability sits inside the key's quotes, so the key is "chainmail_boots, 195" and the durability is 0 | any mapping document whose bucket maps "minecraft:chainmail_boots" to an id: the boots get id -1 instead, and `getByKey("chainmail_boots")` does not find them | `define(1, "chainmail_boots", 195)`, like IRON_BOOTS (line 271) and the other chainmail pieces (lines 518, 557, 672) | not executed | `ItemTypes.ChainmailBootsAsWritten` | `ItemTypes.ChainmailBoots` |
