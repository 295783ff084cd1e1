/** The entity-metadata type catalog: its version bucket, the read/write
    closures chosen once per version by the codec factories, and the name and
    id indexes that every `define` extends. */
module EntityDataTypes {
  import opened Common
  import opened Versions
  import opened Registry
  import opened Primitives

  // ---------------------------------------------------------------- buckets

  /** The versions that have an entity-data mapping table, oldest first. */
  const EntityBuckets: seq<ServerVersion> := [V_1_8, V_1_9, V_1_11, V_1_16]

  /** `getMappingsServerVersion`.  Before 1.13 a version uses the newest table
      not newer than itself; every version from 1.13 on uses the 1.16 table. */
  function MappingsServerVersion(v: ServerVersion): (b: ServerVersion)
    ensures b in EntityBuckets
    ensures v.IsOlderThan(V_1_13) && v.IsNewerThanOrEquals(V_1_8) ==> !v.IsOlderThan(b)
    ensures v.IsNewerThanOrEquals(V_1_13) ==> b == V_1_16
  {
    if v.IsOlderThan(V_1_9) then V_1_8
    else if v.IsOlderThan(V_1_11) then V_1_9
    else if v.IsOlderThan(V_1_13) then V_1_11
    else V_1_16
  }

  /** Before 1.13 the table is the newest one that is not newer than the server. */
  lemma MappingsServerVersionNearest(v: ServerVersion, i: nat)
    requires v.IsOlderThan(V_1_13)
    requires i < |EntityBuckets| && !v.IsOlderThan(EntityBuckets[i])
    ensures !MappingsServerVersion(v).IsOlderThan(EntityBuckets[i])
  {
  }

  /** A newer server never uses an older table. */
  lemma MappingsServerVersionMonotonic(v1: ServerVersion, v2: ServerVersion)
    requires !v2.IsOlderThan(v1)
    ensures !MappingsServerVersion(v2).IsOlderThan(MappingsServerVersion(v1))
  {
  }

  /** The table is newer than the server exactly for 1.7.10 (which gets the
      1.8 table) and from 1.13 up to (not including) 1.16. */
  lemma BucketAheadOfServer(v: ServerVersion)
    ensures v.IsOlderThan(MappingsServerVersion(v)) <==>
      (v == V_1_7_10 || (v.IsNewerThanOrEquals(V_1_13) && v.IsOlderThan(V_1_16)))
  {
  }

  // ---------------------------------------------------------------- factories

  /** Which int closure a factory returned: VarInt or the 4-byte int. */
  datatype IntShape = VarIntShape | FixedIntShape

  /** Which block-position closure a factory returned: the wrapper's packed
      position or three ints. */
  datatype PositionShape = PackedShape | IntTripleShape

  /** `writeIntSerializer`: the closure is picked from the version when the
      factory runs, not when the closure runs; VarInt exactly from 1.9 on. */
  function WriteIntSerializer(v: ServerVersion): (shape: IntShape)
    ensures shape == VarIntShape <==> v.IsNewerThanOrEquals(V_1_9)
  {
    if v.IsNewerThanOrEquals(V_1_9) then VarIntShape else FixedIntShape
  }

  /** `readIntDeserializer`: it tests the same version as the write factory,
      so the two always pick the same shape. */
  function ReadIntDeserializer(v: ServerVersion): (shape: IntShape)
    ensures shape == VarIntShape <==> v.IsNewerThanOrEquals(V_1_9)
    ensures shape == WriteIntSerializer(v)
  {
    if v.IsNewerThanOrEquals(V_1_9) then VarIntShape else FixedIntShape
  }

  /** `writeBlockPositionSerializer`: the packed position exactly from 1.9 on. */
  function WriteBlockPositionSerializer(v: ServerVersion): (shape: PositionShape)
    ensures shape == PackedShape <==> v.IsNewerThanOrEquals(V_1_9)
  {
    if v.IsNewerThanOrEquals(V_1_9) then PackedShape else IntTripleShape
  }

  /** `readBlockPositionDeserializer`: the same shape as the write factory. */
  function ReadBlockPositionDeserializer(v: ServerVersion): (shape: PositionShape)
    ensures shape == PackedShape <==> v.IsNewerThanOrEquals(V_1_9)
    ensures shape == WriteBlockPositionSerializer(v)
  {
    if v.IsNewerThanOrEquals(V_1_9) then PackedShape else IntTripleShape
  }

  /** `writeOptionalBlockPositionSerializer`: after the flag, the packed
      position exactly from 1.9 on. */
  function WriteOptionalBlockPositionSerializer(v: ServerVersion): (shape: PositionShape)
    ensures shape == PackedShape <==> v.IsNewerThanOrEquals(V_1_9)
    ensures shape == WriteBlockPositionSerializer(v)
  {
    if v.IsNewerThanOrEquals(V_1_9) then PackedShape else IntTripleShape
  }

  /** `readOptionalBlockPositionDeserializer`: the same shape as the write factory. */
  function ReadOptionalBlockPositionDeserializer(v: ServerVersion): (shape: PositionShape)
    ensures shape == PackedShape <==> v.IsNewerThanOrEquals(V_1_9)
    ensures shape == WriteOptionalBlockPositionSerializer(v)
  {
    if v.IsNewerThanOrEquals(V_1_9) then PackedShape else IntTripleShape
  }

  // ---------------------------------------------------------------- what the closures read and write

  /** The bytes an int closure of the given shape writes and reads. */
  function IntDataCodec(shape: IntShape): Codec<Int32> {
    match shape
    case VarIntShape => VarIntCodec()
    case FixedIntShape => IntCodec()
  }

  /** `Vector3i` (defined elsewhere in packetevents): a block position. */
  datatype Vector3i = Vector3i(x: Int32, y: Int32, z: Int32)

  /** Three ints, x then y then z. */
  function EncodeIntTriple(p: Vector3i): (s: seq<byte>)
    ensures |s| == 12
    ensures s[..4] == EncodeInt(p.x) && s[4..8] == EncodeInt(p.y) && s[8..] == EncodeInt(p.z)
  {
    EncodeInt(p.x) + EncodeInt(p.y) + EncodeInt(p.z)
  }

  /** Three ints read one after the other; the first that runs out of bytes
      throws, and the ints already read stay consumed. */
  function DecodeIntTriple(s: seq<byte>): (r: Result<Decoded<Vector3i>, DecodeError>)
    ensures r.Success? ==> r.value.length <= |s|
    ensures r.Failure? ==> r.error.taken <= |s|
    ensures |s| < 4 ==> r == Failure(EndOfBuffer(0))
    ensures 4 <= |s| < 8 ==> r == Failure(EndOfBuffer(4))
    ensures 8 <= |s| < 12 ==> r == Failure(EndOfBuffer(8))
    ensures |s| >= 12 ==> r.Success? && r.value.length == 12
  {
    match ReadFrom(IntCodec(), s)
    case Failure(e) => Failure(e)
    case Success(dx) =>
      var afterX := s[dx.length..];
      match ReadFrom(IntCodec(), afterX)
      case Failure(e) => Failure(e.(taken := dx.length + e.taken))
      case Success(dy) =>
        var afterY := afterX[dy.length..];
        match ReadFrom(IntCodec(), afterY)
        case Failure(e) => Failure(e.(taken := dx.length + dy.length + e.taken))
        case Success(dz) =>
          Success(Decoded(Vector3i(dx.value, dy.value, dz.value), dx.length + dy.length + dz.length))
  }

  function IntTripleCodec(): Codec<Vector3i> {
    Codec(EncodeIntTriple, DecodeIntTriple)
  }

  /** The bytes a block-position closure of the given shape writes and reads;
      `packed` is the wrapper's own `readBlockPosition`/`writeBlockPosition`. */
  function PositionCodec(shape: PositionShape, packed: Codec<Vector3i>): Codec<Vector3i> {
    match shape
    case PackedShape => packed
    case IntTripleShape => IntTripleCodec()
  }

  /** An optional value: a presence boolean, then the payload when present. */
  function EncodeOptional<T>(c: Codec<T>, x: Option<T>): (s: seq<byte>)
    ensures |s| >= 1
    ensures DecodeBoolean(s) == Success(Decoded(x.Some?, 1))
    ensures x.None? ==> |s| == 1
    ensures x.Some? ==> s[1..] == c.encode(x.value)
  {
    match x
    case None => EncodeBoolean(false)
    case Some(v) => EncodeBoolean(true) + c.encode(v)
  }

  /** Reads the presence boolean and, only when it is true, the payload; a
      payload that throws leaves the boolean consumed. */
  function DecodeOptional<T>(c: Codec<T>, s: seq<byte>): (r: Result<Decoded<Option<T>>, DecodeError>)
    ensures r.Success? ==> 1 <= r.value.length <= |s|
    ensures r.Failure? ==> r.error.taken <= |s|
    ensures |s| == 0 ==> r == Failure(EndOfBuffer(0))
    ensures |s| > 0 && s[0] == 0 ==> r == Success(Decoded(None, 1))
    ensures |s| > 0 && s[0] != 0 && ReadFrom(c, s[1..]).Failure? ==>
      r.Failure? && r.error.taken == 1 + ReadFrom(c, s[1..]).error.taken
    ensures |s| > 0 && s[0] != 0 && ReadFrom(c, s[1..]).Success? ==>
      r == Success(Decoded(Some(ReadFrom(c, s[1..]).value.value), 1 + ReadFrom(c, s[1..]).value.length))
  {
    match ReadFrom(BooleanCodec(), s)
    case Failure(e) => Failure(e)
    case Success(present) =>
      if !present.value then Success(Decoded(None, 1))
      else
        match ReadFrom(c, s[1..])
        case Failure(e) => Failure(e.(taken := 1 + e.taken))
        case Success(d) => Success(Decoded(Some(d.value), 1 + d.length))
  }

  function OptionalCodec<T>(c: Codec<T>): Codec<Option<T>> {
    Codec(x => EncodeOptional(c, x), s => DecodeOptional(c, s))
  }

  // ---------------------------------------------------------------- round trips

  /** INT and OPTIONAL_BLOCK_STATE: on every version, what the write factory's
      closure writes, the read factory's closure reads back, taking exactly the
      bytes written; four of them before 1.9, one to five from 1.9 on. */
  lemma IntDataRoundTrip(v: ServerVersion, x: Int32, s: seq<byte>)
    requires IntDataCodec(WriteIntSerializer(v)).encode(x) <= s
    ensures IntDataCodec(ReadIntDeserializer(v)).decode(s)
         == Success(Decoded(x, |IntDataCodec(WriteIntSerializer(v)).encode(x)|))
    ensures v.IsOlderThan(V_1_9) ==> |IntDataCodec(WriteIntSerializer(v)).encode(x)| == 4
    ensures v.IsNewerThanOrEquals(V_1_9) ==> 1 <= |IntDataCodec(WriteIntSerializer(v)).encode(x)| <= 5
  {
    if v.IsNewerThanOrEquals(V_1_9) {
      VarIntRoundTrip(x, s);
    } else {
      IntRoundTrip(x, s);
    }
  }

  /** Three ints, x, y, z, read back in the order they were written. */
  lemma IntTripleRoundTrip(p: Vector3i, s: seq<byte>)
    requires EncodeIntTriple(p) <= s
    ensures DecodeIntTriple(s) == Success(Decoded(p, 12))
  {
    var e := EncodeIntTriple(p);
    assert EncodeInt(p.x) <= s by { assert s[..4] == e[..4]; }
    IntRoundTrip(p.x, s);
    assert EncodeInt(p.y) <= s[4..] by { assert s[4..][..4] == e[4..8]; }
    IntRoundTrip(p.y, s[4..]);
    assert EncodeInt(p.z) <= s[4..][4..] by { assert s[4..][4..][..4] == e[8..]; }
    IntRoundTrip(p.z, s[4..][4..]);
  }

  lemma IntTripleRoundTrips()
    ensures RoundTrips(IntTripleCodec())
  {
    forall p: Vector3i, s: seq<byte> | EncodeIntTriple(p) <= s
      ensures DecodeIntTriple(s) == Success(Decoded(p, |EncodeIntTriple(p)|))
    {
      IntTripleRoundTrip(p, s);
    }
  }

  /** Block positions: matching factories on every version, provided the
      wrapper's packed position round-trips. */
  lemma BlockPositionRoundTrips(v: ServerVersion, packed: Codec<Vector3i>)
    requires RoundTrips(packed)
    ensures ReadBlockPositionDeserializer(v) == WriteBlockPositionSerializer(v)
    ensures RoundTrips(PositionCodec(ReadBlockPositionDeserializer(v), packed))
  {
    IntTripleRoundTrips();
  }

  /** OPTIONAL_INT, OPTIONAL_UUID, OPTIONAL_COMPONENT and the optional block
      position: reading what was written gives back the same optional value,
      whenever the payload codec round-trips. */
  lemma OptionalRoundTrips<T(!new)>(c: Codec<T>)
    requires RoundTrips(c)
    ensures RoundTrips(OptionalCodec(c))
  {
    forall x: Option<T>, s: seq<byte> | EncodeOptional(c, x) <= s
      ensures DecodeOptional(c, s) == Success(Decoded(x, |EncodeOptional(c, x)|))
    {
      var e := EncodeOptional(c, x);
      assert s[0] == e[0];
      if x.Some? {
        assert c.encode(x.value) <= s[1..] by {
          assert s[1..][..|c.encode(x.value)|] == e[1..];
        }
        ReadFromRoundTrip(c, x.value, s[1..]);
      }
    }
  }

  /** The optional block position on every version: matching factories, and a
      round trip whenever the wrapper's packed position round-trips. */
  lemma OptionalBlockPositionRoundTrips(v: ServerVersion, packed: Codec<Vector3i>)
    requires RoundTrips(packed)
    ensures ReadOptionalBlockPositionDeserializer(v) == WriteOptionalBlockPositionSerializer(v)
    ensures RoundTrips(OptionalCodec(PositionCodec(ReadOptionalBlockPositionDeserializer(v), packed)))
  {
    BlockPositionRoundTrips(v, packed);
    OptionalRoundTrips(PositionCodec(ReadOptionalBlockPositionDeserializer(v), packed));
  }

  /** OPTIONAL_INT: its payload is always a VarInt, whatever the version. */
  lemma OptionalIntRoundTrips()
    ensures RoundTrips(OptionalCodec(VarIntCodec()))
  {
    VarIntRoundTrips();
    OptionalRoundTrips(VarIntCodec());
  }

  // ---------------------------------------------------------------- the closures on a wrapper

  /** What a read through the wrapper returns, given what the pure read of the
      unread bytes gives. */
  ghost predicate ReadAgrees<T>(r: Result<T, DecodeError>, d: Result<Decoded<T>, DecodeError>) {
    && (d.Success? ==> r == Success(d.value.value))
    && (d.Failure? ==> r == Failure(d.error))
  }

  /** The int closures' read. */
  method ReadIntData(shape: IntShape, w: PacketWrapper) returns (r: Result<Int32, DecodeError>)
    requires w.Valid()
    modifies w`readerIndex
    ensures w.Valid()
    ensures ReadAgrees(r, ReadFrom(IntDataCodec(shape), old(w.Unread())))
    ensures r.Failure? ==>
      w.readerIndex == old(w.readerIndex) + ReadFrom(IntDataCodec(shape), old(w.Unread())).error.taken
    ensures r.Success? ==> w.readerIndex == old(w.readerIndex) + ReadFrom(IntDataCodec(shape), old(w.Unread())).value.length
  {
    match shape
    case VarIntShape =>
      r := w.Read(VarIntCodec());
    case FixedIntShape =>
      r := w.Read(IntCodec());
  }

  /** The int closures' write. */
  method WriteIntData(shape: IntShape, w: PacketWrapper, x: Int32)
    requires w.Valid()
    modifies w`buffer
    ensures w.Valid()
    ensures w.buffer == old(w.buffer) + IntDataCodec(shape).encode(x)
  {
    match shape
    case VarIntShape =>
      w.Write(VarIntCodec(), x);
    case FixedIntShape =>
      w.Write(IntCodec(), x);
  }

  /** The pre-1.9 block position read: `readInt` three times. */
  method ReadIntTriple(w: PacketWrapper) returns (r: Result<Vector3i, DecodeError>)
    requires w.Valid()
    modifies w`readerIndex
    ensures w.Valid()
    ensures ReadAgrees(r, ReadFrom(IntTripleCodec(), old(w.Unread())))
    ensures r.Failure? ==>
      w.readerIndex == old(w.readerIndex) + ReadFrom(IntTripleCodec(), old(w.Unread())).error.taken
    ensures r.Success? ==> w.readerIndex == old(w.readerIndex) + ReadFrom(IntTripleCodec(), old(w.Unread())).value.length
  {
    ghost var s := w.Unread();
    var x := w.Read(IntCodec());
    if x.Failure? {
      return Failure(x.error);
    }
    assert w.Unread() == s[4..];
    var y := w.Read(IntCodec());
    if y.Failure? {
      return Failure(y.error.(taken := 4 + y.error.taken));
    }
    assert w.Unread() == s[4..][4..];
    var z := w.Read(IntCodec());
    if z.Failure? {
      return Failure(z.error.(taken := 8 + z.error.taken));
    }
    r := Success(Vector3i(x.value, y.value, z.value));
  }

  /** The pre-1.9 block position write: `writeInt` of x, y and z. */
  method WriteIntTriple(w: PacketWrapper, p: Vector3i)
    requires w.Valid()
    modifies w`buffer
    ensures w.Valid()
    ensures w.buffer == old(w.buffer) + EncodeIntTriple(p)
  {
    w.Write(IntCodec(), p.x);
    w.Write(IntCodec(), p.y);
    w.Write(IntCodec(), p.z);
    assert w.buffer == old(w.buffer) + (EncodeInt(p.x) + EncodeInt(p.y) + EncodeInt(p.z));
  }

  /** The block-position closures' read. */
  method ReadBlockPosition(shape: PositionShape, packed: Codec<Vector3i>, w: PacketWrapper)
    returns (r: Result<Vector3i, DecodeError>)
    requires w.Valid()
    modifies w`readerIndex
    ensures w.Valid()
    ensures ReadAgrees(r, ReadFrom(PositionCodec(shape, packed), old(w.Unread())))
    ensures r.Failure? ==>
      w.readerIndex == old(w.readerIndex) + ReadFrom(PositionCodec(shape, packed), old(w.Unread())).error.taken
    ensures r.Success? ==>
      w.readerIndex == old(w.readerIndex) + ReadFrom(PositionCodec(shape, packed), old(w.Unread())).value.length
  {
    match shape
    case PackedShape =>
      r := w.Read(packed);
    case IntTripleShape =>
      r := ReadIntTriple(w);
  }

  /** The block-position closures' write. */
  method WriteBlockPosition(shape: PositionShape, packed: Codec<Vector3i>, w: PacketWrapper, p: Vector3i)
    requires w.Valid()
    modifies w`buffer
    ensures w.Valid()
    ensures w.buffer == old(w.buffer) + PositionCodec(shape, packed).encode(p)
  {
    match shape
    case PackedShape =>
      w.Write(packed, p);
    case IntTripleShape =>
      WriteIntTriple(w, p);
  }

  /** The read of OPTIONAL_INT, OPTIONAL_UUID and OPTIONAL_COMPONENT:
      `readBoolean`, then the payload only when it was true. */
  method ReadOptional<T>(c: Codec<T>, w: PacketWrapper) returns (r: Result<Option<T>, DecodeError>)
    requires w.Valid()
    modifies w`readerIndex
    ensures w.Valid()
    ensures ReadAgrees(r, ReadFrom(OptionalCodec(c), old(w.Unread())))
    ensures r.Failure? ==>
      w.readerIndex == old(w.readerIndex) + ReadFrom(OptionalCodec(c), old(w.Unread())).error.taken
    ensures r.Success? ==>
      w.readerIndex == old(w.readerIndex) + ReadFrom(OptionalCodec(c), old(w.Unread())).value.length
  {
    ghost var s := w.Unread();
    var present := w.Read(BooleanCodec());
    if present.Failure? {
      return Failure(present.error);
    }
    if !present.value {
      return Success(None);
    }
    assert w.Unread() == s[1..];
    var v := w.Read(c);
    if v.Failure? {
      return Failure(v.error.(taken := 1 + v.error.taken));
    }
    r := Success(Some(v.value));
  }

  /** The write of OPTIONAL_INT, OPTIONAL_UUID and OPTIONAL_COMPONENT:
      `writeBoolean(true)` and the payload, or `writeBoolean(false)` alone. */
  method WriteOptional<T>(c: Codec<T>, w: PacketWrapper, x: Option<T>)
    requires w.Valid()
    modifies w`buffer
    ensures w.Valid()
    ensures w.buffer == old(w.buffer) + OptionalCodec(c).encode(x)
  {
    if x.Some? {
      w.Write(BooleanCodec(), true);
      w.Write(c, x.value);
      assert w.buffer == old(w.buffer) + (EncodeBoolean(true) + c.encode(x.value));
    } else {
      w.Write(BooleanCodec(), false);
    }
  }

  /** The optional-block-position closures' read: `readBoolean`, then a block
      position of the factory's shape only when it was true. */
  method ReadOptionalBlockPosition(shape: PositionShape, packed: Codec<Vector3i>, w: PacketWrapper)
    returns (r: Result<Option<Vector3i>, DecodeError>)
    requires w.Valid()
    modifies w`readerIndex
    ensures w.Valid()
    ensures ReadAgrees(r, ReadFrom(OptionalCodec(PositionCodec(shape, packed)), old(w.Unread())))
    ensures r.Failure? ==>
      w.readerIndex == old(w.readerIndex) + ReadFrom(OptionalCodec(PositionCodec(shape, packed)), old(w.Unread())).error.taken
    ensures r.Success? ==>
      w.readerIndex == old(w.readerIndex) + ReadFrom(OptionalCodec(PositionCodec(shape, packed)), old(w.Unread())).value.length
  {
    ghost var s := w.Unread();
    var present := w.Read(BooleanCodec());
    if present.Failure? {
      return Failure(present.error);
    }
    if !present.value {
      return Success(None);
    }
    assert w.Unread() == s[1..];
    var p := ReadBlockPosition(shape, packed, w);
    if p.Failure? {
      return Failure(p.error.(taken := 1 + p.error.taken));
    }
    r := Success(Some(p.value));
  }

  /** The optional-block-position closures' write. */
  method WriteOptionalBlockPosition(shape: PositionShape, packed: Codec<Vector3i>, w: PacketWrapper,
                                    x: Option<Vector3i>)
    requires w.Valid()
    modifies w`buffer
    ensures w.Valid()
    ensures w.buffer == old(w.buffer) + OptionalCodec(PositionCodec(shape, packed)).encode(x)
  {
    if x.Some? {
      w.Write(BooleanCodec(), true);
      WriteBlockPosition(shape, packed, w, x.value);
      assert w.buffer == old(w.buffer) + (EncodeBoolean(true) + PositionCodec(shape, packed).encode(x.value));
    } else {
      w.Write(BooleanCodec(), false);
    }
  }

  // ---------------------------------------------------------------- the catalog

  /** The closure a `define` was handed, named by where it comes from.  The
      wrapper's own methods (`readByte`, `readString`, ...) are not part of this
      model and are named by their call. */
  datatype Closure =
    | IntClosure(intShape: IntShape)
    | BlockPositionClosure(positionShape: PositionShape)
    | OptionalBlockPositionClosure(positionShape: PositionShape)
    | OptionalIntClosure
    | OptionalUuidClosure
    | OptionalComponentClosure
    | WrapperClosure(call: string)

  /** `EntityDataType`: a name, a wire id and its read/write closures. */
  datatype EntityDataType = EntityDataType(name: string, id: int, deserializer: Closure, serializer: Closure)
  {
    function GetName(): string {
      name
    }

    function GetId(): int {
      id
    }
  }

  /** The type `define` builds from the loaded document `doc` on server version
      `version`, or the exception it throws. */
  function NewEntityDataType(doc: Document, version: ServerVersion, name: string,
                             deserializer: Closure, serializer: Closure): (r: Result<EntityDataType, MappingError>)
    ensures var bucket := MappingsServerVersion(version).Name();
      && (r.Failure? <==> bucket !in doc)
      && (r.Failure? ==> r.error == MissingMappings(bucket))
      && (r.Success? ==>
            && r.value.GetName() == name
            && (name in doc[bucket] ==> r.value.GetId() == doc[bucket][name])
            && (name !in doc[bucket] ==> r.value.GetId() == UNMAPPED)
            && r.value.deserializer == deserializer && r.value.serializer == serializer)
  {
    match ResolveId(doc, MappingsServerVersion(version).Name(), name)
    case Failure(e) => Failure(e)
    case Success(id) => Success(EntityDataType(name, id, deserializer, serializer))
  }

  /** INT as the catalog defines it: whatever id the document gives it, -1
      included, it holds one int closure pair of a single shape, and what its
      serializer writes its deserializer reads back. */
  lemma IntTypeRoundTrips(doc: Document, version: ServerVersion)
    requires NewEntityDataType(doc, version, "int", IntClosure(ReadIntDeserializer(version)),
                               IntClosure(WriteIntSerializer(version))).Success?
    ensures var t := NewEntityDataType(doc, version, "int", IntClosure(ReadIntDeserializer(version)),
                                       IntClosure(WriteIntSerializer(version))).value;
      && t.deserializer.IntClosure? && t.deserializer == t.serializer
      && RoundTrips(IntDataCodec(t.serializer.intShape))
  {
    if version.IsNewerThanOrEquals(V_1_9) {
      VarIntRoundTrips();
    } else {
      IntRoundTrips();
    }
  }

  /** The static entity-data catalog: its two indexes and the lazily loaded document. */
  class EntityDataTypeRegistry {
    /** The document `MappingHelper` reads from "entity/entity_data_type_mappings". */
    const resource: Document
    /** The version the server manager reports; fixed for the process. */
    const serverVersion: ServerVersion

    /** `MAPPINGS`: null until the first `define`. */
    var mappings: Option<Document>
    /** `ENTITY_DATA_TYPE_MAP`. */
    var typeMap: map<string, EntityDataType>
    /** `ENTITY_DATA_TYPE_ID_MAP`. */
    var typeIdMap: map<int, EntityDataType>

    /** Every `put` into either map so far, in order. */
    ghost var nameLog: seq<(string, EntityDataType)>
    ghost var idLog: seq<(int, EntityDataType)>
    /** How many times the document has been loaded. */
    ghost var loads: nat

    ghost predicate Valid()
      reads this
    {
      && (mappings.Some? ==> mappings.value == resource)
      && loads == (if mappings.Some? then 1 else 0)
      && (mappings.None? ==> nameLog == [] && idLog == [])
      && typeMap == Assign(nameLog)
      && typeIdMap == Assign(idLog)
    }

    constructor (resource: Document, serverVersion: ServerVersion)
      ensures Valid()
      ensures this.resource == resource && this.serverVersion == serverVersion
      ensures mappings == None && typeMap == map[] && typeIdMap == map[]
      ensures nameLog == [] && idLog == [] && loads == 0
    {
      this.resource := resource;
      this.serverVersion := serverVersion;
      mappings := None;
      typeMap := map[];
      typeIdMap := map[];
      nameLog := [];
      idLog := [];
      loads := 0;
    }

    /** `define`. */
    method Define(name: string, deserializer: Closure, serializer: Closure)
      returns (r: Result<EntityDataType, MappingError>)
      requires Valid()
      modifies this
      ensures Valid()
      ensures mappings == Some(resource)
      ensures old(mappings).Some? ==> mappings == old(mappings)
      ensures loads == 1 && (old(mappings).Some? ==> loads == old(loads))
      ensures r == NewEntityDataType(resource, serverVersion, name, deserializer, serializer)
      ensures r.Failure? ==>
        && typeMap == old(typeMap) && typeIdMap == old(typeIdMap)
        && nameLog == old(nameLog) && idLog == old(idLog)
      ensures r.Success? ==>
        && typeMap == old(typeMap)[name := r.value]
        && typeIdMap == old(typeIdMap)[r.value.GetId() := r.value]
        && nameLog == old(nameLog) + [(name, r.value)]
        && idLog == old(idLog) + [(r.value.GetId(), r.value)]
      ensures r.Success? ==> GetByName(name) == Some(r.value) && GetById(r.value.GetId()) == Some(r.value)
    {
      if mappings.None? {
        mappings := Some(resource);
        loads := loads + 1;
      }
      var mappingsVersion := MappingsServerVersion(serverVersion);
      var id: int;
      if mappingsVersion.Name() in mappings.value {
        var ids := mappings.value[mappingsVersion.Name()];
        if name in ids {
          id := ids[name];
        } else {
          id := -1;
        }
      } else {
        return Failure(MissingMappings(mappingsVersion.Name()));
      }
      var t := EntityDataType(name, id, deserializer, serializer);
      assert ResolveId(resource, mappingsVersion.Name(), name) == Success(id);
      assert Success(t) == NewEntityDataType(resource, serverVersion, name, deserializer, serializer);
      Put(t);
      r := Success(t);
    }

    /** The two `put`s that end `define`: afterwards both lookups find `t`. */
    method Put(t: EntityDataType)
      requires Valid() && mappings.Some?
      modifies this`typeMap, this`typeIdMap, this`nameLog, this`idLog
      ensures Valid()
      ensures typeMap == old(typeMap)[t.GetName() := t]
      ensures typeIdMap == old(typeIdMap)[t.GetId() := t]
      ensures nameLog == old(nameLog) + [(t.GetName(), t)]
      ensures idLog == old(idLog) + [(t.GetId(), t)]
      ensures GetByName(t.GetName()) == Some(t) && GetById(t.GetId()) == Some(t)
    {
      AssignAppend(nameLog, t.GetName(), t);
      AssignAppend(idLog, t.GetId(), t);
      typeMap := typeMap[t.GetName() := t];
      typeIdMap := typeIdMap[t.GetId() := t];
      nameLog := nameLog + [(t.GetName(), t)];
      idLog := idLog + [(t.GetId(), t)];
    }

    /** `getById`: the type most recently defined with `id`, or null. */
    function GetById(id: int): (r: Option<EntityDataType>)
      reads this
      requires Valid()
      ensures r.Some? <==> LastIndexOf(idLog, id).Some?
      ensures r.Some? ==> r.value == idLog[LastIndexOf(idLog, id).value].1
    {
      LastWriterWins(idLog, id);
      if id in typeIdMap then Some(typeIdMap[id]) else None
    }

    /** `getByName`: the type most recently defined under `name`, or null. */
    function GetByName(name: string): (r: Option<EntityDataType>)
      reads this
      requires Valid()
      ensures r.Some? <==> LastIndexOf(nameLog, name).Some?
      ensures r.Some? ==> r.value == nameLog[LastIndexOf(nameLog, name).value].1
    {
      LastWriterWins(nameLog, name);
      if name in typeMap then Some(typeMap[name]) else None
    }
  }
}
