/** The slice of `PacketWrapper` the entity-data codecs are built from.
    `PacketWrapper` is defined elsewhere in packetevents: its boolean, 4-byte
    int and VarInt encodings are written out here as the protocol defines them
    (big-endian, seven bits per VarInt byte), and every other payload it can
    read or write is an abstract `Codec`. */
module Primitives {
  import opened Common

  /** Why a read threw: the buffer ran out, or a VarInt ran past five bytes;
      `taken` is how many bytes the read had consumed when it threw. */
  datatype DecodeError = EndOfBuffer(taken: nat) | VarIntTooBig(taken: nat)

  /** A value read from the front of some bytes, and how many bytes it took. */
  datatype Decoded<T> = Decoded(value: T, length: nat)

  /** A read/write pair: `encode` gives the bytes a write appends, `decode`
      reads a value from the front of the unread bytes. */
  datatype Codec<!T> = Codec(encode: T -> seq<byte>, decode: seq<byte> -> Result<Decoded<T>, DecodeError>)

  /** `decode` reads back exactly what `encode` wrote, whatever follows it. */
  ghost predicate RoundTrips<T(!new)>(c: Codec<T>) {
    forall x: T, s: seq<byte> | c.encode(x) <= s :: c.decode(s) == Success(Decoded(x, |c.encode(x)|))
  }

  /** A read through a cursor: a decoder that would need more bytes than are
      left throws, as a Netty read past the writer index does, and no read
      consumes more bytes than are left. */
  function ReadFrom<T>(c: Codec<T>, s: seq<byte>): (r: Result<Decoded<T>, DecodeError>)
    ensures r.Success? ==> r.value.length <= |s|
    ensures r.Failure? ==> r.error.taken <= |s|
  {
    match c.decode(s)
    case Success(d) => if d.length <= |s| then Success(d) else Failure(EndOfBuffer(0))
    case Failure(e) => if e.taken <= |s| then Failure(e) else Failure(e.(taken := |s|))
  }

  /** For a codec that round-trips, a read through the cursor is the codec's own read. */
  lemma ReadFromRoundTrip<T(!new)>(c: Codec<T>, x: T, s: seq<byte>)
    requires RoundTrips(c) && c.encode(x) <= s
    ensures ReadFrom(c, s) == Success(Decoded(x, |c.encode(x)|))
  {
  }

  // ---------------------------------------------------------------- boolean

  /** `writeBoolean`: one byte, 1 for true and 0 for false. */
  function EncodeBoolean(b: bool): seq<byte> {
    [if b then 1 else 0]
  }

  /** `readBoolean`: one byte, true unless it is 0. */
  function DecodeBoolean(s: seq<byte>): Result<Decoded<bool>, DecodeError> {
    if |s| == 0 then Failure(EndOfBuffer(0)) else Success(Decoded(s[0] != 0, 1))
  }

  function BooleanCodec(): Codec<bool> {
    Codec(EncodeBoolean, DecodeBoolean)
  }

  lemma BooleanRoundTrips()
    ensures RoundTrips(BooleanCodec())
  {
  }

  // ---------------------------------------------------------------- int

  /** `writeInt`: the 32 bits of `x`, most significant byte first. */
  function EncodeInt(x: Int32): (s: seq<byte>)
    ensures |s| == 4
  {
    var u := ToUnsigned(x);
    [u / 0x100_0000, u / 0x1_0000 % 0x100, u / 0x100 % 0x100, u % 0x100]
  }

  /** The unsigned number four bytes spell, most significant first. */
  function BigEndian(s: seq<byte>): (u: nat)
    requires |s| == 4
    ensures u < TWO_32
  {
    var b0, b1, b2, b3: int := s[0], s[1], s[2], s[3];
    ((b0 * 0x100 + b1) * 0x100 + b2) * 0x100 + b3
  }

  /** `readInt`: four bytes, most significant first, as a signed 32-bit value.
      Netty checks that four bytes are left before it takes any. */
  function DecodeInt(s: seq<byte>): Result<Decoded<Int32>, DecodeError> {
    if |s| < 4 then Failure(EndOfBuffer(0))
    else Success(Decoded(ToSigned(BigEndian(s[..4])), 4))
  }

  function IntCodec(): Codec<Int32> {
    Codec(EncodeInt, DecodeInt)
  }

  lemma IntRoundTrip(x: Int32, s: seq<byte>)
    requires EncodeInt(x) <= s
    ensures DecodeInt(s) == Success(Decoded(x, 4))
  {
    var u := ToUnsigned(x);
    var q0 := u / 0x100;
    var q1 := q0 / 0x100;
    var q2 := q1 / 0x100;
    assert u == q0 * 0x100 + u % 0x100;
    assert q0 == q1 * 0x100 + q0 % 0x100;
    assert q1 == q2 * 0x100 + q1 % 0x100;
    assert u / 0x1_0000 == q1;
    assert u / 0x100_0000 == q2;
    assert s[..4] == EncodeInt(x);
    assert BigEndian(s[..4]) == u;
  }

  lemma IntRoundTrips()
    ensures RoundTrips(IntCodec())
  {
    forall x: Int32, s: seq<byte> | EncodeInt(x) <= s
      ensures DecodeInt(s) == Success(Decoded(x, |EncodeInt(x)|))
    {
      IntRoundTrip(x, s);
    }
  }

  // ---------------------------------------------------------------- VarInt

  /** 128 to the power `n`: the weight of the `n`-th seven-bit group. */
  function Pow128(n: nat): (p: nat)
    ensures p >= 1
  {
    if n == 0 then 1 else 0x80 * Pow128(n - 1)
  }

  /** The seven-bit groups of `u`, low group first, each but the last with the
      continuation bit set. */
  function EncodeVarUInt(u: nat): (s: seq<byte>)
    ensures |s| >= 1
    decreases u
  {
    if u < 0x80 then [u] else [u % 0x80 + 0x80] + EncodeVarUInt(u / 0x80)
  }

  lemma {:induction false} VarUIntLength(u: nat, n: nat)
    requires n >= 1 && u < Pow128(n)
    ensures |EncodeVarUInt(u)| <= n
    decreases n
  {
    if u >= 0x80 {
      assert Pow128(1) == 0x80;
      VarUIntLength(u / 0x80, n - 1);
    }
  }

  /** `writeVarInt`: the 32 bits of `x` (a negative value as its two's
      complement) in one to five bytes. */
  function EncodeVarInt(x: Int32): (s: seq<byte>)
    ensures 1 <= |s| <= 5
  {
    assert Pow128(5) == 0x8_0000_0000;
    VarUIntLength(ToUnsigned(x), 5);
    EncodeVarUInt(ToUnsigned(x))
  }

  /** `readVarInt` after `read` bytes whose groups add up to `acc`: it takes
      the next byte, adds its group, throws once a sixth byte has been taken,
      and goes on while the continuation bit is set.  The sum is cut to 32 bits
      as Java's `int` shifts cut it.  Every byte taken stays taken when it
      throws. */
  function DecodeVarIntFrom(s: seq<byte>, read: nat, acc: nat): (r: Result<Decoded<Int32>, DecodeError>)
    ensures r.Success? ==> read < r.value.length <= read + |s| && r.value.length <= 5
    ensures r.Failure? ==> r.error.taken <= read + |s|
    ensures r.Failure? && r.error.VarIntTooBig? ==> r.error.taken >= 6
    ensures read <= 5 && r.Failure? && r.error.VarIntTooBig? ==> r.error.taken == 6
    decreases |s|
  {
    if |s| == 0 then Failure(EndOfBuffer(read))
    else
      var sum := acc + (s[0] % 0x80) * Pow128(read);
      if read + 1 > 5 then Failure(VarIntTooBig(read + 1))
      else if s[0] >= 0x80 then DecodeVarIntFrom(s[1..], read + 1, sum)
      else Success(Decoded(ToSigned(sum % TWO_32), read + 1))
  }

  function DecodeVarInt(s: seq<byte>): Result<Decoded<Int32>, DecodeError> {
    DecodeVarIntFrom(s, 0, 0)
  }

  function VarIntCodec(): Codec<Int32> {
    Codec(EncodeVarInt, DecodeVarInt)
  }

  lemma {:induction false} VarUIntRoundTrip(u: nat, read: nat, acc: nat, s: seq<byte>)
    requires read + |EncodeVarUInt(u)| <= 5
    requires EncodeVarUInt(u) <= s
    ensures DecodeVarIntFrom(s, read, acc)
         == Success(Decoded(ToSigned((acc + u * Pow128(read)) % TWO_32), read + |EncodeVarUInt(u)|))
    decreases u
  {
    if u >= 0x80 {
      var p := Pow128(read);
      assert s[0] == u % 0x80 + 0x80;
      var sum := acc + (u % 0x80) * p;
      assert EncodeVarUInt(u / 0x80) <= s[1..];
      VarUIntRoundTrip(u / 0x80, read + 1, sum, s[1..]);
      GroupStep(u, p);
    }
  }

  /** Taking off the low group and shifting the rest up by seven bits loses nothing. */
  lemma GroupStep(u: nat, p: nat)
    ensures (u % 0x80) * p + (u / 0x80) * (0x80 * p) == u * p
  {
    assert (u / 0x80) * (0x80 * p) == (0x80 * (u / 0x80)) * p;
    assert (u % 0x80) * p + (0x80 * (u / 0x80)) * p == (u % 0x80 + 0x80 * (u / 0x80)) * p;
  }

  lemma VarIntRoundTrip(x: Int32, s: seq<byte>)
    requires EncodeVarInt(x) <= s
    ensures DecodeVarInt(s) == Success(Decoded(x, |EncodeVarInt(x)|))
  {
    VarUIntRoundTrip(ToUnsigned(x), 0, 0, s);
  }

  lemma VarIntRoundTrips()
    ensures RoundTrips(VarIntCodec())
  {
    forall x: Int32, s: seq<byte> | EncodeVarInt(x) <= s
      ensures DecodeVarInt(s) == Success(Decoded(x, |EncodeVarInt(x)|))
    {
      VarIntRoundTrip(x, s);
    }
  }

  // ---------------------------------------------------------------- cursor

  /** The wrapper's view of its buffer: the bytes written so far (the writer
      index is their count) and the reader index. */
  class PacketWrapper {
    var buffer: seq<byte>
    var readerIndex: nat

    ghost predicate Valid()
      reads this
    {
      readerIndex <= |buffer|
    }

    function Unread(): seq<byte>
      reads this
      requires Valid()
    {
      buffer[readerIndex..]
    }

    constructor (contents: seq<byte>)
      ensures Valid() && buffer == contents && readerIndex == 0
    {
      buffer := contents;
      readerIndex := 0;
    }

    /** A write appends the value's encoding at the writer index. */
    method Write<T>(c: Codec<T>, x: T)
      requires Valid()
      modifies this`buffer
      ensures Valid()
      ensures buffer == old(buffer) + c.encode(x)
    {
      buffer := buffer + c.encode(x);
    }

    /** A read decodes the unread bytes and moves the reader index past what it took. */
    method Read<T>(c: Codec<T>) returns (r: Result<T, DecodeError>)
      requires Valid()
      modifies this`readerIndex
      ensures Valid()
      ensures ReadFrom(c, old(Unread())).Success? ==>
        && r == Success(ReadFrom(c, old(Unread())).value.value)
        && readerIndex == old(readerIndex) + ReadFrom(c, old(Unread())).value.length
      ensures ReadFrom(c, old(Unread())).Failure? ==>
        && r == Failure(ReadFrom(c, old(Unread())).error)
        && readerIndex == old(readerIndex) + ReadFrom(c, old(Unread())).error.taken
    {
      match ReadFrom(c, Unread())
      case Success(d) =>
        readerIndex := readerIndex + d.length;
        r := Success(d.value);
      case Failure(e) =>
        readerIndex := readerIndex + e.taken;
        r := Failure(e);
    }
  }
}
