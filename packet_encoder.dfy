/** The outbound interceptor of the modern injector: it copies each outgoing
    packet into a buffer of its own, repairs a pipeline whose compressor sits
    after it (checked until a compressor is found), lets listeners see and edit the packet, and
    hands the buffer on with exactly one reference left.  Netty and the decoder
    helpers are not modelled here: the pipeline's stage names are a
    sequence, and what the decompress/refactor step, the compressor, the event
    constructor and the listeners do to the bytes are parameters. */
module PacketEncoder {
  import opened Common

  // ---------------------------------------------------------------- Netty buffers

  /** A Netty `ByteBuf`: the bytes up to the writer index, the reader index,
      and the reference count. */
  class ByteBuf {
    var bytes: seq<byte>
    var readerIndex: nat
    var refCnt: nat

    ghost predicate Valid()
      reads this
    {
      readerIndex <= |bytes|
    }

    /** The bytes between the reader and the writer index. */
    function Readable(): seq<byte>
      reads this
      requires Valid()
    {
      bytes[readerIndex..]
    }

    /** `alloc().buffer()`: empty, with one reference. */
    constructor Allocate()
      ensures Valid() && bytes == [] && readerIndex == 0 && refCnt == 1
    {
      bytes := [];
      readerIndex := 0;
      refCnt := 1;
    }

    /** `writeBytes(src)`: appends the readable bytes of `src` and moves its
        reader index up to its writer index. */
    method WriteBytes(src: ByteBuf)
      requires Valid() && src.Valid() && src != this
      modifies this`bytes, src`readerIndex
      ensures Valid() && src.Valid()
      ensures bytes == old(bytes) + old(src.Readable())
      ensures src.readerIndex == |src.bytes|
    {
      bytes := bytes + src.Readable();
      src.readerIndex := |src.bytes|;
    }

    /** `readerIndex(i)`: throws unless `i` is at most the writer index. */
    method SetReaderIndex(i: nat) returns (ok: bool)
      requires Valid()
      modifies this`readerIndex
      ensures Valid()
      ensures ok <==> i <= |bytes|
      ensures readerIndex == if ok then i else old(readerIndex)
    {
      ok := i <= |bytes|;
      if ok {
        readerIndex := i;
      }
    }

    /** `clear()`: both indexes back to 0, nothing left to read. */
    method Clear()
      modifies this`bytes, this`readerIndex
      ensures Valid() && bytes == [] && readerIndex == 0
    {
      bytes := [];
      readerIndex := 0;
    }

    method Retain()
      requires refCnt > 0
      modifies this`refCnt
      ensures refCnt == old(refCnt) + 1
    {
      refCnt := refCnt + 1;
    }

    method Release()
      requires refCnt > 0
      modifies this`refCnt
      ensures refCnt == old(refCnt) - 1
    {
      refCnt := refCnt - 1;
    }
  }

  /** The `out` list the encoder hands its messages to. */
  class MessageList {
    var items: seq<ByteBuf>

    method Add(b: ByteBuf)
      modifies this
      ensures items == old(items) + [b]
    {
      items := items + [b];
    }
  }

  // ---------------------------------------------------------------- the compression-order check

  /** `List.indexOf`: the first position of `name`, or -1. */
  function IndexOf(names: seq<string>, name: string): (r: int)
    ensures -1 <= r < |names|
    ensures r == -1 <==> name !in names
    ensures r >= 0 ==> names[r] == name && name !in names[..r]
  {
    if names == [] then -1
    else if names[0] == name then 0
    else
      var k := IndexOf(names[1..], name);
      assert names[1..][..k + 1] == names[1..k + 2] by {
        if k >= 0 { assert names[1..][..k] == names[1..k + 1]; }
      }
      if k == -1 then -1 else k + 1
  }

  /** The name of the compression stage Netty pipelines of the server use. */
  const COMPRESS: string := "compress"

  /** What `handleCompressionOrder` decides: the new `handledCompression` and
      whether the packet must be decompressed and the handlers reordered. */
  datatype Decision = Decision(handled: bool, repair: bool)

  /** The decision for stage names `names` and our encoder's name. */
  function CompressionCheck(handled: bool, names: seq<string>, encoderName: string): (d: Decision)
    ensures handled ==> d == Decision(true, false)
    ensures !handled ==> (d.handled <==> COMPRESS in names)
    ensures d.repair ==> !handled && COMPRESS in names
  {
    if handled then Decision(true, false)
    else
      var compressIndex := IndexOf(names, COMPRESS);
      if compressIndex == -1 then Decision(false, false)
      else Decision(true, compressIndex > IndexOf(names, encoderName))
  }

  /** With both stages present, the repair runs exactly when the first
      "compress" comes after the first stage with the encoder's name. */
  lemma RepairIffCompressAfterEncoder(names: seq<string>, encoderName: string, i: nat, j: nat)
    requires i < |names| && names[i] == COMPRESS && COMPRESS !in names[..i]
    requires j < |names| && names[j] == encoderName && encoderName !in names[..j]
    ensures CompressionCheck(false, names, encoderName).handled
    ensures CompressionCheck(false, names, encoderName).repair <==> i > j
  {
    FirstPosition(names, COMPRESS, i);
    FirstPosition(names, encoderName, j);
  }

  /** A position where `name` occurs and before which it does not is the one
      `indexOf` finds. */
  lemma FirstPosition(names: seq<string>, name: string, i: nat)
    requires i < |names| && names[i] == name && name !in names[..i]
    ensures IndexOf(names, name) == i
  {
    var k := IndexOf(names, name);
    assert forall m :: 0 <= m < i ==> names[..i][m] == names[m];
    assert forall m :: 0 <= m < k ==> names[..k][m] == names[m];
  }

  /** With our encoder missing from the pipeline its index is -1, so any
      "compress" stage counts as misplaced. */
  lemma RepairWhenEncoderMissing(names: seq<string>, encoderName: string)
    requires COMPRESS in names && encoderName !in names
    ensures CompressionCheck(false, names, encoderName) == Decision(true, true)
  {
  }

  /** The number of repairs a handler performs on a run of packets, the i-th
      seeing the stage names `pipelines[i]`. */
  function Repairs(handled: bool, pipelines: seq<seq<string>>, encoderName: string): (n: nat)
    ensures n <= |pipelines|
    ensures handled ==> n == 0
    decreases |pipelines|
  {
    if pipelines == [] then 0
    else
      var d := CompressionCheck(handled, pipelines[0], encoderName);
      (if d.repair then 1 else 0) + Repairs(d.handled, pipelines[1..], encoderName)
  }

  /** The repair happens at most once per handler, and never once the flag is set. */
  lemma {:induction false} RepairAtMostOnce(handled: bool, pipelines: seq<seq<string>>, encoderName: string)
    ensures Repairs(handled, pipelines, encoderName) <= 1
    ensures handled ==> Repairs(handled, pipelines, encoderName) == 0
    decreases |pipelines|
  {
    if pipelines != [] {
      var d := CompressionCheck(handled, pipelines[0], encoderName);
      RepairAtMostOnce(d.handled, pipelines[1..], encoderName);
    }
  }

  /** While no stage is called "compress" the flag stays down, so a later
      packet checks again and repairs once the stage shows up. */
  lemma CheckRerunsUntilCompressAppears(pipelines: seq<seq<string>>, encoderName: string, names: seq<string>)
    requires forall k :: 0 <= k < |pipelines| ==> COMPRESS !in pipelines[k]
    ensures Repairs(false, pipelines + [names], encoderName)
         == (if CompressionCheck(false, names, encoderName).repair then 1 else 0)
  {
    RepairsAfterCleanRun(pipelines, encoderName, [names]);
  }

  lemma {:induction false} RepairsAfterCleanRun(pipelines: seq<seq<string>>, encoderName: string, rest: seq<seq<string>>)
    requires forall k :: 0 <= k < |pipelines| ==> COMPRESS !in pipelines[k]
    ensures Repairs(false, pipelines + rest, encoderName) == Repairs(false, rest, encoderName)
    decreases |pipelines|
  {
    if pipelines != [] {
      assert (pipelines + rest)[0] == pipelines[0] && COMPRESS !in pipelines[0];
      assert CompressionCheck(false, pipelines[0], encoderName) == Decision(false, false);
      assert (pipelines + rest)[1..] == pipelines[1..] + rest;
      RepairsAfterCleanRun(pipelines[1..], encoderName, rest);
    } else {
      assert pipelines + rest == rest;
    }
  }

  // ---------------------------------------------------------------- the collaborators

  /** Why `encode` threw. */
  datatype Stage = Decompress | EventConstruction | Listeners | Compress
  datatype EncodeError = Threw(stage: Stage) | IndexOutOfBounds(index: nat)

  /** What `callDecode` followed by `refactorHandlers` leaves: whether the
      packet must be compressed again, and the buffer's new readable bytes. */
  datatype Repair = Repair(needsCompress: bool, contents: seq<byte>)

  /** The channel's pipeline: its stage names, the decompress-and-reorder step
      (`None` when it throws), and the "compress" stage's `callEncode`. */
  datatype Pipeline = Pipeline(
    names: seq<string>,
    repair: seq<byte> -> Option<Repair>,
    compress: seq<byte> -> Option<seq<byte>>)

  /** The packet-send event: `construct` is the reader index the event's
      constructor leaves after reading the packet id from the given bytes and
      index; `listen` is what the listeners leave in the buffer (bytes and
      reader index).  `None` is a thrown exception. */
  datatype Observer = Observer(
    construct: (seq<byte>, nat) -> Option<nat>,
    listen: (seq<byte>, nat) -> Option<(seq<byte>, nat)>)

  // ---------------------------------------------------------------- what encode computes

  /** `handleCompressionOrder` after the decision: the repair runs only when
      decided, and otherwise the buffer is left as it is. */
  function RepairStep(d: Decision, p: Pipeline, input: seq<byte>): (r: Result<Repair, EncodeError>)
    ensures !d.repair ==> r == Success(Repair(false, input))
    ensures d.repair ==> (r.Success? <==> p.repair(input).Some?)
    ensures d.repair && r.Success? ==> r.value == p.repair(input).value
    ensures r.Failure? ==> r.error == Threw(Decompress)
  {
    if !d.repair then Success(Repair(false, input))
    else
      match p.repair(input)
      case None => Failure(Threw(Decompress))
      case Some(rep) => Success(rep)
  }

  /** The event round: the constructor reads from `first`, the listeners run,
      and the completion hook puts the reader index back where the constructor
      left it.  The result is the bytes and the reader index after the hook. */
  function DispatchEvent(obs: Observer, contents: seq<byte>, first: nat): (r: Result<(seq<byte>, nat), EncodeError>)
    ensures r.Success? ==> r.value.1 <= |r.value.0|
  {
    match obs.construct(contents, first)
    case None => Failure(Threw(EventConstruction))
    case Some(afterConstruct) =>
      if afterConstruct > |contents| then Failure(IndexOutOfBounds(afterConstruct))
      else
        match obs.listen(contents, afterConstruct)
        case None => Failure(Threw(Listeners))
        case Some(edited) =>
          if edited.1 > |edited.0| then Failure(IndexOutOfBounds(edited.1))
          else if afterConstruct > |edited.0| then Failure(IndexOutOfBounds(afterConstruct))
          else Success((edited.0, afterConstruct))
  }

  /** The bytes `encode` passes on for the packet `input`, given the decision
      `d` of the compression check. */
  function EncodeSpec(d: Decision, p: Pipeline, obs: Observer, input: seq<byte>): (r: Result<seq<byte>, EncodeError>)
    ensures RepairStep(d, p, input).Failure? ==> r == Failure(Threw(Decompress))
    ensures r.Success? ==>
      && RepairStep(d, p, input).Success?
      && DispatchEvent(obs, RepairStep(d, p, input).value.contents, 0).Success?
    ensures r.Success? && !RepairStep(d, p, input).value.needsCompress ==>
      r.value == DispatchEvent(obs, RepairStep(d, p, input).value.contents, 0).value.0
    ensures r.Success? && RepairStep(d, p, input).value.needsCompress ==>
      Some(r.value) == p.compress(DispatchEvent(obs, RepairStep(d, p, input).value.contents, 0).value.0)
  {
    match RepairStep(d, p, input)
    case Failure(e) => Failure(e)
    case Success(rep) =>
      match DispatchEvent(obs, rep.contents, 0)
      case Failure(e) => Failure(e)
      case Success(event) =>
        if !rep.needsCompress then Success(event.0)
        else
          match p.compress(event.0)
          case None => Failure(Threw(Compress))
          case Some(compressed) => Success(compressed)
  }

  /** The completion hook restores the index the constructor left, however far
      the listeners moved it: two listener runs that leave the same bytes give
      the same outcome. */
  lemma ListenerIndexIsForgotten(obs1: Observer, obs2: Observer, contents: seq<byte>, first: nat)
    requires obs1.construct(contents, first) == obs2.construct(contents, first)
    requires var b := obs1.construct(contents, first);
      b.Some? && b.value <= |contents| ==>
        && obs1.listen(contents, b.value).Some? && obs2.listen(contents, b.value).Some?
        && obs1.listen(contents, b.value).value.0 == obs2.listen(contents, b.value).value.0
        && obs1.listen(contents, b.value).value.1 <= |obs1.listen(contents, b.value).value.0|
        && obs2.listen(contents, b.value).value.1 <= |obs2.listen(contents, b.value).value.0|
    ensures DispatchEvent(obs1, contents, first) == DispatchEvent(obs2, contents, first)
    ensures DispatchEvent(obs1, contents, first).Success? ==>
      DispatchEvent(obs1, contents, first).value.1 == obs1.construct(contents, first).value
  {
  }

  /** Without a repair nothing is recompressed: the compress stage is never
      consulted, and what the listeners leave is what is sent. */
  lemma NoRepairNoRecompress(d: Decision, p: Pipeline, q: Pipeline, obs: Observer, input: seq<byte>)
    requires !d.repair
    ensures EncodeSpec(d, p, obs, input) == EncodeSpec(d, q, obs, input)
    ensures DispatchEvent(obs, input, 0).Success? ==>
      EncodeSpec(d, p, obs, input) == Success(DispatchEvent(obs, input, 0).value.0)
  {
  }

  /** A packet no listener edits leaves byte for byte as it came in. */
  lemma PassThrough(d: Decision, p: Pipeline, obs: Observer, input: seq<byte>, b: nat, i: nat)
    requires !d.repair
    requires obs.construct(input, 0) == Some(b) && b <= |input|
    requires obs.listen(input, b) == Some((input, i)) && i <= |input|
    ensures EncodeSpec(d, p, obs, input) == Success(input)
  {
  }

  /** After a repair that asks for it, what is sent is the compressor's output
      on the bytes the listeners left. */
  lemma RepairThenRecompress(d: Decision, p: Pipeline, obs: Observer, input: seq<byte>)
    requires d.repair && p.repair(input).Some? && p.repair(input).value.needsCompress
    requires DispatchEvent(obs, p.repair(input).value.contents, 0).Success?
    ensures var edited := DispatchEvent(obs, p.repair(input).value.contents, 0).value.0;
      && (p.compress(edited).Some? ==> EncodeSpec(d, p, obs, input) == Success(p.compress(edited).value))
      && (p.compress(edited).None? ==> EncodeSpec(d, p, obs, input) == Failure(Threw(Compress)))
  {
  }

  // ---------------------------------------------------------------- the handler

  /** `PacketEncoderModern`: one per channel. */
  class PacketEncoderModern {
    /** Whether the compression order has been dealt with. */
    var handledCompression: bool
    /** `PacketEvents.get().encoderName`: this handler's name in the pipeline. */
    const encoderName: string

    constructor (encoderName: string)
      ensures !handledCompression && this.encoderName == encoderName
    {
      handledCompression := false;
      this.encoderName := encoderName;
    }

    /** `handleCompressionOrder`: decides from the stage names and, on a
        misordered pipeline, decompresses the packet and reorders the handlers. */
    method HandleCompressionOrder(p: Pipeline, buf: ByteBuf) returns (r: Result<bool, EncodeError>)
      requires buf.Valid()
      modifies this`handledCompression, buf`bytes, buf`readerIndex
      ensures buf.Valid()
      ensures var d := CompressionCheck(old(handledCompression), p.names, encoderName);
        var step := RepairStep(d, p, old(buf.Readable()));
        && handledCompression == d.handled
        && (r.Failure? <==> step.Failure?)
        && (r.Failure? ==> r.error == step.error)
        && (r.Success? ==> r.value == step.value.needsCompress)
        && (!d.repair ==> buf.bytes == old(buf.bytes) && buf.readerIndex == old(buf.readerIndex))
        && (d.repair && r.Success? ==> buf.bytes == step.value.contents && buf.readerIndex == 0)
    {
      if handledCompression {
        return Success(false);
      }
      var encoderIndex := IndexOf(p.names, COMPRESS);
      if encoderIndex == -1 {
        return Success(false);
      }
      handledCompression := true;
      if encoderIndex > IndexOf(p.names, encoderName) {
        var repaired := p.repair(buf.Readable());
        if repaired.None? {
          return Failure(Threw(Decompress));
        }
        buf.bytes, buf.readerIndex := repaired.value.contents, 0;
        return Success(repaired.value.needsCompress);
      }
      return Success(false);
    }

    /** `recompress`: the compressor writes into a fresh buffer, the packet
        buffer is cleared and refilled from it, and the fresh buffer is
        released whether or not the compressor threw. */
    method Recompress(p: Pipeline, buf: ByteBuf) returns (r: Outcome<EncodeError>, compressed: ByteBuf)
      requires buf.Valid()
      modifies buf`bytes, buf`readerIndex
      ensures fresh(compressed) && compressed.refCnt == 0
      ensures buf.Valid()
      ensures p.compress(old(buf.Readable())).None? ==>
        && r == Fail(Threw(Compress))
        && buf.bytes == old(buf.bytes) && buf.readerIndex == old(buf.readerIndex)
      ensures p.compress(old(buf.Readable())).Some? ==>
        && r == Pass
        && buf.bytes == p.compress(old(buf.Readable())).value && buf.readerIndex == 0
    {
      compressed := new ByteBuf.Allocate();
      var encoded := p.compress(buf.Readable());
      if encoded.Some? {
        compressed.bytes := encoded.value;
        buf.Clear();
        buf.WriteBytes(compressed);
        r := Pass;
      } else {
        r := Fail(Threw(Compress));
      }
      compressed.Release();
    }

    /** The `try` block of `encode`, on the handler's own copy `buf` of the packet. */
    method EncodeCopy(p: Pipeline, obs: Observer, buf: ByteBuf, out: MessageList) returns (r: Outcome<EncodeError>)
      requires buf.Valid() && buf.readerIndex == 0 && buf.refCnt == 1
      modifies this`handledCompression, buf, out
      ensures buf.Valid()
      ensures handledCompression == CompressionCheck(old(handledCompression), p.names, encoderName).handled
      ensures var spec := EncodeSpec(CompressionCheck(old(handledCompression), p.names, encoderName), p, obs, old(buf.bytes));
        && (r.Pass? <==> spec.Success?)
        && (r.Fail? ==> r.error == spec.error && out.items == old(out.items) && buf.refCnt == 1)
        && (r.Pass? ==>
              && buf.bytes == spec.value && buf.readerIndex == 0
              && out.items == old(out.items) + [buf] && buf.refCnt == 2)
    {
      var needsCompress := HandleCompressionOrder(p, buf);
      if needsCompress.Failure? {
        return Fail(needsCompress.error);
      }

      var firstReaderIndex := buf.readerIndex;
      // The event's constructor reads the packet id.
      var constructed := obs.construct(buf.bytes, buf.readerIndex);
      if constructed.None? {
        return Fail(Threw(EventConstruction));
      }
      var ok := buf.SetReaderIndex(constructed.value);
      if !ok {
        return Fail(IndexOutOfBounds(constructed.value));
      }
      var readerIndex := buf.readerIndex;

      // callEvent: the listeners, then the completion hook.
      var listened := obs.listen(buf.bytes, buf.readerIndex);
      if listened.None? {
        return Fail(Threw(Listeners));
      }
      if listened.value.1 > |listened.value.0| {
        return Fail(IndexOutOfBounds(listened.value.1));
      }
      buf.bytes, buf.readerIndex := listened.value.0, listened.value.1;
      ok := buf.SetReaderIndex(readerIndex);
      if !ok {
        return Fail(IndexOutOfBounds(readerIndex));
      }
      ok := buf.SetReaderIndex(firstReaderIndex);

      if needsCompress.value {
        var compressed;
        r, compressed := Recompress(p, buf);
        if r.Fail? {
          return;
        }
      }
      buf.Retain();
      out.Add(buf);
      r := Pass;
    }

    /** `encode`: copies the packet into a fresh buffer, runs the `try` block on
        it, and releases the copy once in `finally`.  On success the one
        reference left is the one `out` holds; on an exception none is left. */
    method Encode(p: Pipeline, obs: Observer, byteBuf: ByteBuf, out: MessageList)
      returns (r: Outcome<EncodeError>, transformed: ByteBuf)
      requires byteBuf.Valid()
      modifies this`handledCompression, byteBuf`readerIndex, out
      ensures fresh(transformed) && transformed.Valid()
      ensures byteBuf.readerIndex == |byteBuf.bytes|
      ensures handledCompression == CompressionCheck(old(handledCompression), p.names, encoderName).handled
      ensures var spec := EncodeSpec(CompressionCheck(old(handledCompression), p.names, encoderName), p, obs, old(byteBuf.Readable()));
        && (r.Pass? <==> spec.Success?)
        && (r.Fail? ==> r.error == spec.error && out.items == old(out.items) && transformed.refCnt == 0)
        && (r.Pass? ==>
              && transformed.bytes == spec.value && transformed.readerIndex == 0
              && out.items == old(out.items) + [transformed] && transformed.refCnt == 1)
    {
      transformed := new ByteBuf.Allocate();
      transformed.WriteBytes(byteBuf);
      assert transformed.bytes == old(byteBuf.Readable());
      r := EncodeCopy(p, obs, transformed, out);
      transformed.Release();
    }
  }
}
