/** Whole messages: what is encoded validates, to the same header and payload; and whatever
    validates conforms to the schema and has not been amplified. */
module EndToEnd {
  import opened Results
  import opened Bytes
  import opened Schema
  import opened Pointers
  import opened Encode
  import opened Decode
  import opened EncodeFrame
  import opened Wire
  import opened RoundTrip
  import opened Message
  import EncodeTotal
  import LF = LayoutFacts
  import DecodeSound
  import DecodeBudget
  import D = Depth

  /** The header's numbers fit their widths, as their types in the source guarantee. */
  ghost predicate HeaderTyped(h: MessageHeader) {
    && h.interfaceId < TWO_32 && h.name < TWO_32 && h.flags < TWO_32 && h.traceNonce < TWO_32 && h.version < TWO_32
    && h.requestId.GetOr(0) < TWO_64 && I64.InRange(h.creationTimeticks.GetOr(0))
  }

  /** The optional fields are those of the version, and the flags make sense for it. */
  ghost predicate HeaderConsistent(h: MessageHeader) {
    && (h.requestId.Some? <==> h.version >= 1)
    && (h.creationTimeticks.Some? <==> h.version >= 3)
    && (h.version == 0 ==> !h.ExpectsResponse() && !h.IsResponse())
    && !(h.ExpectsResponse() && h.IsResponse())
  }

  /** The header as the receiver sees it: payload pointer filled in, no interface ids. */
  function Received(h: MessageHeader, off: nat): MessageHeader {
    if h.version >= 2 then h.(payload := Some(Offset(off)), payloadInterfaceIds := Some(NullPointer))
    else h.(payload := None, payloadInterfaceIds := None)
  }

  lemma HoldsReadAt(bytes: seq<byte>, off: nat, n: nat, k: nat)
    requires Holds(bytes, off, n, k) && n < Pow256(k)
    ensures ReadAt(bytes, off, k) == Ok(n)
  {
    FromLERound(n, k);
  }

  ghost predicate BaseHolds(b: seq<byte>, h: MessageHeader, size: nat) {
    && Holds(b, 0, size, 4) && Holds(b, 4, h.version, 4) && Holds(b, 8, h.interfaceId, 4)
    && Holds(b, 12, h.name, 4) && Holds(b, 16, h.flags, 4) && Holds(b, 20, h.traceNonce, 4)
  }

  lemma BaseBytesHold(h: MessageHeader, size: nat)
    ensures BaseHolds(BaseBytes(h, size), h, size)
  {
    hide LE;
    var b := BaseBytes(h, size);
    assert b[0..4] == LE(size, 4);
    assert b[4..8] == LE(h.version, 4);
    assert b[8..12] == LE(h.interfaceId, 4);
    assert b[12..16] == LE(h.name, 4);
    assert b[16..20] == LE(h.flags, 4);
    assert b[20..24] == b[20..] == LE(h.traceNonce, 4);
  }

  /** Where a serialized header keeps each field its version has. */
  ghost predicate HeaderHolds(b: seq<byte>, h: MessageHeader) {
    && BaseHolds(b, h, HeaderSize(h.version))
    && (h.version >= 1 ==> Holds(b, 24, h.requestId.GetOr(0), 8))
    && (h.version >= 2 ==> Holds(b, 40, 0, 8))
    && (h.version >= 3 ==> Holds(b, 48, I64.ToUnsigned(h.creationTimeticks.GetOr(0)), 8))
  }

  lemma SerializeHolds(h: MessageHeader)
    requires Serialize(h).Ok?
    ensures |Serialize(h).value| == HeaderSize(h.version) && HeaderHolds(Serialize(h).value, h)
  {
    hide LE, BaseBytes, BaseHolds;
    var size, b := HeaderSize(h.version), Serialize(h).value;
    BaseBytesHold(h, size);
    assert b[..24] == BaseBytes(h, size);
    BaseAppend(BaseBytes(h, size), b, h, size);
    if h.version >= 1 { assert b[24..32] == LE(h.requestId.GetOr(0), 8); }
    if h.version >= 2 { assert b[40..48] == LE(0, 8); }
    if h.version >= 3 { assert b[48..56] == LE(I64.ToUnsigned(h.creationTimeticks.GetOr(0)), 8); }
  }

  lemma BaseAppend(a: seq<byte>, b: seq<byte>, h: MessageHeader, size: nat)
    requires BaseHolds(a, h, size) && a <= b
    ensures BaseHolds(b, h, size)
  {
    hide Holds;
    HoldsPrefix(a, b, 0, size, 4);
    HoldsPrefix(a, b, 4, h.version, 4);
    HoldsPrefix(a, b, 8, h.interfaceId, 4);
    HoldsPrefix(a, b, 12, h.name, 4);
    HoldsPrefix(a, b, 16, h.flags, 4);
    HoldsPrefix(a, b, 20, h.traceNonce, 4);
  }

  /** Patching the payload pointer and appending the payload leave the header in place. */
  lemma HeaderKept(a: seq<byte>, b: seq<byte>, h: MessageHeader)
    requires HeaderHolds(a, h) && Frame(a, b, PAYLOAD_OFFSET, PAYLOAD_OFFSET + 8)
    ensures HeaderHolds(b, h)
  {
    hide Holds, Frame;
    HoldsThrough(a, b, 0, HeaderSize(h.version), 4, 32, 40);
    HoldsThrough(a, b, 4, h.version, 4, 32, 40);
    HoldsThrough(a, b, 8, h.interfaceId, 4, 32, 40);
    HoldsThrough(a, b, 12, h.name, 4, 32, 40);
    HoldsThrough(a, b, 16, h.flags, 4, 32, 40);
    HoldsThrough(a, b, 20, h.traceNonce, 4, 32, 40);
    if h.version >= 1 { HoldsThrough(a, b, 24, h.requestId.GetOr(0), 8, 32, 40); }
    if h.version >= 2 { HoldsThrough(a, b, 40, 0, 8, 32, 40); }
    if h.version >= 3 { HoldsThrough(a, b, 48, I64.ToUnsigned(h.creationTimeticks.GetOr(0)), 8, 32, 40); }
  }

  /** A buffer holding a header parses to it exactly when the header is consistent. */
  lemma ParseHeader(b: seq<byte>, h: MessageHeader, off: nat)
    requires HeaderTyped(h) && HeaderHolds(b, h) && |b| >= HeaderSize(h.version)
    requires off < TWO_32
    requires h.version >= 2 ==>
      PAYLOAD_OFFSET < off && Holds(b, PAYLOAD_OFFSET, EncodePointer(PAYLOAD_OFFSET, off), 8)
    ensures Parse(b) == Ok((Received(h, off), HeaderSize(h.version))) <==> HeaderConsistent(h)
  {
    hide Holds, ReadAt;
    Pow256Values();
    HoldsReadAt(b, 0, HeaderSize(h.version), 4);
    HoldsReadAt(b, 4, h.version, 4);
    HoldsReadAt(b, 8, h.interfaceId, 4);
    HoldsReadAt(b, 12, h.name, 4);
    HoldsReadAt(b, 16, h.flags, 4);
    HoldsReadAt(b, 20, h.traceNonce, 4);
    if h.version >= 1 { HoldsReadAt(b, 24, h.requestId.GetOr(0), 8); }
    if h.version >= 2 { PayloadPointer(b, off); NullIds(b); }
    if h.version >= 3 { Timeticks(b, h); }
  }

  lemma PayloadPointer(b: seq<byte>, off: nat)
    requires PAYLOAD_OFFSET < off < TWO_32 && Holds(b, PAYLOAD_OFFSET, EncodePointer(PAYLOAD_OFFSET, off), 8)
    ensures ReadAt(b, PAYLOAD_OFFSET, 8).Ok?
    ensures DecodePointer(PAYLOAD_OFFSET, ReadAt(b, PAYLOAD_OFFSET, 8).value) == Offset(off)
  {
    Pow256Values();
    HoldsReadAt(b, PAYLOAD_OFFSET, EncodePointer(PAYLOAD_OFFSET, off), 8);
    PointerRound(PAYLOAD_OFFSET, off);
  }

  lemma NullIds(b: seq<byte>)
    requires Holds(b, 40, 0, 8)
    ensures ReadAt(b, 40, 8).Ok? && DecodePointer(40, ReadAt(b, 40, 8).value) == NullPointer
  {
    HoldsReadAt(b, 40, 0, 8);
  }

  lemma Timeticks(b: seq<byte>, h: MessageHeader)
    requires HeaderTyped(h) && Holds(b, 48, I64.ToUnsigned(h.creationTimeticks.GetOr(0)), 8)
    ensures ReadAt(b, 48, 8).Ok? && I64.FromUnsigned(ReadAt(b, 48, 8).value) == h.creationTimeticks.GetOr(0)
  {
    TwosComplement(I64, h.creationTimeticks.GetOr(0));
    HoldsReadAt(b, 48, I64.ToUnsigned(h.creationTimeticks.GetOr(0)), 8);
  }

  // ---------------------------------------------------------------- main results

  /** The encoder accepts every conforming payload no deeper than its own limit. */
  lemma EncodeAccepts(header: seq<byte>, ty: Type, v: Value, hc: nat, room: nat)
    requires ty.Struct? && v.Struct? && SchemaOk(ty) && Conforms(ty, v, hc, room, true) && room <= MAX_ENCODE_DEPTH
    ensures EncodeMessage(header, ty, v).Ok?
  {
    hide SchemaOk, Conforms, EncodeStruct, Start;
    var s := Start(Enc(header, 0));
    EncodeTotal.OkStruct(s, 0, |s.buf|, ty, v, hc, room);
  }

  /** What the encoder leaves of the header, and where the payload starts. */
  lemma EncodedShape(header: seq<byte>, ty: Type, v: Value)
    requires ty.Struct? && SchemaOk(ty) && Neat(ty, v) && EncodeMessage(header, ty, v).Ok?
    requires |header| % 8 == 0 && |header| >= V0_SIZE
    ensures var s := EncodeStruct(Enc(header, 0), 0, |header|, ty, v);
      var b := EncodeMessage(header, ty, v).value.bytes;
      && s.Ok? && header <= s.value.buf && Frame(header, b, PAYLOAD_OFFSET, PAYLOAD_OFFSET + 8)
      && Frame(s.value.buf, b, PAYLOAD_OFFSET, PAYLOAD_OFFSET + 8)
      && (|header| < V2_SIZE ==> b == s.value.buf) && |b| == |s.value.buf|
      && (|header| >= V2_SIZE ==> Holds(b, PAYLOAD_OFFSET, EncodePointer(PAYLOAD_OFFSET, |header|), 8))
  {
    hide SchemaOk, Neat, EncodeStruct, Holds, Frame, EncodeMessage;
    PayloadEncoded(header, ty, v);
    StructExtends(Enc(header, 0), 0, ty, v);
    MessageShape(header, ty, v);
  }

  /** Behind a header of whole words the payload starts at once. */
  lemma PayloadEncoded(header: seq<byte>, ty: Type, v: Value)
    requires ty.Struct? && |header| % 8 == 0
    ensures EncodeMessage(header, ty, v).Ok? <==> EncodeStruct(Enc(header, 0), 0, |header|, ty, v).Ok?
  {
    hide EncodeStruct;
    var s0 := Start(Enc(header, 0));
    assert s0.buf == header;
  }

  lemma MessageShape(header: seq<byte>, ty: Type, v: Value)
    requires ty.Struct? && EncodeMessage(header, ty, v).Ok? && |header| % 8 == 0 && |header| >= V0_SIZE
    requires var s := EncodeStruct(Enc(header, 0), 0, |header|, ty, v); s.Ok? && header <= s.value.buf
    ensures var s := EncodeStruct(Enc(header, 0), 0, |header|, ty, v);
      var b := EncodeMessage(header, ty, v).value.bytes;
      && Frame(header, b, PAYLOAD_OFFSET, PAYLOAD_OFFSET + 8)
      && Frame(s.value.buf, b, PAYLOAD_OFFSET, PAYLOAD_OFFSET + 8)
      && (|header| < V2_SIZE ==> b == s.value.buf) && |b| == |s.value.buf|
      && (|header| >= V2_SIZE ==> Holds(b, PAYLOAD_OFFSET, EncodePointer(PAYLOAD_OFFSET, |header|), 8))
  {
    hide EncodeStruct, Holds, Frame, PutPointer, EncodePointer;
    var s0 := Start(Enc(header, 0));
    assert s0.buf == header;
    var s := EncodeStruct(s0, 0, |header|, ty, v).value;
    PrefixFrames(header, s.buf, PAYLOAD_OFFSET, PAYLOAD_OFFSET + 8);
    PrefixFrames(s.buf, s.buf, PAYLOAD_OFFSET, PAYLOAD_OFFSET + 8);
    if |header| >= V2_SIZE { PointerPatched(header, s, |header|); }
  }

  /** Patching the payload pointer changes only its eight bytes of what was there. */
  lemma PointerPatched(header: seq<byte>, s: Enc, target: nat)
    requires header <= s.buf && |header| >= V2_SIZE
    ensures var b := PutPointer(s, PAYLOAD_OFFSET, target).buf;
      && Frame(header, b, PAYLOAD_OFFSET, PAYLOAD_OFFSET + 8) && Frame(s.buf, b, PAYLOAD_OFFSET, PAYLOAD_OFFSET + 8)
      && |b| == |s.buf| && Holds(b, PAYLOAD_OFFSET, EncodePointer(PAYLOAD_OFFSET, target), 8)
  {
    hide Holds, LE;
    PutFrames(s, PAYLOAD_OFFSET, EncodePointer(PAYLOAD_OFFSET, target), 8);
    PutHolds(s, PAYLOAD_OFFSET, EncodePointer(PAYLOAD_OFFSET, target), 8);
  }

  lemma HeaderSizeRounded(version: nat)
    ensures HeaderSize(version) % 8 == 0 && V0_SIZE <= HeaderSize(version) < 64
    ensures AlignUp(HeaderSize(version)) == HeaderSize(version)
    ensures HeaderSize(version) >= V2_SIZE <==> version >= 2
  {
  }

  /** End to end: a serialized header and a conforming payload, once encoded, validate to exactly
      that payload at the end of the header, and to exactly that header with its payload pointer
      filled in, if and only if the header is consistent, the message is within the receiver's
      limit, and the payload nests no deeper than the receiver allows. */
  lemma MessageRoundTrip(h: MessageHeader, ty: Type, v: Value, hc: nat, room: nat, limits: Limits)
    requires HeaderTyped(h) && Serialize(h).Ok?
    requires ty.Struct? && v.Struct? && SchemaOk(ty) && Conforms(ty, v, hc, room, true)
    requires EncodeMessage(Serialize(h).value, ty, v).Ok?
    requires Min(|EncodeMessage(Serialize(h).value, ty, v).value.bytes|, limits.maxMessageSize) < TWO_32
    ensures var off, bytes := HeaderSize(h.version), EncodeMessage(Serialize(h).value, ty, v).value.bytes;
      (ValidateMessage(bytes, hc, ty, limits) == Ok(ValidatedMessage(Received(h, off), v, off))) <==>
        HeaderConsistent(h) && |bytes| <= limits.maxMessageSize && D.DepthOf(v) <= limits.maxDepth
  {
    hide SchemaOk, Conforms, Serialize, EncodeMessage, ValidateMessage, HeaderConsistent, HeaderSize, D.DepthOf;
    var b := EncodeMessage(Serialize(h).value, ty, v).value.bytes;
    if |b| <= limits.maxMessageSize && D.DepthOf(v) <= limits.maxDepth {
      D.RoomEnough(ty, v, hc, room, limits.maxDepth, true);
      WithinLimits(h, ty, v, hc, limits);
    } else if ValidateMessage(b, hc, ty, limits).Ok? && ValidateMessage(b, hc, ty, limits).value.payload == v {
      ValidationIsSound(b, hc, ty, limits);
      D.DepthBound(ty, v, hc, limits.maxDepth, false);
    }
  }

  lemma WithinLimits(h: MessageHeader, ty: Type, v: Value, hc: nat, limits: Limits)
    requires HeaderTyped(h) && Serialize(h).Ok?
    requires ty.Struct? && v.Struct? && SchemaOk(ty) && Conforms(ty, v, hc, limits.maxDepth, true)
    requires EncodeMessage(Serialize(h).value, ty, v).Ok?
    requires |EncodeMessage(Serialize(h).value, ty, v).value.bytes| <= limits.maxMessageSize
    requires |EncodeMessage(Serialize(h).value, ty, v).value.bytes| < TWO_32
    ensures var off, bytes := HeaderSize(h.version), EncodeMessage(Serialize(h).value, ty, v).value.bytes;
      (ValidateMessage(bytes, hc, ty, limits) == Ok(ValidatedMessage(Received(h, off), v, off))) <==>
        HeaderConsistent(h)
  {
    hide SchemaOk, Conforms, Neat, Serialize, EncodeMessage, Parse, DecodeStruct, HeaderHolds, Holds,
      HeaderConsistent, AlignUp, HeaderSize;
    var header, off := Serialize(h).value, HeaderSize(h.version);
    var b := EncodeMessage(header, ty, v).value.bytes;
    SerializeHolds(h);
    HeaderSizeRounded(h.version);
    ConformsNeat(ty, v, hc, limits.maxDepth);
    EncodedShape(header, ty, v);
    HeaderKept(header, b, h);
    PayloadBack(header, b, ty, v, hc, limits.maxDepth);
    ParseHeader(b, h, off);
    ValidatedExactly(b, hc, ty, limits, h, v, off);
  }

  const EMPTY: Type := Type.Struct([], 0, false)

  /** The least such message: any consistent header with an empty payload struct behind it. */
  lemma EmptyPayload(h: MessageHeader, hc: nat, limits: Limits)
    requires HeaderTyped(h) && HeaderConsistent(h) && Serialize(h).Ok?
    requires limits.maxDepth >= 1 && limits.maxMessageSize >= 64
    ensures var off, m := HeaderSize(h.version), EncodeMessage(Serialize(h).value, EMPTY, Value.Struct(0, []));
      m.Ok? && ValidateMessage(m.value.bytes, hc, EMPTY, limits) ==
        Ok(ValidatedMessage(Received(h, off), Value.Struct(0, []), off))
  {
    hide Serialize, HeaderConsistent, HeaderTyped, ValidateMessage, Received, HeaderHolds, EncodeMessage, Conforms,
      SchemaOk, D.DepthOf, HeaderSize;
    var v, header := Value.Struct(0, []), Serialize(h).value;
    SerializeHolds(h);
    HeaderSizeRounded(h.version);
    EmptySchema(hc, limits.maxDepth);
    EncodedEmpty(header);
    EmptyDepth();
    MessageRoundTrip(h, EMPTY, v, hc, limits.maxDepth, limits);
  }

  lemma EmptyDepth()
    ensures D.DepthOf(Value.Struct(0, [])) == 1
  {
  }

  lemma EmptySchema(hc: nat, room: nat)
    requires room >= 1
    ensures SchemaOk(EMPTY) && Conforms(EMPTY, Value.Struct(0, []), hc, room, true)
    ensures StructLayout([]).Ok? && StructLayout([]).value.packedFields == [] && StructLayout([]).value.size == 8
  {
    LF.EmptyLayout();
    hide StructLayout;
  }

  lemma EncodedEmpty(header: seq<byte>)
    requires |header| % 8 == 0 && V0_SIZE <= |header| <= 56
    ensures var m := EncodeMessage(header, EMPTY, Value.Struct(0, [])); m.Ok? && |m.value.bytes| == |header| + 8
  {
    hide StructLayout;
    EmptySchema(0, 1);
    var s0 := Start(Enc(header, 0));
    assert s0.buf == header;
    assert EncodeStruct(s0, 0, |header|, EMPTY, Value.Struct(0, [])) == Ok(StructHeader(s0, |header|, 8, 0));
  }

  /** With the payload in place, validation succeeds exactly when the header parses. */
  lemma ValidatedExactly(b: seq<byte>, hc: nat, ty: Type, limits: Limits, h: MessageHeader, v: Value, off: nat)
    requires ty.Struct? && V0_SIZE <= off < |b| <= limits.maxMessageSize
    requires off == HeaderSize(h.version)
    requires var r := DecodeStruct(Ctx(b, hc, limits.maxDepth), 0, 0, off, ty, true); r.Ok? && r.value.0 == v
    ensures (ValidateMessage(b, hc, ty, limits) == Ok(ValidatedMessage(Received(h, off), v, off)))
      <==> (Parse(b) == Ok((Received(h, off), off)))
  {
    hide Parse, DecodeStruct, AlignUp, HeaderSize, Received;
    HeaderSizeRounded(h.version);
    if Parse(b).Ok? {
      ParsedSize(b, h, off);
      var (header, size) := Parse(b).value;
    }
  }

  /** A parsed header's size is its version's. */
  lemma ParsedSize(b: seq<byte>, h: MessageHeader, off: nat)
    requires off == HeaderSize(h.version) && Parse(b).Ok?
    ensures Parse(b).value.0 == Received(h, off) ==> Parse(b).value.1 == off
  {
    hide ReadAt;
  }

  lemma PayloadBack(header: seq<byte>, b: seq<byte>, ty: Type, v: Value, hc: nat, maxDepth: nat)
    requires ty.Struct? && v.Struct? && SchemaOk(ty) && Conforms(ty, v, hc, maxDepth, true)
    requires |header| % 8 == 0 && |header| >= V0_SIZE && EncodeMessage(header, ty, v).Ok?
    requires b == EncodeMessage(header, ty, v).value.bytes && |b| < TWO_32
    ensures |header| < |b|
    ensures DecodeStruct(Ctx(b, hc, maxDepth), 0, 0, |header|, ty, true).Ok?
    ensures DecodeStruct(Ctx(b, hc, maxDepth), 0, 0, |header|, ty, true).value.0 == v
  {
    hide SchemaOk, Conforms, Neat, EncodeMessage, EncodeStruct, DecodeStruct, Frame, Agree;
    ConformsNeat(ty, v, hc, maxDepth);
    EncodedShape(header, ty, v);
    var s := EncodeStruct(Enc(header, 0), 0, |header|, ty, v).value;
    var c := Ctx(b, hc, maxDepth);
    PayloadAgrees(s.buf, b, |header|);
    RtStructAtEnd(Enc(header, 0), 0, ty, v, c, 0, 0, maxDepth);
    StructTakesRoom(c, |header|, ty);
  }

  lemma PayloadAgrees(a: seq<byte>, b: seq<byte>, from: nat)
    requires |a| == |b| && from <= |a| && |b| < TWO_32 && Frame(a, b, PAYLOAD_OFFSET, PAYLOAD_OFFSET + 8)
    requires from < V2_SIZE ==> a == b
    ensures forall hc, depth :: Final(Ctx(b, hc, depth), a, from)
  {
  }

  lemma StructTakesRoom(c: Ctx, off: nat, ty: Type)
    requires ty.Struct? && DecodeStruct(c, 0, 0, off, ty, true).Ok?
    ensures off < |c.bytes|
  {
    hide StructLayout, DecodeFields, Assemble, ReadLE;
  }

  /** Whatever validates conforms to its schema, for any bytes: the payload is a value of the
      type, within the depth limit and the attached handles. */
  lemma ValidationIsSound(bytes: seq<byte>, hc: nat, ty: Type, limits: Limits)
    requires SchemaOk(ty) && ValidateMessage(bytes, hc, ty, limits).Ok?
    ensures ty.Struct? && |bytes| <= limits.maxMessageSize
    ensures Conforms(ty, ValidateMessage(bytes, hc, ty, limits).value.payload, hc, limits.maxDepth, false)
  {
    hide SchemaOk, Conforms, Parse, DecodeStruct, AlignUp;
    var off := AlignUp(Parse(bytes).value.1);
    var (v, f) := DecodeStruct(Ctx(bytes, hc, limits.maxDepth), 0, 0, off, ty, true).value;
    DecodeSound.SoundStruct(Ctx(bytes, hc, limits.maxDepth), 0, 0, off, ty, true, v, f);
  }

  /** Whatever validates, under any schema, expands to no more than the message: eight bytes
      for every array and string and all their element bytes fit in it together. */
  lemma ValidationDoesNotAmplify(bytes: seq<byte>, hc: nat, ty: Type, limits: Limits)
    requires ValidateMessage(bytes, hc, ty, limits).Ok?
    ensures DecodeBudget.Footprint(ty, ValidateMessage(bytes, hc, ty, limits).value.payload) <= |bytes|
  {
    hide Parse, DecodeStruct, AlignUp, DecodeBudget.Footprint;
    var off := AlignUp(Parse(bytes).value.1);
    var (v, f) := DecodeStruct(Ctx(bytes, hc, limits.maxDepth), 0, 0, off, ty, true).value;
    DecodeBudget.PayStruct(Ctx(bytes, hc, limits.maxDepth), 0, 0, off, ty, true, v, f);
  }
}
