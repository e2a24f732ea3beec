/** Message headers, whole messages, and their validation. */
module Message {
  import opened Results
  import opened WireErrors
  import opened Bytes
  import opened Schema
  import opened Pointers
  import opened Encode
  import opened Decode

  const V0_SIZE: nat := 24
  const V1_SIZE: nat := 32
  const V2_SIZE: nat := 48
  const V3_SIZE: nat := 56
  const PAYLOAD_OFFSET: nat := 32

  datatype MessageHeader = MessageHeader(
    interfaceId: nat,
    name: nat,
    flags: nat,
    traceNonce: nat,
    version: nat,
    requestId: Option<nat>,
    payload: Option<Pointer>,
    payloadInterfaceIds: Option<Pointer>,
    creationTimeticks: Option<int>)
  {
    predicate ExpectsResponse() { flags % 2 == 1 }

    predicate IsResponse() { (flags / 2) % 2 == 1 }
  }

  function HeaderSize(version: nat): nat {
    if version == 0 then V0_SIZE else if version == 1 then V1_SIZE else if version == 2 then V2_SIZE else V3_SIZE
  }

  const I64: NumKind := NumKind.I64

  /** The header's fields in wire order, with null payload pointers for the encoder to patch.
      A field the version has no room for is where the source would panic. */
  function Serialize(h: MessageHeader): Result<seq<byte>, WireError> {
    var size := HeaderSize(h.version);
    if (h.requestId.Some? && size < V1_SIZE) || (h.creationTimeticks.Some? && size < V3_SIZE) then Err(OutOfBounds)
    else
      Ok(BaseBytes(h, size)
         + (if size >= V1_SIZE then LE(h.requestId.GetOr(0), 8) else [])
         + (if size >= V2_SIZE then LE(0, 8) + LE(0, 8) else [])
         + (if size >= V3_SIZE then LE(I64.ToUnsigned(h.creationTimeticks.GetOr(0)), 8) else []))
  }

  function BaseBytes(h: MessageHeader, size: nat): (r: seq<byte>)
    ensures |r| == V0_SIZE
  {
    LE(size, 4) + LE(h.version, 4) + LE(h.interfaceId, 4) + LE(h.name, 4) + LE(h.flags, 4) + LE(h.traceNonce, 4)
  }

  function ReadAt(bytes: seq<byte>, off: nat, k: nat): Result<nat, WireError> {
    if off + k <= |bytes| then Ok(FromLE(bytes[off..off + k])) else Err(OutOfBounds)
  }

  /** The declared size must be exact for known versions and at least version 3's beyond. */
  function CheckSize(numBytes: nat, version: nat): Result<nat, WireError> {
    if version <= 3 then
      if numBytes != HeaderSize(version) then Err(UnexpectedStructHeader) else Ok(HeaderSize(version))
    else if numBytes < V3_SIZE then Err(UnexpectedStructHeader)
    else Ok(V3_SIZE)
  }

  /** A header and the number of bytes it took. */
  function Parse(bytes: seq<byte>): Result<(MessageHeader, nat), WireError> {
    if |bytes| < V0_SIZE then Err(MessageTooLarge(|bytes|, V0_SIZE))
    else
      var numBytes :- ReadAt(bytes, 0, 4);
      var version :- ReadAt(bytes, 4, 4);
      var size :- CheckSize(numBytes, version);
      var interfaceId :- ReadAt(bytes, 8, 4);
      var name :- ReadAt(bytes, 12, 4);
      var flags :- ReadAt(bytes, 16, 4);
      var nonce :- ReadAt(bytes, 20, 4);
      var base := MessageHeader(interfaceId, name, flags, nonce, version, None, None, None, None);
      if version == 0 && (base.ExpectsResponse() || base.IsResponse()) then Err(MessageHeaderMissingRequestId)
      else if base.ExpectsResponse() && base.IsResponse() then Err(MessageHeaderInvalidFlags)
      else
        var h1 :- ParseRequestId(bytes, base);
        var h2 :- ParsePointers(bytes, h1);
        var h3 :- ParseTimeticks(bytes, h2);
        Ok((h3, size))
  }

  function ParseRequestId(bytes: seq<byte>, h: MessageHeader): Result<MessageHeader, WireError> {
    if h.version >= 1 then
      var id :- ReadAt(bytes, 24, 8);
      Ok(h.(requestId := Some(id)))
    else Ok(h)
  }

  /** The payload pointer must not be null; the interface-id array's may be. */
  function ParsePointers(bytes: seq<byte>, h: MessageHeader): Result<MessageHeader, WireError> {
    if h.version >= 2 then
      var raw :- ReadAt(bytes, PAYLOAD_OFFSET, 8);
      var payload := DecodePointer(PAYLOAD_OFFSET, raw);
      if payload.NullPointer? then Err(UnexpectedNullPointer)
      else
        var rawIds :- ReadAt(bytes, 40, 8);
        Ok(h.(payload := Some(payload), payloadInterfaceIds := Some(DecodePointer(40, rawIds))))
    else Ok(h)
  }

  function ParseTimeticks(bytes: seq<byte>, h: MessageHeader): Result<MessageHeader, WireError> {
    if h.version >= 3 then
      var u :- ReadAt(bytes, 48, 8);
      Ok(h.(creationTimeticks := Some(I64.FromUnsigned(u))))
    else Ok(h)
  }

  datatype EncodedMessage = EncodedMessage(bytes: seq<byte>, handleCount: nat)

  /** A header's bytes followed by an encoded payload struct, with the payload pointer of
      version 2 headers and later patched to it. */
  function EncodeMessage(header: seq<byte>, ty: Type, v: Value): Result<EncodedMessage, WireError> {
    if !ty.Struct? then Err(Unsupported(PayloadNotStruct))
    else
      var s0 := Start(Enc(header, 0));
      var s :- EncodeStruct(s0, 0, |s0.buf|, ty, v);
      var s1 := if |header| >= V2_SIZE then PutPointer(s, PAYLOAD_OFFSET, |s0.buf|) else s;
      Ok(EncodedMessage(s1.buf, s1.handles))
  }

  datatype Limits = Limits(maxMessageSize: nat, maxDepth: nat)

  datatype ValidatedMessage = ValidatedMessage(header: MessageHeader, payload: Value, payloadOffset: nat)

  function ValidateMessage(bytes: seq<byte>, handleCount: nat, ty: Type, limits: Limits)
    : Result<ValidatedMessage, WireError>
  {
    if |bytes| < V0_SIZE then Err(UnexpectedStructHeader)
    else if |bytes| > limits.maxMessageSize then Err(MessageTooLarge(|bytes|, limits.maxMessageSize))
    else
      var (header, size) :- Parse(bytes);
      var off := AlignUp(size);
      if off >= |bytes| then Err(UnexpectedStructHeader)
      else if !ty.Struct? then Err(Unsupported(PayloadNotStruct))
      else
        var (payload, _) :- DecodeStruct(Ctx(bytes, handleCount, limits.maxDepth), 0, 0, off, ty, true);
        Ok(ValidatedMessage(header, payload, off))
  }
}
