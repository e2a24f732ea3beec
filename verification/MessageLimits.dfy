/** Which whole messages come back: the results about structs, carried over to messages with any
    header, and for each condition a message that is encoded and does not come back. */
module MessageLimits {
  import opened Results
  import opened Bytes
  import opened Schema
  import opened Encode
  import opened Decode
  import opened EncodeFrame
  import opened Wire
  import opened RoundTrip
  import opened Message
  import opened EndToEnd
  import opened CodecLimits
  import opened CodecOverlap
  import EncodeTotal
  import P = Pack
  import L = PackLayout
  import V = PackVersions
  import LF = LayoutFacts

  /** The message is encoded, and validates to its own header and payload. */
  ghost predicate MessageBack(h: MessageHeader, ty: Type, v: Value, hc: nat, limits: Limits)
    requires Serialize(h).Ok?
  {
    var off, m := HeaderSize(h.version), EncodeMessage(Serialize(h).value, ty, v);
    m.Ok? && ValidateMessage(m.value.bytes, hc, ty, limits) == Ok(ValidatedMessage(Received(h, off), v, off))
  }

  /** The encoded message is no larger than the receiver allows. */
  ghost predicate WithinSize(h: MessageHeader, ty: Type, v: Value, limits: Limits)
    requires Serialize(h).Ok?
  {
    var m := EncodeMessage(Serialize(h).value, ty, v);
    m.Ok? && |m.value.bytes| <= limits.maxMessageSize
  }

  // ---------------------------------------------------------------- the payload decides

  /** The header stands in front of the encoded payload as it was. */
  ghost predicate Prefixed(header: seq<byte>, ty: Type, v: Value) {
    ty.Struct? && v.Struct?
      && var s := EncodeStruct(Enc(header, 0), 0, |header|, ty, v); s.Ok? && header <= s.value.buf
  }

  lemma PayloadSent(header: seq<byte>, ty: Type, v: Value, hc: nat, maxDepth: nat)
    requires Prefixed(header, ty, v) && |header| % 8 == 0 && |header| >= V0_SIZE
    ensures EncodeMessage(header, ty, v).Ok?
    ensures var b := EncodeMessage(header, ty, v).value.bytes;
      |b| < TWO_32 ==> Sent(Enc(header, 0), 0, ty, v, Ctx(b, hc, maxDepth))
  {
    hide EncodeStruct, EncodeMessage, Frame, Agree;
    PayloadEncoded(header, ty, v);
    MessageShape(header, ty, v);
    var s, b := EncodeStruct(Enc(header, 0), 0, |header|, ty, v).value, EncodeMessage(header, ty, v).value.bytes;
    if |b| < TWO_32 { PayloadAgrees(s.buf, b, |header|); }
  }

  /** Any message comes back exactly when its header is consistent, it is within the size limit and
      its payload struct comes back where it stands: so every result about structs is one about
      whole messages. */
  lemma PayloadDecides(h: MessageHeader, ty: Type, v: Value, hc: nat, limits: Limits)
    requires HeaderTyped(h) && Serialize(h).Ok? && Prefixed(Serialize(h).value, ty, v)
    requires limits.maxMessageSize < TWO_32
    ensures EncodeMessage(Serialize(h).value, ty, v).Ok? && |Serialize(h).value| == HeaderSize(h.version)
    ensures var b := EncodeMessage(Serialize(h).value, ty, v).value.bytes;
      && (MessageBack(h, ty, v, hc, limits) <==>
            && HeaderConsistent(h) && WithinSize(h, ty, v, limits)
            && ComesBack(Ctx(b, hc, limits.maxDepth), 0, 0, HeaderSize(h.version), ty, v))
      && (WithinSize(h, ty, v, limits) ==>
            Sent(Enc(Serialize(h).value, 0), 0, ty, v, Ctx(b, hc, limits.maxDepth)))
  {
    hide Serialize, EncodeMessage, EncodeStruct, DecodeStruct, Parse, EndToEnd.HeaderHolds, Holds, Frame,
      HeaderConsistent, HeaderTyped, Sent, AlignUp, HeaderSize, ValidateMessage, Received;
    var header, off := Serialize(h).value, HeaderSize(h.version);
    SerializeHolds(h);
    HeaderSizeRounded(h.version);
    PayloadSent(header, ty, v, hc, limits.maxDepth);
    MessageShape(header, ty, v);
    var b := EncodeMessage(header, ty, v).value.bytes;
    HeaderKept(header, b, h);
    if |b| <= limits.maxMessageSize {
      var c := Ctx(b, hc, limits.maxDepth);
      ParseHeader(b, h, off);
      if ValidateMessage(b, hc, ty, limits) == Ok(ValidatedMessage(Received(h, off), v, off)) {
        ValidatedPayload(b, hc, ty, limits);
      }
      if ComesBack(c, 0, 0, off, ty, v) {
        StructTakesRoom(c, off, ty);
        ValidatedExactly(b, hc, ty, limits, h, v, off);
      }
    } else {
      TooLarge(b, hc, ty, limits);
    }
  }

  lemma TooLarge(b: seq<byte>, hc: nat, ty: Type, limits: Limits)
    requires |b| > limits.maxMessageSize
    ensures ValidateMessage(b, hc, ty, limits).Err?
  {
  }

  lemma ValidatedPayload(b: seq<byte>, hc: nat, ty: Type, limits: Limits)
    requires ValidateMessage(b, hc, ty, limits).Ok?
    ensures var m := ValidateMessage(b, hc, ty, limits).value;
      ComesBack(Ctx(b, hc, limits.maxDepth), 0, 0, m.payloadOffset, ty, m.payload)
  {
    hide Parse, DecodeStruct;
  }

  // ---------------------------------------------------------------- messages of one field

  /** A consistent header and a receiver that leaves room for any small message. */
  ghost predicate Usable(h: MessageHeader, limits: Limits) {
    HeaderTyped(h) && HeaderConsistent(h) && Serialize(h).Ok? && limits.maxMessageSize < TWO_32 && limits.maxDepth >= 2
  }

  lemma NeatPrefixed(h: MessageHeader, ty: Type, v: Value)
    requires Serialize(h).Ok? && ty.Struct? && v.Struct? && SchemaOk(ty) && Neat(ty, v)
    requires EncodeStruct(Enc(Serialize(h).value, 0), 0, |Serialize(h).value|, ty, v).Ok?
    ensures Prefixed(Serialize(h).value, ty, v)
  {
    hide SchemaOk, Neat, EncodeStruct, Serialize;
    StructExtends(Enc(Serialize(h).value, 0), 0, ty, v);
  }

  /** A struct of one field asks for nothing but what its field does. */
  lemma SingleOthers(a: Type, x: Value, hc: nat)
    requires SchemaOk(a) && Neat(a, x) && !Spills(a, x, true)
    ensures var ty, v := Single(a), Value.Struct(0, [x]); Others(ty, v, 0, hc, 0) && Neat(ty, v)
  {
    hide SchemaOk, Neat, Spills, SizeExpected, NoOverlap;
    var ty, v := Single(a), Value.Struct(0, [x]);
    SinglePacks(a, x);
    SingleParts(a, x);
  }

  lemma SinglePacks(a: Type, x: Value)
    requires !Spills(a, x, true)
    ensures var fields := Single(a).fields;
      StructLayout(fields).Ok? && SizeExpected(fields, 0) && NoOverlap(fields, [x])
  {
    hide StructLayout, P.NumBytesForVersion, Spills;
    var fields := Single(a).fields;
    SinglePacked(a);
    assert fields[..0] == [] && MaxVersion(fields) == 0;
    hide MaxVersion;
  }

  lemma SinglePacked(a: Type)
    ensures StructLayout(Single(a).fields).Ok?
  {
    hide P.PackFields, L.Laid, P.PlaceAll;
    L.PackIsLayout(PackInput(Single(a).fields));
  }

  lemma SingleParts(a: Type, x: Value)
    requires SchemaOk(a) && Neat(a, x) && StructLayout(Single(a).fields).Ok? && NoOverlap(Single(a).fields, [x])
    ensures SchemaOk(Single(a)) && Neat(Single(a), Value.Struct(0, [x]))
  {
    hide StructLayout, NoOverlap;
  }

  const TEXT: Type := Single(Type.String(false))

  /** A message of one string comes back exactly when it has no NUL. */
  lemma StringMessage(h: MessageHeader, data: seq<byte>, hc: nat, limits: Limits)
    requires Usable(h, limits) && ValidUtf8(data)
    ensures var v := Value.Struct(0, [Value.String(data)]);
      && EncodeMessage(Serialize(h).value, TEXT, v).Ok?
      && (MessageBack(h, TEXT, v, hc, limits) <==> WithinSize(h, TEXT, v, limits) && 0 !in data)
  {
    hide Serialize, EncodeMessage, EncodeStruct, ComesBack, Sent, HeaderTyped, HeaderConsistent, Others, WithinSize,
      MessageBack, HeaderSize, ValidUtf8, Prefixed, EncodeFields;
    var header, x := Serialize(h).value, Value.String(data);
    var s0, v, off := Enc(header, 0), Value.Struct(0, [x]), HeaderSize(h.version);
    SingleOthers(Type.String(false), x, hc);
    StringEncodes(s0, data);
    OthersParts(TEXT, v, 0, hc, 0);
    NeatPrefixed(h, TEXT, v);
    PayloadDecides(h, TEXT, v, hc, limits);
    if WithinSize(h, TEXT, v, limits) {
      StringBack(s0, 0, TEXT, v, Ctx(EncodeMessage(header, TEXT, v).value.bytes, hc, limits.maxDepth), 0, 0, 0, 0);
    }
  }

  lemma StringEncodes(s: Enc, data: seq<byte>)
    ensures EncodeStruct(s, 0, |s.buf|, TEXT, Value.Struct(0, [Value.String(data)])).Ok?
  {
    hide StructLayout, StructHeader, EncodeString;
    SingleLayout(Type.String(false));
    var s1 := StructHeader(s, |s.buf|, StructLayout(TEXT.fields).value.size, 0);
    SingleEncodes(s1, 0, |s.buf|, Type.String(false), Value.String(data));
    EncodeTotal.StringOk(s1, |s.buf| + 8, data);
  }

  const MAYBE_HANDLE: Type := Single(Type.NullableScalar(Type.Handle))

  /** A message of one absent nullable handle comes back exactly when handles come with it. */
  lemma HandleMessage(h: MessageHeader, hc: nat, limits: Limits)
    requires Usable(h, limits)
    ensures var v := Value.Struct(0, [Value.NullableScalar(false, Value.Null)]);
      && EncodeMessage(Serialize(h).value, MAYBE_HANDLE, v).Ok?
      && (MessageBack(h, MAYBE_HANDLE, v, hc, limits) <==> WithinSize(h, MAYBE_HANDLE, v, limits) && hc > 0)
  {
    hide Serialize, EncodeMessage, EncodeStruct, ComesBack, Sent, HeaderTyped, HeaderConsistent, Others, WithinSize,
      MessageBack, HeaderSize, Prefixed;
    var header, x := Serialize(h).value, Value.NullableScalar(false, Value.Null);
    var s0, ty, v := Enc(header, 0), MAYBE_HANDLE, Value.Struct(0, [x]);
    SingleOthers(Type.NullableScalar(Type.Handle), x, hc);
    OthersParts(ty, v, 0, hc, 0);
    HandleEncodes(s0);
    NeatPrefixed(h, ty, v);
    PayloadDecides(h, ty, v, hc, limits);
    if WithinSize(h, ty, v, limits) {
      NullableHandleBack(s0, 0, ty, v, Ctx(EncodeMessage(header, ty, v).value.bytes, hc, limits.maxDepth), 0, 0, 0, 0);
    }
  }

  /** It would come back from a message with a handle, so it is encoded. */
  lemma HandleEncodes(s: Enc)
    ensures EncodeStruct(s, 0, |s.buf|, MAYBE_HANDLE, Value.Struct(0, [Value.NullableScalar(false, Value.Null)])).Ok?
  {
    hide Others, EncodeStruct;
    var a, x := Type.NullableScalar(Type.Handle), Value.NullableScalar(false, Value.Null);
    SingleOthers(a, x, 1);
    OthersParts(MAYBE_HANDLE, Value.Struct(0, [x]), 0, 1, 0);
    AbsentHandle();
    hide Conforms;
    ConformsWith(MAYBE_HANDLE, Value.Struct(0, [x]), 0, 1, 0);
    EncodeTotal.OkStruct(s, 0, |s.buf|, MAYBE_HANDLE, Value.Struct(0, [x]), 1, 1);
  }

  lemma AbsentHandle()
    ensures Conforms(Type.NullableScalar(Type.Handle), Value.NullableScalar(false, Value.Null), 1, 0, true)
  {
  }

  const MAYBE_BOOL: Type := Single(Type.NullableScalar(Type.Bool))

  function MaybeBool(b: Option<bool>): Value {
    if b.Some? then Value.NullableScalar(true, Value.Bool(b.value)) else Value.NullableScalar(false, Value.Null)
  }

  /** A message of one nullable boolean comes back exactly when it is absent. */
  lemma BoolMessage(h: MessageHeader, b: Option<bool>, hc: nat, limits: Limits)
    requires Usable(h, limits)
    ensures var v := Value.Struct(0, [MaybeBool(b)]);
      && EncodeMessage(Serialize(h).value, MAYBE_BOOL, v).Ok?
      && (MessageBack(h, MAYBE_BOOL, v, hc, limits) <==> WithinSize(h, MAYBE_BOOL, v, limits) && b.None?)
  {
    hide Serialize, EncodeMessage, EncodeStruct, ComesBack, Sent, HeaderTyped, HeaderConsistent, Others, WithinSize,
      MessageBack, HeaderSize, Prefixed;
    var header, x := Serialize(h).value, MaybeBool(b);
    var s0, ty, v := Enc(header, 0), MAYBE_BOOL, Value.Struct(0, [x]);
    SingleOthers(Type.NullableScalar(Type.Bool), x, hc);
    OthersParts(ty, v, 0, hc, 0);
    BoolEncodes(s0, x, hc);
    NeatPrefixed(h, ty, v);
    PayloadDecides(h, ty, v, hc, limits);
    if WithinSize(h, ty, v, limits) {
      NullableBoolBack(s0, 0, ty, v, Ctx(EncodeMessage(header, ty, v).value.bytes, hc, limits.maxDepth), 0, 0, 0, 0);
    }
  }

  lemma LostScalar(present: bool, hc: nat)
    ensures Conforms(Type.NullableScalar(Type.Bool), Value.NullableScalar(present, LostBool(present)), hc, 0, true)
  {
  }

  lemma LostConforms(present: bool, hc: nat)
    ensures var w := Value.Struct(0, [Value.NullableScalar(present, LostBool(present))]);
      SchemaOk(MAYBE_BOOL) && Conforms(MAYBE_BOOL, w, hc, 1, true)
  {
    hide Others, Conforms;
    var a, y := Type.NullableScalar(Type.Bool), Value.NullableScalar(present, LostBool(present));
    assert Conforms(a, y, hc, 0, true) by { LostScalar(present, hc); }
    SingleOthers(a, y, hc);
    OthersParts(MAYBE_BOOL, Value.Struct(0, [y]), 0, hc, 0);
    ConformsWith(MAYBE_BOOL, Value.Struct(0, [y]), 0, hc, 0);
  }

  /** Only its presence is written. */
  lemma BoolEncodes(s: Enc, x: Value, hc: nat)
    requires x.NullableScalar?
    ensures EncodeStruct(s, 0, |s.buf|, MAYBE_BOOL, Value.Struct(0, [x])).Ok?
  {
    hide StructLayout, StructHeader, EncodeFields, Conforms, NoOverlap, SizeExpected;
    var ty, y := MAYBE_BOOL, Value.NullableScalar(x.present, LostBool(x.present));
    var w := Value.Struct(0, [y]);
    LostConforms(x.present, hc);
    EncodeTotal.OkStruct(s, 0, |s.buf|, ty, w, hc, 1);
    var s1 := StructHeader(s, |s.buf|, StructLayout(ty.fields).value.size, 0);
    SameBool(s1, 0, |s.buf|, x, y, 0);
  }

  lemma {:induction false} SameBool(s: Enc, d: nat, off: nat, x: Value, y: Value, k: nat)
    requires x.NullableScalar? && y.NullableScalar? && x.present == y.present
    requires StructLayout(MAYBE_BOOL.fields).Ok? && k <= |StructLayout(MAYBE_BOOL.fields).value.packedFields|
    ensures EncodeFields(s, d, off, MAYBE_BOOL, [x], k) == EncodeFields(s, d, off, MAYBE_BOOL, [y], k)
    decreases |StructLayout(MAYBE_BOOL.fields).value.packedFields| - k
  {
    hide StructLayout, PutBit;
    if k < |StructLayout(MAYBE_BOOL.fields).value.packedFields| {
      LF.PackedStands(MAYBE_BOOL.fields, k);
      var r := EncodePacked(s, d, off, MAYBE_BOOL, [x], k);
      assert r == EncodePacked(s, d, off, MAYBE_BOOL, [y], k);
      if r.Ok? { SameBool(r.value, d, off, x, y, k + 1); }
    }
  }

  // ---------------------------------------------------------------- a message of an older version

  const NUMBER: Type := Type.Num(NumKind.U32)

  /** A number there from the start, and one added in version 1, which fills up the same 8 bytes. */
  const GROWN: Type := Type.Struct([FieldType(NUMBER, None), FieldType(NUMBER, Some(1))], 1, false)

  function Numbers(version: nat, a: int, b: int): Value {
    Value.Struct(version, [Value.Num(NumKind.U32, a), Value.Num(NumKind.U32, b)])
  }

  const FIRST: P.Field := P.Field(0, None, NUMBER.PackKind(), false, false)
  const SECOND: P.Field := P.Field(1, Some(1), NUMBER.PackKind(), false, false)

  lemma GrownAccepted()
    ensures PackInput(GROWN.fields) == [FIRST, SECOND] && FIRST.Version() == 0 && SECOND.Version() == 1
    ensures L.Accepted([FIRST, SECOND]) && L.Accepted([FIRST])
  {
  }

  lemma GrownLayout()
    ensures StructLayout(GROWN.fields).Ok? && SizeExpected(GROWN.fields, 0)
  {
    hide P.PackFields, P.Expand, P.PlaceAll, P.TotalSize, L.Accepted, L.Laid, V.FieldsUpTo, P.MaxUpTo, PackInput,
      MaxVersion;
    var input := [FIRST, SECOND];
    GrownAccepted();
    L.PackIsLayout(input);
    L.PackIsLayout([FIRST]);
    PairExpanded(FIRST, SECOND);
    OneExpanded(FIRST);
    var s0, s1 := P.Source(FIRST, 0, None, 0), P.Source(SECOND, 1, None, 1);
    assert L.Ordered(input) == [s0, s1] && L.Ordered([FIRST]) == [s0];
    OnePlaced(s0);
    HalvesPlaced(s0, s1);
    UpToFirst(FIRST, SECOND);
    V.LayoutIsVersionStable(input, 0);
  }

  lemma UpToFirst(first: P.Field, second: P.Field)
    requires first.Version() == 0 && second.Version() == 1
    ensures V.FieldsUpTo([first, second], 0) == [first]
  {
    assert [first, second][..1] == [first] && [first][..0] == [];
    assert V.FieldsUpTo([first], 0) == [first];
  }

  lemma HalvesPlaced(s0: P.Source, s1: P.Source)
    requires s0.field.kind == s1.field.kind == NUMBER.PackKind()
    ensures P.PlaceAll([s0, s1]) == [P.PackedField(s0, 0, 0), P.PackedField(s1, 4, 0)]
    ensures P.TotalSize(P.PlaceAll([s0, s1])) == P.TotalSize([P.PackedField(s0, 0, 0)])
  {
    var x := P.PackedField(s0, 0, 0);
    assert [s0, s1][..1] == [s0] && [s0][..0] == [];
    assert P.PlaceAll([s0]) == [x];
    assert P.Pad(4, s1.field.kind.Alignment()) == 0;
    assert P.PlaceFrom([x], s1, 1) == [x, P.PackedField(s1, 4, 0)];
  }

  lemma GrownParts(a: int, b: int, hc: nat)
    requires 0 <= a < TWO_32 && 0 <= b < TWO_32
    ensures InVersionConforms(GROWN, Numbers(0, a, b), hc, 0) && Neat(GROWN, Numbers(0, a, b))
    ensures StructConforms(GROWN, Numbers(1, a, b), hc, 0)
  {
    hide StructLayout, P.NumBytesForVersion;
    GrownLayout();
    var vals := Numbers(0, a, b).fields;
    assert NoOverlap(GROWN.fields, vals);
    NewestIsOne();
    assert SizeExpected(GROWN.fields, 1);
    hide NoOverlap, SizeExpected;
    NumberFits(a, hc);
    NumberFits(b, hc);
    hide Conforms;
    assert SchemaOk(GROWN);
    assert forall i :: 0 <= i < 2 ==> Neat(GROWN.fields[i].ty, vals[i]) && GROWN.fields[i].ty == NUMBER;
    assert forall i :: 0 <= i < 2 ==> FieldFits(GROWN.fields[i], vals[i], 1, hc, 0);
  }

  lemma NumberFits(n: int, hc: nat)
    requires 0 <= n < TWO_32
    ensures Conforms(NUMBER, Value.Num(NumKind.U32, n), hc, 0, true)
  {
    Pow256Values();
  }

  lemma NewestIsOne()
    ensures MaxVersion(GROWN.fields) == 1
  {
    assert MaxVersion(GROWN.fields[..1]) == 0 by { assert MaxVersion(GROWN.fields[..1][..0]) == 0; }
  }

  /** A version-0 message of the two numbers comes back exactly when the newer one is 0. */
  lemma StaleMessage(h: MessageHeader, a: int, b: int, hc: nat, limits: Limits)
    requires Usable(h, limits) && 0 <= a < TWO_32 && 0 <= b < TWO_32
    ensures var v := Numbers(0, a, b);
      && EncodeMessage(Serialize(h).value, GROWN, v).Ok?
      && (MessageBack(h, GROWN, v, hc, limits) <==> WithinSize(h, GROWN, v, limits) && b == 0)
  {
    hide Serialize, EncodeMessage, EncodeStruct, ComesBack, Sent, HeaderTyped, HeaderConsistent, WithinSize,
      MessageBack, HeaderSize, Prefixed, InVersionConforms, StructConforms, SizeExpected;
    var header, v := Serialize(h).value, Numbers(0, a, b);
    var s0 := Enc(header, 0);
    GrownLayout();
    GrownParts(a, b, hc);
    GrownEncodes(s0, a, b);
    InVersionParts(GROWN, v, hc, 0);
    NeatPrefixed(h, GROWN, v);
    PayloadDecides(h, GROWN, v, hc, limits);
    if WithinSize(h, GROWN, v, limits) {
      StaleBack(s0, 0, GROWN, v, Ctx(EncodeMessage(header, GROWN, v).value.bytes, hc, limits.maxDepth), 0, 0, 0);
    }
  }

  lemma GrownEncodes(s: Enc, a: int, b: int)
    requires 0 <= a < TWO_32 && 0 <= b < TWO_32
    ensures EncodeStruct(s, 0, |s.buf|, GROWN, Numbers(0, a, b)).Ok?
  {
    hide StructLayout, StructHeader, EncodeFields, StructConforms, InVersionConforms, Laying, Blank;
    var v, newer := Numbers(0, a, b), Numbers(1, a, b);
    GrownParts(a, b, 0);
    InVersionParts(GROWN, v, 0, 0);
    NeatStart(s, GROWN, v);
    var s1 := StructHeader(s, |s.buf|, StructLayout(GROWN.fields).value.size, 0);
    EncodeTotal.OkFields(s1, 0, |s.buf|, GROWN, newer, 0, 0, 0);
  }

  // ---------------------------------------------------------------- a message with parts over one another

  /** A message of a struct of one number in place and a number behind it comes back exactly when
      the two share their low bytes. */
  lemma PairMessage(h: MessageHeader, ka: NumKind, a: int, kb: NumKind, b: int, hc: nat, limits: Limits)
    requires Usable(h, limits) && ka.InRange(a) && kb.InRange(b)
    ensures var ty := StructThenNumber(ka, kb);
      var v := Value.Struct(0, [Value.Struct(0, [Value.Num(ka, a)]), Value.Num(kb, b)]);
      && EncodeMessage(Serialize(h).value, ty, v).Ok?
      && (MessageBack(h, ty, v, hc, limits) <==> WithinSize(h, ty, v, limits) && Coincide(ka, a, kb, b))
  {
    hide Serialize, EncodeMessage, EncodeStruct, ComesBack, Sent, HeaderTyped, HeaderConsistent, WithinSize,
      MessageBack, HeaderSize, Coincide, StructThenNumber, NumberPlaced, Put, NumKind.InRange, NumKind.ToUnsigned;
    var ty, v := StructThenNumber(ka, kb), Value.Struct(0, [Value.Struct(0, [Value.Num(ka, a)]), Value.Num(kb, b)]);
    var header := Serialize(h).value;
    var s0 := Enc(header, 0);
    var r0 := StructThenNumberBytes(s0, 0, |header|, ka, a, kb, b, 0, 0);
    PutExtends(header, r0, |header| + 16, kb.ToUnsigned(b), kb.Width());
    assert Prefixed(header, ty, v) by { PairIsStruct(ka, kb); }
    PayloadDecides(h, ty, v, hc, limits);
    if WithinSize(h, ty, v, limits) {
      var c := Ctx(EncodeMessage(header, ty, v).value.bytes, hc, limits.maxDepth);
      StructThenNumberBack(s0, 0, ka, a, kb, b, 0, 0, c, 0, 0);
    }
  }

  lemma PairIsStruct(ka: NumKind, kb: NumKind)
    ensures StructThenNumber(ka, kb).Struct?
  {
  }

  lemma PutExtends(a: seq<byte>, s: Enc, off: nat, n: nat, k: nat)
    requires a <= s.buf && |a| <= off
    ensures a <= Put(s, off, n, k).buf
  {
    hide Put;
    PutFrames(s, off, n, k);
  }

  // ---------------------------------------------------------------- members of unions

  /** A message of a struct of one number in a union's payload never comes back. */
  lemma UnionMessage(h: MessageHeader, k: NumKind, n: int, hc: nat, limits: Limits)
    requires Usable(h, limits)
    ensures var ty, v := StructInUnion(k), StructInUnionValue(0, 0, k, n);
      EncodeMessage(Serialize(h).value, ty, v).Ok? && !MessageBack(h, ty, v, hc, limits)
  {
    hide Serialize, EncodeMessage, EncodeStruct, DecodeStruct, Sent, HeaderTyped, HeaderConsistent, Frame,
      MessageBack, HeaderSize, StructInUnion, Neat, SchemaOk, Holds;
    var ty, v, header := StructInUnion(k), StructInUnionValue(0, 0, k, n), Serialize(h).value;
    var s0 := Enc(header, 0);
    UnionEncodes(s0, k, n);
    UnionNeat(k, n);
    NeatPrefixed(h, ty, v);
    PayloadDecides(h, ty, v, hc, limits);
    if MessageBack(h, ty, v, hc, limits) {
      SerializeHolds(h);
      HeaderSizeRounded(h.version);
      MessageShape(header, ty, v);
      var c := Ctx(EncodeMessage(header, ty, v).value.bytes, hc, limits.maxDepth);
      StructInUnionRejected(s0, 0, 0, 0, k, n, c, 0, 0);
    }
  }

  lemma UnionNeat(k: NumKind, n: int)
    ensures StructInUnion(k).Struct? && SchemaOk(StructInUnion(k))
    ensures Neat(StructInUnion(k), StructInUnionValue(0, 0, k, n))
  {
    hide StructLayout;
    var m, w := Single(Type.Num(k)), Value.Struct(0, [Value.Num(k, n)]);
    StructInUnionLayout(k);
    SingleLayout(Inlined(m));
    NumberStructNeat(k, 0, n);
    assert NoOverlap(Single(Inlined(m)).fields, [Value.Union(0, w)]);
    HeldNeat(m, w);
    SingleParts(Inlined(m), Value.Union(0, w));
  }

  lemma HeldNeat(m: Type, w: Value)
    requires SchemaOk(m) && Neat(m, w)
    ensures SchemaOk(Inlined(m)) && Neat(Inlined(m), Value.Union(0, w))
  {
    hide StructLayout;
  }

  lemma UnionEncodes(s: Enc, k: NumKind, n: int)
    ensures EncodeStruct(s, 0, |s.buf|, StructInUnion(k), StructInUnionValue(0, 0, k, n)).Ok?
  {
    hide StructLayout, StructHeader, UnionHeader, EncodeField, EncodeUnionPayload, Put;
    var off, w := |s.buf|, Value.Struct(0, [Value.Num(k, n)]);
    StructInUnionLayout(k);
    var s1 := StructHeader(s, off, 24, 0);
    SingleEncodes(s1, 0, off, Inlined(Single(Type.Num(k))), Value.Union(0, w));
    UnionOfStructEncodes(s1, 0, off + 8, k, w);
    var u := UnionHeader(s1, off + 8, 0);
    PayloadIsInPlace(u, 0, off + 16, k, w);
    InPlaceEncodes(u, 0, off + 16, Type.Num(k), 0, Value.Num(k, n));
    NumberEncodes(StructHeader(u, off + 16, 16, 0), 0, off + 24, k, n);
  }

  /** A nullable number in a union's payload. */
  function WrappedInUnion(k: NumKind): Type {
    Single(Inlined(Type.NullableScalar(Type.Num(k))))
  }

  /** A message of a wrapped number in a union's payload never comes back. */
  lemma WrappedMessage(h: MessageHeader, k: NumKind, n: int, hc: nat, limits: Limits)
    requires Usable(h, limits)
    ensures var ty := WrappedInUnion(k);
      var v := Value.Struct(0, [Value.Union(0, Value.NullableScalar(true, Value.Num(k, n)))]);
      EncodeMessage(Serialize(h).value, ty, v).Ok? && !MessageBack(h, ty, v, hc, limits)
  {
    hide Serialize, EncodeMessage, EncodeStruct, HeaderTyped, HeaderConsistent, HeaderSize, WrappedInUnion, Conforms,
      SchemaOk, ValidateMessage, Received, Start;
    var ty, x := WrappedInUnion(k), Value.Union(0, Value.NullableScalar(true, Value.Num(k, n)));
    var v, header := Value.Struct(0, [x]), Serialize(h).value;
    SerializeHolds(h);
    HeaderSizeRounded(h.version);
    WrappedSchema(k);
    WrappedEncodes(Enc(header, 0), k, n);
    PayloadEncoded(header, ty, v);
    if MessageBack(h, ty, v, hc, limits) {
      ValidationIsSound(EncodeMessage(header, ty, v).value.bytes, hc, ty, limits);
      NoWrapped(k, n, hc, limits.maxDepth);
    }
  }

  lemma WrappedSchema(k: NumKind)
    ensures WrappedInUnion(k).Struct? && SchemaOk(WrappedInUnion(k))
  {
    hide StructLayout;
    SinglePacked(Inlined(Type.NullableScalar(Type.Num(k))));
  }

  lemma NoWrapped(k: NumKind, n: int, hc: nat, room: nat)
    ensures !Conforms(WrappedInUnion(k), Value.Struct(0, [Value.Union(0, Value.NullableScalar(true, Value.Num(k, n)))]),
      hc, room, false)
  {
    var ty, x := WrappedInUnion(k), Value.Union(0, Value.NullableScalar(true, Value.Num(k, n)));
    if room > 0 {
      assert !Conforms(Type.Num(k), x.value, hc, room - 1, false);
      assert !Conforms(ty.fields[0].ty, x, hc, room - 1, false);
    }
  }

  lemma WrappedEncodes(s: Enc, k: NumKind, n: int)
    ensures EncodeStruct(s, 0, |s.buf|, WrappedInUnion(k),
      Value.Struct(0, [Value.Union(0, Value.NullableScalar(true, Value.Num(k, n)))])).Ok?
  {
    hide StructLayout, StructHeader, UnionHeader, EncodeField, Put;
    var a, w := Type.NullableScalar(Type.Num(k)), Value.NullableScalar(true, Value.Num(k, n));
    SingleLayout(Inlined(a));
    var s1 := StructHeader(s, |s.buf|, 24, 0);
    SingleEncodes(s1, 0, |s.buf|, Inlined(a), Value.Union(0, w));
    WrappedField(s1, |s.buf| + 8, k, n);
  }

  lemma WrappedField(s: Enc, off: nat, k: NumKind, n: int)
    ensures EncodeField(s, 0, off, 0, Inlined(Type.NullableScalar(Type.Num(k))),
      Value.Union(0, Value.NullableScalar(true, Value.Num(k, n)))).Ok?
  {
    hide UnionHeader, Put;
    var a, w := Type.NullableScalar(Type.Num(k)), Value.NullableScalar(true, Value.Num(k, n));
    var u := UnionHeader(s, off, 0);
    InlinedField(s, 0, off, Inlined(a), Value.Union(0, w));
    assert EncodeUnionPayload(u, 0, off + 8, a, w) == EncodeField(u, 0, off + 8, 0, Type.Num(k), w.value);
  }

  // ---------------------------------------------------------------- seven that do not come back

  const PLAIN: MessageHeader := MessageHeader(0, 0, 0, 0, 0, None, None, None, None)

  /** One message for each condition: they are all encoded, and whatever the receiver's limits, what
      validates is not what was sent. */
  lemma FailingMessages(limits: Limits)
    requires limits.maxMessageSize < TWO_32 && limits.maxDepth >= 2
    ensures Usable(PLAIN, limits)
    ensures Fails(TEXT, Value.Struct(0, [Value.String([0])]), 0, limits)
    ensures Fails(MAYBE_HANDLE, Value.Struct(0, [Value.NullableScalar(false, Value.Null)]), 0, limits)
    ensures Fails(MAYBE_BOOL, Value.Struct(0, [Value.NullableScalar(true, Value.Bool(true))]), 0, limits)
    ensures Fails(GROWN, Numbers(0, 1, 2), 0, limits)
    ensures Fails(StructThenNumber(NumKind.U32, NumKind.U32),
      Value.Struct(0, [Value.Struct(0, [Value.Num(NumKind.U32, 1)]), Value.Num(NumKind.U32, 2)]), 0, limits)
    ensures Fails(StructInUnion(NumKind.U32), StructInUnionValue(0, 0, NumKind.U32, 1), 0, limits)
    ensures Fails(WrappedInUnion(NumKind.U32),
      Value.Struct(0, [Value.Union(0, Value.NullableScalar(true, Value.Num(NumKind.U32, 1)))]), 0, limits)
  {
    hide EncodeMessage, MessageBack, WithinSize, Usable, Serialize;
    PlainUsable(limits);
    assert ValidUtf8([0]) by { assert [0][1..] == []; }
    StringMessage(PLAIN, [0], 0, limits);
    HandleMessage(PLAIN, 0, limits);
    BoolMessage(PLAIN, Some(true), 0, limits);
    StaleMessage(PLAIN, 1, 2, 0, limits);
    Differ();
    PairMessage(PLAIN, NumKind.U32, 1, NumKind.U32, 2, 0, limits);
    UnionMessage(PLAIN, NumKind.U32, 1, 0, limits);
    WrappedMessage(PLAIN, NumKind.U32, 1, 0, limits);
  }

  lemma PlainUsable(limits: Limits)
    requires limits.maxMessageSize < TWO_32 && limits.maxDepth >= 2
    ensures Usable(PLAIN, limits) && Serialize(PLAIN).Ok?
  {
  }

  lemma Differ()
    ensures NumKind.U32.InRange(1) && NumKind.U32.InRange(2) && !Coincide(NumKind.U32, 1, NumKind.U32, 2)
  {
    Pow256Values();
  }

  ghost predicate Fails(ty: Type, v: Value, hc: nat, limits: Limits) {
    Serialize(PLAIN).Ok? && EncodeMessage(Serialize(PLAIN).value, ty, v).Ok? && !MessageBack(PLAIN, ty, v, hc, limits)
  }
}
