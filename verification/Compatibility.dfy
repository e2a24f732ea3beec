/** Peers with different versions of a schema: a message from a newer sender reaches an older
    receiver without the newer fields, and one from an older sender reaches a newer receiver with
    the newer fields at their defaults. */
module Compatibility {
  import opened Results
  import opened Bytes
  import opened Schema
  import opened Encode
  import opened Decode
  import opened EncodeFrame
  import opened Wire
  import opened RoundTrip
  import opened Message
  import opened EndToEnd
  import opened CodecLimits
  import opened MessageLimits
  import opened Evolution
  import P = Pack
  import V = PackVersions
  import LF = LayoutFacts
  import D = Depth

  // ---------------------------------------------------------------- a newer sender

  /** Any message that validates under the newer schema validates under the older one, to the same
      header and to the same payload without the newer fields, at any depth of it. */
  lemma OlderValidates(bytes: seq<byte>, hc: nat, a: Type, b: Type, limits: Limits)
    requires a.Struct? && Evolves(a, b) && ValidateMessage(bytes, hc, b, limits).Ok?
    ensures var m := ValidateMessage(bytes, hc, b, limits).value;
      ValidateMessage(bytes, hc, a, limits) == Ok(m.(payload := Narrow(a, m.payload)))
  {
    hide Parse, DecodeStruct, Evolves, Narrow;
    BothStructs(a, b);
    var off, c := AlignUp(Parse(bytes).value.1), Ctx(bytes, hc, limits.maxDepth);
    var (v, g) := DecodeStruct(c, 0, 0, off, b, true).value;
    EvolvedStruct(c, 0, 0, 0, off, a, b, true, v, g);
  }

  lemma BothStructs(a: Type, b: Type)
    requires a.Struct? && Evolves(a, b)
    ensures b.Struct? && |a.fields| <= |b.fields|
  {
  }

  /** A conforming struct encoded under the newer schema decodes under the older one. */
  lemma NewerStruct(s: Enc, d: nat, a: Type, b: Type, v: Value, c: Ctx, f: nat, dd: nat, room: nat)
    requires a.Struct? && Evolves(a, b) && v.Struct? && SchemaOk(b) && Conforms(b, v, c.handleCount, room, true)
    requires Sent(s, d, b, v, c) && f <= |s.buf| && dd + room <= c.maxDepth
    ensures var r := DecodeStruct(c, f, dd, |s.buf|, a, true); r.Ok? && r.value.0 == Narrow(a, v)
  {
    hide SchemaOk, Conforms, Evolves, Narrow, EncodeStruct, DecodeStruct, Final;
    BothStructs(a, b);
    RtStructAtEnd(s, d, b, v, c, f, dd, room);
    EvolvedStruct(c, f, f, dd, |s.buf|, a, b, true, v, DecodeStruct(c, f, dd, |s.buf|, b, true).value.1);
  }

  /** And so does a whole message, with any consistent header, within the receiver's limits. */
  lemma NewerSender(h: MessageHeader, a: Type, b: Type, v: Value, hc: nat, room: nat, limits: Limits)
    requires HeaderTyped(h) && HeaderConsistent(h) && Serialize(h).Ok?
    requires a.Struct? && Evolves(a, b) && v.Struct? && SchemaOk(b) && Conforms(b, v, hc, room, true)
    requires EncodeMessage(Serialize(h).value, b, v).Ok? && limits.maxMessageSize < TWO_32
    requires WithinSize(h, b, v, limits) && D.DepthOf(v) <= limits.maxDepth
    ensures var off, bytes := HeaderSize(h.version), EncodeMessage(Serialize(h).value, b, v).value.bytes;
      ValidateMessage(bytes, hc, a, limits) == Ok(ValidatedMessage(Received(h, off), Narrow(a, v), off))
  {
    hide SchemaOk, Conforms, Evolves, Narrow, EncodeMessage, Serialize, ValidateMessage, HeaderConsistent, HeaderTyped,
      D.DepthOf, HeaderSize, Received;
    BothStructs(a, b);
    MessageRoundTrip(h, b, v, hc, room, limits);
    OlderValidates(EncodeMessage(Serialize(h).value, b, v).value.bytes, hc, a, b, limits);
  }

  // ---------------------------------------------------------------- an older sender

  /** `b` is the struct `a` with newer fields behind its own, all above `version`. */
  ghost predicate Appended(a: Type, b: Type, version: nat) {
    && a.Struct? && b.Struct? && b.nullable == a.nullable && a.fields <= b.fields
    && forall i :: |a.fields| <= i < |b.fields| ==> Max(MaxVersion(a.fields), version) < b.fields[i].Version()
  }

  /** The value as the newer struct has it: with the newer fields at their defaults. */
  function Widen(a: Type, b: Type, v: Value): Value
    requires Appended(a, b, 0) && v.Struct?
  {
    Value.Struct(v.version, v.fields + seq(|b.fields| - |a.fields|, i requires 0 <= i < |b.fields| - |a.fields| =>
      DefaultValue(b.fields[|a.fields| + i].ty)))
  }

  lemma AppendedEvolves(a: Type, b: Type, version: nat)
    requires Appended(a, b, version)
    ensures Evolves(a, b) && Appended(a, b, 0)
  {
    hide MaxVersion;
    forall i | 0 <= i < |a.fields| ensures Evolves(a.fields[i].ty, b.fields[i].ty) {
      EvolvesSelf(a.fields[i].ty);
    }
  }

  /** At a version below the newer fields' the newer struct's size is the older one's. */
  lemma SizeBetween(a: Type, b: Type, version: nat)
    requires Appended(a, b, version) && StructLayout(b.fields).Ok? && MaxVersion(a.fields) <= version
    ensures StructLayout(a.fields).Ok?
    ensures P.NumBytesForVersion(StructLayout(b.fields).value, version) == Some(StructLayout(a.fields).value.size)
  {
    hide P.PackFields, P.NumBytesForVersion, PackInput, Evolves, MaxVersion;
    AppendedEvolves(a, b, version);
    InputPrefix(a, b);
    OwnVersions(a.fields);
    InputAbove(a, b, version);
    CutAt(PackInput(b.fields), |a.fields|, version);
    V.FieldsUpToAll(PackInput(a.fields), version);
    V.LayoutIsVersionStable(PackInput(b.fields), version);
  }

  lemma InputAbove(a: Type, b: Type, version: nat)
    requires Appended(a, b, version)
    ensures forall i :: |a.fields| <= i < |b.fields| ==> version < PackInput(b.fields)[i].Version()
  {
    forall i | |a.fields| <= i < |b.fields| ensures version < PackInput(b.fields)[i].Version() {
      LF.InputVersions(b.fields, i);
    }
  }

  /** A full-size header of the older struct, which it accepts, the newer one accepts too. */
  lemma WidenedHeader(c: Ctx, f: nat, off: nat, a: Type, b: Type, version: nat)
    requires Appended(a, b, version) && StructLayout(b.fields).Ok?
    requires DecodeStructHeader(c, f, off, a.fields, true).Ok? && StructLayout(a.fields).Ok?
    requires ReadLE(c, off, 4) == Ok(StructLayout(a.fields).value.size) && ReadLE(c, off + 4, 4) == Ok(version)
    ensures DecodeStructHeader(c, f, off, b.fields, true) == DecodeStructHeader(c, f, off, a.fields, true)
  {
    hide StructLayout, ReadLE, P.NumBytesForVersion, Claim, Evolves;
    AppendedEvolves(a, b, version);
    OlderLayout(a, b);
    if MaxVersion(a.fields) <= version { SizeBetween(a, b, version); }
    NewestAbove(a, b, version);
  }

  lemma NewestAbove(a: Type, b: Type, version: nat)
    requires Appended(a, b, version)
    ensures a.fields == b.fields || version < MaxVersion(b.fields)
  {
    if |a.fields| < |b.fields| { assert version < b.fields[|a.fields|].Version(); }
  }

  /** What has been filled in for the newer struct is what has been for the older, then defaults. */
  ghost predicate Padded(a: Type, b: Type, x: Filled, y: Filled)
    requires Appended(a, b, 0)
  {
    && |x.scalars| == |x.presence| == |a.fields| && |y.scalars| == |y.presence| == |b.fields|
    && x.scalars <= y.scalars && x.presence <= y.presence
    && forall i :: |a.fields| <= i < |b.fields| ==> y.scalars[i] == DefaultValue(b.fields[i].ty) && !y.presence[i]
  }

  lemma {:induction false} WidenedFields(c: Ctx, f: nat, d: nat, off: nat, a: Type, b: Type, numBytes: nat,
      version: nat, j: nat, k: nat, x: Filled, y: Filled, x1: Filled, g: nat)
    requires Appended(a, b, version) && Appended(a, b, 0) && StructLayout(a.fields).Ok? && StructLayout(b.fields).Ok?
    requires var older, newer := StructLayout(a.fields).value.packedFields, StructLayout(b.fields).value.packedFields;
      j <= |older| && k <= |newer| && older[j..] == V.UpTo(newer[k..], MaxVersion(a.fields))
    requires Padded(a, b, x, y) && DecodeFields(c, f, d, off, a, numBytes, version, j, x) == Ok((x1, g))
    ensures var r := DecodeFields(c, f, d, off, b, numBytes, version, k, y);
      r.Ok? && Padded(a, b, x1, r.value.0) && r.value.1 == g
    decreases |StructLayout(b.fields).value.packedFields| - k
  {
    hide StructLayout, DecodePacked, Padded, MaxVersion;
    var older, newer := StructLayout(a.fields).value.packedFields, StructLayout(b.fields).value.packedFields;
    PaddedLengths(a, b, x, y);
    if k < |newer| {
      assert newer[k..][1..] == newer[k + 1..] && newer[k..][0] == newer[k];
      if newer[k].src.minVersion <= MaxVersion(a.fields) {
        assert older[j..][0] == older[j] == newer[k] && older[j..][1..] == older[j + 1..];
        var (x2, f2) := DecodePacked(c, f, d, off, a, numBytes, version, j, x).value;
        BothPacked(c, f, d, off, a, b, numBytes, version, j, k, x, y, x2, f2);
        var y2 := DecodePacked(c, f, d, off, b, numBytes, version, k, y).value.0;
        WidenedFields(c, f2, d, off, a, b, numBytes, version, j + 1, k + 1, x2, y2, x1, g);
      } else {
        NewerSkipped(c, f, d, off, a, b, numBytes, version, k, y);
        WidenedFields(c, f, d, off, a, b, numBytes, version, j, k + 1, x, y, x1, g);
      }
    } else {
      assert older[j..] == [];
    }
  }

  lemma PaddedLengths(a: Type, b: Type, x: Filled, y: Filled)
    requires Appended(a, b, 0) && Padded(a, b, x, y)
    ensures |x.scalars| == |x.presence| == |a.fields| && |y.scalars| == |y.presence| == |b.fields|
  {
  }

  /** A field newer than the message's version is skipped. */
  lemma NewerSkipped(c: Ctx, f: nat, d: nat, off: nat, a: Type, b: Type, numBytes: nat, version: nat, k: nat, y: Filled)
    requires Appended(a, b, version) && StructLayout(b.fields).Ok?
    requires k < |StructLayout(b.fields).value.packedFields|
    requires StructLayout(b.fields).value.packedFields[k].src.minVersion > MaxVersion(a.fields)
    requires |y.scalars| == |y.presence| == |b.fields|
    ensures DecodePacked(c, f, d, off, b, numBytes, version, k, y) == Ok((y, f))
  {
    hide StructLayout, DecodeField;
    LF.PackedStands(b.fields, k);
    var i := StructLayout(b.fields).value.packedFields[k].src.field.index;
    AppendedEvolves(a, b, version);
    NewerIsBehind(a, b, i);
  }

  /** A field of both fills in the same. */
  lemma BothPacked(c: Ctx, f: nat, d: nat, off: nat, a: Type, b: Type, numBytes: nat, version: nat, j: nat, k: nat,
      x: Filled, y: Filled, x1: Filled, f1: nat)
    requires Appended(a, b, 0) && StructLayout(a.fields).Ok? && StructLayout(b.fields).Ok?
    requires j < |StructLayout(a.fields).value.packedFields| && k < |StructLayout(b.fields).value.packedFields|
    requires StructLayout(a.fields).value.packedFields[j] == StructLayout(b.fields).value.packedFields[k]
    requires Padded(a, b, x, y) && DecodePacked(c, f, d, off, a, numBytes, version, j, x) == Ok((x1, f1))
    ensures var r := DecodePacked(c, f, d, off, b, numBytes, version, k, y);
      r.Ok? && Padded(a, b, x1, r.value.0) && r.value.1 == f1
  {
    hide StructLayout, DecodeField, ReadByte, DefaultValue, MaxVersion;
    LF.PackedStands(a.fields, j);
    LF.PackedStands(b.fields, k);
    var i := StructLayout(a.fields).value.packedFields[j].src.field.index;
    assert a.fields[i] == b.fields[i];
  }

  lemma PaddedStart(a: Type, b: Type)
    requires Appended(a, b, 0)
    ensures Padded(a, b, Filled(Defaults(a.fields), seq(|a.fields|, _ => false)),
      Filled(Defaults(b.fields), seq(|b.fields|, _ => false)))
  {
    hide DefaultValue;
    forall i | 0 <= i < |a.fields| ensures Defaults(a.fields)[i] == Defaults(b.fields)[i] {
      assert a.fields[i] == b.fields[i];
    }
  }

  lemma PaddedAssembles(a: Type, b: Type, x: Filled, y: Filled, version: nat)
    requires Appended(a, b, 0) && Padded(a, b, x, y)
    ensures Value.Struct(version, Assemble(b.fields, y)) == Widen(a, b, Value.Struct(version, Assemble(a.fields, x)))
  {
    hide DefaultValue, MaxVersion;
    var n, r, w := |a.fields|, Assemble(b.fields, y), Widen(a, b, Value.Struct(version, Assemble(a.fields, x))).fields;
    forall i | 0 <= i < |b.fields| ensures r[i] == w[i] {
      if i < n {
        assert a.fields[i] == b.fields[i];
      } else {
        assert w[i] == DefaultValue(b.fields[n + (i - n)].ty);
        AbsentDefault(b.fields[i].ty);
      }
    }
  }

  lemma AbsentDefault(ty: Type)
    ensures ty.NullableScalar? ==> DefaultValue(ty) == Value.NullableScalar(false, Value.Null)
  {
  }

  /** The decoder of the newer struct makes of an older one's bytes the widened value. */
  lemma WidenedStruct(c: Ctx, f: nat, dd: nat, off: nat, a: Type, b: Type, v: Value, g: nat)
    requires a.Struct? && b.Struct? && v.Struct? && Appended(a, b, v.version) && Appended(a, b, 0)
    requires StructLayout(a.fields).Ok? && StructLayout(b.fields).Ok?
    requires DecodeStruct(c, f, dd, off, a, true) == Ok((v, g))
    requires ReadLE(c, off, 4) == Ok(StructLayout(a.fields).value.size) && ReadLE(c, off + 4, 4) == Ok(v.version)
    ensures DecodeStruct(c, f, dd, off, b, true) == Ok((Widen(a, b, v), g))
  {
    hide StructLayout, DecodeStructHeader, DecodeFields, Assemble, Defaults, ReadLE, MaxVersion, Padded, Widen,
      Evolves;
    HeaderAccepted(c, f, dd, off, a, true);
    WidenedHeader(c, f, off, a, b, v.version);
    AppendedEvolves(a, b, v.version);
    OlderLayout(a, b);
    PaddedStart(a, b);
    var (numBytes, version, f1) := DecodeStructHeader(c, f, off, a.fields, true).value;
    var x, y := Filled(Defaults(a.fields), seq(|a.fields|, _ => false)),
      Filled(Defaults(b.fields), seq(|b.fields|, _ => false));
    PaddedLengths(a, b, x, y);
    var (x1, g1) := DecodeFields(c, f1, dd + 1, off, a, numBytes, version, 0, x).value;
    var older, newer := StructLayout(a.fields).value.packedFields, StructLayout(b.fields).value.packedFields;
    assert older[0..] == older && newer[0..] == newer;
    WidenedFields(c, f1, dd + 1, off, a, b, numBytes, version, 0, 0, x, y, x1, g1);
    PaddedAssembles(a, b, x1, DecodeFields(c, f1, dd + 1, off, b, numBytes, version, 0, y).value.0, version);
  }

  /** A conforming struct of the older schema, at a version below the newer fields', decodes under
      the newer schema to its values and then the defaults, moving the frontier as before. */
  lemma OlderStruct(s: Enc, d: nat, a: Type, b: Type, v: Value, c: Ctx, f: nat, dd: nat, room: nat)
    requires a.Struct? && v.Struct? && Appended(a, b, v.version) && Appended(a, b, 0) && SchemaOk(a)
    requires Conforms(a, v, c.handleCount, room, true) && StructLayout(b.fields).Ok?
    requires Sent(s, d, a, v, c) && f <= |s.buf| && dd + room <= c.maxDepth
    ensures var r := DecodeStruct(c, f, dd, |s.buf|, a, true);
      r.Ok? && r.value.0 == v && DecodeStruct(c, f, dd, |s.buf|, b, true) == Ok((Widen(a, b, v), r.value.1))
  {
    hide SchemaOk, Conforms, Evolves, EncodeStruct, DecodeStruct, Final, StructLayout, ReadLE, MaxVersion, Widen;
    RtStructAtEnd(s, d, a, v, c, f, dd, room);
    SentHeader(s, d, a, v, c, room);
    WidenedStruct(c, f, dd, |s.buf|, a, b, v, DecodeStruct(c, f, dd, |s.buf|, a, true).value.1);
  }

  /** The encoder has written the struct's full size and the value's version. */
  lemma SentHeader(s: Enc, d: nat, a: Type, v: Value, c: Ctx, room: nat)
    requires a.Struct? && v.Struct? && SchemaOk(a) && Conforms(a, v, c.handleCount, room, true) && Sent(s, d, a, v, c)
    ensures StructLayout(a.fields).Ok? && ReadLE(c, |s.buf|, 4) == Ok(StructLayout(a.fields).value.size)
    ensures ReadLE(c, |s.buf| + 4, 4) == Ok(v.version)
  {
    hide SchemaOk, Conforms, StructLayout, StructHeader, EncodeFields, Laying, Blank, NeatFields, Frame, Holds, ReadLE,
      Final;
    ConformsToFields(a, v, c.handleCount, room);
    StructNeat(a, v, c.handleCount, room - 1);
    StructIsOk(a, v, c.handleCount, room - 1);
    NeatStart(s, a, v);
    LF.SizeIsRounded(a.fields);
    var off, size := |s.buf|, StructLayout(a.fields).value.size;
    var s1 := StructHeader(s, off, size, v.version);
    LaidFrame(s1, d, off, a, v.fields, 0);
    StructHeaderHolds(s, off, size, v.version);
    HeaderDelivered(s1, EncodeStruct(s, d, off, a, v).value, off, size, v.version, c);
  }

  /** And so does a whole message, with any consistent header, within the receiver's limits. */
  lemma OlderSender(h: MessageHeader, a: Type, b: Type, v: Value, hc: nat, room: nat, limits: Limits)
    requires HeaderTyped(h) && HeaderConsistent(h) && Serialize(h).Ok?
    requires a.Struct? && v.Struct? && Appended(a, b, v.version) && Appended(a, b, 0) && SchemaOk(a)
    requires Conforms(a, v, hc, room, true) && StructLayout(b.fields).Ok?
    requires EncodeMessage(Serialize(h).value, a, v).Ok? && limits.maxMessageSize < TWO_32
    requires WithinSize(h, a, v, limits) && D.DepthOf(v) <= limits.maxDepth
    ensures var off, bytes := HeaderSize(h.version), EncodeMessage(Serialize(h).value, a, v).value.bytes;
      ValidateMessage(bytes, hc, b, limits) == Ok(ValidatedMessage(Received(h, off), Widen(a, b, v), off))
  {
    hide SchemaOk, Conforms, EncodeMessage, Serialize, ValidateMessage, HeaderConsistent, HeaderTyped, D.DepthOf,
      HeaderSize, Received, StructLayout, Widen, MaxVersion, ReadLE, DecodeStruct, Neat, Prefixed, Sent, EncodeStruct;
    var bytes, header := EncodeMessage(Serialize(h).value, a, v).value.bytes, Serialize(h).value;
    var c := Ctx(bytes, hc, limits.maxDepth);
    MessageRoundTrip(h, a, v, hc, room, limits);
    SerializeHolds(h);
    HeaderSizeRounded(h.version);
    ConformsNeat(a, v, hc, room);
    PayloadEncoded(header, a, v);
    NeatPrefixed(h, a, v);
    PayloadSent(header, a, v, hc, limits.maxDepth);
    SentHeader(Enc(header, 0), 0, a, v, c, room);
    ValidatedUnder(bytes, hc, a, b, limits, v);
  }

  lemma ValidatedUnder(bytes: seq<byte>, hc: nat, a: Type, b: Type, limits: Limits, v: Value)
    requires a.Struct? && b.Struct? && v.Struct? && Appended(a, b, v.version) && Appended(a, b, 0)
    requires StructLayout(a.fields).Ok? && StructLayout(b.fields).Ok?
    requires ValidateMessage(bytes, hc, a, limits).Ok? && ValidateMessage(bytes, hc, a, limits).value.payload == v
    requires var c, off := Ctx(bytes, hc, limits.maxDepth), ValidateMessage(bytes, hc, a, limits).value.payloadOffset;
      ReadLE(c, off, 4) == Ok(StructLayout(a.fields).value.size) && ReadLE(c, off + 4, 4) == Ok(v.version)
    ensures ValidateMessage(bytes, hc, b, limits) ==
      Ok(ValidateMessage(bytes, hc, a, limits).value.(payload := Widen(a, b, v)))
  {
    hide Parse, DecodeStruct, StructLayout, ReadLE, MaxVersion, Widen;
    var off, c := AlignUp(Parse(bytes).value.1), Ctx(bytes, hc, limits.maxDepth);
    var (w, g) := DecodeStruct(c, 0, 0, off, a, true).value;
    WidenedStruct(c, 0, 0, off, a, b, v, g);
  }
}
