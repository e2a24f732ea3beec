/** Where encoding and decoding part ways: for each kind of schema and value that the round trip
    leaves out, when exactly it comes back, over all values of the kind; and for overlapping
    parts, families in which they do not. */
module CodecLimits {
  import opened Results
  import opened WireErrors
  import opened Bytes
  import opened Schema
  import opened Pointers
  import opened Encode
  import opened Decode
  import opened EncodeFrame
  import opened Wire
  import opened RoundTrip
  import P = Pack
  import LF = LayoutFacts
  import DecodeSound

  lemma {:induction false} TableStarts(info: seq<(nat, nat)>, version: nat)
    requires |info| > 0 && info[0].0 == 0
    ensures P.MaxUpTo(info, version).Some?
  {
  }

  lemma {:induction false} FirstRow(order: seq<P.PackedField>, version: nat, payload: nat)
    ensures |P.VersionInfo(order, version, payload)| > 0 && P.VersionInfo(order, version, payload)[0].0 == version
    decreases |order|
  {
    if |order| > 0 && order[0].src.minVersion == version {
      FirstRow(order[1..], version, Max(payload, P.PayloadUpTo(order[0])));
    }
  }

  /** The encoder writes a struct's full size whatever its version; the decoder accepts that
      header exactly when the version's own size is the full one. */
  lemma StaleVersion(s: Enc, ty: Type, version: nat, c: Ctx, f: nat)
    requires ty.Struct? && StructLayout(ty.fields).Ok? && version < TWO_32
    requires StructLayout(ty.fields).value.size < TWO_32
    requires var r := StructHeader(s, |s.buf|, StructLayout(ty.fields).value.size, version).buf;
      Agree(c.bytes, r, |s.buf|, |r|)
    requires f <= |s.buf|
    ensures DecodeStructHeader(c, f, |s.buf|, ty.fields, true).Ok? <==> SizeExpected(ty.fields, version)
    ensures !SizeExpected(ty.fields, version) ==>
      DecodeStructHeader(c, f, |s.buf|, ty.fields, true) == Err(UnexpectedStructHeader)
  {
    hide StructHeader, Agree, Holds, ReadLE, P.NumBytesForVersion, MaxVersion;
    var off, layout := |s.buf|, StructLayout(ty.fields).value;
    var r := StructHeader(s, off, layout.size, version).buf;
    LF.SizeIsRounded(ty.fields);
    StructHeaderHolds(s, off, layout.size, version);
    AgreeLength(c.bytes, r, off, |r|);
    HeaderReads(c, r, off, layout.size, version);
    TableTotal(ty.fields, version);
    if MaxVersion(ty.fields) <= version { LF.CurrentSize(ty.fields, version); }
  }

  lemma HeaderReads(c: Ctx, r: seq<byte>, off: nat, size: nat, version: nat)
    requires Agree(c.bytes, r, off, |r|) && off + 8 <= |r| && Holds(r, off, size, 4) && Holds(r, off + 4, version, 4)
    requires size < TWO_32 && version < TWO_32
    ensures ReadLE(c, off, 4) == Ok(size) && ReadLE(c, off + 4, 4) == Ok(version)
  {
    HoldsAgree(r, c.bytes, off, size, 4, off, |r|);
    HoldsAgree(r, c.bytes, off + 4, version, 4, off, |r|);
    HoldsRead32(c, off, size);
    HoldsRead32(c, off + 4, version);
  }

  lemma TableTotal(fields: seq<FieldType>, version: nat)
    requires StructLayout(fields).Ok?
    ensures P.NumBytesForVersion(StructLayout(fields).value, version).Some?
  {
    FirstRow(StructLayout(fields).value.ordinalOrder, 0, 0);
    TableStarts(StructLayout(fields).value.versionInfo, version);
  }

  /** An inlined union can be written as Null and is never read as one: it always comes back as
      a union or not at all. */
  lemma NullInlinedUnion(s: Enc, d: nat, off: nat, ty: Type, c: Ctx, f: nat, dd: nat)
    requires ty.Union? && ty.inlined && ty.nullable
    ensures EncodeField(s, d, off, 0, ty, Value.Null) == Ok(Put(s, off, 0, 8))
    ensures DecodeField(c, f, dd, off, 0, ty).Ok? ==> DecodeField(c, f, dd, off, 0, ty).value.0.Union?
  {
    assert DecodeField(c, f, dd, off, 0, ty) == DecodeUnion(c, f, dd, off, ty, false);
    UnionIsUnion(c, f, dd, off, ty, false);
  }

  lemma UnionIsUnion(c: Ctx, f: nat, d: nat, off: nat, ty: Type, claim: bool)
    requires ty.Union?
    ensures DecodeUnion(c, f, d, off, ty, claim).Ok? ==> DecodeUnion(c, f, d, off, ty, claim).value.0.Union?
  {
    hide DecodeUnionPayload, ReadLE;
  }

  // ---------------------------------------------------------------- nullable booleans

  lemma {:induction false} BoolNeverFilled(c: Ctx, f: nat, d: nat, off: nat, ty: Type, numBytes: nat, version: nat,
      k: nat, x: Filled, i: nat)
    requires ty.Struct? && StructLayout(ty.fields).Ok? && k <= |StructLayout(ty.fields).value.packedFields|
    requires |x.scalars| == |ty.fields| == |x.presence| && i < |ty.fields| && ty.fields[i].ty.NullableBool()
    requires DecodeFields(c, f, d, off, ty, numBytes, version, k, x).Ok?
    ensures DecodeFields(c, f, d, off, ty, numBytes, version, k, x).value.0.scalars[i] == x.scalars[i]
    decreases |StructLayout(ty.fields).value.packedFields| - k
  {
    hide StructLayout, DecodeField, ReadByte;
    if k < |StructLayout(ty.fields).value.packedFields| {
      LF.PackedStands(ty.fields, k);
      var (x1, f1) := DecodePacked(c, f, d, off, ty, numBytes, version, k, x).value;
      BoolNeverFilled(c, f1, d, off, ty, numBytes, version, k + 1, x1, i);
    }
  }

  /** A nullable boolean's value looks to both sides like a second presence flag, so it is never
      read: a present one comes back holding the default of its slot, whatever was sent. */
  lemma NullableBoolLost(c: Ctx, f: nat, d: nat, off: nat, ty: Type, claim: bool, i: nat)
    requires ty.Struct? && StructLayout(ty.fields).Ok? && i < |ty.fields| && ty.fields[i].ty.NullableBool()
    requires DecodeStruct(c, f, d, off, ty, claim).Ok?
    ensures var v := DecodeStruct(c, f, d, off, ty, claim).value.0;
      v.Struct? && |v.fields| == |ty.fields| && v.fields[i].NullableScalar? &&
      (v.fields[i].present ==> v.fields[i].value == Value.NullableScalar(false, Value.Null))
  {
    hide StructLayout, DecodeFields, DecodeStructHeader;
    var (numBytes, version, f1) := DecodeStructHeader(c, f, off, ty.fields, claim).value;
    BoolNeverFilled(c, f1, d + 1, off, ty, numBytes, version, 0,
      Filled(Defaults(ty.fields), seq(|ty.fields|, _ => false)), i);
  }

  // ---------------------------------------------------------------- coming back

  /** The struct stands, encoded, in the finished message. */
  ghost predicate Sent(s: Enc, d: nat, ty: Type, v: Value, c: Ctx) {
    && ty.Struct? && v.Struct? && EncodeStruct(s, d, |s.buf|, ty, v).Ok?
    && Final(c, EncodeStruct(s, d, |s.buf|, ty, v).value.buf, |s.buf|)
  }

  /** The decoder reads `v` at `off`. */
  ghost predicate ComesBack(c: Ctx, f: nat, dd: nat, off: nat, ty: Type, v: Value) {
    ty.Struct? && DecodeStruct(c, f, dd, off, ty, true).Ok? && DecodeStruct(c, f, dd, off, ty, true).value.0 == v
  }

  /** Everything about the struct can be sent, except perhaps its field `i`. */
  ghost predicate Others(ty: Type, v: Value, i: nat, hc: nat, room: nat) {
    && ty.Struct? && v.Struct? && SchemaOk(ty) && |v.fields| == |ty.fields| && i < |ty.fields| && v.version < TWO_32
    && SizeExpected(ty.fields, v.version) && NoOverlap(ty.fields, v.fields) && ty.fields[i].Version() <= v.version
    && forall j :: 0 <= j < |ty.fields| && j != i ==> FieldFits(ty.fields[j], v.fields[j], v.version, hc, room)
  }

  lemma BackConforms(c: Ctx, f: nat, dd: nat, off: nat, ty: Type, v: Value)
    requires SchemaOk(ty) && dd <= c.maxDepth && ComesBack(c, f, dd, off, ty, v)
    ensures Conforms(ty, v, c.handleCount, c.maxDepth - dd, false) && v.Struct?
  {
    hide SchemaOk, Conforms, DecodeStruct;
    DecodeSound.SoundStruct(c, f, dd, off, ty, true, v, DecodeStruct(c, f, dd, off, ty, true).value.1);
  }

  lemma BackField(c: Ctx, f: nat, dd: nat, off: nat, ty: Type, v: Value, i: nat)
    requires SchemaOk(ty) && dd <= c.maxDepth && ComesBack(c, f, dd, off, ty, v) && v.Struct? && i < |ty.fields|
    requires ty.fields[i].Version() <= v.version
    ensures dd < c.maxDepth && i < |v.fields|
    ensures Conforms(ty.fields[i].ty, v.fields[i], c.handleCount, c.maxDepth - dd - 1, false)
  {
    hide SchemaOk, ComesBack;
    BackConforms(c, f, dd, off, ty, v);
  }

  lemma OthersBack(s: Enc, d: nat, ty: Type, v: Value, c: Ctx, f: nat, dd: nat, i: nat, room: nat)
    requires Sent(s, d, ty, v, c) && Others(ty, v, i, c.handleCount, room)
    requires f <= |s.buf| && dd + room < c.maxDepth
    requires Conforms(ty.fields[i].ty, v.fields[i], c.handleCount, room, true)
    ensures ComesBack(c, f, dd, |s.buf|, ty, v)
  {
    hide SchemaOk, EncodeStruct, DecodeStruct, NoOverlap, SizeExpected, Final;
    ConformsWith(ty, v, i, c.handleCount, room);
    RtStructAtEnd(s, d, ty, v, c, f, dd, room + 1);
  }

  lemma ConformsWith(ty: Type, v: Value, i: nat, hc: nat, room: nat)
    requires Others(ty, v, i, hc, room) && Conforms(ty.fields[i].ty, v.fields[i], hc, room, true)
    ensures Conforms(ty, v, hc, room + 1, true)
  {
    hide SchemaOk, NoOverlap, SizeExpected;
    forall j | 0 <= j < |ty.fields| ensures FieldFits(ty.fields[j], v.fields[j], v.version, hc, room) {
    }
  }

  // ---------------------------------------------------------------- strings

  /** With everything else in order, a string field comes back exactly when it holds no NUL. */
  lemma StringBack(s: Enc, d: nat, ty: Type, v: Value, c: Ctx, f: nat, dd: nat, i: nat, room: nat)
    requires Sent(s, d, ty, v, c) && Others(ty, v, i, c.handleCount, room)
    requires f <= |s.buf| && dd + room < c.maxDepth
    requires ty.fields[i].ty.String? && v.fields[i].String? && ValidUtf8(v.fields[i].s)
    ensures ComesBack(c, f, dd, |s.buf|, ty, v) <==> 0 !in v.fields[i].s
  {
    hide SchemaOk, Sent, Others, ComesBack, NoOverlap, SizeExpected, ValidUtf8;
    OthersParts(ty, v, i, c.handleCount, room);
    if 0 !in v.fields[i].s {
      OthersBack(s, d, ty, v, c, f, dd, i, room);
    } else if ComesBack(c, f, dd, |s.buf|, ty, v) {
      BackField(c, f, dd, |s.buf|, ty, v, i);
    }
  }

  lemma OthersParts(ty: Type, v: Value, i: nat, hc: nat, room: nat)
    requires Others(ty, v, i, hc, room)
    ensures ty.Struct? && v.Struct? && SchemaOk(ty) && |v.fields| == |ty.fields| && i < |ty.fields|
    ensures ty.fields[i].Version() <= v.version < TWO_32
  {
  }

  // ---------------------------------------------------------------- stale versions

  /** Everything in version conforms, whatever the newer fields hold. */
  ghost predicate InVersionConforms(ty: Type, v: Value, hc: nat, room: nat) {
    && ty.Struct? && v.Struct? && SchemaOk(ty) && |v.fields| == |ty.fields| && v.version < TWO_32
    && NoOverlap(ty.fields, v.fields)
    && forall i :: 0 <= i < |ty.fields| ==>
         if ty.fields[i].Version() <= v.version then Conforms(ty.fields[i].ty, v.fields[i], hc, room, true)
         else Neat(ty.fields[i].ty, v.fields[i])
  }

  ghost predicate NewerAtDefault(fields: seq<FieldType>, version: nat, vals: seq<Value>)
    requires |vals| == |fields|
  {
    forall i :: 0 <= i < |fields| && fields[i].Version() > version ==> vals[i] == DefaultValue(fields[i].ty)
  }

  /** A struct of an older version comes back exactly when its version's size is the full one,
      which is what the encoder writes, and its newer fields hold their defaults. */
  lemma StaleBack(s: Enc, d: nat, ty: Type, v: Value, c: Ctx, f: nat, dd: nat, room: nat)
    requires Sent(s, d, ty, v, c) && InVersionConforms(ty, v, c.handleCount, room)
    requires f <= |s.buf| && dd + room < c.maxDepth
    ensures ComesBack(c, f, dd, |s.buf|, ty, v) <==>
      SizeExpected(ty.fields, v.version) && NewerAtDefault(ty.fields, v.version, v.fields)
  {
    hide SchemaOk, Conforms, InVersionConforms, NewerAtDefault, ComesBack, SizeExpected, StructLayout, Sent;
    InVersionParts(ty, v, c.handleCount, room);
    if SizeExpected(ty.fields, v.version) && NewerAtDefault(ty.fields, v.version, v.fields) {
      StaleForward(s, d, ty, v, c, f, dd, room);
    } else if ComesBack(c, f, dd, |s.buf|, ty, v) {
      BackConforms(c, f, dd, |s.buf|, ty, v);
      NewerFromConforms(ty, v, c.handleCount, c.maxDepth - dd);
      SizeFromBack(s, d, ty, v, c, f, dd, room);
    }
  }

  lemma InVersionParts(ty: Type, v: Value, hc: nat, room: nat)
    requires InVersionConforms(ty, v, hc, room)
    ensures ty.Struct? && v.Struct? && SchemaOk(ty) && |v.fields| == |ty.fields| && v.version < TWO_32
    ensures StructLayout(ty.fields).Ok? && NeatFields(ty.fields, v.fields)
  {
    hide NoOverlap, StructLayout, Conforms;
    SchemaStruct(ty);
    forall i | 0 <= i < |ty.fields| ensures Neat(ty.fields[i].ty, FieldAt(v.fields, i)) {
      if ty.fields[i].Version() <= v.version { ConformsNeat(ty.fields[i].ty, v.fields[i], hc, room); }
    }
  }

  lemma NewerFromConforms(ty: Type, v: Value, hc: nat, room: nat)
    requires ty.Struct? && v.Struct? && Conforms(ty, v, hc, room, false)
    ensures |v.fields| == |ty.fields| && NewerAtDefault(ty.fields, v.version, v.fields)
  {
  }

  lemma StaleForward(s: Enc, d: nat, ty: Type, v: Value, c: Ctx, f: nat, dd: nat, room: nat)
    requires Sent(s, d, ty, v, c) && InVersionConforms(ty, v, c.handleCount, room)
    requires f <= |s.buf| && dd + room < c.maxDepth
    requires SizeExpected(ty.fields, v.version) && NewerAtDefault(ty.fields, v.version, v.fields)
    ensures ComesBack(c, f, dd, |s.buf|, ty, v)
  {
    hide SchemaOk, EncodeStruct, DecodeStruct, NoOverlap, SizeExpected, Final, StructLayout, Conforms;
    InVersionParts(ty, v, c.handleCount, room);
    forall i | 0 <= i < |ty.fields| ensures FieldFits(ty.fields[i], v.fields[i], v.version, c.handleCount, room) {
      if ty.fields[i].Version() > v.version && ty.fields[i].ty.BareUnion() {
        NoNullUnion(s, d, ty, v, i);
      }
    }
    FitsConform(ty, v, c.handleCount, room);
    RtStructAtEnd(s, d, ty, v, c, f, dd, room + 1);
  }

  lemma FitsConform(ty: Type, v: Value, hc: nat, room: nat)
    requires ty.Struct? && v.Struct? && |v.fields| == |ty.fields| && v.version < TWO_32
    requires SizeExpected(ty.fields, v.version) && NoOverlap(ty.fields, v.fields)
    requires forall i :: 0 <= i < |ty.fields| ==> FieldFits(ty.fields[i], v.fields[i], v.version, hc, room)
    ensures Conforms(ty, v, hc, room + 1, true)
  {
    hide NoOverlap, SizeExpected, SchemaOk, StructLayout;
  }

  /** The encoder refuses a null inlined union that is not nullable. */
  lemma NoNullUnion(s: Enc, d: nat, ty: Type, v: Value, i: nat)
    requires ty.Struct? && v.Struct? && SchemaOk(ty) && |v.fields| == |ty.fields| && NeatFields(ty.fields, v.fields)
    requires EncodeStruct(s, d, |s.buf|, ty, v).Ok? && i < |ty.fields| && ty.fields[i].ty.BareUnion()
    ensures v.fields[i] != Value.Null
  {
    hide SchemaOk, StructLayout, NeatFields, EncodeFields, StructHeader, Laying, Blank, EncodePacked;
    SchemaStruct(ty);
    var off := |s.buf|;
    var s1 := StructHeader(s, off, StructLayout(ty.fields).value.size, v.version);
    NeatStart(s, ty, v);
    var k := LF.FieldCovered(ty.fields, i, false);
    PackedBound(ty, k);
    var sk := WalkTo(s1, d, off, ty, v.fields, 0, k);
    EncodePackedIs(sk, d, off, ty, v.fields, k, StructLayout(ty.fields).value.packedFields[k],
      StructLayout(ty.fields).value.size);
  }

  lemma NeatStart(s: Enc, ty: Type, v: Value)
    requires ty.Struct? && v.Struct? && SchemaOk(ty) && NeatFields(ty.fields, v.fields)
    ensures StructLayout(ty.fields).Ok?
    ensures var s1 := StructHeader(s, |s.buf|, StructLayout(ty.fields).value.size, v.version);
      Laying(s1, |s.buf|, ty, v.fields, 0) && Blank(s1.buf, |s.buf|, ty.fields, 0)
  {
    hide SchemaOk, StructLayout, StructHeader, Holds, Blank, NeatFields, SpillRoom;
    SchemaStruct(ty);
    var off, size := |s.buf|, StructLayout(ty.fields).value.size;
    LF.SizeIsRounded(ty.fields);
    StructHeaderHolds(s, off, size, v.version);
    BlankStart(s, off, ty.fields, v.version);
    RoomAtStart(StructHeader(s, off, size, v.version), off, ty.fields, v.fields);
  }

  /** The encoder's state before packed field `k`. */
  lemma {:induction false} WalkTo(s: Enc, d: nat, off: nat, ty: Type, vals: seq<Value>, j: nat, k: nat)
    returns (sk: Enc)
    requires Laying(s, off, ty, vals, j) && Blank(s.buf, off, ty.fields, j)
    requires j <= k < |StructLayout(ty.fields).value.packedFields| && EncodeFields(s, d, off, ty, vals, j).Ok?
    ensures Laying(sk, off, ty, vals, k) && Blank(sk.buf, off, ty.fields, k) && |s.buf| <= |sk.buf|
    ensures EncodeFields(sk, d, off, ty, vals, k) == EncodeFields(s, d, off, ty, vals, j)
    ensures EncodePacked(sk, d, off, ty, vals, k).Ok?
    decreases k - j
  {
    hide SchemaOk, StructLayout, EncodePacked, Laying, Blank, Frame;
    LayingBound(s, off, ty, vals, j);
    SchemaStruct(ty);
    if j == k {
      sk := s;
    } else {
      LayingNext(s, d, off, ty, vals, j);
      var s1 := EncodePacked(s, d, off, ty, vals, j).value;
      BlankNext(s.buf, s1.buf, off, ty.fields, j);
      sk := WalkTo(s1, d, off, ty, vals, j + 1, k);
    }
  }

  lemma SizeFromBack(s: Enc, d: nat, ty: Type, v: Value, c: Ctx, f: nat, dd: nat, room: nat)
    requires Sent(s, d, ty, v, c) && InVersionConforms(ty, v, c.handleCount, room) && f <= |s.buf|
    requires ComesBack(c, f, dd, |s.buf|, ty, v)
    ensures SizeExpected(ty.fields, v.version)
  {
    hide SchemaOk, StructLayout, EncodeFields, StructHeader, DecodeStructHeader, DecodeFields, Assemble, Final, Frame,
      SizeExpected, Laying, Blank, NeatFields;
    InVersionParts(ty, v, c.handleCount, room);
    var off, size := |s.buf|, StructLayout(ty.fields).value.size;
    var s1, r := StructHeader(s, off, size, v.version), EncodeStruct(s, d, off, ty, v).value;
    NeatStart(s, ty, v);
    LaidFrame(s1, d, off, ty, v.fields, 0);
    LF.SizeIsRounded(ty.fields);
    StructHeaderHolds(s, off, size, v.version);
    HeaderDelivered(s1, r, off, size, v.version, c);
    HeaderAccepted(c, f, dd, off, ty, true);
    HeaderSizeExpected(c, f, off, ty.fields, v.version);
  }

  lemma HeaderAccepted(c: Ctx, f: nat, dd: nat, off: nat, ty: Type, claim: bool)
    requires ty.Struct? && DecodeStruct(c, f, dd, off, ty, claim).Ok?
    ensures DecodeStructHeader(c, f, off, ty.fields, claim).Ok?
  {
    hide DecodeStructHeader, DecodeFields, StructLayout;
  }

  lemma HeaderDelivered(s1: Enc, r: Enc, off: nat, size: nat, version: nat, c: Ctx)
    requires Holds(s1.buf, off, size, 4) && Holds(s1.buf, off + 4, version, 4) && size >= 8 && version < TWO_32
    requires off + size <= |s1.buf| && Frame(s1.buf, r.buf, off + 8, off + size) && Final(c, r.buf, off)
    ensures ReadLE(c, off, 4) == Ok(size) && ReadLE(c, off + 4, 4) == Ok(version) && off + size <= |c.bytes|
  {
    hide Holds, ReadLE;
    FrameLength(s1.buf, r.buf, off + 8, off + size);
    FinalAgree(c, r.buf, off);
    AgreePart(c.bytes, r.buf, off, |r.buf|, off, off + 8);
    HeaderRead(c, s1.buf, r.buf, off, size, version, off + 8, off + size);
  }

  /** A full-size header is accepted only for a version whose size is the full one. */
  lemma HeaderSizeExpected(c: Ctx, f: nat, off: nat, fields: seq<FieldType>, version: nat)
    requires StructLayout(fields).Ok? && DecodeStructHeader(c, f, off, fields, true).Ok?
    requires ReadLE(c, off, 4) == Ok(StructLayout(fields).value.size) && ReadLE(c, off + 4, 4) == Ok(version)
    ensures SizeExpected(fields, version)
  {
    hide StructLayout, ReadLE, MaxVersion, P.NumBytesForVersion, Claim;
    TableTotal(fields, version);
  }

  // ---------------------------------------------------------------- nullable scalars

  /** A nullable boolean comes back exactly when it holds what the decoder makes of it: absent,
      or present without its value. */
  lemma NullableBoolBack(s: Enc, d: nat, ty: Type, v: Value, c: Ctx, f: nat, dd: nat, i: nat, room: nat)
    requires Sent(s, d, ty, v, c) && Others(ty, v, i, c.handleCount, room)
    requires f <= |s.buf| && dd + room < c.maxDepth
    requires ty.fields[i].ty == Type.NullableScalar(Type.Bool) && v.fields[i].NullableScalar?
    ensures ComesBack(c, f, dd, |s.buf|, ty, v) <==> v.fields[i].value == LostBool(v.fields[i].present)
    ensures (if v.fields[i].present then v.fields[i].value.Bool? else v.fields[i].value.Null?) ==>
      (ComesBack(c, f, dd, |s.buf|, ty, v) <==> !v.fields[i].present)
  {
    hide SchemaOk, Sent, Others, ComesBack, NoOverlap, SizeExpected;
    OthersParts(ty, v, i, c.handleCount, room);
    if v.fields[i].value == LostBool(v.fields[i].present) {
      OthersBack(s, d, ty, v, c, f, dd, i, room);
    } else if ComesBack(c, f, dd, |s.buf|, ty, v) {
      BackField(c, f, dd, |s.buf|, ty, v, i);
    }
  }

  /** Zero bytes in the type's own slot decide whether it can be read: all but a union inlined in
      the payload of another, which reaches past it. */
  predicate Decided(ty: Type, wide: bool)
    decreases ty
  {
    match ty
    case NullableScalar(inner) => Decided(inner, wide)
    case Union(members, _, inlined) => inlined ==> wide && (|members| > 0 ==> Decided(members[0], false))
    case _ => true
  }

  predicate Scalar(ty: Type) {
    ty.NullableScalar? && !ty.NullableBool() && Decided(ty.inner, true)
  }

  /** An absent nullable scalar comes back exactly when the zero bytes left in its slot can be
      read as one that is present: not for a handle without handles, nor for a bare reference. */
  lemma AbsentBack(s: Enc, d: nat, ty: Type, v: Value, c: Ctx, f: nat, dd: nat, i: nat, room: nat)
    requires Sent(s, d, ty, v, c) && Others(ty, v, i, c.handleCount, room)
    requires f <= |s.buf| && dd + room < c.maxDepth
    requires Scalar(ty.fields[i].ty)
    requires v.fields[i] == Value.NullableScalar(false, Value.Null)
    ensures ComesBack(c, f, dd, |s.buf|, ty, v) <==> ZeroReads(ty.fields[i].ty.inner, c.handleCount, true)
  {
    hide SchemaOk, Sent, Others, DecodeStruct, NoOverlap, SizeExpected, ZeroReads;
    OthersParts(ty, v, i, c.handleCount, room);
    if ZeroReads(ty.fields[i].ty.inner, c.handleCount, true) {
      OthersBack(s, d, ty, v, c, f, dd, i, room);
    } else {
      OthersNeat(ty, v, i, c.handleCount, room);
      AbsentRejected(s, d, ty, v, c, f, dd, i);
    }
  }

  /** A nullable handle comes back exactly when it is present or the message carries handles. */
  lemma NullableHandleBack(s: Enc, d: nat, ty: Type, v: Value, c: Ctx, f: nat, dd: nat, i: nat, room: nat)
    requires Sent(s, d, ty, v, c) && Others(ty, v, i, c.handleCount, room)
    requires f <= |s.buf| && dd + room < c.maxDepth
    requires ty.fields[i].ty == Type.NullableScalar(Type.Handle) && v.fields[i].NullableScalar?
    requires if v.fields[i].present then v.fields[i].value.Handle? && HandleOk(v.fields[i].value.index, c.handleCount)
      else v.fields[i].value.Null?
    ensures ComesBack(c, f, dd, |s.buf|, ty, v) <==> v.fields[i].present || c.handleCount > 0
  {
    hide SchemaOk, Sent, Others, ComesBack, NoOverlap, SizeExpected;
    OthersParts(ty, v, i, c.handleCount, room);
    if v.fields[i].present {
      OthersBack(s, d, ty, v, c, f, dd, i, room);
    } else {
      AbsentBack(s, d, ty, v, c, f, dd, i, room);
    }
  }

  lemma OthersNeat(ty: Type, v: Value, i: nat, hc: nat, room: nat)
    requires Others(ty, v, i, hc, room) && Neat(ty.fields[i].ty, v.fields[i])
    ensures NeatFields(ty.fields, v.fields)
  {
    hide NoOverlap, Conforms, SchemaOk, SizeExpected;
    forall j | 0 <= j < |ty.fields| ensures Neat(ty.fields[j].ty, FieldAt(v.fields, j)) {
      if j != i {
        assert FieldFits(ty.fields[j], v.fields[j], v.version, hc, room);
        if ty.fields[j].Version() <= v.version { ConformsNeat(ty.fields[j].ty, v.fields[j], hc, room); }
      }
    }
  }

  lemma AbsentRejected(s: Enc, d: nat, ty: Type, v: Value, c: Ctx, f: nat, dd: nat, i: nat)
    requires Sent(s, d, ty, v, c) && SchemaOk(ty) && |v.fields| == |ty.fields| && NeatFields(ty.fields, v.fields)
    requires i < |ty.fields| && ty.fields[i].Version() <= v.version < TWO_32
    requires Scalar(ty.fields[i].ty)
    requires v.fields[i] == Value.NullableScalar(false, Value.Null)
    requires !ZeroReads(ty.fields[i].ty.inner, c.handleCount, true)
    ensures DecodeStruct(c, f, dd, |s.buf|, ty, true).Err?
  {
    hide SchemaOk, StructLayout, NeatFields, EncodeFields, StructHeader, Laying, Blank, EncodePacked, Final, Agree,
      Frame, Holds, ZeroReads, DecodeStructHeader, DecodeFields, ReadLE, SlotSame, At, Zero, SlotSize,
      P.PackedField.End;
    SchemaStruct(ty);
    var off, size := |s.buf|, StructLayout(ty.fields).value.size;
    var s1, r := StructHeader(s, off, size, v.version), EncodeStruct(s, d, off, ty, v).value;
    NeatStart(s, ty, v);
    LaidFrame(s1, d, off, ty, v.fields, 0);
    LF.SizeIsRounded(ty.fields);
    StructHeaderHolds(s, off, size, v.version);
    HeaderDelivered(s1, r, off, size, v.version, c);
    var k := LF.FieldCovered(ty.fields, i, false);
    AbsentSlot(s1, d, off, ty, v.fields, k, i, r, c);
    AbsentStuck(c, dd + 1, off, ty, size, v.version, k, i);
    if DecodeStructHeader(c, f, off, ty.fields, true).Ok? {
      HeaderIs(c, f, off, ty.fields, size, v.version);
      var f1 := DecodeStructHeader(c, f, off, ty.fields, true).value.2;
      StuckFails(c, f1, dd + 1, off, ty, size, v.version, 0, k,
        Filled(Defaults(ty.fields), seq(|ty.fields|, _ => false)));
    }
  }

  lemma HeaderIs(c: Ctx, f: nat, off: nat, fields: seq<FieldType>, size: nat, version: nat)
    requires DecodeStructHeader(c, f, off, fields, true).Ok? && ReadLE(c, off, 4) == Ok(size)
    requires ReadLE(c, off + 4, 4) == Ok(version)
    ensures DecodeStructHeader(c, f, off, fields, true).value.0 == size
    ensures DecodeStructHeader(c, f, off, fields, true).value.1 == version
  {
    hide StructLayout, ReadLE, MaxVersion, P.NumBytesForVersion, Claim;
  }

  /** The slot of an absent nullable scalar is zero in the finished message. */
  lemma AbsentSlot(s: Enc, d: nat, off: nat, ty: Type, vals: seq<Value>, k: nat, i: nat, r: Enc, c: Ctx)
    requires Laying(s, off, ty, vals, 0) && Blank(s.buf, off, ty.fields, 0) && |vals| == |ty.fields|
    requires k < |StructLayout(ty.fields).value.packedFields| && i < |ty.fields|
    requires var p := StructLayout(ty.fields).value.packedFields[k];
      p.src.field.index == i && p.src.field.kind == ty.fields[i].ty.PackKind()
    requires Scalar(ty.fields[i].ty)
    requires vals[i] == Value.NullableScalar(false, Value.Null)
    requires EncodeFields(s, d, off, ty, vals, 0) == Ok(r) && Final(c, r.buf, off) && off <= |s.buf|
    ensures var p := StructLayout(ty.fields).value.packedFields[k];
      Zero(c.bytes, off + 8 + p.offset, off + 8 + p.End())
  {
    hide SchemaOk, StructLayout, EncodeFields, EncodePacked, Laying, Blank, Final, Agree, Frame, SlotSame, Zero;
    LayingBound(s, off, ty, vals, 0);
    SchemaStruct(ty);
    PackedBound(ty, k);
    var size, p := StructLayout(ty.fields).value.size, StructLayout(ty.fields).value.packedFields[k];
    var sk := WalkTo(s, d, off, ty, vals, 0, k);
    EncodePackedIs(sk, d, off, ty, vals, k, p, size);
    NotBoolKind(ty.fields[i].ty);
    SkipEncoded(sk, d, off, ty, vals, k);
    LaidFrame(s, d, off, ty, vals, 0);
    FrameLength(s.buf, r.buf, off + 8, off + size);
    FinalAgree(c, r.buf, off);
    AgreePart(c.bytes, r.buf, off, |r.buf|, off, off + size);
    LayingNext(sk, d, off, ty, vals, k);
    FieldsKeep(sk, d, off, ty, vals, k + 1, k);
    LayingBound(sk, off, ty, vals, k);
    SlotSameAgree(c.bytes, sk.buf, r.buf, off, p, size);
    BlankSlot(sk.buf, c.bytes, off, ty.fields, k);
  }

  lemma NotBoolKind(ty: Type)
    requires Scalar(ty)
    ensures !ty.PackKind().Bool?
  {
  }

  lemma SkipEncoded(s: Enc, d: nat, off: nat, ty: Type, vals: seq<Value>, k: nat)
    requires ty.Struct? && StructLayout(ty.fields).Ok? && k < |StructLayout(ty.fields).value.packedFields|
    requires EncodePacked(s, d, off, ty, vals, k) == Ok(s)
    ensures EncodeFields(s, d, off, ty, vals, k) == EncodeFields(s, d, off, ty, vals, k + 1)
  {
    hide StructLayout, EncodePacked;
  }

  /** Packed field `k` cannot be read, whatever was read before it. */
  ghost predicate Stuck(c: Ctx, d: nat, off: nat, ty: Type, numBytes: nat, version: nat, k: nat)
    requires ty.Struct? && StructLayout(ty.fields).Ok? && k < |StructLayout(ty.fields).value.packedFields|
  {
    forall f: nat, x: Filled :: |x.scalars| == |ty.fields| && |x.presence| == |ty.fields| ==>
      DecodePacked(c, f, d, off, ty, numBytes, version, k, x).Err?
  }

  lemma {:induction false} StuckFails(c: Ctx, f: nat, d: nat, off: nat, ty: Type, numBytes: nat, version: nat, j: nat,
      k: nat, x: Filled)
    requires ty.Struct? && StructLayout(ty.fields).Ok? && j <= k < |StructLayout(ty.fields).value.packedFields|
    requires Stuck(c, d, off, ty, numBytes, version, k) && |x.scalars| == |ty.fields| && |x.presence| == |ty.fields|
    ensures DecodeFields(c, f, d, off, ty, numBytes, version, j, x).Err?
    decreases k - j
  {
    hide StructLayout, DecodePacked;
    if j < k && DecodePacked(c, f, d, off, ty, numBytes, version, j, x).Ok? {
      var (x1, f1) := DecodePacked(c, f, d, off, ty, numBytes, version, j, x).value;
      StuckFails(c, f1, d, off, ty, numBytes, version, j + 1, k, x1);
    }
  }

  lemma AbsentStuck(c: Ctx, d: nat, off: nat, ty: Type, numBytes: nat, version: nat, k: nat, i: nat)
    requires ty.Struct? && SchemaOk(ty) && StructLayout(ty.fields).Ok?
    requires k < |StructLayout(ty.fields).value.packedFields|
    requires i < |ty.fields| && ty.fields[i].Version() <= version && numBytes == StructLayout(ty.fields).value.size
    requires var p := StructLayout(ty.fields).value.packedFields[k];
      && p.src.field.index == i && p.src.field.kind == ty.fields[i].ty.PackKind()
      && Zero(c.bytes, off + 8 + p.offset, off + 8 + p.End())
    requires Scalar(ty.fields[i].ty)
    requires !ZeroReads(ty.fields[i].ty.inner, c.handleCount, true)
    ensures Stuck(c, d, off, ty, numBytes, version, k)
  {
    hide SchemaOk, StructLayout, DecodeField, Zero, ZeroReads;
    FieldTypeOk(ty, k);
    var p := StructLayout(ty.fields).value.packedFields[k];
    NotBoolKind(ty.fields[i].ty);
    forall f: nat, x: Filled | |x.scalars| == |ty.fields| && |x.presence| == |ty.fields|
      ensures DecodePacked(c, f, d, off, ty, numBytes, version, k, x).Err?
    {
      SameSlot(ty.fields[i].ty);
      ZeroRejected(c, f, d, off + 8 + p.offset, ty.fields[i].ty.inner, true);
    }
  }

  /** Zero bytes that cannot be read as a value are rejected. */
  lemma {:induction false} ZeroRejected(c: Ctx, f: nat, dd: nat, at: nat, ty: Type, wide: bool)
    requires Decided(ty, wide) && !ZeroReads(ty, c.handleCount, wide)
    requires Zero(c.bytes, at, at + (if wide then SlotSize(ty) else 8))
    ensures DecodeField(c, f, dd, at, 0, ty).Err?
    decreases ty
  {
    hide ReadLE, Zero, DecodeStringAt, DecodeArrayBody, DecodeMapAt, DecodeUnion, DecodeStruct, SlotSize;
    var hi := at + if wide then SlotSize(ty) else 8;
    if ty.IsInPlace() {
      InPlaceSlot(ty);
      RejectedHandle(c, at, ty, hi);
    } else if ty.NullableScalar? {
      SameSlot(ty);
      ZeroRejected(c, f, dd, at, ty.inner, wide);
    } else if ty.Union? && ty.inlined {
      ObjectSlot(ty);
      UnionRejected(c, f, dd, at, ty);
      InlinedDecode(c, f, dd, at, ty);
    } else {
      ObjectSlot(ty);
      ZeroRead(c, at, 8, at, hi);
      ZeroRead(c, at, 4, at, hi);
      NullRejected(c, f, dd, at, ty);
    }
  }

  lemma InlinedDecode(c: Ctx, f: nat, dd: nat, off: nat, ty: Type)
    requires ty.Union? && ty.inlined
    ensures DecodeField(c, f, dd, off, 0, ty) == DecodeUnion(c, f, dd, off, ty, false)
  {
    hide DecodeUnion;
    assert DecodeField(c, f, dd, off, 0, ty) == DecodeObject(c, f, dd, off, ty);
  }

  /** An absent inlined union is read as one of its first member, and fails where that does. */
  lemma {:induction false} UnionRejected(c: Ctx, f: nat, dd: nat, at: nat, ty: Type)
    requires ty.Union? && ty.inlined && Decided(ty, true) && !ZeroReads(ty, c.handleCount, true)
    requires Zero(c.bytes, at, at + 16)
    ensures DecodeUnion(c, f, dd, at, ty, false).Err?
    decreases ty, 0
  {
    hide ReadLE, DecodeField, DecodeStringAt, DecodeArrayBody, DecodeMapAt, DecodeStruct;
    ZeroRead(c, at + 4, 4, at, at + 16);
    if |ty.members| > 0 {
      var m := ty.members[0];
      ZeroRead(c, at + 8, 8, at, at + 16);
      assert ReadPointer(c, at + 8) == Ok(NullPointer);
      ZeroRejected(c, f, dd, at + 8, m, false);
      assert DecodeUnionPayload(c, f, dd, at + 8, m).Err?;
    }
  }

  lemma NullRejected(c: Ctx, f: nat, dd: nat, at: nat, ty: Type)
    requires !ty.IsInPlace() && !ty.NullableScalar? && !ty.IsNullable() && !(ty.Union? && ty.inlined)
    requires ReadLE(c, at, 8) == Ok(0) && ReadLE(c, at, 4) == Ok(0)
    ensures DecodeField(c, f, dd, at, 0, ty).Err?
  {
    hide ReadLE, DecodeStringAt, DecodeArrayBody, DecodeMapAt, DecodeUnion, DecodeStruct;
    assert ReadPointer(c, at) == Ok(NullPointer);
    if ty.Struct? { BlankHeader(c, f, dd, at, ty); }
    assert DecodeField(c, f, dd, at, 0, ty) == DecodeObject(c, f, dd, at, ty);
    assert DecodeObject(c, f, dd, at, ty).Err?;
  }

  lemma BlankHeader(c: Ctx, f: nat, dd: nat, at: nat, ty: Type)
    requires ty.Struct? && ReadLE(c, at, 4) == Ok(0)
    ensures DecodeStruct(c, f, dd, at, ty, false).Err?
  {
    hide StructLayout, DecodeFields;
    if DecodeStruct(c, f, dd, at, ty, false).Ok? { HeaderAccepted(c, f, dd, at, ty, false); }
  }

  lemma RejectedHandle(c: Ctx, at: nat, ty: Type, hi: nat)
    requires ty.IsInPlace() && !ZeroReads(ty, c.handleCount, true) && Zero(c.bytes, at, hi)
    requires hi == at + SlotSize(ty) || hi == at + 8
    ensures DecodeInPlace(c, at, 0, ty).Err?
  {
    hide ReadLE, Zero;
    ZeroRead(c, at, 4, at, hi);
    if ty.Interface? { ZeroRead(c, at + 4, 4, at, hi); }
  }

  // ---------------------------------------------------------------- members of unions

  lemma Regroup(p: nat, x: nat, y: nat)
    ensures 256 * (x + p * y) == 256 * x + 256 * p * y
  {
  }

  lemma {:induction false} FromLEJoin(a: seq<byte>, b: seq<byte>)
    ensures FromLE(a + b) == FromLE(a) + Pow256(|a|) * FromLE(b)
  {
    if |a| == 0 {
      assert a + b == b;
    } else {
      FromLEJoin(a[1..], b);
      assert (a + b)[1..] == a[1..] + b;
      Regroup(Pow256(|a| - 1), FromLE(a[1..]), FromLE(b));
    }
  }

  lemma ReadsJoin(c: Ctx, off: nat, x: nat, y: nat)
    requires ReadLE(c, off, 4) == Ok(x) && ReadLE(c, off + 4, 4) == Ok(y)
    ensures ReadLE(c, off, 8) == Ok(x + TWO_32 * y)
  {
    hide FromLE;
    Pow256Values();
    assert c.bytes[off..off + 8] == c.bytes[off..off + 4] + c.bytes[off + 4..off + 8];
    FromLEJoin(c.bytes[off..off + 4], c.bytes[off + 4..off + 8]);
  }

  /** A struct member that is not nullable is written into the payload and read through it: its
      header is taken for a pointer behind the struct, further by 2^32 for each version. So it
      comes back exactly when the same struct stands there once more, unclaimed; when nothing
      stands there it is rejected. */
  lemma StructMember(s: Enc, d: nat, off: nat, ty: Type, v: Value, c: Ctx, f: nat, dd: nat)
    requires ty.InlineStruct() && SchemaOk(ty) && v.Struct? && Neat(ty, v) && v.version < TWO_32 && off + 8 == |s.buf|
    requires EncodeUnionPayload(s, d, off, ty, v).Ok? && Final(c, EncodeUnionPayload(s, d, off, ty, v).value.buf, off)
    ensures StructLayout(ty.fields).Ok?
    ensures var t := off + StructLayout(ty.fields).value.size + TWO_32 * v.version;
      && DecodeUnionPayload(c, f, dd, off, ty) == DecodeStruct(c, f, dd, t, ty, true)
      && (|c.bytes| < t + 8 ==> DecodeUnionPayload(c, f, dd, off, ty).Err?)
      && (v.version > 0 ==> DecodeUnionPayload(c, f, dd, off, ty).Err?)
  {
    hide SchemaOk, Neat, StructLayout, StructHeader, EncodeFields, Frame, Final, Agree, Holds, DecodeStruct, ReadLE,
      Laying, Blank, NeatFields;
    NeatStruct(ty, v);
    SchemaStruct(ty);
    var size := StructLayout(ty.fields).value.size;
    var s1, r := StructHeader(s, off, size, v.version), EncodeStruct(s, d, off, ty, v).value;
    LF.SizeIsRounded(ty.fields);
    StructHeaderHolds(s, off, size, v.version);
    if |ty.fields| == 0 { LF.EmptyLayout(); assert ty.fields == []; }
    BlankStart(s, off, ty.fields, v.version);
    RoomAtStart(s1, off, ty.fields, v.fields);
    MemberLaying(s1, off, ty, v.fields);
    LaidFrame(s1, d, off, ty, v.fields, 0);
    HeaderDelivered(s1, r, off, size, v.version, c);
    ReadsJoin(c, off, size, v.version);
    var t := off + size + TWO_32 * v.version;
    FinalAgree(c, r.buf, off);
    PointsTo(c, off, size, v.version);
    BeyondMessage(c, f, dd, t, ty);
  }

  lemma MemberLaying(s: Enc, off: nat, ty: Type, vals: seq<Value>)
    requires ty.Struct? && SchemaOk(ty) && StructLayout(ty.fields).Ok? && NeatFields(ty.fields, vals)
    requires off + StructLayout(ty.fields).value.size <= |s.buf| && SpillRoom(s, off, ty.fields, vals, 0)
    ensures Laying(s, off, ty, vals, 0)
  {
  }

  lemma PointsTo(c: Ctx, off: nat, size: nat, version: nat)
    requires ReadLE(c, off, 8) == Ok(size + TWO_32 * version) && size >= 8 && version < TWO_32
    requires off + size <= |c.bytes| < TWO_32
    ensures ReadPointer(c, off) == Ok(Offset(off + size + TWO_32 * version))
  {
    hide ReadLE;
    assert TWO_32 * version <= TWO_32 * (TWO_32 - 1);
  }

  lemma BeyondMessage(c: Ctx, f: nat, dd: nat, off: nat, ty: Type)
    requires ty.Struct?
    ensures |c.bytes| < off + 8 ==> DecodeStruct(c, f, dd, off, ty, true).Err?
  {
    hide StructLayout, DecodeFields;
    if DecodeStruct(c, f, dd, off, ty, true).Ok? { HeaderAccepted(c, f, dd, off, ty, true); }
  }

  /** A nullable scalar member loses its wrapping: the encoder takes only a wrapped value or null,
      and the decoder returns no wrapped one. */
  lemma ScalarMember(s: Enc, d: nat, off: nat, ty: Type, v: Value, c: Ctx, f: nat, dd: nat)
    requires ty.NullableScalar? && EncodeUnionPayload(s, d, off, ty, v).Ok?
    ensures v.NullableScalar? || v.Null?
    ensures v.NullableScalar? ==>
      !(DecodeUnionPayload(c, f, dd, off, ty).Ok? && DecodeUnionPayload(c, f, dd, off, ty).value.0 == v)
  {
    hide DecodeField;
    NeverWrapped(c, f, dd, off, 0, ty);
  }

  lemma {:induction false} NeverWrapped(c: Ctx, f: nat, d: nat, off: nat, bit: nat, ty: Type)
    requires bit < 8
    ensures DecodeField(c, f, d, off, bit, ty).Ok? ==> !DecodeField(c, f, d, off, bit, ty).value.0.NullableScalar?
    decreases ty
  {
    hide DecodeStringAt, DecodeArrayBody, DecodeMapAt, DecodeUnion, DecodeStruct, ReadLE, ReadByte;
    if ty.NullableScalar? {
      NeverWrapped(c, f, d, off, bit, ty.inner);
    } else if !ty.IsInPlace() {
      ObjectKind(c, f, d, off, ty);
    }
  }

  lemma ObjectKind(c: Ctx, f: nat, d: nat, off: nat, ty: Type)
    requires !ty.IsInPlace() && !ty.NullableScalar?
    ensures DecodeObject(c, f, d, off, ty).Ok? ==> !DecodeObject(c, f, d, off, ty).value.0.NullableScalar?
  {
    hide DecodeArrayBody, DecodeUnion, DecodeStruct, DecodeMapAt, DecodeStringAt, ReadLE, ReadPointer;
    KindOfObject(c, f, d, off, ty);
    var ptr := ReadPointer(c, off);
    var t := if ptr.Ok? && ptr.value.Offset? then ptr.value.target else 0;
    KindOfObject(c, f, d, t, ty);
    if ty.Union? {
      UnionIsUnion(c, f, d, off, ty, false);
      UnionIsUnion(c, f, d, t, ty, true);
    }
  }

  /** Objects are read as values of their kind. */
  lemma KindOfObject(c: Ctx, f: nat, d: nat, off: nat, ty: Type)
    ensures ty.Struct? && DecodeStruct(c, f, d, off, ty, false).Ok? ==>
      DecodeStruct(c, f, d, off, ty, false).value.0.Struct?
    ensures ty.Struct? && DecodeStruct(c, f, d, off, ty, true).Ok? ==>
      DecodeStruct(c, f, d, off, ty, true).value.0.Struct?
    ensures DecodeStringAt(c, f, off).Ok? ==> DecodeStringAt(c, f, off).value.0.String?
    ensures ty.Map? && DecodeMapAt(c, f, d, off, ty).Ok? ==> DecodeMapAt(c, f, d, off, ty).value.0.Map?
  {
    hide DecodeArrayBody, DecodeStructHeader, DecodeFields, ReadLE, ReadPointer, StructLayout, ValidUtf8;
  }
}
