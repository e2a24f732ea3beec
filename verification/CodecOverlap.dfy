/** Parts written over one another. A struct in place comes back exactly when the message still
    has what was written for it; and families of messages in which two parts share bytes, each
    with the values for which it comes back all the same. */
module CodecOverlap {
  import opened Results
  import opened Bytes
  import opened Schema
  import opened Pointers
  import opened Encode
  import opened Decode
  import opened EncodeFrame
  import opened Wire
  import opened RoundTrip
  import opened CodecLimits
  import P = Pack
  import L = PackLayout
  import LF = LayoutFacts
  import DS = DecodeSound

  // ---------------------------------------------------------------- one slot

  /** The types whose slot says the value and nothing else. */
  predicate Exact(ty: Type) {
    ty.IsPod() || ty.AssociatedEndpoint?
  }

  lemma {:induction false} LEInverse(s: seq<byte>)
    ensures LE(FromLE(s), |s|) == s
  {
    if |s| > 0 {
      LEInverse(s[1..]);
      FirstByte(s[0], FromLE(s[1..]));
      assert s == [s[0]] + s[1..];
    }
  }

  lemma FirstByte(b: byte, n: nat)
    ensures (b + 256 * n) % 256 == b && (b + 256 * n) / 256 == n
  {
  }

  /** Reading a number back means that the message has its bytes. */
  lemma ReadIsWritten(s: Enc, off: nat, n: nat, k: nat, c: Ctx)
    requires n < Pow256(k)
    ensures ReadLE(c, off, k) == Ok(n) <==> Agree(c.bytes, Put(s, off, n, k).buf, off, off + k)
  {
    var r := Put(s, off, n, k).buf;
    if ReadLE(c, off, k) == Ok(n) {
      LEInverse(c.bytes[off..off + k]);
      assert c.bytes[off..off + k] == LE(n, k) == r[off..off + k];
      forall i | off <= i < off + k ensures c.bytes[i] == r[i] {
        assert c.bytes[off..off + k][i - off] == r[off..off + k][i - off];
      }
    } else if Agree(c.bytes, r, off, off + k) {
      ReadPut(s, off, n, k, c);
    }
  }

  lemma SignedOnce(k: NumKind, u: nat, n: int)
    requires u < Pow256(k.Width()) && k.InRange(n)
    ensures k.FromUnsigned(u) == n <==> u == k.ToUnsigned(n)
  {
    TwosComplement(k, n);
  }

  /** A value comes back from its slot exactly when the message has what was written there. */
  lemma SlotExact(s: Enc, off: nat, bit: nat, ty: Type, v: Value, r: Enc, c: Ctx, room: nat)
    requires bit < 8 && Exact(ty) && Conforms(ty, v, c.handleCount, room, true)
    requires EncodeInPlace(s, off, bit, ty, v) == Ok(r) && off + SlotSize(ty) <= |c.bytes|
    ensures DecodeInPlace(c, off, bit, ty) == Ok(v) <==> SlotAgree(c.bytes, r.buf, off, bit, ty)
  {
    hide Put, PutHandle, Agree, ReadLE, LE, FromLE, Bit, SetBit, Pow256;
    Pow256Values();
    match ty
    case Bool => SetBitExact(s.buf[off], bit, v.b, bit);
    case Num(k) =>
      TwosComplement(k, v.n);
      ReadIsWritten(s, off, k.ToUnsigned(v.n), k.Width(), c);
      if ReadLE(c, off, k.Width()).Ok? {
        DS.ReadBounded(c, off, k.Width());
        SignedOnce(k, ReadLE(c, off, k.Width()).value, v.n);
      }
    case Enum => ReadIsWritten(s, off, v.n % TWO_32, 4, c);
    case Handle => HandleBytes(s, off, v.index, 0); ReadIsWritten(s, off, v.index, 4, c);
    case AssociatedEndpoint => ReadIsWritten(s, off, v.id, 4, c);
  }

  // ---------------------------------------------------------------- a struct in place

  ghost predicate Flat(fields: seq<FieldType>) {
    forall i :: 0 <= i < |fields| ==> Exact(fields[i].ty)
  }

  /** The message has what the buffer has in every in-version slot from packed field `k` on. */
  ghost predicate SlotsIntact(bytes: seq<byte>, buf: seq<byte>, off: nat, fields: seq<FieldType>, version: nat, k: nat)
    requires StructLayout(fields).Ok?
  {
    forall j :: k <= j < |StructLayout(fields).value.packedFields| ==>
      var p := StructLayout(fields).value.packedFields[j]; p.src.minVersion <= version ==> SlotSame(bytes, buf, off, p)
  }

  /** Packed field `k` of a flat struct, and the value that belongs to it. */
  ghost predicate FlatAt(ty: Type, v: Value, k: nat, p: P.PackedField, ft: Type, w: Value, hc: nat, room: nat) {
    && ty.Struct? && v.Struct? && |v.fields| == |ty.fields| && StructLayout(ty.fields).Ok?
    && k < |StructLayout(ty.fields).value.packedFields| && p == StructLayout(ty.fields).value.packedFields[k]
    && p.src.field.index < |ty.fields| && p.bit < 8 && !p.src.field.nullableValueKind
    && ft == ty.fields[p.src.field.index].ty && w == v.fields[p.src.field.index]
    && Exact(ft) && p.Size() == SlotSize(ft) && (p.src.field.kind.Bool? <==> ft.Bool?)
    && (if p.src.minVersion <= v.version then Conforms(ft, w, hc, room, true) else w == DefaultValue(ft))
  }

  lemma FlatFacts(ty: Type, v: Value, hc: nat, room: nat, k: nat)
    requires StructConforms(ty, v, hc, room) && Flat(ty.fields) && k < |StructLayout(ty.fields).value.packedFields|
    ensures var p := StructLayout(ty.fields).value.packedFields[k]; var i := p.src.field.index;
      i < |ty.fields| && i < |v.fields| && FlatAt(ty, v, k, p, ty.fields[i].ty, v.fields[i], hc, room)
      && At(ty, k, p, StructLayout(ty.fields).value.size)
  {
    hide StructLayout, NoOverlap, SizeExpected, Conforms;
    StructIsOk(ty, v, hc, room);
    PackedBound(ty, k);
    var p := StructLayout(ty.fields).value.packedFields[k];
    PackedFacts(ty, v, hc, room, k, p, StructLayout(ty.fields).value.size);
  }

  /** What reading packed field `k` comes to. */
  lemma FlatDecoded(c: Ctx, f: nat, dd: nat, off: nat, ty: Type, v: Value, numBytes: nat, k: nat, x: Filled,
      p: P.PackedField, ft: Type, w: Value, hc: nat, room: nat)
    requires FlatAt(ty, v, k, p, ft, w, hc, room) && |x.scalars| == |ty.fields| && |x.presence| == |ty.fields|
    requires p.src.minVersion <= v.version ==> 8 + p.End() <= numBytes
    ensures var r := DecodePacked(c, f, dd, off, ty, numBytes, v.version, k, x);
      if p.src.minVersion > v.version then r == Ok((x, f))
      else
        var y := DecodeInPlace(c, off + 8 + p.offset, p.bit, ft);
        if y.Ok? then r == Ok((x.(scalars := x.scalars[p.src.field.index := y.value]), f)) else r.Err?
  {
    hide StructLayout, DecodeInPlace, Conforms;
  }

  lemma SlotSameBack(a: seq<byte>, b: seq<byte>, z: seq<byte>, off: nat, p: P.PackedField)
    requires SlotSame(b, z, off, p)
    ensures p.bit < 8 && (SlotSame(a, z, off, p) <==> SlotSame(a, b, off, p))
  {
  }

  lemma SlotIsAgree(a: seq<byte>, b: seq<byte>, off: nat, p: P.PackedField, ty: Type)
    requires p.bit < 8 && (p.src.field.kind.Bool? <==> ty.Bool?) && p.Size() == SlotSize(ty)
    ensures SlotSame(a, b, off, p) <==> SlotAgree(a, b, off + 8 + p.offset, p.bit, ty)
  {
  }

  /** One slot: it is read as the value exactly when the finished message has what the finished
      buffer has there. */
  lemma FlatSlot(s: Enc, d: nat, off: nat, ty: Type, v: Value, k: nat, r: Enc, c: Ctx, hc: nat, room: nat,
      p: P.PackedField, ft: Type, w: Value)
    requires FlatAt(ty, v, k, p, ft, w, hc, room) && At(ty, k, p, StructLayout(ty.fields).value.size)
    requires p.src.minVersion <= v.version && hc == c.handleCount && off + 8 + p.End() <= |c.bytes|
    requires Laying(s, off, ty, v.fields, k) && EncodeFields(s, d, off, ty, v.fields, k) == Ok(r)
    ensures DecodeInPlace(c, off + 8 + p.offset, p.bit, ft) == Ok(w) <==> SlotSame(c.bytes, r.buf, off, p)
  {
    hide StructLayout, DecodeInPlace, EncodeInPlace, Conforms, Laying, SlotSame, SlotAgree, EncodePacked, SlotSize;
    LayingBound(s, off, ty, v.fields, k);
    EncodePackedIs(s, d, off, ty, v.fields, k, p, StructLayout(ty.fields).value.size);
    var s1 := EncodePacked(s, d, off, ty, v.fields, k).value;
    LayingNext(s, d, off, ty, v.fields, k);
    FieldsKeep(s1, d, off, ty, v.fields, k + 1, k);
    SlotSameBack(c.bytes, s1.buf, r.buf, off, p);
    SlotIsAgree(c.bytes, s1.buf, off, p, ft);
    SlotExact(s, off + 8 + p.offset, p.bit, ft, w, s1, c, room);
  }

  lemma {:induction false} FlatForward(s: Enc, d: nat, off: nat, ty: Type, v: Value, k: nat, c: Ctx, f: nat, dd: nat,
      room: nat, x: Filled, numBytes: nat, r: Enc)
    requires StructConforms(ty, v, c.handleCount, room) && Flat(ty.fields) && Laying(s, off, ty, v.fields, k)
    requires EncodeFields(s, d, off, ty, v.fields, k) == Ok(r)
    requires DS.Fits(ty.fields, v.version, numBytes) && off + numBytes <= |c.bytes|
    requires DoneUpTo(ty.fields, v.version, v.fields, x, k)
    requires StructLayout(ty.fields).Ok? && SlotsIntact(c.bytes, r.buf, off, ty.fields, v.version, k)
    ensures |x.scalars| == |x.presence| == |ty.fields|
    ensures k <= |StructLayout(ty.fields).value.packedFields|
    ensures YieldsFilled(DecodeFields(c, f, dd, off, ty, numBytes, v.version, k, x), ty.fields, v.version, v.fields,
      |StructLayout(ty.fields).value.packedFields|, f, f)
    decreases |StructLayout(ty.fields).value.packedFields| - k
  {
    hide StructLayout, Laying, DoneUpTo, StructConforms, Flat, DS.Fits, EncodePacked, DecodePacked, SlotSame, FlatAt,
      At, Frame, DecodeInPlace;
    StructIsOk(ty, v, c.handleCount, room);
    LayingBound(s, off, ty, v.fields, k);
    DoneLengths(ty.fields, v.version, v.fields, x, k);
    if k < |StructLayout(ty.fields).value.packedFields| {
      FlatFacts(ty, v, c.handleCount, room, k);
      var p := StructLayout(ty.fields).value.packedFields[k];
      var i := p.src.field.index;
      DS.FitsAt(ty.fields, v.version, numBytes, k);
      FlatDecoded(c, f, dd, off, ty, v, numBytes, k, x, p, ty.fields[i].ty, v.fields[i], c.handleCount, room);
      FlatDone(ty, v, x, k, p, c.handleCount, room);
      if p.src.minVersion <= v.version {
        FlatSlot(s, d, off, ty, v, k, r, c, c.handleCount, room, p, ty.fields[i].ty, v.fields[i]);
      }
      var x1 := if p.src.minVersion <= v.version then x.(scalars := x.scalars[i := v.fields[i]]) else x;
      LayingNext(s, d, off, ty, v.fields, k);
      FlatForward(EncodePacked(s, d, off, ty, v.fields, k).value, d, off, ty, v, k + 1, c, f, dd, room, x1, numBytes,
        r);
    }
  }

  /** The step from packed field `k` to the next, done either way. */
  lemma FlatDone(ty: Type, v: Value, x: Filled, k: nat, p: P.PackedField, hc: nat, room: nat)
    requires ty.Struct? && v.Struct? && |v.fields| == |ty.fields| && p.src.field.index < |ty.fields|
    requires FlatAt(ty, v, k, p, ty.fields[p.src.field.index].ty, v.fields[p.src.field.index], hc, room)
    requires At(ty, k, p, StructLayout(ty.fields).value.size) && DoneUpTo(ty.fields, v.version, v.fields, x, k)
    ensures |x.scalars| == |ty.fields|
    ensures var i := p.src.field.index;
      DoneUpTo(ty.fields, v.version, v.fields,
        if p.src.minVersion <= v.version then x.(scalars := x.scalars[i := v.fields[i]]) else x, k + 1)
  {
    hide StructLayout, DoneUpTo, Conforms;
    DoneLengths(ty.fields, v.version, v.fields, x, k);
    if p.src.minVersion <= v.version {
      DoneScalar(ty, v.version, v.fields, x, k, p, StructLayout(ty.fields).value.size, v.fields[p.src.field.index]);
    } else {
      DoneSkip(ty, v.version, v.fields, x, k, p, StructLayout(ty.fields).value.size);
    }
  }

  /** A scalar whose packed field lies behind is not written again. */
  lemma {:induction false} ScalarStays(c: Ctx, f: nat, dd: nat, off: nat, ty: Type, numBytes: nat, version: nat, k: nat,
      x: Filled, j: nat)
    requires ty.Struct? && StructLayout(ty.fields).Ok? && j < k <= |StructLayout(ty.fields).value.packedFields|
    requires |x.scalars| == |ty.fields| && |x.presence| == |ty.fields|
    requires DecodeFields(c, f, dd, off, ty, numBytes, version, k, x).Ok?
    ensures var i := StructLayout(ty.fields).value.packedFields[j].src.field.index;
      i < |ty.fields| &&
      (!ty.fields[i].ty.NullableScalar? ==>
        DecodeFields(c, f, dd, off, ty, numBytes, version, k, x).value.0.scalars[i] == x.scalars[i])
    decreases |StructLayout(ty.fields).value.packedFields| - k
  {
    hide StructLayout, DecodeField, ReadByte;
    LF.PackedStands(ty.fields, j);
    if k < |StructLayout(ty.fields).value.packedFields| {
      LF.PackedStands(ty.fields, k);
      LF.IndexOnce(ty.fields, j, k);
      var (x1, f1) := DecodePacked(c, f, dd, off, ty, numBytes, version, k, x).value;
      ScalarStays(c, f1, dd, off, ty, numBytes, version, k + 1, x1, j);
    }
  }

  lemma {:induction false} FlatBackward(s: Enc, d: nat, off: nat, ty: Type, v: Value, k: nat, c: Ctx, f: nat, dd: nat,
      room: nat, x: Filled, numBytes: nat, r: Enc)
    requires StructConforms(ty, v, c.handleCount, room) && Flat(ty.fields) && Laying(s, off, ty, v.fields, k)
    requires EncodeFields(s, d, off, ty, v.fields, k) == Ok(r)
    requires DS.Fits(ty.fields, v.version, numBytes) && off + numBytes <= |c.bytes|
    requires |x.scalars| == |x.presence| == |ty.fields| && k <= |StructLayout(ty.fields).value.packedFields|
    requires DecodeFields(c, f, dd, off, ty, numBytes, v.version, k, x).Ok?
    requires DecodeFields(c, f, dd, off, ty, numBytes, v.version, k, x).value.0.scalars == v.fields
    ensures StructLayout(ty.fields).Ok? && SlotsIntact(c.bytes, r.buf, off, ty.fields, v.version, k)
    decreases |StructLayout(ty.fields).value.packedFields| - k
  {
    hide StructLayout, Laying, StructConforms, Flat, DS.Fits, EncodePacked, DecodePacked, SlotSame, At, Frame,
      DecodeInPlace, Conforms;
    StructIsOk(ty, v, c.handleCount, room);
    LayingBound(s, off, ty, v.fields, k);
    if k < |StructLayout(ty.fields).value.packedFields| {
      FlatFacts(ty, v, c.handleCount, room, k);
      var p := StructLayout(ty.fields).value.packedFields[k];
      var i := p.src.field.index;
      DS.FitsAt(ty.fields, v.version, numBytes, k);
      FlatDecoded(c, f, dd, off, ty, v, numBytes, k, x, p, ty.fields[i].ty, v.fields[i], c.handleCount, room);
      var (x1, f1) := DecodePacked(c, f, dd, off, ty, numBytes, v.version, k, x).value;
      ScalarStays(c, f1, dd, off, ty, numBytes, v.version, k + 1, x1, k);
      if p.src.minVersion <= v.version {
        FlatSlot(s, d, off, ty, v, k, r, c, c.handleCount, room, p, ty.fields[i].ty, v.fields[i]);
      }
      LayingNext(s, d, off, ty, v.fields, k);
      FlatBackward(EncodePacked(s, d, off, ty, v.fields, k).value, d, off, ty, v, k + 1, c, f1, dd, room, x1, numBytes,
        r);
    }
  }

  lemma FlatStart(s: Enc, off: nat, ty: Type, v: Value, hc: nat, room: nat)
    requires StructConforms(ty, v, hc, room) && Flat(ty.fields)
    ensures StructLayout(ty.fields).Ok?
    ensures Laying(StructHeader(s, off, StructLayout(ty.fields).value.size, v.version), off, ty, v.fields, 0)
  {
    hide SchemaOk, StructConforms, StructLayout, StructHeader, Holds, NeatFields, SizeExpected;
    StructIsOk(ty, v, hc, room);
    StructNeat(ty, v, hc, room);
    var size := StructLayout(ty.fields).value.size;
    LF.SizeIsRounded(ty.fields);
    StructHeaderHolds(s, off, size, v.version);
  }

  lemma FlatAssembled(fields: seq<FieldType>, x: Filled)
    requires Flat(fields) && |x.scalars| == |fields| && |x.presence| == |fields|
    ensures Assemble(fields, x) == x.scalars
  {
  }

  /** A struct of numbers, booleans, enums and handles written in place anywhere, over anything,
      comes back exactly when the message still has, in the end, a header of its version and
      what was written in its slots: when nothing later was written over it differently. */
  lemma InPlaceExact(s: Enc, d: nat, off: nat, ty: Type, v: Value, c: Ctx, f: nat, dd: nat, room: nat)
    requires ty.Struct? && v.Struct? && SchemaOk(ty) && Flat(ty.fields) && Conforms(ty, v, c.handleCount, room, true)
    requires EncodeStruct(s, d, off, ty, v).Ok? && dd + room <= c.maxDepth
    ensures StructLayout(ty.fields).Ok?
    ensures var h := DecodeStructHeader(c, f, off, ty.fields, false);
      (DecodeStruct(c, f, dd, off, ty, false) == Ok((v, f))) <==>
      h.Ok? && h.value.1 == v.version
        && SlotsIntact(c.bytes, EncodeStruct(s, d, off, ty, v).value.buf, off, ty.fields, v.version, 0)
  {
    hide SchemaOk, Conforms, StructConforms, StructLayout, StructHeader, EncodeFields, DecodeFields,
      DecodeStructHeader, DoneUpTo, Laying, SlotsIntact, DS.Fits, Flat;
    ConformsToFields(ty, v, c.handleCount, room);
    StructIsOk(ty, v, c.handleCount, room - 1);
    FlatStart(s, off, ty, v, c.handleCount, room - 1);
    var r := EncodeStruct(s, d, off, ty, v).value;
    var s1 := StructHeader(s, off, StructLayout(ty.fields).value.size, v.version);
    var h := DecodeStructHeader(c, f, off, ty.fields, false);
    var start := Filled(Defaults(ty.fields), seq(|ty.fields|, _ => false));
    StructIs(c, f, dd, off, ty, false);
    if h.Ok? {
      DS.HeaderFits(c, f, off, ty.fields, false);
      HeaderRoom(c, f, off, ty.fields);
      var (numBytes, version, f1) := h.value;
      if version == v.version {
        if SlotsIntact(c.bytes, r.buf, off, ty.fields, v.version, 0) {
          DoneNone(ty.fields, v.version, v.fields);
          FlatForward(s1, d, off, ty, v, 0, c, f, dd + 1, room - 1, start, numBytes, r);
          var x := DecodeFields(c, f, dd + 1, off, ty, numBytes, version, 0, start).value.0;
          AssembleDone(ty, v, x, c.handleCount, room - 1);
        } else if DecodeStruct(c, f, dd, off, ty, false) == Ok((v, f)) {
          var x := DecodeFields(c, f, dd + 1, off, ty, numBytes, version, 0, start).value.0;
          FlatAssembled(ty.fields, x);
          FlatBackward(s1, d, off, ty, v, 0, c, f, dd + 1, room - 1, start, numBytes, r);
        }
      }
    }
  }

  /** Decoding a struct is its header, its fields, and their assembly. */
  lemma StructIs(c: Ctx, f: nat, dd: nat, off: nat, ty: Type, claim: bool)
    requires ty.Struct? && StructLayout(ty.fields).Ok?
    ensures var h, start := DecodeStructHeader(c, f, off, ty.fields, claim),
      Filled(Defaults(ty.fields), seq(|ty.fields|, _ => false));
      && (DecodeStruct(c, f, dd, off, ty, claim).Ok? <==>
            dd < c.maxDepth && h.Ok? && DecodeFields(c, h.value.2, dd + 1, off, ty, h.value.0, h.value.1, 0, start).Ok?)
      && (DecodeStruct(c, f, dd, off, ty, claim).Ok? ==>
            var (x, f2) := DecodeFields(c, h.value.2, dd + 1, off, ty, h.value.0, h.value.1, 0, start).value;
            DecodeStruct(c, f, dd, off, ty, claim) == Ok((Value.Struct(h.value.1, Assemble(ty.fields, x)), f2)))
  {
    hide StructLayout, DecodeFields, DecodeStructHeader, Assemble;
  }

  lemma HeaderRoom(c: Ctx, f: nat, off: nat, fields: seq<FieldType>)
    requires DecodeStructHeader(c, f, off, fields, false).Ok?
    ensures off + DecodeStructHeader(c, f, off, fields, false).value.0 <= |c.bytes|
    ensures DecodeStructHeader(c, f, off, fields, false).value.2 == f
  {
    hide StructLayout, ReadLE, MaxVersion, P.NumBytesForVersion;
  }

  /** The same of a union of such a value, inlined anywhere, over anything: it comes back exactly
      when the message still has its tag and what was written in its payload. */
  lemma InlinedExact(s: Enc, d: nat, off: nat, ty: Type, tag: nat, w: Value, c: Ctx, f: nat, dd: nat, room: nat)
    requires ty.Union? && tag < |ty.members| && Exact(ty.members[tag])
    requires Conforms(ty.members[tag], w, c.handleCount, room, true)
    requires EncodeUnion(s, d, off, ty, tag, w).Ok? && off + 16 <= |c.bytes|
    ensures (DecodeUnion(c, f, dd, off, ty, false) == Ok((Value.Union(tag, w), f))) <==>
      ReadLE(c, off + 4, 4) == Ok(tag)
        && SlotAgree(c.bytes, EncodeUnion(s, d, off, ty, tag, w).value.buf, off + 8, 0, ty.members[tag])
  {
    hide UnionHeader, SlotAgree, EncodeInPlace, DecodeInPlace, Conforms, ReadLE;
    var m, s1 := ty.members[tag], UnionHeader(s, off, tag);
    InPlaceSlot(m);
    ExactPayload(s1, d, off + 8, m, w, c, f, dd);
    SlotExact(s1, off + 8, 0, m, w, EncodeInPlace(s1, off + 8, 0, m, w).value, c, room);
    SizeReadable(c, off);
  }

  lemma ExactPayload(s: Enc, d: nat, off: nat, ty: Type, w: Value, c: Ctx, f: nat, dd: nat)
    requires Exact(ty)
    ensures EncodeUnionPayload(s, d, off, ty, w) == EncodeInPlace(s, off, 0, ty, w)
    ensures var y := DecodeInPlace(c, off, 0, ty);
      DecodeUnionPayload(c, f, dd, off, ty) == if y.Ok? then Ok((y.value, f)) else Err(y.error)
  {
    hide EncodeInPlace, DecodeInPlace;
  }

  lemma SizeReadable(c: Ctx, off: nat)
    requires off + 16 <= |c.bytes|
    ensures ReadLE(c, off, 4).Ok? && ReadLE(c, off + 4, 4).Ok?
  {
  }

  // ---------------------------------------------------------------- structs of two fields

  function Pair(a: Type, b: Type): Type {
    Type.Struct([FieldType(a, None), FieldType(b, None)], 0, false)
  }

  /** `p` is the packed field of field `i`, of type `ty`, at `offset`. */
  predicate Part(p: P.PackedField, i: nat, ty: Type, offset: nat) {
    && p.src.field.index == i && p.src.field.kind == ty.PackKind() && !p.src.field.nullableValueKind
    && p.src.minVersion == 0 && p.offset == offset && p.bit == 0
  }

  /** A first field that fills whole words is followed at once by the second. */
  ghost predicate Words(a: Type, b: Type) {
    && !a.NullableScalar? && !b.NullableScalar? && !a.PackKind().Bool? && !b.PackKind().Bool?
    && a.PackKind().Size() % 8 == 0
  }

  lemma OneExpanded(a: P.Field)
    requires !a.nullableValueKind
    ensures P.Expand([a]) == [P.Source(a, 0, None, 0)]
  {
    assert [a][..0] == [];
    assert P.Expand([a][..0]) == [];
  }

  lemma PairExpanded(a: P.Field, b: P.Field)
    requires !a.nullableValueKind && !b.nullableValueKind
    ensures P.Expand([a, b]) == [P.Source(a, 0, None, 0), P.Source(b, 1, None, 0)]
  {
    OneExpanded(a);
    assert [a, b][..1] == [a];
  }

  lemma PairPlaced(s0: P.Source, s1: P.Source)
    requires !s0.field.kind.Bool? && !s1.field.kind.Bool? && s0.field.kind.Size() % 8 == 0
    ensures P.PlaceAll([s0, s1]) == [P.PackedField(s0, 0, 0), P.PackedField(s1, s0.field.kind.Size(), 0)]
    ensures P.TotalSize(P.PlaceAll([s0, s1])) ==
      8 + s0.field.kind.Size() + (if s1.field.kind.Size() == 16 then 16 else 8)
  {
    var x := P.PackedField(s0, 0, 0);
    assert [s0, s1][..1] == [s0] && [s0][..0] == [];
    assert P.PlaceAll([s0]) == [x];
    assert P.Pad(s0.field.kind.Size(), s1.field.kind.Alignment()) == 0;
    assert P.PlaceFrom([x], s1, 1) == [x, P.PackedField(s1, s0.field.kind.Size(), 0)];
  }

  function PairField(i: nat, ty: Type): P.Field {
    P.Field(i, None, ty.PackKind(), false, ty.IsNullable())
  }

  lemma PairInput(a: Type, b: Type)
    requires Words(a, b)
    ensures PackInput(Pair(a, b).fields) == [PairField(0, a), PairField(1, b)]
    ensures L.Accepted(PackInput(Pair(a, b).fields))
  {
  }

  lemma PairLayout(a: Type, b: Type)
    requires Words(a, b)
    ensures var fields := Pair(a, b).fields;
      && StructLayout(fields).Ok? && MaxVersion(fields) == 0
      && |StructLayout(fields).value.packedFields| == 2
      && Part(StructLayout(fields).value.packedFields[0], 0, a, 0)
      && Part(StructLayout(fields).value.packedFields[1], 1, b, a.PackKind().Size())
      && StructLayout(fields).value.size == 8 + a.PackKind().Size() + (if b.PackKind().Size() == 16 then 16 else 8)
  {
    hide P.PackFields, P.Expand, P.PlaceAll, L.Laid, Type.PackKind, PackInput, L.Accepted, Type.IsNullable,
      MaxVersion, P.Kind.IsReference, P.Kind.Alignment, P.TotalSize, P.Kind.Size;
    var fields := Pair(a, b).fields;
    var input := PackInput(fields);
    PairInput(a, b);
    L.PackIsLayout(input);
    PairExpanded(PairField(0, a), PairField(1, b));
    var s0, s1 := P.Source(PairField(0, a), 0, None, 0), P.Source(PairField(1, b), 1, None, 0);
    assert L.Ordered(input) == [s0, s1];
    PairPlaced(s0, s1);
    PairVersions(fields);
  }

  lemma PairVersions(fields: seq<FieldType>)
    requires |fields| == 2 && fields[0].minVersion == None && fields[1].minVersion == None
    ensures MaxVersion(fields) == 0
  {
    assert MaxVersion(fields[..1]) == 0 by {
      assert MaxVersion(fields[..1][..0]) == 0;
    }
  }

  /** Encoding the two fields, one after the other. */
  lemma PairEncodes(s: Enc, d: nat, off: nat, a: Type, b: Type, x: Value, y: Value)
    requires Words(a, b)
    ensures StructLayout(Pair(a, b).fields).Ok?
    ensures var r0 := EncodeField(s, d, off + 8, 0, a, x);
      EncodeFields(s, d, off, Pair(a, b), [x, y], 0) ==
        if r0.Ok? then EncodeField(r0.value, d, off + 8 + a.PackKind().Size(), 0, b, y) else r0
  {
    hide StructLayout, EncodeField;
    PairLayout(a, b);
    var ty := Pair(a, b);
    var r0 := EncodeField(s, d, off + 8, 0, a, x);
    assert EncodePacked(s, d, off, ty, [x, y], 0) == r0;
    if r0.Ok? {
      assert EncodePacked(r0.value, d, off, ty, [x, y], 1) ==
        EncodeField(r0.value, d, off + 8 + a.PackKind().Size(), 0, b, y);
      LastField(r0.value, d, off, ty, [x, y], 1);
    }
  }

  lemma LastField(s: Enc, d: nat, off: nat, ty: Type, vals: seq<Value>, k: nat)
    requires ty.Struct? && StructLayout(ty.fields).Ok? && k + 1 == |StructLayout(ty.fields).value.packedFields|
    ensures EncodeFields(s, d, off, ty, vals, k) == EncodePacked(s, d, off, ty, vals, k)
  {
    hide StructLayout, EncodePacked;
    var r := EncodePacked(s, d, off, ty, vals, k);
    if r.Ok? { assert EncodeFields(r.value, d, off, ty, vals, k + 1) == r; }
  }

  /** Decoding the two fields, one after the other, once the header is accepted. */
  lemma PairDecodes(c: Ctx, f: nat, dd: nat, off: nat, a: Type, b: Type, version: nat, x: Value, y: Value)
    requires Words(a, b) && dd < c.maxDepth && f <= off
    requires StructLayout(Pair(a, b).fields).Ok?
    requires var size := StructLayout(Pair(a, b).fields).value.size;
      ReadLE(c, off, 4) == Ok(size) && ReadLE(c, off + 4, 4) == Ok(version) && off + size <= |c.bytes|
    ensures var r0 := DecodeField(c, off + StructLayout(Pair(a, b).fields).value.size, dd + 1, off + 8, 0, a);
      ComesBack(c, f, dd, off, Pair(a, b), Value.Struct(version, [x, y])) <==>
        && r0.Ok? && r0.value.0 == x
        && var r1 := DecodeField(c, r0.value.1, dd + 1, off + 8 + a.PackKind().Size(), 0, b); r1.Ok? && r1.value.0 == y
  {
    hide StructLayout, DecodeField, DecodeStruct, DecodeStructHeader, ReadLE, DefaultValue;
    PairLayout(a, b);
    var ty := Pair(a, b);
    var size := StructLayout(ty.fields).value.size;
    RtHeader(c, f, off, ty.fields, version, true);
    StructIs(c, f, dd, off, ty, true);
    var start := Filled(Defaults(ty.fields), seq(|ty.fields|, _ => false));
    var f1 := off + size;
    var r0 := DecodeField(c, f1, dd + 1, off + 8, 0, a);
    var p0 := DecodePacked(c, f1, dd + 1, off, ty, size, version, 0, start);
    if r0.Ok? {
      var x0 := start.(scalars := start.scalars[0 := r0.value.0]);
      assert p0 == Ok((x0, r0.value.1));
      var r1 := DecodeField(c, r0.value.1, dd + 1, off + 8 + a.PackKind().Size(), 0, b);
      var p1 := DecodePacked(c, r0.value.1, dd + 1, off, ty, size, version, 1, x0);
      if r1.Ok? {
        var x1 := x0.(scalars := x0.scalars[1 := r1.value.0]);
        assert p1 == Ok((x1, r1.value.1));
        assert DecodeFields(c, r1.value.1, dd + 1, off, ty, size, version, 2, x1) == Ok((x1, r1.value.1));
        assert DecodeFields(c, r0.value.1, dd + 1, off, ty, size, version, 1, x0) == Ok((x1, r1.value.1));
        assert DecodeFields(c, f1, dd + 1, off, ty, size, version, 0, start) == Ok((x1, r1.value.1));
        assert Assemble(ty.fields, x1)[0] == r0.value.0 && Assemble(ty.fields, x1)[1] == r1.value.0;
        assert Assemble(ty.fields, x1) == [r0.value.0, r1.value.0];
      } else {
        assert p1.Err?;
      }
    } else {
      assert p0.Err?;
    }
  }

  // ---------------------------------------------------------------- structs of one field

  function Single(a: Type): Type {
    Type.Struct([FieldType(a, None)], 0, false)
  }

  lemma SingleLayout(a: Type)
    requires !a.NullableScalar?
    ensures var fields := Single(a).fields;
      && StructLayout(fields).Ok? && MaxVersion(fields) == 0
      && |StructLayout(fields).value.packedFields| == 1 && Part(StructLayout(fields).value.packedFields[0], 0, a, 0)
      && StructLayout(fields).value.size == 8 + (if a.PackKind().Size() == 16 then 16 else 8)
  {
    hide P.PackFields, P.Expand, P.PlaceAll, L.Laid;
    var fields := Single(a).fields;
    var input := PackInput(fields);
    assert input == [PairField(0, a)] && L.Accepted(input);
    L.PackIsLayout(input);
    OneExpanded(PairField(0, a));
    var s0 := P.Source(PairField(0, a), 0, None, 0);
    assert L.Ordered(input) == [s0];
    OnePlaced(s0);
    assert fields[..0] == [] && MaxVersion(fields[..0]) == 0;
  }

  lemma OnePlaced(s0: P.Source)
    ensures P.PlaceAll([s0]) == [P.PackedField(s0, 0, 0)]
  {
    assert [s0][..0] == [];
    assert P.PlaceAll([s0][..0]) == [];
  }

  lemma SingleEncodes(s: Enc, d: nat, off: nat, a: Type, x: Value)
    requires !a.NullableScalar?
    ensures StructLayout(Single(a).fields).Ok?
    ensures EncodeFields(s, d, off, Single(a), [x], 0) == EncodeField(s, d, off + 8, 0, a, x)
  {
    hide StructLayout, EncodeField;
    SingleLayout(a);
    assert EncodePacked(s, d, off, Single(a), [x], 0) == EncodeField(s, d, off + 8, 0, a, x);
    LastField(s, d, off, Single(a), [x], 0);
  }

  /** A struct of one field, once its header is accepted, is what the field is. */
  lemma SingleDecodes(c: Ctx, f: nat, dd: nat, off: nat, a: Type, version: nat, claim: bool)
    requires !a.NullableScalar? && dd < c.maxDepth && (claim ==> f <= off)
    requires StructLayout(Single(a).fields).Ok?
    requires var size := StructLayout(Single(a).fields).value.size;
      ReadLE(c, off, 4) == Ok(size) && ReadLE(c, off + 4, 4) == Ok(version) && off + size <= |c.bytes|
    ensures var f1 := if claim then off + StructLayout(Single(a).fields).value.size else f;
      var r := DecodeField(c, f1, dd + 1, off + 8, 0, a);
      if r.Ok? then DecodeStruct(c, f, dd, off, Single(a), claim) == Ok((Value.Struct(version, [r.value.0]), r.value.1))
      else DecodeStruct(c, f, dd, off, Single(a), claim).Err?
  {
    hide StructLayout, DecodeField, DecodeStruct, DecodeStructHeader, ReadLE, DefaultValue;
    SingleLayout(a);
    var ty := Single(a);
    var size := StructLayout(ty.fields).value.size;
    RtHeader(c, f, off, ty.fields, version, claim);
    StructIs(c, f, dd, off, ty, claim);
    var start := Filled(Defaults(ty.fields), seq(|ty.fields|, _ => false));
    var f1 := if claim then off + size else f;
    var r := DecodeField(c, f1, dd + 1, off + 8, 0, a);
    var p := DecodePacked(c, f1, dd + 1, off, ty, size, version, 0, start);
    if r.Ok? {
      var x1 := start.(scalars := start.scalars[0 := r.value.0]);
      assert p == Ok((x1, r.value.1));
      assert DecodeFields(c, r.value.1, dd + 1, off, ty, size, version, 1, x1) == Ok((x1, r.value.1));
      assert DecodeFields(c, f1, dd + 1, off, ty, size, version, 0, start) == Ok((x1, r.value.1));
      assert Assemble(ty.fields, x1)[0] == r.value.0;
      assert Assemble(ty.fields, x1) == [r.value.0];
    } else {
      assert p.Err?;
    }
  }

  // ---------------------------------------------------------------- a number over a number

  lemma {:induction false} LEPrefix(n: nat, k: nat, m: nat)
    requires m <= k
    ensures LE(n, k)[..m] == LE(n, m)
  {
    if m > 0 {
      LEPrefix(n / 256, k - 1, m - 1);
      assert LE(n, k)[..m] == [n % 256] + LE(n / 256, k - 1)[..m - 1];
    }
  }

  lemma SameBytes(a: nat, b: nat, m: nat)
    ensures LE(a, m) == LE(b, m) <==> a % Pow256(m) == b % Pow256(m)
  {
    FromLERound(a, m);
    FromLERound(b, m);
    LEInverse(LE(a, m));
    LEInverse(LE(b, m));
  }

  /** The low bytes two numbers share when one is written over the other. */
  predicate Coincide(ka: NumKind, a: int, kb: NumKind, b: int) {
    var m := Min(ka.Width(), kb.Width());
    ka.ToUnsigned(a) % Pow256(m) == kb.ToUnsigned(b) % Pow256(m)
  }

  lemma OverBytes(s: Enc, off: nat, a: nat, ka: nat, b: nat, kb: nat)
    requires Holds(s.buf, off, a, ka)
    ensures var r := Put(s, off, b, kb).buf; var m := Min(ka, kb);
      off + ka <= |r| && r[off..off + ka] == LE(b, m) + LE(a, ka)[m..]
  {
    hide LE;
    var r, m := Put(s, off, b, kb).buf, Min(ka, kb);
    LEPrefix(b, kb, m);
    forall i | 0 <= i < ka ensures r[off + i] == (LE(b, m) + LE(a, ka)[m..])[i] {
      if i < m {
        assert r[off + i] == r[off..off + kb][i];
        assert LE(b, m)[i] == LE(b, kb)[..m][i] == LE(b, kb)[i];
      } else {
        assert r[off + i] == s.buf[off + i] == s.buf[off..off + ka][i];
      }
    }
    assert |LE(b, m) + LE(a, ka)[m..]| == ka;
  }

  lemma ReadsBytes(c: Ctx, off: nat, a: nat, k: nat)
    requires a < Pow256(k) && off + k <= |c.bytes|
    ensures ReadLE(c, off, k) == Ok(a) <==> c.bytes[off..off + k] == LE(a, k)
  {
    hide LE, FromLE, Pow256;
    var w := c.bytes[off..off + k];
    assert |w| == k && ReadLE(c, off, k) == Ok(FromLE(w));
    LEInverse(w);
    FromLERound(a, k);
  }

  /** Overwritten by another number, a number is read back exactly when the two share their low
      bytes. */
  lemma Overwritten(s: Enc, off: nat, a: nat, ka: nat, b: nat, kb: nat, c: Ctx)
    requires Holds(s.buf, off, a, ka) && a < Pow256(ka)
    requires Agree(c.bytes, Put(s, off, b, kb).buf, off, off + ka)
    ensures var m := Min(ka, kb); ReadLE(c, off, ka) == Ok(a) <==> a % Pow256(m) == b % Pow256(m)
  {
    hide LE, ReadLE, Put, Pow256, Holds;
    var m, r := Min(ka, kb), Put(s, off, b, kb).buf;
    OverBytes(s, off, a, ka, b, kb);
    AgreeSlice(c.bytes, r, off, off + ka, off, off + ka);
    ReadsBytes(c, off, a, ka);
    LEPrefix(a, ka, m);
    SameBytes(a, b, m);
    assert LE(a, ka) == LE(a, ka)[..m] + LE(a, ka)[m..];
    if r[off..off + ka] == LE(a, ka) {
      assert r[off..off + ka][..m] == LE(b, m);
    }
  }

  lemma NumberSlot(c: Ctx, f: nat, dd: nat, at: nat, k: NumKind, n: int)
    requires k.InRange(n)
    ensures var r := DecodeField(c, f, dd, at, 0, Type.Num(k));
      (r.Ok? && r.value.0 == Value.Num(k, n) <==> ReadLE(c, at, k.Width()) == Ok(k.ToUnsigned(n)))
      && (r.Ok? ==> r.value.1 == f)
  {
    hide ReadLE, Pow256;
    if ReadLE(c, at, k.Width()).Ok? {
      DS.ReadBounded(c, at, k.Width());
      SignedOnce(k, ReadLE(c, at, k.Width()).value, n);
    }
    TwosComplement(k, n);
  }

  /** A struct of one number in place, and a number behind it. */
  function StructThenNumber(ka: NumKind, kb: NumKind): Type {
    Pair(Single(Type.Num(ka)), Type.Num(kb))
  }

  /** Where the slots of these messages lie. */
  lemma StructThenNumberLayout(ka: NumKind, kb: NumKind)
    ensures var a, b := Single(Type.Num(ka)), Type.Num(kb);
      && Words(a, b) && a.PackKind().Size() == 8
      && StructLayout(Pair(a, b).fields).Ok? && StructLayout(Pair(a, b).fields).value.size == 24
      && StructLayout(a.fields).Ok? && StructLayout(a.fields).value.size == 16
  {
    hide StructLayout, MaxVersion, Part;
    PairLayout(Single(Type.Num(ka)), Type.Num(kb));
    SingleLayout(Type.Num(ka));
  }

  /** Both headers, and the inner number where the outer one will go. */
  ghost predicate NumberPlaced(buf: seq<byte>, off: nat, version: nat, inner: nat, a: nat, w: nat) {
    && |buf| == off + 24 && Holds(buf, off, 24, 4) && Holds(buf, off + 4, version, 4)
    && Holds(buf, off + 8, 16, 4) && Holds(buf, off + 12, inner, 4) && Holds(buf, off + 16, a, w)
  }

  lemma NumberStep(s: Enc, off: nat, version: nat, inner: nat, a: nat, w: nat)
    requires off == |s.buf| && w <= 8
    ensures var r0 := Put(StructHeader(StructHeader(s, off, 24, version), off + 8, 16, inner), off + 16, a, w);
      NumberPlaced(r0.buf, off, version, inner, a, w) && s.buf <= r0.buf
  {
    hide StructHeader, Holds, Frame, Put;
    var s1 := StructHeader(s, off, 24, version);
    StructHeaderHolds(s, off, 24, version);
    StructHeaderFrames(s, off, 24, version);
    PrefixThrough(s.buf, s.buf, s1.buf, off, off + 8);
    var s2 := StructHeader(s1, off + 8, 16, inner);
    StructHeaderHolds(s1, off + 8, 16, inner);
    StructHeaderFrames(s1, off + 8, 16, inner);
    KeptBefore(s1.buf, s2.buf, off + 8, off + 16, off, 24, version);
    PrefixThrough(s.buf, s1.buf, s2.buf, off + 8, off + 16);
    var r0 := Put(s2, off + 16, a, w);
    PutHolds(s2, off + 16, a, w);
    PutFrames(s2, off + 16, a, w);
    PutLength(s2, off + 16, a, w);
    PrefixThrough(s.buf, s2.buf, r0.buf, off + 16, off + 16 + w);
    KeptBefore(s2.buf, r0.buf, off + 16, off + 16 + w, off, 24, version);
    KeptBefore(s2.buf, r0.buf, off + 16, off + 16 + w, off + 8, 16, inner);
  }

  lemma PrefixThrough(a: seq<byte>, b: seq<byte>, c: seq<byte>, lo: nat, hi: nat)
    requires a <= b && Frame(b, c, lo, hi) && |a| <= lo
    ensures a <= c
  {
  }

  /** The encoder's bytes: in the second slot, the inner number with the outer one over it. */
  lemma StructThenNumberBytes(s: Enc, d: nat, off: nat, ka: NumKind, a: int, kb: NumKind, b: int, version: nat,
      inner: nat)
    returns (r0: Enc)
    requires off == |s.buf|
    ensures var v := Value.Struct(version, [Value.Struct(inner, [Value.Num(ka, a)]), Value.Num(kb, b)]);
      EncodeStruct(s, d, off, StructThenNumber(ka, kb), v) == Ok(Put(r0, off + 16, kb.ToUnsigned(b), kb.Width()))
    ensures NumberPlaced(r0.buf, off, version, inner, ka.ToUnsigned(a), ka.Width()) && s.buf <= r0.buf
  {
    hide StructLayout, StructHeader, Put, EncodeField, EncodeFields, NumKind.ToUnsigned, NumberPlaced, Type.PackKind,
      P.Kind.Size, Words, MaxVersion;
    var x, y := Value.Struct(inner, [Value.Num(ka, a)]), Value.Num(kb, b);
    StructThenNumberLayout(ka, kb);
    var s1 := StructHeader(s, off, 24, version);
    var s2 := StructHeader(s1, off + 8, 16, inner);
    NumberStep(s, off, version, inner, ka.ToUnsigned(a), ka.Width());
    r0 := Put(s2, off + 16, ka.ToUnsigned(a), ka.Width());
    PairEncodes(s1, d, off, Single(Type.Num(ka)), Type.Num(kb), x, y);
    InPlaceEncodes(s1, d, off + 8, Type.Num(ka), inner, Value.Num(ka, a));
    NumberEncodes(s2, d, off + 16, ka, a);
    NumberEncodes(r0, d, off + 16, kb, b);
  }

  lemma KeptBefore(a: seq<byte>, b: seq<byte>, lo: nat, hi: nat, off: nat, x: nat, y: nat)
    requires Holds(a, off, x, 4) && Holds(a, off + 4, y, 4) && Frame(a, b, lo, hi) && off + 8 <= lo
    ensures Holds(b, off, x, 4) && Holds(b, off + 4, y, 4)
  {
    hide Holds, Frame;
    HoldsThrough(a, b, off, x, 4, lo, hi);
    HoldsThrough(a, b, off + 4, y, 4, lo, hi);
  }

  lemma NumberEncodes(s: Enc, d: nat, off: nat, k: NumKind, n: int)
    ensures EncodeField(s, d, off, 0, Type.Num(k), Value.Num(k, n)) == Ok(Put(s, off, k.ToUnsigned(n), k.Width()))
  {
    hide Put, NumKind.ToUnsigned;
  }

  /** A struct of one field in place: its header, and the field behind it. */
  lemma InPlaceEncodes(s: Enc, d: nat, off: nat, a: Type, version: nat, x: Value)
    requires !a.NullableScalar?
    ensures StructLayout(Single(a).fields).Ok?
    ensures EncodeField(s, d, off, 0, Single(a), Value.Struct(version, [x])) ==
      EncodeField(StructHeader(s, off, StructLayout(Single(a).fields).value.size, version), d, off + 8, 0, a, x)
  {
    hide StructLayout, StructHeader;
    SingleLayout(a);
    SingleEncodes(StructHeader(s, off, StructLayout(Single(a).fields).value.size, version), d, off, a, x);
    hide EncodeFields;
    assert EncodeField(s, d, off, 0, Single(a), Value.Struct(version, [x]))
      == EncodeStruct(s, d, off, Single(a), Value.Struct(version, [x]));
  }

  lemma StructThenNumberReads(r0: Enc, off: nat, ka: NumKind, a: int, kb: NumKind, b: int, version: nat, inner: nat,
      c: Ctx)
    requires ka.InRange(a) && kb.InRange(b) && version < TWO_32 && inner < TWO_32
    requires NumberPlaced(r0.buf, off, version, inner, ka.ToUnsigned(a), ka.Width())
    requires Final(c, Put(r0, off + 16, kb.ToUnsigned(b), kb.Width()).buf, off)
    ensures ReadLE(c, off, 4) == Ok(24) && ReadLE(c, off + 4, 4) == Ok(version) && off + 24 <= |c.bytes|
    ensures ReadLE(c, off + 8, 4) == Ok(16) && ReadLE(c, off + 12, 4) == Ok(inner)
    ensures ReadLE(c, off + 16, ka.Width()) == Ok(ka.ToUnsigned(a)) <==> Coincide(ka, a, kb, b)
    ensures ReadLE(c, off + 16, kb.Width()) == Ok(kb.ToUnsigned(b))
  {
    hide Holds, Frame, Put, ReadLE, NumKind.ToUnsigned, Pow256, Agree, Final;
    var ua, ub := ka.ToUnsigned(a), kb.ToUnsigned(b);
    TwosComplement(ka, a);
    TwosComplement(kb, b);
    var r := Put(r0, off + 16, ub, kb.Width());
    PutLength(r0, off + 16, ub, kb.Width());
    PutFrames(r0, off + 16, ub, kb.Width());
    FinalAgree(c, r.buf, off);
    AgreePart(c.bytes, r.buf, off, |r.buf|, off, off + 8);
    AgreePart(c.bytes, r.buf, off, |r.buf|, off + 8, off + 16);
    AgreePart(c.bytes, r.buf, off, |r.buf|, off + 16, off + 16 + ka.Width());
    AgreePart(c.bytes, r.buf, off, |r.buf|, off + 16, off + 16 + kb.Width());
    HeaderRead(c, r0.buf, r.buf, off, 24, version, off + 16, off + 16 + kb.Width());
    HeaderRead(c, r0.buf, r.buf, off + 8, 16, inner, off + 16, off + 16 + kb.Width());
    Overwritten(r0, off + 16, ua, ka.Width(), ub, kb.Width(), c);
    ReadPut(r0, off + 16, ub, kb.Width(), c);
  }

  /** A struct of one number in place with a number field behind it: the number is written over
      the struct's, and the message comes back exactly when the two share their low bytes. */
  lemma StructThenNumberBack(s: Enc, d: nat, ka: NumKind, a: int, kb: NumKind, b: int, version: nat, inner: nat,
      c: Ctx, f: nat, dd: nat)
    requires var v := Value.Struct(version, [Value.Struct(inner, [Value.Num(ka, a)]), Value.Num(kb, b)]);
      Sent(s, d, StructThenNumber(ka, kb), v, c)
    requires ka.InRange(a) && kb.InRange(b) && version < TWO_32 && inner < TWO_32
    requires f <= |s.buf| && dd + 2 <= c.maxDepth
    ensures var v := Value.Struct(version, [Value.Struct(inner, [Value.Num(ka, a)]), Value.Num(kb, b)]);
      ComesBack(c, f, dd, |s.buf|, StructThenNumber(ka, kb), v) <==> Coincide(ka, a, kb, b)
  {
    hide StructLayout, Put, EncodeStruct, DecodeStruct, DecodeField, ReadLE, NumKind.ToUnsigned, NumKind.InRange,
      Final, ComesBack, Coincide, MaxVersion, NumberPlaced, Type.PackKind, P.Kind.Size, Words;
    var off := |s.buf|;
    var x, y := Value.Struct(inner, [Value.Num(ka, a)]), Value.Num(kb, b);
    var r0 := StructThenNumberBytes(s, d, off, ka, a, kb, b, version, inner);
    StructThenNumberReads(r0, off, ka, a, kb, b, version, inner, c);
    StructThenNumberLayout(ka, kb);
    PairDecodes(c, f, dd, off, Single(Type.Num(ka)), Type.Num(kb), version, x, y);
    SingleDecodes(c, off + 24, dd + 1, off + 8, Type.Num(ka), inner, false);
    InPlaceDecodes(c, off + 24, dd + 1, off + 8, Type.Num(ka));
    NumberSlot(c, off + 24, dd + 2, off + 16, ka, a);
    NumberSlot(c, off + 24, dd + 1, off + 16, kb, b);
  }

  lemma InPlaceDecodes(c: Ctx, f: nat, dd: nat, off: nat, a: Type)
    ensures DecodeField(c, f, dd, off, 0, Single(a)) == DecodeStruct(c, f, dd, off, Single(a), false)
  {
    hide DecodeStruct;
    assert DecodeField(c, f, dd, off, 0, Single(a)) == DecodeObject(c, f, dd, off, Single(a));
  }

  // ---------------------------------------------------------------- a union within a union

  function Inlined(member: Type): Type {
    Type.Union([member], false, true)
  }

  /** A union inlined in the payload of an inlined union, and a number behind them. */
  function UnionThenNumber(ka: NumKind, kb: NumKind): Type {
    Pair(Inlined(Inlined(Type.Num(ka))), Type.Num(kb))
  }

  lemma InlinedEncodes(s: Enc, d: nat, off: nat, m: Type, x: Value)
    requires m.Num? || (m.Union? && m.inlined)
    ensures EncodeField(s, d, off, 0, Inlined(m), Value.Union(0, x)) ==
      EncodeField(UnionHeader(s, off, 0), d, off + 8, 0, m, x)
  {
    hide UnionHeader;
    InlinedField(s, d, off, Inlined(m), Value.Union(0, x));
    hide EncodeField;
    assert EncodeUnionPayload(UnionHeader(s, off, 0), d, off + 8, m, x) ==
      EncodeField(UnionHeader(s, off, 0), d, off + 8, 0, m, x);
  }

  lemma InlinedDecodes(c: Ctx, f: nat, dd: nat, off: nat, m: Type)
    requires m.Num? || (m.Union? && m.inlined)
    requires ReadLE(c, off, 4).Ok? && ReadLE(c, off + 4, 4) == Ok(0)
    ensures var r := DecodeField(c, f, dd, off + 8, 0, m);
      DecodeField(c, f, dd, off, 0, Inlined(m)) == if r.Ok? then Ok((Value.Union(0, r.value.0), r.value.1)) else r
  {
    hide DecodeField, ReadLE;
    ReadInside(c, off + 4, 4);
    assert DecodeUnionPayload(c, f, dd, off + 8, m) == DecodeField(c, f, dd, off + 8, 0, m);
    InlinedDecode(c, f, dd, off, Inlined(m));
  }

  lemma ReadInside(c: Ctx, off: nat, k: nat)
    requires ReadLE(c, off, k).Ok?
    ensures off + k <= |c.bytes|
  {
  }

  lemma UnionThenNumberBytes(s: Enc, d: nat, off: nat, ka: NumKind, a: int, kb: NumKind, b: int, version: nat)
    returns (r0: Enc)
    requires off == |s.buf|
    ensures var v := Value.Struct(version, [Value.Union(0, Value.Union(0, Value.Num(ka, a))), Value.Num(kb, b)]);
      EncodeStruct(s, d, off, UnionThenNumber(ka, kb), v) == Ok(Put(r0, off + 24, kb.ToUnsigned(b), kb.Width()))
    ensures |r0.buf| == off + 32
    ensures Holds(r0.buf, off, 32, 4) && Holds(r0.buf, off + 4, version, 4)
    ensures Holds(r0.buf, off + 8, 16, 4) && Holds(r0.buf, off + 12, 0, 4)
    ensures Holds(r0.buf, off + 16, 16, 4) && Holds(r0.buf, off + 20, 0, 4)
    ensures Holds(r0.buf, off + 24, ka.ToUnsigned(a), ka.Width())
  {
    hide StructLayout, StructHeader, UnionHeader, Holds, Frame, Put, EncodeField, EncodeFields, NumKind.ToUnsigned;
    var x, y := Value.Union(0, Value.Union(0, Value.Num(ka, a))), Value.Num(kb, b);
    PairLayout(Inlined(Inlined(Type.Num(ka))), Type.Num(kb));
    var s1 := StructHeader(s, off, 32, version);
    StructHeaderHolds(s, off, 32, version);
    var s2 := UnionHeader(s1, off + 8, 0);
    UnionHeaderHolds(s1, off + 8, 0);
    UnionHeaderFrames(s1, off + 8, 0);
    KeptBefore(s1.buf, s2.buf, off + 8, off + 24, off, 32, version);
    var s3 := UnionHeader(s2, off + 16, 0);
    UnionHeaderHolds(s2, off + 16, 0);
    UnionHeaderFrames(s2, off + 16, 0);
    KeptBefore(s2.buf, s3.buf, off + 16, off + 32, off, 32, version);
    KeptBefore(s2.buf, s3.buf, off + 16, off + 32, off + 8, 16, 0);
    r0 := Put(s3, off + 24, ka.ToUnsigned(a), ka.Width());
    PutHolds(s3, off + 24, ka.ToUnsigned(a), ka.Width());
    PutFrames(s3, off + 24, ka.ToUnsigned(a), ka.Width());
    PutLength(s3, off + 24, ka.ToUnsigned(a), ka.Width());
    KeptBefore(s3.buf, r0.buf, off + 24, off + 24 + ka.Width(), off, 32, version);
    KeptBefore(s3.buf, r0.buf, off + 24, off + 24 + ka.Width(), off + 8, 16, 0);
    KeptBefore(s3.buf, r0.buf, off + 24, off + 24 + ka.Width(), off + 16, 16, 0);
    PairEncodes(s1, d, off, Inlined(Inlined(Type.Num(ka))), Type.Num(kb), x, y);
    InlinedEncodes(s1, d, off + 8, Inlined(Type.Num(ka)), x.value);
    InlinedEncodes(s2, d, off + 16, Type.Num(ka), x.value.value);
    NumberEncodes(s3, d, off + 24, ka, a);
    NumberEncodes(r0, d, off + 24, kb, b);
  }

  lemma UnionThenNumberReads(r0: Enc, off: nat, ka: NumKind, a: int, kb: NumKind, b: int, version: nat, c: Ctx)
    requires ka.InRange(a) && kb.InRange(b) && version < TWO_32 && |r0.buf| == off + 32
    requires Holds(r0.buf, off, 32, 4) && Holds(r0.buf, off + 4, version, 4)
    requires Holds(r0.buf, off + 8, 16, 4) && Holds(r0.buf, off + 12, 0, 4)
    requires Holds(r0.buf, off + 16, 16, 4) && Holds(r0.buf, off + 20, 0, 4)
    requires Holds(r0.buf, off + 24, ka.ToUnsigned(a), ka.Width())
    requires Final(c, Put(r0, off + 24, kb.ToUnsigned(b), kb.Width()).buf, off)
    ensures ReadLE(c, off, 4) == Ok(32) && ReadLE(c, off + 4, 4) == Ok(version) && off + 32 <= |c.bytes|
    ensures ReadLE(c, off + 8, 4) == Ok(16) && ReadLE(c, off + 12, 4) == Ok(0)
    ensures ReadLE(c, off + 16, 4) == Ok(16) && ReadLE(c, off + 20, 4) == Ok(0)
    ensures ReadLE(c, off + 24, ka.Width()) == Ok(ka.ToUnsigned(a)) <==> Coincide(ka, a, kb, b)
    ensures ReadLE(c, off + 24, kb.Width()) == Ok(kb.ToUnsigned(b))
  {
    hide Holds, Frame, Put, ReadLE, NumKind.ToUnsigned, Pow256, Agree, Final;
    var ua, ub := ka.ToUnsigned(a), kb.ToUnsigned(b);
    TwosComplement(ka, a);
    TwosComplement(kb, b);
    var r := Put(r0, off + 24, ub, kb.Width());
    PutLength(r0, off + 24, ub, kb.Width());
    PutFrames(r0, off + 24, ub, kb.Width());
    FinalAgree(c, r.buf, off);
    AgreePart(c.bytes, r.buf, off, |r.buf|, off, off + 8);
    AgreePart(c.bytes, r.buf, off, |r.buf|, off + 8, off + 16);
    AgreePart(c.bytes, r.buf, off, |r.buf|, off + 16, off + 24);
    AgreePart(c.bytes, r.buf, off, |r.buf|, off + 24, off + 24 + ka.Width());
    AgreePart(c.bytes, r.buf, off, |r.buf|, off + 24, off + 24 + kb.Width());
    HeaderRead(c, r0.buf, r.buf, off, 32, version, off + 24, off + 24 + kb.Width());
    HeaderRead(c, r0.buf, r.buf, off + 8, 16, 0, off + 24, off + 24 + kb.Width());
    HeaderRead(c, r0.buf, r.buf, off + 16, 16, 0, off + 24, off + 24 + kb.Width());
    Overwritten(r0, off + 24, ua, ka.Width(), ub, kb.Width(), c);
    ReadPut(r0, off + 24, ub, kb.Width(), c);
  }

  /** The inner union's payload lies behind the outer union, where the next field is written:
      the message comes back exactly when the two numbers share their low bytes. */
  lemma UnionThenNumberBack(s: Enc, d: nat, ka: NumKind, a: int, kb: NumKind, b: int, version: nat, c: Ctx, f: nat,
      dd: nat)
    requires var v := Value.Struct(version, [Value.Union(0, Value.Union(0, Value.Num(ka, a))), Value.Num(kb, b)]);
      Sent(s, d, UnionThenNumber(ka, kb), v, c)
    requires ka.InRange(a) && kb.InRange(b) && version < TWO_32 && f <= |s.buf| && dd < c.maxDepth
    ensures var v := Value.Struct(version, [Value.Union(0, Value.Union(0, Value.Num(ka, a))), Value.Num(kb, b)]);
      ComesBack(c, f, dd, |s.buf|, UnionThenNumber(ka, kb), v) <==> Coincide(ka, a, kb, b)
  {
    hide StructLayout, Holds, Put, EncodeStruct, DecodeStruct, DecodeField, ReadLE, NumKind.ToUnsigned,
      NumKind.InRange, Final, ComesBack, Coincide, MaxVersion;
    var off := |s.buf|;
    var x, y := Value.Union(0, Value.Union(0, Value.Num(ka, a))), Value.Num(kb, b);
    var r0 := UnionThenNumberBytes(s, d, off, ka, a, kb, b, version);
    UnionThenNumberReads(r0, off, ka, a, kb, b, version, c);
    PairLayout(Inlined(Inlined(Type.Num(ka))), Type.Num(kb));
    PairDecodes(c, f, dd, off, Inlined(Inlined(Type.Num(ka))), Type.Num(kb), version, x, y);
    InlinedDecodes(c, off + 32, dd + 1, off + 8, Inlined(Type.Num(ka)));
    InlinedDecodes(c, off + 32, dd + 1, off + 16, Type.Num(ka));
    NumberSlot(c, off + 32, dd + 1, off + 24, ka, a);
    NumberSlot(c, off + 32, dd + 1, off + 24, kb, b);
  }

  // ---------------------------------------------------------------- a struct over a string

  /** A string, and a struct of one number in place behind its pointer. */
  function StringThenStruct(nullable: bool): Type {
    Pair(Type.String(nullable), Single(Type.Num(NumKind.U32)))
  }

  function StringThenStructValue(version: nat, str: seq<byte>, inner: nat, a: nat): Value {
    Value.Struct(version, [Value.String(str), Value.Struct(inner, [Value.Num(NumKind.U32, a)])])
  }

  /** The bytes of a string object at `t`, but with another size in its header. */
  ghost predicate StringBytes(buf: seq<byte>, t: nat, size: nat, str: seq<byte>) {
    && t + 8 + |str| < |buf| && Holds(buf, t, size, 4) && Holds(buf, t + 4, |str|, 4)
    && buf[t + 8..t + 8 + |str|] == str && buf[t + 8 + |str|] == 0
  }

  lemma StringBytesKept(a: seq<byte>, b: seq<byte>, lo: nat, hi: nat, t: nat, size: nat, str: seq<byte>)
    requires StringBytes(a, t, size, str) && Frame(a, b, lo, hi) && hi <= t
    ensures StringBytes(b, t, size, str)
  {
    assert b[t..t + 4] == a[t..t + 4] && b[t + 4..t + 8] == a[t + 4..t + 8];
    assert b[t + 8..t + 8 + |str|] == a[t + 8..t + 8 + |str|];
  }

  lemma StringSizeOver(s: Enc, t: nat, size: nat, str: seq<byte>, a: nat)
    requires StringBytes(s.buf, t, size, str)
    ensures StringBytes(Put(s, t, a, 4).buf, t, a, str)
  {
    hide Holds, LE;
    var r := Put(s, t, a, 4);
    PutHolds(s, t, a, 4);
    PutFrames(s, t, a, 4);
    HoldsThrough(s.buf, r.buf, t + 4, |str|, 4, t, t + 4);
    assert r.buf[t + 8..t + 8 + |str|] == s.buf[t + 8..t + 8 + |str|];
  }

  lemma StringBytesAgree(bytes: seq<byte>, buf: seq<byte>, lo: nat, t: nat, size: nat, str: seq<byte>)
    requires StringBytes(buf, t, size, str) && lo <= t && Agree(bytes, buf, lo, |buf|)
    ensures StringBytes(bytes, t, size, str)
  {
    hide LE;
    AgreeSlice(bytes, buf, lo, |buf|, t, t + 4);
    AgreeSlice(bytes, buf, lo, |buf|, t + 4, t + 8);
    AgreeSlice(bytes, buf, lo, |buf|, t + 8, t + 8 + |str|);
  }

  /** A string whose size field holds `size` is read exactly when the size covers its header and
      bytes and stays within the message. */
  lemma StringRead(c: Ctx, f: nat, t: nat, size: nat, str: seq<byte>)
    requires StringBytes(c.bytes, t, size, str) && |c.bytes| < TWO_32 && size < TWO_32 && f <= t
    requires ValidUtf8(str) && 0 !in str
    ensures var r := DecodeStringAt(c, f, t);
      (r.Ok? && r.value.0 == Value.String(str) <==> |str| + 8 <= size <= |c.bytes| - t)
  {
    hide Holds, ReadLE, ValidUtf8;
    HoldsRead32(c, t, size);
    HoldsRead32(c, t + 4, |str|);
  }

  /** The outer header, the pointer to the string behind the struct, and the string. */
  ghost predicate StringPlaced(buf: seq<byte>, off: nat, version: nat, size: nat, str: seq<byte>) {
    && |buf| == off + 24 + AlignUp(|str| + 9) >= off + 40
    && Holds(buf, off, 24, 4) && Holds(buf, off + 4, version, 4)
    && Holds(buf, off + 8, EncodePointer(off + 8, off + 24), 8) && StringBytes(buf, off + 24, size, str)
  }

  lemma StringStep(s: Enc, off: nat, str: seq<byte>, version: nat) returns (r0: Enc)
    requires off == |s.buf| && off % 8 == 0
    ensures var s1 := StructHeader(s, off, 24, version);
      |s1.buf| == off + 24 && Start(s1) == s1 && r0 == PutPointer(EncodeStringAt(s1, off + 24, str), off + 8, off + 24)
    ensures StringPlaced(r0.buf, off, version, AlignUp(|str| + 9), str)
  {
    hide StructHeader, Holds, Frame, Put, EncodeStringAt, StringBytes, EncodePointer, AlignUp, Start;
    var t, total := off + 24, AlignUp(|str| + 9);
    var s1 := StructHeader(s, off, 24, version);
    StructHeaderHolds(s, off, 24, version);
    StartsHere(s1);
    var q := EncodeStringAt(s1, t, str);
    StringLaid(s1, str);
    HoldsPrefix(s1.buf, q.buf, off, 24, 4);
    HoldsPrefix(s1.buf, q.buf, off + 4, version, 4);
    r0 := PutPointer(q, off + 8, t);
    PutHolds(q, off + 8, EncodePointer(off + 8, t), 8);
    PutFrames(q, off + 8, EncodePointer(off + 8, t), 8);
    PutLength(q, off + 8, EncodePointer(off + 8, t), 8);
    KeptBefore(q.buf, r0.buf, off + 8, off + 16, off, 24, version);
    StringBytesKept(q.buf, r0.buf, off + 8, off + 16, t, total, str);
  }

  lemma StructStep(r0: Enc, off: nat, str: seq<byte>, version: nat, size: nat, inner: nat, a: nat)
    requires StringPlaced(r0.buf, off, version, size, str)
    ensures var r := Put(StructHeader(r0, off + 16, 16, inner), off + 24, a, 4);
      StringPlaced(r.buf, off, version, a, str) && Holds(r.buf, off + 16, 16, 4) && Holds(r.buf, off + 20, inner, 4)
  {
    hide StructHeader, Holds, Frame, Put, StringBytes, EncodePointer, AlignUp;
    var t := off + 24;
    var s2 := StructHeader(r0, off + 16, 16, inner);
    StructHeaderHolds(r0, off + 16, 16, inner);
    StructHeaderFrames(r0, off + 16, 16, inner);
    KeptBefore(r0.buf, s2.buf, off + 16, off + 24, off, 24, version);
    HoldsThrough(r0.buf, s2.buf, off + 8, EncodePointer(off + 8, t), 8, off + 16, off + 24);
    StringBytesKept(r0.buf, s2.buf, off + 16, off + 24, t, size, str);
    var r := Put(s2, t, a, 4);
    PutFrames(s2, t, a, 4);
    PutLength(s2, t, a, 4);
    StringSizeOver(s2, t, size, str, a);
    KeptBefore(s2.buf, r.buf, t, t + 4, off, 24, version);
    HoldsThrough(s2.buf, r.buf, off + 8, EncodePointer(off + 8, t), 8, t, t + 4);
    KeptBefore(s2.buf, r.buf, t, t + 4, off + 16, 16, inner);
  }

  /** Where the two slots of these messages lie. */
  lemma StringThenStructLayout(nullable: bool)
    ensures var a, b := Type.String(nullable), Single(Type.Num(NumKind.U32));
      && Words(a, b) && a.PackKind().Size() == 8
      && StructLayout(Pair(a, b).fields).Ok? && StructLayout(Pair(a, b).fields).value.size == 24
      && StructLayout(b.fields).Ok? && StructLayout(b.fields).value.size == 16
  {
    hide StructLayout, MaxVersion, Part;
    PairLayout(Type.String(nullable), Single(Type.Num(NumKind.U32)));
    SingleLayout(Type.Num(NumKind.U32));
  }

  lemma StringThenStructBytes(s: Enc, d: nat, off: nat, nullable: bool, str: seq<byte>, version: nat, inner: nat,
      a: nat)
    returns (r: Enc)
    requires off == |s.buf| && off % 8 == 0 && NumKind.U32.InRange(a)
    ensures EncodeStruct(s, d, off, StringThenStruct(nullable), StringThenStructValue(version, str, inner, a)) == Ok(r)
    ensures StringPlaced(r.buf, off, version, a, str)
    ensures Holds(r.buf, off + 16, 16, 4) && Holds(r.buf, off + 20, inner, 4)
  {
    hide StructLayout, StructHeader, Put, PutPointer, EncodeField, EncodeFields, EncodeStringAt, StringPlaced, Start,
      NumKind.InRange, NumKind.ToUnsigned, AlignUp, MaxVersion, Holds, Type.PackKind, P.Kind.Size, Words;
    var u32 := Type.Num(NumKind.U32);
    StringThenStructLayout(nullable);
    var s1 := StructHeader(s, off, 24, version);
    var r0 := StringStep(s, off, str, version);
    StructStep(r0, off, str, version, AlignUp(|str| + 9), inner, a);
    var s2 := StructHeader(r0, off + 16, 16, inner);
    r := Put(s2, off + 24, a, 4);
    var v := StringThenStructValue(version, str, inner, a);
    PairEncodes(s1, d, off, Type.String(nullable), Single(u32), Value.String(str), v.fields[1]);
    StringEncodes(s1, d, off + 8, nullable, str);
    InPlaceEncodes(r0, d, off + 16, u32, inner, Value.Num(NumKind.U32, a));
    NumberEncodes(s2, d, off + 24, NumKind.U32, a);
    UnsignedKept(a);
  }

  lemma UnsignedKept(a: nat)
    requires NumKind.U32.InRange(a)
    ensures NumKind.U32.ToUnsigned(a) == a
  {
    TwosComplementOf(Pow256(4), a);
  }

  lemma StartsHere(s: Enc)
    requires |s.buf| % 8 == 0
    ensures Start(s) == s
  {
  }

  lemma StringEncodes(s: Enc, d: nat, off: nat, nullable: bool, str: seq<byte>)
    requires Start(s) == s
    ensures EncodeField(s, d, off, 0, Type.String(nullable), Value.String(str)) ==
      Ok(PutPointer(EncodeStringAt(s, |s.buf|, str), off, |s.buf|))
  {
    hide EncodeStringAt, PutPointer, Start;
    var ty, v := Type.String(nullable), Value.String(str);
    assert EncodeField(s, d, off, 0, ty, v) == EncodeObject(s, d, off, ty, v);
  }

  lemma StringLaid(s: Enc, str: seq<byte>)
    ensures var q := EncodeStringAt(s, |s.buf|, str);
      && s.buf <= q.buf && |q.buf| == |s.buf| + AlignUp(|str| + 9)
      && AlignUp(|str| + 9) >= 16 && StringBytes(q.buf, |s.buf|, AlignUp(|str| + 9), str)
  {
    hide EncodeStringAt, Holds;
    StringAtHolds(s, str);
    StringAtExtends(s, str);
  }

  lemma StringThenStructReads(r: Enc, off: nat, str: seq<byte>, version: nat, inner: nat, a: nat, c: Ctx)
    requires StringPlaced(r.buf, off, version, a, str) && NumKind.U32.InRange(a) && version < TWO_32 && inner < TWO_32
    requires Holds(r.buf, off + 16, 16, 4) && Holds(r.buf, off + 20, inner, 4) && Final(c, r.buf, off)
    requires ValidUtf8(str) && 0 !in str
    ensures ReadLE(c, off, 4) == Ok(24) && ReadLE(c, off + 4, 4) == Ok(version) && off + 40 <= |c.bytes|
    ensures ReadLE(c, off + 16, 4) == Ok(16) && ReadLE(c, off + 20, 4) == Ok(inner)
    ensures ReadPointer(c, off + 8) == Ok(Offset(off + 24)) && ReadLE(c, off + 24, 4) == Ok(a)
    ensures var r := DecodeStringAt(c, off + 24, off + 24);
      (r.Ok? && r.value.0 == Value.String(str) <==> |str| + 8 <= a <= |c.bytes| - off - 24)
  {
    hide Holds, DecodeStringAt, ReadLE, ReadPointer, NumKind.InRange, Final, Agree, StringBytes, ValidUtf8,
      EncodePointer, AlignUp;
    FinalAgree(c, r.buf, off);
    ReadsHeader(c, r.buf, off, off, 24, version);
    ReadsHeader(c, r.buf, off, off + 16, 16, inner);
    HoldsAgree(r.buf, c.bytes, off + 8, EncodePointer(off + 8, off + 24), 8, off, |r.buf|);
    HoldsPointer(c, off + 8, off + 24);
    StringBytesAgree(c.bytes, r.buf, off, off + 24, a, str);
    SizeReads(c, off + 24, a, str);
    StringRead(c, off + 24, off + 24, a, str);
  }

  lemma StringThenStructDecoded(c: Ctx, f: nat, dd: nat, off: nat, nullable: bool, str: seq<byte>, version: nat,
      inner: nat, a: nat)
    requires f <= off && dd + 2 <= c.maxDepth && NumKind.U32.InRange(a) && off + 40 <= |c.bytes|
    requires ReadLE(c, off, 4) == Ok(24) && ReadLE(c, off + 4, 4) == Ok(version)
    requires ReadLE(c, off + 16, 4) == Ok(16) && ReadLE(c, off + 20, 4) == Ok(inner)
    requires ReadPointer(c, off + 8) == Ok(Offset(off + 24)) && ReadLE(c, off + 24, 4) == Ok(a)
    ensures var r := DecodeStringAt(c, off + 24, off + 24);
      ComesBack(c, f, dd, off, StringThenStruct(nullable), StringThenStructValue(version, str, inner, a)) <==>
        r.Ok? && r.value.0 == Value.String(str)
  {
    hide StructLayout, DecodeStruct, DecodeField, DecodeStringAt, ReadLE, ReadPointer, NumKind.InRange,
      NumKind.ToUnsigned, ComesBack, MaxVersion, Words, Type.PackKind, P.Kind.Size;
    var u32 := Type.Num(NumKind.U32);
    StringThenStructLayout(nullable);
    var x, y := Value.String(str), Value.Struct(inner, [Value.Num(NumKind.U32, a)]);
    PairDecodes(c, f, dd, off, Type.String(nullable), Single(u32), version, x, y);
    StringDecodes(c, off + 24, dd + 1, off + 8, nullable, off + 24);
    var r0 := DecodeStringAt(c, off + 24, off + 24);
    if r0.Ok? {
      SingleDecodes(c, r0.value.1, dd + 1, off + 16, u32, inner, false);
      InPlaceDecodes(c, r0.value.1, dd + 1, off + 16, u32);
      NumberSlot(c, r0.value.1, dd + 2, off + 24, NumKind.U32, a);
      UnsignedKept(a);
    }
  }

  /** The struct in place is written over the head of the string object appended before it, its
      number over the string's size: the message comes back exactly when the number is a size the
      string can have. */
  lemma StringThenStructBack(s: Enc, d: nat, nullable: bool, str: seq<byte>, version: nat, inner: nat, a: nat, c: Ctx,
      f: nat, dd: nat)
    requires Sent(s, d, StringThenStruct(nullable), StringThenStructValue(version, str, inner, a), c)
    requires |s.buf| % 8 == 0
    requires ValidUtf8(str) && 0 !in str && NumKind.U32.InRange(a) && version < TWO_32 && inner < TWO_32
    requires f <= |s.buf| && dd + 2 <= c.maxDepth
    ensures ComesBack(c, f, dd, |s.buf|, StringThenStruct(nullable), StringThenStructValue(version, str, inner, a)) <==>
      |str| + 8 <= a <= |c.bytes| - |s.buf| - 24
    ensures |c.bytes| >= |s.buf| + 24 + AlignUp(|str| + 9)
  {
    hide Holds, EncodeStruct, DecodeStruct, DecodeStringAt, ReadLE, ReadPointer, NumKind.InRange, Final, Agree,
      ComesBack, StringBytes, ValidUtf8, AlignUp, StringThenStruct, StringThenStructValue;
    var off := |s.buf|;
    var r := StringThenStructBytes(s, d, off, nullable, str, version, inner, a);
    StringThenStructReads(r, off, str, version, inner, a, c);
    FinalAgree(c, r.buf, off);
    StringThenStructDecoded(c, f, dd, off, nullable, str, version, inner, a);
  }

  lemma ReadsHeader(c: Ctx, buf: seq<byte>, lo: nat, off: nat, x: nat, y: nat)
    requires Holds(buf, off, x, 4) && Holds(buf, off + 4, y, 4) && x < TWO_32 && y < TWO_32
    requires Agree(c.bytes, buf, lo, |buf|) && lo <= off && off + 8 <= |buf|
    ensures ReadLE(c, off, 4) == Ok(x) && ReadLE(c, off + 4, 4) == Ok(y)
  {
    HoldsAgree(buf, c.bytes, off, x, 4, lo, |buf|);
    HoldsAgree(buf, c.bytes, off + 4, y, 4, lo, |buf|);
    HoldsRead32(c, off, x);
    HoldsRead32(c, off + 4, y);
  }

  lemma SizeReads(c: Ctx, t: nat, size: nat, str: seq<byte>)
    requires StringBytes(c.bytes, t, size, str) && NumKind.U32.InRange(size)
    ensures ReadLE(c, t, 4) == Ok(size) && size < TWO_32
  {
    Pow256Values();
    HoldsRead32(c, t, size);
  }

  lemma StringDecodes(c: Ctx, f: nat, dd: nat, off: nat, nullable: bool, t: nat)
    requires ReadPointer(c, off) == Ok(Offset(t))
    ensures DecodeField(c, f, dd, off, 0, Type.String(nullable)) == DecodeStringAt(c, f, t)
  {
    hide ReadPointer, DecodeStringAt;
    assert DecodeField(c, f, dd, off, 0, Type.String(nullable)) == DecodeObject(c, f, dd, off, Type.String(nullable));
  }

  // ---------------------------------------------------------------- a struct in a union

  /** A struct whose one field is an inlined union of a struct of one number. */
  function StructInUnion(k: NumKind): Type {
    Single(Inlined(Single(Type.Num(k))))
  }

  function StructInUnionValue(version: nat, inner: nat, k: NumKind, n: int): Value {
    Value.Struct(version, [Value.Union(0, Value.Struct(inner, [Value.Num(k, n)]))])
  }

  lemma StructInUnionLayout(k: NumKind)
    ensures var a := Inlined(Single(Type.Num(k)));
      && StructLayout(Single(a).fields).Ok? && StructLayout(Single(a).fields).value.size == 24
      && StructLayout(Single(Type.Num(k)).fields).Ok? && StructLayout(Single(Type.Num(k)).fields).value.size == 16
  {
    hide StructLayout;
    SingleLayout(Inlined(Single(Type.Num(k))));
    SingleLayout(Type.Num(k));
  }

  lemma UnionOfStructEncodes(s: Enc, d: nat, off: nat, k: NumKind, w: Value)
    requires w.Struct?
    ensures EncodeField(s, d, off, 0, Inlined(Single(Type.Num(k))), Value.Union(0, w)) ==
      EncodeUnionPayload(UnionHeader(s, off, 0), d, off + 8, Single(Type.Num(k)), w)
  {
    hide UnionHeader, EncodeUnionPayload;
    InlinedField(s, d, off, Inlined(Single(Type.Num(k))), Value.Union(0, w));
  }

  lemma PayloadIsInPlace(s: Enc, d: nat, off: nat, k: NumKind, w: Value)
    requires w.Struct?
    ensures EncodeUnionPayload(s, d, off, Single(Type.Num(k)), w) == EncodeField(s, d, off, 0, Single(Type.Num(k)), w)
  {
    hide EncodeStruct;
    assert EncodeField(s, d, off, 0, Single(Type.Num(k)), w) == EncodeStruct(s, d, off, Single(Type.Num(k)), w);
  }

  /** A message that ends with such a struct is always rejected, whatever the number. */
  lemma StructInUnionRejected(
    s: Enc, d: nat, version: nat, inner: nat, k: NumKind, n: int, c: Ctx, f: nat, dd: nat
  )
    requires Sent(s, d, StructInUnion(k), StructInUnionValue(version, inner, k, n), c)
    requires |c.bytes|
      == |EncodeStruct(s, d, |s.buf|, StructInUnion(k), StructInUnionValue(version, inner, k, n)).value.buf|
    requires version < TWO_32 && inner < TWO_32 && f <= |s.buf|
    ensures DecodeStruct(c, f, dd, |s.buf|, StructInUnion(k), true).Err?
  {
    hide StructLayout, StructHeader, UnionHeader, Holds, Frame, Put, EncodeField, EncodeFields, EncodeUnionPayload,
      NumKind.ToUnsigned, DecodeStruct, DecodeField, DecodeUnionPayload, Final, Agree, ReadLE, Neat;
    var off, m, a := |s.buf|, Single(Type.Num(k)), Inlined(Single(Type.Num(k)));
    var w := Value.Struct(inner, [Value.Num(k, n)]);
    StructInUnionLayout(k);
    var s1 := StructHeader(s, off, 24, version);
    StructHeaderHolds(s, off, 24, version);
    var u := UnionHeader(s1, off + 8, 0);
    UnionHeaderHolds(s1, off + 8, 0);
    UnionHeaderFrames(s1, off + 8, 0);
    KeptBefore(s1.buf, u.buf, off + 8, off + 24, off, 24, version);
    SingleEncodes(s1, d, off, a, Value.Union(0, w));
    UnionOfStructEncodes(s1, d, off + 8, k, w);
    var r := EncodeUnionPayload(u, d, off + 16, m, w).value;
    NumberStructNeat(k, inner, n);
    PayloadFrames(u, d, off + 16, m, w);
    KeptBefore(u.buf, r.buf, off + 16, off + 24, off, 24, version);
    NumberStructLength(u, d, off + 16, k, inner, n);
    FinalAgree(c, r.buf, off);
    ReadsHeader(c, r.buf, off, off, 24, version);
    FinalLater(c, r.buf, off, off + 16);
    if dd < c.maxDepth {
      SingleDecodes(c, f, dd, off, a, version, true);
      StructMember(u, d, off + 16, m, w, c, off + 24, dd + 1);
      InlinedRejected(c, off + 24, dd + 1, off + 8, k);
    } else {
      StructIs(c, f, dd, off, Single(a), true);
    }
  }

  lemma NumberStructNeat(k: NumKind, inner: nat, n: int)
    ensures var m, w := Single(Type.Num(k)), Value.Struct(inner, [Value.Num(k, n)]);
      SchemaOk(m) && Neat(m, w) && m.InlineStruct() && !Spills(Type.Num(k), Value.Num(k, n), true)
  {
    hide StructLayout;
    SingleLayout(Type.Num(k));
    var m, w := Single(Type.Num(k)), Value.Struct(inner, [Value.Num(k, n)]);
    assert NoOverlap(m.fields, w.fields);
  }

  lemma NumberStructLength(u: Enc, d: nat, off: nat, k: NumKind, inner: nat, n: int)
    requires |u.buf| == off + 8
    requires EncodeUnionPayload(u, d, off, Single(Type.Num(k)), Value.Struct(inner, [Value.Num(k, n)])).Ok?
    ensures |EncodeUnionPayload(u, d, off, Single(Type.Num(k)), Value.Struct(inner, [Value.Num(k, n)])).value.buf|
      == off + 16
  {
    hide StructLayout, StructHeader, Holds, Put, EncodeField, EncodeUnionPayload, NumKind.ToUnsigned;
    SingleLayout(Type.Num(k));
    StructHeaderHolds(u, off, 16, inner);
    PayloadIsInPlace(u, d, off, k, Value.Struct(inner, [Value.Num(k, n)]));
    InPlaceEncodes(u, d, off, Type.Num(k), inner, Value.Num(k, n));
    NumberEncodes(StructHeader(u, off, 16, inner), d, off + 8, k, n);
    PutLength(StructHeader(u, off, 16, inner), off + 8, k.ToUnsigned(n), k.Width());
  }

  lemma InlinedRejected(c: Ctx, f: nat, dd: nat, off: nat, k: NumKind)
    requires DecodeUnionPayload(c, f, dd, off + 8, Single(Type.Num(k))).Err?
    ensures DecodeField(c, f, dd, off, 0, Inlined(Single(Type.Num(k)))).Err?
  {
    hide DecodeUnionPayload, ReadLE;
    InlinedDecode(c, f, dd, off, Inlined(Single(Type.Num(k))));
  }
}
