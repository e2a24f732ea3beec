/** Decoding inverts encoding. A value that conforms to its schema, encoded into a buffer and
    read back from any finished message that agrees with that buffer, comes back unchanged,
    and the decoder's frontier never overtakes the encoder's allocations. */
module RoundTrip {
  import opened Results
  import opened WireErrors
  import opened Bytes
  import opened Schema
  import opened Pointers
  import opened Encode
  import opened Decode
  import opened EncodeFrame
  import opened Wire
  import P = Pack
  import L = PackLayout
  import LF = LayoutFacts

  /** Message and buffer agree on a slot: on its one bit for booleans, else on its bytes. */
  ghost predicate SlotAgree(a: seq<byte>, b: seq<byte>, off: nat, bit: nat, ty: Type)
    requires bit < 8
  {
    if ty.Bool? then off < |a| && off < |b| && Bit(a[off], bit) == Bit(b[off], bit)
    else Agree(a, b, off, off + SlotSize(ty))
  }

  lemma SlotFromBytes(a: seq<byte>, b: seq<byte>, off: nat, bit: nat, ty: Type, hi: nat)
    requires bit < 8 && Agree(a, b, off, hi) && off + SlotSize(ty) <= hi
    ensures SlotAgree(a, b, off, bit, ty)
  {
  }

  /** A decoding result that is `v` with a frontier between `lo` and `hi`. */
  ghost predicate Yields(r: Decoded, v: Value, lo: nat, hi: nat) {
    r.Ok? && r.value.0 == v && lo <= r.value.1 <= hi
  }

  ghost predicate YieldsList(r: DecodedList, v: seq<Value>, lo: nat, hi: nat) {
    r.Ok? && r.value.0 == v && lo <= r.value.1 <= hi
  }

  // ---------------------------------------------------------------- values in place

  lemma ReadPut(s: Enc, off: nat, n: nat, k: nat, c: Ctx)
    requires Agree(c.bytes, Put(s, off, n, k).buf, off, off + k) && n < Pow256(k)
    ensures ReadLE(c, off, k) == Ok(n)
  {
    PutHolds(s, off, n, k);
    HoldsAgree(Put(s, off, n, k).buf, c.bytes, off, n, k, off, off + k);
    HoldsRead(c, off, n, k);
  }

  lemma ReadPair(s: Enc, off: nat, m: nat, n: nat, c: Ctx)
    requires Agree(c.bytes, Put(Put(s, off, m, 4), off + 4, n, 4).buf, off, off + 8)
    requires m < TWO_32 && n < TWO_32
    ensures ReadLE(c, off, 4) == Ok(m) && ReadLE(c, off + 4, 4) == Ok(n)
  {
    var s1 := Put(s, off, m, 4);
    var r := Put(s1, off + 4, n, 4);
    Pow256Values();
    AgreePart(c.bytes, r.buf, off, off + 8, off + 4, off + 8);
    ReadPut(s1, off + 4, n, 4, c);
    AgreePart(c.bytes, r.buf, off, off + 8, off, off + 4);
    WriteFrames(s1.buf, off + 4, LE(n, 4));
    AgreeBefore(c.bytes, s1.buf, r.buf, off, off + 4, off + 4, off + 8);
    ReadPut(s, off, m, 4, c);
  }

  lemma HandleBytes(s: Enc, off: nat, index: nat, n: nat)
    ensures PutHandle(s, off, index).buf == Put(s, off, index, 4).buf
    ensures Put(PutHandle(s, off, index), off + 4, n, 4).buf == Put(Put(s, off, index, 4), off + 4, n, 4).buf
  {
  }

  lemma PowHalves(k: NumKind)
    ensures Pow256(k.Width()) % 2 == 0
  {
    Pow256Values();
  }

  /** Two's complement round-trips exactly the numbers the type can hold. */
  lemma TwosComplement(k: NumKind, n: int)
    ensures k.ToUnsigned(n) < Pow256(k.Width())
    ensures k.FromUnsigned(k.ToUnsigned(n)) == n <==> k.InRange(n)
  {
    PowHalves(k);
    TwosComplementOf(Pow256(k.Width()), n);
  }

  lemma TwosComplementOf(m: nat, n: int)
    requires m >= 1
    ensures 0 <= n < m ==> n % m == n
    ensures n < 0 && 0 <= n + m ==> n % m == n + m
    ensures 0 <= n % m < m
  {
    if 0 <= n < m {
      ModUniqueInt(n, m, 0, n);
    } else if n < 0 && 0 <= n + m {
      ModUniqueInt(n, m, -1, n + m);
    }
  }

  lemma ModUniqueInt(n: int, m: nat, q: int, r: nat)
    requires n == q * m + r && r < m
    ensures n % m == r
  {
    var d := n / m - q;
    assert d * m == (n / m) * m - q * m == r - n % m;
    NonzeroMultiple(d, m);
  }

  lemma NonzeroMultiple(d: int, m: nat)
    ensures d == 0 || d * m >= m || d * m + m <= 0
  {
    if d >= 1 {
      assert d * m == m + (d - 1) * m;
    } else if d <= -1 {
      assert d * m + m == (d + 1) * m;
    }
  }

  /** An enum slot round-trips exactly the values an unsigned 32-bit reading can return; for a
      negative enum the decoder returns another value. */
  lemma EnumSlot(s: Enc, off: nat, n: int, c: Ctx)
    requires Agree(c.bytes, EncodeInPlace(s, off, 0, Type.Enum, Value.Enum(n)).value.buf, off, off + 4)
    ensures DecodeInPlace(c, off, 0, Type.Enum) == Ok(Value.Enum(n % TWO_32))
    ensures DecodeInPlace(c, off, 0, Type.Enum) == Ok(Value.Enum(n)) <==> 0 <= n < TWO_32
  {
    hide Put, Agree, ReadLE;
    Pow256Values();
    ReadPut(s, off, n % TWO_32, 4, c);
  }

  /** An interface slot comes back with the larger of its own and the schema's version. */
  lemma InterfaceSlot(s: Enc, off: nat, index: nat, version: nat, schema: nat, c: Ctx)
    requires HandleOk(index, c.handleCount) && version < TWO_32 && schema < TWO_32
    requires Agree(c.bytes,
      EncodeInPlace(s, off, 0, Type.Interface(schema), Value.Interface(index, version)).value.buf, off, off + 8)
    ensures DecodeInPlace(c, off, 0, Type.Interface(schema)) == Ok(Value.Interface(index, Max(version, schema)))
    ensures DecodeInPlace(c, off, 0, Type.Interface(schema)) == Ok(Value.Interface(index, version)) <==>
      schema <= version
  {
    hide Put, PutHandle, Agree, ReadLE, Pow256;
    HandleBytes(s, off, index, Max(version, schema));
    ReadPair(s, off, index, Max(version, schema), c);
  }

  lemma RtInPlace(s: Enc, off: nat, bit: nat, ty: Type, v: Value, c: Ctx, room: nat)
    requires bit < 8 && ty.IsInPlace() && SchemaOk(ty) && Conforms(ty, v, c.handleCount, room, true)
    requires EncodeInPlace(s, off, bit, ty, v).Ok?
    requires SlotAgree(c.bytes, EncodeInPlace(s, off, bit, ty, v).value.buf, off, bit, ty)
    ensures DecodeInPlace(c, off, bit, ty) == Ok(v)
  {
    hide Put, PutHandle, Agree, ReadLE, LE, FromLE;
    Pow256Values();
    match ty
    case Bool => { SetBitExact(s.buf[off], bit, v.b, bit); }
    case Num(k) => { TwosComplement(k, v.n); ReadPut(s, off, k.ToUnsigned(v.n), k.Width(), c); }
    case Enum => { ReadPut(s, off, v.n % TWO_32, 4, c); }
    case Handle => { HandleBytes(s, off, v.index, 0); ReadPut(s, off, v.index, 4, c); }
    case Interface(version) => {
      HandleBytes(s, off, v.index, Max(v.version, version));
      ReadPair(s, off, v.index, Max(v.version, version), c);
    }
    case AssociatedEndpoint => { ReadPut(s, off, v.id, 4, c); }
    case AssociatedInterface(version) => { ReadPair(s, off, v.id, Max(v.version, version), c); }
  }

  // ---------------------------------------------------------------- strings

  lemma StringHeaderHolds(s: Enc, n: nat)
    ensures var t := |s.buf|; var r := StringHeader(s, t, n).buf;
      Holds(r, t, AlignUp(8 + n + 1), 4) && Holds(r, t + 4, n, 4)
  {
    hide Holds, Put;
    var total := AlignUp(8 + n + 1);
    HeaderHolds(s, |s.buf|, total, total, n);
  }

  lemma StringAtHolds(s: Enc, data: seq<byte>)
    ensures var t, total := |s.buf|, AlignUp(8 + |data| + 1);
      var r := EncodeStringAt(s, t, data).buf;
      && |r| == t + total && Holds(r, t, total, 4) && Holds(r, t + 4, |data|, 4)
      && r[t + 8..t + 8 + |data|] == data && r[t + 8 + |data|] == 0
  {
    hide StringHeader, Holds, WriteAt, Frame;
    var t, total := |s.buf|, AlignUp(8 + |data| + 1);
    StringHeaderHolds(s, |data|);
    StringHeaderRoom(s, |data|);
    var a := StringHeader(s, t, |data|).buf;
    var r := WriteAt(a, t + 8, data + [0]);
    WriteFrames(a, t + 8, data + [0]);
    WriteEnds(a, t + 8, data);
    HoldsThrough(a, r, t, total, 4, t + 8, t + 8 + |data| + 1);
    HoldsThrough(a, r, t + 4, |data|, 4, t + 8, t + 8 + |data| + 1);
  }

  lemma WriteEnds(buf: seq<byte>, off: nat, data: seq<byte>)
    ensures var r := WriteAt(buf, off, data + [0]);
      && |r| == Max(|buf|, off + |data| + 1)
      && r[off..off + |data|] == data && r[off + |data|] == 0
  {
    var r := WriteAt(buf, off, data + [0]);
    var w := r[off..off + |data + [0]|];
    assert w == data + [0];
    assert r[off..off + |data|] == w[..|data|];
    assert r[off + |data|] == w[|data|];
  }

  lemma RtStringAt(s: Enc, data: seq<byte>, c: Ctx, f: nat)
    requires ValidUtf8(data) && 0 !in data && f <= |s.buf|
    requires Final(c, EncodeStringAt(s, |s.buf|, data).buf, |s.buf|)
    ensures Yields(DecodeStringAt(c, f, |s.buf|), Value.String(data), f, |EncodeStringAt(s, |s.buf|, data).buf|)
  {
    hide EncodeStringAt, ValidUtf8;
    var t, total := |s.buf|, AlignUp(8 + |data| + 1);
    var r := EncodeStringAt(s, t, data).buf;
    StringAtHolds(s, data);
    FinalAgree(c, r, t);
    HoldsAgree(r, c.bytes, t, total, 4, t, |r|);
    HoldsAgree(r, c.bytes, t + 4, |data|, 4, t, |r|);
    HoldsRead32(c, t, total);
    HoldsRead32(c, t + 4, |data|);
    AgreeSlice(c.bytes, r, t, |r|, t + 8, t + 8 + |data|);
    assert c.bytes[t + 8..t + 8 + |data|] == data;
    assert c.bytes[t + 8 + |data|] == 0;
  }

  lemma RtString(s: Enc, off: nat, data: seq<byte>, nullable: bool, c: Ctx, f: nat)
    requires ValidUtf8(data) && 0 !in data && f <= |s.buf| && off + 8 <= |s.buf|
    requires var r := EncodeString(s, off, data).value.buf;
      Agree(c.bytes, r, off, off + 8) && Final(c, r, |s.buf|)
    ensures Yields(DecodeString(c, f, off, nullable), Value.String(data), f, |EncodeString(s, off, data).value.buf|)
  {
    var s1 := Start(s);
    StringAtExtends(s1, data);
    PointerStep(s, EncodeStringAt(s1, |s1.buf|, data), off, c);
    RtStringAt(s1, data, c, f);
  }

  // ---------------------------------------------------------------- fields

  /** The frontier is inside the buffer and the decoder has room for the value's depth. */
  ghost predicate Ready(s: Enc, c: Ctx, f: nat, dd: nat, room: nat) {
    f <= |s.buf| && dd + room <= c.maxDepth
  }

  /** A value that can be sent writes no part of itself over another. */
  lemma {:induction false} ConformsNeat(ty: Type, v: Value, hc: nat, room: nat)
    requires Conforms(ty, v, hc, room, true)
    ensures Neat(ty, v)
    decreases ty, 1
  {
    hide StructLayout, NoOverlap, SizeExpected, ZeroReads, DefaultValue, ValidUtf8;
    match v
    case Array(items) => AllNeat(ty.element, items, hc, room - 1);
    case Map(keys, values) => AllNeat(ty.key, keys, hc, room - 1); AllNeat(ty.value, values, hc, room - 1);
    case Struct(version, vals) => FieldsNeat(ty, version, vals, hc, room);
    case Union(tag, w) => ConformsNeat(ty.members[tag], w, hc, room);
    case NullableScalar(present, w) =>
      if present && !ty.NullableBool() { ConformsNeat(ty.inner, w, hc, room); }
    case _ =>
  }

  lemma {:induction false} FieldsNeat(ty: Type, version: nat, vals: seq<Value>, hc: nat, room: nat)
    requires Conforms(ty, Value.Struct(version, vals), hc, room, true)
    ensures Neat(ty, Value.Struct(version, vals))
    decreases ty, 0
  {
    hide StructLayout, NoOverlap, SizeExpected, ZeroReads, ValidUtf8;
    forall i | 0 <= i < |ty.fields| ensures Neat(ty.fields[i].ty, FieldAt(vals, i)) {
      if ty.fields[i].Version() <= version { ConformsNeat(ty.fields[i].ty, vals[i], hc, room - 1); }
    }
  }

  lemma {:induction false} AllNeat(ty: Type, items: seq<Value>, hc: nat, room: nat)
    requires AllConform(ty, items, hc, room)
    ensures NeatAll(ty, items)
    decreases ty, 3
  {
    forall i | 0 <= i < |items| ensures Neat(ty, items[i]) {
      ElementNeat(ty, items[i], hc, room);
    }
  }

  lemma {:induction false} ElementNeat(ty: Type, v: Value, hc: nat, room: nat)
    requires ElementConforms(ty, v, hc, room, true)
    ensures Neat(ty, v)
    decreases ty, 2
  {
    hide StructLayout, NoOverlap, SizeExpected, ZeroReads, ValidUtf8, Conforms;
    if !(v.Null? && !ty.IsPod()) {
      if ty.Array? && v.Array? {
        AllNeat(ty.element, v.items, hc, room);
      } else {
        ConformsNeat(ty, v, hc, room);
      }
    }
  }

  /** Agreement with what was there before `lo` and with everything from `lo` on. */
  lemma AgreeJoin(c: Ctx, b: seq<byte>, off: nat, n: nat, lo: nat)
    requires Agree(c.bytes, b, off, Min(lo, off + n)) && Final(c, b, lo) && off + n <= |b|
    ensures Agree(c.bytes, b, off, off + n)
  {
  }

  lemma {:induction false} RtField(s: Enc, d: nat, off: nat, bit: nat, ty: Type, v: Value, c: Ctx, f: nat, dd: nat,
      room: nat)
    requires bit < 8 && SchemaOk(ty) && !ty.NullableScalar?
    requires Conforms(ty, v, c.handleCount, room, true) && Ready(s, c, f, dd, room)
    requires off + SlotSize(ty) <= |s.buf| && (Spills(ty, v, true) ==> off + SlotSize(ty) == |s.buf|)
    requires EncodeField(s, d, off, bit, ty, v).Ok?
    requires var r := EncodeField(s, d, off, bit, ty, v).value.buf;
      SlotAgree(c.bytes, r, off, bit, ty) && Final(c, r, |s.buf|)
    ensures Yields(DecodeField(c, f, dd, off, bit, ty), v, f, |EncodeField(s, d, off, bit, ty, v).value.buf|)
    decreases ty, 4, 0
  {
    hide EncodeInPlace, DecodeInPlace, EncodeObject, DecodeObject, Put, Conforms, Spills;
    if ty.IsInPlace() {
      RtInPlace(s, off, bit, ty, v, c, room);
      FinalAgree(c, EncodeField(s, d, off, bit, ty, v).value.buf, |s.buf|);
    } else if v.Null? {
      NullSlot(s, off, ty, c, f, dd, room);
    } else {
      RtObject(s, d, off, ty, v, c, f, dd, room);
    }
  }

  /** A null reference is eight zero bytes, read as null. */
  lemma NullSlot(s: Enc, off: nat, ty: Type, c: Ctx, f: nat, dd: nat, room: nat)
    requires !ty.IsInPlace() && !ty.NullableScalar? && Conforms(ty, Value.Null, c.handleCount, room, true)
    requires f <= |s.buf| && SlotAgree(c.bytes, Put(s, off, 0, 8).buf, off, 0, ty)
    ensures Yields(DecodeObject(c, f, dd, off, ty), Value.Null, f, |Put(s, off, 0, 8).buf|)
    ensures !(ty.Union? && ty.inlined)
  {
    hide Put, ReadPointer, Agree, DecodeUnion, DecodeStruct, DecodeStringAt, DecodeArrayBody, DecodeMapAt, SchemaOk;
    AgreePart(c.bytes, Put(s, off, 0, 8).buf, off, off + SlotSize(ty), off, off + 8);
    NullStep(s, off, c);
    PutFrames(s, off, 0, 8);
  }

  /** What spilling means for a struct and for an inlined union. */
  lemma SpillsObject(ty: Type, v: Value, wide: bool)
    ensures ty.Struct? && v.Struct? && !ty.nullable ==> (Spills(ty, v, wide) <==> |ty.fields| > 0)
    ensures ty.Union? && v.Union? && v.tag < |ty.members| && ty.inlined ==>
      (Spills(ty, v, wide) <==> !wide || Spills(ty.members[v.tag], v.value, false))
    ensures !ty.InlineStruct() && !ty.NullableScalar? && !(ty.Union? && ty.inlined) ==> !Spills(ty, v, wide)
  {
  }

  lemma {:induction false} RtObject(s: Enc, d: nat, off: nat, ty: Type, v: Value, c: Ctx, f: nat, dd: nat, room: nat)
    requires !ty.IsInPlace() && !ty.NullableScalar? && !v.Null? && SchemaOk(ty)
    requires Conforms(ty, v, c.handleCount, room, true) && Ready(s, c, f, dd, room)
    requires off + SlotSize(ty) <= |s.buf| && (Spills(ty, v, true) ==> off + SlotSize(ty) == |s.buf|)
    requires EncodeObject(s, d, off, ty, v).Ok?
    requires var r := EncodeObject(s, d, off, ty, v).value.buf;
      Agree(c.bytes, r, off, off + SlotSize(ty)) && Final(c, r, |s.buf|)
    ensures Yields(DecodeObject(c, f, dd, off, ty), v, f, |EncodeObject(s, d, off, ty, v).value.buf|)
    decreases ty, 3, 1
  {
    hide Agree, Final, Start, PutPointer, ReadPointer, EncodeString, DecodeString, EncodeArray, DecodeArray,
      EncodeMap, DecodeMap, EncodeStruct, DecodeStruct, DecodeStructPointer, EncodeUnion, DecodeUnion, ValidUtf8,
      SchemaOk, Conforms, Spills, SlotSize;
    ObjectShape(ty, v, c.handleCount, room);
    ObjectSlot(ty);
    SpillsObject(ty, v, true);
    match ty
    case String(nullable) => StringShape(ty, v, c.handleCount, room); RtString(s, off, v.s, nullable, c, f);
    case Array(_, _) => RtArray(s, d, off, ty, v, c, f, dd, room);
    case Map(_, _, _) => RtMap(s, d, off, ty, v, c, f, dd, room);
    case Struct(_, _, nullable) =>
      if nullable {
        RtStructPointer(s, d, off, ty, v, c, f, dd, room);
      } else {
        RtStruct(s, d, off, ty, v, c, f, dd, room, false);
      }
    case Union(_, _, inlined) =>
      if inlined {
        RtUnion(s, d, off, ty, v, c, f, dd, room, false);
      } else {
        RtUnionPointer(s, d, off, ty, v, c, f, dd, room);
      }
  }

  /** A conforming value that is not null and not in place has its type's constructor. */
  lemma ObjectShape(ty: Type, v: Value, hc: nat, room: nat)
    requires !ty.IsInPlace() && !ty.NullableScalar? && !v.Null? && Conforms(ty, v, hc, room, true)
    ensures ty.String? ==> v.String?
    ensures ty.Array? ==> v.Array?
    ensures ty.Map? ==> v.Map?
    ensures ty.Struct? ==> v.Struct?
    ensures ty.Union? ==> v.Union? && v.tag < |ty.members|
  {
  }

  lemma StringShape(ty: Type, v: Value, hc: nat, room: nat)
    requires v.String? && Conforms(ty, v, hc, room, true)
    ensures ValidUtf8(v.s) && 0 !in v.s
  {
  }

  lemma {:induction false} RtStructPointer(s: Enc, d: nat, off: nat, ty: Type, v: Value, c: Ctx, f: nat, dd: nat,
      room: nat)
    requires ty.Struct? && ty.nullable && v.Struct? && SchemaOk(ty)
    requires Conforms(ty, v, c.handleCount, room, true) && Ready(s, c, f, dd, room)
    requires off + 8 <= |s.buf| && EncodeObject(s, d, off, ty, v).Ok?
    requires var r := EncodeObject(s, d, off, ty, v).value.buf;
      Agree(c.bytes, r, off, off + 8) && Final(c, r, |s.buf|)
    ensures Yields(DecodeStructPointer(c, f, dd, off, ty, true), v, f, |EncodeObject(s, d, off, ty, v).value.buf|)
    decreases ty, 3, 0
  {
    hide Agree, Final, Start, PutPointer, ReadPointer, EncodeStruct, DecodeStruct, SchemaOk, Conforms, Neat;
    var s1 := Start(s);
    ConformsNeat(ty, v, c.handleCount, room);
    StructExtends(s1, d, ty, v);
    PointerStep(s, EncodeStruct(s1, d, |s1.buf|, ty, v).value, off, c);
    RtStructAtEnd(s1, d, ty, v, c, f, dd, room);
  }

  /** A struct appended to the buffer and claimed. */
  lemma {:induction false} RtStructAtEnd(s: Enc, d: nat, ty: Type, v: Value, c: Ctx, f: nat, dd: nat, room: nat)
    requires ty.Struct? && v.Struct? && SchemaOk(ty)
    requires Conforms(ty, v, c.handleCount, room, true) && Ready(s, c, f, dd, room)
    requires EncodeStruct(s, d, |s.buf|, ty, v).Ok?
    requires Final(c, EncodeStruct(s, d, |s.buf|, ty, v).value.buf, |s.buf|)
    ensures Yields(DecodeStruct(c, f, dd, |s.buf|, ty, true), v, f, |EncodeStruct(s, d, |s.buf|, ty, v).value.buf|)
    decreases ty, 1, 1
  {
    hide SchemaOk, Conforms, EncodeStruct, DecodeStruct;
    RtStruct(s, d, |s.buf|, ty, v, c, f, dd, room, true);
  }

  lemma {:induction false} RtUnionPointer(s: Enc, d: nat, off: nat, ty: Type, v: Value, c: Ctx, f: nat, dd: nat,
      room: nat)
    requires ty.Union? && !ty.inlined && v.Union? && SchemaOk(ty)
    requires Conforms(ty, v, c.handleCount, room, true) && Ready(s, c, f, dd, room)
    requires off + 8 <= |s.buf| && EncodeObject(s, d, off, ty, v).Ok?
    requires var r := EncodeObject(s, d, off, ty, v).value.buf;
      Agree(c.bytes, r, off, off + 8) && Final(c, r, |s.buf|)
    ensures Yields(DecodeObject(c, f, dd, off, ty), v, f, |EncodeObject(s, d, off, ty, v).value.buf|)
    decreases ty, 3, 0
  {
    hide Agree, Final, Frame, Start, PutPointer, ReadPointer, EncodeUnion, DecodeUnion, SchemaOk, Conforms, Neat,
      Spills;
    var s1 := Start(s);
    var t := |s1.buf|;
    var s2 := EncodeUnion(s1, d, t, ty, v.tag, v.value).value;
    UnionShape(ty, v, c.handleCount, room);
    ConformsNeat(ty.members[v.tag], v.value, c.handleCount, room);
    UnionFrames(s1, d, t, ty, v.tag, v.value);
    FrameIsPrefix(s1.buf, s2.buf, t, t + 16);
    PointerStep(s, s2, off, c);
    FinalAgree(c, s2.buf, t);
    AgreePart(c.bytes, s2.buf, t, |s2.buf|, t, t);
    RtUnion(s1, d, t, ty, v, c, f, dd, room, true);
  }

  // ---------------------------------------------------------------- unions

  lemma UnionRoom(s: Enc, off: nat, tag: nat)
    ensures |UnionHeader(s, off, tag).buf| == Max(|s.buf|, off + 16)
  {
  }

  /** A union object of its own (`claim`), or one inlined, whose payload may reach past it only at
      the end of the buffer. */
  lemma {:induction false} RtUnion(s: Enc, d: nat, off: nat, ty: Type, v: Value, c: Ctx, f: nat, dd: nat,
      room: nat, claim: bool)
    requires ty.Union? && v.Union? && SchemaOk(ty) && v.tag < |ty.members|
    requires Conforms(ty, v, c.handleCount, room, true) && Ready(s, c, f, dd, room)
    requires off <= |s.buf| && (claim ==> f <= off)
    requires Spills(ty.members[v.tag], v.value, false) ==> |s.buf| <= off + 16
    requires EncodeUnion(s, d, off, ty, v.tag, v.value).Ok?
    requires var r := EncodeUnion(s, d, off, ty, v.tag, v.value).value.buf;
      Final(c, r, |s.buf|) && Agree(c.bytes, r, off, Min(|s.buf|, off + 16))
    ensures Yields(DecodeUnion(c, f, dd, off, ty, claim), v, f, |EncodeUnion(s, d, off, ty, v.tag, v.value).value.buf|)
    decreases ty, 2, 0
  {
    hide Agree, Final, Frame, Holds, ReadLE, EncodeUnionPayload, DecodeUnionPayload, UnionHeader, Conforms, SchemaOk,
      Claim, Neat, Spills;
    UnionShape(ty, v, c.handleCount, room);
    var m := ty.members[v.tag];
    var s1 := UnionHeader(s, off, v.tag);
    var r := EncodeUnion(s, d, off, ty, v.tag, v.value).value.buf;
    UnionHeaderHolds(s, off, v.tag);
    ConformsNeat(m, v.value, c.handleCount, room);
    PayloadFrames(s1, d, off + 8, m, v.value);
    FrameLength(s1.buf, r, off + 8, off + 16);
    AgreeJoin(c, r, off, 16, |s.buf|);
    AgreePart(c.bytes, r, off, off + 16, off, off + 8);
    HeaderRead(c, s1.buf, r, off, 16, v.tag, off + 8, off + 16);
    AgreePart(c.bytes, r, off, off + 16, off + 8, off + 16);
    FinalLater(c, r, |s.buf|, |s1.buf|);
    FinalAgree(c, r, |s.buf|);
    var f1 := if claim then off + 16 else f;
    ClaimOk(c, f, off, 16);
    RtPayload(s1, d, off + 8, m, v.value, c, f1, dd, room);
  }

  lemma UnionShape(ty: Type, v: Value, hc: nat, room: nat)
    requires ty.Union? && v.Union? && Conforms(ty, v, hc, room, true)
    ensures v.tag < TWO_32 && v.tag < |ty.members|
    ensures !ty.members[v.tag].InlineStruct() && !ty.members[v.tag].NullableScalar?
    ensures Conforms(ty.members[v.tag], v.value, hc, room, true)
    ensures SchemaOk(ty) ==> SchemaOk(ty.members[v.tag])
  {
  }

  lemma UnionHeaderHolds(s: Enc, off: nat, tag: nat)
    ensures var r := UnionHeader(s, off, tag).buf;
      Holds(r, off, 16, 4) && Holds(r, off + 4, tag, 4) && |r| == Max(|s.buf|, off + 16)
  {
    hide Holds, Put;
    HeaderHolds(s, off, 16, 16, tag);
  }

  lemma ClaimOk(c: Ctx, f: nat, start: nat, len: nat)
    ensures len > 0 && start + len <= |c.bytes| && f <= start ==> Claim(c, f, start, len) == Ok(start + len)
  {
  }

  lemma FrameLength(a: seq<byte>, b: seq<byte>, lo: nat, hi: nat)
    requires Frame(a, b, lo, hi)
    ensures |a| <= |b|
  {
  }

  lemma AgreeLength(a: seq<byte>, b: seq<byte>, lo: nat, hi: nat)
    requires Agree(a, b, lo, hi)
    ensures hi <= |a| && hi <= |b|
  {
  }

  /** The payload's slot of 8 bytes; a union inlined in it reaches past it. */
  lemma {:induction false} RtPayload(s: Enc, d: nat, off: nat, ty: Type, v: Value, c: Ctx, f: nat, dd: nat, room: nat)
    requires SchemaOk(ty) && !ty.InlineStruct() && !ty.NullableScalar?
    requires Conforms(ty, v, c.handleCount, room, true) && Ready(s, c, f, dd, room)
    requires off + 8 <= |s.buf| && (Spills(ty, v, false) ==> off + 8 == |s.buf|)
    requires EncodeUnionPayload(s, d, off, ty, v).Ok?
    requires var r := EncodeUnionPayload(s, d, off, ty, v).value.buf;
      Agree(c.bytes, r, off, off + 8) && Final(c, r, |s.buf|)
    ensures Yields(DecodeUnionPayload(c, f, dd, off, ty), v, f, |EncodeUnionPayload(s, d, off, ty, v).value.buf|)
    decreases ty, 5, 0
  {
    hide Agree, Final, Start, PutPointer, ReadPointer, EncodeString, DecodeString, EncodeMap, DecodeMap,
      EncodeArrayBody, DecodeArrayBody, EncodeField, ValidUtf8, Conforms, SchemaOk, Spills, SlotSize, Neat,
      EncodeUnion, DecodeUnion;
    if ty.String? && v.String? {
      StringShape(ty, v, c.handleCount, room);
      RtString(s, off, v.s, ty.nullable, c, f);
    } else if ty.Array? && v.Array? {
      var s1 := Start(s);
      var s2 := EncodeArrayBody(s1, d, |s1.buf|, ty.element, v.items).value;
      ArrayShape(ty, v, c.handleCount, room);
      AllNeat(ty.element, v.items, c.handleCount, room - 1);
      BodyExtends(s1, d, ty.element, v.items);
      PointerStep(s, s2, off, c);
      RtBody(s1, d, ty.element, v.items, c, f, dd + 1, room - 1);
    } else if ty.Map? && v.Map? {
      RtMap(s, d, off, ty, v, c, f, dd, room);
    } else {
      RtPlainPayload(s, d, off, ty, v, c, f, dd, room);
    }
  }

  /** The kinds whose payload is written as a field's slot would be. */
  lemma {:induction false} RtPlainPayload(s: Enc, d: nat, off: nat, ty: Type, v: Value, c: Ctx, f: nat, dd: nat,
      room: nat)
    requires SchemaOk(ty) && !ty.InlineStruct() && !ty.NullableScalar?
    requires !(ty.String? && v.String?) && !(ty.Array? && v.Array?) && !(ty.Map? && v.Map?)
    requires Conforms(ty, v, c.handleCount, room, true) && Ready(s, c, f, dd, room)
    requires off + 8 <= |s.buf| && (Spills(ty, v, false) ==> off + 8 == |s.buf|)
    requires EncodeField(s, d, off, 0, ty, v).Ok?
    requires var r := EncodeField(s, d, off, 0, ty, v).value.buf;
      Agree(c.bytes, r, off, off + 8) && Final(c, r, |s.buf|)
    ensures Yields(DecodeUnionPayload(c, f, dd, off, ty), v, f, |EncodeField(s, d, off, 0, ty, v).value.buf|)
    decreases ty, 4, 1
  {
    hide Agree, Final, Conforms, SchemaOk, Spills, SlotSize, EncodeUnion, DecodeUnion, EncodeInPlace, DecodeInPlace,
      EncodeString, EncodeArray, EncodeMap, EncodeStruct, DecodeString, DecodeArray, DecodeMap, DecodeStruct;
    SpillsObject(ty, v, false);
    SpillsObject(ty, v, true);
    if ty.Union? && ty.inlined {
      InlinedIsUnion(ty, v, c.handleCount, room);
      RtUnion(s, d, off, ty, v, c, f, dd, room, false);
      InlinedField(s, d, off, ty, v);
      assert DecodeField(c, f, dd, off, 0, ty) == DecodeObject(c, f, dd, off, ty);
    } else {
      if ty.IsInPlace() { InPlaceSlot(ty); } else { ObjectSlot(ty); }
      SlotFromBytes(c.bytes, EncodeField(s, d, off, 0, ty, v).value.buf, off, 0, ty, off + 8);
      RtField(s, d, off, 0, ty, v, c, f, dd, room);
    }
  }

  lemma InlinedIsUnion(ty: Type, v: Value, hc: nat, room: nat)
    requires ty.Union? && ty.inlined && Conforms(ty, v, hc, room, true)
    ensures v.Union? && v.tag < |ty.members|
  {
  }

  lemma ArrayShape(ty: Type, v: Value, hc: nat, room: nat)
    requires ty.Array? && v.Array? && Conforms(ty, v, hc, room, true)
    ensures room >= 1 && AllConform(ty.element, v.items, hc, room - 1)
    ensures SchemaOk(ty) ==> SchemaOk(ty.element)
  {
  }

  // ---------------------------------------------------------------- arrays and maps

  lemma {:induction false} RtArray(s: Enc, d: nat, off: nat, ty: Type, v: Value, c: Ctx, f: nat, dd: nat, room: nat)
    requires ty.Array? && v.Array? && SchemaOk(ty)
    requires Conforms(ty, v, c.handleCount, room, true) && Ready(s, c, f, dd, room)
    requires off + 8 <= |s.buf| && EncodeArray(s, d, off, ty, v.items).Ok?
    requires var r := EncodeArray(s, d, off, ty, v.items).value.buf;
      Agree(c.bytes, r, off, off + 8) && Final(c, r, |s.buf|)
    ensures Yields(DecodeArray(c, f, dd, off, ty), v, f, |EncodeArray(s, d, off, ty, v.items).value.buf|)
    decreases ty, 3, 0
  {
    hide Agree, Final, Start, PutPointer, ReadPointer, EncodeArrayBody, DecodeArrayBody, Conforms, SchemaOk, NeatAll;
    var s1 := Start(s);
    ArrayShape(ty, v, c.handleCount, room);
    AllNeat(ty.element, v.items, c.handleCount, room - 1);
    BodyExtends(s1, d + 1, ty.element, v.items);
    PointerStep(s, EncodeArrayBody(s1, d + 1, |s1.buf|, ty.element, v.items).value, off, c);
    RtBody(s1, d + 1, ty.element, v.items, c, f, dd + 1, room - 1);
  }

  ghost predicate AllConform(ty: Type, items: seq<Value>, hc: nat, room: nat) {
    forall i :: 0 <= i < |items| ==> ElementConforms(ty, items[i], hc, room, true)
  }

  lemma ArrayHeaderHolds(s: Enc, size: nat, n: nat)
    ensures var r := ArrayHeader(s, |s.buf|, size, n).buf;
      Holds(r, |s.buf|, AlignUp(8 + size * n), 4) && Holds(r, |s.buf| + 4, n, 4)
  {
    hide Holds, Put;
    var total := AlignUp(8 + size * n);
    HeaderHolds(s, |s.buf|, total, total, n);
  }

  lemma CountFits(size: nat, n: nat)
    requires size >= 1
    ensures n <= size * n
  {
  }

  lemma {:induction false} RtBody(s: Enc, d: nat, element: Type, items: seq<Value>, c: Ctx, f: nat, dd: nat, room: nat)
    requires SchemaOk(element)
    requires AllConform(element, items, c.handleCount, room) && Ready(s, c, f, dd, room)
    requires EncodeArrayBody(s, d, |s.buf|, element, items).Ok?
    requires Final(c, EncodeArrayBody(s, d, |s.buf|, element, items).value.buf, |s.buf|)
    ensures YieldsList(DecodeArrayBody(c, f, dd, |s.buf|, element), items, f,
      |EncodeArrayBody(s, d, |s.buf|, element, items).value.buf|)
    decreases element, 7, 0
  {
    hide Agree, Final, Frame, Holds, ReadLE, ArrayHeader, EncodeItems, DecodeItems, AllConform, AlignUp, SchemaOk,
      NeatAll;
    var t, size, n := |s.buf|, element.ElementSize(), |items|;
    var total := AlignUp(8 + size * n);
    var s1 := ArrayHeader(s, t, size, n);
    var r := EncodeArrayBody(s, d, t, element, items).value.buf;
    ArrayHeaderHolds(s, size, n);
    ArrayHeaderRoom(s, size, n);
    AllNeat(element, items, c.handleCount, room);
    ItemsFrame(s1, d, t + 8, element, items);
    FrameLength(s1.buf, r, t + 8, t + 8 + size * n);
    FinalAgree(c, r, t);
    AgreePart(c.bytes, r, t, |r|, t, t + 8);
    CountFits(size, n);
    HeaderRead(c, s1.buf, r, t, total, n, t + 8, t + 8 + size * n);
    AgreePart(c.bytes, r, t, |r|, t + 8, t + 8 + size * n);
    FinalLater(c, r, t, |s1.buf|);
    RtItems(s1, d, t + 8, element, items, c, t + total, dd, room);
  }

  lemma {:induction false} RtItems(s: Enc, d: nat, off: nat, element: Type, items: seq<Value>, c: Ctx, f: nat,
      dd: nat, room: nat)
    requires SchemaOk(element)
    requires AllConform(element, items, c.handleCount, room) && Ready(s, c, f, dd, room)
    requires off + Extent(element, |items|) <= |s.buf|
    requires EncodeItems(s, d, off, element, items).Ok?
    requires var r := EncodeItems(s, d, off, element, items).value.buf;
      Agree(c.bytes, r, off, off + Extent(element, |items|)) && Final(c, r, |s.buf|)
    ensures YieldsList(DecodeItems(c, f, dd, off, element, |items|), items, f,
      |EncodeItems(s, d, off, element, items).value.buf|)
    decreases element, 6, |items|
  {
    hide Agree, Final, Frame, EncodeItem, DecodeItem, ElementConforms, SchemaOk, Extent, Type.ElementSize, Neat;
    if |items| > 0 {
      var size, rest := element.ElementSize(), items[1..];
      var more := Extent(element, |rest|);
      ExtentSucc(element, |rest|);
      var s1 := EncodeItem(s, d, off, element, items[0]).value;
      var r := EncodeItems(s1, d, off + size, element, rest).value.buf;
      AllNeat(element, items, c.handleCount, room);
      ItemFrames(s, d, off, element, items[0]);
      FrameWiden(s.buf, s1.buf, off, off + size, off, off + size);
      ItemsFrame(s1, d, off + size, element, rest);
      FrameLength(s1.buf, r, off + size, off + size + more);
      AgreePart(c.bytes, r, off, off + size + more, off, off + size);
      AgreeBefore(c.bytes, s1.buf, r, off, off + size, off + size, off + size + more);
      FinalBefore(c, s1.buf, r, |s.buf|, |s.buf|, off + size, off + size + more);
      RtItem(s, d, off, element, items[0], c, f, dd, room);
      var f1 := DecodeItem(c, f, dd, off, element).value.1;
      FinalLater(c, r, |s.buf|, |s1.buf|);
      AgreePart(c.bytes, r, off, off + size + more, off + size, off + size + more);
      RtItems(s1, d, off + size, element, rest, c, f1, dd, room);
      assert [items[0]] + rest == items;
    }
  }

  lemma {:induction false} RtItem(s: Enc, d: nat, off: nat, element: Type, item: Value, c: Ctx, f: nat, dd: nat,
      room: nat)
    requires SchemaOk(element)
    requires ElementConforms(element, item, c.handleCount, room, true) && Ready(s, c, f, dd, room)
    requires off + element.ElementSize() <= |s.buf| && EncodeItem(s, d, off, element, item).Ok?
    requires var r := EncodeItem(s, d, off, element, item).value.buf;
      Agree(c.bytes, r, off, off + element.ElementSize()) && Final(c, r, |s.buf|)
    ensures Yields(DecodeItem(c, f, dd, off, element), item, f, |EncodeItem(s, d, off, element, item).value.buf|)
    decreases element, 5, 1
  {
    hide Agree, Final, Start, PutPointer, ReadPointer, EncodeElement, DecodeElement, EncodeField, DecodeField, Put,
      ElementConforms, Conforms, SchemaOk, Spills, SlotSize, Neat;
    if element.IsPod() {
      PodShape(element, item, c.handleCount, room);
      PodStays(element, item);
      SlotFromBytes(c.bytes, EncodeField(s, d, off, 0, element, item).value.buf, off, 0, element,
        off + element.ElementSize());
      RtField(s, d, off, 0, element, item, c, f, dd, room);
    } else if item.Null? {
      NullItem(s, off, element, c, f, dd, room);
    } else {
      var s1 := Start(s);
      ElementNeat(element, item, c.handleCount, room);
      ElementExtends(s1, d, element, item);
      PointerStep(s, EncodeElement(s1, d, |s1.buf|, element, item).value, off, c);
      RtElement(s1, d, element, item, c, f, dd, room);
    }
  }

  lemma NullItem(s: Enc, off: nat, element: Type, c: Ctx, f: nat, dd: nat, room: nat)
    requires !element.IsPod() && ElementConforms(element, Value.Null, c.handleCount, room, true)
    requires f <= |s.buf| && off + 8 <= |s.buf| && Agree(c.bytes, Put(s, off, 0, 8).buf, off, off + 8)
    ensures Yields(DecodeItem(c, f, dd, off, element), Value.Null, f, |Put(s, off, 0, 8).buf|)
  {
    hide Put, ReadPointer, DecodeElement, Agree;
    NullStep(s, off, c);
    PutFrames(s, off, 0, 8);
  }

  lemma PodShape(element: Type, item: Value, hc: nat, room: nat)
    requires !element.Array? && (element.IsPod() || !item.Null?) && ElementConforms(element, item, hc, room, true)
    ensures Conforms(element, item, hc, room, true) && ElementOk(element)
  {
  }

  lemma NestedShape(element: Type, item: Value, hc: nat, room: nat)
    requires element.Array? && !item.Null? && ElementConforms(element, item, hc, room, true)
    ensures item.Array? && AllConform(element.element, item.items, hc, room)
    ensures SchemaOk(element) ==> SchemaOk(element.element)
  {
  }

  lemma {:induction false} RtElement(s: Enc, d: nat, element: Type, item: Value, c: Ctx, f: nat, dd: nat, room: nat)
    requires SchemaOk(element) && !element.IsPod() && !item.Null?
    requires ElementConforms(element, item, c.handleCount, room, true) && Ready(s, c, f, dd, room)
    requires EncodeElement(s, d, |s.buf|, element, item).Ok?
    requires Final(c, EncodeElement(s, d, |s.buf|, element, item).value.buf, |s.buf|)
    ensures Yields(DecodeElement(c, f, dd, |s.buf|, element), item, f,
      |EncodeElement(s, d, |s.buf|, element, item).value.buf|)
    decreases element, 5, 0
  {
    hide Final, EncodeStruct, DecodeStruct, EncodeStringAt, DecodeStringAt, EncodeArrayBody, DecodeArrayBody,
      EncodeMapAt, DecodeMapAt, ValidUtf8, ElementConforms, Conforms, SchemaOk;
    if element.Array? {
      NestedShape(element, item, c.handleCount, room);
      RtBody(s, d, element.element, item.items, c, f, dd, room);
    } else {
      PodShape(element, item, c.handleCount, room);
      ObjectShape(element, item, c.handleCount, room);
      match element
      case Struct(_, _, _) => RtStructAtEnd(s, d, element, item, c, f, dd, room);
      case String(_) => StringShape(element, item, c.handleCount, room); RtStringAt(s, item.s, c, f);
      case Map(_, _, _) => RtMapAt(s, d, element, item, c, f, dd, room);
    }
  }

  lemma {:induction false} RtMap(s: Enc, d: nat, off: nat, ty: Type, v: Value, c: Ctx, f: nat, dd: nat, room: nat)
    requires ty.Map? && v.Map? && SchemaOk(ty)
    requires Conforms(ty, v, c.handleCount, room, true) && Ready(s, c, f, dd, room)
    requires off + 8 <= |s.buf| && EncodeMap(s, d, off, ty, v.keys, v.values).Ok?
    requires var r := EncodeMap(s, d, off, ty, v.keys, v.values).value.buf;
      Agree(c.bytes, r, off, off + 8) && Final(c, r, |s.buf|)
    ensures Yields(DecodeMap(c, f, dd, off, ty), v, f, |EncodeMap(s, d, off, ty, v.keys, v.values).value.buf|)
    decreases ty, 3, 0
  {
    hide Agree, Final, Start, PutPointer, ReadPointer, EncodeMapAt, DecodeMapAt, Conforms, SchemaOk, NeatAll;
    var s1 := Start(s);
    MapShape(ty, v, c.handleCount, room);
    AllNeat(ty.key, v.keys, c.handleCount, room - 1);
    AllNeat(ty.value, v.values, c.handleCount, room - 1);
    MapAtExtends(s1, d, ty, v.keys, v.values);
    PointerStep(s, EncodeMapAt(s1, d, |s1.buf|, ty, v.keys, v.values).value, off, c);
    RtMapAt(s1, d, ty, v, c, f, dd, room);
  }

  /** One of a map's two arrays, reached through its pointer in the map object. */
  lemma {:induction false} RtMapHalf(s: Enc, d: nat, off: nat, element: Type, items: seq<Value>, c: Ctx, f: nat,
      dd: nat, room: nat)
    requires SchemaOk(element) && off + 8 <= |s.buf|
    requires AllConform(element, items, c.handleCount, room) && Ready(s, c, f, dd, room)
    requires EncodeArrayBody(Start(s), d, |Start(s).buf|, element, items).Ok?
    requires var r :=
      PutPointer(EncodeArrayBody(Start(s), d, |Start(s).buf|, element, items).value, off, |Start(s).buf|).buf;
      Agree(c.bytes, r, off, off + 8) && Final(c, r, |s.buf|)
    ensures ReadPointer(c, off) == Ok(Offset(|Start(s).buf|))
    ensures YieldsList(DecodeArrayBody(c, f, dd, |Start(s).buf|, element), items, f,
      |PutPointer(EncodeArrayBody(Start(s), d, |Start(s).buf|, element, items).value, off, |Start(s).buf|).buf|)
    decreases element, 8, 0
  {
    hide Agree, Final, PutPointer, ReadPointer, EncodeArrayBody, DecodeArrayBody, NeatAll, AllConform, SchemaOk;
    AllNeat(element, items, c.handleCount, room);
    BodyExtends(Start(s), d, element, items);
    PointerStep(s, EncodeArrayBody(Start(s), d, |Start(s).buf|, element, items).value, off, c);
    RtBody(Start(s), d, element, items, c, f, dd, room);
  }

  lemma MapShape(ty: Type, v: Value, hc: nat, room: nat)
    requires ty.Map? && v.Map? && Conforms(ty, v, hc, room, true)
    ensures room >= 1 && |v.keys| == |v.values|
    ensures AllConform(ty.key, v.keys, hc, room - 1) && AllConform(ty.value, v.values, hc, room - 1)
    ensures SchemaOk(ty) ==> SchemaOk(ty.key) && SchemaOk(ty.value)
  {
  }

  lemma MapHeaderHolds(s: Enc)
    ensures var r := MapHeader(s, |s.buf|).buf; Holds(r, |s.buf|, 24, 4) && Holds(r, |s.buf| + 4, 0, 4)
  {
    hide Holds, Put;
    HeaderHolds(s, |s.buf|, 24, 24, 0);
  }

  lemma {:induction false} RtMapAt(s: Enc, d: nat, ty: Type, v: Value, c: Ctx, f: nat, dd: nat, room: nat)
    requires ty.Map? && v.Map? && SchemaOk(ty)
    requires Conforms(ty, v, c.handleCount, room, true) && Ready(s, c, f, dd, room)
    requires EncodeMapAt(s, d, |s.buf|, ty, v.keys, v.values).Ok?
    requires Final(c, EncodeMapAt(s, d, |s.buf|, ty, v.keys, v.values).value.buf, |s.buf|)
    ensures Yields(DecodeMapAt(c, f, dd, |s.buf|, ty), v, f,
      |EncodeMapAt(s, d, |s.buf|, ty, v.keys, v.values).value.buf|)
    decreases ty, 2, 0
  {
    hide Agree, Final, Frame, Holds, ReadLE, ReadPointer, MapHeader, PutPointer, Start, EncodeArrayBody,
      DecodeArrayBody, SchemaOk, Conforms, AllConform, NeatAll;
    MapShape(ty, v, c.handleCount, room);
    AllNeat(ty.key, v.keys, c.handleCount, room - 1);
    AllNeat(ty.value, v.values, c.handleCount, room - 1);
    var t := |s.buf|;
    var r := EncodeMapAt(s, d, t, ty, v.keys, v.values).value.buf;
    var s1 := MapHeader(s, t);
    MapHeaderHolds(s);
    MapHeaderRoom(s);
    var k0 := Start(s1);
    var k2 := PutPointer(EncodeArrayBody(k0, d + 1, |k0.buf|, ty.key, v.keys).value, t + 8, |k0.buf|);
    MapHalfFrames(s1, d + 1, t + 8, ty.key, v.keys);
    FrameWiden(s1.buf, k2.buf, t + 8, t + 16, t + 8, t + 24);
    MapHalfFrames(k2, d + 1, t + 16, ty.value, v.values);
    FrameWiden(k2.buf, r, t + 16, t + 24, t + 8, t + 24);
    FrameThen(s1.buf, k2.buf, r, t + 8, t + 24, t + 8, t + 24);
    FinalAgree(c, r, t);
    AgreePart(c.bytes, r, t, |r|, t, t + 8);
    HeaderRead(c, s1.buf, r, t, 24, 0, t + 8, t + 24);
    AgreePart(c.bytes, r, t, |r|, t + 8, t + 16);
    AgreeBefore(c.bytes, k2.buf, r, t + 8, t + 16, t + 16, t + 24);
    FinalLater(c, r, t, |s1.buf|);
    FinalBefore(c, k2.buf, r, |s1.buf|, |s1.buf|, t + 16, t + 24);
    RtMapHalf(s1, d + 1, t + 8, ty.key, v.keys, c, t + 24, dd + 1, room - 1);
    var f2 := DecodeArrayBody(c, t + 24, dd + 1, |k0.buf|, ty.key).value.1;
    AgreePart(c.bytes, r, t, |r|, t + 16, t + 24);
    FinalLater(c, r, t, |k2.buf|);
    RtMapHalf(k2, d + 1, t + 16, ty.value, v.values, c, f2, dd + 1, room - 1);
  }

  // ---------------------------------------------------------------- structs

  /** The packed field's share of the struct is as the value says. */
  ghost predicate Done(p: P.PackedField, fields: seq<FieldType>, vals: seq<Value>, x: Filled) {
    var i := p.src.field.index;
    && i < |fields| && |vals| == |fields| == |x.scalars| == |x.presence|
    && if fields[i].ty.NullableScalar? then
         vals[i].NullableScalar? &&
         if p.src.field.kind.Bool? then x.presence[i] == vals[i].present
         else vals[i].present ==> x.scalars[i] == vals[i].value
       else x.scalars[i] == vals[i]
  }

  ghost predicate DoneUpTo(fields: seq<FieldType>, version: nat, vals: seq<Value>, x: Filled, k: nat) {
    && |vals| == |fields| && Untouched(fields, version, x)
    && StructLayout(fields).Ok? && k <= |StructLayout(fields).value.packedFields|
    && forall j :: 0 <= j < k ==> Done(StructLayout(fields).value.packedFields[j], fields, vals, x)
  }

  ghost predicate YieldsFilled(r: Result<(Filled, nat), WireError>, fields: seq<FieldType>, version: nat,
      vals: seq<Value>, k: nat, lo: nat, hi: nat) {
    r.Ok? && DoneUpTo(fields, version, vals, r.value.0, k) && lo <= r.value.1 <= hi
  }

  /** `p` is packed field `k` of the struct, whose wire size is `size`. */
  ghost predicate At(ty: Type, k: nat, p: P.PackedField, size: nat) {
    && ty.Struct? && StructLayout(ty.fields).Ok? && k < |StructLayout(ty.fields).value.packedFields|
    && p == StructLayout(ty.fields).value.packedFields[k] && size == StructLayout(ty.fields).value.size
    && LF.Stands(p, ty.fields)
  }

  /** Two buffers hold the same at the slot of a packed field. */
  ghost predicate SlotSame(a: seq<byte>, b: seq<byte>, off: nat, p: P.PackedField) {
    var at := off + 8 + p.offset;
    && p.bit < 8
    && if p.src.field.kind.Bool? then at < |a| && at < |b| && Bit(a[at], p.bit) == Bit(b[at], p.bit)
       else Agree(a, b, at, off + 8 + p.End())
  }

  /** The slots from packed field `k` on are still zero. */
  ghost predicate Blank(buf: seq<byte>, off: nat, fields: seq<FieldType>, k: nat)
    requires StructLayout(fields).Ok? && k <= |StructLayout(fields).value.packedFields|
  {
    var l := StructLayout(fields).value;
    off + l.size <= |buf| &&
    forall i {:trigger buf[i]} :: off + 8 + (if k == 0 then 0 else l.packedFields[k - 1].End()) <= i < off + l.size ==>
      buf[i] == 0
  }

  /** The bytes from `lo` to `hi` are there and zero. */
  ghost predicate Zero(buf: seq<byte>, lo: nat, hi: nat) {
    hi <= |buf| && forall i :: lo <= i < hi ==> buf[i] == 0
  }

  /** The field types of a well-formed struct. */
  lemma FieldTypeOk(ty: Type, k: nat)
    requires ty.Struct? && SchemaOk(ty) && k < |StructLayout(ty.fields).value.packedFields|
    ensures var p := StructLayout(ty.fields).value.packedFields[k];
      && LF.Stands(p, ty.fields) && 8 + p.End() <= StructLayout(ty.fields).value.size
      && var ft := ty.fields[p.src.field.index].ty;
      && SchemaOk(ft)
      && (!ft.NullableScalar? ==> p.Size() == SlotSize(ft) && (p.src.field.kind.Bool? <==> ft.Bool?))
      && (ft.NullableScalar? ==> SchemaOk(ft.inner))
      && (ft.NullableScalar? && !p.src.field.kind.Bool? ==> p.Size() == SlotSize(ft.inner) && !ft.NullableBool())
  {
    LF.PackedStands(ty.fields, k);
  }

  lemma SlotSameThen(a: seq<byte>, b: seq<byte>, x: seq<byte>, off: nat, p: P.PackedField)
    requires p.bit < 8 && SlotSame(a, b, off, p) && SlotSame(b, x, off, p)
    ensures SlotSame(a, x, off, p)
  {
  }

  /** The struct's part of the buffer is there, with room for a last field that spills. */
  ghost predicate Laying(s: Enc, off: nat, ty: Type, vals: seq<Value>, k: nat) {
    && ty.Struct? && SchemaOk(ty) && k <= |StructLayout(ty.fields).value.packedFields| && NeatFields(ty.fields, vals)
    && off + StructLayout(ty.fields).value.size <= |s.buf| && SpillRoom(s, off, ty.fields, vals, k)
  }

  /** Writing one field keeps every other slot, down to the bit. */
  lemma PackedKeeps(s: Enc, d: nat, off: nat, ty: Type, vals: seq<Value>, k: nat, j: nat)
    requires Laying(s, off, ty, vals, k) && j < k < |StructLayout(ty.fields).value.packedFields|
    requires EncodePacked(s, d, off, ty, vals, k).Ok?
    requires StructLayout(ty.fields).value.packedFields[j].bit < 8
    ensures SlotSame(s.buf, EncodePacked(s, d, off, ty, vals, k).value.buf, off,
      StructLayout(ty.fields).value.packedFields[j])
  {
    hide SchemaOk, StructLayout, NeatFields, SpillRoom;
    SchemaStruct(ty);
    var p, q := StructLayout(ty.fields).value.packedFields[k], StructLayout(ty.fields).value.packedFields[j];
    FieldTypeOk(ty, k);
    FieldTypeOk(ty, j);
    LF.Disjoint(ty.fields, j, k);
    var r := EncodePacked(s, d, off, ty, vals, k).value;
    if q.End() <= p.offset {
      PackedFrame(s, d, off, ty, vals, k);
      hide EncodePacked;
      assert Frame(s.buf, r.buf, off + 8 + p.offset, off + 8 + p.End());
    } else {
      var at := off + 8 + p.offset;
      var on := PackedBit(s, d, off, ty, vals, k);
      SetBitExact(s.buf[at], p.bit, on, q.bit);
    }
  }

  /** A boolean packed field is written by setting its bit. */
  lemma PackedBit(s: Enc, d: nat, off: nat, ty: Type, vals: seq<Value>, k: nat) returns (on: bool)
    requires ty.Struct? && SchemaOk(ty) && k < |StructLayout(ty.fields).value.packedFields|
    requires StructLayout(ty.fields).value.packedFields[k].src.field.kind.Bool?
    requires EncodePacked(s, d, off, ty, vals, k).Ok?
    ensures var p := StructLayout(ty.fields).value.packedFields[k];
      p.bit < 8 && EncodePacked(s, d, off, ty, vals, k) == PutBit(s, off + 8 + p.offset, p.bit, on)
  {
    FieldTypeOk(ty, k);
    var p := StructLayout(ty.fields).value.packedFields[k];
    var i := p.src.field.index;
    var v := if i < |vals| then vals[i] else Value.Null;
    on := if p.src.field.nullableValueKind then v.NullableScalar? && v.present else v.Bool? && v.b;
  }

  /** After one field the rest can still be laid. */
  lemma LayingNext(s: Enc, d: nat, off: nat, ty: Type, vals: seq<Value>, k: nat)
    requires Laying(s, off, ty, vals, k) && k < |StructLayout(ty.fields).value.packedFields|
    requires EncodePacked(s, d, off, ty, vals, k).Ok?
    ensures |s.buf| <= |EncodePacked(s, d, off, ty, vals, k).value.buf|
    ensures Laying(EncodePacked(s, d, off, ty, vals, k).value, off, ty, vals, k + 1)
    ensures var p := StructLayout(ty.fields).value.packedFields[k];
      Frame(s.buf, EncodePacked(s, d, off, ty, vals, k).value.buf, off + 8 + p.offset, off + 8 + p.End())
  {
    hide SchemaOk, StructLayout, EncodePacked, Frame, NeatFields, SpillRoom, PackedInside;
    SchemaStruct(ty);
    PackedFrame(s, d, off, ty, vals, k);
    var p, s1 := StructLayout(ty.fields).value.packedFields[k], EncodePacked(s, d, off, ty, vals, k).value;
    FrameLength(s.buf, s1.buf, off + 8 + p.offset, off + 8 + p.End());
    RoomLeft(s, s1, off, ty.fields, vals, k);
  }

  lemma {:induction false} FieldsKeep(s: Enc, d: nat, off: nat, ty: Type, vals: seq<Value>, k: nat, j: nat)
    requires Laying(s, off, ty, vals, k) && j < k && EncodeFields(s, d, off, ty, vals, k).Ok?
    requires StructLayout(ty.fields).value.packedFields[j].bit < 8
    ensures SlotSame(s.buf, EncodeFields(s, d, off, ty, vals, k).value.buf, off,
      StructLayout(ty.fields).value.packedFields[j])
    decreases |StructLayout(ty.fields).value.packedFields| - k
  {
    hide SchemaOk, StructLayout, EncodePacked, SlotSame, Frame, LF.Stands, NeatFields, SpillRoom;
    SchemaStruct(ty);
    var packed := StructLayout(ty.fields).value.packedFields;
    if k < |packed| {
      PackedKeeps(s, d, off, ty, vals, k, j);
      LayingNext(s, d, off, ty, vals, k);
      var s1 := EncodePacked(s, d, off, ty, vals, k).value;
      FieldsKeep(s1, d, off, ty, vals, k + 1, j);
      SlotSameThen(s.buf, s1.buf, EncodeFields(s, d, off, ty, vals, k).value.buf, off, packed[j]);
    } else {
      PackedBound(ty, j);
      SlotSameSelf(s.buf, off, packed[j], off + StructLayout(ty.fields).value.size);
    }
  }

  lemma PackedBound(ty: Type, k: nat)
    requires ty.Struct? && SchemaOk(ty) && k < |StructLayout(ty.fields).value.packedFields|
    ensures var l := StructLayout(ty.fields).value; var p := l.packedFields[k];
      p.bit < 8 && 8 + p.End() <= l.size && At(ty, k, p, l.size)
  {
    hide SchemaOk;
    FieldTypeOk(ty, k);
    SchemaStruct(ty);
  }

  lemma SlotSameSelf(a: seq<byte>, off: nat, p: P.PackedField, hi: nat)
    requires p.bit < 8 && off + 8 + p.End() <= hi <= |a|
    ensures SlotSame(a, a, off, p)
  {
  }

  lemma SlotSameAgree(bytes: seq<byte>, a: seq<byte>, b: seq<byte>, off: nat, p: P.PackedField, size: nat)
    requires p.bit < 8 && 8 + p.End() <= size && off + size <= |a|
    requires Agree(bytes, b, off, off + size) && SlotSame(a, b, off, p)
    ensures SlotSame(bytes, a, off, p)
  {
  }

  // ---------------------------------------------------------------- slots nothing was written to

  lemma BlankStart(s: Enc, off: nat, fields: seq<FieldType>, version: nat)
    requires StructLayout(fields).Ok? && StructLayout(fields).value.size >= 8
    requires |s.buf| <= off + 8 || StructLayout(fields).value.size == 8
    ensures Blank(StructHeader(s, off, StructLayout(fields).value.size, version).buf, off, fields, 0)
  {
    hide StructLayout, LE;
    var size := StructLayout(fields).value.size;
    var g := Grow(s.buf, off + size);
    var a := WriteAt(g, off, LE(size, 4));
    assert forall i {:trigger a[i]} :: off + 8 <= i < off + size ==> a[i] == g[i] == 0;
  }

  /** Field `k` writes only its own slot, so the later ones stay as they are. */
  lemma BlankNext(a: seq<byte>, b: seq<byte>, off: nat, fields: seq<FieldType>, k: nat)
    requires StructLayout(fields).Ok? && k < |StructLayout(fields).value.packedFields| && Blank(a, off, fields, k)
    requires var p := StructLayout(fields).value.packedFields[k]; Frame(a, b, off + 8 + p.offset, off + 8 + p.End())
    ensures Blank(b, off, fields, k + 1)
  {
    hide StructLayout;
    if k > 0 { LF.Disjoint(fields, k - 1, k); }
    var lo := off + 8 + StructLayout(fields).value.packedFields[k].End();
    forall i {:trigger b[i]} | lo <= i < off + StructLayout(fields).value.size ensures b[i] == 0 {
      assert a[i] == 0;
    }
  }

  /** A slot nothing was written to is zero in the finished message. */
  lemma BlankSlot(a: seq<byte>, bytes: seq<byte>, off: nat, fields: seq<FieldType>, k: nat)
    requires StructLayout(fields).Ok? && k < |StructLayout(fields).value.packedFields| && Blank(a, off, fields, k)
    requires var l := StructLayout(fields).value; var p := l.packedFields[k];
      !p.src.field.kind.Bool? && SlotSame(bytes, a, off, p) && 8 + p.End() <= l.size
    ensures var p := StructLayout(fields).value.packedFields[k];
      Zero(bytes, off + 8 + p.offset, off + 8 + p.End())
  {
    hide StructLayout;
    if k > 0 { LF.Disjoint(fields, k - 1, k); }
    var p := StructLayout(fields).value.packedFields[k];
    forall i | off + 8 + p.offset <= i < off + 8 + p.End() ensures bytes[i] == 0 {
      assert bytes[i] == a[i];
    }
  }

  lemma {:induction false} ZeroLE(s: seq<byte>)
    requires forall i :: 0 <= i < |s| ==> s[i] == 0
    ensures FromLE(s) == 0
  {
    if |s| > 0 { ZeroLE(s[1..]); }
  }

  lemma ZeroRead(c: Ctx, off: nat, k: nat, lo: nat, hi: nat)
    requires Zero(c.bytes, lo, hi) && lo <= off && off + k <= hi
    ensures ReadLE(c, off, k) == Ok(0)
  {
    ZeroLE(c.bytes[off..off + k]);
  }

  /** Zero bytes in place of a value that was never written. */
  lemma {:induction false} ZeroDecodes(c: Ctx, f: nat, dd: nat, at: nat, ty: Type, wide: bool)
    requires ZeroReads(ty, c.handleCount, wide) && Zero(c.bytes, at, at + (if wide then SlotSize(ty) else 8))
    ensures var r := DecodeField(c, f, dd, at, 0, ty); r.Ok? && r.value.1 == f
    decreases ty, 4
  {
    hide ReadLE, Zero, DecodeStruct, DecodeStringAt, DecodeArrayBody, DecodeMapAt, DecodeUnion, SlotSize;
    var hi := at + if wide then SlotSize(ty) else 8;
    if ty.IsInPlace() {
      ZeroInPlace(c, at, ty, hi);
    } else if ty.NullableScalar? {
      SameSlot(ty);
      ZeroDecodes(c, f, dd, at, ty.inner, wide);
    } else if ty.Union? && ty.inlined {
      ObjectSlot(ty);
      ZeroUnion(c, f, dd, at, ty);
    } else {
      ObjectSlot(ty);
      ZeroRead(c, at, 8, at, hi);
      NullDecodes(c, f, dd, at, ty);
    }
  }

  lemma NullDecodes(c: Ctx, f: nat, dd: nat, at: nat, ty: Type)
    requires !ty.IsInPlace() && ty.IsNullable() && !ty.NullableScalar? && !(ty.Union? && ty.inlined)
    requires ReadLE(c, at, 8) == Ok(0)
    ensures DecodeField(c, f, dd, at, 0, ty) == Ok((Value.Null, f))
  {
    hide ReadLE, DecodeObject;
    assert ReadPointer(c, at) == Ok(NullPointer);
    assert DecodeField(c, f, dd, at, 0, ty) == DecodeObject(c, f, dd, at, ty);
    NullObject(c, f, dd, at, ty);
  }

  lemma NullObject(c: Ctx, f: nat, dd: nat, at: nat, ty: Type)
    requires !ty.IsInPlace() && ty.IsNullable() && !ty.NullableScalar? && !(ty.Union? && ty.inlined)
    requires ReadPointer(c, at) == Ok(NullPointer)
    ensures DecodeObject(c, f, dd, at, ty) == Ok((Value.Null, f))
  {
    hide ReadPointer, DecodeStruct, DecodeStringAt, DecodeArrayBody, DecodeMapAt, DecodeUnion;
    if ty.Struct? { assert DecodeObject(c, f, dd, at, ty) == DecodeStructPointer(c, f, dd, at, ty, true); }
    if ty.Array? { assert DecodeObject(c, f, dd, at, ty) == DecodeArray(c, f, dd, at, ty); }
    if ty.Map? { assert DecodeObject(c, f, dd, at, ty) == DecodeMap(c, f, dd, at, ty); }
  }

  lemma ZeroInPlace(c: Ctx, at: nat, ty: Type, hi: nat)
    requires ty.IsInPlace() && ZeroReads(ty, c.handleCount, true)
    requires Zero(c.bytes, at, hi) && (hi == at + SlotSize(ty) || hi == at + 8)
    ensures DecodeInPlace(c, at, 0, ty).Ok?
  {
    hide ReadLE;
    InPlaceSlot(ty);
    match ty
    case Bool =>
    case Num(k) => ZeroRead(c, at, k.Width(), at, hi);
    case Interface(_) => ZeroRead(c, at, 4, at, hi); ZeroRead(c, at + 4, 4, at, hi);
    case AssociatedInterface(_) => ZeroRead(c, at, 4, at, hi); ZeroRead(c, at + 4, 4, at, hi);
    case Enum => ZeroRead(c, at, 4, at, hi);
    case Handle => ZeroRead(c, at, 4, at, hi);
    case AssociatedEndpoint => ZeroRead(c, at, 4, at, hi);
  }

  lemma {:induction false} ZeroUnion(c: Ctx, f: nat, dd: nat, at: nat, ty: Type)
    requires ty.Union? && ty.inlined && ZeroReads(ty, c.handleCount, true) && Zero(c.bytes, at, at + 16)
    ensures var r := DecodeUnion(c, f, dd, at, ty, false); r.Ok? && r.value.1 == f
    decreases ty, 3
  {
    hide ReadLE, DecodeField, DecodeUnionPayload;
    ZeroRead(c, at, 4, at, at + 16);
    ZeroRead(c, at + 4, 4, at, at + 16);
    ZeroPayload(c, f, dd, at + 8, ty.members[0]);
  }

  lemma {:induction false} ZeroPayload(c: Ctx, f: nat, dd: nat, at: nat, ty: Type)
    requires ZeroReads(ty, c.handleCount, false) && Zero(c.bytes, at, at + 8)
    ensures var r := DecodeUnionPayload(c, f, dd, at, ty); r.Ok? && r.value.1 == f
    decreases ty, 5
  {
    hide ReadLE, DecodeField, DecodeStruct, DecodeStringAt, DecodeArrayBody, DecodeMapAt;
    ZeroRead(c, at, 8, at, at + 8);
    assert ReadPointer(c, at) == Ok(NullPointer);
    ZeroDecodes(c, f, dd, at, ty, false);
  }

  // ---------------------------------------------------------------- the field walk

  /** One field of a struct that can be sent: it conforms, or it is newer and at its default. */
  ghost predicate FieldFits(ft: FieldType, w: Value, version: nat, hc: nat, room: nat) {
    if ft.Version() <= version then Conforms(ft.ty, w, hc, room, true)
    else w == DefaultValue(ft.ty) && !ft.ty.BareUnion()
  }

  ghost predicate StructConforms(ty: Type, v: Value, hc: nat, room: nat) {
    && ty.Struct? && v.Struct? && SchemaOk(ty) && |v.fields| == |ty.fields| && v.version < TWO_32
    && SizeExpected(ty.fields, v.version) && NoOverlap(ty.fields, v.fields)
    && forall i :: 0 <= i < |v.fields| ==> FieldFits(ty.fields[i], v.fields[i], v.version, hc, room)
  }

  lemma StructNeat(ty: Type, v: Value, hc: nat, room: nat)
    requires StructConforms(ty, v, hc, room)
    ensures NeatFields(ty.fields, v.fields)
  {
    hide NoOverlap, Conforms, SchemaOk, SizeExpected;
    forall i | 0 <= i < |ty.fields| ensures Neat(ty.fields[i].ty, FieldAt(v.fields, i)) {
      assert FieldFits(ty.fields[i], v.fields[i], v.version, hc, room);
      if ty.fields[i].Version() <= v.version { ConformsNeat(ty.fields[i].ty, v.fields[i], hc, room); }
    }
  }

  lemma AtIndex(ty: Type, k: nat, p: P.PackedField, size: nat)
    requires At(ty, k, p, size)
    ensures ty.Struct? && p.src.field.index < |ty.fields|
  {
  }

  lemma DoneLengths(fields: seq<FieldType>, version: nat, vals: seq<Value>, x: Filled, k: nat)
    requires DoneUpTo(fields, version, vals, x, k)
    ensures |vals| == |fields| == |x.scalars| == |x.presence|
  {
  }

  /** Filling in field `i` as its value says keeps everything done before. */
  lemma DoneScalar(ty: Type, version: nat, vals: seq<Value>, x: Filled, k: nat, p: P.PackedField, size: nat, y: Value)
    requires At(ty, k, p, size) && DoneUpTo(ty.fields, version, vals, x, k) && p.src.minVersion <= version
    requires var i := p.src.field.index;
      if ty.fields[i].ty.NullableScalar? then
        !p.src.field.kind.Bool? && vals[i].NullableScalar? && (vals[i].present ==> y == vals[i].value)
      else y == vals[i]
    ensures DoneUpTo(ty.fields, version, vals, x.(scalars := x.scalars[p.src.field.index := y]), k + 1)
  {
    hide StructLayout, DefaultValue;
  }

  lemma DoneFlag(ty: Type, version: nat, vals: seq<Value>, x: Filled, k: nat, p: P.PackedField, size: nat, y: bool)
    requires At(ty, k, p, size) && DoneUpTo(ty.fields, version, vals, x, k) && p.src.minVersion <= version
    requires var i := p.src.field.index;
      ty.fields[i].ty.NullableScalar? && p.src.field.kind.Bool? && vals[i].NullableScalar? && y == vals[i].present
    ensures DoneUpTo(ty.fields, version, vals, x.(presence := x.presence[p.src.field.index := y]), k + 1)
  {
    hide StructLayout, DefaultValue;
  }

  /** A newer field is done without being read. */
  lemma DoneSkip(ty: Type, version: nat, vals: seq<Value>, x: Filled, k: nat, p: P.PackedField, size: nat)
    requires At(ty, k, p, size) && DoneUpTo(ty.fields, version, vals, x, k) && p.src.minVersion > version
    requires vals[p.src.field.index] == DefaultValue(ty.fields[p.src.field.index].ty)
    ensures DoneUpTo(ty.fields, version, vals, x, k + 1)
  {
    hide StructLayout;
  }

  /** What encoding one packed field comes to, by the kind of field. */
  lemma EncodePackedIs(s: Enc, d: nat, off: nat, ty: Type, vals: seq<Value>, k: nat, p: P.PackedField, size: nat)
    requires At(ty, k, p, size) && |vals| == |ty.fields|
    ensures var i, at := p.src.field.index, off + 8 + p.offset; var ft, v := ty.fields[i].ty, vals[i];
      EncodePacked(s, d, off, ty, vals, k) ==
        if !ft.NullableScalar? then EncodeField(s, d, at, p.bit, ft, v)
        else if p.src.field.kind.Bool? then PutBit(s, at, p.bit, v.NullableScalar? && v.present)
        else if v.NullableScalar? && v.present then EncodeField(s, d, at, 0, ft.inner, v.value)
        else Ok(s)
  {
    hide StructLayout, EncodeField, PutBit;
  }

  /** What decoding a packed field comes to: nothing for a newer one. */
  lemma DecodePackedIs(c: Ctx, f: nat, d: nat, off: nat, ty: Type, numBytes: nat, version: nat, k: nat, x: Filled,
      p: P.PackedField, size: nat)
    requires At(ty, k, p, size) && |x.scalars| == |ty.fields| && |x.presence| == |ty.fields|
    requires 8 + p.End() <= numBytes
    ensures p.src.minVersion > version ==> DecodePacked(c, f, d, off, ty, numBytes, version, k, x) == Ok((x, f))
    ensures p.src.minVersion <= version ==>
      var i, at := p.src.field.index, off + 8 + p.offset; var ft := ty.fields[i].ty;
      var r := DecodePacked(c, f, d, off, ty, numBytes, version, k, x);
      if ft.NullableScalar? && p.src.field.kind.Bool? then
        ReadByte(c, at).Ok? ==> r == Ok((x.(presence := x.presence[i := Bit(ReadByte(c, at).value, p.bit)]), f))
      else
        var scalar := ft.NullableScalar?;
        var y := DecodeField(c, f, d, at, if scalar then 0 else p.bit, if scalar then ft.inner else ft);
        y.Ok? ==> r == Ok((x.(scalars := x.scalars[i := y.value.0]), y.value.1))
  {
    hide StructLayout, DecodeField;
  }

  /** Everything a conforming struct says about the field behind packed field `k`. */
  lemma PackedFacts(ty: Type, v: Value, hc: nat, room: nat, k: nat, p: P.PackedField, size: nat)
    requires StructConforms(ty, v, hc, room) && At(ty, k, p, size)
    ensures var i := p.src.field.index;
      && ty.Struct? && v.Struct? && i < |ty.fields| && |v.fields| == |ty.fields| && p.bit < 8 && 8 + p.End() <= size
      && p.src.minVersion == ty.fields[i].Version()
      && FieldFits(ty.fields[i], v.fields[i], v.version, hc, room)
      && var ft := ty.fields[i].ty;
      && SchemaOk(ft)
      && (!ft.NullableScalar? ==> p.Size() == SlotSize(ft) && (p.src.field.kind.Bool? <==> ft.Bool?))
      && (ft.NullableScalar? ==> SchemaOk(ft.inner))
      && (ft.NullableScalar? && !p.src.field.kind.Bool? ==> p.Size() == SlotSize(ft.inner) && !ft.NullableBool())
  {
    hide NoOverlap, SizeExpected, FieldFits;
    FieldTypeOk(ty, k);
  }

  /** A field's value comes back from its slot. */
  lemma {:induction false} RtSlot(s: Enc, d: nat, off: nat, p: P.PackedField, ft: Type, w: Value, r: Enc, c: Ctx,
      f: nat, dd: nat, room: nat, bit: nat)
    requires p.bit < 8 && SchemaOk(ft) && !ft.NullableScalar? && Conforms(ft, w, c.handleCount, room, true)
    requires Ready(s, c, f, dd, room) && off + 8 + p.End() <= |s.buf|
    requires Spills(ft, w, true) ==> off + 8 + p.End() == |s.buf|
    requires (p.src.field.kind.Bool? <==> ft.Bool?) && p.Size() == SlotSize(ft)
    requires (bit == p.bit || (bit < 8 && !ft.Bool?))
    requires EncodeField(s, d, off + 8 + p.offset, bit, ft, w) == Ok(r)
    requires SlotSame(c.bytes, r.buf, off, p) && Final(c, r.buf, |s.buf|)
    ensures Yields(DecodeField(c, f, dd, off + 8 + p.offset, bit, ft), w, f, |r.buf|)
    decreases ft, 4, 1
  {
    hide SchemaOk, Conforms, SlotAgree, SlotSame, Final, EncodeField, DecodeField, Yields, Spills;
    SlotOfPacked(c.bytes, r.buf, off, p, ft, bit);
    RtField(s, d, off + 8 + p.offset, bit, ft, w, c, f, dd, room);
  }

  /** The state of both sides before packed field `k`. */
  ghost predicate Walk(s: Enc, off: nat, ty: Type, v: Value, k: nat, c: Ctx, f: nat, dd: nat, room: nat, x: Filled) {
    && StructConforms(ty, v, c.handleCount, room) && Ready(s, c, f, dd, room)
    && Laying(s, off, ty, v.fields, k) && Blank(s.buf, off, ty.fields, k)
    && DoneUpTo(ty.fields, v.version, v.fields, x, k)
  }

  lemma {:induction false} RtPacked(s: Enc, d: nat, off: nat, ty: Type, v: Value, k: nat, p: P.PackedField,
      size: nat, r: Enc, c: Ctx, f: nat, dd: nat, room: nat, x: Filled)
    requires Walk(s, off, ty, v, k, c, f, dd, room, x) && At(ty, k, p, size)
    requires EncodePacked(s, d, off, ty, v.fields, k) == Ok(r)
    requires SlotSame(c.bytes, r.buf, off, p) && Final(c, r.buf, |s.buf|)
    ensures YieldsFilled(DecodePacked(c, f, dd, off, ty, size, v.version, k, x), ty.fields, v.version, v.fields, k + 1,
      f, |r.buf|)
    decreases ty, 0, |StructLayout(ty.fields).value.packedFields| - k, 1
  {
    hide SchemaOk, StructConforms, StructLayout, EncodePacked, DecodePacked, Final, DoneUpTo, SlotSame, YieldsFilled,
      LF.Stands, Laying, Blank, FieldFits;
    AtIndex(ty, k, p, size);
    PackedFacts(ty, v, c.handleCount, room, k, p, size);
    if p.src.minVersion > v.version {
      RtNewer(s, d, off, ty, v, k, p, size, r, c, f, dd, room, x);
    } else if !ty.fields[p.src.field.index].ty.NullableScalar? {
      RtPlain(s, d, off, ty, v, k, p, size, r, c, f, dd, room, x);
    } else if p.src.field.kind.Bool? {
      RtFlag(s, d, off, ty, v, k, p, size, r, c, f, dd, room, x);
    } else {
      RtScalar(s, d, off, ty, v, k, p, size, r, c, f, dd, room, x);
    }
  }

  lemma RtNewer(s: Enc, d: nat, off: nat, ty: Type, v: Value, k: nat, p: P.PackedField,
      size: nat, r: Enc, c: Ctx, f: nat, dd: nat, room: nat, x: Filled)
    requires Walk(s, off, ty, v, k, c, f, dd, room, x) && At(ty, k, p, size)
    requires Final(c, r.buf, |s.buf|) && p.src.minVersion > v.version
    ensures YieldsFilled(DecodePacked(c, f, dd, off, ty, size, v.version, k, x), ty.fields, v.version, v.fields, k + 1,
      f, |r.buf|)
  {
    hide SchemaOk, StructLayout, At, StructConforms, Conforms, DecodePacked, Final, DoneUpTo, SlotSize, Laying, Blank;
    PackedFacts(ty, v, c.handleCount, room, k, p, size);
    FinalAgree(c, r.buf, |s.buf|);
    DoneLengths(ty.fields, v.version, v.fields, x, k);
    DecodePackedIs(c, f, dd, off, ty, size, v.version, k, x, p, size);
    DoneSkip(ty, v.version, v.fields, x, k, p, size);
  }

  /** A field that spills ends the buffer with its slot. */
  lemma SpillAt(s: Enc, off: nat, ty: Type, vals: seq<Value>, k: nat, p: P.PackedField, size: nat)
    requires Laying(s, off, ty, vals, k) && At(ty, k, p, size) && |vals| == |ty.fields|
    ensures var i := p.src.field.index; var ft := ty.fields[i].ty;
      && off + 8 + p.End() <= |s.buf|
      && ((!p.src.field.kind.Bool? || !ft.NullableScalar?) && Spills(ft, vals[i], true) ==>
        off + 8 + p.End() == |s.buf|)
      && (ft.NullableScalar? && !p.src.field.kind.Bool? && vals[i].NullableScalar? && vals[i].present ==>
            Spills(ft.inner, vals[i].value, true) ==> off + 8 + p.End() == |s.buf|)
  {
    hide SchemaOk, StructLayout, NeatFields, SpillRoom, SlotSize;
    PackedRoom(s, off, ty.fields, vals, k);
  }

  lemma {:induction false} RtPlain(s: Enc, d: nat, off: nat, ty: Type, v: Value, k: nat, p: P.PackedField,
      size: nat, r: Enc, c: Ctx, f: nat, dd: nat, room: nat, x: Filled)
    requires Walk(s, off, ty, v, k, c, f, dd, room, x) && At(ty, k, p, size)
    requires EncodePacked(s, d, off, ty, v.fields, k) == Ok(r)
    requires SlotSame(c.bytes, r.buf, off, p) && Final(c, r.buf, |s.buf|)
    requires p.src.minVersion <= v.version && !ty.fields[p.src.field.index].ty.NullableScalar?
    ensures YieldsFilled(DecodePacked(c, f, dd, off, ty, size, v.version, k, x), ty.fields, v.version, v.fields, k + 1,
      f, |r.buf|)
    decreases ty, 0, |StructLayout(ty.fields).value.packedFields| - k, 0
  {
    hide SchemaOk, StructLayout, At, StructConforms, Conforms, EncodePacked, DecodePacked, DecodeField, EncodeField,
      Final, Agree, DoneUpTo, PutBit, SlotSame, SlotSize, ReadByte, Laying, Blank, Spills;
    PackedFacts(ty, v, c.handleCount, room, k, p, size);
    var i, at := p.src.field.index, off + 8 + p.offset;
    var ft, w := ty.fields[i].ty, v.fields[i];
    FinalAgree(c, r.buf, |s.buf|);
    DoneLengths(ty.fields, v.version, v.fields, x, k);
    EncodePackedIs(s, d, off, ty, v.fields, k, p, size);
    DecodePackedIs(c, f, dd, off, ty, size, v.version, k, x, p, size);
    SpillAt(s, off, ty, v.fields, k, p, size);
    RtSlot(s, d, off, p, ft, w, r, c, f, dd, room, p.bit);
    DoneScalar(ty, v.version, v.fields, x, k, p, size, w);
  }

  lemma {:induction false} RtFlag(s: Enc, d: nat, off: nat, ty: Type, v: Value, k: nat, p: P.PackedField,
      size: nat, r: Enc, c: Ctx, f: nat, dd: nat, room: nat, x: Filled)
    requires Walk(s, off, ty, v, k, c, f, dd, room, x) && At(ty, k, p, size)
    requires EncodePacked(s, d, off, ty, v.fields, k) == Ok(r)
    requires SlotSame(c.bytes, r.buf, off, p) && Final(c, r.buf, |s.buf|)
    requires p.src.minVersion <= v.version && ty.fields[p.src.field.index].ty.NullableScalar? && p.src.field.kind.Bool?
    ensures YieldsFilled(DecodePacked(c, f, dd, off, ty, size, v.version, k, x), ty.fields, v.version, v.fields, k + 1,
      f, |r.buf|)
    decreases ty, 0, |StructLayout(ty.fields).value.packedFields| - k, 0
  {
    hide SchemaOk, StructLayout, At, StructConforms, Conforms, EncodePacked, DecodePacked, DecodeField, EncodeField,
      Final, Agree, DoneUpTo, PutBit, SlotSame, SlotSize, ReadByte, Laying, Blank, Spills;
    PackedFacts(ty, v, c.handleCount, room, k, p, size);
    var i, at := p.src.field.index, off + 8 + p.offset;
    var ft, w := ty.fields[i].ty, v.fields[i];
    FinalAgree(c, r.buf, |s.buf|);
    DoneLengths(ty.fields, v.version, v.fields, x, k);
    EncodePackedIs(s, d, off, ty, v.fields, k, p, size);
    DecodePackedIs(c, f, dd, off, ty, size, v.version, k, x, p, size);
    ScalarShape(ft, w, c.handleCount, room);
    FlagRead(s, off, p, w.present, r, c);
    DoneFlag(ty, v.version, v.fields, x, k, p, size, w.present);
  }

  lemma {:induction false} RtScalar(s: Enc, d: nat, off: nat, ty: Type, v: Value, k: nat, p: P.PackedField,
      size: nat, r: Enc, c: Ctx, f: nat, dd: nat, room: nat, x: Filled)
    requires Walk(s, off, ty, v, k, c, f, dd, room, x) && At(ty, k, p, size)
    requires EncodePacked(s, d, off, ty, v.fields, k) == Ok(r)
    requires SlotSame(c.bytes, r.buf, off, p) && Final(c, r.buf, |s.buf|)
    requires p.src.minVersion <= v.version && ty.fields[p.src.field.index].ty.NullableScalar? && !p.src.field.kind.Bool?
    ensures YieldsFilled(DecodePacked(c, f, dd, off, ty, size, v.version, k, x), ty.fields, v.version, v.fields, k + 1,
      f, |r.buf|)
    decreases ty, 0, |StructLayout(ty.fields).value.packedFields| - k, 0
  {
    hide SchemaOk, StructLayout, At, StructConforms, Conforms, EncodePacked, DecodePacked, DecodeField, EncodeField,
      Final, Agree, DoneUpTo, PutBit, SlotSame, SlotSize, ReadByte, Laying, Blank, Spills, ZeroReads, Zero;
    PackedFacts(ty, v, c.handleCount, room, k, p, size);
    var i, at := p.src.field.index, off + 8 + p.offset;
    var ft, w := ty.fields[i].ty, v.fields[i];
    FinalAgree(c, r.buf, |s.buf|);
    DoneLengths(ty.fields, v.version, v.fields, x, k);
    EncodePackedIs(s, d, off, ty, v.fields, k, p, size);
    DecodePackedIs(c, f, dd, off, ty, size, v.version, k, x, p, size);
    ScalarShape(ft, w, c.handleCount, room);
    if w.present {
      SpillAt(s, off, ty, v.fields, k, p, size);
      RtSlot(s, d, off, p, ft.inner, w.value, r, c, f, dd, room, 0);
      DoneScalar(ty, v.version, v.fields, x, k, p, size, w.value);
    } else {
      BlankAt(s, off, ty, k, p, size, c);
      ZeroDecodes(c, f, dd, at, ft.inner, true);
      DoneScalar(ty, v.version, v.fields, x, k, p, size, DecodeField(c, f, dd, at, 0, ft.inner).value.0);
    }
  }

  lemma BlankAt(s: Enc, off: nat, ty: Type, k: nat, p: P.PackedField, size: nat, c: Ctx)
    requires At(ty, k, p, size) && Blank(s.buf, off, ty.fields, k) && 8 + p.End() <= size
    requires !p.src.field.kind.Bool? && SlotSame(c.bytes, s.buf, off, p)
    ensures Zero(c.bytes, off + 8 + p.offset, off + 8 + p.End())
  {
    hide StructLayout, Blank, Zero, SlotSame;
    BlankSlot(s.buf, c.bytes, off, ty.fields, k);
  }

  lemma SlotOfPacked(a: seq<byte>, b: seq<byte>, off: nat, p: P.PackedField, ty: Type, bit: nat)
    requires p.bit < 8 && SlotSame(a, b, off, p) && (p.src.field.kind.Bool? <==> ty.Bool?)
    requires p.Size() == SlotSize(ty) && (bit == p.bit || (bit < 8 && !ty.Bool?))
    ensures SlotAgree(a, b, off + 8 + p.offset, bit, ty)
  {
  }

  lemma ScalarShape(ty: Type, v: Value, hc: nat, room: nat)
    requires ty.NullableScalar? && Conforms(ty, v, hc, room, true)
    ensures v.NullableScalar?
    ensures ty.NullableBool() ==> v.value == LostBool(v.present)
    ensures !ty.NullableBool() ==>
      if v.present then !ty.inner.NullableScalar? && Conforms(ty.inner, v.value, hc, room, true)
      else v.value == Value.Null && ZeroReads(ty.inner, hc, true)
    ensures !ty.NullableBool() ==> !ty.inner.Bool?
  {
  }

  lemma FlagRead(s: Enc, off: nat, p: P.PackedField, on: bool, r: Enc, c: Ctx)
    requires p.bit < 8 && p.src.field.kind.Bool? && PutBit(s, off + 8 + p.offset, p.bit, on) == Ok(r)
    requires SlotSame(c.bytes, r.buf, off, p)
    ensures var b := ReadByte(c, off + 8 + p.offset); b.Ok? && Bit(b.value, p.bit) == on
  {
    SetBitExact(s.buf[off + 8 + p.offset], p.bit, on, p.bit);
  }

  lemma {:induction false} RtFields(s: Enc, d: nat, off: nat, ty: Type, v: Value, k: nat, c: Ctx, f: nat, dd: nat,
      room: nat, x: Filled)
    requires Walk(s, off, ty, v, k, c, f, dd, room, x)
    requires EncodeFields(s, d, off, ty, v.fields, k).Ok?
    requires var r := EncodeFields(s, d, off, ty, v.fields, k).value.buf;
      Agree(c.bytes, r, off, off + StructLayout(ty.fields).value.size) && Final(c, r, |s.buf|)
    ensures |x.scalars| == |x.presence| == |ty.fields|
    ensures YieldsFilled(
      DecodeFields(c, f, dd, off, ty, StructLayout(ty.fields).value.size, v.version, k, x),
      ty.fields, v.version, v.fields, |StructLayout(ty.fields).value.packedFields|, f,
      |EncodeFields(s, d, off, ty, v.fields, k).value.buf|)
    decreases ty, 0, |StructLayout(ty.fields).value.packedFields| - k, 2
  {
    hide SchemaOk, Conforms, StructLayout, StructConforms, EncodePacked, DecodePacked, Agree, Final, Frame, SlotSame,
      DoneUpTo, At, Laying, Blank;
    StructIsOk(ty, v, c.handleCount, room);
    var layout := StructLayout(ty.fields).value;
    DoneLengths(ty.fields, v.version, v.fields, x, k);
    LayingBound(s, off, ty, v.fields, k);
    if k < |layout.packedFields| {
      PackedBound(ty, k);
      var size, p := layout.size, layout.packedFields[k];
      var s1 := EncodePacked(s, d, off, ty, v.fields, k).value;
      var r := EncodeFields(s1, d, off, ty, v.fields, k + 1).value;
      RtFieldsFrame(s, d, off, ty, v.fields, k, s1, r, c);
      RtPacked(s, d, off, ty, v, k, p, size, s1, c, f, dd, room, x);
      var (x1, f1) := DecodePacked(c, f, dd, off, ty, size, v.version, k, x).value;
      RtFields(s1, d, off, ty, v, k + 1, c, f1, dd, room, x1);
    } else {
      FinalAgree(c, EncodeFields(s, d, off, ty, v.fields, k).value.buf, |s.buf|);
    }
  }

  lemma LayingBound(s: Enc, off: nat, ty: Type, vals: seq<Value>, k: nat)
    requires Laying(s, off, ty, vals, k)
    ensures ty.Struct? && SchemaOk(ty) && k <= |StructLayout(ty.fields).value.packedFields|
    ensures off + StructLayout(ty.fields).value.size <= |s.buf|
  {
  }

  /** Around one packed field: its slot is final once written, and the rest is framed. */
  lemma RtFieldsFrame(s: Enc, d: nat, off: nat, ty: Type, vals: seq<Value>, k: nat, s1: Enc, r: Enc, c: Ctx)
    requires Laying(s, off, ty, vals, k) && k < |StructLayout(ty.fields).value.packedFields|
    requires Blank(s.buf, off, ty.fields, k)
    requires EncodePacked(s, d, off, ty, vals, k) == Ok(s1) && EncodeFields(s1, d, off, ty, vals, k + 1) == Ok(r)
    requires Agree(c.bytes, r.buf, off, off + StructLayout(ty.fields).value.size) && Final(c, r.buf, |s.buf|)
    ensures |s.buf| <= |s1.buf| <= |r.buf|
    ensures SlotSame(c.bytes, s1.buf, off, StructLayout(ty.fields).value.packedFields[k])
    ensures Final(c, s1.buf, |s.buf|) && Final(c, r.buf, |s1.buf|)
    ensures Laying(s1, off, ty, vals, k + 1) && Blank(s1.buf, off, ty.fields, k + 1)
  {
    hide SchemaOk, StructLayout, EncodePacked, EncodeFields, Agree, Final, Frame, SlotSame, At, Laying, Blank,
      NeatFields, SpillRoom;
    LayingBound(s, off, ty, vals, k);
    SchemaStruct(ty);
    PackedBound(ty, k);
    var layout := StructLayout(ty.fields).value;
    var size, p := layout.size, layout.packedFields[k];
    LayingNext(s, d, off, ty, vals, k);
    BlankNext(s.buf, s1.buf, off, ty.fields, k);
    FieldsKeep(s1, d, off, ty, vals, k + 1, k);
    SlotSameAgree(c.bytes, s1.buf, r.buf, off, p, size);
    LaidFrame(s1, d, off, ty, vals, k + 1);
    FrameLength(s1.buf, r.buf, off + 8, off + size);
    FinalBefore(c, s1.buf, r.buf, |s.buf|, |s.buf|, off + 8, off + size);
    FinalLater(c, r.buf, |s.buf|, |s1.buf|);
  }

  lemma LaidFrame(s: Enc, d: nat, off: nat, ty: Type, vals: seq<Value>, k: nat)
    requires Laying(s, off, ty, vals, k) && EncodeFields(s, d, off, ty, vals, k).Ok?
    ensures Frame(s.buf, EncodeFields(s, d, off, ty, vals, k).value.buf, off + 8,
      off + StructLayout(ty.fields).value.size)
  {
    hide SchemaOk, StructLayout, EncodeFields, Frame, NeatFields, SpillRoom;
    FieldsFrame(s, d, off, ty, vals, k);
  }

  lemma StructIsOk(ty: Type, v: Value, hc: nat, room: nat)
    requires StructConforms(ty, v, hc, room)
    ensures ty.Struct? && v.Struct? && SchemaOk(ty) && StructLayout(ty.fields).Ok?
    ensures v.version < TWO_32 && SizeExpected(ty.fields, v.version) && |v.fields| == |ty.fields|
  {
    hide StructLayout, SizeExpected, FieldFits;
  }

  lemma StructHeaderHolds(s: Enc, off: nat, size: nat, version: nat)
    requires size >= 8
    ensures var r := StructHeader(s, off, size, version).buf;
      && Holds(r, off, size, 4) && Holds(r, off + 4, version, 4)
      && |r| == Max(|s.buf|, off + size)
  {
    hide Holds, Put;
    HeaderHolds(s, off, size, size, version);
  }

  /** The decoder accepts the header of a full-size struct and claims exactly its bytes. */
  lemma RtHeader(c: Ctx, f: nat, off: nat, fields: seq<FieldType>, version: nat, claim: bool)
    requires StructLayout(fields).Ok? && SizeExpected(fields, version) && (claim ==> f <= off)
    requires off + StructLayout(fields).value.size <= |c.bytes|
    requires ReadLE(c, off, 4) == Ok(StructLayout(fields).value.size) && ReadLE(c, off + 4, 4) == Ok(version)
    ensures var size := StructLayout(fields).value.size;
      DecodeStructHeader(c, f, off, fields, claim) == Ok((size, version, if claim then off + size else f))
  {
    hide StructLayout, ReadLE, MaxVersion, P.NumBytesForVersion;
    LF.SizeIsRounded(fields);
    if MaxVersion(fields) <= version { LF.CurrentSize(fields, version); }
  }

  lemma AssembleDone(ty: Type, v: Value, x: Filled, hc: nat, room: nat)
    requires StructConforms(ty, v, hc, room)
    requires DoneUpTo(ty.fields, v.version, v.fields, x, |StructLayout(ty.fields).value.packedFields|)
    ensures Assemble(ty.fields, x) == v.fields
  {
    hide SchemaOk, StructLayout, Conforms, NoOverlap, SizeExpected;
    forall i | 0 <= i < |ty.fields| ensures Assemble(ty.fields, x)[i] == v.fields[i] {
      AssembledAt(ty, v, x, hc, room, i);
    }
  }

  lemma AssembledAt(ty: Type, v: Value, x: Filled, hc: nat, room: nat, i: nat)
    requires StructConforms(ty, v, hc, room) && i < |ty.fields|
    requires DoneUpTo(ty.fields, v.version, v.fields, x, |StructLayout(ty.fields).value.packedFields|)
    ensures |x.scalars| == |ty.fields| && |x.presence| == |ty.fields| && Assemble(ty.fields, x)[i] == v.fields[i]
  {
    hide SchemaOk, StructLayout, Conforms, NoOverlap, SizeExpected, ZeroReads;
    StructIsOk(ty, v, hc, room);
    var k := LF.FieldCovered(ty.fields, i, false);
    assert Done(StructLayout(ty.fields).value.packedFields[k], ty.fields, v.fields, x);
    assert FieldFits(ty.fields[i], v.fields[i], v.version, hc, room);
    if ty.fields[i].ty.NullableScalar? {
      if ty.fields[i].Version() <= v.version { ScalarShape(ty.fields[i].ty, v.fields[i], hc, room); }
      var j := LF.FieldCovered(ty.fields, i, true);
      assert Done(StructLayout(ty.fields).value.packedFields[j], ty.fields, v.fields, x);
    }
  }

  lemma ConformsToFields(ty: Type, v: Value, hc: nat, room: nat)
    requires ty.Struct? && v.Struct? && SchemaOk(ty) && Conforms(ty, v, hc, room, true)
    ensures room >= 1 && StructConforms(ty, v, hc, room - 1)
  {
    hide NoOverlap, SizeExpected, SchemaOk;
  }

  /** A struct object of its own (`claim`), or one in place that ends the buffer or has no fields. */
  lemma {:induction false} RtStruct(s: Enc, d: nat, off: nat, ty: Type, v: Value, c: Ctx, f: nat, dd: nat, room: nat,
      claim: bool)
    requires ty.Struct? && v.Struct? && SchemaOk(ty)
    requires Conforms(ty, v, c.handleCount, room, true) && Ready(s, c, f, dd, room)
    requires off <= |s.buf| && (claim ==> f <= off) && (|ty.fields| > 0 ==> |s.buf| <= off + 8)
    requires EncodeStruct(s, d, off, ty, v).Ok?
    requires var r := EncodeStruct(s, d, off, ty, v).value.buf;
      Final(c, r, |s.buf|) && Agree(c.bytes, r, off, Min(|s.buf|, off + 8))
    ensures Yields(DecodeStruct(c, f, dd, off, ty, claim), v, f, |EncodeStruct(s, d, off, ty, v).value.buf|)
    decreases ty, 1, 0
  {
    hide SchemaOk, Conforms, StructConforms, StructLayout, StructHeader, EncodeFields, DecodeFields,
      DecodeStructHeader, Agree, Final, Frame, Holds, ReadLE, DoneUpTo, MaxVersion, Laying, Blank, SizeExpected,
      NoOverlap;
    ConformsToFields(ty, v, c.handleCount, room);
    StructIsOk(ty, v, c.handleCount, room - 1);
    var size := StructLayout(ty.fields).value.size;
    var r := EncodeStruct(s, d, off, ty, v).value;
    var s1 := StructHeader(s, off, size, v.version);
    LF.SizeIsRounded(ty.fields);
    StructHeaderHolds(s, off, size, v.version);
    StartFields(s, off, ty, v, c.handleCount, room - 1);
    LaidFrame(s1, d, off, ty, v.fields, 0);
    FrameWiden(s1.buf, r.buf, off + 8, off + size, off, off + size);
    FinalAgree(c, r.buf, |s.buf|);
    AgreeJoin(c, r.buf, off, size, |s.buf|);
    AgreePart(c.bytes, r.buf, off, off + size, off, off + 8);
    HeaderRead(c, s1.buf, r.buf, off, size, v.version, off + 8, off + size);
    RtHeader(c, f, off, ty.fields, v.version, claim);
    FinalLater(c, r.buf, |s.buf|, |s1.buf|);
    var start := Filled(Defaults(ty.fields), seq(|ty.fields|, _ => false));
    var f1 := if claim then off + size else f;
    DoneNone(ty.fields, v.version, v.fields);
    RtFields(s1, d, off, ty, v, 0, c, f1, dd + 1, room - 1, start);
    var x := DecodeFields(c, f1, dd + 1, off, ty, size, v.version, 0, start).value.0;
    AssembleDone(ty, v, x, c.handleCount, room - 1);
  }

  /** With the header written, the fields can be laid over blank slots. */
  lemma StartFields(s: Enc, off: nat, ty: Type, v: Value, hc: nat, room: nat)
    requires StructConforms(ty, v, hc, room) && off <= |s.buf| && (|ty.fields| > 0 ==> |s.buf| <= off + 8)
    ensures var s1 := StructHeader(s, off, StructLayout(ty.fields).value.size, v.version);
      Laying(s1, off, ty, v.fields, 0) && Blank(s1.buf, off, ty.fields, 0)
    ensures |ty.fields| == 0 ==> StructLayout(ty.fields).value.size == 8
  {
    hide SchemaOk, StructConforms, StructLayout, StructHeader, Holds, Blank, NeatFields, SpillRoom, SizeExpected;
    StructIsOk(ty, v, hc, room);
    StructNeat(ty, v, hc, room);
    var size := StructLayout(ty.fields).value.size;
    LF.SizeIsRounded(ty.fields);
    StructHeaderHolds(s, off, size, v.version);
    if |ty.fields| == 0 {
      LF.EmptyLayout();
      assert ty.fields == [];
    }
    BlankStart(s, off, ty.fields, v.version);
    RoomAtStart(StructHeader(s, off, size, v.version), off, ty.fields, v.fields);
  }

  lemma DoneNone(fields: seq<FieldType>, version: nat, vals: seq<Value>)
    requires StructLayout(fields).Ok? && |vals| == |fields|
    ensures DoneUpTo(fields, version, vals, Filled(Defaults(fields), seq(|fields|, _ => false)), 0)
  {
    hide StructLayout, DefaultValue;
  }
}
