/** The encoder accepts every conforming value, as long as its own depth limit allows. */
module EncodeTotal {
  import opened Results
  import opened WireErrors
  import opened Bytes
  import opened Schema
  import opened Encode
  import opened EncodeFrame
  import opened RoundTrip
  import P = Pack
  import LF = LayoutFacts

  lemma {:induction false} OkField(s: Enc, d: nat, off: nat, bit: nat, ty: Type, v: Value, hc: nat, room: nat)
    requires bit < 8 && SchemaOk(ty) && !ty.NullableScalar?
    requires Conforms(ty, v, hc, room, true) && off + SlotSize(ty) <= |s.buf| && d + room <= MAX_ENCODE_DEPTH
    requires Spills(ty, v, true) ==> off + SlotSize(ty) == |s.buf|
    ensures EncodeField(s, d, off, bit, ty, v).Ok?
    decreases ty, 4, 0
  {
    hide SchemaOk, Conforms, EncodeInPlace, EncodeObject, Spills;
    if ty.IsInPlace() {
      OkInPlace(s, off, bit, ty, v, hc, room);
    } else if v.Null? {
      NullShape(ty, hc, room);
    } else {
      OkObject(s, d, off, ty, v, hc, room);
    }
  }

  lemma NullShape(ty: Type, hc: nat, room: nat)
    requires Conforms(ty, Value.Null, hc, room, true)
    ensures ty.IsNullable()
  {
  }

  lemma OkInPlace(s: Enc, off: nat, bit: nat, ty: Type, v: Value, hc: nat, room: nat)
    requires bit < 8 && ty.IsInPlace() && Conforms(ty, v, hc, room, true) && off + SlotSize(ty) <= |s.buf|
    ensures EncodeInPlace(s, off, bit, ty, v).Ok?
  {
    hide Put, PutHandle, SetBit;
  }

  lemma {:induction false} OkObject(s: Enc, d: nat, off: nat, ty: Type, v: Value, hc: nat, room: nat)
    requires !ty.IsInPlace() && !ty.NullableScalar? && !v.Null? && SchemaOk(ty)
    requires Conforms(ty, v, hc, room, true) && off + SlotSize(ty) <= |s.buf| && d + room <= MAX_ENCODE_DEPTH
    requires Spills(ty, v, true) ==> off + SlotSize(ty) == |s.buf|
    ensures EncodeObject(s, d, off, ty, v).Ok?
    decreases ty, 3, 1
  {
    hide SchemaOk, Conforms, EncodeString, EncodeMapAt, EncodeArrayBody, EncodeStruct, EncodeUnion, Start, PutPointer,
      Spills, SlotSize;
    ObjectSlot(ty);
    SpillsObject(ty, v, true);
    ObjectShape(ty, v, hc, room);
    StringOk(s, off, if v.String? then v.s else []);
    var s1 := Start(s);
    match ty
    case String(_) =>
    case Array(_, _) =>
      ArrayShape(ty, v, hc, room);
      OkBody(s1, d + 1, ty.element, v.items, hc, room - 1);
    case Map(_, _, _) => OkMapAt(s1, d, ty, v, hc, room);
    case Struct(_, _, nullable) =>
      if nullable { OkStruct(s1, d, |s1.buf|, ty, v, hc, room); } else { OkStruct(s, d, off, ty, v, hc, room); }
    case Union(_, _, inlined) =>
      if inlined { OkUnion(s, d, off, ty, v, hc, room); } else { OkUnion(s1, d, |s1.buf|, ty, v, hc, room); }
  }

  lemma StringOk(s: Enc, off: nat, data: seq<byte>)
    ensures EncodeString(s, off, data).Ok?
  {
  }

  lemma {:induction false} OkUnion(s: Enc, d: nat, off: nat, ty: Type, v: Value, hc: nat, room: nat)
    requires ty.Union? && v.Union? && SchemaOk(ty) && Conforms(ty, v, hc, room, true)
    requires off <= |s.buf| && d + room <= MAX_ENCODE_DEPTH && v.tag < |ty.members|
    requires Spills(ty.members[v.tag], v.value, false) ==> |s.buf| <= off + 16
    ensures EncodeUnion(s, d, off, ty, v.tag, v.value).Ok?
    decreases ty, 2, 0
  {
    hide SchemaOk, Conforms, UnionHeader, EncodeUnionPayload, Spills;
    UnionShape(ty, v, hc, room);
    UnionRoom(s, off, v.tag);
    OkPayload(UnionHeader(s, off, v.tag), d, off + 8, ty.members[v.tag], v.value, hc, room);
  }

  lemma {:induction false} OkPayload(s: Enc, d: nat, off: nat, ty: Type, v: Value, hc: nat, room: nat)
    requires SchemaOk(ty) && !ty.InlineStruct() && !ty.NullableScalar? && Conforms(ty, v, hc, room, true)
    requires off + 8 <= |s.buf| && d + room <= MAX_ENCODE_DEPTH && (Spills(ty, v, false) ==> off + 8 == |s.buf|)
    ensures EncodeUnionPayload(s, d, off, ty, v).Ok?
    decreases ty, 5, 0
  {
    hide SchemaOk, Conforms, EncodeString, EncodeMapAt, EncodeArrayBody, EncodeField, Start, PutPointer, SlotSize,
      Spills;
    if ty.String? && v.String? {
      StringOk(s, off, v.s);
    } else if ty.Array? && v.Array? {
      ArrayShape(ty, v, hc, room);
      OkBody(Start(s), d, ty.element, v.items, hc, room - 1);
    } else if ty.Map? && v.Map? {
      OkMapAt(Start(s), d, ty, v, hc, room);
    } else if ty.Union? && ty.inlined {
      SpillsObject(ty, v, false);
      InlinedIsUnion(ty, v, hc, room);
      OkUnion(s, d, off, ty, v, hc, room);
      InlinedField(s, d, off, ty, v);
    } else {
      SpillsObject(ty, v, true);
      if ty.IsInPlace() { InPlaceSlot(ty); } else { ObjectSlot(ty); }
      OkField(s, d, off, 0, ty, v, hc, room);
    }
  }

  lemma {:induction false} OkBody(s: Enc, d: nat, element: Type, items: seq<Value>, hc: nat, room: nat)
    requires SchemaOk(element) && AllConform(element, items, hc, room)
    requires d + room <= MAX_ENCODE_DEPTH
    ensures EncodeArrayBody(s, d, |s.buf|, element, items).Ok?
    decreases element, 7, 0
  {
    hide SchemaOk, AllConform, ArrayHeader, EncodeItems, AlignUp;
    ArrayHeaderRoom(s, element.ElementSize(), |items|);
    OkItems(ArrayHeader(s, |s.buf|, element.ElementSize(), |items|), d, |s.buf| + 8, element, items, hc, room);
  }

  lemma {:induction false} OkItems(s: Enc, d: nat, off: nat, element: Type, items: seq<Value>, hc: nat, room: nat)
    requires SchemaOk(element) && AllConform(element, items, hc, room)
    requires off + Extent(element, |items|) <= |s.buf| && d + room <= MAX_ENCODE_DEPTH
    ensures EncodeItems(s, d, off, element, items).Ok?
    decreases element, 6, |items|
  {
    hide SchemaOk, EncodeItem, ElementConforms, Frame, Extent, Type.ElementSize, Neat;
    if |items| > 0 {
      var size, rest := element.ElementSize(), items[1..];
      ExtentSucc(element, |rest|);
      OkItem(s, d, off, element, items[0], hc, room);
      ElementNeat(element, items[0], hc, room);
      ItemFrames(s, d, off, element, items[0]);
      var s1 := EncodeItem(s, d, off, element, items[0]).value;
      FrameLength(s.buf, s1.buf, off, off + size);
      OkItems(s1, d, off + size, element, rest, hc, room);
    }
  }

  lemma {:induction false} OkItem(s: Enc, d: nat, off: nat, element: Type, item: Value, hc: nat, room: nat)
    requires SchemaOk(element) && ElementConforms(element, item, hc, room, true)
    requires off + element.ElementSize() <= |s.buf| && d + room <= MAX_ENCODE_DEPTH
    ensures EncodeItem(s, d, off, element, item).Ok?
    decreases element, 5, 1
  {
    hide SchemaOk, Conforms, ElementConforms, EncodeElement, EncodeField, Start, PutPointer, Put, Spills, SlotSize;
    if element.IsPod() {
      PodShape(element, item, hc, room);
      PodStays(element, item);
      OkField(s, d, off, 0, element, item, hc, room);
    } else if !item.Null? {
      OkElement(Start(s), d, element, item, hc, room);
    }
  }

  lemma {:induction false} OkElement(s: Enc, d: nat, element: Type, item: Value, hc: nat, room: nat)
    requires SchemaOk(element) && !element.IsPod() && !item.Null?
    requires ElementConforms(element, item, hc, room, true) && d + room <= MAX_ENCODE_DEPTH
    ensures EncodeElement(s, d, |s.buf|, element, item).Ok?
    decreases element, 5, 0
  {
    hide SchemaOk, Conforms, ElementConforms, EncodeStruct, EncodeStringAt, EncodeArrayBody, EncodeMapAt;
    if element.Array? {
      NestedShape(element, item, hc, room);
      OkBody(s, d, element.element, item.items, hc, room);
    } else {
      PodShape(element, item, hc, room);
      ObjectShape(element, item, hc, room);
      if element.Struct? {
        OkStruct(s, d, |s.buf|, element, item, hc, room);
      } else if element.Map? {
        OkMapAt(s, d, element, item, hc, room);
      }
    }
  }

  lemma {:induction false} OkMapAt(s: Enc, d: nat, ty: Type, v: Value, hc: nat, room: nat)
    requires ty.Map? && v.Map? && SchemaOk(ty) && Conforms(ty, v, hc, room, true)
    requires d + room <= MAX_ENCODE_DEPTH
    ensures EncodeMapAt(s, d, |s.buf|, ty, v.keys, v.values).Ok?
    decreases ty, 2, 0
  {
    hide SchemaOk, Conforms, AllConform, MapHeader, EncodeArrayBody, Start, PutPointer;
    MapShape(ty, v, hc, room);
    var k0 := Start(MapHeader(s, |s.buf|));
    OkBody(k0, d + 1, ty.key, v.keys, hc, room - 1);
    var k2 := PutPointer(EncodeArrayBody(k0, d + 1, |k0.buf|, ty.key, v.keys).value, |s.buf| + 8, |k0.buf|);
    OkBody(Start(k2), d + 1, ty.value, v.values, hc, room - 1);
  }

  /** A struct at the end of the buffer, or in place where it ends the buffer or has no fields. */
  lemma {:induction false} OkStruct(s: Enc, d: nat, off: nat, ty: Type, v: Value, hc: nat, room: nat)
    requires ty.Struct? && v.Struct? && SchemaOk(ty) && Conforms(ty, v, hc, room, true)
    requires off <= |s.buf| && (|ty.fields| > 0 ==> |s.buf| <= off + 8)
    requires d + room <= MAX_ENCODE_DEPTH
    ensures EncodeStruct(s, d, off, ty, v).Ok?
    decreases ty, 1, 0
  {
    hide SchemaOk, Conforms, StructLayout, StructHeader, EncodeFields, StructConforms, Laying, Blank;
    ConformsToFields(ty, v, hc, room);
    StructIsOk(ty, v, hc, room - 1);
    var size := StructLayout(ty.fields).value.size;
    StartFields(s, off, ty, v, hc, room - 1);
    OkFields(StructHeader(s, off, size, v.version), d, off, ty, v, 0, hc, room - 1);
  }

  lemma {:induction false} OkFields(s: Enc, d: nat, off: nat, ty: Type, v: Value, k: nat, hc: nat, room: nat)
    requires StructConforms(ty, v, hc, room) && Laying(s, off, ty, v.fields, k) && d + room <= MAX_ENCODE_DEPTH
    ensures EncodeFields(s, d, off, ty, v.fields, k).Ok?
    decreases ty, 0, |StructLayout(ty.fields).value.packedFields| - k, 2
  {
    hide SchemaOk, StructLayout, StructConforms, EncodePacked, Frame, At, Laying;
    StructIsOk(ty, v, hc, room);
    LayingBound(s, off, ty, v.fields, k);
    var layout := StructLayout(ty.fields).value;
    if k < |layout.packedFields| {
      PackedBound(ty, k);
      OkPacked(s, d, off, ty, v, k, layout.packedFields[k], layout.size, hc, room);
      LayingNext(s, d, off, ty, v.fields, k);
      OkFields(EncodePacked(s, d, off, ty, v.fields, k).value, d, off, ty, v, k + 1, hc, room);
    }
  }

  /** A newer field's default can be written: the packer has no newer reference that cannot be null. */
  lemma DefaultOk(s: Enc, d: nat, off: nat, bit: nat, fields: seq<FieldType>, i: nat, version: nat)
    requires StructLayout(fields).Ok? && i < |fields| && fields[i].Version() > version && bit < 8 && off < |s.buf|
    requires !fields[i].ty.BareUnion() && !fields[i].ty.NullableScalar?
    ensures EncodeField(s, d, off, bit, fields[i].ty, DefaultValue(fields[i].ty)).Ok?
  {
    hide StructLayout, Put, PutHandle, SetBit, EncodeObject;
    if !fields[i].ty.IsInPlace() && !fields[i].ty.IsNullable() { LF.NewerIsNullable(fields, i); }
  }

  lemma {:induction false} OkPacked(s: Enc, d: nat, off: nat, ty: Type, v: Value, k: nat, p: P.PackedField,
      size: nat, hc: nat, room: nat)
    requires StructConforms(ty, v, hc, room) && At(ty, k, p, size)
    requires Laying(s, off, ty, v.fields, k) && d + room <= MAX_ENCODE_DEPTH
    ensures EncodePacked(s, d, off, ty, v.fields, k).Ok?
    decreases ty, 0, |StructLayout(ty.fields).value.packedFields| - k, 1
  {
    hide SchemaOk, StructLayout, StructConforms, Conforms, EncodePacked, EncodeField, SlotSize, At, Laying, Spills,
      ZeroReads;
    StructIsOk(ty, v, hc, room);
    PackedFacts(ty, v, hc, room, k, p, size);
    var i, at := p.src.field.index, off + 8 + p.offset;
    var ft, w := ty.fields[i].ty, v.fields[i];
    EncodePackedIs(s, d, off, ty, v.fields, k, p, size);
    SpillAt(s, off, ty, v.fields, k, p, size);
    if ty.fields[i].Version() > v.version {
      if !ft.NullableScalar? { DefaultOk(s, d, at, p.bit, ty.fields, i, v.version); }
    } else if !ft.NullableScalar? {
      OkField(s, d, at, p.bit, ft, w, hc, room);
    } else {
      ScalarShape(ft, w, hc, room);
      if !p.src.field.kind.Bool? && w.present {
        OkField(s, d, at, 0, ft.inner, w.value, hc, room);
      }
    }
  }

  // ---------------------------------------------------------------- values that do not fit

  /** An element that is no string or no array is written as an empty one. */
  lemma WrongElementIsEmpty(s: Enc, d: nat, t: nat, element: Type, item: Value)
    ensures element.String? && !item.String? ==>
      EncodeElement(s, d, t, element, item) == EncodeElement(s, d, t, element, Value.String([]))
    ensures element.Array? && !item.Array? ==>
      EncodeElement(s, d, t, element, item) == EncodeElement(s, d, t, element, Value.Array([]))
    ensures element.Map? && !item.Map? ==> EncodeElement(s, d, t, element, item) == Err(TypeMismatch)
  {
    hide EncodeStringAt, EncodeArrayBody, EncodeMapAt;
  }

  /** A struct given too few values is encoded as if the others were Null, and what it is given
      beyond its fields is not looked at. */
  lemma {:induction false} MissingIsNull(s: Enc, d: nat, off: nat, ty: Type, vals: seq<Value>, vals': seq<Value>,
      k: nat)
    requires ty.Struct? && StructLayout(ty.fields).Ok? && k <= |StructLayout(ty.fields).value.packedFields|
    requires forall i :: 0 <= i < |ty.fields| ==> FieldAt(vals, i) == FieldAt(vals', i)
    ensures EncodeFields(s, d, off, ty, vals, k) == EncodeFields(s, d, off, ty, vals', k)
    decreases |StructLayout(ty.fields).value.packedFields| - k
  {
    hide StructLayout, EncodeField, PutBit;
    if k < |StructLayout(ty.fields).value.packedFields| {
      LF.PackedStands(ty.fields, k);
      var r := EncodePacked(s, d, off, ty, vals, k);
      assert FieldAt(vals, StructLayout(ty.fields).value.packedFields[k].src.field.index) ==
        FieldAt(vals', StructLayout(ty.fields).value.packedFields[k].src.field.index);
      assert r == EncodePacked(s, d, off, ty, vals', k);
      if r.Ok? { MissingIsNull(r.value, d, off, ty, vals, vals', k + 1); }
    }
  }

  /** A map with more keys than values, or fewer, is refused with both numbers before its depth is
      looked at; below 64 arrays and maps no more are taken. */
  lemma MapRefused(s: Enc, d: nat, t: nat, ty: Type, keys: seq<Value>, values: seq<Value>)
    requires ty.Map?
    ensures |keys| != |values| ==>
      EncodeMapAt(s, d, t, ty, keys, values) == Err(MapKeyCountMismatch(|keys|, |values|))
    ensures |keys| == |values| && d >= 64 ==>
      EncodeMapAt(s, d, t, ty, keys, values) == Err(RecursionLimitExceeded(d + 1))
  {
    hide EncodeArrayBody, Start;
  }

  lemma ArrayRefused(s: Enc, d: nat, off: nat, ty: Type, items: seq<Value>)
    requires ty.Array? && d >= 64
    ensures EncodeArray(s, d, off, ty, items) == Err(RecursionLimitExceeded(d + 1))
  {
    hide EncodeArrayBody, Start;
  }
}
