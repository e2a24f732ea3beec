/** Heap discipline of the encoder: encoding a value changes only its own slot among the
    bytes already there, and appends the rest. */
module EncodeFrame {
  import opened Results
  import opened Bytes
  import opened Schema
  import opened Pointers
  import opened Encode
  import LF = LayoutFacts

  /** The bytes a field or element of this type takes in place. */
  function SlotSize(ty: Type): nat {
    ty.PackKind().Size()
  }

  lemma FrameThen(a: seq<byte>, b: seq<byte>, c: seq<byte>, lo: nat, hi: nat, from: nat, to: nat)
    requires Frame(a, b, lo, hi) && Frame(b, c, from, to)
    requires (lo <= from && to <= hi) || |a| <= from
    ensures Frame(a, c, lo, hi)
  {
  }

  lemma FrameWiden(a: seq<byte>, b: seq<byte>, lo: nat, hi: nat, lo': nat, hi': nat)
    requires Frame(a, b, lo, hi) && lo' <= lo && hi <= hi'
    ensures Frame(a, b, lo', hi') && |a| <= |b|
  {
  }

  /** A write is framed by its own range; one at the end of the buffer only extends it. */
  lemma WriteFrames(buf: seq<byte>, off: nat, data: seq<byte>)
    ensures Frame(buf, WriteAt(buf, off, data), off, off + |data|)
  {
  }

  lemma PrefixFrames(a: seq<byte>, b: seq<byte>, lo: nat, hi: nat)
    requires a <= b
    ensures Frame(a, b, lo, hi)
  {
  }

  lemma FrameIsPrefix(a: seq<byte>, b: seq<byte>, lo: nat, hi: nat)
    requires Frame(a, b, lo, hi) && |a| <= lo
    ensures a <= b
  {
  }

  /** Two integers written over freshly grown space. */
  lemma HeaderFrames(s: Enc, off: nat, size: nat, x: nat, y: nat, hi: nat)
    requires off + 8 <= hi
    ensures var r := Put(Put(s.(buf := Grow(s.buf, off + size)), off, x, 4), off + 4, y, 4);
      Frame(s.buf, r.buf, off, hi)
  {
    var g := Grow(s.buf, off + size);
    WriteFrames(g, off, LE(x, 4));
    var g1 := WriteAt(g, off, LE(x, 4));
    WriteFrames(g1, off + 4, LE(y, 4));
  }

  /** An object appended and then a pointer to it written into an existing slot. */
  lemma ObjectThenPointer(s: Enc, s2: Enc, off: nat, target: nat)
    requires Start(s).buf <= s2.buf && off + 8 <= |s.buf|
    ensures Frame(s.buf, PutPointer(s2, off, target).buf, off, off + 8)
  {
    WriteFrames(s2.buf, off, LE(EncodePointer(off, target), 8));
  }

  lemma StringHeaderRoom(s: Enc, n: nat)
    ensures var r := StringHeader(s, |s.buf|, n).buf;
      s.buf <= r && |r| == |s.buf| + AlignUp(8 + n + 1)
  {
    var t, total := |s.buf|, AlignUp(8 + n + 1);
    HeaderFrames(s, t, total, total, n, t + 8);
  }

  lemma StringAtExtends(s: Enc, data: seq<byte>)
    ensures s.buf <= EncodeStringAt(s, |s.buf|, data).buf
  {
    hide StringHeader;
    StringHeaderRoom(s, |data|);
    WriteFrames(StringHeader(s, |s.buf|, |data|).buf, |s.buf| + 8, data + [0]);
  }

  lemma StringFrames(s: Enc, off: nat, data: seq<byte>)
    requires off + 8 <= |s.buf|
    ensures Frame(s.buf, EncodeString(s, off, data).value.buf, off, off + 8)
  {
    var s1 := Start(s);
    StringAtExtends(s1, data);
    ObjectThenPointer(s, EncodeStringAt(s1, |s1.buf|, data), off, |s1.buf|);
  }

  /** A struct written at or up to 8 bytes before the end of the buffer, or one without fields,
      changes of what was there only the 8 bytes of its header. */
  lemma {:induction false} StructFrames(s: Enc, d: nat, off: nat, ty: Type, v: Value)
    requires ty.Struct? && SchemaOk(ty) && Neat(ty, v) && off <= |s.buf|
    requires |ty.fields| > 0 ==> |s.buf| <= off + 8
    requires EncodeStruct(s, d, off, ty, v).Ok?
    ensures Frame(s.buf, EncodeStruct(s, d, off, ty, v).value.buf, off, off + 8)
    ensures |ty.fields| == 0 ==> |EncodeStruct(s, d, off, ty, v).value.buf| == Max(|s.buf|, off + 8)
    decreases ty, 1, 0
  {
    hide SchemaOk, Neat, StructLayout, Frame, StructHeader, EncodeFields, NeatFields;
    SchemaStruct(ty);
    NeatStruct(ty, v);
    var layout := StructLayout(ty.fields).value;
    var s1 := StructHeader(s, off, layout.size, v.version);
    LF.SizeIsRounded(ty.fields);
    StructHeaderFrames(s, off, layout.size, v.version);
    if |ty.fields| == 0 {
      LF.EmptyLayout();
      assert ty.fields == [];
      NoFields(s1, d, off, ty, v.fields);
    } else {
      RoomAtStart(s1, off, ty.fields, v.fields);
      FieldsFrame(s1, d, off, ty, v.fields, 0);
      FrameThen(s.buf, s1.buf, EncodeStruct(s, d, off, ty, v).value.buf, off, off + 8, off + 8, off + layout.size);
    }
  }

  lemma NoFields(s: Enc, d: nat, off: nat, ty: Type, vals: seq<Value>)
    requires ty.Struct? && StructLayout(ty.fields).Ok? && StructLayout(ty.fields).value.packedFields == []
    ensures EncodeFields(s, d, off, ty, vals, 0) == Ok(s)
  {
    hide StructLayout;
  }

  lemma StructHeaderFrames(s: Enc, off: nat, size: nat, version: nat)
    requires size >= 8
    ensures var r := StructHeader(s, off, size, version).buf;
      Frame(s.buf, r, off, off + 8) && |r| == Max(|s.buf|, off + size)
  {
    HeaderFrames(s, off, size, size, version, off + 8);
  }

  lemma SchemaStruct(ty: Type)
    requires ty.Struct? && SchemaOk(ty)
    ensures StructLayout(ty.fields).Ok?
    ensures forall i :: 0 <= i < |ty.fields| ==> SchemaOk(ty.fields[i].ty)
  {
  }

  lemma NeatStruct(ty: Type, v: Value)
    requires ty.Struct? && v.Struct? && Neat(ty, v)
    ensures NeatFields(ty.fields, v.fields)
  {
  }

  ghost predicate NeatFields(fields: seq<FieldType>, vals: seq<Value>) {
    NoOverlap(fields, vals) && forall i :: 0 <= i < |fields| ==> Neat(fields[i].ty, FieldAt(vals, i))
  }

  /** A struct at the end of the buffer only extends it. */
  lemma StructExtends(s: Enc, d: nat, ty: Type, v: Value)
    requires ty.Struct? && SchemaOk(ty) && Neat(ty, v) && EncodeStruct(s, d, |s.buf|, ty, v).Ok?
    ensures s.buf <= EncodeStruct(s, d, |s.buf|, ty, v).value.buf
    decreases ty, 1, 1
  {
    hide SchemaOk, Neat, EncodeStruct;
    StructFrames(s, d, |s.buf|, ty, v);
    FrameIsPrefix(s.buf, EncodeStruct(s, d, |s.buf|, ty, v).value.buf, |s.buf|, |s.buf| + 8);
  }

  /** While a field that will be written past its slot is still to come, the struct's own bytes
      end the buffer. */
  ghost predicate SpillRoom(s: Enc, off: nat, fields: seq<FieldType>, vals: seq<Value>, k: nat)
    requires StructLayout(fields).Ok?
  {
    var l := StructLayout(fields).value;
    forall j :: k <= j < |l.packedFields| && PackedSpills(l.packedFields[j], fields, vals) ==> |s.buf| == off + l.size
  }

  lemma {:induction false} FieldsFrame(s: Enc, d: nat, off: nat, ty: Type, vals: seq<Value>, k: nat)
    requires ty.Struct? && SchemaOk(ty) && k <= |StructLayout(ty.fields).value.packedFields|
    requires NeatFields(ty.fields, vals)
    requires off + StructLayout(ty.fields).value.size <= |s.buf| && SpillRoom(s, off, ty.fields, vals, k)
    requires EncodeFields(s, d, off, ty, vals, k).Ok?
    ensures Frame(s.buf, EncodeFields(s, d, off, ty, vals, k).value.buf, off + 8,
      off + StructLayout(ty.fields).value.size)
    decreases ty, 0, |StructLayout(ty.fields).value.packedFields| - k, 1
  {
    hide SchemaOk, StructLayout, Frame, EncodePacked, NeatFields, SpillRoom, Neat;
    SchemaStruct(ty);
    var layout := StructLayout(ty.fields).value;
    if k < |layout.packedFields| {
      PackedFrame(s, d, off, ty, vals, k);
      var p := layout.packedFields[k];
      var s1 := EncodePacked(s, d, off, ty, vals, k).value;
      LF.PackedStands(ty.fields, k);
      RoomLeft(s, s1, off, ty.fields, vals, k);
      FrameWiden(s.buf, s1.buf, off + 8 + p.offset, off + 8 + p.End(), off + 8, off + layout.size);
      FieldsFrame(s1, d, off, ty, vals, k + 1);
      var r := EncodeFields(s1, d, off, ty, vals, k + 1).value;
      FrameThen(s.buf, s1.buf, r.buf, off + 8, off + layout.size, off + 8, off + layout.size);
    } else {
      PrefixFrames(s.buf, s.buf, off + 8, off + layout.size);
    }
  }

  lemma RoomAtStart(s: Enc, off: nat, fields: seq<FieldType>, vals: seq<Value>)
    requires StructLayout(fields).Ok?
    requires |fields| > 0 ==> |s.buf| == off + StructLayout(fields).value.size
    ensures SpillRoom(s, off, fields, vals, 0)
  {
    hide StructLayout, Spills;
  }

  /** Before a field that spills nothing has been appended, so the room is still there. */
  lemma RoomLeft(s: Enc, s1: Enc, off: nat, fields: seq<FieldType>, vals: seq<Value>, k: nat)
    requires StructLayout(fields).Ok? && k < |StructLayout(fields).value.packedFields|
    requires NeatFields(fields, vals) && SpillRoom(s, off, fields, vals, k)
    requires PackedInside(StructLayout(fields).value.packedFields[k], fields, vals) ==> |s1.buf| == |s.buf|
    ensures SpillRoom(s1, off, fields, vals, k + 1)
  {
    hide StructLayout, PackedInside, PackedSpills;
  }

  /** A type that can be written past its slot fills whole words of it. */
  lemma SpillKind(ty: Type, v: Value, wide: bool)
    requires Spills(ty, v, wide)
    ensures ty.PackKind().Struct? || ty.PackKind().Union?
  {
  }

  lemma {:induction false} PackedFrame(s: Enc, d: nat, off: nat, ty: Type, vals: seq<Value>, k: nat)
    requires ty.Struct? && SchemaOk(ty) && k < |StructLayout(ty.fields).value.packedFields|
    requires NeatFields(ty.fields, vals)
    requires off + StructLayout(ty.fields).value.size <= |s.buf| && SpillRoom(s, off, ty.fields, vals, k)
    requires EncodePacked(s, d, off, ty, vals, k).Ok?
    ensures var p := StructLayout(ty.fields).value.packedFields[k];
      Frame(s.buf, EncodePacked(s, d, off, ty, vals, k).value.buf, off + 8 + p.offset, off + 8 + p.End())
    ensures PackedInside(StructLayout(ty.fields).value.packedFields[k], ty.fields, vals) ==>
      |EncodePacked(s, d, off, ty, vals, k).value.buf| == |s.buf|
    decreases ty, 0, |StructLayout(ty.fields).value.packedFields| - k, 0
  {
    hide SchemaOk, StructLayout, Frame, EncodeField, Neat, Spills, Inside, NoOverlap, SpillRoom, PutBit;
    SchemaStruct(ty);
    var p := StructLayout(ty.fields).value.packedFields[k];
    LF.PackedStands(ty.fields, k);
    var i, at := p.src.field.index, off + 8 + p.offset;
    var v := FieldAt(vals, i);
    var ft := ty.fields[i].ty;
    PackedRoom(s, off, ty.fields, vals, k);
    if p.src.field.nullableValueKind {
      if p.src.field.kind.Bool? {
        BitFrames(s, at, p.bit, v.NullableScalar? && v.present);
      } else {
        NullableNeat(ft, v);
        if v.NullableScalar? && v.present {
          FieldFrames(s, d, at, p.Size(), 0, ft.inner, v.value, true);
        } else {
          PrefixFrames(s.buf, s.buf, at, at + p.Size());
        }
      }
    } else {
      FieldFrames(s, d, at, p.Size(), p.bit, ft, v, true);
      if p.src.field.kind.Bool? { BoolInside(ft, v); }
    }
  }

  /** A nullable scalar is written as what it holds. */
  lemma NullableNeat(ty: Type, v: Value)
    requires ty.NullableScalar? && Neat(ty, v)
    ensures v.NullableScalar? && v.present ==>
      Neat(ty.inner, v.value) && (Inside(ty, v, true) ==> Inside(ty.inner, v.value, true))
      && (Spills(ty.inner, v.value, true) ==> Spills(ty, v, true))
    ensures SchemaOk(ty) ==> SchemaOk(ty.inner)
    ensures SlotSize(ty) == SlotSize(ty.inner)
  {
  }

  lemma BoolInside(ty: Type, v: Value)
    requires ty.PackKind().Bool? && !ty.NullableScalar?
    ensures Inside(ty, v, true)
  {
  }

  lemma BitFrames(s: Enc, off: nat, bit: nat, on: bool)
    requires bit < 8 && PutBit(s, off, bit, on).Ok?
    ensures Frame(s.buf, PutBit(s, off, bit, on).value.buf, off, off + 1)
    ensures |PutBit(s, off, bit, on).value.buf| == |s.buf|
  {
  }

  /** What a packed field's slot means for the field behind it. */
  lemma PackedRoom(s: Enc, off: nat, fields: seq<FieldType>, vals: seq<Value>, k: nat)
    requires StructLayout(fields).Ok? && k < |StructLayout(fields).value.packedFields|
    requires NeatFields(fields, vals) && SpillRoom(s, off, fields, vals, k)
    requires off + StructLayout(fields).value.size <= |s.buf|
    ensures var p := StructLayout(fields).value.packedFields[k]; var i, at := p.src.field.index, off + 8 + p.offset;
      && LF.Stands(p, fields) && at + p.Size() <= |s.buf|
      && (!p.src.field.kind.Bool? ==> p.Size() == SlotSize(fields[i].ty))
      && (p.src.field.kind.Bool? ==> p.Size() == 1)
      && (!fields[i].ty.NullableScalar? ==>
        (p.src.field.kind == fields[i].ty.PackKind()) && p.Size() == SlotSize(fields[i].ty))
      && (!p.src.field.kind.Bool? && Spills(fields[i].ty, FieldAt(vals, i), true) ==> at + p.Size() == |s.buf|)
      && (PackedInside(p, fields, vals) && !p.src.field.kind.Bool? ==> Inside(fields[i].ty, FieldAt(vals, i), true))
      && (!fields[i].ty.NullableScalar? && Spills(fields[i].ty, FieldAt(vals, i), true) ==> !p.src.field.kind.Bool?)
  {
    hide StructLayout, Spills, Inside;
    LF.PackedStands(fields, k);
    var p := StructLayout(fields).value.packedFields[k];
    var i := p.src.field.index;
    if Spills(fields[i].ty, FieldAt(vals, i), true) {
      SpillKind(fields[i].ty, FieldAt(vals, i), true);
      if !p.src.field.kind.Bool? {
        assert PackedSpills(p, fields, vals);
        LF.LastEnds(fields, k);
      }
    }
  }

  lemma PutFrames(s: Enc, off: nat, n: nat, k: nat)
    ensures Frame(s.buf, Put(s, off, n, k).buf, off, off + k)
    ensures Frame(s.buf, PutHandle(s, off, n).buf, off, off + 4)
  {
    WriteFrames(s.buf, off, LE(n, k));
    WriteFrames(s.buf, off, LE(n, 4));
  }

  lemma PairFrames(s: Enc, off: nat, m: nat, n: nat)
    ensures Frame(s.buf, Put(PutHandle(s, off, m), off + 4, n, 4).buf, off, off + 8)
    ensures Frame(s.buf, Put(Put(s, off, m, 4), off + 4, n, 4).buf, off, off + 8)
  {
    var s1 := Put(s, off, m, 4);
    PutFrames(s, off, m, 4);
    PutFrames(s1, off + 4, n, 4);
    FrameThen(s.buf, s.buf, s1.buf, off, off + 8, off, off + 4);
    FrameThen(s.buf, s1.buf, Put(s1, off + 4, n, 4).buf, off, off + 8, off + 4, off + 8);
  }

  lemma InPlaceFrames(s: Enc, off: nat, bit: nat, ty: Type, v: Value)
    requires bit < 8 && ty.IsInPlace() && EncodeInPlace(s, off, bit, ty, v).Ok?
    ensures Frame(s.buf, EncodeInPlace(s, off, bit, ty, v).value.buf, off, off + SlotSize(ty))
  {
    hide Put, PutHandle, LE, FromLE;
    match ty
    case Bool =>
    case Num(k) => PutFrames(s, off, k.ToUnsigned(v.n), k.Width());
    case Enum => PutFrames(s, off, v.n % TWO_32, 4);
    case Handle => PutFrames(s, off, v.index, 4);
    case Interface(version) => PairFrames(s, off, v.index, Max(v.version, version));
    case AssociatedEndpoint => PutFrames(s, off, v.id, 4);
    case AssociatedInterface(version) => PairFrames(s, off, v.id, Max(v.version, version));
  }

  lemma InPlaceLength(s: Enc, off: nat, bit: nat, ty: Type, v: Value)
    requires bit < 8 && ty.IsInPlace() && EncodeInPlace(s, off, bit, ty, v).Ok? && off + SlotSize(ty) <= |s.buf|
    ensures |EncodeInPlace(s, off, bit, ty, v).value.buf| == |s.buf|
  {
    hide LE, FromLE, SetBit;
  }

  /** A null that is written takes 8 bytes. */
  lemma NullSlotSize(ty: Type)
    requires ty.IsNullable() && !ty.NullableScalar?
    ensures SlotSize(ty) >= 8
  {
  }

  /** Encoding a field changes of the existing buffer only its slot of `n` bytes. One written past
      its slot needs the slot to end the buffer; one that stays inside leaves the length as it is. */
  lemma {:induction false} FieldFrames(s: Enc, d: nat, off: nat, n: nat, bit: nat, ty: Type, v: Value, wide: bool)
    requires bit < 8 && SchemaOk(ty) && Neat(ty, v) && off + n <= |s.buf| && n == (if wide then SlotSize(ty) else 8)
    requires Spills(ty, v, wide) ==> off + n == |s.buf|
    requires EncodeField(s, d, off, bit, ty, v).Ok?
    ensures Frame(s.buf, EncodeField(s, d, off, bit, ty, v).value.buf, off, off + n)
    ensures Inside(ty, v, wide) ==> |EncodeField(s, d, off, bit, ty, v).value.buf| == |s.buf|
    decreases ty, 4, 0
  {
    hide Frame, EncodeInPlace, EncodeObject, Put, SlotSize;
    if ty.IsInPlace() {
      InPlaceSlot(ty);
      InPlaceFrames(s, off, bit, ty, v);
      InPlaceLength(s, off, bit, ty, v);
      FrameWiden(s.buf, EncodeInPlace(s, off, bit, ty, v).value.buf, off, off + SlotSize(ty), off, off + n);
    } else if ty.NullableScalar? {
      PrefixFrames(s.buf, s.buf, off, off + n);
      SameSlot(ty);
      if v.NullableScalar? && v.present { FieldFrames(s, d, off, n, bit, ty.inner, v.value, wide); }
    } else if v.Null? {
      NullSlotSize(ty);
      PutFrames(s, off, 0, 8);
      PutLength(s, off, 0, 8);
      FrameWiden(s.buf, Put(s, off, 0, 8).buf, off, off + 8, off, off + n);
    } else {
      ObjectFrames(s, d, off, n, ty, v, wide);
    }
  }

  lemma PutLength(s: Enc, off: nat, n: nat, k: nat)
    ensures |Put(s, off, n, k).buf| == Max(|s.buf|, off + k)
  {
  }

  lemma InPlaceSlot(ty: Type)
    requires ty.IsInPlace()
    ensures SlotSize(ty) <= 8
  {
  }

  lemma SameSlot(ty: Type)
    requires ty.NullableScalar?
    ensures SlotSize(ty) == SlotSize(ty.inner)
  {
  }

  lemma ObjectSlot(ty: Type)
    requires !ty.IsInPlace() && !ty.NullableScalar?
    ensures SlotSize(ty) == if ty.Union? && ty.inlined then 16 else 8
  {
  }

  /** What a frame says about bytes that are not there yet does not matter. */
  lemma FrameNarrow(a: seq<byte>, b: seq<byte>, lo: nat, hi: nat, hi': nat)
    requires Frame(a, b, lo, hi) && (hi <= hi' || |a| <= hi')
    ensures Frame(a, b, lo, hi')
  {
  }

  lemma {:induction false} ObjectFrames(s: Enc, d: nat, off: nat, n: nat, ty: Type, v: Value, wide: bool)
    requires !ty.IsInPlace() && !ty.NullableScalar? && !v.Null? && SchemaOk(ty) && Neat(ty, v)
    requires off + n <= |s.buf| && n == (if wide then SlotSize(ty) else 8)
    requires Spills(ty, v, wide) ==> off + n == |s.buf|
    requires EncodeObject(s, d, off, ty, v).Ok?
    ensures Frame(s.buf, EncodeObject(s, d, off, ty, v).value.buf, off, off + n)
    ensures Inside(ty, v, wide) ==> |EncodeObject(s, d, off, ty, v).value.buf| == |s.buf|
    decreases ty, 3, 1
  {
    hide Frame, Start, PutPointer, EncodeString, EncodeArray, EncodeMap, EncodeStruct, EncodeUnion, SlotSize;
    ObjectSlot(ty);
    var s1 := Start(s);
    match ty
    case String(_) => StringFrames(s, off, v.s);
    case Array(_, _) => ArrayFrames(s, d, off, ty, v.items);
    case Map(_, _, _) => MapFrames(s, d, off, ty, v.keys, v.values);
    case Struct(_, _, nullable) =>
      if nullable {
        StructExtends(s1, d, ty, v);
        ObjectThenPointer(s, EncodeStruct(s1, d, |s1.buf|, ty, v).value, off, |s1.buf|);
      } else {
        StructFrames(s, d, off, ty, v);
      }
    case Union(_, _, inlined) =>
      if inlined {
        UnionFrames(s, d, off, ty, v.tag, v.value);
        FrameNarrow(s.buf, EncodeUnion(s, d, off, ty, v.tag, v.value).value.buf, off, off + 16, off + n);
      } else {
        UnionFrames(s1, d, |s1.buf|, ty, v.tag, v.value);
        var s2 := EncodeUnion(s1, d, |s1.buf|, ty, v.tag, v.value).value;
        FrameIsPrefix(s1.buf, s2.buf, |s1.buf|, |s1.buf| + 16);
        ObjectThenPointer(s, s2, off, |s1.buf|);
      }
  }

  lemma {:induction false} UnionFrames(s: Enc, d: nat, off: nat, ty: Type, tag: nat, v: Value)
    requires ty.Union? && tag < |ty.members| && SchemaOk(ty) && Neat(ty.members[tag], v)
    requires off <= |s.buf| && (Spills(ty.members[tag], v, false) ==> |s.buf| <= off + 16)
    requires EncodeUnion(s, d, off, ty, tag, v).Ok?
    ensures Frame(s.buf, EncodeUnion(s, d, off, ty, tag, v).value.buf, off, off + 16)
    ensures Inside(ty.members[tag], v, false) ==>
      |EncodeUnion(s, d, off, ty, tag, v).value.buf| == Max(|s.buf|, off + 16)
    decreases ty, 2, 0
  {
    hide Frame, UnionHeader, EncodeUnionPayload, Spills, Inside;
    UnionHeaderFrames(s, off, tag);
    var s1 := UnionHeader(s, off, tag);
    PayloadFrames(s1, d, off + 8, ty.members[tag], v);
    FrameThen(s.buf, s1.buf, EncodeUnion(s, d, off, ty, tag, v).value.buf, off, off + 16, off + 8, off + 16);
  }

  /** An inlined union is written as a field where it stands. */
  lemma InlinedField(s: Enc, d: nat, off: nat, ty: Type, v: Value)
    requires ty.Union? && ty.inlined && v.Union? && v.tag < |ty.members|
    ensures EncodeField(s, d, off, 0, ty, v) == EncodeUnion(s, d, off, ty, v.tag, v.value)
  {
    hide EncodeUnion;
    assert EncodeField(s, d, off, 0, ty, v) == EncodeObject(s, d, off, ty, v);
  }

  lemma UnionHeaderFrames(s: Enc, off: nat, tag: nat)
    ensures Frame(s.buf, UnionHeader(s, off, tag).buf, off, off + 16)
    ensures |UnionHeader(s, off, tag).buf| == Max(|s.buf|, off + 16)
  {
    HeaderFrames(s, off, 16, 16, tag, off + 16);
  }

  lemma {:induction false} PayloadFrames(s: Enc, d: nat, off: nat, ty: Type, v: Value)
    requires SchemaOk(ty) && Neat(ty, v) && EncodeUnionPayload(s, d, off, ty, v).Ok?
    requires off + 8 <= |s.buf| && (Spills(ty, v, false) ==> off + 8 == |s.buf|)
    ensures Frame(s.buf, EncodeUnionPayload(s, d, off, ty, v).value.buf, off, off + 8)
    ensures Inside(ty, v, false) ==> |EncodeUnionPayload(s, d, off, ty, v).value.buf| == |s.buf|
    decreases ty, 5, 0
  {
    hide Frame, EncodeField, EncodeStruct, EncodeString, EncodeArrayBody, EncodeMap, Start, PutPointer;
    if ty.InlineStruct() && v.Struct? {
      StructFrames(s, d, off, ty, v);
    } else if ty.String? && v.String? {
      StringFrames(s, off, v.s);
    } else if ty.Array? && v.Array? {
      var s1 := Start(s);
      BodyExtends(s1, d, ty.element, v.items);
      ObjectThenPointer(s, EncodeArrayBody(s1, d, |s1.buf|, ty.element, v.items).value, off, |s1.buf|);
    } else if ty.Map? && v.Map? {
      MapFrames(s, d, off, ty, v.keys, v.values);
    } else {
      FieldFrames(s, d, off, 8, 0, ty, v, false);
    }
  }

  /** Every element is neat. */
  ghost predicate NeatAll(ty: Type, items: seq<Value>) {
    forall i :: 0 <= i < |items| ==> Neat(ty, items[i])
  }

  lemma {:induction false} ArrayFrames(s: Enc, d: nat, off: nat, ty: Type, items: seq<Value>)
    requires ty.Array? && SchemaOk(ty) && NeatAll(ty.element, items) && EncodeArray(s, d, off, ty, items).Ok?
    requires off + 8 <= |s.buf|
    ensures Frame(s.buf, EncodeArray(s, d, off, ty, items).value.buf, off, off + 8)
    decreases ty, 3, 0
  {
    hide Frame, PutPointer, EncodeArrayBody, Start, Neat, NeatAll;
    var s1 := Start(s);
    BodyExtends(s1, d + 1, ty.element, items);
    ObjectThenPointer(s, EncodeArrayBody(s1, d + 1, |s1.buf|, ty.element, items).value, off, |s1.buf|);
  }

  lemma ArrayHeaderRoom(s: Enc, size: nat, n: nat)
    ensures var r := ArrayHeader(s, |s.buf|, size, n).buf;
      s.buf <= r && |r| == |s.buf| + AlignUp(8 + size * n)
  {
    hide Frame, LE, Grow;
    var t, total := |s.buf|, AlignUp(8 + size * n);
    HeaderFrames(s, t, total, total, n, t + 8);
    FrameIsPrefix(s.buf, ArrayHeader(s, t, size, n).buf, t, t + 8);
  }

  lemma FrameKeepsPrefix(a: seq<byte>, b: seq<byte>, c: seq<byte>, lo: nat, hi: nat)
    requires a <= b && Frame(b, c, lo, hi) && |a| <= lo
    ensures a <= c && |b| <= |c|
  {
  }

  /** How many bytes `n` elements take. */
  function Extent(element: Type, n: nat): nat {
    element.ElementSize() * n
  }

  lemma ExtentSucc(element: Type, n: nat)
    ensures Extent(element, n + 1) == element.ElementSize() + Extent(element, n)
  {
  }

  lemma {:induction false} BodyExtends(s: Enc, d: nat, element: Type, items: seq<Value>)
    requires SchemaOk(element) && NeatAll(element, items) && EncodeArrayBody(s, d, |s.buf|, element, items).Ok?
    ensures s.buf <= EncodeArrayBody(s, d, |s.buf|, element, items).value.buf
    decreases element, 7, 0
  {
    hide Frame, ArrayHeader, EncodeItems, AlignUp;
    var t, size := |s.buf|, element.ElementSize();
    var s1 := ArrayHeader(s, t, size, |items|);
    ArrayHeaderRoom(s, size, |items|);
    ItemsFrame(s1, d, t + 8, element, items);
    FrameKeepsPrefix(s.buf, s1.buf, EncodeArrayBody(s, d, t, element, items).value.buf, t + 8, t + 8 + size * |items|);
  }

  lemma {:induction false} ItemsFrame(s: Enc, d: nat, off: nat, element: Type, items: seq<Value>)
    requires SchemaOk(element) && NeatAll(element, items) && EncodeItems(s, d, off, element, items).Ok?
    requires off + Extent(element, |items|) <= |s.buf|
    ensures Frame(s.buf, EncodeItems(s, d, off, element, items).value.buf, off, off + Extent(element, |items|))
    decreases element, 6, |items|
  {
    hide Frame, EncodeItem, Extent, Type.ElementSize;
    if |items| > 0 {
      var size, rest := element.ElementSize(), items[1..];
      var all, more := Extent(element, |items|), Extent(element, |rest|);
      ExtentSucc(element, |rest|);
      ItemFrames(s, d, off, element, items[0]);
      var s1 := EncodeItem(s, d, off, element, items[0]).value;
      FrameWiden(s.buf, s1.buf, off, off + size, off, off + all);
      ItemsFrame(s1, d, off + size, element, rest);
      var r := EncodeItems(s1, d, off + size, element, rest).value;
      FrameThen(s.buf, s1.buf, r.buf, off, off + all, off + size, off + size + more);
    } else {
      PrefixFrames(s.buf, s.buf, off, off + Extent(element, |items|));
    }
  }

  lemma PodStays(ty: Type, v: Value)
    requires ty.IsPod()
    ensures !Spills(ty, v, true) && SlotSize(ty) == ty.ElementSize()
  {
  }

  lemma {:induction false} ItemFrames(s: Enc, d: nat, off: nat, element: Type, item: Value)
    requires SchemaOk(element) && Neat(element, item) && EncodeItem(s, d, off, element, item).Ok?
    requires off + element.ElementSize() <= |s.buf|
    ensures Frame(s.buf, EncodeItem(s, d, off, element, item).value.buf, off, off + element.ElementSize())
    decreases element, 5, 1
  {
    hide Frame, PutPointer, EncodeElement, EncodeField, Start, Spills;
    if element.IsPod() {
      PodStays(element, item);
      FieldFrames(s, d, off, SlotSize(element), 0, element, item, true);
    } else if item.Null? {
      WriteFrames(s.buf, off, LE(0, 8));
    } else {
      var s1 := Start(s);
      ElementExtends(s1, d, element, item);
      ObjectThenPointer(s, EncodeElement(s1, d, |s1.buf|, element, item).value, off, |s1.buf|);
    }
  }

  lemma {:induction false} ElementExtends(s: Enc, d: nat, element: Type, item: Value)
    requires SchemaOk(element) && Neat(element, item) && EncodeElement(s, d, |s.buf|, element, item).Ok?
    ensures s.buf <= EncodeElement(s, d, |s.buf|, element, item).value.buf
    decreases element, 5, 0
  {
    match element
    case Struct(_, _, nullable) =>
      if !(nullable && item.Null?) { StructExtends(s, d, element, item); }
    case String(_) => StringAtExtends(s, if item.String? then item.s else []);
    case Array(inner, _) => BodyExtends(s, d, inner, if item.Array? then item.items else []);
    case Map(_, _, _) => MapAtExtends(s, d, element, item.keys, item.values);
    case _ =>
  }

  lemma {:induction false} MapFrames(s: Enc, d: nat, off: nat, ty: Type, keys: seq<Value>, values: seq<Value>)
    requires ty.Map? && SchemaOk(ty) && NeatAll(ty.key, keys) && NeatAll(ty.value, values)
    requires EncodeMap(s, d, off, ty, keys, values).Ok?
    requires off + 8 <= |s.buf|
    ensures Frame(s.buf, EncodeMap(s, d, off, ty, keys, values).value.buf, off, off + 8)
    decreases ty, 3, 0
  {
    hide Frame, PutPointer, EncodeMapAt, Start, Neat, NeatAll;
    var s1 := Start(s);
    MapAtExtends(s1, d, ty, keys, values);
    ObjectThenPointer(s, EncodeMapAt(s1, d, |s1.buf|, ty, keys, values).value, off, |s1.buf|);
  }

  lemma {:induction false} MapAtExtends(s: Enc, d: nat, ty: Type, keys: seq<Value>, values: seq<Value>)
    requires ty.Map? && SchemaOk(ty) && NeatAll(ty.key, keys) && NeatAll(ty.value, values)
    requires EncodeMapAt(s, d, |s.buf|, ty, keys, values).Ok?
    ensures s.buf <= EncodeMapAt(s, d, |s.buf|, ty, keys, values).value.buf
    decreases ty, 2, 0
  {
    hide Frame, MapHeader, PutPointer, EncodeArrayBody, Start;
    var t := |s.buf|;
    var s1 := MapHeader(s, t);
    MapHeaderRoom(s);
    MapHalfFrames(s1, d + 1, t + 8, ty.key, keys);
    var k0 := Start(s1);
    var k1 := EncodeArrayBody(k0, d + 1, |k0.buf|, ty.key, keys).value;
    var k2 := PutPointer(k1, t + 8, |k0.buf|);
    MapHalfFrames(k2, d + 1, t + 16, ty.value, values);
    FrameKeepsPrefix(s.buf, s1.buf, k2.buf, t + 8, t + 16);
    FrameKeepsPrefix(s.buf, k2.buf, EncodeMapAt(s, d, t, ty, keys, values).value.buf, t + 16, t + 24);
  }

  lemma MapHeaderRoom(s: Enc)
    ensures var r := MapHeader(s, |s.buf|).buf; s.buf <= r && |r| == |s.buf| + 24
  {
    HeaderFrames(s, |s.buf|, 24, 24, 0, |s.buf| + 24);
  }

  /** One of a map's two arrays, with the pointer to it in the map object. */
  lemma {:induction false} MapHalfFrames(s: Enc, d: nat, off: nat, element: Type, items: seq<Value>)
    requires SchemaOk(element) && NeatAll(element, items) && off + 8 <= |s.buf|
    requires EncodeArrayBody(Start(s), d, |Start(s).buf|, element, items).Ok?
    ensures var s2 := EncodeArrayBody(Start(s), d, |Start(s).buf|, element, items).value;
      Frame(s.buf, PutPointer(s2, off, |Start(s).buf|).buf, off, off + 8)
    decreases element, 8, 0
  {
    BodyExtends(Start(s), d, element, items);
    ObjectThenPointer(s, EncodeArrayBody(Start(s), d, |Start(s).buf|, element, items).value, off, |Start(s).buf|);
  }
}
