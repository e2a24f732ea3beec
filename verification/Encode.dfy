/** The encoder. Objects are appended to a growing buffer, 8-aligned and in depth-first order;
    the slot that refers to an object is patched with a relative pointer afterwards. */
module Encode {
  import opened Results
  import opened WireErrors
  import opened Bytes
  import opened Schema
  import opened Pointers
  import LF = LayoutFacts

  const MAX_ENCODE_DEPTH: nat := 64

  /** The buffer so far and the number of handles attached. */
  datatype Enc = Enc(buf: seq<byte>, handles: nat)

  type Encoded = Result<Enc, WireError>

  const MISMATCH: WireError := Unsupported(ValueMismatch)

  function AlignUp(n: nat): (r: nat)
    ensures n <= r < n + 8 && r % 8 == 0
  {
    (n + 7) / 8 * 8
  }

  function Put(s: Enc, off: nat, n: nat, k: nat): Enc {
    s.(buf := WriteAt(s.buf, off, LE(n, k)))
  }

  function PutBit(s: Enc, off: nat, bit: nat, on: bool): Encoded
    requires bit < 8
  {
    if off < |s.buf| then Ok(s.(buf := s.buf[off := SetBit(s.buf[off], bit, on)])) else Err(OutOfBounds)
  }

  /** A handle index, counted unless it is the sentinel. */
  function PutHandle(s: Enc, off: nat, index: nat): Enc {
    var s1 := Put(s, off, index, 4);
    if index == ENCODED_INVALID_HANDLE_VALUE then s1 else s1.(handles := s.handles + 1)
  }

  /** Pad to the next object boundary; the object starts at the end of the result. */
  function Start(s: Enc): (r: Enc)
    ensures |r.buf| == AlignUp(|s.buf|) && s.buf <= r.buf && r.handles == s.handles
  {
    s.(buf := Grow(s.buf, AlignUp(|s.buf|)))
  }

  function PutPointer(s: Enc, off: nat, target: nat): Enc {
    Put(s, off, EncodePointer(off, target), 8)
  }

  function EnterEncode(d: nat): Result<nat, WireError> {
    if d + 1 > MAX_ENCODE_DEPTH then Err(RecursionLimitExceeded(d + 1)) else Ok(d + 1)
  }

  // ---------------------------------------------------------------- structs

  /** The struct's whole size reserved and its header written. */
  function StructHeader(s: Enc, off: nat, size: nat, version: nat): Enc {
    Put(Put(s.(buf := Grow(s.buf, off + size)), off, size, 4), off + 4, version, 4)
  }

  function EncodeStruct(s: Enc, d: nat, off: nat, ty: Type, v: Value): Encoded
    requires ty.Struct?
    decreases ty, 1, 0
  {
    if v.Struct? then
      var layout :- StructLayout(ty.fields);
      EncodeFields(StructHeader(s, off, layout.size, v.version), d, off, ty, v.fields, 0)
    else if v.Null? && ty.nullable then Err(UnexpectedNull)
    else Err(Unsupported(StructMismatch))
  }

  /** The packed fields from position `k` on, in layout order. A missing value is Null. */
  function EncodeFields(s: Enc, d: nat, off: nat, ty: Type, vals: seq<Value>, k: nat): Encoded
    requires ty.Struct? && StructLayout(ty.fields).Ok?
    requires k <= |StructLayout(ty.fields).value.packedFields|
    decreases ty, 0, |StructLayout(ty.fields).value.packedFields| - k, 1
  {
    if k == |StructLayout(ty.fields).value.packedFields| then Ok(s)
    else
      var s1 :- EncodePacked(s, d, off, ty, vals, k);
      EncodeFields(s1, d, off, ty, vals, k + 1)
  }

  function EncodePacked(s: Enc, d: nat, off: nat, ty: Type, vals: seq<Value>, k: nat): Encoded
    requires ty.Struct? && StructLayout(ty.fields).Ok?
    requires k < |StructLayout(ty.fields).value.packedFields|
    decreases ty, 0, |StructLayout(ty.fields).value.packedFields| - k, 0
  {
    LF.PackedStands(ty.fields, k);
    var p := StructLayout(ty.fields).value.packedFields[k];
    var i := p.src.field.index;
    var v := if i < |vals| then vals[i] else Value.Null;
    var at := off + 8 + p.offset;
    if p.src.field.nullableValueKind then
      var present := v.NullableScalar? && v.present;
      if p.src.field.kind.Bool? then PutBit(s, at, p.bit, present)
      else if present then EncodeField(s, d, at, 0, ty.fields[i].ty.inner, v.value)
      else Ok(s)
    else EncodeField(s, d, at, p.bit, ty.fields[i].ty, v)
  }

  // ---------------------------------------------------------------- fields

  function EncodeField(s: Enc, d: nat, off: nat, bit: nat, ty: Type, v: Value): Encoded
    requires bit < 8
    decreases ty, 4, 0
  {
    if ty.IsInPlace() then EncodeInPlace(s, off, bit, ty, v)
    else if ty.NullableScalar? then
      if v.NullableScalar? then
        if v.present then EncodeField(s, d, off, bit, ty.inner, v.value) else Ok(s)
      else if v.Null? then Ok(s)
      else Err(MISMATCH)
    else if v.Null? then
      if ty.IsNullable() then Ok(Put(s, off, 0, 8)) else Err(MISMATCH)
    else EncodeObject(s, d, off, ty, v)
  }

  /** The kinds written straight into their slot. */
  function EncodeInPlace(s: Enc, off: nat, bit: nat, ty: Type, v: Value): Encoded
    requires bit < 8 && ty.IsInPlace()
  {
    match ty
    case Bool => if v.Bool? then PutBit(s, off, bit, v.b) else Err(MISMATCH)
    case Num(k) =>
      if v.Num? && v.kind == k then Ok(Put(s, off, k.ToUnsigned(v.n), k.Width())) else Err(MISMATCH)
    case Enum => if v.Enum? then Ok(Put(s, off, v.n % TWO_32, 4)) else Err(MISMATCH)
    case Handle => if v.Handle? then Ok(PutHandle(s, off, v.index)) else Err(MISMATCH)
    case Interface(version) =>
      if v.Interface? then Ok(Put(PutHandle(s, off, v.index), off + 4, Max(v.version, version), 4))
      else Err(MISMATCH)
    case AssociatedEndpoint =>
      if v.AssociatedEndpoint? then Ok(Put(s, off, v.id, 4)) else Err(MISMATCH)
    case AssociatedInterface(version) =>
      if v.AssociatedInterface? then Ok(Put(Put(s, off, v.id, 4), off + 4, Max(v.version, version), 4))
      else Err(MISMATCH)
  }

  /** The kinds with an object of their own (or, for inline structs and unions, in place). */
  function EncodeObject(s: Enc, d: nat, off: nat, ty: Type, v: Value): Encoded
    requires !ty.IsInPlace() && !ty.NullableScalar?
    decreases ty, 3, 1
  {
    match ty
    case String(_) => if v.String? then EncodeString(s, off, v.s) else Err(MISMATCH)
    case Array(_, _) => if v.Array? then EncodeArray(s, d, off, ty, v.items) else Err(MISMATCH)
    case Map(_, _, _) => if v.Map? then EncodeMap(s, d, off, ty, v.keys, v.values) else Err(MISMATCH)
    case Struct(_, _, nullable) =>
      if !v.Struct? then Err(MISMATCH)
      else if nullable then
        var s1 := Start(s);
        var s2 :- EncodeStruct(s1, d, |s1.buf|, ty, v);
        Ok(PutPointer(s2, off, |s1.buf|))
      else EncodeStruct(s, d, off, ty, v)
    case Union(_, _, inlined) =>
      if !v.Union? then Err(MISMATCH)
      else if v.tag >= |ty.members| then Err(InvalidUnionValue)
      else if inlined then EncodeUnion(s, d, off, ty, v.tag, v.value)
      else
        var s1 := Start(s);
        var s2 :- EncodeUnion(s1, d, |s1.buf|, ty, v.tag, v.value);
        Ok(PutPointer(s2, off, |s1.buf|))
  }

  // ---------------------------------------------------------------- unions

  /** The 16 bytes of a union at `off`: size, tag, and an 8-byte payload slot. */
  function UnionHeader(s: Enc, off: nat, tag: nat): Enc {
    Put(Put(s.(buf := Grow(s.buf, off + 16)), off, 16, 4), off + 4, tag, 4)
  }

  function EncodeUnion(s: Enc, d: nat, off: nat, ty: Type, tag: nat, v: Value): Encoded
    requires ty.Union? && tag < |ty.members|
    decreases ty, 2, 0
  {
    EncodeUnionPayload(UnionHeader(s, off, tag), d, off + 8, ty.members[tag], v)
  }

  function EncodeUnionPayload(s: Enc, d: nat, off: nat, ty: Type, v: Value): Encoded
    decreases ty, 5, 0
  {
    if ty.InlineStruct() && v.Struct? then EncodeStruct(s, d, off, ty, v)
    else if ty.String? && v.String? then EncodeString(s, off, v.s)
    else if ty.Array? && v.Array? then
      var s1 := Start(s);
      var s2 :- EncodeArrayBody(s1, d, |s1.buf|, ty.element, v.items);
      Ok(PutPointer(s2, off, |s1.buf|))
    else if ty.Map? && v.Map? then EncodeMap(s, d, off, ty, v.keys, v.values)
    else EncodeField(s, d, off, 0, ty, v)
  }

  // ---------------------------------------------------------------- strings

  /** The string's whole size reserved, its NUL included, and its header written. */
  function StringHeader(s: Enc, t: nat, n: nat): Enc {
    var total := AlignUp(8 + n + 1);
    Put(Put(s.(buf := Grow(s.buf, t + total)), t, total, 4), t + 4, n, 4)
  }

  function EncodeStringAt(s: Enc, t: nat, data: seq<byte>): Enc {
    var s1 := StringHeader(s, t, |data|);
    s1.(buf := WriteAt(s1.buf, t + 8, data + [0]))
  }

  function EncodeString(s: Enc, off: nat, data: seq<byte>): Encoded {
    var s1 := Start(s);
    Ok(PutPointer(EncodeStringAt(s1, |s1.buf|, data), off, |s1.buf|))
  }

  // ---------------------------------------------------------------- arrays and maps

  function EncodeArray(s: Enc, d: nat, off: nat, ty: Type, items: seq<Value>): Encoded
    requires ty.Array?
    decreases ty, 3, 0
  {
    var s1 := Start(s);
    var d1 :- EnterEncode(d);
    var s2 :- EncodeArrayBody(s1, d1, |s1.buf|, ty.element, items);
    Ok(PutPointer(s2, off, |s1.buf|))
  }

  /** The array's whole size reserved and its header written. */
  function ArrayHeader(s: Enc, t: nat, elementSize: nat, n: nat): Enc {
    var total := AlignUp(8 + elementSize * n);
    Put(Put(s.(buf := Grow(s.buf, t + total)), t, total, 4), t + 4, n, 4)
  }

  function EncodeArrayBody(s: Enc, d: nat, t: nat, element: Type, items: seq<Value>): Encoded
    decreases element, 7, 0
  {
    EncodeItems(ArrayHeader(s, t, element.ElementSize(), |items|), d, t + 8, element, items)
  }

  /** Consecutive elements starting at `off`. */
  function EncodeItems(s: Enc, d: nat, off: nat, element: Type, items: seq<Value>): Encoded
    decreases element, 6, |items|
  {
    if |items| == 0 then Ok(s)
    else
      var s1 :- EncodeItem(s, d, off, element, items[0]);
      EncodeItems(s1, d, off + element.ElementSize(), element, items[1..])
  }

  function EncodeItem(s: Enc, d: nat, off: nat, element: Type, item: Value): Encoded
    decreases element, 5, 1
  {
    if element.IsPod() then EncodeField(s, d, off, 0, element, item)
    else if item.Null? then Ok(Put(s, off, 0, 8))
    else
      var s1 := Start(s);
      var s2 :- EncodeElement(s1, d, |s1.buf|, element, item);
      Ok(PutPointer(s2, off, |s1.buf|))
  }

  /** An element object that an array slot points to. A value of another type is written as
      an empty string or array. */
  function EncodeElement(s: Enc, d: nat, t: nat, element: Type, item: Value): Encoded
    decreases element, 5, 0
  {
    match element
    case Struct(_, _, nullable) =>
      if nullable && item.Null? then Ok(s) else EncodeStruct(s, d, t, element, item)
    case String(_) => Ok(EncodeStringAt(s, t, if item.String? then item.s else []))
    case Array(inner, _) => EncodeArrayBody(s, d, t, inner, if item.Array? then item.items else [])
    case Map(_, _, _) =>
      if item.Map? then EncodeMapAt(s, d, t, element, item.keys, item.values) else Err(TypeMismatch)
    case _ => Err(Unsupported(ArrayElementEncode))
  }

  function EncodeMap(s: Enc, d: nat, off: nat, ty: Type, keys: seq<Value>, values: seq<Value>): Encoded
    requires ty.Map?
    decreases ty, 3, 0
  {
    var s1 := Start(s);
    var s2 :- EncodeMapAt(s1, d, |s1.buf|, ty, keys, values);
    Ok(PutPointer(s2, off, |s1.buf|))
  }

  function MapHeader(s: Enc, t: nat): Enc {
    Put(Put(s.(buf := Grow(s.buf, t + 24)), t, 24, 4), t + 4, 0, 4)
  }

  function EncodeMapAt(s: Enc, d: nat, t: nat, ty: Type, keys: seq<Value>, values: seq<Value>): Encoded
    requires ty.Map?
    decreases ty, 2, 0
  {
    if |keys| != |values| then Err(MapKeyCountMismatch(|keys|, |values|))
    else
      var s1 := MapHeader(s, t);
      var d1 :- EnterEncode(d);
      var k0 := Start(s1);
      var k1 :- EncodeArrayBody(k0, d1, |k0.buf|, ty.key, keys);
      var k2 := PutPointer(k1, t + 8, |k0.buf|);
      var v0 := Start(k2);
      var v1 :- EncodeArrayBody(v0, d1, |v0.buf|, ty.value, values);
      Ok(PutPointer(v1, t + 16, |v0.buf|))
  }
}
