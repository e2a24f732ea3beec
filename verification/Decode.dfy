/** The validating decoder. It walks the schema over the message bytes, claiming each object
    behind a moving frontier, and returns the value with the new frontier. */
module Decode {
  import opened Results
  import opened WireErrors
  import opened Bytes
  import opened Schema
  import opened Pointers
  import P = Pack
  import LF = LayoutFacts

  /** What one decoding run does not change. */
  datatype Ctx = Ctx(bytes: seq<byte>, handleCount: nat, maxDepth: nat)

  /** A value and the frontier after it. */
  type Decoded = Result<(Value, nat), WireError>

  /** A list of values and the frontier after them. */
  type DecodedList = Result<(seq<Value>, nat), WireError>

  /** What a struct's field walk has filled in so far. */
  datatype Filled = Filled(scalars: seq<Value>, presence: seq<bool>)

  function ReadLE(c: Ctx, off: nat, k: nat): Result<nat, WireError> {
    if off + k <= |c.bytes| then Ok(FromLE(c.bytes[off..off + k])) else Err(IllegalMemoryRange)
  }

  function ReadByte(c: Ctx, off: nat): Result<byte, WireError> {
    if off < |c.bytes| then Ok(c.bytes[off]) else Err(IllegalMemoryRange)
  }

  function ReadPointer(c: Ctx, off: nat): Result<Pointer, WireError> {
    var raw :- ReadLE(c, off, 8);
    Ok(DecodePointer(off, raw))
  }

  /** A claim must lie in the message, be non-empty, and start at or after the frontier,
      which it moves to its end. */
  function Claim(c: Ctx, f: nat, start: nat, len: nat): Result<nat, WireError> {
    if start + len > |c.bytes| then Err(IllegalMemoryRange)
    else if len == 0 then Err(IllegalMemoryRange)
    else if start < f then Err(IllegalMemoryRange)
    else Ok(start + len)
  }

  function Enter(c: Ctx, d: nat): Result<nat, WireError> {
    if d + 1 > c.maxDepth then Err(MaxRecursionDepth) else Ok(d + 1)
  }

  function CheckHandle(c: Ctx, index: nat): Result<nat, WireError> {
    if index != ENCODED_INVALID_HANDLE_VALUE && index >= c.handleCount then Err(IllegalHandle)
    else Ok(index)
  }

  // ---------------------------------------------------------------- structs

  function DecodeStruct(c: Ctx, f: nat, d: nat, off: nat, ty: Type, claim: bool): Decoded
    requires ty.Struct?
    decreases ty, 2, 0
  {
    var d1 :- Enter(c, d);
    DecodeStructBody(c, f, d1, off, ty, claim)
  }

  /** The struct header: bounds, claim, and the exact version/size matrix. */
  function DecodeStructHeader(c: Ctx, f: nat, off: nat, fields: seq<FieldType>, claim: bool)
    : Result<(nat, nat, nat), WireError>
  {
    if off + 8 > |c.bytes| then Err(IllegalMemoryRange)
    else
      var numBytes :- ReadLE(c, off, 4);
      var version :- ReadLE(c, off + 4, 4);
      if numBytes < 8 then Err(UnexpectedStructHeader)
      else if off + numBytes > |c.bytes| then Err(IllegalMemoryRange)
      else
        var f1 :- if claim then Claim(c, f, off, numBytes) else Ok(f);
        var layout :- StructLayout(fields);
        if version <= MaxVersion(fields) then
          var expected := P.NumBytesForVersion(layout, version);
          if expected.Some? && numBytes != expected.value then Err(UnexpectedStructHeader)
          else Ok((numBytes, version, f1))
        else if numBytes < layout.size then Err(UnexpectedStructHeader)
        else Ok((numBytes, version, f1))
  }

  function Defaults(fields: seq<FieldType>): seq<Value> {
    seq(|fields|, i requires 0 <= i < |fields| => DefaultValue(fields[i].ty))
  }

  /** What no step of the field walk fills in: newer fields, and the values of nullable booleans. */
  ghost predicate Untouched(fields: seq<FieldType>, version: nat, x: Filled) {
    && |fields| == |x.scalars| == |x.presence|
    && forall i :: 0 <= i < |fields| ==>
         && (fields[i].Version() > version ==> x.scalars[i] == DefaultValue(fields[i].ty) && !x.presence[i])
         && (fields[i].ty.NullableBool() ==> x.scalars[i] == DefaultValue(fields[i].ty))
  }

  function Assemble(fields: seq<FieldType>, s: Filled): (r: seq<Value>)
    requires |s.scalars| == |fields| && |s.presence| == |fields|
    ensures |r| == |fields|
  {
    seq(|fields|, i requires 0 <= i < |fields| =>
      if fields[i].ty.NullableScalar? then
        Value.NullableScalar(s.presence[i], if s.presence[i] then s.scalars[i] else Value.Null)
      else s.scalars[i])
  }

  function DecodeStructBody(c: Ctx, f: nat, d: nat, off: nat, ty: Type, claim: bool): Decoded
    requires ty.Struct?
    decreases ty, 1, 0
  {
    var (numBytes, version, f1) :- DecodeStructHeader(c, f, off, ty.fields, claim);
    var start := Filled(Defaults(ty.fields), seq(|ty.fields|, _ => false));
    var (s, f2) :- DecodeFields(c, f1, d, off, ty, numBytes, version, 0, start);
    Ok((Value.Struct(version, Assemble(ty.fields, s)), f2))
  }

  /** The packed fields from position `k` on, in layout order. */
  function DecodeFields(c: Ctx, f: nat, d: nat, off: nat, ty: Type, numBytes: nat, version: nat, k: nat, s: Filled)
    : (r: Result<(Filled, nat), WireError>)
    requires ty.Struct? && StructLayout(ty.fields).Ok?
    requires k <= |StructLayout(ty.fields).value.packedFields|
    requires |s.scalars| == |ty.fields| && |s.presence| == |ty.fields|
    ensures r.Ok? ==> |r.value.0.scalars| == |ty.fields| && |r.value.0.presence| == |ty.fields|
    decreases ty, 0, |StructLayout(ty.fields).value.packedFields| - k, 1
  {
    if k == |StructLayout(ty.fields).value.packedFields| then Ok((s, f))
    else
      var (s1, f1) :- DecodePacked(c, f, d, off, ty, numBytes, version, k, s);
      DecodeFields(c, f1, d, off, ty, numBytes, version, k + 1, s1)
  }

  /** One packed field: skipped unless in version and in bounds. */
  function DecodePacked(c: Ctx, f: nat, d: nat, off: nat, ty: Type, numBytes: nat, version: nat, k: nat, s: Filled)
    : (r: Result<(Filled, nat), WireError>)
    requires ty.Struct? && StructLayout(ty.fields).Ok?
    requires k < |StructLayout(ty.fields).value.packedFields|
    requires |s.scalars| == |ty.fields| && |s.presence| == |ty.fields|
    ensures r.Ok? ==> |r.value.0.scalars| == |ty.fields| && |r.value.0.presence| == |ty.fields|
    decreases ty, 0, |StructLayout(ty.fields).value.packedFields| - k, 0
  {
    LF.PackedStands(ty.fields, k);
    var p := StructLayout(ty.fields).value.packedFields[k];
    var i, abs := p.src.field.index, 8 + p.offset;
    if p.src.minVersion > version || abs + p.Size() > numBytes then Ok((s, f))
    else if p.src.field.nullableValueKind && p.src.field.kind.Bool? then
      var b :- ReadByte(c, off + abs);
      Ok((s.(presence := s.presence[i := Bit(b, p.bit)]), f))
    else
      var (v, f1) :-
        if p.src.field.nullableValueKind then DecodeField(c, f, d, off + abs, 0, ty.fields[i].ty.inner)
        else DecodeField(c, f, d, off + abs, p.bit, ty.fields[i].ty);
      Ok((s.(scalars := s.scalars[i := v]), f1))
  }

  /** A pointer to a claimed struct; `nullable` says whether null is a value. */
  function DecodeStructPointer(c: Ctx, f: nat, d: nat, off: nat, ty: Type, nullable: bool): Decoded
    requires ty.Struct?
    decreases ty, 3, 0
  {
    var ptr :- ReadPointer(c, off);
    match ptr
    case NullPointer => if nullable then Ok((Value.Null, f)) else Err(UnexpectedNullPointer)
    case Offset(t) => DecodeStruct(c, f, d, t, ty, true)
  }

  // ---------------------------------------------------------------- fields

  function DecodeField(c: Ctx, f: nat, d: nat, off: nat, bit: nat, ty: Type): Decoded
    requires bit < 8
    decreases ty, 4, 0
  {
    if ty.IsInPlace() then
      var v :- DecodeInPlace(c, off, bit, ty);
      Ok((v, f))
    else if ty.NullableScalar? then DecodeField(c, f, d, off, bit, ty.inner)
    else DecodeObject(c, f, d, off, ty)
  }

  /** The kinds read straight from their slot. */
  function DecodeInPlace(c: Ctx, off: nat, bit: nat, ty: Type): Result<Value, WireError>
    requires bit < 8 && ty.IsInPlace()
  {
    match ty
    case Bool =>
      var b :- ReadByte(c, off);
      Ok(Value.Bool(Bit(b, bit)))
    case Num(k) =>
      var u :- ReadLE(c, off, k.Width());
      Ok(Value.Num(k, k.FromUnsigned(u)))
    case Enum =>
      var u :- ReadLE(c, off, 4);
      Ok(Value.Enum(u))
    case Handle =>
      var u :- ReadLE(c, off, 4);
      var index :- CheckHandle(c, u);
      Ok(Value.Handle(index))
    case Interface(version) =>
      var u :- ReadLE(c, off, 4);
      var v :- ReadLE(c, off + 4, 4);
      var index :- CheckHandle(c, u);
      Ok(Value.Interface(index, Max(v, version)))
    case AssociatedEndpoint =>
      var id :- ReadLE(c, off, 4);
      Ok(Value.AssociatedEndpoint(id))
    case AssociatedInterface(version) =>
      var id :- ReadLE(c, off, 4);
      var v :- ReadLE(c, off + 4, 4);
      Ok(Value.AssociatedInterface(id, Max(v, version)))
  }

  /** The kinds with an object of their own (or, for inline structs and unions, in place). */
  function DecodeObject(c: Ctx, f: nat, d: nat, off: nat, ty: Type): Decoded
    requires !ty.IsInPlace() && !ty.NullableScalar?
    decreases ty, 3, 1
  {
    match ty
    case String(nullable) => DecodeString(c, f, off, nullable)
    case Array(_, _) => DecodeArray(c, f, d, off, ty)
    case Map(_, _, _) => DecodeMap(c, f, d, off, ty)
    case Struct(_, _, nullable) =>
      if nullable then DecodeStructPointer(c, f, d, off, ty, true)
      else DecodeStruct(c, f, d, off, ty, false)
    case Union(_, nullable, inlined) =>
      if inlined then DecodeUnion(c, f, d, off, ty, false)
      else
        var ptr :- ReadPointer(c, off);
        match ptr
        case NullPointer => if nullable then Ok((Value.Null, f)) else Err(UnexpectedNullPointer)
        case Offset(t) => DecodeUnion(c, f, d, t, ty, true)
  }

  // ---------------------------------------------------------------- unions

  /** A union at `off`: inlined in its slot, or a claimed 16-byte object. */
  function DecodeUnion(c: Ctx, f: nat, d: nat, off: nat, ty: Type, claim: bool): Decoded
    requires ty.Union?
    decreases ty, 2, 0
  {
    if off + 8 > |c.bytes| then Err(IllegalMemoryRange)
    else
      var size :- ReadLE(c, off, 4);
      var tag :- ReadLE(c, off + 4, 4);
      if tag >= |ty.members| then Err(UnknownUnionTag)
      else if claim && size != 16 then Err(IllegalMemoryRange)
      else
        var f1 :- if claim then Claim(c, f, off, 16) else Ok(f);
        var (v, f2) :- DecodeUnionPayload(c, f1, d, off + 8, ty.members[tag]);
        Ok((Value.Union(tag, v), f2))
  }

  function DecodeUnionPayload(c: Ctx, f: nat, d: nat, off: nat, ty: Type): Decoded
    decreases ty, 5, 0
  {
    match ty
    case Struct(_, _, nullable) => DecodeStructPointer(c, f, d, off, ty, nullable)
    case String(nullable) => DecodeString(c, f, off, nullable)
    case Array(_, _) => DecodeArray(c, f, d, off, ty)
    case Map(_, _, _) => DecodeMap(c, f, d, off, ty)
    case _ => DecodeField(c, f, d, off, 0, ty)
  }

  // ---------------------------------------------------------------- strings

  function DecodeString(c: Ctx, f: nat, off: nat, nullable: bool): Decoded {
    var ptr :- ReadPointer(c, off);
    match ptr
    case NullPointer => if nullable then Ok((Value.Null, f)) else Err(UnexpectedNullPointer)
    case Offset(t) => DecodeStringAt(c, f, t)
  }

  function DecodeStringAt(c: Ctx, f: nat, t: nat): Decoded {
    if t + 8 > |c.bytes| then Err(IllegalMemoryRange)
    else
      var numBytes :- ReadLE(c, t, 4);
      var n :- ReadLE(c, t + 4, 4);
      if numBytes < 8 || numBytes > |c.bytes| - t then Err(UnexpectedArrayHeader)
      else if n > numBytes - 8 then Err(UnexpectedArrayHeader)
      else
        var data := c.bytes[t + 8..t + 8 + n];
        if 0 in data then Err(DeserializationFailed)
        else if ReadByte(c, t + 8 + n) != Ok(0) then Err(DeserializationFailed)
        else
          var f1 :- Claim(c, f, t, numBytes);
          if ValidUtf8(data) then Ok((Value.String(data), f1)) else Err(DeserializationFailed)
  }

  // ---------------------------------------------------------------- arrays and maps

  function DecodeArray(c: Ctx, f: nat, d: nat, off: nat, ty: Type): Decoded
    requires ty.Array?
    decreases ty, 3, 0
  {
    var ptr :- ReadPointer(c, off);
    match ptr
    case NullPointer => if ty.nullable then Ok((Value.Null, f)) else Err(UnexpectedNullPointer)
    case Offset(t) =>
      var d1 :- Enter(c, d);
      var (items, f1) :- DecodeArrayBody(c, f, d1, t, ty.element);
      Ok((Value.Array(items), f1))
  }

  function DecodeArrayBody(c: Ctx, f: nat, d: nat, t: nat, element: Type): DecodedList
    decreases element, 7, 0
  {
    if t + 8 > |c.bytes| then Err(IllegalMemoryRange)
    else
      var numBytes :- ReadLE(c, t, 4);
      var n :- ReadLE(c, t + 4, 4);
      if numBytes < 8 + element.ElementSize() * n then Err(UnexpectedArrayHeader)
      else if numBytes > |c.bytes| - t then Err(IllegalMemoryRange)
      else
        var f1 :- Claim(c, f, t, numBytes);
        DecodeItems(c, f1, d, t + 8, element, n)
  }

  /** `n` consecutive elements starting at `off`. */
  function DecodeItems(c: Ctx, f: nat, d: nat, off: nat, element: Type, n: nat): (r: DecodedList)
    ensures r.Ok? ==> |r.value.0| == n
    decreases element, 6, n
  {
    if n == 0 then Ok(([], f))
    else
      var (v, f1) :- DecodeItem(c, f, d, off, element);
      var (rest, f2) :- DecodeItems(c, f1, d, off + element.ElementSize(), element, n - 1);
      Ok(([v] + rest, f2))
  }

  function DecodeItem(c: Ctx, f: nat, d: nat, off: nat, element: Type): Decoded
    decreases element, 5, 1
  {
    if element.IsPod() then DecodeField(c, f, d, off, 0, element)
    else
      var ptr :- ReadPointer(c, off);
      match ptr
      case NullPointer => if element.IsNullable() then Ok((Value.Null, f)) else Err(UnexpectedNullPointer)
      case Offset(t) => DecodeElement(c, f, d, t, element)
  }

  /** An element object that an array slot points to. */
  function DecodeElement(c: Ctx, f: nat, d: nat, t: nat, element: Type): Decoded
    decreases element, 5, 0
  {
    match element
    case Struct(_, _, _) => DecodeStruct(c, f, d, t, element, true)
    case String(_) => DecodeStringAt(c, f, t)
    case Map(_, _, _) => DecodeMapAt(c, f, d, t, element)
    case Array(inner, _) =>
      var (items, f1) :- DecodeArrayBody(c, f, d, t, inner);
      Ok((Value.Array(items), f1))
    case _ => Err(Unsupported(ArrayElementDecode))
  }

  function DecodeMap(c: Ctx, f: nat, d: nat, off: nat, ty: Type): Decoded
    requires ty.Map?
    decreases ty, 3, 0
  {
    var ptr :- ReadPointer(c, off);
    match ptr
    case NullPointer => if ty.nullable then Ok((Value.Null, f)) else Err(UnexpectedNullPointer)
    case Offset(t) => DecodeMapAt(c, f, d, t, ty)
  }

  function DecodeMapAt(c: Ctx, f: nat, d: nat, t: nat, ty: Type): Decoded
    requires ty.Map?
    decreases ty, 2, 0
  {
    var d1 :- Enter(c, d);
    if t + 24 > |c.bytes| then Err(IllegalMemoryRange)
    else
      var numBytes :- ReadLE(c, t, 4);
      if numBytes < 24 then Err(UnexpectedStructHeader)
      else
        var f1 :- Claim(c, f, t, numBytes);
        var kp :- ReadPointer(c, t + 8);
        var vp :- ReadPointer(c, t + 16);
        if kp.NullPointer? || vp.NullPointer? then Err(UnexpectedNullPointer)
        else
          var (keys, f2) :- DecodeArrayBody(c, f1, d1, kp.target, ty.key);
          var (values, f3) :- DecodeArrayBody(c, f2, d1, vp.target, ty.value);
          if |keys| != |values| then Err(DifferentSizedArraysInMap)
          else Ok((Value.Map(keys, values), f3))
  }
}
