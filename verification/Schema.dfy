/** Schemas, typed values, and what it means for a value to conform to a schema. */
module Schema {
  import opened Results
  import opened WireErrors
  import opened Bytes
  import P = Pack

  const ENCODED_INVALID_HANDLE_VALUE: nat := 0xFFFF_FFFF

  /** The fixed-width numbers; F32 and F64 are carried as bit patterns. */
  datatype NumKind = I8 | U8 | I16 | U16 | I32 | U32 | I64 | U64 | F32 | F64 {
    function Width(): (w: nat)
      ensures w in {1, 2, 4, 8}
    {
      match this
      case I8 | U8 => 1
      case I16 | U16 => 2
      case I32 | U32 | F32 => 4
      case I64 | U64 | F64 => 8
    }

    predicate Signed() { I8? || I16? || I32? || I64? }

    function PackKind(): (k: P.Kind)
      ensures k.Size() == Width() && k.Alignment() == Width() && !k.Bool?
    {
      match this
      case I8 => P.Kind.I8 case U8 => P.Kind.U8 case I16 => P.Kind.I16 case U16 => P.Kind.U16
      case I32 => P.Kind.I32 case U32 => P.Kind.U32 case I64 => P.Kind.I64 case U64 => P.Kind.U64
      case F32 => P.Kind.F32 case F64 => P.Kind.F64
    }

    /** The values the number type can hold. */
    predicate InRange(n: int) {
      if Signed() then 0 <= 2 * n + Pow256(Width()) < 2 * Pow256(Width())
      else 0 <= n < Pow256(Width())
    }

    /** Two's complement, as an unsigned number. */
    function ToUnsigned(n: int): nat {
      n % Pow256(Width())
    }

    function FromUnsigned(u: nat): int {
      if Signed() && 2 * u >= Pow256(Width()) then u - Pow256(Width()) else u
    }
  }

  datatype Type =
    | Bool
    | Num(kind: NumKind)
    | Enum
    | Handle
    | String(nullable: bool)
    | Array(element: Type, nullable: bool)
    | Map(key: Type, value: Type, nullable: bool)
    | Struct(fields: seq<FieldType>, version: nat, nullable: bool)
    | Union(members: seq<Type>, nullable: bool, inlined: bool)
    | Interface(version: nat)
    | AssociatedEndpoint
    | AssociatedInterface(version: nat)
    | NullableScalar(inner: Type)
  {
    function PackKind(): P.Kind {
      match this
      case Bool => P.Kind.Bool
      case Num(k) => k.PackKind()
      case Enum => P.Kind.Enum
      case Handle => P.Kind.Handle
      case String(_) => P.Kind.String
      case Array(_, _) => P.Kind.Array
      case Map(_, _, _) => P.Kind.Map
      case Struct(_, _, _) => P.Kind.Struct
      case Union(_, _, inlined) => if inlined then P.Kind.Union else P.Kind.Map
      case Interface(_) => P.Kind.Interface
      case AssociatedEndpoint => P.Kind.PendingAssociatedReceiver
      case AssociatedInterface(_) => P.Kind.PendingAssociatedRemote
      case NullableScalar(inner) => inner.PackKind()
    }

    predicate IsNullable() {
      match this
      case String(nullable) => nullable
      case Array(_, nullable) => nullable
      case Map(_, _, nullable) => nullable
      case Struct(_, _, nullable) => nullable
      case Union(_, nullable, _) => nullable
      case NullableScalar(_) => true
      case _ => false
    }

    /** The element types arrays hold inline. */
    predicate IsPod() {
      Bool? || Num? || Enum? || Handle?
    }

    /** The types whose values lie entirely in their slot. */
    predicate IsInPlace() {
      IsPod() || Interface? || AssociatedEndpoint? || AssociatedInterface?
    }

    function ElementSize(): (n: nat)
      ensures n >= 1
    {
      if IsPod() then PackKind().Size() else 8
    }

    /** A nullable value packed as a boolean: both sides take it for a second presence flag. */
    predicate NullableBool() { NullableScalar? && PackKind().Bool? }

    /** Encoded in place although its slot is a pointer's. */
    predicate InlineStruct() { Struct? && !nullable }

    /** Held in place with no way to say that it is absent. */
    predicate BareUnion() { Union? && inlined && !nullable }
  }

  datatype FieldType = FieldType(ty: Type, minVersion: Option<nat>) {
    function Version(): nat { minVersion.GetOr(0) }
  }

  datatype Value =
    | Bool(b: bool)
    | Num(kind: NumKind, n: int)
    | Enum(n: int)
    | String(s: seq<byte>)
    | Array(items: seq<Value>)
    | Map(keys: seq<Value>, values: seq<Value>)
    | Struct(version: nat, fields: seq<Value>)
    | Union(tag: nat, value: Value)
    | Handle(index: nat)
    | Interface(index: nat, version: nat)
    | AssociatedEndpoint(id: nat)
    | AssociatedInterface(id: nat, version: nat)
    | Null
    | NullableScalar(present: bool, value: Value)

  // ---------------------------------------------------------------- struct layouts

  function PackInput(fields: seq<FieldType>): (r: seq<P.Field>)
    ensures |r| == |fields|
  {
    seq(|fields|, i requires 0 <= i < |fields| =>
      P.Field(i, fields[i].minVersion, fields[i].ty.PackKind(),
              fields[i].ty.NullableScalar?, fields[i].ty.IsNullable()))
  }

  function StructLayout(fields: seq<FieldType>): Result<P.PackedStruct, WireError> {
    P.PackFields(PackInput(fields))
  }

  /** The largest MinVersion among the fields, 0 when there is none. */
  function MaxVersion(fields: seq<FieldType>): (v: nat)
    ensures forall i :: 0 <= i < |fields| ==> fields[i].Version() <= v
  {
    if |fields| == 0 then 0
    else Max(MaxVersion(fields[..|fields| - 1]), fields[|fields| - 1].Version())
  }

  /** What a field absent at the decoded version decodes to. */
  function DefaultValue(ty: Type): Value {
    match ty
    case Bool => Value.Bool(false)
    case Num(k) => Value.Num(k, 0)
    case Enum => Value.Enum(0)
    case Handle => Value.Handle(ENCODED_INVALID_HANDLE_VALUE)
    case Interface(v) => Value.Interface(ENCODED_INVALID_HANDLE_VALUE, v)
    case AssociatedEndpoint => Value.AssociatedEndpoint(ENCODED_INVALID_HANDLE_VALUE)
    case AssociatedInterface(v) => Value.AssociatedInterface(ENCODED_INVALID_HANDLE_VALUE, v)
    case NullableScalar(_) => Value.NullableScalar(false, Value.Null)
    case _ => Value.Null
  }

  // ---------------------------------------------------------------- strings

  predicate Continuation(b: byte) { 0x80 <= b < 0xC0 }

  /** Well-formed UTF-8 (section 4 of RFC 3629). */
  predicate ValidUtf8(s: seq<byte>) {
    || |s| == 0
    || (s[0] < 0x80 && ValidUtf8(s[1..]))
    || (|s| >= 2 && 0xC2 <= s[0] < 0xE0 && Continuation(s[1]) && ValidUtf8(s[2..]))
    || (|s| >= 3 && 0xE0 <= s[0] < 0xF0 && Continuation(s[1]) && Continuation(s[2])
        && (s[0] == 0xE0 ==> s[1] >= 0xA0) && (s[0] == 0xED ==> s[1] < 0xA0)
        && ValidUtf8(s[3..]))
    || (|s| >= 4 && 0xF0 <= s[0] < 0xF5 && Continuation(s[1]) && Continuation(s[2])
        && Continuation(s[3])
        && (s[0] == 0xF0 ==> s[1] >= 0x90) && (s[0] == 0xF4 ==> s[1] < 0x90)
        && ValidUtf8(s[4..]))
  }

  // ---------------------------------------------------------------- slots and what leaves them

  function FieldAt(vals: seq<Value>, i: nat): Value {
    if i < |vals| then vals[i] else Value.Null
  }

  /** A value whose encoding stays inside its slot: nothing is appended for it and nothing is
      written behind it. `wide` says that the slot is the type's own, not a union's 8 bytes. */
  predicate Inside(ty: Type, v: Value, wide: bool)
    decreases ty
  {
    if ty.IsInPlace() || v.Null? then true
    else
      match ty
      case NullableScalar(inner) => v.NullableScalar? && v.present ==> Inside(inner, v.value, wide)
      case Struct(fields, _, nullable) => !nullable && |fields| == 0
      case Union(members, _, inlined) =>
        inlined && wide && v.Union? && v.tag < |members| && Inside(members[v.tag], v.value, false)
      case _ => false
  }

  /** A value written past the end of its slot: a struct with fields, in place, or a union in
      the 8 bytes of another's payload. */
  predicate Spills(ty: Type, v: Value, wide: bool)
    decreases ty
  {
    match ty
    case NullableScalar(inner) => v.NullableScalar? && v.present && Spills(inner, v.value, wide)
    case Struct(fields, _, nullable) => !nullable && v.Struct? && |fields| > 0
    case Union(members, _, inlined) =>
      inlined && v.Union? && v.tag < |members| && (!wide || Spills(members[v.tag], v.value, false))
    case _ => false
  }

  /** In a struct only the last field of the layout may be written past its slot, and only when
      nothing has been appended before it: otherwise it lands on another field or object. */
  predicate NoOverlap(fields: seq<FieldType>, vals: seq<Value>) {
    StructLayout(fields).Ok? ==>
      var packed := StructLayout(fields).value.packedFields;
      forall k :: 0 <= k < |packed| && PackedSpills(packed[k], fields, vals) ==>
        k == |packed| - 1 && forall j :: 0 <= j < k ==> PackedInside(packed[j], fields, vals)
  }

  predicate PackedSpills(p: P.PackedField, fields: seq<FieldType>, vals: seq<Value>) {
    var i := p.src.field.index;
    i < |fields| && !p.src.field.kind.Bool? && Spills(fields[i].ty, FieldAt(vals, i), true)
  }

  predicate PackedInside(p: P.PackedField, fields: seq<FieldType>, vals: seq<Value>) {
    var i := p.src.field.index;
    i < |fields| && (p.src.field.kind.Bool? || Inside(fields[i].ty, FieldAt(vals, i), true))
  }

  /** No struct within the value writes one part over another. */
  ghost predicate Neat(ty: Type, v: Value)
    decreases ty
  {
    match ty
    case Array(e, _) => v.Array? ==> forall i :: 0 <= i < |v.items| ==> Neat(e, v.items[i])
    case Map(k, e, _) =>
      v.Map? ==>
        && (forall i :: 0 <= i < |v.keys| ==> Neat(k, v.keys[i]))
        && (forall i :: 0 <= i < |v.values| ==> Neat(e, v.values[i]))
    case Struct(fields, _, _) =>
      v.Struct? ==>
        NoOverlap(fields, v.fields) && forall i :: 0 <= i < |fields| ==> Neat(fields[i].ty, FieldAt(v.fields, i))
    case Union(members, _, _) => v.Union? && v.tag < |members| ==> Neat(members[v.tag], v.value)
    case NullableScalar(inner) => v.NullableScalar? && v.present ==> Neat(inner, v.value)
    case _ => true
  }

  /** The zero bytes of a slot nothing was written to decode as some value of the type. */
  predicate ZeroReads(ty: Type, hc: nat, wide: bool)
    decreases ty
  {
    match ty
    case Handle => hc > 0
    case Interface(_) => hc > 0
    case Union(members, nullable, inlined) =>
      if inlined then wide && |members| > 0 && ZeroReads(members[0], hc, false) else nullable
    case NullableScalar(inner) => ZeroReads(inner, hc, wide)
    case _ => ty.IsInPlace() || ty.IsNullable()
  }

  // ---------------------------------------------------------------- schemas and conformance

  /** Element types the array code supports. Of any other only null elements can be sent. */
  predicate ElementOk(ty: Type) {
    ty.IsPod() || ty.Struct? || ty.String? || ty.Array? || ty.Map?
  }

  /** The schemas the codec can work with: every struct in them can be packed. */
  ghost predicate SchemaOk(ty: Type) {
    match ty
    case Array(e, _) => SchemaOk(e)
    case Map(k, v, _) => SchemaOk(k) && SchemaOk(v)
    case Struct(fields, _, _) => StructLayout(fields).Ok? && forall i :: 0 <= i < |fields| ==> SchemaOk(fields[i].ty)
    case Union(members, _, _) => forall i :: 0 <= i < |members| ==> SchemaOk(members[i])
    case Interface(v) => v < TWO_32
    case AssociatedInterface(v) => v < TWO_32
    case NullableScalar(inner) => SchemaOk(inner)
    case _ => true
  }

  /** A handle index is the sentinel or below the number of attached handles. */
  predicate HandleOk(index: nat, hc: nat) {
    index == ENCODED_INVALID_HANDLE_VALUE || (index < hc && index < TWO_32)
  }

  /** The wire size of a struct of some version is the size the encoder writes, the full one. */
  predicate SizeExpected(fields: seq<FieldType>, version: nat) {
    StructLayout(fields).Ok? ==>
      MaxVersion(fields) <= version ||
      P.NumBytesForVersion(StructLayout(fields).value, version) == Some(StructLayout(fields).value.size)
  }

  /** `v` is a value of type `ty`, in the form the decoder returns, for a message with `hc`
      handles, nested no deeper than `room` as the decoder counts. A field newer than its
      struct's version holds its default, and a nullable boolean never holds its value. With
      `sent`, it is also one that the encoder writes so that it can be read back: full-size
      structs, no part over another, no struct in the payload of a union, and nothing absent
      whose empty slot cannot be read. */
  ghost predicate Conforms(ty: Type, v: Value, hc: nat, room: nat, sent: bool)
    decreases ty, 1
  {
    match v
    case Bool(_) => ty.Bool?
    case Num(k, n) => ty == Type.Num(k) && k.InRange(n)
    case Enum(n) => ty.Enum? && 0 <= n < TWO_32
    case Handle(index) => ty.Handle? && HandleOk(index, hc)
    case String(s) => ty.String? && ValidUtf8(s) && 0 !in s
    case Array(items) =>
      && ty.Array? && room >= 1
      && forall i :: 0 <= i < |items| ==> ElementConforms(ty.element, items[i], hc, room - 1, sent)
    case Map(keys, values) =>
      && ty.Map? && room >= 1 && |keys| == |values|
      && (forall i :: 0 <= i < |keys| ==> ElementConforms(ty.key, keys[i], hc, room - 1, sent))
      && (forall i :: 0 <= i < |values| ==> ElementConforms(ty.value, values[i], hc, room - 1, sent))
    case Struct(version, vals) =>
      && ty.Struct? && room >= 1 && version < TWO_32 && |vals| == |ty.fields|
      && (sent ==> SizeExpected(ty.fields, version) && NoOverlap(ty.fields, vals))
      && forall i :: 0 <= i < |vals| ==>
           if ty.fields[i].Version() <= version
           then Conforms(ty.fields[i].ty, vals[i], hc, room - 1, sent)
           else vals[i] == DefaultValue(ty.fields[i].ty) && (sent ==> !ty.fields[i].ty.BareUnion())
    case Union(tag, w) =>
      && ty.Union? && tag < TWO_32 && tag < |ty.members| && BareConforms(ty.members[tag], w, hc, room, sent)
      && (sent ==> !ty.members[tag].InlineStruct())
    case Interface(index, version) =>
      ty.Interface? && HandleOk(index, hc) && ty.version <= version < TWO_32
    case AssociatedEndpoint(id) => ty.AssociatedEndpoint? && id < TWO_32
    case AssociatedInterface(id, version) =>
      ty.AssociatedInterface? && id < TWO_32 && ty.version <= version < TWO_32
    case Null => ty.IsNullable() && !ty.NullableScalar? && !(ty.Union? && ty.inlined)
    case NullableScalar(present, w) =>
      && ty.NullableScalar?
      && if ty.NullableBool() then w == LostBool(present)
         else if present then BareConforms(ty.inner, w, hc, room, sent)
         else w == Value.Null && (sent ==> ZeroReads(ty.inner, hc, true))
  }

  /** What a nullable boolean field decodes to inside: never its value. */
  function LostBool(present: bool): Value {
    if present then Value.NullableScalar(false, Value.Null) else Value.Null
  }

  /** A nullable scalar that is no struct field decodes without its wrapping, so as such it
      cannot be sent. */
  ghost predicate BareConforms(ty: Type, v: Value, hc: nat, room: nat, sent: bool)
    decreases ty, 2
  {
    if ty.NullableScalar? then !sent && BareConforms(ty.inner, v, hc, room, sent)
    else Conforms(ty, v, hc, room, sent)
  }

  /** An array element: nested arrays do not count towards the depth, null stands for itself,
      and everything else is as in any other position. */
  ghost predicate ElementConforms(ty: Type, v: Value, hc: nat, room: nat, sent: bool)
    decreases ty, 2
  {
    if v.Null? && !ty.IsPod() then ty.IsNullable()
    else if ty.Array? && v.Array? then
      forall i :: 0 <= i < |v.items| ==> ElementConforms(ty.element, v.items[i], hc, room, sent)
    else ElementOk(ty) && Conforms(ty, v, hc, room, sent)
  }
}
