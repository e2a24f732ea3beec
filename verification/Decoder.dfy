/** The decoder as it runs: a frontier that moves along the message as objects are claimed. Each
    method does what the function of the same name says, when it succeeds, and fails with the
    same error when that fails; and whatever it does, the claims made so far lie in the message,
    one behind the other. */
module Decoder {
  import opened Results
  import opened WireErrors
  import opened Bytes
  import opened Schema
  import opened Decode
  import P = Pack
  import Packer
  import LF = LayoutFacts
  import E = Encode
  import M = Message

  type Read = Result<Value, WireError>
  type ReadList = Result<seq<Value>, WireError>

  /** The outcome of a call is that of the function it carries out. */
  ghost predicate Same<T(!new)>(r: Result<T, WireError>, frontier: nat, e: Result<(T, nat), WireError>) {
    match e
    case Ok(p) => r == Ok(p.0) && frontier == p.1
    case Err(error) => r == Err(error)
  }

  datatype Range = Range(start: nat, end: nat)

  /** Claims are non-empty, in the message, and each starts where or after the last one ended. */
  ghost predicate Orderly(claims: seq<Range>, frontier: nat, size: nat) {
    && (forall i :: 0 <= i < |claims| ==> claims[i].start < claims[i].end <= size)
    && (forall i, j :: 0 <= i < j < |claims| ==> claims[i].end <= claims[j].start)
    && (forall i :: 0 <= i < |claims| ==> claims[i].end <= frontier)
  }

  class Decoder {
    const bytes: seq<byte>
    const handleCount: nat
    const maxDepth: nat
    var frontier: nat
    var depth: nat
    ghost var claims: seq<Range>

    function Context(): Ctx {
      Ctx(bytes, handleCount, maxDepth)
    }

    ghost predicate Valid()
      reads this
    {
      Orderly(claims, frontier, |bytes|)
    }

    constructor (bytes: seq<byte>, handleCount: nat, maxDepth: nat)
      ensures Valid() && frontier == 0 && depth == 0 && Context() == Ctx(bytes, handleCount, maxDepth)
    {
      this.bytes, this.handleCount, this.maxDepth := bytes, handleCount, maxDepth;
      frontier, depth, claims := 0, 0, [];
    }

    // -------------------------------------------------------------- primitives

    method Claim(start: nat, len: nat) returns (r: Result<(), WireError>)
      requires Valid()
      modifies this`frontier, this`claims
      ensures Valid()
      ensures match Decode.Claim(Context(), old(frontier), start, len)
        case Ok(f) => r == Ok(()) && frontier == f && claims == old(claims) + [Range(start, start + len)]
        case Err(e) => r == Err(e) && frontier == old(frontier) && claims == old(claims)
    {
      var end := start + len;
      if end > |bytes| || end <= start || start < frontier { return Err(IllegalMemoryRange); }
      frontier, claims := end, claims + [Range(start, end)];
      return Ok(());
    }

    method Enter() returns (r: Result<(), WireError>)
      modifies this`depth
      ensures match Decode.Enter(Context(), old(depth))
        case Ok(d) => r == Ok(()) && depth == d
        case Err(e) => r == Err(e)
    {
      depth := depth + 1;
      return if depth > maxDepth then Err(MaxRecursionDepth) else Ok(());
    }

    // -------------------------------------------------------------- structs

    method ReadStruct(off: nat, ty: Type, claim: bool) returns (r: Read)
      requires Valid() && ty.Struct?
      modifies this
      ensures Valid() && Same(r, frontier, DecodeStruct(Context(), old(frontier), old(depth), off, ty, claim))
      ensures r.Ok? ==> depth == old(depth)
      decreases ty, 2, 0
    {
      hide DecodeStructBody, Orderly;
      var _ :- Enter();
      var v :- ReadStructBody(off, ty, claim);
      depth := depth - 1;
      return Ok(v);
    }

    /** The struct's size, version and layout. */
    method ReadStructHeader(off: nat, fields: seq<FieldType>, claim: bool)
      returns (r: Result<(nat, nat, P.PackedStruct), WireError>)
      requires Valid()
      modifies this`frontier, this`claims
      ensures Valid()
      ensures match DecodeStructHeader(Context(), old(frontier), off, fields, claim)
        case Ok(t) => r.Ok? && r.value.0 == t.0 && r.value.1 == t.1 && StructLayout(fields) == Ok(r.value.2)
          && frontier == t.2
        case Err(e) => r == Err(e)
    {
      hide Orderly, ReadLE, P.PackFields, P.NumBytesForVersion, MaxVersion;
      if off + P.STRUCT_HEADER_SIZE > |bytes| { return Err(IllegalMemoryRange); }
      var numBytes :- ReadLE(Context(), off, 4);
      var version :- ReadLE(Context(), off + 4, 4);
      if numBytes < P.STRUCT_HEADER_SIZE { return Err(UnexpectedStructHeader); }
      if off + numBytes > |bytes| { return Err(IllegalMemoryRange); }
      if claim { var _ :- Claim(off, numBytes); }
      var layout :- Packer.PackAll(PackInput(fields));
      if version <= MaxVersion(fields) {
        var expected := P.NumBytesForVersion(layout, version);
        if expected.Some? && numBytes != expected.value { return Err(UnexpectedStructHeader); }
      } else if numBytes < layout.size {
        return Err(UnexpectedStructHeader);
      }
      return Ok((numBytes, version, layout));
    }

    method ReadStructBody(off: nat, ty: Type, claim: bool) returns (r: Read)
      requires Valid() && ty.Struct?
      modifies this
      ensures Valid() && Same(r, frontier, DecodeStructBody(Context(), old(frontier), old(depth), off, ty, claim))
      ensures r.Ok? ==> depth == old(depth)
      decreases ty, 1, 0
    {
      hide DecodeStructHeader, DecodePacked, Orderly, P.PackFields, Assemble, Defaults;
      var header :- ReadStructHeader(off, ty.fields, claim);
      var (numBytes, version, layout) := header;
      var scalars, presence := Defaults(ty.fields), seq(|ty.fields|, _ => false);
      DefaultsLength(ty.fields);
      ghost var f0 := frontier;
      for k := 0 to |layout.packedFields|
        invariant Valid() && depth == old(depth) && |scalars| == |ty.fields| && |presence| == |ty.fields|
        invariant DecodeFields(Context(), f0, depth, off, ty, numBytes, version, 0,
          Filled(Defaults(ty.fields), seq(|ty.fields|, _ => false))) ==
          DecodeFields(Context(), frontier, depth, off, ty, numBytes, version, k, Filled(scalars, presence))
      {
        var filled :- ReadPacked(off, ty, layout, numBytes, version, k, scalars, presence);
        scalars, presence := filled.0, filled.1;
      }
      return Ok(Value.Struct(version, Assemble(ty.fields, Filled(scalars, presence))));
    }

    lemma DefaultsLength(fields: seq<FieldType>)
      ensures |Defaults(fields)| == |fields|
    {
    }

    /** One packed field: skipped unless in version and in bounds, else a flag or a value. */
    method ReadPacked(off: nat, ty: Type, layout: P.PackedStruct, numBytes: nat, version: nat, k: nat,
        scalars: seq<Value>, presence: seq<bool>)
      returns (r: Result<(seq<Value>, seq<bool>), WireError>)
      requires Valid() && ty.Struct? && StructLayout(ty.fields) == Ok(layout) && k < |layout.packedFields|
      requires |scalars| == |ty.fields| && |presence| == |ty.fields|
      modifies this
      ensures Valid()
      ensures match DecodePacked(Context(), old(frontier), old(depth), off, ty, numBytes, version, k,
        Filled(scalars, presence))
        case Ok(t) => r == Ok((t.0.scalars, t.0.presence)) && frontier == t.1
        case Err(e) => r == Err(e)
      ensures r.Ok? ==> depth == old(depth)
      decreases ty, 0, |layout.packedFields| - k, 0
    {
      hide DecodeField, Orderly, P.PackFields, Bit;
      LF.PackedStands(ty.fields, k);
      var p := layout.packedFields[k];
      var i, abs := p.src.field.index, P.STRUCT_HEADER_SIZE + p.offset;
      if p.src.minVersion > version || abs + p.Size() > numBytes { return Ok((scalars, presence)); }
      if p.src.field.nullableValueKind && p.src.field.kind.Bool? {
        var b :- ReadByte(Context(), off + abs);
        return Ok((scalars, presence[i := Bit(b, p.bit)]));
      }
      var v;
      if p.src.field.nullableValueKind {
        v :- ReadField(off + abs, 0, ty.fields[i].ty.inner);
      } else {
        v :- ReadField(off + abs, p.bit, ty.fields[i].ty);
      }
      return Ok((scalars[i := v], presence));
    }

    method ReadStructPointer(off: nat, ty: Type, nullable: bool) returns (r: Read)
      requires Valid() && ty.Struct?
      modifies this
      ensures Valid() && Same(r, frontier, DecodeStructPointer(Context(), old(frontier), old(depth), off, ty, nullable))
      ensures r.Ok? ==> depth == old(depth)
      decreases ty, 3, 0
    {
      hide DecodeStruct, ReadPointer, Orderly;
      var ptr :- ReadPointer(Context(), off);
      match ptr {
        case NullPointer => return if nullable then Ok(Value.Null) else Err(UnexpectedNullPointer);
        case Offset(t) => r := ReadStruct(t, ty, true);
      }
    }

    // -------------------------------------------------------------- fields

    method ReadField(off: nat, bit: nat, ty: Type) returns (r: Read)
      requires Valid() && bit < 8
      modifies this
      ensures Valid() && Same(r, frontier, DecodeField(Context(), old(frontier), old(depth), off, bit, ty))
      ensures r.Ok? ==> depth == old(depth)
      decreases ty, 4, 0
    {
      hide DecodeInPlace, DecodeObject, Orderly;
      if ty.IsInPlace() {
        r := DecodeInPlace(Context(), off, bit, ty);
      } else if ty.NullableScalar? {
        r := ReadField(off, bit, ty.inner);
      } else {
        r := ReadObject(off, ty);
      }
    }

    method ReadObject(off: nat, ty: Type) returns (r: Read)
      requires Valid() && !ty.IsInPlace() && !ty.NullableScalar?
      modifies this
      ensures Valid() && Same(r, frontier, DecodeObject(Context(), old(frontier), old(depth), off, ty))
      ensures r.Ok? ==> depth == old(depth)
      decreases ty, 3, 1
    {
      hide DecodeString, DecodeArray, DecodeMap, DecodeStruct, DecodeStructPointer, DecodeUnion, ReadPointer, Orderly;
      match ty {
        case String(nullable) => r := ReadString(off, nullable);
        case Array(_, _) => r := ReadArray(off, ty);
        case Map(_, _, _) => r := ReadMap(off, ty);
        case Struct(_, _, nullable) =>
          if nullable { r := ReadStructPointer(off, ty, true); } else { r := ReadStruct(off, ty, false); }
        case Union(_, nullable, inlined) =>
          if inlined {
            r := ReadUnion(off, ty, false);
            return;
          }
          var ptr :- ReadPointer(Context(), off);
          match ptr {
            case NullPointer => return if nullable then Ok(Value.Null) else Err(UnexpectedNullPointer);
            case Offset(t) => r := ReadUnion(t, ty, true);
          }
      }
    }

    // -------------------------------------------------------------- unions

    method ReadUnion(off: nat, ty: Type, claim: bool) returns (r: Read)
      requires Valid() && ty.Union?
      modifies this
      ensures Valid() && Same(r, frontier, DecodeUnion(Context(), old(frontier), old(depth), off, ty, claim))
      ensures r.Ok? ==> depth == old(depth)
      decreases ty, 2, 0
    {
      hide DecodeUnionPayload, Orderly, ReadLE;
      if off + 8 > |bytes| { return Err(IllegalMemoryRange); }
      var size :- ReadLE(Context(), off, 4);
      var tag :- ReadLE(Context(), off + 4, 4);
      if tag >= |ty.members| { return Err(UnknownUnionTag); }
      if claim {
        if size != 16 { return Err(IllegalMemoryRange); }
        var _ :- Claim(off, 16);
      }
      var v :- ReadUnionPayload(off + 8, ty.members[tag]);
      return Ok(Value.Union(tag, v));
    }

    method ReadUnionPayload(off: nat, ty: Type) returns (r: Read)
      requires Valid()
      modifies this
      ensures Valid() && Same(r, frontier, DecodeUnionPayload(Context(), old(frontier), old(depth), off, ty))
      ensures r.Ok? ==> depth == old(depth)
      decreases ty, 5, 0
    {
      hide DecodeString, DecodeArray, DecodeMap, DecodeStructPointer, DecodeField, Orderly;
      match ty {
        case Struct(_, _, nullable) => r := ReadStructPointer(off, ty, nullable);
        case String(nullable) => r := ReadString(off, nullable);
        case Array(_, _) => r := ReadArray(off, ty);
        case Map(_, _, _) => r := ReadMap(off, ty);
        case _ => r := ReadField(off, 0, ty);
      }
    }

    // -------------------------------------------------------------- strings

    method ReadString(off: nat, nullable: bool) returns (r: Read)
      requires Valid()
      modifies this`frontier, this`claims
      ensures Valid() && Same(r, frontier, DecodeString(Context(), old(frontier), off, nullable))
    {
      hide DecodeStringAt, ReadPointer, Orderly;
      var ptr :- ReadPointer(Context(), off);
      match ptr {
        case NullPointer => return if nullable then Ok(Value.Null) else Err(UnexpectedNullPointer);
        case Offset(t) => r := ReadStringAt(t);
      }
    }

    method ReadStringAt(t: nat) returns (r: Read)
      requires Valid()
      modifies this`frontier, this`claims
      ensures Valid() && Same(r, frontier, DecodeStringAt(Context(), old(frontier), t))
    {
      hide ReadLE, ValidUtf8, Orderly;
      if t + 8 > |bytes| { return Err(IllegalMemoryRange); }
      var numBytes :- ReadLE(Context(), t, 4);
      var n :- ReadLE(Context(), t + 4, 4);
      if numBytes < 8 || numBytes > |bytes| - t { return Err(UnexpectedArrayHeader); }
      if n > numBytes - 8 { return Err(UnexpectedArrayHeader); }
      var data := bytes[t + 8..t + 8 + n];
      if 0 in data { return Err(DeserializationFailed); }
      if ReadByte(Context(), t + 8 + n) != Ok(0) { return Err(DeserializationFailed); }
      var _ :- Claim(t, numBytes);
      return if ValidUtf8(data) then Ok(Value.String(data)) else Err(DeserializationFailed);
    }

    // -------------------------------------------------------------- arrays and maps

    method ReadArray(off: nat, ty: Type) returns (r: Read)
      requires Valid() && ty.Array?
      modifies this
      ensures Valid() && Same(r, frontier, DecodeArray(Context(), old(frontier), old(depth), off, ty))
      ensures r.Ok? ==> depth == old(depth)
      decreases ty, 3, 0
    {
      hide DecodeArrayBody, ReadPointer, Orderly;
      var ptr :- ReadPointer(Context(), off);
      match ptr {
        case NullPointer => return if ty.nullable then Ok(Value.Null) else Err(UnexpectedNullPointer);
        case Offset(t) =>
          var _ :- Enter();
          var items :- ReadArrayBody(t, ty.element);
          depth := depth - 1;
          return Ok(Value.Array(items));
      }
    }

    ghost function Prepend(done: seq<Value>, rest: DecodedList): DecodedList {
      if rest.Ok? then Ok((done + rest.value.0, rest.value.1)) else rest
    }

    lemma PrependStep(f: nat, d: nat, off: nat, element: Type, n: nat, done: seq<Value>, v: Value, f1: nat)
      requires n > 0 && DecodeItem(Context(), f, d, off, element) == Ok((v, f1))
      ensures Prepend(done, DecodeItems(Context(), f, d, off, element, n)) ==
        Prepend(done + [v], DecodeItems(Context(), f1, d, off + element.ElementSize(), element, n - 1))
    {
      hide DecodeItem;
      var rest := DecodeItems(Context(), f1, d, off + element.ElementSize(), element, n - 1);
      if rest.Ok? { assert done + ([v] + rest.value.0) == done + [v] + rest.value.0; }
    }

    method ReadArrayBody(t: nat, element: Type) returns (r: ReadList)
      requires Valid()
      modifies this
      ensures Valid() && Same(r, frontier, DecodeArrayBody(Context(), old(frontier), old(depth), t, element))
      ensures r.Ok? ==> depth == old(depth)
      decreases element, 7, 0
    {
      hide DecodeItem, ReadLE, Orderly;
      if t + 8 > |bytes| { return Err(IllegalMemoryRange); }
      var numBytes :- ReadLE(Context(), t, 4);
      var n :- ReadLE(Context(), t + 4, 4);
      if numBytes < 8 + element.ElementSize() * n { return Err(UnexpectedArrayHeader); }
      if numBytes > |bytes| - t { return Err(IllegalMemoryRange); }
      var _ :- Claim(t, numBytes);
      r := ReadItems(t + 8, element, n);
    }

    method ReadItems(start: nat, element: Type, n: nat) returns (r: ReadList)
      requires Valid()
      modifies this
      ensures Valid() && Same(r, frontier, DecodeItems(Context(), old(frontier), old(depth), start, element, n))
      ensures r.Ok? ==> depth == old(depth)
      decreases element, 6, n
    {
      hide DecodeItem, Orderly;
      var out, off: nat := [], start;
      ghost var all := DecodeItems(Context(), frontier, depth, start, element, n);
      assert all == Prepend([], all) by { if all.Ok? { assert [] + all.value.0 == all.value.0; } }
      for i := 0 to n
        invariant Valid() && depth == old(depth)
        invariant all == Prepend(out, DecodeItems(Context(), frontier, depth, off, element, n - i))
      {
        ghost var f := frontier;
        var v :- ReadItem(off, element);
        PrependStep(f, depth, off, element, n - i, out, v, frontier);
        out, off := out + [v], off + element.ElementSize();
      }
      assert out + [] == out;
      return Ok(out);
    }

    method ReadItem(off: nat, element: Type) returns (r: Read)
      requires Valid()
      modifies this
      ensures Valid() && Same(r, frontier, DecodeItem(Context(), old(frontier), old(depth), off, element))
      ensures r.Ok? ==> depth == old(depth)
      decreases element, 5, 1
    {
      hide DecodeField, DecodeElement, ReadPointer, Orderly;
      if element.IsPod() {
        r := ReadField(off, 0, element);
        return;
      }
      var ptr :- ReadPointer(Context(), off);
      match ptr {
        case NullPointer => return if element.IsNullable() then Ok(Value.Null) else Err(UnexpectedNullPointer);
        case Offset(t) => r := ReadElement(t, element);
      }
    }

    method ReadElement(t: nat, element: Type) returns (r: Read)
      requires Valid()
      modifies this
      ensures Valid() && Same(r, frontier, DecodeElement(Context(), old(frontier), old(depth), t, element))
      ensures r.Ok? ==> depth == old(depth)
      decreases element, 5, 0
    {
      hide DecodeStruct, DecodeStringAt, DecodeMapAt, DecodeArrayBody, Orderly;
      match element {
        case Struct(_, _, _) => r := ReadStruct(t, element, true);
        case String(_) => r := ReadStringAt(t);
        case Map(_, _, _) => r := ReadMapAt(t, element);
        case Array(inner, _) =>
          var items :- ReadArrayBody(t, inner);
          return Ok(Value.Array(items));
        case _ => return Err(Unsupported(ArrayElementDecode));
      }
    }

    method ReadMap(off: nat, ty: Type) returns (r: Read)
      requires Valid() && ty.Map?
      modifies this
      ensures Valid() && Same(r, frontier, DecodeMap(Context(), old(frontier), old(depth), off, ty))
      ensures r.Ok? ==> depth == old(depth)
      decreases ty, 3, 0
    {
      hide DecodeMapAt, ReadPointer, Orderly;
      var ptr :- ReadPointer(Context(), off);
      match ptr {
        case NullPointer => return if ty.nullable then Ok(Value.Null) else Err(UnexpectedNullPointer);
        case Offset(t) => r := ReadMapAt(t, ty);
      }
    }

    method ReadMapAt(t: nat, ty: Type) returns (r: Read)
      requires Valid() && ty.Map?
      modifies this
      ensures Valid() && Same(r, frontier, DecodeMapAt(Context(), old(frontier), old(depth), t, ty))
      ensures r.Ok? ==> depth == old(depth)
      decreases ty, 2, 0
    {
      hide DecodeArrayBody, ReadPointer, ReadLE, Orderly;
      var _ :- Enter();
      if t + 24 > |bytes| { return Err(IllegalMemoryRange); }
      var numBytes :- ReadLE(Context(), t, 4);
      if numBytes < 24 { return Err(UnexpectedStructHeader); }
      var _ :- Claim(t, numBytes);
      var kp :- ReadPointer(Context(), t + 8);
      var vp :- ReadPointer(Context(), t + 16);
      if kp.NullPointer? || vp.NullPointer? { return Err(UnexpectedNullPointer); }
      var keys :- ReadArrayBody(kp.target, ty.key);
      var values :- ReadArrayBody(vp.target, ty.value);
      if |keys| != |values| { return Err(DifferentSizedArraysInMap); }
      depth := depth - 1;
      return Ok(Value.Map(keys, values));
    }
  }

  /** A whole message: header rules first, then the payload with a decoder of its own. */
  method Validate(bytes: seq<byte>, handleCount: nat, ty: Type, limits: M.Limits)
    returns (r: Result<M.ValidatedMessage, WireError>)
    ensures r == M.ValidateMessage(bytes, handleCount, ty, limits)
  {
    hide DecodeStruct, M.Parse;
    if |bytes| < M.V0_SIZE { return Err(UnexpectedStructHeader); }
    if |bytes| > limits.maxMessageSize { return Err(MessageTooLarge(|bytes|, limits.maxMessageSize)); }
    var parsed :- M.Parse(bytes);
    var (header, size) := parsed;
    var off := E.AlignUp(size);
    if off >= |bytes| { return Err(UnexpectedStructHeader); }
    if !ty.Struct? { return Err(Unsupported(PayloadNotStruct)); }
    var decoder := new Decoder(bytes, handleCount, limits.maxDepth);
    var payload :- decoder.ReadStruct(off, ty, true);
    return Ok(M.ValidatedMessage(header, payload, off));
  }
}
