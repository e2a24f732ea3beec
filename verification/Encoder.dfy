/** The encoder as it runs: one buffer that grows and is patched in place. Each method does
    what the function of the same name says, when it succeeds, and fails with the same error
    when that fails. */
module Encoder {
  import opened Results
  import opened WireErrors
  import opened Bytes
  import opened Schema
  import opened Pointers
  import opened Encode
  import P = Pack
  import Packer
  import LF = LayoutFacts
  import M = Message

  type Status = Result<(), WireError>

  const DONE: Status := Ok(())

  /** The outcome of a call is that of the function it carries out. */
  ghost predicate Same(r: Status, now: Enc, e: Encoded) {
    match e
    case Ok(s) => r == DONE && now == s
    case Err(error) => r == Err(error)
  }

  class Encoder {
    var buf: seq<byte>
    var handles: nat
    var depth: nat

    function State(): Enc
      reads this
    {
      Enc(buf, handles)
    }

    constructor (header: seq<byte>)
      ensures State() == Enc(header, 0) && depth == 0
    {
      buf, handles, depth := header, 0, 0;
    }

    // -------------------------------------------------------------- primitives

    /** Write a little-endian number, growing the buffer if it does not reach that far. */
    method WriteLE(off: nat, n: nat, k: nat)
      modifies this`buf
      ensures State() == Put(old(State()), off, n, k)
    {
      hide LE;
      Reserve(off + k);
      buf := buf[..off] + LE(n, k) + buf[off + k..];
    }

    method Reserve(end: nat)
      modifies this`buf
      ensures buf == Grow(old(buf), end)
    {
      if end > |buf| { buf := buf + seq(end - |buf|, _ => 0); }
    }

    method WriteBit(off: nat, bit: nat, on: bool) returns (r: Status)
      requires bit < 8
      modifies this`buf
      ensures Same(r, State(), PutBit(old(State()), off, bit, on))
    {
      if off >= |buf| { return Err(OutOfBounds); }
      buf := buf[off := SetBit(buf[off], bit, on)];
      return DONE;
    }

    method WriteHandle(off: nat, index: nat)
      modifies this`buf, this`handles
      ensures State() == PutHandle(old(State()), off, index)
    {
      if index != ENCODED_INVALID_HANDLE_VALUE { handles := handles + 1; }
      WriteLE(off, index, 4);
    }

    /** Where the next object starts: the end of the buffer, padded to 8. */
    method AppendObjectStart() returns (target: nat)
      modifies this`buf
      ensures State() == Start(old(State())) && target == |buf|
    {
      target := AlignUp(|buf|);
      Reserve(target);
    }

    method WritePointer(off: nat, target: nat)
      modifies this`buf
      ensures State() == PutPointer(old(State()), off, target)
    {
      WriteLE(off, EncodePointer(off, target), 8);
    }

    method Enter() returns (r: Status)
      modifies this`depth
      ensures match EnterEncode(old(depth)) case Ok(d) => r == DONE && depth == d case Err(e) => r == Err(e)
    {
      depth := depth + 1;
      return if depth > MAX_ENCODE_DEPTH then Err(RecursionLimitExceeded(depth)) else DONE;
    }

    // -------------------------------------------------------------- structs

    method EncodeStructAt(off: nat, ty: Type, v: Value) returns (r: Status)
      requires ty.Struct?
      modifies this
      ensures Same(r, State(), EncodeStruct(old(State()), old(depth), off, ty, v))
      ensures r.Ok? ==> depth == old(depth)
      decreases ty, 1, 0
    {
      hide Put, EncodePacked, P.PackFields;
      if !v.Struct? {
        return if v.Null? && ty.nullable then Err(UnexpectedNull) else Err(Unsupported(StructMismatch));
      }
      var layout :- Packer.PackAll(PackInput(ty.fields));
      Reserve(off + layout.size);
      WriteLE(off, layout.size, 4);
      WriteLE(off + 4, v.version, 4);
      ghost var s0 := State();
      assert s0 == StructHeader(old(State()), off, layout.size, v.version);
      for k := 0 to |layout.packedFields|
        invariant depth == old(depth)
        invariant EncodeFields(s0, depth, off, ty, v.fields, 0) == EncodeFields(State(), depth, off, ty, v.fields, k)
      {
        var _ :- EncodePackedAt(off, ty, layout, v.fields, k);
      }
      return DONE;
    }

    /** One packed field: a flag bit, the value of a nullable scalar if it is there, or a field. */
    method EncodePackedAt(off: nat, ty: Type, layout: P.PackedStruct, vals: seq<Value>, k: nat) returns (r: Status)
      requires ty.Struct? && StructLayout(ty.fields) == Ok(layout) && k < |layout.packedFields|
      modifies this
      ensures Same(r, State(), EncodePacked(old(State()), old(depth), off, ty, vals, k))
      ensures r.Ok? ==> depth == old(depth)
      decreases ty, 0, |layout.packedFields| - k, 0
    {
      hide Put, EncodeField, PutBit, P.PackFields;
      LF.PackedStands(ty.fields, k);
      var p := layout.packedFields[k];
      var i := p.src.field.index;
      var v := if i < |vals| then vals[i] else Value.Null;
      var at := off + P.STRUCT_HEADER_SIZE + p.offset;
      if p.src.field.nullableValueKind {
        var present := v.NullableScalar? && v.present;
        if p.src.field.kind.Bool? {
          r := WriteBit(at, p.bit, present);
        } else if present {
          r := EncodeFieldAt(at, 0, ty.fields[i].ty.inner, v.value);
        } else {
          return DONE;
        }
      } else {
        r := EncodeFieldAt(at, p.bit, ty.fields[i].ty, v);
      }
    }

    // -------------------------------------------------------------- fields

    method EncodeFieldAt(off: nat, bit: nat, ty: Type, v: Value) returns (r: Status)
      requires bit < 8
      modifies this
      ensures Same(r, State(), EncodeField(old(State()), old(depth), off, bit, ty, v))
      ensures r.Ok? ==> depth == old(depth)
      decreases ty, 4, 0
    {
      hide Put, EncodeInPlace, EncodeObject;
      if ty.IsInPlace() {
        r := EncodeInPlaceAt(off, bit, ty, v);
      } else if ty.NullableScalar? {
        if v.NullableScalar? && v.present {
          r := EncodeFieldAt(off, bit, ty.inner, v.value);
        } else {
          return if v.NullableScalar? || v.Null? then DONE else Err(MISMATCH);
        }
      } else if v.Null? {
        if !ty.IsNullable() { return Err(MISMATCH); }
        WriteLE(off, 0, 8);
        return DONE;
      } else {
        r := EncodeObjectAt(off, ty, v);
      }
    }

    method EncodeInPlaceAt(off: nat, bit: nat, ty: Type, v: Value) returns (r: Status)
      requires bit < 8 && ty.IsInPlace()
      modifies this`buf, this`handles
      ensures Same(r, State(), EncodeInPlace(old(State()), off, bit, ty, v))
    {
      hide Put, PutBit, PutHandle;
      r := DONE;
      match (ty, v) {
        case (Bool, Bool(b)) => r := WriteBit(off, bit, b);
        case (Num(k), Num(kind, n)) =>
          if k != kind { return Err(MISMATCH); }
          WriteLE(off, k.ToUnsigned(n), k.Width());
        case (Enum, Enum(n)) => WriteLE(off, n % TWO_32, 4);
        case (Handle, Handle(index)) => WriteHandle(off, index);
        case (Interface(version), Interface(index, given)) =>
          WriteHandle(off, index);
          WriteLE(off + 4, Max(given, version), 4);
        case (AssociatedEndpoint, AssociatedEndpoint(id)) => WriteLE(off, id, 4);
        case (AssociatedInterface(version), AssociatedInterface(id, given)) =>
          WriteLE(off, id, 4);
          WriteLE(off + 4, Max(given, version), 4);
        case _ => return Err(MISMATCH);
      }
    }

    method EncodeObjectAt(off: nat, ty: Type, v: Value) returns (r: Status)
      requires !ty.IsInPlace() && !ty.NullableScalar?
      modifies this
      ensures Same(r, State(), EncodeObject(old(State()), old(depth), off, ty, v))
      ensures r.Ok? ==> depth == old(depth)
      decreases ty, 3, 1
    {
      hide Start, PutPointer, EncodeString, EncodeArray, EncodeMap, EncodeStruct, EncodeUnion;
      match ty {
        case String(_) =>
          if !v.String? { return Err(MISMATCH); }
          EncodeStringAtSlot(off, v.s);
          return DONE;
        case Array(_, _) =>
          if !v.Array? { return Err(MISMATCH); }
          r := EncodeArrayAt(off, ty, v.items);
        case Map(_, _, _) =>
          if !v.Map? { return Err(MISMATCH); }
          r := EncodeMapSlot(off, ty, v.keys, v.values);
        case Struct(_, _, nullable) =>
          if !v.Struct? { return Err(MISMATCH); }
          if !nullable {
            r := EncodeStructAt(off, ty, v);
            return;
          }
          var target := AppendObjectStart();
          var _ :- EncodeStructAt(target, ty, v);
          WritePointer(off, target);
          return DONE;
        case Union(_, _, inlined) =>
          if !v.Union? { return Err(MISMATCH); }
          if v.tag >= |ty.members| { return Err(InvalidUnionValue); }
          if inlined {
            r := EncodeUnionAt(off, ty, v.tag, v.value);
            return;
          }
          var target := AppendObjectStart();
          var _ :- EncodeUnionAt(target, ty, v.tag, v.value);
          WritePointer(off, target);
          return DONE;
      }
    }

    // -------------------------------------------------------------- unions

    method EncodeUnionAt(off: nat, ty: Type, tag: nat, v: Value) returns (r: Status)
      requires ty.Union? && tag < |ty.members|
      modifies this
      ensures Same(r, State(), EncodeUnion(old(State()), old(depth), off, ty, tag, v))
      ensures r.Ok? ==> depth == old(depth)
      decreases ty, 2, 0
    {
      hide Put, EncodeUnionPayload;
      Reserve(off + 16);
      WriteLE(off, 16, 4);
      WriteLE(off + 4, tag, 4);
      r := EncodeUnionPayloadAt(off + 8, ty.members[tag], v);
    }

    method EncodeUnionPayloadAt(off: nat, ty: Type, v: Value) returns (r: Status)
      modifies this
      ensures Same(r, State(), EncodeUnionPayload(old(State()), old(depth), off, ty, v))
      ensures r.Ok? ==> depth == old(depth)
      decreases ty, 5, 0
    {
      hide Start, PutPointer, EncodeString, EncodeArrayBody, EncodeMap, EncodeStruct, EncodeField;
      if ty.InlineStruct() && v.Struct? {
        r := EncodeStructAt(off, ty, v);
      } else if ty.String? && v.String? {
        EncodeStringAtSlot(off, v.s);
        return DONE;
      } else if ty.Array? && v.Array? {
        var target := AppendObjectStart();
        var _ :- EncodeArrayBodyAt(target, ty.element, v.items);
        WritePointer(off, target);
        return DONE;
      } else if ty.Map? && v.Map? {
        r := EncodeMapSlot(off, ty, v.keys, v.values);
      } else {
        r := EncodeFieldAt(off, 0, ty, v);
      }
    }

    // -------------------------------------------------------------- strings

    method EncodeStringObject(target: nat, data: seq<byte>)
      modifies this`buf
      ensures State() == EncodeStringAt(old(State()), target, data)
    {
      hide LE;
      var total := AlignUp(8 + |data| + 1);
      Reserve(target + total);
      WriteLE(target, total, 4);
      WriteLE(target + 4, |data|, 4);
      assert State() == StringHeader(old(State()), target, |data|);
      Reserve(target + 8 + |data + [0]|);
      buf := buf[..target + 8] + (data + [0]) + buf[target + 8 + |data + [0]|..];
    }

    method EncodeStringAtSlot(off: nat, data: seq<byte>)
      modifies this`buf
      ensures Ok(State()) == EncodeString(old(State()), off, data)
    {
      hide Start, PutPointer, EncodeStringAt;
      var target := AppendObjectStart();
      EncodeStringObject(target, data);
      WritePointer(off, target);
    }

    // -------------------------------------------------------------- arrays and maps

    method EncodeArrayAt(off: nat, ty: Type, items: seq<Value>) returns (r: Status)
      requires ty.Array?
      modifies this
      ensures Same(r, State(), EncodeArray(old(State()), old(depth), off, ty, items))
      ensures r.Ok? ==> depth == old(depth)
      decreases ty, 3, 0
    {
      hide Start, PutPointer, EncodeArrayBody;
      var target := AppendObjectStart();
      var _ :- Enter();
      var _ :- EncodeArrayBodyAt(target, ty.element, items);
      depth := depth - 1;
      WritePointer(off, target);
      return DONE;
    }

    method EncodeArrayBodyAt(target: nat, element: Type, items: seq<Value>) returns (r: Status)
      modifies this
      ensures Same(r, State(), EncodeArrayBody(old(State()), old(depth), target, element, items))
      ensures r.Ok? ==> depth == old(depth)
      decreases element, 7, 0
    {
      hide Put, EncodeItems;
      var size := element.ElementSize();
      var total := AlignUp(8 + size * |items|);
      Reserve(target + total);
      WriteLE(target, total, 4);
      WriteLE(target + 4, |items|, 4);
      assert State() == ArrayHeader(old(State()), target, size, |items|);
      r := EncodeItemsAt(target + 8, element, items);
    }

    method EncodeItemsAt(start: nat, element: Type, items: seq<Value>) returns (r: Status)
      modifies this
      ensures Same(r, State(), EncodeItems(old(State()), old(depth), start, element, items))
      ensures r.Ok? ==> depth == old(depth)
      decreases element, 6, |items|
    {
      hide EncodeItem;
      ghost var s0 := State();
      var off: nat := start;
      assert items[0..] == items;
      for i := 0 to |items|
        invariant depth == old(depth)
        invariant EncodeItems(s0, depth, start, element, items) == EncodeItems(State(), depth, off, element, items[i..])
      {
        assert items[i..][0] == items[i] && items[i..][1..] == items[i + 1..];
        var _ :- EncodeItemAt(off, element, items[i]);
        off := off + element.ElementSize();
      }
      return DONE;
    }

    method EncodeItemAt(off: nat, element: Type, item: Value) returns (r: Status)
      modifies this
      ensures Same(r, State(), EncodeItem(old(State()), old(depth), off, element, item))
      ensures r.Ok? ==> depth == old(depth)
      decreases element, 5, 1
    {
      hide Start, Put, PutPointer, EncodeField, EncodeElement;
      if element.IsPod() {
        r := EncodeFieldAt(off, 0, element, item);
      } else if item.Null? {
        WriteLE(off, 0, 8);
        return DONE;
      } else {
        var target := AppendObjectStart();
        var _ :- EncodeElementAt(target, element, item);
        WritePointer(off, target);
        return DONE;
      }
    }

    method EncodeElementAt(target: nat, element: Type, item: Value) returns (r: Status)
      modifies this
      ensures Same(r, State(), EncodeElement(old(State()), old(depth), target, element, item))
      ensures r.Ok? ==> depth == old(depth)
      decreases element, 5, 0
    {
      hide EncodeStruct, EncodeStringAt, EncodeArrayBody, EncodeMapAt;
      match element {
        case Struct(_, _, nullable) =>
          if nullable && item.Null? { return DONE; }
          r := EncodeStructAt(target, element, item);
        case String(_) =>
          EncodeStringObject(target, if item.String? then item.s else []);
          return DONE;
        case Array(inner, _) =>
          r := EncodeArrayBodyAt(target, inner, if item.Array? then item.items else []);
        case Map(_, _, _) =>
          if !item.Map? { return Err(TypeMismatch); }
          r := EncodeMapObject(target, element, item.keys, item.values);
        case _ => return Err(Unsupported(ArrayElementEncode));
      }
    }

    method EncodeMapSlot(off: nat, ty: Type, keys: seq<Value>, values: seq<Value>) returns (r: Status)
      requires ty.Map?
      modifies this
      ensures Same(r, State(), EncodeMap(old(State()), old(depth), off, ty, keys, values))
      ensures r.Ok? ==> depth == old(depth)
      decreases ty, 3, 0
    {
      hide Start, PutPointer, EncodeMapAt;
      var target := AppendObjectStart();
      var _ :- EncodeMapObject(target, ty, keys, values);
      WritePointer(off, target);
      return DONE;
    }

    method EncodeMapObject(target: nat, ty: Type, keys: seq<Value>, values: seq<Value>) returns (r: Status)
      requires ty.Map?
      modifies this
      ensures Same(r, State(), EncodeMapAt(old(State()), old(depth), target, ty, keys, values))
      ensures r.Ok? ==> depth == old(depth)
      decreases ty, 2, 0
    {
      hide Start, Put, PutPointer, EncodeArrayBody;
      if |keys| != |values| { return Err(MapKeyCountMismatch(|keys|, |values|)); }
      Reserve(target + 24);
      WriteLE(target, 24, 4);
      WriteLE(target + 4, 0, 4);
      var _ :- Enter();
      var ko := AppendObjectStart();
      var _ :- EncodeArrayBodyAt(ko, ty.key, keys);
      WritePointer(target + 8, ko);
      var vo := AppendObjectStart();
      var _ :- EncodeArrayBodyAt(vo, ty.value, values);
      WritePointer(target + 16, vo);
      depth := depth - 1;
      return DONE;
    }
  }

  /** A whole message: header bytes, payload, and the patched payload pointer. */
  method EncodeWhole(header: seq<byte>, ty: Type, v: Value) returns (r: Result<M.EncodedMessage, WireError>)
    ensures r == M.EncodeMessage(header, ty, v)
  {
    hide Put, EncodeStruct;
    if !ty.Struct? { return Err(Unsupported(PayloadNotStruct)); }
    var encoder := new Encoder(header);
    var target := encoder.AppendObjectStart();
    var _ :- encoder.EncodeStructAt(target, ty, v);
    if |header| >= M.V2_SIZE { encoder.WritePointer(M.PAYLOAD_OFFSET, target); }
    return Ok(M.EncodedMessage(encoder.buf, encoder.handles));
  }
}
