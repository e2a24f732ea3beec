/** The packer as it runs: passes over the field list that build, number and place packed
    fields, each pass shown to compute the function that specifies it. */
module Packer {
  import opened Results
  import opened WireErrors
  import opened Bytes
  import opened Pack

  method PackAll(fields: seq<Field>) returns (r: Result<PackedStruct, WireError>)
    ensures r == PackFields(fields)
  {
    var expanded := ExpandAll(fields);
    var src :- Number(SortByKey(expanded, SourceKey));
    var dst := [];
    for i := 0 to |src|
      invariant dst == PlaceAll(src[..i])
    {
      assert src[..i + 1][..i] == src[..i];
      dst := PlaceOne(dst, src[i]);
    }
    assert src[..|src|] == src;
    var order := SortByKey(dst, PackedKey);
    var info := Versions(order);
    return Ok(PackedStruct(dst, order, TotalSize(dst), info));
  }

  /** A nullable value becomes a flag and a value, anything else stays one field. */
  method ExpandAll(fields: seq<Field>) returns (src: seq<Source>)
    ensures src == Expand(fields)
  {
    src := [];
    for i := 0 to |fields|
      invariant src == Expand(fields[..i])
    {
      assert fields[..i + 1][..i] == fields[..i];
      var f := fields[i];
      if f.nullableValueKind {
        src := src + [Source(f.(kind := Kind.Bool), i, Some(0), 0), Source(f, i, Some(1), 0)];
      } else {
        src := src + [Source(f, i, None, 0)];
      }
    }
    assert fields[..|fields|] == fields;
  }

  function Prepend(done: seq<Source>, rest: Result<seq<Source>, WireError>): Result<seq<Source>, WireError> {
    if rest.Ok? then Ok(done + rest.value) else rest
  }

  /** MinVersion propagation: the version in force is carried along the fields. */
  method Number(src: seq<Source>) returns (r: Result<seq<Source>, WireError>)
    ensures r == AssignVersions(src, 0)
  {
    var done, next: nat := [], 0;
    assert src[0..] == src;
    PrependNothing(AssignVersions(src, 0));
    for i := 0 to |src|
      invariant AssignVersions(src, 0) == Prepend(done, AssignVersions(src[i..], next))
    {
      var f := src[i].field;
      assert src[i..][0] == src[i] && src[i..][1..] == src[i + 1..];
      match f.minVersion {
        case Some(mv) =>
          if mv < next { return Err(Unsupported(VersionOutOfOrder)); }
        case None =>
          if next != 0 { return Err(Unsupported(UnversionedAfterVersioned)); }
      }
      var v := f.Version();
      if v != 0 && f.IsNonNullableReference() { return Err(Unsupported(VersionedNonNullableReference)); }
      Step(src, i, next, done);
      done, next := done + [src[i].(minVersion := v)], v;
    }
    assert done + [] == done;
    return Ok(done);
  }

  lemma PrependNothing(r: Result<seq<Source>, WireError>)
    ensures Prepend([], r) == r
  {
    if r.Ok? { assert [] + r.value == r.value; }
  }

  lemma Step(src: seq<Source>, i: nat, next: nat, done: seq<Source>)
    requires i < |src|
    requires var f := src[i].field;
      !(f.minVersion.Some? && f.minVersion.value < next) && !(f.minVersion.None? && next != 0) &&
      !(f.Version() != 0 && f.IsNonNullableReference())
    ensures var v := src[i].field.Version();
      Prepend(done, AssignVersions(src[i..], next)) ==
        Prepend(done + [src[i].(minVersion := v)], AssignVersions(src[i + 1..], v))
  {
    var v := src[i].field.Version();
    assert src[i..][0] == src[i] && src[i..][1..] == src[i + 1..];
    var rest := AssignVersions(src[i + 1..], v);
    if rest.Ok? {
      assert done + ([src[i].(minVersion := v)] + rest.value) == done + [src[i].(minVersion := v)] + rest.value;
    }
  }

  /** First fit: the first hole behind some placed field that is wide enough, or the end. */
  method PlaceOne(dst: seq<PackedField>, s: Source) returns (r: seq<PackedField>)
    ensures r == Place(dst, s)
  {
    if |dst| == 0 { return [PackedField(s, 0, 0)]; }
    var last := dst[0];
    for i := 1 to |dst|
      invariant last == dst[i - 1]
      invariant Place(dst, s) == PlaceFrom(dst, s, i)
    {
      var (offset, bit) := FieldOffset(s, last);
      if offset + s.field.kind.Size() <= dst[i].offset {
        return dst[..i] + [PackedField(s, offset, bit)] + dst[i..];
      }
      last := dst[i];
    }
    var (offset, bit) := FieldOffset(s, dst[|dst| - 1]);
    return dst + [PackedField(s, offset, bit)];
  }

  /** The size of every version: the furthest end among the fields so far. */
  method Versions(order: seq<PackedField>) returns (info: seq<(nat, nat)>)
    ensures info == VersionInfo(order, 0, 0)
  {
    info := [];
    var version: nat, payload: nat := 0, 0;
    assert order[0..] == order;
    for i := 0 to |order|
      invariant VersionInfo(order, 0, 0) == info + VersionInfo(order[i..], version, payload)
    {
      hide VersionInfo, PayloadUpTo;
      VersionStep(order, i, version, payload, info);
      if order[i].src.minVersion != version {
        info := info + [(version, payload + STRUCT_HEADER_SIZE)];
        version := order[i].src.minVersion;
      }
      payload := Max(payload, PayloadUpTo(order[i]));
    }
    info := info + [(version, payload + STRUCT_HEADER_SIZE)];
  }

  lemma VersionStep(order: seq<PackedField>, i: nat, version: nat, payload: nat, info: seq<(nat, nat)>)
    requires i < |order|
    ensures var v := order[i].src.minVersion;
      info + VersionInfo(order[i..], version, payload) ==
      (if v != version then info + [(version, payload + STRUCT_HEADER_SIZE)] else info)
        + VersionInfo(order[i + 1..], v, Max(payload, PayloadUpTo(order[i])))
  {
    assert order[i..][0] == order[i] && order[i..][1..] == order[i + 1..];
  }
}
