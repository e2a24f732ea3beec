/** Struct field packing: the first-fit layout of the wire structs, with bit-packed
    booleans and per-version sizes. */
module Pack {
  import opened Results
  import opened WireErrors
  import opened Bytes

  const STRUCT_HEADER_SIZE: nat := 8

  datatype Kind =
    | Bool | I8 | U8 | I16 | U16 | I32 | U32 | I64 | U64 | F32 | F64 | Enum
    | Handle | MsgPipe | SharedBuffer | PlatformHandle | DcPipe | DpPipe
    | String | Array | Map | Struct | Interface | PendingRemote | PendingAssociatedRemote
    | Union | PendingReceiver | PendingAssociatedReceiver
  {
    function Size(): (n: nat)
      ensures n in {1, 2, 4, 8, 16}
    {
      match this
      case Bool | I8 | U8 => 1
      case I16 | U16 => 2
      case I32 | U32 | F32 | Enum | Handle | MsgPipe | SharedBuffer | PlatformHandle | DcPipe
        | DpPipe | PendingReceiver | PendingAssociatedReceiver => 4
      case I64 | U64 | F64 => 8
      case String | Array | Map | Struct | Interface | PendingRemote
        | PendingAssociatedRemote => 8
      case Union => 16
    }

    function Alignment(): (n: nat)
      ensures n in {1, 2, 4, 8}
    {
      match this
      case Interface | PendingRemote | PendingAssociatedRemote => 4
      case Union => 8
      case _ => Size()
    }

    predicate IsReference() {
      String? || Array? || Map? || Struct? || Interface? || PendingRemote?
    }
  }

  /** A struct field in declaration order, before packing. */
  datatype Field = Field(
    index: nat,
    minVersion: Option<nat>,
    kind: Kind,
    nullableValueKind: bool,
    nullableReference: bool)
  {
    predicate IsNonNullableReference() {
      kind.IsReference() && !nullableReference
    }

    /** The version a field belongs to: its MinVersion, or 0 when it has none. */
    function Version(): nat {
      minVersion.GetOr(0)
    }
  }

  /** One field to place. A nullable value expands to a flag (sub 0) and a value (sub 1). */
  datatype Source = Source(field: Field, ordinal: nat, sub: Option<nat>, minVersion: nat) {
    /** The sort key (ordinal, sub), with an absent sub first. */
    function Key(): nat {
      3 * ordinal + (if sub == None then 0 else if sub == Some(0) then 1 else 2)
    }
  }

  datatype PackedField = PackedField(src: Source, offset: nat, bit: nat) {
    function Size(): nat { src.field.kind.Size() }
    function End(): nat { offset + Size() }
  }

  datatype PackedStruct = PackedStruct(
    packedFields: seq<PackedField>,
    ordinalOrder: seq<PackedField>,
    size: nat,
    versionInfo: seq<(nat, nat)>)

  function Pad(offset: nat, alignment: nat): nat
    requires alignment > 0
  {
    (alignment - offset % alignment) % alignment
  }

  /** The next (offset, bit) after `last` that suits `s`. */
  function FieldOffset(s: Source, last: PackedField): (nat, nat) {
    if s.field.kind.Bool? && last.src.field.kind.Bool? && last.bit < 7 then
      (last.offset, last.bit + 1)
    else
      (last.End() + Pad(last.End(), s.field.kind.Alignment()), 0)
  }

  /** The 8-rounded payload size if `f` is the last field. */
  function PayloadUpTo(f: PackedField): nat {
    f.End() + Pad(f.End(), 8)
  }

  // ---------------------------------------------------------------- the passes of `pack`

  /** The sources of one declared field. */
  function ExpandField(f: Field, ordinal: nat): seq<Source> {
    if f.nullableValueKind then
      [Source(f.(kind := Kind.Bool), ordinal, Some(0), 0), Source(f, ordinal, Some(1), 0)]
    else
      [Source(f, ordinal, None, 0)]
  }

  function Expand(fields: seq<Field>): seq<Source> {
    if |fields| == 0 then []
    else Expand(fields[..|fields| - 1]) + ExpandField(fields[|fields| - 1], |fields| - 1)
  }

  /** Stable insertion: after every element whose key is not larger. */
  function InsertByKey<T>(s: seq<T>, x: T, key: T -> nat): seq<T> {
    if |s| == 0 || key(s[|s| - 1]) <= key(x) then s + [x]
    else InsertByKey(s[..|s| - 1], x, key) + [s[|s| - 1]]
  }

  function SortByKey<T>(s: seq<T>, key: T -> nat): seq<T> {
    if |s| == 0 then [] else InsertByKey(SortByKey(s[..|s| - 1], key), s[|s| - 1], key)
  }

  function SourceKey(s: Source): nat { s.Key() }

  function PackedKey(p: PackedField): nat { p.src.Key() }

  /** MinVersion propagation with its three rejections. */
  function AssignVersions(src: seq<Source>, next: nat): Result<seq<Source>, WireError> {
    if |src| == 0 then Ok([])
    else
      var f := src[0].field;
      if f.minVersion.Some? && f.minVersion.value < next then
        Err(Unsupported(VersionOutOfOrder))
      else if f.minVersion.None? && next != 0 then
        Err(Unsupported(UnversionedAfterVersioned))
      else
        var v := f.Version();
        if v != 0 && f.IsNonNullableReference() then
          Err(Unsupported(VersionedNonNullableReference))
        else
          var rest :- AssignVersions(src[1..], v);
          Ok([src[0].(minVersion := v)] + rest)
  }

  /** Insert `s` at the first hole at or after position `i`, or at the end. */
  function PlaceFrom(dst: seq<PackedField>, s: Source, i: nat): seq<PackedField>
    requires 1 <= i <= |dst|
    decreases |dst| - i
  {
    var (offset, bit) := FieldOffset(s, dst[i - 1]);
    if i == |dst| then dst + [PackedField(s, offset, bit)]
    else if offset + s.field.kind.Size() <= dst[i].offset then
      dst[..i] + [PackedField(s, offset, bit)] + dst[i..]
    else PlaceFrom(dst, s, i + 1)
  }

  function Place(dst: seq<PackedField>, s: Source): seq<PackedField> {
    if |dst| == 0 then [PackedField(s, 0, 0)] else PlaceFrom(dst, s, 1)
  }

  function PlaceAll(src: seq<Source>): seq<PackedField> {
    if |src| == 0 then [] else Place(PlaceAll(src[..|src| - 1]), src[|src| - 1])
  }

  function TotalSize(dst: seq<PackedField>): nat {
    STRUCT_HEADER_SIZE + if |dst| == 0 then 0 else PayloadUpTo(dst[|dst| - 1])
  }

  /** The (version, num_bytes) table, walking the fields in ordinal order. */
  function VersionInfo(order: seq<PackedField>, version: nat, payload: nat): seq<(nat, nat)> {
    if |order| == 0 then [(version, payload + STRUCT_HEADER_SIZE)]
    else
      var v := order[0].src.minVersion;
      var rest := VersionInfo(order[1..], v, Max(payload, PayloadUpTo(order[0])));
      if v != version then [(version, payload + STRUCT_HEADER_SIZE)] + rest else rest
  }

  function PackFields(fields: seq<Field>): Result<PackedStruct, WireError> {
    var src :- AssignVersions(SortByKey(Expand(fields), SourceKey), 0);
    var dst := PlaceAll(src);
    var order := SortByKey(dst, PackedKey);
    Ok(PackedStruct(dst, order, TotalSize(dst), VersionInfo(order, 0, 0)))
  }

  /** The largest size among the table's rows up to `version`. */
  function MaxUpTo(info: seq<(nat, nat)>, version: nat): Option<nat> {
    if |info| == 0 then None
    else
      var rest := MaxUpTo(info[1..], version);
      if info[0].0 <= version then Some(Max(info[0].1, rest.GetOr(0))) else rest
  }

  function NumBytesForVersion(p: PackedStruct, version: nat): Option<nat> {
    MaxUpTo(p.versionInfo, version)
  }
}
