/** Serializing a message header as it runs: a zeroed buffer of the version's size, filled in
    place field by field. */
module HeaderWriter {
  import opened Results
  import opened WireErrors
  import opened Bytes
  import opened Message

  /** Copy `data` over what is at `off`; what comes before and after stays. */
  method CopyAt(out: array<byte>, off: nat, data: seq<byte>)
    requires off + |data| <= out.Length
    modifies out
    ensures out[..off] == old(out[..off]) && out[off..off + |data|] == data
    ensures forall i :: off + |data| <= i < out.Length ==> out[i] == old(out[i])
  {
    forall i | 0 <= i < |data| { out[off + i] := data[i]; }
  }

  lemma ZerosAre(s: seq<byte>)
    requires forall i :: 0 <= i < |s| ==> s[i] == 0
    ensures s == LE(0, |s|)
  {
    if |s| > 0 { ZerosAre(s[1..]); }
  }

  /** The fields every version has. */
  method FillBase(h: MessageHeader, out: array<byte>)
    requires out.Length >= V0_SIZE && forall i :: 0 <= i < out.Length ==> out[i] == 0
    modifies out
    ensures out[..V0_SIZE] == BaseBytes(h, out.Length)
    ensures forall i :: V0_SIZE <= i < out.Length ==> out[i] == 0
  {
    hide LE;
    CopyAt(out, 0, LE(out.Length, 4));
    CopyAt(out, 4, LE(h.version, 4));
    assert out[..8] == out[..4] + out[4..8];
    CopyAt(out, 8, LE(h.interfaceId, 4));
    assert out[..12] == out[..8] + out[8..12];
    CopyAt(out, 12, LE(h.name, 4));
    assert out[..16] == out[..12] + out[12..16];
    CopyAt(out, 16, LE(h.flags, 4));
    assert out[..20] == out[..16] + out[16..20];
    CopyAt(out, 20, LE(h.traceNonce, 4));
    assert out[..24] == out[..20] + out[20..24];
  }

  method SerializeHeader(h: MessageHeader) returns (r: Result<seq<byte>, WireError>)
    ensures r == Serialize(h)
  {
    hide LE, BaseBytes;
    var size := HeaderSize(h.version);
    var out := new byte[size](_ => 0);
    FillBase(h, out);
    ghost var a, b, c := [], [], [];
    if h.requestId.Some? {
      if size < V1_SIZE { return Err(OutOfBounds); }
      CopyAt(out, V0_SIZE, LE(h.requestId.value, 8));
    }
    if size >= V1_SIZE {
      if h.requestId.None? { ZerosAre(out[24..32]); }
      a := LE(h.requestId.GetOr(0), 8);
      assert out[..32] == out[..24] + out[24..32];
    }
    if size >= V2_SIZE {
      ZerosAre(out[32..40]);
      ZerosAre(out[40..48]);
      b := LE(0, 8) + LE(0, 8);
      assert out[..48] == out[..32] + (out[32..40] + out[40..48]);
    }
    if h.creationTimeticks.Some? {
      if size < V3_SIZE { return Err(OutOfBounds); }
      CopyAt(out, 48, LE(I64.ToUnsigned(h.creationTimeticks.value), 8));
    }
    if size >= V3_SIZE {
      if h.creationTimeticks.None? {
        ZerosAre(out[48..56]);
        assert I64.ToUnsigned(0) == 0;
      }
      c := LE(I64.ToUnsigned(h.creationTimeticks.GetOr(0)), 8);
      assert out[..56] == out[..48] + out[48..56];
    }
    assert out[..] == out[..size] == BaseBytes(h, size) + a + b + c;
    return Ok(out[..]);
  }
}
