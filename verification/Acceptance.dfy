/** What the decoder accepts from senders that lay messages out in their own way: sizes larger than
    needed, and headers of versions it does not know. Stated on the bytes. */
module Acceptance {
  import opened Results
  import opened Bytes
  import opened Schema
  import opened Decode
  import opened Message

  /** The 32-bit number at `off`. */
  function At32(bytes: seq<byte>, off: nat): nat {
    if off + 4 <= |bytes| then FromLE(bytes[off..off + 4]) else 0
  }

  // ---------------------------------------------------------------- arrays, strings and maps

  /** The number of this kind at `at`. */
  function NumberAt(c: Ctx, k: NumKind, at: nat): Value {
    Value.Num(k, if at + k.Width() <= |c.bytes| then k.FromUnsigned(FromLE(c.bytes[at..at + k.Width()])) else 0)
  }

  lemma NumberDecodes(c: Ctx, f: nat, d: nat, off: nat, k: NumKind)
    requires off + k.Width() <= |c.bytes|
    ensures DecodeItem(c, f, d, off, Type.Num(k)) == Ok((NumberAt(c, k, off), f))
    ensures Type.Num(k).ElementSize() == k.Width()
  {
    hide NumKind.FromUnsigned, FromLE;
  }

  lemma Places(off: nat, w: nat, n: nat, i: nat)
    requires 0 < i <= n
    ensures off + w * i == off + w + w * (i - 1) && w * n == w + w * (n - 1) && w * (i - 1) <= w * (n - 1)
  {
    assert w * (n - 1) == w * (i - 1) + w * (n - i);
  }

  lemma {:induction false} NumbersDecode(c: Ctx, f: nat, d: nat, off: nat, k: NumKind, n: nat)
    requires off + k.Width() * n <= |c.bytes|
    ensures var r := DecodeItems(c, f, d, off, Type.Num(k), n);
      && r.Ok? && r.value.1 == f
      && (forall i :: 0 <= i < n ==> r.value.0[i] == NumberAt(c, k, off + k.Width() * i))
    decreases n
  {
    hide NumberAt, DecodeItem, Type.ElementSize, NumKind.Width;
    if n > 0 {
      var w := k.Width();
      Places(off, w, n, 1);
      NumberDecodes(c, f, d, off, k);
      NumbersDecode(c, f, d, off + w, k, n - 1);
      var all, rest := DecodeItems(c, f, d, off, Type.Num(k), n), DecodeItems(c, f, d, off + w, Type.Num(k), n - 1);
      assert all.value.0 == [NumberAt(c, k, off)] + rest.value.0;
      forall i | 0 <= i < n ensures all.value.0[i] == NumberAt(c, k, off + w * i) {
        if i > 0 {
          Places(off, w, n, i);
          assert all.value.0[i] == rest.value.0[i - 1];
        } else {
          assert w * 0 == 0;
        }
      }
    }
  }

  /** An array of numbers is accepted exactly when its declared size holds its elements, lies within
      the message and is not behind the frontier: padding of any length is taken. The elements are
      the numbers in order, and the frontier moves behind the declared size. */
  lemma NumberArray(c: Ctx, f: nat, d: nat, t: nat, k: NumKind)
    ensures var r := DecodeArrayBody(c, f, d, t, Type.Num(k));
      var numBytes, n := At32(c.bytes, t), At32(c.bytes, t + 4);
      && (r.Ok? <==>
            t + 8 <= |c.bytes| && 8 + k.Width() * n <= numBytes && t + numBytes <= |c.bytes| && f <= t)
      && (r.Ok? ==> |r.value.0| == n && r.value.1 == t + numBytes)
      && (r.Ok? ==> forall i :: 0 <= i < n ==> r.value.0[i] == NumberAt(c, k, t + 8 + k.Width() * i))
  {
    hide NumberAt, FromLE, NumKind.Width, DecodeItems;
    var numBytes, n := At32(c.bytes, t), At32(c.bytes, t + 4);
    assert Type.Num(k).ElementSize() == k.Width() by { NumberSize(k); }
    if t + 8 <= |c.bytes| && 8 + k.Width() * n <= numBytes && t + numBytes <= |c.bytes| && f <= t {
      NumbersDecode(c, t + numBytes, d, t + 8, k, n);
    }
  }

  lemma NumberSize(k: NumKind)
    ensures Type.Num(k).ElementSize() == k.Width()
  {
  }

  /** A string is accepted exactly when, in the same sense, its bytes and a NUL after them are in
      the message, the NUL possibly just behind the declared size; and they are UTF-8 without a
      NUL of their own. */
  lemma StringObject(c: Ctx, f: nat, t: nat)
    ensures var r := DecodeStringAt(c, f, t);
      var numBytes, n := At32(c.bytes, t), At32(c.bytes, t + 4);
      && (r.Ok? <==>
            && t + 8 <= |c.bytes| && 8 + n <= numBytes && t + numBytes <= |c.bytes| && f <= t
            && t + 8 + n < |c.bytes| && c.bytes[t + 8 + n] == 0
            && 0 !in c.bytes[t + 8..t + 8 + n] && ValidUtf8(c.bytes[t + 8..t + 8 + n]))
      && (r.Ok? ==> r.value == (Value.String(c.bytes[t + 8..t + 8 + n]), t + numBytes))
  {
    hide FromLE, ValidUtf8;
  }

  /** A map is accepted with any declared size from 24 on, when both its arrays are and they are
      equally long. */
  lemma MapObject(c: Ctx, f: nat, d: nat, t: nat, ty: Type)
    requires ty.Map?
    ensures DecodeMapAt(c, f, d, t, ty).Ok? <==>
      && d < c.maxDepth && t + 24 <= |c.bytes| && 24 <= At32(c.bytes, t) && t + At32(c.bytes, t) <= |c.bytes| && f <= t
      && ReadPointer(c, t + 8).Ok? && ReadPointer(c, t + 8).value.Offset?
      && ReadPointer(c, t + 16).Ok? && ReadPointer(c, t + 16).value.Offset?
      && var keys := DecodeArrayBody(c, t + At32(c.bytes, t), d + 1, ReadPointer(c, t + 8).value.target, ty.key);
      keys.Ok? &&
      var values := DecodeArrayBody(c, keys.value.1, d + 1, ReadPointer(c, t + 16).value.target, ty.value);
      values.Ok? && |keys.value.0| == |values.value.0|
  {
    hide FromLE, DecodeArrayBody, ReadPointer;
  }

  /** Of a union of its own the declared size must be 16; of an inlined one it is not looked at. */
  lemma UnionObject(c: Ctx, f: nat, d: nat, off: nat, ty: Type, claim: bool)
    requires ty.Union?
    ensures DecodeUnion(c, f, d, off, ty, claim).Ok? <==>
      && off + 8 <= |c.bytes| && At32(c.bytes, off + 4) < |ty.members|
      && (claim ==> At32(c.bytes, off) == 16 && off + 16 <= |c.bytes| && f <= off)
      && DecodeUnionPayload(c, if claim then off + 16 else f, d, off + 8, ty.members[At32(c.bytes, off + 4)]).Ok?
  {
    hide FromLE, DecodeUnionPayload;
  }

  // ---------------------------------------------------------------- message headers

  /** A header is accepted exactly when its size is its version's, or at least version 3's for later
      versions; all of it that is known is there; its flags make sense; and its payload pointer, if
      it has one, is not null. */
  lemma HeaderAccepted(bytes: seq<byte>)
    ensures var numBytes, version, flags := At32(bytes, 0), At32(bytes, 4), At32(bytes, 16);
      Parse(bytes).Ok? <==>
        && 24 <= |bytes| && HeaderSize(version) <= |bytes|
        && (if version <= 3 then numBytes == HeaderSize(version) else numBytes >= 56)
        && (flags % 2 == 1 || flags / 2 % 2 == 1 ==> version >= 1) && !(flags % 2 == 1 && flags / 2 % 2 == 1)
        && (version >= 2 ==> FromLE(bytes[32..40]) != 0)
  {
    hide FromLE, NumKind.FromUnsigned;
  }

  /** The payload is read right behind the part of the header that is known, wherever the header's
      own size ends and wherever its pointer leads: a later version's longer header is accepted, and
      what follows byte 56 of it is taken for the payload. */
  lemma PayloadPlace(bytes: seq<byte>, hc: nat, ty: Type, limits: Limits)
    requires ValidateMessage(bytes, hc, ty, limits).Ok?
    ensures var m := ValidateMessage(bytes, hc, ty, limits).value;
      && m.header.version == At32(bytes, 4) && m.payloadOffset == HeaderSize(At32(bytes, 4))
      && ty.Struct? && DecodeStruct(Ctx(bytes, hc, limits.maxDepth), 0, 0, m.payloadOffset, ty, true).Ok?
  {
    hide FromLE, NumKind.FromUnsigned, DecodeStruct;
  }
}
