/** What has been written can be read back: integers, bits and pointers in a finished
    message that agrees with the encoder's buffer. */
module Wire {
  import opened Results
  import opened Bytes
  import opened Pointers
  import opened Encode
  import opened Decode
  import opened EncodeFrame

  /** The bytes of `n`, in width `k`, stand at `off`. */
  ghost predicate Holds(buf: seq<byte>, off: nat, n: nat, k: nat) {
    off + k <= |buf| && buf[off..off + k] == LE(n, k)
  }

  /** The finished message has what the encoder's buffer has from `lo` on. */
  ghost predicate Final(c: Ctx, buf: seq<byte>, lo: nat) {
    |c.bytes| < TWO_32 && lo <= |buf| && Agree(c.bytes, buf, lo, |buf|)
  }

  lemma PutHolds(s: Enc, off: nat, n: nat, k: nat)
    ensures Holds(Put(s, off, n, k).buf, off, n, k)
    ensures Holds(PutHandle(s, off, n).buf, off, n, 4)
  {
  }

  lemma HoldsThrough(a: seq<byte>, b: seq<byte>, off: nat, n: nat, k: nat, lo: nat, hi: nat)
    requires Holds(a, off, n, k) && Frame(a, b, lo, hi) && (off + k <= lo || hi <= off)
    ensures Holds(b, off, n, k)
  {
    assert b[off..off + k] == a[off..off + k];
  }

  lemma HoldsPrefix(a: seq<byte>, b: seq<byte>, off: nat, n: nat, k: nat)
    requires Holds(a, off, n, k) && a <= b
    ensures Holds(b, off, n, k)
  {
    assert b[off..off + k] == a[off..off + k];
  }

  lemma HoldsAgree(a: seq<byte>, b: seq<byte>, off: nat, n: nat, k: nat, lo: nat, hi: nat)
    requires Holds(a, off, n, k) && Agree(b, a, lo, hi) && lo <= off && off + k <= hi
    ensures Holds(b, off, n, k)
  {
    AgreeSlice(b, a, lo, hi, off, off + k);
  }

  lemma HoldsRead(c: Ctx, off: nat, n: nat, k: nat)
    requires Holds(c.bytes, off, n, k)
    ensures ReadLE(c, off, k) == Ok(n % Pow256(k))
    ensures n < Pow256(k) ==> ReadLE(c, off, k) == Ok(n)
  {
    FromLERound(n, k);
  }

  lemma HoldsRead32(c: Ctx, off: nat, n: nat)
    requires Holds(c.bytes, off, n, 4) && n < TWO_32
    ensures ReadLE(c, off, 4) == Ok(n)
  {
    Pow256Values();
    HoldsRead(c, off, n, 4);
  }

  lemma HoldsPointer(c: Ctx, off: nat, target: nat)
    requires Holds(c.bytes, off, EncodePointer(off, target), 8)
    requires off < TWO_32 && target < TWO_32 && off != target
    ensures ReadPointer(c, off) == Ok(Offset(target))
  {
    Pow256Values();
    HoldsRead(c, off, EncodePointer(off, target), 8);
    PointerRound(off, target);
  }

  lemma HoldsNull(c: Ctx, off: nat)
    requires Holds(c.bytes, off, 0, 8)
    ensures ReadPointer(c, off) == Ok(NullPointer)
  {
    HoldsRead(c, off, 0, 8);
  }

  lemma AgreePart(a: seq<byte>, b: seq<byte>, lo: nat, hi: nat, lo': nat, hi': nat)
    requires Agree(a, b, lo, hi) && lo <= lo' && hi' <= hi
    ensures Agree(a, b, lo', hi')
  {
  }

  /** Agreement with the later buffer is agreement with the earlier one, away from the frame. */
  lemma AgreeBefore(bytes: seq<byte>, a: seq<byte>, b: seq<byte>, lo: nat, hi: nat, from: nat, to: nat)
    requires Agree(bytes, b, lo, hi) && Frame(a, b, from, to) && hi <= |a| && (hi <= from || to <= lo)
    ensures Agree(bytes, a, lo, hi)
  {
  }

  lemma FinalBefore(c: Ctx, a: seq<byte>, b: seq<byte>, lo: nat, lo': nat, from: nat, to: nat)
    requires Final(c, b, lo) && Frame(a, b, from, to) && lo <= lo' <= |a| && to <= lo'
    ensures Final(c, a, lo')
  {
  }

  lemma FinalLater(c: Ctx, a: seq<byte>, lo: nat, lo': nat)
    requires Final(c, a, lo) && lo <= lo' <= |a|
    ensures Final(c, a, lo')
  {
  }

  lemma FinalAgree(c: Ctx, a: seq<byte>, lo: nat)
    requires Final(c, a, lo)
    ensures Agree(c.bytes, a, lo, |a|) && lo <= |a| <= |c.bytes| < TWO_32
  {
  }

  /** An object written at the next boundary, with a pointer to it in an earlier slot. */
  lemma PointerStep(s: Enc, s2: Enc, off: nat, c: Ctx)
    requires Start(s).buf <= s2.buf && off + 8 <= |s.buf|
    requires var r := PutPointer(s2, off, |Start(s).buf|);
      Agree(c.bytes, r.buf, off, off + 8) && Final(c, r.buf, |s.buf|)
    ensures |PutPointer(s2, off, |Start(s).buf|).buf| == |s2.buf|
    ensures ReadPointer(c, off) == Ok(Offset(|Start(s).buf|))
    ensures Final(c, s2.buf, |Start(s).buf|)
  {
    var t := |Start(s).buf|;
    var r := PutPointer(s2, off, t);
    PutHolds(s2, off, EncodePointer(off, t), 8);
    HoldsAgree(r.buf, c.bytes, off, EncodePointer(off, t), 8, off, off + 8);
    HoldsPointer(c, off, t);
    WriteFrames(s2.buf, off, LE(EncodePointer(off, t), 8));
    FinalBefore(c, s2.buf, r.buf, |s.buf|, t, off, off + 8);
  }

  lemma NullStep(s: Enc, off: nat, c: Ctx)
    requires Agree(c.bytes, Put(s, off, 0, 8).buf, off, off + 8)
    ensures ReadPointer(c, off) == Ok(NullPointer)
  {
    PutHolds(s, off, 0, 8);
    HoldsAgree(Put(s, off, 0, 8).buf, c.bytes, off, 0, 8, off, off + 8);
    HoldsNull(c, off);
  }

  /** Two integers written over freshly grown space can both be read there. */
  lemma HeaderHolds(s: Enc, off: nat, size: nat, x: nat, y: nat)
    requires size >= 8
    ensures var r := Put(Put(s.(buf := Grow(s.buf, off + size)), off, x, 4), off + 4, y, 4);
      && Holds(r.buf, off, x, 4) && Holds(r.buf, off + 4, y, 4)
      && |r.buf| == Max(|s.buf|, off + size)
  {
    var g := s.(buf := Grow(s.buf, off + size));
    var r1 := Put(g, off, x, 4);
    PutHolds(g, off, x, 4);
    PutHolds(r1, off + 4, y, 4);
    WriteFrames(r1.buf, off + 4, LE(y, 4));
    HoldsThrough(r1.buf, Put(r1, off + 4, y, 4).buf, off, x, 4, off + 4, off + 8);
  }

  /** The two header integers of an object that begins at `off`, read from the message. */
  lemma HeaderRead(c: Ctx, a: seq<byte>, b: seq<byte>, off: nat, x: nat, y: nat, from: nat, to: nat)
    requires Holds(a, off, x, 4) && Holds(a, off + 4, y, 4) && x < TWO_32 && y < TWO_32
    requires Frame(a, b, from, to) && off + 8 <= from
    requires Agree(c.bytes, b, off, off + 8)
    ensures ReadLE(c, off, 4) == Ok(x) && ReadLE(c, off + 4, 4) == Ok(y)
  {
    HoldsThrough(a, b, off, x, 4, from, to);
    HoldsThrough(a, b, off + 4, y, 4, from, to);
    HoldsAgree(b, c.bytes, off, x, 4, off, off + 8);
    HoldsAgree(b, c.bytes, off + 4, y, 4, off, off + 8);
    HoldsRead32(c, off, x);
    HoldsRead32(c, off + 4, y);
  }
}
