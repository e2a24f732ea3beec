/** The bytes the encoder writes, outright: what a peer that shares none of this code must read. */
module WireFormat {
  import opened Results
  import opened Bytes
  import opened Schema
  import opened Pointers
  import opened Encode

  function Zeros(n: nat): (z: seq<byte>)
    ensures |z| == n
  {
    seq(n, _ => 0)
  }

  /** The least significant byte comes first. */
  lemma {:induction false} LittleEndian(n: nat, k: nat, i: nat)
    requires i < k
    ensures LE(n, k)[i] == n / Pow256(i) % 256
  {
    LowByte(n, k, i);
    if i > 0 {
      LittleEndian(n / 256, k - 1, i - 1);
      hide LE, Pow256;
      DivideTwice(n, Pow256(i - 1));
    }
  }

  lemma LowByte(n: nat, k: nat, i: nat)
    requires i < k
    ensures LE(n, k)[i] == if i == 0 then n % 256 else LE(n / 256, k - 1)[i - 1]
    ensures Pow256(i) == if i == 0 then 1 else 256 * Pow256(i - 1)
    ensures n / 1 == n
  {
  }

  lemma DivideTwice(n: nat, m: nat)
    requires m > 0
    ensures n / 256 / m == n / (256 * m)
  {
    var q, r := n / 256 / m, n / 256 % m;
    assert n == 256 * (m * q + r) + n % 256;
    var low := 256 * r + n % 256;
    assert n == q * (256 * m) + low && 0 <= low < 256 * m;
    QuotientIs(n, 256 * m, q, low);
  }

  lemma SameProduct(p: nat, q: nat, m: nat)
    requires m > 0
    ensures p * m == q * m ==> p == q
  {
    if p < q { MulGap(p, q, m); }
    if q < p { MulGap(q, p, m); }
  }

  lemma QuotientIs(n: nat, m: nat, q: nat, r: nat)
    requires m > 0 && n == q * m + r && r < m
    ensures n / m == q
  {
    ModUnique(n, m, q, r);
    SameProduct(n / m, q, m);
  }

  lemma AppendGrown(buf: seq<byte>, n: nat)
    ensures Grow(buf, |buf| + n) == buf + Zeros(n)
  {
  }

  /** Writing into zeros that have just been reserved. */
  lemma WriteInto(a: seq<byte>, zeros: nat, data: seq<byte>)
    requires |data| <= zeros
    ensures WriteAt(a + Zeros(zeros), |a|, data) == a + data + Zeros(zeros - |data|)
  {
  }

  lemma TwoWords(buf: seq<byte>, n: nat, x: nat, y: nat)
    requires n >= 8
    ensures Put(Put(Enc(Grow(buf, |buf| + n), 0), |buf|, x, 4), |buf| + 4, y, 4).buf ==
      buf + LE(x, 4) + LE(y, 4) + Zeros(n - 8)
  {
    hide LE, Grow, WriteAt, Zeros;
    AppendGrown(buf, n);
    WriteInto(buf, n, LE(x, 4));
    WriteInto(buf + LE(x, 4), n - 4, LE(y, 4));
  }

  /** A struct at the end of the buffer: its size, its version, and room for its fields. */
  lemma StructBytes(s: Enc, size: nat, version: nat)
    requires size >= 8
    ensures StructHeader(s, |s.buf|, size, version).buf == s.buf + LE(size, 4) + LE(version, 4) + Zeros(size - 8)
  {
    TwoWords(s.buf, size, size, version);
  }

  /** A union: 16, its tag, and its payload slot. */
  lemma UnionBytes(s: Enc, tag: nat)
    ensures UnionHeader(s, |s.buf|, tag).buf == s.buf + LE(16, 4) + LE(tag, 4) + Zeros(8)
  {
    TwoWords(s.buf, 16, 16, tag);
  }

  /** A map: 24, version 0, and two pointers. */
  lemma MapBytes(s: Enc)
    ensures MapHeader(s, |s.buf|).buf == s.buf + LE(24, 4) + LE(0, 4) + Zeros(16)
  {
    TwoWords(s.buf, 24, 24, 0);
  }

  /** An array: its size in whole words, its count, and room for its elements. */
  lemma ArrayBytes(s: Enc, elementSize: nat, n: nat)
    ensures var size := (8 + elementSize * n + 7) / 8 * 8;
      size >= 8 && ArrayHeader(s, |s.buf|, elementSize, n).buf == s.buf + LE(size, 4) + LE(n, 4) + Zeros(size - 8)
  {
    hide LE, Grow, WriteAt, Zeros;
    var size := AlignUp(8 + elementSize * n);
    TwoWords(s.buf, size, size, n);
    HeaderIsTwo(s, |s.buf|, size, n);
  }

  /** How many handles there are does not matter to the bytes. */
  lemma HeaderIsTwo(s: Enc, t: nat, total: nat, n: nat)
    ensures Put(Put(s.(buf := Grow(s.buf, t + total)), t, total, 4), t + 4, n, 4).buf ==
      Put(Put(Enc(Grow(s.buf, t + total), 0), t, total, 4), t + 4, n, 4).buf
  {
  }

  /** A string: its size in whole words with its NUL, its length, its bytes, the NUL, padding. */
  lemma StringBytes(s: Enc, data: seq<byte>)
    ensures var n := |data|; var size := (8 + n + 1 + 7) / 8 * 8;
      size >= 9 + n && EncodeStringAt(s, |s.buf|, data).buf ==
        s.buf + LE(size, 4) + LE(n, 4) + data + [0] + Zeros(size - 9 - n)
  {
    hide LE, WriteAt, Grow, Zeros;
    var n, size := |data|, AlignUp(8 + |data| + 1);
    TwoWords(s.buf, size, size, n);
    var front := s.buf + LE(size, 4) + LE(n, 4);
    WriteInto(front, size - 8, data + [0]);
    assert front + (data + [0]) == front + data + [0];
  }

  /** A pointer is the distance from its own slot. */
  lemma PointerIs(addr: nat, target: nat)
    requires addr <= target < TWO_64
    ensures EncodePointer(addr, target) == target - addr
  {
  }

  /** Elements of a number array follow one another from behind the header. */
  lemma {:induction false} NumberItems(s: Enc, d: nat, off: nat, k: NumKind, items: seq<int>, front: seq<byte>,
      room: nat)
    requires s.buf == front + Zeros(room) && off == |front| && k.Width() * |items| <= room
    ensures var vals := seq(|items|, i requires 0 <= i < |items| => Value.Num(k, items[i]));
      var bytes := NumberBytes(k, items);
      |bytes| == k.Width() * |items| && EncodeItems(s, d, off, Type.Num(k), vals) ==
        Ok(s.(buf := front + bytes + Zeros(room - |bytes|)))
    decreases |items|
  {
    hide LE, WriteAt, NumKind.ToUnsigned, Zeros, NumKind.Width, EncodeItem, Type.ElementSize;
    var w := k.Width();
    if |items| > 0 {
      var rest := items[1..];
      WidthSplit(w, |rest|);
      var vals := seq(|items|, i requires 0 <= i < |items| => Value.Num(k, items[i]));
      var first := LE(k.ToUnsigned(items[0]), w);
      WriteInto(front, room, first);
      var s1 := s.(buf := front + first + Zeros(room - w));
      NumberItem(s, d, off, k, items[0]);
      NumberItems(s1, d, off + w, k, rest, front + first, room - w);
      assert vals[1..] == seq(|rest|, i requires 0 <= i < |rest| => Value.Num(k, rest[i]));
      assert front + first + NumberBytes(k, rest) == front + (first + NumberBytes(k, rest));
    } else {
      assert front + [] == front;
    }
  }

  /** An array of numbers, whole: its header, its numbers one after another, padding. */
  lemma NumberArrayBytes(s: Enc, d: nat, k: NumKind, items: seq<int>)
    ensures var vals := seq(|items|, i requires 0 <= i < |items| => Value.Num(k, items[i]));
      var n, bytes, size := |items|, NumberBytes(k, items), (8 + k.Width() * |items| + 7) / 8 * 8;
      |bytes| == k.Width() * n && size >= 8 + |bytes| &&
      EncodeArrayBody(s, d, |s.buf|, Type.Num(k), vals) ==
        Ok(s.(buf := s.buf + LE(size, 4) + LE(n, 4) + bytes + Zeros(size - 8 - |bytes|)))
  {
    hide LE, NumKind.Width, Zeros, EncodeItems, ArrayHeader, Type.ElementSize, NumberBytes;
    NumberItem(s, d, 0, k, 0);
    var n, w := |items|, k.Width();
    var size := (8 + w * n + 7) / 8 * 8;
    ArrayBytes(s, w, n);
    ArrayHeaderHandles(s, w, n);
    NumberItems(ArrayHeader(s, |s.buf|, w, n), d, |s.buf| + 8, k, items, s.buf + LE(size, 4) + LE(n, 4), size - 8);
  }

  lemma ArrayHeaderHandles(s: Enc, elementSize: nat, n: nat)
    ensures ArrayHeader(s, |s.buf|, elementSize, n).handles == s.handles
  {
  }

  lemma WidthSplit(w: nat, n: nat)
    ensures w * (n + 1) == w + w * n && w <= w * (n + 1)
  {
  }

  lemma NumberItem(s: Enc, d: nat, off: nat, k: NumKind, n: int)
    ensures EncodeItem(s, d, off, Type.Num(k), Value.Num(k, n)) ==
      Ok(s.(buf := WriteAt(s.buf, off, LE(k.ToUnsigned(n), k.Width()))))
    ensures Type.Num(k).ElementSize() == k.Width()
  {
    hide LE, WriteAt, NumKind.ToUnsigned;
  }

  function NumberBytes(k: NumKind, items: seq<int>): seq<byte> {
    if |items| == 0 then [] else LE(k.ToUnsigned(items[0]), k.Width()) + NumberBytes(k, items[1..])
  }
}
