/** Byte buffers as sequences: fixed-width integers, fields at an offset, and overwriting a range.
    A Node `Buffer` being filled is an `array<byte>`; its contents are a `Bytes` value. */
module Bytes {
  type byte = x: int | 0 <= x < 256
  type Bytes = seq<byte>

  const U32: int := 0x1_0000_0000
  const U64: int := 0x1_0000_0000_0000_0000

  type u32 = x: int | 0 <= x < 0x1_0000_0000
  type u64 = x: int | 0 <= x < 0x1_0000_0000_0000_0000

  // ---------------------------------------------------------------- integers

  function BE32(v: u32): (b: Bytes)
    ensures |b| == 4
  {
    [v / 0x100_0000, v / 0x1_0000 % 0x100, v / 0x100 % 0x100, v % 0x100]
  }

  function LE32(v: u32): (b: Bytes)
    ensures |b| == 4
  {
    [v % 0x100, v / 0x100 % 0x100, v / 0x1_0000 % 0x100, v / 0x100_0000]
  }

  function FromBE32(b: Bytes): u32
    requires |b| == 4
  {
    var b0: int, b1: int, b2: int, b3: int := b[0], b[1], b[2], b[3];
    b0 * 0x100_0000 + b1 * 0x1_0000 + b2 * 0x100 + b3
  }

  function FromLE32(b: Bytes): u32
    requires |b| == 4
  {
    var b0: int, b1: int, b2: int, b3: int := b[0], b[1], b[2], b[3];
    b0 + b1 * 0x100 + b2 * 0x1_0000 + b3 * 0x100_0000
  }

  function LE64(v: u64): (b: Bytes)
    ensures |b| == 8
  {
    LE32(v % 0x1_0000_0000) + LE32(v / 0x1_0000_0000)
  }

  function FromLE64(b: Bytes): u64
    requires |b| == 8
  {
    var lo: int, hi: int := FromLE32(b[..4]), FromLE32(b[4..]);
    lo + hi * 0x1_0000_0000
  }

  function FromBE64(b: Bytes): u64
    requires |b| == 8
  {
    var hi: int, lo: int := FromBE32(b[..4]), FromBE32(b[4..]);
    hi * 0x1_0000_0000 + lo
  }

  lemma Digits(v: u32)
    ensures v / 0x1_0000 == v / 0x100_0000 * 0x100 + v / 0x1_0000 % 0x100
    ensures v / 0x100 == v / 0x1_0000 * 0x100 + v / 0x100 % 0x100
    ensures v == v / 0x100 * 0x100 + v % 0x100
  {
  }

  lemma RoundTrip32(v: u32)
    ensures FromBE32(BE32(v)) == v
    ensures FromLE32(LE32(v)) == v
  {
    Digits(v);
  }

  lemma RoundTrip64(v: u64)
    ensures FromLE64(LE64(v)) == v
  {
    assert LE64(v)[..4] == LE32(v % 0x1_0000_0000);
    assert LE64(v)[4..] == LE32(v / 0x1_0000_0000);
    RoundTrip32(v % 0x1_0000_0000);
    RoundTrip32(v / 0x1_0000_0000);
  }

  /** Four bytes determine the number and the number the four bytes. */
  lemma Inverse32(b: Bytes)
    requires |b| == 4
    ensures BE32(FromBE32(b)) == b
  {
    var b0: int, b1: int, b2: int, b3: int := b[0], b[1], b[2], b[3];
    var g: int := FromBE32(b);
    assert g % 0x100 == b3 && g / 0x100 == b2 + b1 * 0x100 + b0 * 0x1_0000;
    assert g / 0x1_0000 == b1 + b0 * 0x100 && g / 0x100_0000 == b0;
  }

  // ---------------------------------------------------------------- fields

  /** The bytes `b` stand in `s` at offset `off`. */
  predicate At(s: Bytes, off: nat, b: Bytes) {
    off + |b| <= |s| && s[off..off + |b|] == b
  }

  /** The number stored big-endian at `off`, as `readUInt32BE` returns it. */
  function ReadBE32(s: Bytes, off: nat): u32
    requires off + 4 <= |s|
  {
    FromBE32(s[off..off + 4])
  }

  function ReadLE32(s: Bytes, off: nat): u32
    requires off + 4 <= |s|
  {
    FromLE32(s[off..off + 4])
  }

  function ReadLE64(s: Bytes, off: nat): u64
    requires off + 8 <= |s|
  {
    FromLE64(s[off..off + 8])
  }

  function ReadBE64(s: Bytes, off: nat): u64
    requires off + 8 <= |s|
  {
    FromBE64(s[off..off + 8])
  }

  lemma AtConcat(a: Bytes, b: Bytes, c: Bytes)
    ensures At(a + b + c, |a|, b)
  {
    assert (a + b + c)[|a|..|a| + |b|] == b;
  }

  lemma SliceOfSlice(s: Bytes, a: nat, b: nat, c: nat, d: nat)
    requires a <= b <= |s| && c <= d <= b - a
    ensures s[a..b][c..d] == s[a + c..a + d]
  {
    var l, r := s[a..b][c..d], s[a + c..a + d];
    assert |l| == |r|;
    forall i | 0 <= i < |l|
      ensures l[i] == r[i]
    {
      assert l[i] == s[a..b][c + i];
    }
  }

  lemma AtInside(s: Bytes, off: nat, b: Bytes, inner: nat, c: Bytes)
    requires At(s, off, b) && At(b, inner, c)
    ensures At(s, off + inner, c)
  {
    SliceOfSlice(s, off, off + |b|, inner, inner + |c|);
  }

  // ---------------------------------------------------------------- overwriting

  /** `s` with the bytes from `off` on replaced by `b`. */
  function Put(s: Bytes, off: nat, b: Bytes): (r: Bytes)
    requires off + |b| <= |s|
    ensures |r| == |s|
  {
    s[..off] + b + s[off + |b|..]
  }

  lemma PutAt(s: Bytes, off: nat, b: Bytes)
    requires off + |b| <= |s|
    ensures At(Put(s, off, b), off, b)
  {
    AtConcat(s[..off], b, s[off + |b|..]);
  }

  lemma PutIndex(s: Bytes, off: nat, b: Bytes, i: nat)
    requires off + |b| <= |s| && i < |s|
    ensures Put(s, off, b)[i] == if off <= i < off + |b| then b[i - off] else s[i]
  {
  }

  /** Writing what is already there changes nothing. */
  lemma PutSame(s: Bytes, off: nat, b: Bytes)
    requires At(s, off, b)
    ensures Put(s, off, b) == s
  {
    assert s == s[..off] + s[off..off + |b|] + s[off + |b|..];
  }

  /** A write leaves every range it does not touch alone. */
  lemma PutFrame(s: Bytes, off: nat, b: Bytes, lo: nat, hi: nat)
    requires off + |b| <= |s| && lo <= hi <= |s|
    requires hi <= off || off + |b| <= lo
    ensures Put(s, off, b)[lo..hi] == s[lo..hi]
  {
  }

  /** A write into a piece is the write into the whole, at the piece's place. */
  lemma PutInside(pre: Bytes, s: Bytes, post: Bytes, off: nat, b: Bytes)
    requires off + |b| <= |s|
    ensures Put(pre + s + post, |pre| + off, b) == pre + Put(s, off, b) + post
  {
  }

  /** `n * size`, the length of `n` records; written as a sum to keep proofs linear. */
  function Span(n: nat, size: nat): nat {
    if n == 0 then 0 else size + Span(n - 1, size)
  }

  lemma {:induction false} SpanIsProduct(n: nat, size: nat)
    ensures Span(n, size) == n * size
  {
    if n > 0 {
      SpanIsProduct(n - 1, size);
      assert n * size == size + (n - 1) * size;
    }
  }

  lemma {:induction false} SpanSum(m: nat, n: nat, size: nat)
    ensures Span(m + n, size) == Span(m, size) + Span(n, size)
  {
    if m > 0 {
      SpanSum(m - 1, n, size);
    }
  }

  lemma SpanNext(n: nat, size: nat)
    ensures Span(n + 1, size) == Span(n, size) + size
    ensures Span(0, size) == 0
  {
  }

  lemma {:induction false} SpanAtLeast(n: nat, size: nat)
    requires size > 0
    ensures Span(n, size) >= n
  {
    if n > 0 {
      SpanAtLeast(n - 1, size);
    }
  }

  function Zeros(n: nat): (z: Bytes)
    ensures |z| == n && forall i :: 0 <= i < n ==> z[i] == 0
  {
    seq(n, _ => 0)
  }

  // ---------------------------------------------------------------- buffers

  /** `Buffer.copy` of the whole of `b` into `buf` at `off`. */
  method WriteBytes(buf: array<byte>, off: nat, b: Bytes)
    requires off + |b| <= buf.Length
    modifies buf
    ensures buf[..] == Put(old(buf[..]), off, b)
  {
    var i := 0;
    while i < |b|
      invariant 0 <= i <= |b|
      invariant forall k :: 0 <= k < buf.Length ==>
        buf[k] == if off <= k < off + i then b[k - off] else old(buf[k])
    {
      buf[off + i] := b[i];
      i := i + 1;
    }
  }

  method WriteUInt32BE(buf: array<byte>, v: u32, off: nat)
    requires off + 4 <= buf.Length
    modifies buf
    ensures buf[..] == Put(old(buf[..]), off, BE32(v))
  {
    WriteBytes(buf, off, BE32(v));
  }

  method WriteUInt32LE(buf: array<byte>, v: u32, off: nat)
    requires off + 4 <= buf.Length
    modifies buf
    ensures buf[..] == Put(old(buf[..]), off, LE32(v))
  {
    WriteBytes(buf, off, LE32(v));
  }

  method WriteBigUInt64LE(buf: array<byte>, v: u64, off: nat)
    requires off + 8 <= buf.Length
    modifies buf
    ensures buf[..] == Put(old(buf[..]), off, LE64(v))
  {
    WriteBytes(buf, off, LE64(v));
  }

  // ---------------------------------------------------------------- word tables

  /** Big-endian words one after the other. */
  function Words(ws: seq<u32>): (b: Bytes)
    ensures |b| == 4 * |ws|
  {
    if ws == [] then [] else Words(ws[..|ws| - 1]) + BE32(ws[|ws| - 1])
  }

  lemma {:induction false} WordAt(ws: seq<u32>, i: nat)
    requires i < |ws|
    ensures At(Words(ws), 4 * i, BE32(ws[i]))
    ensures ReadBE32(Words(ws), 4 * i) == ws[i]
  {
    var init := ws[..|ws| - 1];
    if i < |ws| - 1 {
      WordAt(init, i);
      assert Words(ws)[4 * i..4 * i + 4] == Words(init)[4 * i..4 * i + 4];
    }
    RoundTrip32(ws[i]);
  }
}
