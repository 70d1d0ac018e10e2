/** Apple code-signing blobs (src/server/signing/codesign-structures.ts).
    Every builder fills a zeroed buffer in place and is proved to leave exactly the layout given by a
    function ending in `Bytes`; the readers below know only offsets and length words. */
module CodeSign {
  import opened Wrappers
  import opened Bytes

  const CSMAGIC_REQUIREMENTS: u32 := 0xfade0c01
  const CSMAGIC_CODEDIRECTORY: u32 := 0xfade0c02
  const CSMAGIC_EMBEDDED_SIGNATURE: u32 := 0xfade0cc0
  const CSMAGIC_BLOBWRAPPER: u32 := 0xfade0b01
  const CSMAGIC_ENTITLEMENTS: u32 := 0xfade7171

  const CSSLOT_CODEDIRECTORY := 0
  const CSSLOT_INFOSLOT := 1
  const CSSLOT_REQUIREMENTS := 2
  const CSSLOT_RESOURCEDIR := 3
  const CSSLOT_ENTITLEMENTS := 5
  const CSSLOT_ALTERNATE_CODEDIRECTORIES := 0x1000
  const CSSLOT_SIGNATURESLOT := 0x10000

  const CS_HASHTYPE_SHA1: byte := 1
  const CS_HASHTYPE_SHA256: byte := 2
  const CS_SUPPORTSEXECSEG: u32 := 0x20400
  const CS_PAGE_SIZE: nat := 16384
  const CS_PAGE_SHIFT: byte := 14
  const CD_HEADER_SIZE: nat := 88

  /** One entry of a `Map<number, Buffer>`; a map is the sequence of its entries in insertion order. */
  datatype Slot = Slot(kind: nat, blob: Bytes)

  ghost predicate DistinctKinds(slots: seq<Slot>) {
    forall i, j :: 0 <= i < j < |slots| ==> slots[i].kind != slots[j].kind
  }

  function Lookup(slots: seq<Slot>, kind: nat): Option<Bytes> {
    if slots == [] then None
    else if slots[0].kind == kind then Some(slots[0].blob)
    else
      Lookup(slots[1..], kind)
  }

  lemma {:induction false} LookupIs(slots: seq<Slot>, i: nat)
    requires i < |slots| && DistinctKinds(slots)
    ensures Lookup(slots, slots[i].kind) == Some(slots[i].blob)
  {
    if i > 0 {
      LookupIs(slots[1..], i - 1);
    }
  }

  lemma {:induction false} LookupMissing(slots: seq<Slot>, kind: nat)
    requires forall i :: 0 <= i < |slots| ==> slots[i].kind != kind
    ensures Lookup(slots, kind) == None
  {
    if slots != [] {
      LookupMissing(slots[1..], kind);
    }
  }

  lemma {:induction false} LookupAppend(slots: seq<Slot>, s: Slot, kind: nat)
    ensures Lookup(slots + [s], kind) ==
            if Lookup(slots, kind).Some? then Lookup(slots, kind)
            else if s.kind == kind then Some(s.blob) else None
  {
    if slots == [] {
      assert slots + [s] == [s];
    } else {
      LookupAppend(slots[1..], s, kind);
      assert (slots + [s])[1..] == slots[1..] + [s];
    }
  }

  // ---------------------------------------------------------------- page hashes

  function Min(a: int, b: int): int { if a <= b then a else b }

  /** Digests of the successive pages of `data`; the last page may be short. */
  function PageHashes(hash: Bytes -> Bytes, data: Bytes, pageSize: nat): (hs: seq<Bytes>)
    requires pageSize > 0
  {
    if data == [] then []
    else
      var n := Min(pageSize, |data|);
      [hash(data[..n])] + PageHashes(hash, data[n..], pageSize)
  }

  method ComputeCodeHashes(data: Bytes, pageSize: nat, hash: Bytes -> Bytes) returns (hashes: seq<Bytes>)
    requires pageSize > 0
    ensures hashes == PageHashes(hash, data, pageSize)
  {
    hashes := [];
    var offset := 0;
    while offset < |data|
      invariant 0 <= offset
      invariant hashes + PageHashes(hash, data[Min(offset, |data|)..], pageSize) == PageHashes(hash, data, pageSize)
    {
      var end := Min(offset + pageSize, |data|);
      assert data[offset..][..end - offset] == data[offset..end];
      assert data[offset..][end - offset..] == data[end..];
      hashes := hashes + [hash(data[offset..end])];
      offset := offset + pageSize;
    }
  }

  /** The number of pages covering `n` bytes. */
  function PageCount(n: nat, pageSize: nat): (c: nat)
    requires pageSize > 0
    ensures n <= Span(c, pageSize)
    ensures c > 0 ==> Span(c - 1, pageSize) < n
  {
    if n == 0 then 0
    else if n <= pageSize then assert Span(1, pageSize) == pageSize; 1
    else
      1 + PageCount(n - pageSize, pageSize)
  }

  /** There are as many hashes as pages, so their number depends on the length of the data alone. */
  lemma {:induction false} PageHashesCount(hash: Bytes -> Bytes, data: Bytes, pageSize: nat)
    requires pageSize > 0
    ensures |PageHashes(hash, data, pageSize)| == PageCount(|data|, pageSize)
    decreases |data|
  {
    if data != [] {
      PageHashesCount(hash, data[Min(pageSize, |data|)..], pageSize);
    }
  }

  // ---------------------------------------------------------------- CodeDirectory

  datatype CodeDirectoryParams = CodeDirectoryParams(
    identifier: Bytes, teamId: Bytes, hashType: byte, codeLimit: nat, pageSize: nat,
    codeHashes: seq<Bytes>, specialHashes: seq<Slot>, flags: u32,
    execSegBase: u64, execSegLimit: u64, execSegFlags: u64)

  function HashSize(hashType: byte): byte {
    if hashType == CS_HASHTYPE_SHA1 then 20 else 32
  }

  /** `Math.max` over the slot numbers, 0 for no slot. */
  function MaxSlot(slots: seq<Slot>): (m: nat)
    ensures forall i :: 0 <= i < |slots| ==> slots[i].kind <= m
    ensures slots == [] ==> m == 0
    ensures slots != [] ==> exists i :: 0 <= i < |slots| && slots[i].kind == m
  {
    if slots == [] then 0
    else
      var m := MaxSlot(slots[..|slots| - 1]);
      if slots[|slots| - 1].kind > m then slots[|slots| - 1].kind
      else if |slots| == 1 then slots[0].kind else m
  }

  /** `Math.log2` of the page size, truncated as `writeUInt8` does. */
  function FloorLog2(n: nat): nat
    requires n > 0
  {
    if n == 1 then 0 else 1 + FloorLog2(n / 2)
  }

  /** What `hash.copy(buf, at, 0, size)` leaves in a zeroed field of `size` bytes. */
  function Fit(hash: Bytes, size: nat): (b: Bytes)
    ensures |b| == size
    ensures |hash| == size ==> b == hash
  {
    if |hash| >= size then hash[..size] else hash + Zeros(size - |hash|)
  }

  function SlotHash(slots: seq<Slot>, k: nat, size: nat): (b: Bytes)
    ensures |b| == size
  {
    match Lookup(slots, k)
    case None => Zeros(size)
    case Some(h) => Fit(h, size)
  }

  /** Special slots n, n-1, .., 1. */
  function SpecialArea(slots: seq<Slot>, n: nat, size: nat): (b: Bytes)
    ensures |b| == Span(n, size)
  {
    if n == 0 then [] else SlotHash(slots, n, size) + SpecialArea(slots, n - 1, size)
  }

  function CodeArea(hashes: seq<Bytes>, size: nat): (b: Bytes)
    ensures |b| == Span(|hashes|, size)
  {
    if hashes == [] then [] else CodeArea(hashes[..|hashes| - 1], size) + Fit(hashes[|hashes| - 1], size)
  }

  function HashOffset(p: CodeDirectoryParams): nat {
    CD_HEADER_SIZE + |p.identifier| + 1 + Span(MaxSlot(p.specialHashes), HashSize(p.hashType))
  }

  function TeamIdOffset(p: CodeDirectoryParams): nat {
    HashOffset(p) + Span(|p.codeHashes|, HashSize(p.hashType))
  }

  function CodeDirectorySize(p: CodeDirectoryParams): nat {
    TeamIdOffset(p) + |p.teamId| + 1
  }

  /** What the unsigned writes of the header accept; beyond it they throw. */
  predicate Encodable(p: CodeDirectoryParams) {
    && CodeDirectorySize(p) < U32
    && p.codeLimit < U32
    && 0 < p.pageSize && FloorLog2(p.pageSize) < 256
  }

  lemma SizesFit(p: CodeDirectoryParams)
    requires Encodable(p)
    ensures MaxSlot(p.specialHashes) < U32 && |p.codeHashes| < U32
    ensures HashOffset(p) <= TeamIdOffset(p) < U32
  {
    SpanAtLeast(MaxSlot(p.specialHashes), HashSize(p.hashType));
    SpanAtLeast(|p.codeHashes|, HashSize(p.hashType));
  }

  function HeaderWords(p: CodeDirectoryParams): (ws: seq<u32>)
    requires Encodable(p)
    ensures |ws| == 22
  {
    SizesFit(p);
    [ CSMAGIC_CODEDIRECTORY, CodeDirectorySize(p), CS_SUPPORTSEXECSEG, p.flags,
      HashOffset(p), CD_HEADER_SIZE, MaxSlot(p.specialHashes), |p.codeHashes|, p.codeLimit,
      TypeWord(p), 0, 0, TeamIdOffset(p), 0,
      p.codeLimit / 0x1_0000_0000, p.codeLimit % 0x1_0000_0000,
      p.execSegBase / 0x1_0000_0000, p.execSegBase % 0x1_0000_0000,
      p.execSegLimit / 0x1_0000_0000, p.execSegLimit % 0x1_0000_0000,
      p.execSegFlags / 0x1_0000_0000, p.execSegFlags % 0x1_0000_0000 ]
  }

  /** The four one-byte fields hashSize, hashType, platform and pageShift. */
  function TypeWord(p: CodeDirectoryParams): (w: u32)
    requires Encodable(p)
    ensures BE32(w) == [HashSize(p.hashType), p.hashType, 0, FloorLog2(p.pageSize)]
  {
    var fields: Bytes := [HashSize(p.hashType), p.hashType, 0, FloorLog2(p.pageSize)];
    Inverse32(fields);
    FromBE32(fields)
  }

  function CodeDirectoryBytes(p: CodeDirectoryParams): (b: Bytes)
    requires Encodable(p)
    ensures |b| == CodeDirectorySize(p)
  {
    var hs := HashSize(p.hashType);
    Words(HeaderWords(p)) + p.identifier + [0] + SpecialArea(p.specialHashes, MaxSlot(p.specialHashes), hs)
    + CodeArea(p.codeHashes, hs) + p.teamId + [0]
  }

  // ---- building in place

  lemma PutNext(done: Bytes, n: nat, b: Bytes)
    requires |b| <= n
    ensures Put(done + Zeros(n), |done|, b) == done + b + Zeros(n - |b|)
  {
  }

  /** A write right behind what is already filled in. */
  method WriteNext(buf: array<byte>, b: Bytes, off: nat, ghost done: Bytes, ghost rest: nat)
    requires off == |done| && |b| <= rest
    requires buf[..] == done + Zeros(rest)
    modifies buf
    ensures buf[..] == done + b + Zeros(rest - |b|)
  {
    PutNext(done, rest, b);
    WriteBytes(buf, off, b);
  }

  method WriteWord(buf: array<byte>, v: u32, i: nat, ghost ws: seq<u32>, ghost rest: nat)
    requires i < |ws| && v == ws[i] && rest >= 4
    requires buf[..] == Words(ws[..i]) + Zeros(rest)
    modifies buf
    ensures buf[..] == Words(ws[..i + 1]) + Zeros(rest - 4)
  {
    assert ws[..i + 1][..i] == ws[..i];
    PutNext(Words(ws[..i]), rest, BE32(v));
    WriteUInt32BE(buf, v, 4 * i);
  }

  /** `writeBigUInt64BE`: the high word, then the low word. */
  method WriteDoubleWord(buf: array<byte>, v: u64, i: nat, ghost ws: seq<u32>, ghost rest: nat)
    requires i + 1 < |ws| && rest >= 8
    requires v / 0x1_0000_0000 == ws[i] && v % 0x1_0000_0000 == ws[i + 1]
    requires buf[..] == Words(ws[..i]) + Zeros(rest)
    modifies buf
    ensures buf[..] == Words(ws[..i + 2]) + Zeros(rest - 8)
  {
    WriteWord(buf, v / 0x1_0000_0000, i, ws, rest);
    WriteWord(buf, v % 0x1_0000_0000, i + 1, ws, rest - 4);
  }

  method WriteVersion(buf: array<byte>, p: CodeDirectoryParams, ghost ws: seq<u32>)
    requires Encodable(p) && CD_HEADER_SIZE <= buf.Length
    requires ws == HeaderWords(p)
    requires buf[..] == Zeros(buf.Length)
    modifies buf
    ensures buf[..] == Words(ws[..4]) + Zeros(buf.Length - 16)
  {
    ghost var n := buf.Length;
    assert Words(ws[..0]) + Zeros(n) == Zeros(n);
    WriteWord(buf, CSMAGIC_CODEDIRECTORY, 0, ws, n);
    WriteWord(buf, CodeDirectorySize(p), 1, ws, n - 4);
    WriteWord(buf, CS_SUPPORTSEXECSEG, 2, ws, n - 8);
    WriteWord(buf, p.flags, 3, ws, n - 12);
  }

  method WriteCounts(buf: array<byte>, p: CodeDirectoryParams, ghost ws: seq<u32>)
    requires Encodable(p) && CD_HEADER_SIZE <= buf.Length
    requires ws == HeaderWords(p)
    requires buf[..] == Words(ws[..4]) + Zeros(buf.Length - 16)
    modifies buf
    ensures buf[..] == Words(ws[..9]) + Zeros(buf.Length - 36)
  {
    SizesFit(p);
    ghost var n := buf.Length - 16;
    WriteWord(buf, HashOffset(p), 4, ws, n);
    WriteWord(buf, CD_HEADER_SIZE, 5, ws, n - 4);
    WriteWord(buf, MaxSlot(p.specialHashes), 6, ws, n - 8);
    WriteWord(buf, |p.codeHashes|, 7, ws, n - 12);
    WriteWord(buf, p.codeLimit, 8, ws, n - 16);
  }

  /** hashSize, hashType, platform and pageShift: four one-byte writes. */
  method WriteTypeBytes(buf: array<byte>, p: CodeDirectoryParams, ghost ws: seq<u32>)
    requires Encodable(p) && CD_HEADER_SIZE <= buf.Length
    requires ws == HeaderWords(p)
    requires buf[..] == Words(ws[..9]) + Zeros(buf.Length - 36)
    modifies buf
    ensures buf[..] == Words(ws[..10]) + Zeros(buf.Length - 40)
  {
    ghost var before := buf[..];
    buf[36] := HashSize(p.hashType);
    buf[37] := p.hashType;
    buf[38] := 0;
    buf[39] := FloorLog2(p.pageSize);
    assert buf[..] == Put(before, 36, BE32(TypeWord(p)));
    PutNext(Words(ws[..9]), buf.Length - 36, BE32(TypeWord(p)));
    assert ws[..10][..9] == ws[..9];
  }

  method WriteOffsets(buf: array<byte>, p: CodeDirectoryParams, ghost ws: seq<u32>)
    requires Encodable(p) && CD_HEADER_SIZE <= buf.Length
    requires ws == HeaderWords(p)
    requires buf[..] == Words(ws[..10]) + Zeros(buf.Length - 40)
    modifies buf
    ensures buf[..] == Words(ws[..14]) + Zeros(buf.Length - 56)
  {
    SizesFit(p);
    ghost var n := buf.Length - 40;
    WriteWord(buf, 0, 10, ws, n);
    WriteWord(buf, 0, 11, ws, n - 4);
    WriteWord(buf, TeamIdOffset(p), 12, ws, n - 8);
    WriteWord(buf, 0, 13, ws, n - 12);
  }

  method WriteLimits(buf: array<byte>, p: CodeDirectoryParams, ghost ws: seq<u32>)
    requires Encodable(p) && CD_HEADER_SIZE <= buf.Length
    requires ws == HeaderWords(p)
    requires buf[..] == Words(ws[..14]) + Zeros(buf.Length - 56)
    modifies buf
    ensures buf[..] == Words(ws) + Zeros(buf.Length - CD_HEADER_SIZE)
  {
    ghost var n := buf.Length - 56;
    WriteDoubleWord(buf, p.codeLimit, 14, ws, n);
    WriteDoubleWord(buf, p.execSegBase, 16, ws, n - 8);
    WriteDoubleWord(buf, p.execSegLimit, 18, ws, n - 16);
    WriteDoubleWord(buf, p.execSegFlags, 20, ws, n - 24);
    assert ws[..22] == ws;
  }

  lemma PutFit(h: Bytes, size: nat, rest: Bytes)
    ensures Put(Zeros(size) + rest, 0, h[..Min(|h|, size)]) == Fit(h, size) + rest
  {
  }

  lemma PutTail(head: Bytes, tail: Bytes, off: nat, b: Bytes)
    requires off + |b| <= |tail|
    ensures Put(head + tail, |head| + off, b) == head + Put(tail, off, b)
  {
  }

  lemma SpecialAreaPutFirst(slots: seq<Slot>, s: Slot, size: nat)
    requires Lookup(slots, s.kind).None? && 1 <= s.kind
    ensures SpecialArea(slots + [s], s.kind, size)
         == Put(SpecialArea(slots, s.kind, size), 0, s.blob[..Min(|s.blob|, size)])
  {
    hide Lookup, Put, Fit;
    LookupAppend(slots, s, s.kind);
    SpecialAreaSame(slots, s, s.kind - 1, size);
    PutFit(s.blob, size, SpecialArea(slots, s.kind - 1, size));
  }

  /** Filling one more slot of a special area is one write into it. */
  lemma {:induction false} SpecialAreaPut(slots: seq<Slot>, s: Slot, n: nat, size: nat)
    requires Lookup(slots, s.kind).None? && 1 <= s.kind <= n
    ensures Span(n - s.kind, size) + size <= Span(n, size)
    ensures SpecialArea(slots + [s], n, size)
         == Put(SpecialArea(slots, n, size), Span(n - s.kind, size), s.blob[..Min(|s.blob|, size)])
  {
    hide Lookup, Put, Fit;
    LookupAppend(slots, s, n);
    if n == s.kind {
      SpecialAreaPutFirst(slots, s, size);
    } else {
      SpecialAreaPut(slots, s, n - 1, size);
      PutTail(SlotHash(slots, n, size), SpecialArea(slots, n - 1, size), Span(n - 1 - s.kind, size),
              s.blob[..Min(|s.blob|, size)]);
    }
  }

  lemma {:induction false} SpecialAreaSame(slots: seq<Slot>, s: Slot, n: nat, size: nat)
    requires s.kind > n || s.kind == 0
    ensures SpecialArea(slots + [s], n, size) == SpecialArea(slots, n, size)
  {
    if n > 0 {
      LookupAppend(slots, s, n);
      SpecialAreaSame(slots, s, n - 1, size);
    }
  }

  lemma {:induction false} SpecialAreaEmpty(n: nat, size: nat)
    ensures SpecialArea([], n, size) == Zeros(Span(n, size))
  {
    if n > 0 {
      SpecialAreaEmpty(n - 1, size);
    }
  }

  /** One round of the slot loop, as a step between buffer contents. */
  lemma SpecialStep(slots: seq<Slot>, j: nat, n: nat, size: nat, done: Bytes, rest: nat)
    requires j < |slots| && DistinctKinds(slots) && 0 < slots[j].kind <= n
    ensures
      var cut := slots[j].blob[..Min(|slots[j].blob|, size)];
      && Span(slots[j].kind, size) + Span(n - slots[j].kind, size) == Span(n, size)
      && Span(n - slots[j].kind, size) + |cut| <= Span(n, size)
      && Put(done + SpecialArea(slots[..j], n, size) + Zeros(rest), |done| + Span(n - slots[j].kind, size), cut)
         == done + SpecialArea(slots[..j + 1], n, size) + Zeros(rest)
  {
    hide Put, SpecialArea, Zeros, Lookup;
    var s := slots[j];
    assert slots[..j + 1] == slots[..j] + [s];
    LookupMissing(slots[..j], s.kind);
    SpecialAreaPut(slots[..j], s, n, size);
    SpanSum(s.kind, n - s.kind, size);
    PutInside(done, SpecialArea(slots[..j], n, size), Zeros(rest), Span(n - s.kind, size),
              s.blob[..Min(|s.blob|, size)]);
  }

  method WriteSpecialHashes(buf: array<byte>, slots: seq<Slot>, hashOffset: nat, hashSize: nat,
                            ghost done: Bytes, ghost rest: nat)
    requires DistinctKinds(slots)
    requires hashOffset == |done| + Span(MaxSlot(slots), hashSize)
    requires buf[..] == done + SpecialArea([], MaxSlot(slots), hashSize) + Zeros(rest)
    modifies buf
    ensures buf[..] == done + SpecialArea(slots, MaxSlot(slots), hashSize) + Zeros(rest)
  {
    hide SpecialArea, Zeros;
    var n := MaxSlot(slots);
    var j := 0;
    assert slots[..0] == [];
    while j < |slots|
      invariant 0 <= j <= |slots|
      invariant buf[..] == done + SpecialArea(slots[..j], n, hashSize) + Zeros(rest)
    {
      var s := slots[j];
      if s.kind > 0 && s.kind <= n {
        SpecialStep(slots, j, n, hashSize, done, rest);
        WriteBytes(buf, hashOffset - Span(s.kind, hashSize), s.blob[..Min(|s.blob|, hashSize)]);
      } else {
        assert slots[..j + 1] == slots[..j] + [s];
        SpecialAreaSame(slots[..j], s, n, hashSize);
      }
      j := j + 1;
    }
    assert slots[..|slots|] == slots;
  }

  lemma PutCode(done: Bytes, n: nat, hash: Bytes, size: nat)
    requires size <= n
    ensures Put(done + Zeros(n), |done|, hash[..Min(|hash|, size)]) == done + Fit(hash, size) + Zeros(n - size)
  {
    var cut := hash[..Min(|hash|, size)];
    PutNext(done, n, cut);
    assert Fit(hash, size) == cut + Zeros(size - |cut|);
    assert Zeros(n - |cut|) == Zeros(size - |cut|) + Zeros(n - size);
  }

  /** One round of the page loop, as a step between buffer contents. */
  lemma CodeStep(hashes: seq<Bytes>, i: nat, size: nat, done: Bytes, rest: nat)
    requires i < |hashes|
    ensures Span(i, size) + |hashes[i][..Min(|hashes[i]|, size)]| <= Span(i, size) + Span(|hashes| - i, size)
    ensures Put(done + CodeArea(hashes[..i], size) + Zeros(Span(|hashes| - i, size) + rest),
                |done| + Span(i, size), hashes[i][..Min(|hashes[i]|, size)])
         == done + CodeArea(hashes[..i + 1], size) + Zeros(Span(|hashes| - (i + 1), size) + rest)
  {
    var before := done + CodeArea(hashes[..i], size);
    PutCode(before, Span(|hashes| - i, size) + rest, hashes[i], size);
    assert hashes[..i + 1][..i] == hashes[..i];
    assert before + Fit(hashes[i], size) == done + CodeArea(hashes[..i + 1], size);
  }

  method WriteCodeHashes(buf: array<byte>, hashes: seq<Bytes>, start: nat, hashSize: nat,
                         ghost done: Bytes, ghost rest: nat)
    requires start == |done|
    requires buf[..] == done + CodeArea([], hashSize) + Zeros(Span(|hashes|, hashSize) + rest)
    modifies buf
    ensures buf[..] == done + CodeArea(hashes, hashSize) + Zeros(rest)
  {
    hide CodeArea, Zeros, Put;
    var i := 0;
    assert hashes[..0] == [];
    while i < |hashes|
      invariant 0 <= i <= |hashes|
      invariant buf[..] == done + CodeArea(hashes[..i], hashSize) + Zeros(Span(|hashes| - i, hashSize) + rest)
    {
      CodeStep(hashes, i, hashSize, done, rest);
      WriteBytes(buf, start + Span(i, hashSize), hashes[i][..Min(|hashes[i]|, hashSize)]);
      i := i + 1;
    }
    assert hashes[..|hashes|] == hashes;
  }

  method WriteCString(buf: array<byte>, s: Bytes, off: nat, ghost done: Bytes, ghost rest: nat)
    requires off == |done|
    requires buf[..] == done + Zeros(|s| + 1 + rest)
    modifies buf
    ensures buf[..] == done + s + [0] + Zeros(rest)
  {
    WriteNext(buf, s, off, done, |s| + 1 + rest);
    WriteNext(buf, [0], off + |s|, done + s, 1 + rest);
  }

  /** The fixed-layout part: the five groups of header fields. */
  method WriteHeader(buf: array<byte>, p: CodeDirectoryParams)
    requires Encodable(p) && CD_HEADER_SIZE <= buf.Length
    requires buf[..] == Zeros(buf.Length)
    modifies buf
    ensures buf[..] == Words(HeaderWords(p)) + Zeros(buf.Length - CD_HEADER_SIZE)
  {
    hide Words, Zeros;
    ghost var ws := HeaderWords(p);
    WriteVersion(buf, p, ws);
    WriteCounts(buf, p, ws);
    WriteTypeBytes(buf, p, ws);
    WriteOffsets(buf, p, ws);
    WriteLimits(buf, p, ws);
  }

  lemma ZerosSplit(done: Bytes, m: nat, n: nat)
    ensures done + Zeros(m + n) == done + Zeros(m) + Zeros(n)
  {
  }

  /** The hash slots: special ones below hashOffset, code ones from hashOffset on. */
  method WriteHashes(buf: array<byte>, p: CodeDirectoryParams, ghost done: Bytes, ghost rest: nat)
    requires DistinctKinds(p.specialHashes)
    requires HashOffset(p) == |done| + Span(MaxSlot(p.specialHashes), HashSize(p.hashType))
    requires buf[..] == done + Zeros(Span(MaxSlot(p.specialHashes), HashSize(p.hashType))
                                     + Span(|p.codeHashes|, HashSize(p.hashType)) + rest)
    modifies buf
    ensures buf[..] == done + SpecialArea(p.specialHashes, MaxSlot(p.specialHashes), HashSize(p.hashType))
                     + CodeArea(p.codeHashes, HashSize(p.hashType)) + Zeros(rest)
  {
    hide Zeros, SpecialArea;
    var hs := HashSize(p.hashType);
    ghost var n := MaxSlot(p.specialHashes);
    SpecialAreaEmpty(n, hs);
    ZerosSplit(done, Span(n, hs), Span(|p.codeHashes|, hs) + rest);
    WriteSpecialHashes(buf, p.specialHashes, HashOffset(p), hs, done, Span(|p.codeHashes|, hs) + rest);
    ghost var d2 := done + SpecialArea(p.specialHashes, n, hs);
    assert d2 + CodeArea([], hs) == d2;
    WriteCodeHashes(buf, p.codeHashes, HashOffset(p), hs, d2, rest);
  }

  method BuildCodeDirectory(p: CodeDirectoryParams) returns (buf: array<byte>)
    requires Encodable(p) && DistinctKinds(p.specialHashes)
    ensures fresh(buf) && buf[..] == CodeDirectoryBytes(p)
  {
    ghost var hs := HashSize(p.hashType);
    var total := CodeDirectorySize(p);
    buf := new byte[total](_ => 0);
    ghost var hashes := Span(MaxSlot(p.specialHashes), hs) + Span(|p.codeHashes|, hs);
    assert buf[..] == Zeros(total);
    assert Zeros(0) == [];
    hide Zeros, SpecialArea, CodeArea, Words, HeaderWords;
    WriteHeader(buf, p);
    ghost var d0 := Words(HeaderWords(p));
    WriteCString(buf, p.identifier, CD_HEADER_SIZE, d0, hashes + |p.teamId| + 1);
    ghost var d1 := d0 + p.identifier + [0];
    WriteHashes(buf, p, d1, |p.teamId| + 1);
    ghost var d2 := d1 + SpecialArea(p.specialHashes, MaxSlot(p.specialHashes), hs) + CodeArea(p.codeHashes, hs);
    WriteCString(buf, p.teamId, TeamIdOffset(p), d2, 0);
    assert d2 + p.teamId + [0] + [] == d2 + p.teamId + [0];
  }

  // ---------------------------------------------------------------- small blobs

  /** A blob that starts with its magic and its own total length. */
  function TaggedBlob(magic: u32, payload: Bytes): (b: Bytes)
    requires |payload| + 8 < U32
    ensures |b| == 8 + |payload|
  {
    BE32(magic) + BE32(8 + |payload|) + payload
  }

  /** buildEntitlementsBlob and buildBlobWrapper, which differ in the magic only. */
  method BuildTaggedBlob(magic: u32, payload: Bytes) returns (buf: array<byte>)
    requires |payload| + 8 < U32
    ensures fresh(buf) && buf[..] == TaggedBlob(magic, payload)
  {
    var totalSize := 8 + |payload|;
    buf := new byte[totalSize](_ => 0);
    assert buf[..] == [] + Zeros(totalSize);
    assert Zeros(0) == [];
    hide Zeros, BE32;
    WriteNext(buf, BE32(magic), 0, [], totalSize);
    WriteNext(buf, BE32(totalSize), 4, [] + BE32(magic), totalSize - 4);
    WriteNext(buf, payload, 8, [] + BE32(magic) + BE32(totalSize), |payload|);
    assert [] + BE32(magic) + BE32(totalSize) + payload + [] == TaggedBlob(magic, payload);
  }

  function EmptyRequirements(): (b: Bytes)
    ensures |b| == 12
  {
    TaggedBlob(CSMAGIC_REQUIREMENTS, BE32(0))
  }

  /** Twelve bytes: the tag, the length 12 and a count of zero. */
  method BuildEmptyRequirements() returns (buf: array<byte>)
    ensures fresh(buf) && buf[..] == EmptyRequirements()
  {
    buf := BuildTaggedBlob(CSMAGIC_REQUIREMENTS, BE32(0));
  }

  // ---------------------------------------------------------------- SuperBlob

  /** `Array.prototype.sort` by slot number. */
  function SortSlots(slots: seq<Slot>): (r: seq<Slot>)
    ensures |r| == |slots|
  {
    if slots == [] then [] else Insert(SortSlots(slots[..|slots| - 1]), slots[|slots| - 1])
  }

  function Insert(sorted: seq<Slot>, s: Slot): (r: seq<Slot>)
    ensures |r| == |sorted| + 1
  {
    if sorted == [] then [s]
    else if sorted[|sorted| - 1].kind <= s.kind then sorted + [s]
    else
      Insert(sorted[..|sorted| - 1], s) + [sorted[|sorted| - 1]]
  }

  ghost predicate Increasing(slots: seq<Slot>) {
    forall i, j :: 0 <= i < j < |slots| ==> slots[i].kind < slots[j].kind
  }

  lemma {:induction false} InsertKeeps(sorted: seq<Slot>, s: Slot)
    ensures multiset(Insert(sorted, s)) == multiset(sorted) + multiset{s}
  {
    if sorted != [] && sorted[|sorted| - 1].kind > s.kind {
      var init, last := sorted[..|sorted| - 1], sorted[|sorted| - 1];
      InsertKeeps(init, s);
      assert sorted == init + [last];
    }
  }

  lemma {:induction false} InsertSorts(sorted: seq<Slot>, s: Slot)
    requires Increasing(sorted)
    requires forall i :: 0 <= i < |sorted| ==> sorted[i].kind != s.kind
    ensures Increasing(Insert(sorted, s))
  {
    if sorted != [] && sorted[|sorted| - 1].kind > s.kind {
      var init, last := sorted[..|sorted| - 1], sorted[|sorted| - 1];
      InsertSorts(init, s);
      InsertKeeps(init, s);
      var r := Insert(init, s);
      forall i | 0 <= i < |r| ensures r[i].kind < last.kind {
        assert r[i] in multiset(r);
        assert r[i] == s || r[i] in init;
      }
    }
  }

  /** Sorting a map's entries gives the same entries with strictly increasing slot numbers. */
  lemma {:induction false} SortSorts(slots: seq<Slot>)
    requires DistinctKinds(slots)
    ensures Increasing(SortSlots(slots))
    ensures multiset(SortSlots(slots)) == multiset(slots)
  {
    if slots != [] {
      var init, last := slots[..|slots| - 1], slots[|slots| - 1];
      SortSorts(init);
      assert slots == init + [last];
      forall i | 0 <= i < |SortSlots(init)|
        ensures SortSlots(init)[i].kind != last.kind
      {
        assert SortSlots(init)[i] in multiset(SortSlots(init));
        assert SortSlots(init)[i] in init;
      }
      InsertSorts(SortSlots(init), last);
      InsertKeeps(SortSlots(init), last);
    }
  }

  /** A map read back from a sorted list of its entries. */
  lemma SortKeepsLookup(slots: seq<Slot>, kind: nat)
    requires DistinctKinds(slots)
    ensures Lookup(SortSlots(slots), kind) == Lookup(slots, kind)
  {
    var sorted := SortSlots(slots);
    SortSorts(slots);
    if i :| 0 <= i < |slots| && slots[i].kind == kind {
      LookupIs(slots, i);
      assert slots[i] in multiset(slots);
      assert slots[i] in sorted;
      var j :| 0 <= j < |sorted| && sorted[j] == slots[i];
      LookupIs(sorted, j);
    } else {
      LookupMissing(slots, kind);
      forall j | 0 <= j < |sorted| ensures sorted[j].kind != kind {
        assert sorted[j] in multiset(sorted);
        assert sorted[j] in slots;
      }
      LookupMissing(sorted, kind);
    }
  }

  function Blobs(slots: seq<Slot>): Bytes {
    if slots == [] then [] else Blobs(slots[..|slots| - 1]) + slots[|slots| - 1].blob
  }

  /** Blob i lies where the blobs before it end. */
  lemma {:induction false} BlobsSplit(slots: seq<Slot>, i: nat)
    requires i < |slots|
    ensures |Blobs(slots[..i])| + |slots[i].blob| == |Blobs(slots[..i + 1])| <= |Blobs(slots)|
    ensures At(Blobs(slots), |Blobs(slots[..i])|, slots[i].blob)
    decreases |slots|
  {
    var init := slots[..|slots| - 1];
    assert slots[..i + 1][..i] == slots[..i];
    if i < |slots| - 1 {
      BlobsSplit(init, i);
      assert init[..i] == slots[..i] && init[..i + 1] == slots[..i + 1];
      var b := slots[i].blob;
      var off := |Blobs(slots[..i])|;
      assert Blobs(slots)[off..off + |b|] == Blobs(init)[off..off + |b|];
    } else {
      assert init == slots[..i] && slots[..i + 1] == slots;
    }
  }

  function SuperSize(slots: seq<Slot>): nat {
    12 + 8 * |slots| + |Blobs(slots)|
  }

  predicate SuperEncodable(slots: seq<Slot>) {
    && SuperSize(slots) < U32
    && forall i :: 0 <= i < |slots| ==> slots[i].kind < U32
  }

  function BlobOffset(slots: seq<Slot>, i: nat): nat
    requires i <= |slots|
  {
    12 + 8 * |slots| + |Blobs(slots[..i])|
  }

  /** magic, length, count and the first `i` index entries. */
  function IndexWords(slots: seq<Slot>, i: nat): (ws: seq<u32>)
    requires i <= |slots| && SuperEncodable(slots)
    ensures |ws| == 3 + 2 * i
  {
    if i == 0 then [CSMAGIC_EMBEDDED_SIGNATURE, SuperSize(slots), |slots|]
    else
      BlobsSplit(slots, i - 1);
      IndexWords(slots, i - 1) + [slots[i - 1].kind, BlobOffset(slots, i - 1)]
  }

  function SuperBlobBytes(slots: seq<Slot>): (b: Bytes)
    requires SuperEncodable(slots)
    ensures |b| == SuperSize(slots)
  {
    Words(IndexWords(slots, |slots|)) + Blobs(slots)
  }

  function IndexState(slots: seq<Slot>, i: nat): (b: Bytes)
    requires i <= |slots| && SuperEncodable(slots)
    ensures |b| == 12 + 8 * |slots|
  {
    Words(IndexWords(slots, i)) + Zeros(8 * (|slots| - i))
  }

  function BlobState(slots: seq<Slot>, i: nat): (b: Bytes)
    requires i <= |slots|
    ensures |b| == |Blobs(slots)|
  {
    PrefixLength(slots, i);
    Blobs(slots[..i]) + Zeros(|Blobs(slots)| - |Blobs(slots[..i])|)
  }

  /** The buffer when `i` entries are written. */
  function SuperState(slots: seq<Slot>, i: nat): (b: Bytes)
    requires i <= |slots| && SuperEncodable(slots)
    ensures |b| == SuperSize(slots)
  {
    IndexState(slots, i) + BlobState(slots, i)
  }

  lemma PrefixLength(slots: seq<Slot>, i: nat)
    requires i <= |slots|
    ensures |Blobs(slots[..i])| <= |Blobs(slots)|
  {
    if i < |slots| { BlobsSplit(slots, i); } else { assert slots[..i] == slots; }
  }

  lemma WordsAppend2(ws: seq<u32>, a: u32, b: u32)
    ensures Words(ws + [a, b]) == Words(ws) + BE32(a) + BE32(b)
  {
    assert (ws + [a, b])[..|ws| + 1] == ws + [a];
    assert (ws + [a])[..|ws|] == ws;
  }

  lemma PutHead(head: Bytes, tail: Bytes, off: nat, b: Bytes)
    requires off + |b| <= |head|
    ensures Put(head + tail, off, b) == Put(head, off, b) + tail
  {
  }

  lemma IndexStep(slots: seq<Slot>, i: nat)
    requires i < |slots| && SuperEncodable(slots) && BlobOffset(slots, i) < U32
    ensures Put(Put(IndexState(slots, i), 12 + 8 * i, BE32(slots[i].kind)),
                16 + 8 * i, BE32(BlobOffset(slots, i))) == IndexState(slots, i + 1)
  {
    var ws, kind, off := IndexWords(slots, i), slots[i].kind, BlobOffset(slots, i);
    WordsAppend2(ws, kind, off);
    hide Zeros, Put, BE32;
    PutNext(Words(ws), 8 * (|slots| - i), BE32(kind));
    PutNext(Words(ws) + BE32(kind), 8 * (|slots| - i) - 4, BE32(off));
  }

  lemma BlobStep(slots: seq<Slot>, i: nat)
    requires i < |slots|
    ensures |Blobs(slots[..i])| + |slots[i].blob| <= |Blobs(slots)|
    ensures Put(BlobState(slots, i), |Blobs(slots[..i])|, slots[i].blob) == BlobState(slots, i + 1)
  {
    BlobsSplit(slots, i);
    assert slots[..i + 1][..i] == slots[..i];
    PutNext(Blobs(slots[..i]), |Blobs(slots)| - |Blobs(slots[..i])|, slots[i].blob);
  }

  /** Entry `i` written over the buffer contents `b`. */
  function WithEntry(b: Bytes, slots: seq<Slot>, i: nat): Bytes
    requires i < |slots| && |b| == SuperSize(slots)
    requires slots[i].kind < U32 && BlobOffset(slots, i) < U32
    requires BlobOffset(slots, i) + |slots[i].blob| <= SuperSize(slots)
  {
    Put(Put(Put(b, 12 + 8 * i, BE32(slots[i].kind)), 16 + 8 * i, BE32(BlobOffset(slots, i))),
        BlobOffset(slots, i), slots[i].blob)
  }

  lemma OffsetsFit(slots: seq<Slot>, i: nat)
    requires i < |slots| && SuperEncodable(slots)
    ensures BlobOffset(slots, i) + |slots[i].blob| == BlobOffset(slots, i + 1) <= SuperSize(slots) < U32
  {
    BlobsSplit(slots, i);
  }

  lemma SuperStep(slots: seq<Slot>, i: nat)
    requires i < |slots| && SuperEncodable(slots)
    requires BlobOffset(slots, i) + |slots[i].blob| <= SuperSize(slots) < U32
    ensures WithEntry(SuperState(slots, i), slots, i) == SuperState(slots, i + 1)
  {
    IndexStep(slots, i);
    BlobStep(slots, i);
    hide Put, IndexState, BlobState, BE32;
    PutThree(IndexState(slots, i), BlobState(slots, i), 12 + 8 * i, BE32(slots[i].kind),
             BE32(BlobOffset(slots, i)), |Blobs(slots[..i])|, slots[i].blob);
  }

  lemma PutThree(a: Bytes, b: Bytes, i: nat, x: Bytes, y: Bytes, off: nat, z: Bytes)
    requires |x| == 4 && |y| == 4 && i + 8 <= |a| && off + |z| <= |b|
    ensures Put(Put(Put(a + b, i, x), i + 4, y), |a| + off, z) == Put(Put(a, i, x), i + 4, y) + Put(b, off, z)
  {
    hide Put;
    PutHead(a, b, i, x);
    PutHead(Put(a, i, x), b, i + 4, y);
    PutTail(Put(Put(a, i, x), i + 4, y), b, off, z);
  }

  method WriteEntry(buf: array<byte>, slots: seq<Slot>, i: nat, indexOffset: nat, blobOffset: nat)
    requires i < |slots| && buf.Length == SuperSize(slots)
    requires indexOffset == 12 + 8 * i && blobOffset == BlobOffset(slots, i)
    requires slots[i].kind < U32 && blobOffset < U32 && blobOffset + |slots[i].blob| <= SuperSize(slots)
    modifies buf
    ensures buf[..] == WithEntry(old(buf[..]), slots, i)
  {
    hide Put, BE32, Blobs;
    WriteUInt32BE(buf, slots[i].kind, indexOffset);
    WriteUInt32BE(buf, blobOffset, indexOffset + 4);
    WriteBytes(buf, blobOffset, slots[i].blob);
  }

  method BuildSuperBlob(blobs: seq<Slot>) returns (buf: array<byte>)
    requires SuperEncodable(SortSlots(blobs))
    ensures fresh(buf) && buf[..] == SuperBlobBytes(SortSlots(blobs))
  {
    var sortedSlots := SortSlots(blobs);
    var count := |sortedSlots|;
    var headerSize := 12 + count * 8;
    var totalSize := headerSize;
    for k := 0 to count
      invariant totalSize == headerSize + |Blobs(sortedSlots[..k])|
    {
      assert sortedSlots[..k + 1][..k] == sortedSlots[..k];
      totalSize := totalSize + |sortedSlots[k].blob|;
    }
    assert sortedSlots[..count] == sortedSlots;
    buf := new byte[totalSize](_ => 0);
    assert buf[..] == Zeros(totalSize);
    hide SuperState, SuperBlobBytes, WithEntry, Zeros, Blobs;
    WriteSuperHeader(buf, sortedSlots);
    var blobOffset := headerSize;
    var indexOffset := 12;
    var i := 0;
    while i < count
      invariant 0 <= i <= count
      invariant blobOffset == BlobOffset(sortedSlots, i) && indexOffset == 12 + 8 * i
      invariant buf[..] == SuperState(sortedSlots, i)
    {
      OffsetsFit(sortedSlots, i);
      SuperStep(sortedSlots, i);
      WriteEntry(buf, sortedSlots, i, indexOffset, blobOffset);
      indexOffset := indexOffset + 8;
      blobOffset := blobOffset + |sortedSlots[i].blob|;
      i := i + 1;
    }
    SuperDone(sortedSlots);
  }

  lemma SuperDone(slots: seq<Slot>)
    requires SuperEncodable(slots)
    ensures SuperState(slots, |slots|) == SuperBlobBytes(slots)
  {
    assert slots[..|slots|] == slots;
    assert Zeros(0) == [];
  }

  method WriteSuperHeader(buf: array<byte>, slots: seq<Slot>)
    requires SuperEncodable(slots) && buf.Length == SuperSize(slots)
    requires buf[..] == Zeros(buf.Length)
    modifies buf
    ensures buf[..] == SuperState(slots, 0)
  {
    ghost var n := buf.Length;
    ghost var ws := IndexWords(slots, 0);
    assert Words(ws[..0]) + Zeros(n) == Zeros(n);
    WriteWord(buf, CSMAGIC_EMBEDDED_SIGNATURE, 0, ws, n);
    WriteWord(buf, SuperSize(slots), 1, ws, n - 4);
    WriteWord(buf, |slots|, 2, ws, n - 8);
    assert ws[..3] == ws;
    assert slots[..0] == [];
    ZerosSplit(Words(ws), 8 * |slots|, |Blobs(slots)|);
    assert BlobState(slots, 0) == Zeros(|Blobs(slots)|);
  }
}
