/** An independent reader of code-signing blobs: it follows offsets and length words only, and is proved
    to recover what the builders of `CodeSign` were given. */
module BlobReader {
  import opened Wrappers
  import opened Bytes
  import opened CodeSign

  // ---------------------------------------------------------------- SuperBlob

  /** The sub-blob at `off`, delimited by its own length word. */
  function BlobAt(b: Bytes, off: nat): Option<Bytes> {
    if off + 8 > |b| then None
    else
      var n := ReadBE32(b, off + 4);
      if n < 8 || off + n > |b| then None else Some(b[off..off + n])
  }

  /** Index entry `i`: a slot number and the offset of its blob. */
  function ReadEntry(b: Bytes, i: nat): Option<Slot>
    requires 12 + 8 * i + 8 <= |b|
  {
    match BlobAt(b, ReadBE32(b, 12 + 8 * i + 4))
    case None => None
    case Some(blob) => Some(Slot(ReadBE32(b, 12 + 8 * i), blob))
  }

  function ReadEntries(b: Bytes, n: nat): (r: Option<seq<Slot>>)
    requires 12 + 8 * n <= |b|
  {
    if n == 0 then Some([])
    else
      match (ReadEntries(b, n - 1), ReadEntry(b, n - 1))
      case (Some(before), Some(entry)) => Some(before + [entry])
      case _ => None
  }

  function ReadSuperBlob(b: Bytes): Option<seq<Slot>> {
    if |b| < 12 || ReadBE32(b, 0) != CSMAGIC_EMBEDDED_SIGNATURE || ReadBE32(b, 4) != |b| then None
    else
      var count := ReadBE32(b, 8);
      if 12 + 8 * count > |b| then None else ReadEntries(b, count)
  }

  /** The blob carries its own total length at byte 4. */
  predicate SelfSized(blob: Bytes) {
    |blob| >= 8 && ReadBE32(blob, 4) == |blob|
  }

  lemma TaggedBlobIsSelfSized(magic: u32, payload: Bytes)
    requires |payload| + 8 < U32
    ensures SelfSized(TaggedBlob(magic, payload))
    ensures TaggedBlob(magic, payload)[8..] == payload
    ensures ReadBE32(TaggedBlob(magic, payload), 0) == magic
  {
    var t := TaggedBlob(magic, payload);
    assert t[4..8] == BE32(8 + |payload|);
    assert t[0..4] == BE32(magic);
    RoundTrip32(8 + |payload|);
    RoundTrip32(magic);
  }

  lemma PrefixRead(w: Bytes, rest: Bytes, off: nat)
    requires off + 4 <= |w|
    ensures ReadBE32(w + rest, off) == ReadBE32(w, off)
  {
    assert (w + rest)[off..off + 4] == w[off..off + 4];
  }

  /** A field of the words a buffer starts with. */
  lemma HeadWordAt(ws: seq<u32>, rest: Bytes, i: nat)
    requires i < |ws|
    ensures ReadBE32(Words(ws) + rest, 4 * i) == ws[i]
  {
    hide *;
    WordAt(ws, i);
    PrefixRead(Words(ws), rest, 4 * i);
  }

  lemma {:induction false} IndexWordAt(slots: seq<Slot>, n: nat, i: nat)
    requires i < n <= |slots| && SuperEncodable(slots)
    ensures BlobOffset(slots, i) < U32
    ensures IndexWords(slots, n)[3 + 2 * i] == slots[i].kind
    ensures IndexWords(slots, n)[4 + 2 * i] == BlobOffset(slots, i)
    ensures IndexWords(slots, n)[..3] == IndexWords(slots, 0)
  {
    OffsetsFit(slots, i);
    if i < n - 1 {
      IndexWordAt(slots, n - 1, i);
    } else if n > 1 {
      IndexWordAt(slots, n - 1, 0);
    }
  }

  /** Where the entry table of a built SuperBlob points: entry i names its slot and the exact place of its
      blob; the first blob follows the table, each next one the blob before it, the last one ends the buffer. */
  lemma SuperBlobTiles(slots: seq<Slot>, i: nat)
    requires SuperEncodable(slots) && i < |slots|
    ensures ReadBE32(SuperBlobBytes(slots), 12 + 8 * i) == slots[i].kind
    ensures ReadBE32(SuperBlobBytes(slots), 16 + 8 * i) == BlobOffset(slots, i)
    ensures At(SuperBlobBytes(slots), BlobOffset(slots, i), slots[i].blob)
    ensures i == 0 ==> BlobOffset(slots, i) == 12 + 8 * |slots|
    ensures i + 1 < |slots| ==> BlobOffset(slots, i + 1) == BlobOffset(slots, i) + |slots[i].blob|
    ensures i + 1 == |slots| ==> BlobOffset(slots, i) + |slots[i].blob| == |SuperBlobBytes(slots)|
  {
    var ws := IndexWords(slots, |slots|);
    IndexWordAt(slots, |slots|, i);
    assert 4 * (3 + 2 * i) == 12 + 8 * i && 4 * (4 + 2 * i) == 16 + 8 * i;
    HeadWordAt(ws, Blobs(slots), 3 + 2 * i);
    HeadWordAt(ws, Blobs(slots), 4 + 2 * i);
    BlobsSplit(slots, i);
    BlobPlace(Words(ws), Blobs(slots), |Blobs(slots[..i])|, slots[i].blob);
    if i + 1 == |slots| { assert slots[..i + 1] == slots; }
    if i == 0 { assert slots[..0] == []; }
  }

  lemma BlobPlace(head: Bytes, tail: Bytes, off: nat, b: Bytes)
    requires At(tail, off, b)
    ensures At(head + tail, |head| + off, b)
  {
    assert (head + tail)[|head| + off..|head| + off + |b|] == tail[off..off + |b|];
  }

  lemma BlobAtIs(b: Bytes, off: nat, blob: Bytes)
    requires At(b, off, blob)
    ensures SelfSized(blob) ==> BlobAt(b, off) == Some(blob)
    ensures BlobAt(b, off) == Some(blob) ==> SelfSized(blob)
  {
    if |blob| >= 8 {
      SliceOfSlice(b, off, off + |blob|, 4, 8);
      assert blob[4..8] == b[off + 4..off + 8];
    }
  }

  /** What the reader makes of entry `i` of a built SuperBlob. */
  lemma EntryRead(slots: seq<Slot>, i: nat)
    requires SuperEncodable(slots) && i < |slots|
    ensures ReadEntry(SuperBlobBytes(slots), i) == Some(slots[i]) <==> SelfSized(slots[i].blob)
  {
    SuperBlobTiles(slots, i);
    hide SuperBlobBytes, Blobs;
    BlobAtIs(SuperBlobBytes(slots), BlobOffset(slots, i), slots[i].blob);
  }

  lemma {:induction false} EntriesRead(slots: seq<Slot>, i: nat)
    requires SuperEncodable(slots) && i <= |slots|
    requires forall k :: 0 <= k < i ==> SelfSized(slots[k].blob)
    ensures ReadEntries(SuperBlobBytes(slots), i) == Some(slots[..i])
  {
    hide SuperBlobBytes, SelfSized, ReadEntry, Blobs;
    if i > 0 {
      EntriesRead(slots, i - 1);
      EntryRead(slots, i - 1);
      assert slots[..i] == slots[..i - 1] + [slots[i - 1]];
    }
  }

  lemma {:induction false} EntriesReadBack(slots: seq<Slot>, i: nat)
    requires SuperEncodable(slots) && i <= |slots|
    requires ReadEntries(SuperBlobBytes(slots), i) == Some(slots[..i])
    ensures forall k :: 0 <= k < i ==> SelfSized(slots[k].blob)
  {
    hide SuperBlobBytes, SelfSized, ReadEntry, Blobs;
    if i > 0 {
      EntryRead(slots, i - 1);
      var before := ReadEntries(SuperBlobBytes(slots), i - 1).value;
      var entry := ReadEntry(SuperBlobBytes(slots), i - 1).value;
      assert slots[..i] == before + [entry];
      assert entry == slots[..i][i - 1] == slots[i - 1];
      assert before == slots[..i][..i - 1] == slots[..i - 1];
      EntriesReadBack(slots, i - 1);
    }
  }

  lemma SuperHeaderRead(slots: seq<Slot>)
    requires SuperEncodable(slots)
    ensures ReadSuperBlob(SuperBlobBytes(slots)) == ReadEntries(SuperBlobBytes(slots), |slots|)
  {
    hide Blobs, FromBE32, BE32, Words;
    var ws := IndexWords(slots, |slots|);
    if |slots| > 0 { IndexWordAt(slots, |slots|, 0); }
    assert ws[..3] == IndexWords(slots, 0);
    assert ws[0] == ws[..3][0] && ws[1] == ws[..3][1] && ws[2] == ws[..3][2];
    HeadWordAt(ws, Blobs(slots), 0);
    HeadWordAt(ws, Blobs(slots), 1);
    HeadWordAt(ws, Blobs(slots), 2);
  }

  /** The reader returns exactly the entries written, if and only if every blob carries its own length. */
  lemma SuperBlobReadsBack(slots: seq<Slot>)
    requires SuperEncodable(slots)
    ensures ReadSuperBlob(SuperBlobBytes(slots)) == Some(slots)
       <==> forall i :: 0 <= i < |slots| ==> SelfSized(slots[i].blob)
  {
    SuperHeaderRead(slots);
    assert slots[..|slots|] == slots;
    if forall i :: 0 <= i < |slots| ==> SelfSized(slots[i].blob) {
      EntriesRead(slots, |slots|);
    }
    if ReadSuperBlob(SuperBlobBytes(slots)) == Some(slots) {
      EntriesReadBack(slots, |slots|);
    }
  }

  /** Round trip of the map: strictly increasing slots, same entries, same lookups. */
  lemma SuperBlobRoundTrip(blobs: seq<Slot>)
    requires DistinctKinds(blobs) && SuperEncodable(SortSlots(blobs))
    requires forall i :: 0 <= i < |blobs| ==> SelfSized(blobs[i].blob)
    ensures ReadSuperBlob(SuperBlobBytes(SortSlots(blobs))) == Some(SortSlots(blobs))
    ensures Increasing(SortSlots(blobs)) && multiset(SortSlots(blobs)) == multiset(blobs)
    ensures forall kind :: Lookup(SortSlots(blobs), kind) == Lookup(blobs, kind)
  {
    var sorted := SortSlots(blobs);
    SortSorts(blobs);
    forall i | 0 <= i < |sorted| ensures SelfSized(sorted[i].blob) {
      assert sorted[i] in multiset(sorted);
      assert sorted[i] in blobs;
    }
    SuperBlobReadsBack(sorted);
    forall kind: nat ensures Lookup(sorted, kind) == Lookup(blobs, kind) {
      SortKeepsLookup(blobs, kind);
    }
  }

  // ---------------------------------------------------------------- CodeDirectory

  /** `specials[k - 1]` is special slot k. */
  datatype CodeDirectory = CodeDirectory(
    version: u32, flags: u32, identifier: Bytes, teamId: Bytes, hashType: byte, hashSize: byte,
    codeLimit: u32, pageShift: byte, specials: seq<Bytes>, codes: seq<Bytes>)

  /** The bytes before the first NUL. */
  function UpToNul(s: Bytes): (r: Bytes)
    ensures |r| <= |s| && r == s[..|r|] && 0 !in r
    ensures r == s <==> 0 !in s
  {
    if s == [] || s[0] == 0 then [] else [s[0]] + UpToNul(s[1..])
  }

  function CString(b: Bytes, off: nat): Option<Bytes> {
    if off >= |b| then None
    else
      var s := UpToNul(b[off..]);
      if off + |s| == |b| then None else Some(s)
  }

  /** `len` bytes at `off`, or nothing when they are not all there. */
  function Field(b: Bytes, off: int, len: nat): Bytes {
    if 0 <= off && off + len <= |b| then b[off..off + len] else []
  }

  function SpecialSlots(b: Bytes, hashOffset: nat, n: nat, size: nat): (r: seq<Bytes>)
    ensures |r| == n
  {
    seq(n, k requires 0 <= k => Field(b, hashOffset - Span(k + 1, size), size))
  }

  function CodeSlots(b: Bytes, hashOffset: nat, n: nat, size: nat): (r: seq<Bytes>)
    ensures |r| == n
  {
    seq(n, i requires 0 <= i => Field(b, hashOffset + Span(i, size), size))
  }

  function DecodeCodeDirectory(b: Bytes): Option<CodeDirectory> {
    if |b| < CD_HEADER_SIZE || ReadBE32(b, 0) != CSMAGIC_CODEDIRECTORY || ReadBE32(b, 4) != |b| then None
    else
      var hashOffset, nSpecial, nCode := ReadBE32(b, 16), ReadBE32(b, 24), ReadBE32(b, 28);
      var hs := b[36];
      match (CString(b, ReadBE32(b, 20)), CString(b, ReadBE32(b, 48)))
      case (Some(ident), Some(team)) =>
        if hashOffset < Span(nSpecial, hs) || hashOffset + Span(nCode, hs) > |b| then None
        else
          Some(CodeDirectory(ReadBE32(b, 8), ReadBE32(b, 12), ident, team, b[37], hs, ReadBE32(b, 32), b[39],
                             SpecialSlots(b, hashOffset, nSpecial, hs), CodeSlots(b, hashOffset, nCode, hs)))
      case _ => None
  }

  /** What a reader must get back for `p`. */
  function Decoded(p: CodeDirectoryParams): CodeDirectory
    requires Encodable(p)
  {
    var hs := HashSize(p.hashType);
    CodeDirectory(CS_SUPPORTSEXECSEG, p.flags, UpToNul(p.identifier), UpToNul(p.teamId), p.hashType, hs,
                  p.codeLimit, FloorLog2(p.pageSize),
                  seq(MaxSlot(p.specialHashes), k requires 0 <= k => SlotHash(p.specialHashes, k + 1, hs)),
                  seq(|p.codeHashes|, i requires 0 <= i < |p.codeHashes| => Fit(p.codeHashes[i], hs)))
  }

  /** Slot k of the area for slots n..1 starts (n - k) hashes in, that is k hashes before its end. */
  lemma {:induction false} SpecialSlotAt(slots: seq<Slot>, n: nat, k: nat, size: nat)
    requires 1 <= k <= n
    ensures Span(k, size) <= Span(n, size)
    ensures At(SpecialArea(slots, n, size), Span(n, size) - Span(k, size), SlotHash(slots, k, size))
  {
    if k < n {
      SpecialSlotAt(slots, n - 1, k, size);
      BlobPlace(SlotHash(slots, n, size), SpecialArea(slots, n - 1, size), Span(n - 1, size) - Span(k, size),
                SlotHash(slots, k, size));
    } else {
      AtConcat([], SlotHash(slots, n, size), SpecialArea(slots, n - 1, size));
      assert [] + SlotHash(slots, n, size) == SlotHash(slots, n, size);
    }
  }

  lemma {:induction false} CodeSlotAt(hashes: seq<Bytes>, i: nat, size: nat)
    requires i < |hashes|
    ensures At(CodeArea(hashes, size), Span(i, size), Fit(hashes[i], size))
  {
    var init := hashes[..|hashes| - 1];
    var h := Fit(hashes[i], size);
    if i < |hashes| - 1 {
      CodeSlotAt(init, i, size);
      var at := Span(i, size);
      assert CodeArea(hashes, size)[at..at + size] == CodeArea(init, size)[at..at + size];
    }
  }

  lemma {:induction false} NulStops(s: Bytes, rest: Bytes)
    ensures UpToNul(s + [0] + rest) == UpToNul(s)
  {
    if s == [] {
      assert [] + [0] + rest == [0] + rest;
    } else {
      NulStops(s[1..], rest);
      assert (s + [0] + rest)[1..] == s[1..] + [0] + rest;
    }
  }

  lemma CStringAt(head: Bytes, s: Bytes, rest: Bytes)
    ensures CString(head + s + [0] + rest, |head|) == Some(UpToNul(s))
  {
    var b := head + s + [0] + rest;
    assert b[|head|..] == s + [0] + rest;
    NulStops(s, rest);
  }

  lemma HeaderFirst(p: CodeDirectoryParams)
    requires Encodable(p)
    ensures CodeDirectoryBytes(p) == Words(HeaderWords(p)) + CodeDirectoryBytes(p)[CD_HEADER_SIZE..]
  {
    hide Words, HeaderWords, SpecialArea, CodeArea;
  }

  lemma HeaderRead(p: CodeDirectoryParams)
    requires Encodable(p)
    ensures
      var b := CodeDirectoryBytes(p);
      && ReadBE32(b, 0) == CSMAGIC_CODEDIRECTORY && ReadBE32(b, 4) == |b| && ReadBE32(b, 8) == CS_SUPPORTSEXECSEG
      && ReadBE32(b, 12) == p.flags && ReadBE32(b, 16) == HashOffset(p) && ReadBE32(b, 20) == CD_HEADER_SIZE
      && ReadBE32(b, 24) == MaxSlot(p.specialHashes) && ReadBE32(b, 28) == |p.codeHashes|
      && ReadBE32(b, 32) == p.codeLimit && ReadBE32(b, 48) == TeamIdOffset(p)
  {
    var ws := HeaderWords(p);
    var rest := CodeDirectoryBytes(p)[CD_HEADER_SIZE..];
    HeaderFirst(p);
    hide CodeDirectoryBytes, Words, FromBE32, MaxSlot, Span, FloorLog2, TypeWord, HashSize, SpecialArea, CodeArea;
    HeadWordAt(ws, rest, 0); HeadWordAt(ws, rest, 1); HeadWordAt(ws, rest, 2); HeadWordAt(ws, rest, 3);
    HeadWordAt(ws, rest, 4); HeadWordAt(ws, rest, 5); HeadWordAt(ws, rest, 6); HeadWordAt(ws, rest, 7);
    HeadWordAt(ws, rest, 8); HeadWordAt(ws, rest, 12);
  }

  /** The rest of the header: spare and scatter words are zero, codeLimit64 repeats the code limit, and the executable
      segment's base, limit and flags stand high word first. */
  lemma HeaderTailRead(p: CodeDirectoryParams)
    requires Encodable(p)
    ensures
      var b := CodeDirectoryBytes(p);
      && ReadBE32(b, 40) == 0 && ReadBE32(b, 44) == 0 && ReadBE32(b, 52) == 0
      && ReadBE32(b, 56) == 0 && ReadBE32(b, 60) == p.codeLimit
      && ReadBE32(b, 64) == p.execSegBase / 0x1_0000_0000 && ReadBE32(b, 68) == p.execSegBase % 0x1_0000_0000
      && ReadBE32(b, 72) == p.execSegLimit / 0x1_0000_0000 && ReadBE32(b, 76) == p.execSegLimit % 0x1_0000_0000
      && ReadBE32(b, 80) == p.execSegFlags / 0x1_0000_0000 && ReadBE32(b, 84) == p.execSegFlags % 0x1_0000_0000
  {
    var ws := HeaderWords(p);
    var rest := CodeDirectoryBytes(p)[CD_HEADER_SIZE..];
    HeaderFirst(p);
    hide CodeDirectoryBytes, Words, FromBE32, MaxSlot, Span, FloorLog2, TypeWord, HashSize, SpecialArea, CodeArea;
    HeadWordAt(ws, rest, 10); HeadWordAt(ws, rest, 11); HeadWordAt(ws, rest, 13); HeadWordAt(ws, rest, 14);
    HeadWordAt(ws, rest, 15); HeadWordAt(ws, rest, 16); HeadWordAt(ws, rest, 17); HeadWordAt(ws, rest, 18);
    HeadWordAt(ws, rest, 19); HeadWordAt(ws, rest, 20); HeadWordAt(ws, rest, 21);
  }

  lemma TypeBytesRead(p: CodeDirectoryParams)
    requires Encodable(p)
    ensures
      var b := CodeDirectoryBytes(p);
      b[36] == HashSize(p.hashType) && b[37] == p.hashType && b[38] == 0 && b[39] == FloorLog2(p.pageSize)
  {
    var ws := HeaderWords(p);
    var b := CodeDirectoryBytes(p);
    HeaderFirst(p);
    hide CodeDirectoryBytes, Words, SpecialArea, CodeArea, MaxSlot, Span, FloorLog2, HashSize, BE32;
    WordAt(ws, 9);
    var w := Words(ws);
    assert ws[9] == TypeWord(p);
    assert w[36..40] == BE32(ws[9]);
    assert b[36] == w[36..40][0] && b[37] == w[36..40][1] && b[38] == w[36..40][2] && b[39] == w[36..40][3];
  }

  lemma Regroup(a: Bytes, b: Bytes, c: Bytes, d: Bytes, e: Bytes, f: Bytes, g: Bytes)
    ensures a + b + c + d + e + f + g == a + b + c + (d + e + f + g)
    ensures a + b + c + d + e + f + g == (a + b + c + d + e) + f + g + []
  {
  }

  lemma StringsRead(p: CodeDirectoryParams)
    requires Encodable(p)
    ensures CString(CodeDirectoryBytes(p), CD_HEADER_SIZE) == Some(UpToNul(p.identifier))
    ensures CString(CodeDirectoryBytes(p), TeamIdOffset(p)) == Some(UpToNul(p.teamId))
  {
    var hs := HashSize(p.hashType);
    var w, co := Words(HeaderWords(p)), CodeArea(p.codeHashes, hs);
    var sp := SpecialArea(p.specialHashes, MaxSlot(p.specialHashes), hs);
    Regroup(w, p.identifier, [0], sp, co, p.teamId, [0]);
    assert |w + p.identifier + [0] + sp + co| == TeamIdOffset(p);
    assert CodeDirectoryBytes(p) == w + p.identifier + [0] + sp + co + p.teamId + [0];
    hide *;
    CStringAt(w, p.identifier, sp + co + p.teamId + [0]);
    CStringAt(w + p.identifier + [0] + sp + co, p.teamId, []);
  }

  lemma AreaRead(b: Bytes, head: Bytes, area: Bytes, tail: Bytes, off: nat, slot: Bytes)
    requires b == head + area + tail && At(area, off, slot)
    ensures Field(b, |head| + off, |slot|) == slot
  {
    AtConcat(head, area, tail);
    AtInside(b, |head|, area, off, slot);
  }

  /** Special slot k is the hash that starts k hashes before hashOffset. */
  lemma SpecialRead(p: CodeDirectoryParams, k: nat)
    requires Encodable(p) && 1 <= k <= MaxSlot(p.specialHashes)
    ensures Field(CodeDirectoryBytes(p), HashOffset(p) - Span(k, HashSize(p.hashType)), HashSize(p.hashType))
         == SlotHash(p.specialHashes, k, HashSize(p.hashType))
  {
    hide SpecialArea, CodeArea, SlotHash, Field, HeaderWords, Words, At, MaxSlot;
    var hs, n := HashSize(p.hashType), MaxSlot(p.specialHashes);
    var head, sp := Words(HeaderWords(p)) + p.identifier + [0], SpecialArea(p.specialHashes, n, hs);
    var tail := CodeArea(p.codeHashes, hs) + p.teamId + [0];
    SpecialSlotAt(p.specialHashes, n, k, hs);
    assert CodeDirectoryBytes(p) == head + sp + tail;
    hide CodeDirectoryBytes;
    AreaRead(CodeDirectoryBytes(p), head, sp, tail, Span(n, hs) - Span(k, hs), SlotHash(p.specialHashes, k, hs));
  }

  /** Code hash i starts i hashes after hashOffset. */
  lemma CodeRead(p: CodeDirectoryParams, i: nat)
    requires Encodable(p) && i < |p.codeHashes|
    ensures Field(CodeDirectoryBytes(p), HashOffset(p) + Span(i, HashSize(p.hashType)), HashSize(p.hashType))
         == Fit(p.codeHashes[i], HashSize(p.hashType))
  {
    hide SpecialArea, CodeArea, Fit, Field, HeaderWords, Words, At, MaxSlot;
    var hs, n := HashSize(p.hashType), MaxSlot(p.specialHashes);
    var head := Words(HeaderWords(p)) + p.identifier + [0] + SpecialArea(p.specialHashes, n, hs);
    var co, tail := CodeArea(p.codeHashes, hs), p.teamId + [0];
    CodeSlotAt(p.codeHashes, i, hs);
    assert CodeDirectoryBytes(p) == head + co + tail;
    hide CodeDirectoryBytes;
    AreaRead(CodeDirectoryBytes(p), head, co, tail, Span(i, hs), Fit(p.codeHashes[i], hs));
  }

  /** Decoding returns the parameters: strings up to their first NUL, hashes fitted to the hash size, and
      zeros for every special slot below the highest that has no entry. */
  lemma CodeDirectoryRoundTrip(p: CodeDirectoryParams)
    requires Encodable(p)
    ensures DecodeCodeDirectory(CodeDirectoryBytes(p)) == Some(Decoded(p))
  {
    var b, hs := CodeDirectoryBytes(p), HashSize(p.hashType);
    HeaderRead(p);
    TypeBytesRead(p);
    StringsRead(p);
    SlotsDecoded(p);
    hide CodeDirectoryBytes, SpecialSlots, CodeSlots, CString, FromBE32, HashSize, FloorLog2, UpToNul;
  }

  lemma SlotsDecoded(p: CodeDirectoryParams)
    requires Encodable(p)
    ensures SpecialSlots(CodeDirectoryBytes(p), HashOffset(p), MaxSlot(p.specialHashes), HashSize(p.hashType))
         == Decoded(p).specials
    ensures CodeSlots(CodeDirectoryBytes(p), HashOffset(p), |p.codeHashes|, HashSize(p.hashType)) == Decoded(p).codes
  {
    hide CodeDirectoryBytes, SlotHash, Fit, Field, HashSize, UpToNul;
    forall k | 0 <= k < MaxSlot(p.specialHashes)
      ensures SpecialSlots(CodeDirectoryBytes(p), HashOffset(p), MaxSlot(p.specialHashes), HashSize(p.hashType))[k]
           == Decoded(p).specials[k]
    {
      SpecialRead(p, k + 1);
    }
    forall i | 0 <= i < |p.codeHashes|
      ensures CodeSlots(CodeDirectoryBytes(p), HashOffset(p), |p.codeHashes|, HashSize(p.hashType))[i]
           == Decoded(p).codes[i]
    {
      CodeRead(p, i);
    }
  }
}
