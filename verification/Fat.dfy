/** The loop of signMachOBinary, signFramework and signDylib over the slices of a file. Each slice is found by parsing
    the file as the previous steps left it; the table of architectures is never rewritten. */
module Fat {
  import opened Wrappers
  import opened Bytes
  import opened MachO
  import opened SignatureBlob
  import opened TsSigner
  import opened Stamping
  import opened SliceSigning
  import opened Checker
  import opened SignVerify

  predicate IsFat(file: Bytes) {
    |file| >= 8 && IsFatMagic(ReadBE32(file, 0))
  }

  function IsWide(file: Bytes): bool {
    |file| >= 4 && (ReadBE32(file, 0) == FAT_MAGIC_64 || ReadBE32(file, 0) == FAT_CIGAM_64)
  }

  /** The table of architectures as the parser reads it; empty when it cannot be read. */
  function Archs(file: Bytes): seq<FatArch> {
    if |file| < 8 || ReadBE32(file, 4) > 20 then []
    else
      match FatArchs(file, IsWide(file), ReadBE32(file, 4))
      case Failure => []
      case Success(archs) => archs
  }

  function TableEnd(n: nat, wide: bool): nat {
    8 + Span(n, ArchSize(wide))
  }

  /** `size` bytes at `off`; nothing when they are not all there. */
  function Range(file: Bytes, off: nat, size: nat): (r: Bytes)
    ensures off + size <= |file| ==> |r| == size
  {
    if off + size <= |file| then file[off..off + size] else []
  }

  /** `file` with `b` in place of `size` bytes at `off`. */
  function Replace(file: Bytes, off: nat, size: nat, b: Bytes): (r: Bytes)
    ensures off + size <= |file| ==> |r| == |file| - size + |b|
  {
    if off + size <= |file| then file[..off] + b + file[off + size..] else file
  }

  /** The bytes the table gives to an architecture. */
  function Sub(file: Bytes, a: FatArch): (r: Bytes)
    ensures a.offset + a.size <= |file| ==> |r| == a.size
  {
    Range(file, a.offset, a.size)
  }

  predicate InSlice(a: FatArch, k: nat) {
    a.offset <= k < a.offset + a.size
  }

  predicate Disjoint(a: FatArch, b: FatArch) {
    a.offset + a.size <= b.offset || b.offset + b.size <= a.offset
  }

  /** The slice can be signed, and its signature exactly fills the room it has. */
  ghost predicate Exact(c: Crypto, t: Target, s: Bytes) {
    CanSign(c, t, s) && Aligned(s) + BlobSize(t, CodeLimit(s), c.cmsMax) == |s|
  }

  ghost predicate Placed(c: Crypto, t: Target, file: Bytes, archs: seq<FatArch>, wide: bool) {
    && (forall i :: 0 <= i < |archs| ==>
          TableEnd(|archs|, wide) <= archs[i].offset && archs[i].offset + archs[i].size <= |file|)
    && (forall i, j :: 0 <= i < j < |archs| ==> Disjoint(archs[i], archs[j]))
    && (forall i :: 0 <= i < |archs| ==> Exact(c, t, Sub(file, archs[i])))
  }

  /** A fat file whose disjoint slices lie behind the table and need no more and no less room than they have. */
  ghost predicate FatReady(c: Crypto, t: Target, file: Bytes) {
    && IsFat(file) && ReadBE32(file, 4) <= 20 && FatArchs(file, IsWide(file), ReadBE32(file, 4)).Success?
    && c.cmsMin == c.cmsMax
    && Placed(c, t, file, Archs(file), IsWide(file))
  }

  // ---------------------------------------------------------------- parsing a fat file

  lemma {:induction false} FatSlicesAre(buf: Bytes, archs: seq<FatArch>)
    requires forall i :: 0 <= i < |archs| ==> ParseSlice(buf, archs[i].offset, archs[i].size).Success?
    ensures FatSlices(buf, archs).Success?
    ensures forall i :: 0 <= i < |archs| ==>
      Success(FatSlices(buf, archs).value[i]) == ParseSlice(buf, archs[i].offset, archs[i].size)
  {
    hide ParseSlice;
    if archs != [] {
      var init := archs[..|archs| - 1];
      forall i | 0 <= i < |init| ensures ParseSlice(buf, init[i].offset, init[i].size).Success? {
        assert init[i] == archs[i];
      }
      FatSlicesAre(buf, init);
    }
  }

  lemma SameWord(a: Bytes, b: Bytes, n: nat, off: nat)
    requires n <= |a| && n <= |b| && a[..n] == b[..n] && off + 4 <= n
    ensures ReadBE32(a, off) == ReadBE32(b, off)
  {
    PrefixSlice(a, b, n, off, off + 4);
  }

  lemma SameArch(a: Bytes, b: Bytes, n: nat, wide: bool, off: nat)
    requires n <= |a| && n <= |b| && a[..n] == b[..n] && off + ArchSize(wide) <= n
    ensures ReadArch(a, wide, off) == ReadArch(b, wide, off)
  {
    hide FromBE32, FromBE64;
    PrefixSlice(a, b, n, off, off + 4);
    PrefixSlice(a, b, n, off + 4, off + 8);
    if wide {
      PrefixSlice(a, b, n, off + 8, off + 16);
      PrefixSlice(a, b, n, off + 16, off + 24);
      PrefixSlice(a, b, n, off + 24, off + 28);
    } else {
      PrefixSlice(a, b, n, off + 8, off + 12);
      PrefixSlice(a, b, n, off + 12, off + 16);
      PrefixSlice(a, b, n, off + 16, off + 20);
    }
  }

  /** The table depends on its own bytes. */
  lemma {:induction false} SameTable(a: Bytes, b: Bytes, wide: bool, n: nat, m: nat)
    requires TableEnd(n, wide) <= m <= |a| && m <= |b| && a[..m] == b[..m]
    ensures FatArchs(a, wide, n) == FatArchs(b, wide, n)
  {
    hide ReadArch;
    if n > 0 {
      SpanNext(n - 1, ArchSize(wide));
      SameTable(a, b, wide, n - 1, m);
      SameArch(a, b, m, wide, 8 + Span(n - 1, ArchSize(wide)));
    }
  }

  lemma SameFat(a: Bytes, b: Bytes, m: nat)
    requires IsFat(a) && ReadBE32(a, 4) <= 20 && FatArchs(a, IsWide(a), ReadBE32(a, 4)).Success?
    requires TableEnd(ReadBE32(a, 4), IsWide(a)) <= m <= |a| && m <= |b| && a[..m] == b[..m]
    ensures IsFat(b) && IsWide(b) == IsWide(a) && ReadBE32(b, 4) == ReadBE32(a, 4)
    ensures FatArchs(b, IsWide(a), ReadBE32(a, 4)) == FatArchs(a, IsWide(a), ReadBE32(a, 4))
    ensures Archs(b) == Archs(a)
  {
    hide FromBE32, FatArchs, Span;
    SameWord(a, b, m, 0);
    SameWord(a, b, m, 4);
    SameTable(a, b, IsWide(a), ReadBE32(a, 4), m);
  }

  lemma FatParses(file: Bytes)
    requires IsFat(file) && ReadBE32(file, 4) <= 20 && FatArchs(file, IsWide(file), ReadBE32(file, 4)).Success?
    requires forall i :: 0 <= i < |Archs(file)| ==>
      ParseSlice(file, Archs(file)[i].offset, Archs(file)[i].size).Success?
    ensures ParseMachO(file).Success? && |ParseMachO(file).value.slices| == |Archs(file)|
    ensures forall i :: 0 <= i < |Archs(file)| ==>
      Success(ParseMachO(file).value.slices[i]) == ParseSlice(file, Archs(file)[i].offset, Archs(file)[i].size)
  {
    hide ParseSlice, FromBE32, FatArchs, FatSlices;
    FatSlicesAre(file, Archs(file));
  }

  // ---------------------------------------------------------------- the loop

  /** A slice signed on its own; itself when it cannot be signed. */
  ghost function SignedSelf(c: Crypto, t: Target, s: Bytes, now: nat): Bytes {
    if CanSign(c, t, s) then SignedThin(c, t, s, now) else s
  }

  /** The first `i` slices are signed, the later ones and everything outside the slices are as they were. */
  ghost predicate Progress(c: Crypto, t: Target, file: Bytes, archs: seq<FatArch>, i: nat, now: nat, r: Bytes) {
    && |r| == |file|
    && (forall j :: 0 <= j < |archs| && j < i ==>
          Sub(r, archs[j]) == SignedSelf(c, t, Sub(file, archs[j]), now + 3 * j))
    && (forall j :: 0 <= j < |archs| && i <= j ==> Sub(r, archs[j]) == Sub(file, archs[j]))
    && (forall k :: 0 <= k < |file| && (forall j :: 0 <= j < |archs| ==> !InSlice(archs[j], k)) ==> r[k] == file[k])
  }

  lemma SignedIsWellFormed(c: Crypto, t: Target, s: Bytes, now: nat)
    requires CanSign(c, t, s)
    ensures WellFormed(SignedThin(c, t, s, now))
  {
    var n := StampedSize(c, t, s, now);
    assert WellFormed(s) && CodeLimit(s) <= |s|;
    hide WellFormed, Ready, CodeLimit, FinalBlob, StampedSize, Spliced, CanSign, StartsStamped;
    SignedParts(c, t, s, now);
    StampedIsWellFormed(s, Aligned(s), n, SignedThin(c, t, s, now));
  }

  /** A well-formed slice parses wherever it lies. */
  lemma SubParses(file: Bytes, a: FatArch)
    requires a.offset + a.size <= |file| && WellFormed(Sub(file, a))
    ensures ParseSlice(file, a.offset, a.size) == Success(SliceAt(Parsed(Sub(file, a)), a.offset))
    ensures SliceAt(Parsed(Sub(file, a)), a.offset).offset == a.offset
    ensures SliceAt(Parsed(Sub(file, a)), a.offset).size == a.size
  {
    hide WellFormed, Parsed, ParseSlice;
    Cut(file, a.offset, a.size);
    SliceLocal(file[..a.offset], Sub(file, a), file[a.offset + a.size..]);
    Commands(Sub(file, a));
  }

  /** A signed slice has the length of the slice exactly when the signature fills the room it has. */
  lemma SizeIffExact(c: Crypto, t: Target, s: Bytes, now: nat)
    requires CanSign(c, t, s) && c.cmsMin == c.cmsMax
    ensures |SignedThin(c, t, s, now)| == |s| <==> Exact(c, t, s)
  {
    ConstantCmsNeedsNoRetry(c, t, s, now);
    hide CanSign, FinalBlob, StampedSize, CodeLimit, StampedCode, BlobSize;
  }

  /** A replacement of equal length is seen through its own window only. */
  lemma ReplaceFrame(r: Bytes, a: FatArch, b: FatArch, blob: Bytes)
    requires a.offset + a.size <= |r| && b.offset + b.size <= |r| && |blob| == a.size
    requires Disjoint(a, b)
    ensures Sub(Replace(r, a.offset, a.size, blob), b) == Sub(r, b)
  {
    var r' := Replace(r, a.offset, a.size, blob);
    assert r'[b.offset..b.offset + b.size] == r[b.offset..b.offset + b.size];
  }

  lemma ReplaceSelf(r: Bytes, a: FatArch, blob: Bytes)
    requires a.offset + a.size <= |r| && |blob| == a.size
    ensures Sub(Replace(r, a.offset, a.size, blob), a) == blob
    ensures forall k :: 0 <= k < |r| && !InSlice(a, k) ==> Replace(r, a.offset, a.size, blob)[k] == r[k]
  {
  }

  /** Signing slice `i` where it lies is one step of progress. */
  lemma ProgressStep(c: Crypto, t: Target, file: Bytes, archs: seq<FatArch>, i: nat, now: nat, r: Bytes, blob: Bytes)
    requires Placed(c, t, file, archs, IsWide(file)) && i < |archs|
    requires Progress(c, t, file, archs, i, now, r)
    requires blob == SignedSelf(c, t, Sub(file, archs[i]), now + 3 * i) && |blob| == archs[i].size
    ensures Progress(c, t, file, archs, i + 1, now, Replace(r, archs[i].offset, archs[i].size, blob))
  {
    hide SignedSelf, CanSign, Sub, Aligned, CodeLimit, BlobSize, Replace;
    var a := archs[i];
    var r' := Replace(r, a.offset, a.size, blob);
    ReplaceSelf(r, a, blob);
    forall j | 0 <= j < |archs| && j != i ensures Sub(r', archs[j]) == Sub(r, archs[j]) {
      assert j < i ==> Disjoint(archs[j], a);
      assert i < j ==> Disjoint(a, archs[j]);
      ReplaceFrame(r, a, archs[j], blob);
    }
    forall k | 0 <= k < |file| && (forall j :: 0 <= j < |archs| ==> !InSlice(archs[j], k)) ensures r'[k] == file[k] {
      assert !InSlice(a, k);
    }
  }

  /** Nothing before the first slice changes. */
  lemma TableStays(c: Crypto, t: Target, file: Bytes, i: nat, now: nat, r: Bytes)
    requires FatReady(c, t, file) && |Archs(file)| > 0 && Progress(c, t, file, Archs(file), i, now, r)
    ensures TableEnd(|Archs(file)|, IsWide(file)) <= |file| && |r| == |file|
    ensures r[..TableEnd(|Archs(file)|, IsWide(file))] == file[..TableEnd(|Archs(file)|, IsWide(file))]
  {
    hide Sub, Exact, Archs, Disjoint, TableEnd, SignedSelf;
    var m := TableEnd(|Archs(file)|, IsWide(file));
    assert m <= Archs(file)[0].offset;
    forall k | 0 <= k < m ensures r[k] == file[k] {
      assert forall j :: 0 <= j < |Archs(file)| ==> !InSlice(Archs(file)[j], k);
    }
  }

  /** The loop finds slice `i`: the file still parses, and the i-th slice is the i-th slice of the original file. */
  lemma ProgressParses(c: Crypto, t: Target, file: Bytes, i: nat, now: nat, r: Bytes) returns (b: Binary)
    requires FatReady(c, t, file) && i < |Archs(file)| && Progress(c, t, file, Archs(file), i, now, r)
    ensures ParseMachO(r) == Success(b) && |b.slices| == |Archs(file)|
    ensures Sub(r, Archs(file)[i]) == Sub(file, Archs(file)[i])
    ensures b.slices[i].offset == Archs(file)[i].offset && b.slices[i].size == Archs(file)[i].size
    ensures ParseSlice(r, b.slices[i].offset, b.slices[i].size) == Success(b.slices[i])
  {
    var archs := Archs(file);
    assert |archs| == ReadBE32(file, 4);
    hide FatArchs, Sub, SignedSelf, WellFormed, ParseSlice, ParseMachO, CanSign, TableEnd, Archs;
    TableStays(c, t, file, i, now, r);
    SameFat(file, r, TableEnd(|archs|, IsWide(file)));
    forall j | 0 <= j < |archs| ensures ParseSlice(r, archs[j].offset, archs[j].size).Success? {
      SliceStillParses(c, t, file, archs, i, now, r, j);
    }
    FatParses(r);
    SliceStillParses(c, t, file, archs, i, now, r, i);
    b := ParseMachO(r).value;
  }

  lemma SliceStillParses(c: Crypto, t: Target, file: Bytes, archs: seq<FatArch>, i: nat, now: nat, r: Bytes, j: nat)
    requires Placed(c, t, file, archs, IsWide(file)) && i <= |archs| && j < |archs|
    requires Progress(c, t, file, archs, i, now, r)
    ensures ParseSlice(r, archs[j].offset, archs[j].size).Success?
    ensures ParseSlice(r, archs[j].offset, archs[j].size).value.offset == archs[j].offset
    ensures ParseSlice(r, archs[j].offset, archs[j].size).value.size == archs[j].size
  {
    var a := archs[j];
    assert WellFormed(Sub(file, a)) && CanSign(c, t, Sub(file, a));
    hide Sub, SignedThin, WellFormed, ParseSlice, CanSign;
    SignedIsWellFormed(c, t, Sub(file, a), now + 3 * j);
    assert WellFormed(SignedSelf(c, t, Sub(file, a), now + 3 * j));
    hide SignedSelf;
    assert WellFormed(Sub(r, a));
    SubParses(r, a);
  }

  /** What the signer demands of a file: a slice that can be signed, or a fat file of them. */
  ghost predicate FileReady(c: Crypto, t: Target, file: Bytes) {
    if IsFat(file) then FatReady(c, t, file) else CanSign(c, t, file)
  }

  /** Where the loop is before slice `i`. */
  ghost predicate LoopAt(c: Crypto, t: Target, file: Bytes, i: nat, now: nat, r: Bytes) {
    if IsFat(file) then Progress(c, t, file, Archs(file), i, now, r)
    else r == if i == 0 then file else SignedSelf(c, t, file, now)
  }

  lemma ThinParses(file: Bytes)
    requires !IsFat(file) && ParseMachO(file).Success?
    ensures ParseMachO(file).value.slices == [Parsed(file)] && ParseSlice(file, 0, |file|) == Success(Parsed(file))
    ensures Parsed(file).offset == 0 && Parsed(file).size == |file|
  {
    hide ParseHeader, CommandsFrom, FromBE32;
  }

  lemma FatCount(c: Crypto, t: Target, file: Bytes)
    requires FatReady(c, t, file) && ParseMachO(file).Success?
    ensures |ParseMachO(file).value.slices| == |Archs(file)|
  {
    hide Placed, FatArchs, FatSlices, FromBE32;
  }

  /** The slice lies in `r`, parses there and can be signed there. */
  ghost predicate Found(c: Crypto, t: Target, r: Bytes, slice: Slice) {
    && slice.offset + slice.size <= |r| && ParseSlice(r, slice.offset, slice.size) == Success(slice)
    && CanSign(c, t, Range(r, slice.offset, slice.size))
  }

  /** `r` with the slice replaced by its signed self. */
  ghost function Signed(c: Crypto, t: Target, r: Bytes, slice: Slice, now: nat): Bytes {
    Replace(r, slice.offset, slice.size, SignedSelf(c, t, Range(r, slice.offset, slice.size), now))
  }

  /** Slice `i`, as the loop finds it. */
  lemma LoopFinds(c: Crypto, t: Target, file: Bytes, i: nat, now: nat, r: Bytes) returns (slice: Slice)
    requires FileReady(c, t, file) && ParseMachO(file).Success? && i < |ParseMachO(file).value.slices|
    requires LoopAt(c, t, file, i, now, r)
    ensures ParseMachO(r).Success? && i < |ParseMachO(r).value.slices| && ParseMachO(r).value.slices[i] == slice
    ensures Found(c, t, r, slice) && LoopAt(c, t, file, i + 1, now, Signed(c, t, r, slice, now + 3 * i))
  {
    hide ParseMachO, ParseSlice, CanSign, SignedSelf, Parsed, FatReady, Progress, Found, Signed, Archs, IsFat;
    if IsFat(file) {
      FatCount(c, t, file);
      var b := ProgressParses(c, t, file, i, now, r);
      slice := b.slices[i];
      FatFinds(c, t, file, Archs(file), i, now, r, slice);
    } else {
      ThinParses(file);
      slice := Parsed(file);
      ThinFinds(c, t, file, now);
    }
  }

  lemma ThinFinds(c: Crypto, t: Target, file: Bytes, now: nat)
    requires CanSign(c, t, file) && ParseSlice(file, 0, |file|) == Success(Parsed(file))
    requires Parsed(file).offset == 0 && Parsed(file).size == |file|
    ensures Found(c, t, file, Parsed(file)) && Signed(c, t, file, Parsed(file), now) == SignedSelf(c, t, file, now)
  {
    hide CanSign, ParseSlice, Parsed, SignedSelf;
    assert file[0..|file|] == file;
    assert file[..0] + SignedSelf(c, t, file, now) + file[|file|..] == SignedSelf(c, t, file, now);
  }

  lemma FatFinds(c: Crypto, t: Target, file: Bytes, archs: seq<FatArch>, i: nat, now: nat, r: Bytes, slice: Slice)
    requires FatReady(c, t, file) && archs == Archs(file) && i < |archs| && Progress(c, t, file, archs, i, now, r)
    requires slice.offset == archs[i].offset && slice.size == archs[i].size
    requires ParseSlice(r, slice.offset, slice.size) == Success(slice)
    ensures Found(c, t, r, slice) && Progress(c, t, file, archs, i + 1, now, Signed(c, t, r, slice, now + 3 * i))
  {
    var a := archs[i];
    assert Placed(c, t, file, archs, IsWide(file)) && c.cmsMin == c.cmsMax;
    assert Sub(r, a) == Sub(file, a) && Exact(c, t, Sub(file, a)) && a.offset + a.size <= |file| == |r|;
    hide Archs, CanSign, SignedThin, Progress, FatReady, Placed, Range, ParseSlice, Replace;
    SizeIffExact(c, t, Sub(file, a), now + 3 * i);
    ProgressStep(c, t, file, archs, i, now, r, SignedSelf(c, t, Sub(file, a), now + 3 * i));
  }

  /** The buffer after the first `i` rounds of the loop. */
  ghost function SignedUpTo(c: Crypto, t: Target, file: Bytes, i: nat, now: nat): Bytes {
    if i == 0 then file
    else
      var r := SignedUpTo(c, t, file, i - 1, now);
      match ParseMachO(r)
      case Failure => r
      case Success(b) => if i - 1 < |b.slices| then Signed(c, t, r, b.slices[i - 1], now + 3 * (i - 1)) else r
  }

  /** The file signMachOBinary writes, or its error. */
  ghost function SignedFile(c: Crypto, t: Target, file: Bytes, now: nat): Result<Bytes> {
    match ParseMachO(file)
    case Failure => Failure
    case Success(b) => Success(SignedUpTo(c, t, file, |b.slices|, now))
  }

  lemma {:induction false} SignedUpToLoops(c: Crypto, t: Target, file: Bytes, i: nat, now: nat)
    requires FileReady(c, t, file) && ParseMachO(file).Success? && i <= |ParseMachO(file).value.slices|
    ensures LoopAt(c, t, file, i, now, SignedUpTo(c, t, file, i, now))
  {
    hide FileReady, ParseMachO, LoopAt, Signed, Found;
    if i == 0 {
      LoopStart(c, t, file, now);
    } else {
      SignedUpToLoops(c, t, file, i - 1, now);
      var slice := LoopFinds(c, t, file, i - 1, now, SignedUpTo(c, t, file, i - 1, now));
    }
  }

  lemma UpToNext(c: Crypto, t: Target, file: Bytes, i: nat, now: nat, slice: Slice)
    requires ParseMachO(SignedUpTo(c, t, file, i, now)).Success?
    requires i < |ParseMachO(SignedUpTo(c, t, file, i, now)).value.slices|
    requires slice == ParseMachO(SignedUpTo(c, t, file, i, now)).value.slices[i]
    ensures SignedUpTo(c, t, file, i + 1, now) == Signed(c, t, SignedUpTo(c, t, file, i, now), slice, now + 3 * i)
    ensures SignedUpTo(c, t, file, 0, now) == file
  {
    hide ParseMachO, Signed;
  }

  lemma SignedFileIs(c: Crypto, t: Target, file: Bytes, now: nat)
    ensures SignedUpTo(c, t, file, 0, now) == file
    ensures ParseMachO(file).Failure? ==> SignedFile(c, t, file, now) == Failure
    ensures ParseMachO(file).Success? ==>
      SignedFile(c, t, file, now) == Success(SignedUpTo(c, t, file, |ParseMachO(file).value.slices|, now))
  {
    hide ParseMachO, Signed;
  }

  /** signMachOBinary. A file that does not parse is an error; otherwise every slice is replaced by its signed self and
      nothing else changes. */
  method SignMachOBinary(file: Bytes, c: Crypto, t: Target, now: nat) returns (r: Result<Bytes>)
    requires ParseMachO(file).Success? ==> FileReady(c, t, file)
    ensures ParseMachO(file).Failure? <==> r.Failure?
    ensures r.Success? ==> LoopAt(c, t, file, |ParseMachO(file).value.slices|, now, r.value)
    ensures r == SignedFile(c, t, file, now)
  {
    hide *;
    SignedFileIs(c, t, file, now);
    var macho := ParseMachO(file);
    if macho.Failure? {
      return Failure;
    }
    var resultBuffer := file;
    LoopStart(c, t, file, now);
    var i := 0;
    while i < |macho.value.slices|
      invariant 0 <= i <= |macho.value.slices|
      invariant i == 0 ==> resultBuffer == file
      invariant LoopAt(c, t, file, i, now, resultBuffer)
      invariant resultBuffer == SignedUpTo(c, t, file, i, now)
    {
      ghost var found := LoopFinds(c, t, file, i, now, resultBuffer);
      var current := if i == 0 then macho else ParseMachO(resultBuffer);
      var slice := current.value.slices[i];
      SignedIs(c, t, resultBuffer, slice, now + 3 * i);
      UpToNext(c, t, file, i, now, slice);
      resultBuffer := SignSlice(resultBuffer, slice, c, t, now + 3 * i);
      i := i + 1;
    }
    r := Success(resultBuffer);
  }

  lemma LoopStart(c: Crypto, t: Target, file: Bytes, now: nat)
    ensures LoopAt(c, t, file, 0, now, file)
  {
  }

  lemma SignedIs(c: Crypto, t: Target, r: Bytes, slice: Slice, now: nat)
    requires Found(c, t, r, slice)
    ensures slice.offset + slice.size <= |r| && ParseSlice(r, slice.offset, slice.size) == Success(slice)
    ensures CanSign(c, t, r[slice.offset..slice.offset + slice.size])
    ensures Signed(c, t, r, slice, now)
         == r[..slice.offset] + SignedThin(c, t, r[slice.offset..slice.offset + slice.size], now)
            + r[slice.offset + slice.size..]
  {
    hide CanSign, ParseSlice, SignedThin;
  }

  // ---------------------------------------------------------------- what the loop achieves

  /** The table survives the loop. */
  lemma StillFat(c: Crypto, t: Target, file: Bytes, now: nat, r: Bytes)
    requires FatReady(c, t, file) && Progress(c, t, file, Archs(file), |Archs(file)|, now, r)
    ensures IsFat(r) && Archs(r) == Archs(file)
  {
    var archs := Archs(file);
    assert |archs| == ReadBE32(file, 4);
    if archs == [] {
      assert r == file;
    } else {
      hide FatArchs, Sub, TableEnd, Archs, Placed, Progress;
      TableStays(c, t, file, |archs|, now, r);
      SameFat(file, r, TableEnd(|archs|, IsWide(file)));
    }
  }

  /** Every slice of a signed fat file passes the checker, at the place the untouched table gives. */
  lemma FatIsAccepted(c: Crypto, t: Target, file: Bytes, now: nat, r: Bytes, i: nat)
    requires FatReady(c, t, file) && LoopAt(c, t, file, |Archs(file)|, now, r) && i < |Archs(file)|
    ensures Archs(r) == Archs(file)
    ensures Accepts(c, BundleOf(t), Sub(r, Archs(r)[i]))
  {
    assert Placed(c, t, file, Archs(file), IsWide(file));
    hide Sub, Accepts, Archs, Placed, Progress;
    StillFat(c, t, file, now, r);
    ProgressAccepted(c, t, file, Archs(file), now, r, i);
  }

  lemma ProgressAccepted(c: Crypto, t: Target, file: Bytes, archs: seq<FatArch>, now: nat, r: Bytes, i: nat)
    requires Placed(c, t, file, archs, IsWide(file)) && c.cmsMin == c.cmsMax
    requires Progress(c, t, file, archs, |archs|, now, r) && i < |archs|
    ensures Accepts(c, BundleOf(t), Sub(r, archs[i]))
  {
    assert Sub(r, archs[i]) == SignedSelf(c, t, Sub(file, archs[i]), now + 3 * i) && Exact(c, t, Sub(file, archs[i]));
    hide Placed, Progress, Sub, Accepts, CanSign, SignedThin;
    SignThenVerifyConstantCms(c, t, Sub(file, archs[i]), now + 3 * i);
  }

  lemma NothingIsRejected(c: Crypto, b: Bundle)
    ensures !Accepts(c, b, [])
  {
    hide SignatureAccepted, LinkeditAccepted, CommandsFrom;
    assert ParseHeader([], 0) == Failure;
  }

  /** A slot that starts like the signed slice but has another length is rejected. */
  lemma SlotRejected(c: Crypto, t: Target, s: Bytes, now: nat, x: Bytes)
    requires CanSign(c, t, s) && c.cmsMin == c.cmsMax
    requires CodeLimit(s) <= |x| && x[..CodeLimit(s)] == StampedCode(s, StampedSize(c, t, s, now))
    requires |x| != |SignedThin(c, t, s, now)|
    ensures !Accepts(c, BundleOf(t), x)
  {
    var n := StampedSize(c, t, s, now);
    assert WellFormed(s) && CodeLimit(s) <= |s|;
    ConstantCmsNeedsNoRetry(c, t, s, now);
    hide CanSign, WellFormed, Ready, Parsed, CodeLimit, ParseSlice, FinalBlob, StampedSize, Stamped,
         SignatureAccepted, LinkeditAccepted, BlobSize;
    assert StartsStamped(s, Aligned(s), n, x);
    StampedParse(s, Aligned(s), n, x);
  }

  lemma StartOfSlot(file: Bytes, a: FatArch, signed: Bytes, k: nat)
    requires a.offset + a.size <= |file| && k <= a.size && k <= |signed|
    requires a.offset + a.size <= |Replace(file, a.offset, a.size, signed)|
    ensures Sub(Replace(file, a.offset, a.size, signed), a)[..k] == signed[..k]
  {
  }

  lemma SignedStart(c: Crypto, t: Target, s: Bytes, now: nat)
    requires CanSign(c, t, s)
    ensures CodeLimit(s) <= |s| && CodeLimit(s) <= |SignedThin(c, t, s, now)|
    ensures SignedThin(c, t, s, now)[..CodeLimit(s)] == StampedCode(s, StampedSize(c, t, s, now))
  {
    SignedParts(c, t, s, now);
    hide CanSign, CodeLimit, StampedCode, StampedSize, SignedThin;
  }

  lemma BeyondIsNothing(r: Bytes, a: FatArch)
    requires a.offset + a.size > |r|
    ensures Sub(r, a) == []
  {
  }

  /** One step on any fat file: slice `a` read at its place in the table, which the signer does not rewrite, passes the
      checker if and only if the padded code and the signature fill exactly the size the table states. */
  lemma SlotAcceptedIffExact(c: Crypto, t: Target, file: Bytes, a: FatArch, s: Bytes, now: nat)
    requires a.offset + a.size <= |file| && s == Sub(file, a) && CanSign(c, t, s) && c.cmsMin == c.cmsMax
    ensures
      var r := Replace(file, a.offset, a.size, SignedThin(c, t, s, now));
      Accepts(c, BundleOf(t), Sub(r, a)) <==> Exact(c, t, s)
  {
    var signed := SignedThin(c, t, s, now);
    var r := Replace(file, a.offset, a.size, signed);
    SizeIffExact(c, t, s, now);
    hide CanSign, Exact, Accepts, SignedThin, CodeLimit, StampedSize, StampedCode, BundleOf, Sub, Replace;
    SignedStart(c, t, s, now);
    if |signed| == |s| {
      ReplaceSelf(file, a, signed);
      SignThenVerifyConstantCms(c, t, s, now);
    } else if a.offset + a.size <= |r| {
      StartOfSlot(file, a, signed, CodeLimit(s));
      SlotRejected(c, t, s, now, Sub(r, a));
    } else {
      BeyondIsNothing(r, a);
      NothingIsRejected(c, BundleOf(t));
    }
  }
}
