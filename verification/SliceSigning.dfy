/** signSlice and the loops of signFramework and signDylib: two passes over the code of one slice, proved to act on
    the slice alone, wherever it lies in its file. */
module SliceSigning {
  import opened Wrappers
  import opened Bytes
  import opened MachO
  import opened SignatureBlob
  import opened TsSigner
  import opened Stamping

  function Aligned(s: Bytes): (n: nat)
    ensures CodeLimit(s) <= n < CodeLimit(s) + 16
  {
    CeilTo16(CodeLimit(s))
  }

  /** What the signer demands of a slice: well-formed commands, code inside the slice, and sizes that fit the fields
      they are written to for every length the CMS can have. */
  ghost predicate CanSign(c: Crypto, t: Target, s: Bytes) {
    && WellFormed(s) && CodeLimit(s) <= |s|
    && c.Valid() && BlobFits(t, CodeLimit(s), c.cmsMax)
    && forall n :: BlobSize(t, CodeLimit(s), c.cmsMin) <= n <= BlobSize(t, CodeLimit(s), c.cmsMax) ==>
         Ready(s, Aligned(s), n)
  }

  /** The code of the slice once it is stamped with signature size `n`. */
  function StampedCode(s: Bytes, n: nat): (code: Bytes)
    requires CodeLimit(s) <= |s|
    ensures |code| == CodeLimit(s)
  {
    Stamped(s, Aligned(s), n)[..CodeLimit(s)]
  }

  /** The first pass: a signature over the unstamped code, built for its length. */
  function Draft(c: Crypto, t: Target, s: Bytes, now: nat): (blob: Bytes)
    requires CanSign(c, t, s)
    ensures Ready(s, Aligned(s), |blob|)
    ensures |blob| == BlobSize(t, CodeLimit(s), CmsLength(c, t, s[..CodeLimit(s)], now))
  {
    SignatureBytes(c, t, s[..CodeLimit(s)], now)
  }

  /** A later pass: the signature over the code stamped with size `n`. */
  function Pass(c: Crypto, t: Target, s: Bytes, n: nat, now: nat): (blob: Bytes)
    requires CanSign(c, t, s)
    ensures Ready(s, Aligned(s), |blob|)
    ensures |blob| == BlobSize(t, CodeLimit(s), CmsLength(c, t, StampedCode(s, n), now))
  {
    SignatureBytes(c, t, StampedCode(s, n), now)
  }

  /** Stamped code, padding, signature. */
  function Spliced(s: Bytes, n: nat, blob: Bytes): (r: Bytes)
    requires CodeLimit(s) <= |s|
    ensures |r| == Aligned(s) + |blob|
  {
    StampedCode(s, n) + Zeros(Aligned(s) - CodeLimit(s)) + blob
  }

  /** The size stamped last: the draft's, or the second pass' where that differs. */
  function StampedSize(c: Crypto, t: Target, s: Bytes, now: nat): (n: nat)
    requires CanSign(c, t, s)
    ensures Ready(s, Aligned(s), n)
  {
    if |Second(c, t, s, now)| == |Draft(c, t, s, now)| then |Draft(c, t, s, now)| else |Second(c, t, s, now)|
  }

  /** The signature that ends up in the file. */
  function FinalBlob(c: Crypto, t: Target, s: Bytes, now: nat): Bytes
    requires CanSign(c, t, s)
  {
    if |Second(c, t, s, now)| == |Draft(c, t, s, now)| then Second(c, t, s, now)
    else Pass(c, t, s, |Second(c, t, s, now)|, now + 2)
  }

  /** A slice signed as if it were a file of its own. */
  function SignedThin(c: Crypto, t: Target, s: Bytes, now: nat): Bytes
    requires CanSign(c, t, s)
  {
    Spliced(s, StampedSize(c, t, s, now), FinalBlob(c, t, s, now))
  }

  /** The second pass. */
  function Second(c: Crypto, t: Target, s: Bytes, now: nat): Bytes
    requires CanSign(c, t, s)
  {
    Pass(c, t, s, |Draft(c, t, s, now)|, now + 1)
  }

  /** Two-pass fixpoint: with a CMS of constant length every pass has the draft's length, so the retry never happens
      and the stamped size is the final one. */
  lemma ConstantCmsNeedsNoRetry(c: Crypto, t: Target, s: Bytes, now: nat)
    requires CanSign(c, t, s) && c.cmsMin == c.cmsMax
    ensures |Second(c, t, s, now)| == |Draft(c, t, s, now)|
    ensures StampedSize(c, t, s, now) == |FinalBlob(c, t, s, now)| == BlobSize(t, CodeLimit(s), c.cmsMax)
  {
    assert CmsLength(c, t, s[..CodeLimit(s)], now) == c.cmsMax;
    hide CanSign, WellFormed, Ready, BlobSize, BlobFits, Draft, Pass, CodeLimit, StampedCode;
  }

  // ---------------------------------------------------------------- a slice inside a file

  function SliceAt(slice: Slice, d: nat): Slice {
    slice.(loadCommands := Shift(slice.loadCommands, d),
           codeSignature := (match slice.codeSignature
                             case None => None
                             case Some(sig) => Some(sig.(loadCommandOffset := sig.loadCommandOffset + d))),
           offset := slice.offset + d)
  }

  lemma Within(pre: Bytes, s: Bytes, post: Bytes, off: nat, len: nat)
    requires off + len <= |s|
    ensures SameAt(s, pre + s + post, |pre|, off, len)
  {
    assert (pre + s + post)[off + |pre|..off + |pre| + len] == s[off..off + len];
  }

  /** Parsing a slice inside a file finds what parsing it alone finds, shifted. */
  lemma SliceLocal(pre: Bytes, s: Bytes, post: Bytes)
    requires WellFormed(s)
    ensures ParseSlice(pre + s + post, |pre|, |s|) == Success(SliceAt(Parsed(s), |pre|))
  {
    var file, d := pre + s + post, |pre|;
    var slice := Parsed(s);
    hide WellFormed, Parsed, ParseHeader, CommandsFrom, FirstCommand, SameAt, ReadU32;
    Commands(s);
    var lc := SignatureIsCommand(s);
    Within(pre, s, post, 0, slice.header.headerSize);
    HeaderMoves(s, file, d, 0);
    forall i | 0 <= i < |slice.loadCommands|
      ensures slice.loadCommands[i].offset + slice.loadCommands[i].cmdsize <= |s|
      ensures SameAt(s, file, d, slice.loadCommands[i].offset, 8)
    {
      assert slice.loadCommands[i] in slice.loadCommands;
      Apart(s, slice.loadCommands[i], slice.loadCommands[i]);
      Within(pre, s, post, slice.loadCommands[i].offset, 8);
    }
    CommandsMove(s, file, d, false, slice.header.ncmds, slice.header.headerSize, |s|);
    FirstCommandMoves(slice.loadCommands, LC_CODE_SIGNATURE, d);
    Within(pre, s, post, lc.offset, 16);
    SameRead(s, file, d, lc.offset, 16, 8, false);
    SameRead(s, file, d, lc.offset, 16, 12, false);
    SignatureRead(s, lc);
  }

  lemma SignatureRead(s: Bytes, lc: LoadCommand)
    requires WellFormed(s) && lc.offset + 16 <= |s|
    requires FirstCommand(Parsed(s).loadCommands, LC_CODE_SIGNATURE) == Some(lc)
    ensures Parsed(s).codeSignature
         == Some(CodeSignature(ReadU32(s, lc.offset + 8, false), ReadU32(s, lc.offset + 12, false), lc.offset))
  {
    hide ReadU32, ParseHeader, CommandsFrom, FirstCommand, LinkeditCommand;
  }

  lemma SignatureStampLocal(pre: Bytes, s: Bytes, post: Bytes, so: u32, ss: u32)
    requires WellFormed(s)
    ensures SignatureCommand(s) + 16 <= |s| && Parsed(s).codeSignature.Some?
    ensures StampSignature(pre + s + post, SliceAt(Parsed(s), |pre|), so, ss)
         == pre + StampSignature(s, Parsed(s), so, ss) + post
  {
    hide WellFormed, Parsed, Put, LE32, FirstCommand;
    var lc := SignatureIsCommand(s);
    PutInside(pre, s, post, lc.offset + 8, LE32(so));
    PutInside(pre, Put(s, lc.offset + 8, LE32(so)), post, lc.offset + 12, LE32(ss));
  }

  lemma LinkeditStampLocal(pre: Bytes, b: Bytes, post: Bytes, is64: bool, l: Linkedit, end: nat)
    requires LinkeditWritable(b, is64, l, end)
    ensures LinkeditWritable(pre + b + post, is64, l.(loadCommandOffset := l.loadCommandOffset + |pre|), end)
    ensures StampLinkedit(pre + b + post, is64, l.(loadCommandOffset := l.loadCommandOffset + |pre|), end)
         == pre + StampLinkedit(b, is64, l, end) + post
  {
    hide Put, LE32, LE64, CeilToPage;
    var off, fs := l.loadCommandOffset, end - l.fileoff;
    if is64 {
      PutInside(pre, b, post, off + 40, LE64(CeilToPage(fs, true)));
      PutInside(pre, Put(b, off + 40, LE64(CeilToPage(fs, true))), post, off + 56, LE64(fs));
    } else {
      PutInside(pre, b, post, off + 28, LE32(CeilToPage(fs, false)));
      PutInside(pre, Put(b, off + 28, LE32(CeilToPage(fs, false))), post, off + 36, LE32(fs));
    }
  }

  lemma NamesInFile(pre: Bytes, s: Bytes, post: Bytes, so: nat, ss: nat, k: LoadCommand)
    requires WellFormed(s) && k in Parsed(s).loadCommands && IsSegment(k)
    ensures SameAt(s, pre + AfterSignature(s, so, ss) + post, |pre|, k.offset + 8, 16)
  {
    hide WellFormed, Parsed, AfterSignature, LinkeditCommand, FirstCommand;
    CommandHeadUntouched(s, k);
    AfterSignatureFrame(s, so, ss, k.offset + 8, k.offset + 24);
    Within(pre, AfterSignature(s, so, ss), post, k.offset + 8, 16);
  }

  lemma FieldsInFile(pre: Bytes, s: Bytes, post: Bytes, so: nat, ss: nat, le: LoadCommand)
    requires WellFormed(s) && LinkeditCommand(s) == Some(le)
    ensures SameAt(s, pre + AfterSignature(s, so, ss) + post, |pre|, le.offset + 24, LinkeditWidth(Is64(s)) - 24)
  {
    hide WellFormed, Parsed, AfterSignature, LinkeditCommand, FirstCommand;
    SignatureApartFromLinkedit(s);
    var le' := LinkeditIsCommand(s);
    AfterSignatureFrame(s, so, ss, le.offset + 24, le.offset + LinkeditWidth(Is64(s)));
    Within(pre, AfterSignature(s, so, ss), post, le.offset + 24, LinkeditWidth(Is64(s)) - 24);
  }

  lemma LinkeditInFile(pre: Bytes, s: Bytes, post: Bytes, so: nat, ss: nat)
    requires WellFormed(s)
    ensures FindLinkedit(SliceAt(Parsed(s), |pre|), pre + AfterSignature(s, so, ss) + post)
         == Success(match LinkeditOf(s) case None => None
                    case Some(l) => Some(l.(loadCommandOffset := l.loadCommandOffset + |pre|)))
  {
    hide WellFormed, Parsed, AfterSignature, LinkeditCommand, FirstCommand, SameAt, FindLinkedit, LinkeditOf;
    Commands(s);
    var b := pre + AfterSignature(s, so, ss) + post;
    forall k | k in Parsed(s).loadCommands && IsSegment(k) ensures SameAt(s, b, |pre|, k.offset + 8, 16) {
      NamesInFile(pre, s, post, so, ss, k);
    }
    if LinkeditCommand(s).Some? {
      FieldsInFile(pre, s, post, so, ss, LinkeditCommand(s).value);
    }
    LinkeditMoves(s, b, |pre|, SliceAt(Parsed(s), |pre|));
  }

  /** Stamping a slice inside a file stamps the slice and nothing else. */
  lemma StampLocal(pre: Bytes, s: Bytes, post: Bytes, so: nat, ss: nat)
    requires WellFormed(s) && Ready(s, so, ss)
    ensures Stampable(pre + s + post, SliceAt(Parsed(s), |pre|), so, ss)
    ensures Stamp(pre + s + post, SliceAt(Parsed(s), |pre|), so, ss) == pre + Stamped(s, so, ss) + post
  {
    hide WellFormed, Parsed, StampSignature, StampLinkedit, Stamped, FindLinkedit, LinkeditOf, CeilToPage,
         FirstCommand;
    var lc := SignatureIsCommand(s);
    SignatureStampLocal(pre, s, post, so, ss);
    assert AfterSignature(s, so, ss) == StampSignature(s, Parsed(s), so, ss);
    LinkeditInFile(pre, s, post, so, ss);
    StampIs(s, so, ss);
    if LinkeditOf(s).Some? {
      LinkeditStampLocal(pre, AfterSignature(s, so, ss), post, Is64(s), LinkeditOf(s).value, so + ss);
    }
  }

  lemma RestampLocal(pre: Bytes, s: Bytes, post: Bytes, so: nat, n: nat, m: nat)
    requires WellFormed(s) && CodeLimit(s) <= |s| && CodeLimit(s) <= so && Ready(s, so, n) && Ready(s, so, m)
    ensures Stampable(pre + Stamped(s, so, n) + post, SliceAt(Parsed(s), |pre|), so, m)
    ensures Stamp(pre + Stamped(s, so, n) + post, SliceAt(Parsed(s), |pre|), so, m) == pre + Stamped(s, so, m) + post
  {
    hide WellFormed, Ready, Stamped, ParseSlice, LinkeditCommand, FirstCommand;
    var b := Stamped(s, so, n);
    var lc := SignatureIsCommand(s);
    RestampIsStamp(s, so, n, m);
    SelfStamped(s, so, n);
    StampedParse(s, so, n, b);
    StampLocal(pre, b, post, so, m);
    hide Stampable, Stamp;
    StampBySlice(pre + b + post, SliceAt(Parsed(b), |pre|), SliceAt(Parsed(s), |pre|), so, m);
  }

  // ---------------------------------------------------------------- the method

  lemma Cut(file: Bytes, off: nat, size: nat)
    requires off + size <= |file|
    ensures file == file[..off] + file[off..off + size] + file[off + size..]
  {
  }

  lemma CodeOf(pre: Bytes, s: Bytes, post: Bytes, n: nat)
    requires n <= |s|
    ensures (pre + s + post)[|pre|..|pre| + n] == s[..n]
    ensures (pre + s + post)[..|pre| + n] == pre + s[..n]
    ensures (pre + s + post)[|pre| + |s|..] == post
  {
  }

  function AssembleSignedBinary(stamped: Bytes, slice: Slice, signatureBlob: Bytes): Bytes
    requires slice.offset + GetExecutableSize(slice) <= |stamped| && slice.offset + slice.size <= |stamped|
  {
    var codeLimit := GetExecutableSize(slice);
    var alignedOffset := CeilTo16(codeLimit);
    stamped[..slice.offset + codeLimit] + Zeros(alignedOffset - codeLimit) + signatureBlob
    + stamped[slice.offset + slice.size..]
  }

  lemma Assembly(pre: Bytes, s: Bytes, post: Bytes, slice: Slice, n: nat, blob: Bytes)
    requires CodeLimit(s) <= |s|
    requires slice.offset == |pre| && slice.size == |s| && GetExecutableSize(slice) == CodeLimit(s)
    ensures AssembleSignedBinary(pre + Stamped(s, Aligned(s), n) + post, slice, blob)
         == pre + Spliced(s, n, blob) + post
  {
    hide Stamped, CodeLimit, GetExecutableSize, Zeros;
    var b := Stamped(s, Aligned(s), n);
    CodeOf(pre, b, post, CodeLimit(s));
    var z := Zeros(Aligned(s) - CodeLimit(s));
    assert pre + b[..CodeLimit(s)] + z + blob + post == pre + (b[..CodeLimit(s)] + z + blob) + post;
  }

  /** A signature over the code of the slice `s` standing in the buffer `buf`. */
  method SignRegion(buf: Bytes, offset: nat, codeLimit: nat, c: Crypto, t: Target, now: nat,
                    ghost pre: Bytes, ghost s: Bytes, ghost post: Bytes) returns (blob: Bytes)
    requires buf == pre + s + post && offset == |pre| && codeLimit <= |s|
    requires c.Valid() && BlobFits(t, codeLimit, c.cmsMax)
    ensures blob == SignatureBytes(c, t, s[..codeLimit], now)
  {
    hide *;
    CodeOf(pre, s, post, codeLimit);
    blob := BuildSignatureBlob(c, t, buf[offset..offset + codeLimit], now);
  }

  lemma SlicePlace(file: Bytes, slice: Slice)
    requires slice.offset + slice.size <= |file|
    requires ParseSlice(file, slice.offset, slice.size) == Success(slice)
    requires WellFormed(file[slice.offset..slice.offset + slice.size])
    ensures slice == SliceAt(Parsed(file[slice.offset..slice.offset + slice.size]), slice.offset)
    ensures GetExecutableSize(slice) == CodeLimit(file[slice.offset..slice.offset + slice.size])
  {
    hide WellFormed, Parsed, ParseSlice;
    var end := slice.offset + slice.size;
    var pre, s, post := file[..slice.offset], file[slice.offset..end], file[end..];
    Cut(file, slice.offset, slice.size);
    SliceLocal(pre, s, post);
    var lc := SignatureIsCommand(s);
  }

  method Copy(file: Bytes) returns (buf: array<byte>)
    ensures fresh(buf) && buf[..] == file
  {
    buf := new byte[|file|](i requires 0 <= i < |file| => file[i]);
  }

  /** Pass 2, and the retry for a signature whose length changed. */
  method SecondPass(stamped: array<byte>, slice: Slice, draftSize: nat, c: Crypto, t: Target, now: nat,
                    ghost pre: Bytes, ghost s: Bytes, ghost post: Bytes) returns (finalBlob: Bytes)
    requires CanSign(c, t, s) && draftSize == |Draft(c, t, s, now)|
    requires slice == SliceAt(Parsed(s), |pre|) && GetExecutableSize(slice) == CodeLimit(s) && slice.offset == |pre|
    requires stamped[..] == pre + Stamped(s, Aligned(s), draftSize) + post
    modifies stamped
    ensures finalBlob == FinalBlob(c, t, s, now)
    ensures stamped[..] == pre + Stamped(s, Aligned(s), StampedSize(c, t, s, now)) + post
  {
    assert CodeLimit(s) <= |s| && c.Valid() && BlobFits(t, CodeLimit(s), c.cmsMax) && WellFormed(s);
    hide WellFormed, Ready, CanSign, Stamped, Parsed, Stamp, Stampable, SignatureBytes, BlobFits, CodeLimit,
         GetExecutableSize, SliceAt, BlobSize;
    var codeLimit := GetExecutableSize(slice);
    ghost var s1 := Stamped(s, Aligned(s), draftSize);
    finalBlob := SignRegion(stamped[..], slice.offset, codeLimit, c, t, now + 1, pre, s1, post);
    assert finalBlob == Second(c, t, s, now);
    if |finalBlob| != draftSize {
      RestampLocal(pre, s, post, Aligned(s), draftSize, |finalBlob|);
      StampSignatureMetadata(stamped, slice, CeilTo16(codeLimit), |finalBlob|);
      ghost var s2 := Stamped(s, Aligned(s), |finalBlob|);
      finalBlob := SignRegion(stamped[..], slice.offset, codeLimit, c, t, now + 2, pre, s2, post);
    }
  }

  /** Signing a slice replaces the slice by its signed self: the bytes before it stay, the bytes after it move by
      the change in length, and the slice's own bytes are signed as if they were the whole file. */
  method SignSlice(file: Bytes, slice: Slice, c: Crypto, t: Target, now: nat) returns (r: Bytes)
    requires slice.offset + slice.size <= |file|
    requires CanSign(c, t, file[slice.offset..slice.offset + slice.size])
    requires ParseSlice(file, slice.offset, slice.size) == Success(slice)
    ensures r == file[..slice.offset]
               + SignedThin(c, t, file[slice.offset..slice.offset + slice.size], now)
               + file[slice.offset + slice.size..]
  {
    ghost var pre, post := file[..slice.offset], file[slice.offset + slice.size..];
    ghost var s := file[slice.offset..slice.offset + slice.size];
    assert CodeLimit(s) <= |s| && c.Valid() && BlobFits(t, CodeLimit(s), c.cmsMax) && WellFormed(s);
    hide WellFormed, Ready, CanSign, Stamped, Parsed, Stamp, Stampable, SignatureBytes, BlobFits, ParseSlice,
         CodeLimit, GetExecutableSize, Spliced, AssembleSignedBinary, SliceAt, BlobSize, StampedSize, FinalBlob;
    Cut(file, slice.offset, slice.size);
    SlicePlace(file, slice);
    var codeLimit := GetExecutableSize(slice);
    var alignedOffset := CeilTo16(codeLimit);
    var draftBlob := SignRegion(file, slice.offset, codeLimit, c, t, now, pre, s, post);
    assert draftBlob == Draft(c, t, s, now);
    var stamped := Copy(file);
    StampLocal(pre, s, post, alignedOffset, |draftBlob|);
    StampSignatureMetadata(stamped, slice, alignedOffset, |draftBlob|);
    var finalBlob := SecondPass(stamped, slice, |draftBlob|, c, t, now, pre, s, post);
    Assembly(pre, s, post, slice, StampedSize(c, t, s, now), finalBlob);
    r := AssembleSignedBinary(stamped[..], slice, finalBlob);
  }
}
