/** The two laws of the signer: what it signs passes the checker, and signing a signed file again changes nothing. */
module SignVerify {
  import opened Wrappers
  import opened Bytes
  import opened CodeSign
  import opened MachO
  import opened SignatureBlob
  import opened TsSigner
  import opened Stamping
  import opened SliceSigning
  import opened Checker

  lemma CanSignParts(c: Crypto, t: Target, s: Bytes)
    requires CanSign(c, t, s)
    ensures c.Valid() && BlobFits(t, CodeLimit(s), c.cmsMax) && CodeLimit(s) <= |s| && WellFormed(s)
  {
  }

  /** The signature that ends up in the file is over the code as it is stamped last. */
  lemma FinalIsOverStamped(c: Crypto, t: Target, s: Bytes, now: nat) returns (tick: nat)
    requires CanSign(c, t, s)
    ensures FinalBlob(c, t, s, now) == Pass(c, t, s, StampedSize(c, t, s, now), tick)
  {
    hide CanSign, Pass, Draft;
    tick := if |Second(c, t, s, now)| == |Draft(c, t, s, now)| then now + 1 else now + 2;
  }

  lemma SplicedParts(s: Bytes, n: nat, blob: Bytes)
    requires CodeLimit(s) <= |s|
    ensures StartsStamped(s, Aligned(s), n, Spliced(s, n, blob))
    ensures Spliced(s, n, blob)[..CodeLimit(s)] == StampedCode(s, n)
    ensures Spliced(s, n, blob)[Aligned(s)..] == blob
    ensures CodeReaches(Spliced(s, n, blob), CodeLimit(s), Aligned(s))
  {
    hide CodeLimit, Stamped;
  }

  /** The sizes at the end of signSlice agree when the second pass had the draft's length, or the third the second's. */
  ghost predicate SizesAgree(c: Crypto, t: Target, s: Bytes, now: nat)
    requires CanSign(c, t, s)
  {
    || |Second(c, t, s, now)| == |Draft(c, t, s, now)|
    || |Pass(c, t, s, |Second(c, t, s, now)|, now + 2)| == |Second(c, t, s, now)|
  }

  lemma AgreeMeansStamped(c: Crypto, t: Target, s: Bytes, now: nat)
    requires CanSign(c, t, s)
    ensures SizesAgree(c, t, s, now) <==> |FinalBlob(c, t, s, now)| == StampedSize(c, t, s, now)
  {
    hide CanSign, Pass, Draft;
  }

  lemma SplicedLinkedit(s: Bytes, n: nat, r: Bytes)
    requires WellFormed(s) && Ready(s, Aligned(s), n) && StartsStamped(s, Aligned(s), n, r)
    ensures LinkeditAccepted(r, Parsed(r), Aligned(s) + n)
  {
    hide WellFormed, Ready, Parsed, ParseSlice, StartsStamped, LinkeditOf, LinkeditCommand, FindLinkedit, CeilToPage,
         CodeLimit;
    StampedParse(s, Aligned(s), n, r);
    StampedParseLinkedit(s, Aligned(s), n, r);
  }

  /** The signed slice is the stamped code, padded, and the signature. */
  lemma SignedParts(c: Crypto, t: Target, s: Bytes, now: nat)
    requires CanSign(c, t, s)
    ensures CodeLimit(s) <= |s| && |SignedThin(c, t, s, now)| == Aligned(s) + |FinalBlob(c, t, s, now)|
    ensures SignedThin(c, t, s, now)[Aligned(s)..] == FinalBlob(c, t, s, now)
    ensures SignedThin(c, t, s, now)[..CodeLimit(s)] == StampedCode(s, StampedSize(c, t, s, now))
    ensures StartsStamped(s, Aligned(s), StampedSize(c, t, s, now), SignedThin(c, t, s, now))
    ensures CodeReaches(SignedThin(c, t, s, now), CodeLimit(s), Aligned(s))
  {
    hide WellFormed, CodeLimit, Stamped, FinalBlob, StampedSize, Spliced, StampedCode, StartsStamped, CodeReaches;
    SplicedParts(s, StampedSize(c, t, s, now), FinalBlob(c, t, s, now));
  }

  /** Its load commands tell where the signature starts and the size stamped last. */
  lemma SignedParse(c: Crypto, t: Target, s: Bytes, now: nat, r: Bytes)
    requires CanSign(c, t, s) && r == SignedThin(c, t, s, now)
    ensures ParseSlice(r, 0, |r|) == Success(Parsed(r))
    ensures Parsed(r).codeSignature == Some(CodeSignature(Aligned(s), StampedSize(c, t, s, now), SignatureCommand(s)))
  {
    assert WellFormed(s);
    hide CanSign, WellFormed, Ready, Parsed, CodeLimit, StartsStamped, ParseSlice, SignedThin, StampedSize;
    SignedParts(c, t, s, now);
    StampedParse(s, Aligned(s), StampedSize(c, t, s, now), r);
  }

  lemma SignedLinkedit(c: Crypto, t: Target, s: Bytes, now: nat, r: Bytes)
    requires CanSign(c, t, s) && r == SignedThin(c, t, s, now)
    ensures LinkeditAccepted(r, Parsed(r), Aligned(s) + StampedSize(c, t, s, now))
  {
    assert WellFormed(s);
    hide CanSign, WellFormed, Ready, Parsed, CodeLimit, StartsStamped, LinkeditAccepted, SignedThin, StampedSize;
    SignedParts(c, t, s, now);
    SplicedLinkedit(s, StampedSize(c, t, s, now), r);
  }

  lemma SignedSignature(c: Crypto, t: Target, s: Bytes, now: nat)
    requires CanSign(c, t, s)
    ensures SignatureAccepted(c, BundleOf(t), SignedThin(c, t, s, now), Aligned(s), FinalBlob(c, t, s, now))
  {
    var r, n := SignedThin(c, t, s, now), StampedSize(c, t, s, now);
    SignedParts(c, t, s, now);
    var tick := FinalIsOverStamped(c, t, s, now);
    assert c.Valid() && BlobFits(t, CodeLimit(s), c.cmsMax) && CodeLimit(s) <= |s|;
    assert FinalBlob(c, t, s, now) == SignatureBytes(c, t, StampedCode(s, n), tick);
    hide *;
    BuiltSignatureAccepted(c, t, StampedCode(s, n), tick, r, Aligned(s));
  }

  /** Sign, then verify: the signed slice passes the checker if and only if the last two signature lengths agree. */
  lemma SignThenVerify(c: Crypto, t: Target, s: Bytes, now: nat)
    requires CanSign(c, t, s)
    ensures Accepts(c, BundleOf(t), SignedThin(c, t, s, now)) <==> SizesAgree(c, t, s, now)
  {
    hide CanSign, Parsed, ParseSlice, LinkeditAccepted, SignatureAccepted, SignedThin, FinalBlob, StampedSize,
         SizesAgree, BundleOf, CodeLimit, StampedCode;
    SignedParts(c, t, s, now);
    SignedParse(c, t, s, now, SignedThin(c, t, s, now));
    SignedLinkedit(c, t, s, now, SignedThin(c, t, s, now));
    SignedSignature(c, t, s, now);
    AgreeMeansStamped(c, t, s, now);
  }

  /** With a CMS of constant length every signed slice passes. */
  lemma SignThenVerifyConstantCms(c: Crypto, t: Target, s: Bytes, now: nat)
    requires CanSign(c, t, s) && c.cmsMin == c.cmsMax
    ensures Accepts(c, BundleOf(t), SignedThin(c, t, s, now))
  {
    SignThenVerify(c, t, s, now);
    ConstantCmsNeedsNoRetry(c, t, s, now);
    hide CanSign, Accepts, SignedThin, Pass, Draft, Second;
  }

  // ---------------------------------------------------------------- what the retry is for

  /** The length of a CMS depends on the signing time it contains, not on what it signs. */
  ghost predicate LengthByTime(c: Crypto) {
    forall now: nat, x: Bytes, y: Bytes :: |c.cms(now, x)| == |c.cms(now, y)|
  }

  function LengthAt(c: Crypto, now: nat): nat {
    |c.cms(now, [])|
  }

  lemma CmsLengthIs(c: Crypto, t: Target, code: Bytes, now: nat)
    requires c.Valid() && BlobFits(t, |code|, c.cmsMax) && LengthByTime(c)
    ensures CmsLength(c, t, code, now) == LengthAt(c, now)
  {
    assert |code| < U32;
    FitsParts(t, |code|, c.cmsMax, c.cmsMax);
    hide Cd, BlobFits, CdSize;
  }

  lemma SizeTellsLength(t: Target, codeLimit: nat, a: nat, b: nat)
    ensures BlobSize(t, codeLimit, a) == BlobSize(t, codeLimit, b) <==> a == b
  {
    hide CdSize;
  }

  lemma PassLengths(c: Crypto, t: Target, s: Bytes, now: nat)
    requires CanSign(c, t, s) && LengthByTime(c)
    ensures |Draft(c, t, s, now)| == BlobSize(t, CodeLimit(s), LengthAt(c, now))
    ensures |Second(c, t, s, now)| == BlobSize(t, CodeLimit(s), LengthAt(c, now + 1))
    ensures |Pass(c, t, s, |Second(c, t, s, now)|, now + 2)| == BlobSize(t, CodeLimit(s), LengthAt(c, now + 2))
  {
    CanSignParts(c, t, s);
    hide CanSign, BlobFits, BlobSize, Crypto.Valid, LengthByTime, LengthAt, CmsLength, StampedCode, CodeLimit,
         SignatureBytes, Draft, Pass;
    CmsLengthIs(c, t, s[..CodeLimit(s)], now);
    CmsLengthIs(c, t, StampedCode(s, |Draft(c, t, s, now)|), now + 1);
    CmsLengthIs(c, t, StampedCode(s, |Second(c, t, s, now)|), now + 2);
  }

  /** One retry is enough exactly when the length does not change twice in a row over the three signing times. */
  lemma OneRetrySufficesIff(c: Crypto, t: Target, s: Bytes, now: nat)
    requires CanSign(c, t, s) && LengthByTime(c)
    ensures SizesAgree(c, t, s, now)
       <==> LengthAt(c, now + 1) == LengthAt(c, now) || LengthAt(c, now + 2) == LengthAt(c, now + 1)
  {
    hide CanSign, LengthByTime, LengthAt, BlobSize, Draft, Second, Pass, CodeLimit;
    PassLengths(c, t, s, now);
    SizeTellsLength(t, CodeLimit(s), LengthAt(c, now + 1), LengthAt(c, now));
    SizeTellsLength(t, CodeLimit(s), LengthAt(c, now + 2), LengthAt(c, now + 1));
  }

  /** The signing time is encoded in one of two ways, the other one from some time on; nothing else in the CMS of a key
      varies in length. */
  ghost predicate ReencodedFrom(c: Crypto, change: nat) {
    forall now: nat, cd: Bytes :: |c.cms(now, cd)| == if now < change then c.cmsMin else c.cmsMax
  }

  /** A change of the time encoding, wherever it falls, is absorbed by the retry: the signed slice is accepted. */
  lemma SignThenVerifyReencoded(c: Crypto, t: Target, s: Bytes, now: nat, change: nat)
    requires CanSign(c, t, s) && ReencodedFrom(c, change)
    ensures Accepts(c, BundleOf(t), SignedThin(c, t, s, now))
  {
    assert LengthByTime(c);
    assert LengthAt(c, now + 1) == LengthAt(c, now) || LengthAt(c, now + 2) == LengthAt(c, now + 1);
    hide CanSign, LengthByTime, LengthAt, Accepts, SignedThin, SizesAgree, ReencodedFrom, BundleOf;
    OneRetrySufficesIff(c, t, s, now);
    SignThenVerify(c, t, s, now);
  }

  // ---------------------------------------------------------------- what signing leaves alone

  /** Byte `i` is one that signing may set: dataoff or datasize of LC_CODE_SIGNATURE, vmsize or filesize of
      __LINKEDIT. */
  predicate MaySet(s: Bytes, i: nat) {
    || SignatureCommand(s) + 8 <= i < SignatureCommand(s) + 16
    || (LinkeditCommand(s).Some?
        && var off := LinkeditCommand(s).value.offset;
           if Is64(s) then off + 40 <= i < off + 48 || off + 56 <= i < off + 64
           else off + 28 <= i < off + 32 || off + 36 <= i < off + 40)
  }

  lemma CodeEnds(s: Bytes)
    requires WellFormed(s)
    ensures CodeLimit(s) == SignatureOffset(s)
  {
    hide ParseSlice, LinkeditCommand, FirstCommand;
  }

  /** Signing keeps the program: every byte before the old signature is the original one, but for those fields. */
  lemma SigningKeepsTheCode(c: Crypto, t: Target, s: Bytes, now: nat, i: nat)
    requires CanSign(c, t, s) && i < SignatureOffset(s) && !MaySet(s, i)
    ensures i < |s| && i < |SignedThin(c, t, s, now)| && SignedThin(c, t, s, now)[i] == s[i]
  {
    CanSignParts(c, t, s);
    CodeEnds(s);
    hide SignatureOffset, WellFormed, Ready, CodeLimit, Stamped, FinalBlob, StampedSize, BlobSize, BlobFits, Spliced,
         InField, MaySet, LinkeditCommand, SignatureCommand, Is64;
    var n := StampedSize(c, t, s, now);
    var r := SignedThin(c, t, s, now);
    SplicedParts(s, n, FinalBlob(c, t, s, now));
    FieldsAre(s, i);
    StampedOutside(s, Aligned(s), n, i);
    assert r[i] == r[..CodeLimit(s)][i] == Stamped(s, Aligned(s), n)[..CodeLimit(s)][i];
  }

  /** The new signature starts where the old one did, at the next multiple of 16, and ends the file. */
  lemma SignaturePlaced(c: Crypto, t: Target, s: Bytes, now: nat)
    requires CanSign(c, t, s)
    ensures SignatureOffset(SignedThin(c, t, s, now)) == (SignatureOffset(s) + 15) / 16 * 16
    ensures |SignedThin(c, t, s, now)| == (SignatureOffset(s) + 15) / 16 * 16 + |FinalBlob(c, t, s, now)|
  {
    CanSignParts(c, t, s);
    CodeEnds(s);
    SignedParse(c, t, s, now, SignedThin(c, t, s, now));
    SplicedParts(s, StampedSize(c, t, s, now), FinalBlob(c, t, s, now));
    hide SignedThin, CanSign, WellFormed, CodeLimit, FinalBlob, ParseSlice;
  }

  lemma FieldsAre(s: Bytes, i: nat)
    ensures InField(s, i) <==> MaySet(s, i)
  {
    hide LinkeditCommand, SignatureCommand, Is64;
  }

  // ---------------------------------------------------------------- when the lengths never settle

  function Growing(start: nat, now: nat): (b: Bytes)
    ensures start <= now <= start + 2 ==> |b| == now - start
  {
    Zeros(if now < start then 0 else Min(now - start, 2))
  }

  /** An abstract CMS, not one the code makes: its length changes twice in a row. */
  function GrowingCms(start: nat): Crypto {
    Crypto((_: Bytes) => Zeros(20), (_: Bytes) => Zeros(32), (now: nat, _: Bytes) => Growing(start, now), 0, 2)
  }

  lemma GrowingLengthAt(start: nat, now: nat)
    ensures LengthByTime(GrowingCms(start)) && LengthAt(GrowingCms(start), now) == |Growing(start, now)|
  {
    assert forall n: nat, x: Bytes :: GrowingCms(start).cms(n, x) == Growing(start, n);
  }

  /** The condition on the retry is sharp: with lengths that change at each pass the checker rejects the result. */
  lemma GrowingCmsIsRejected(t: Target, s: Bytes, now: nat)
    requires CanSign(GrowingCms(now), t, s)
    ensures !Accepts(GrowingCms(now), BundleOf(t), SignedThin(GrowingCms(now), t, s, now))
  {
    hide CanSign, Accepts, SignedThin, SizesAgree, GrowingCms, BundleOf, LengthByTime, LengthAt;
    GrowingLengthAt(now, now);
    GrowingLengthAt(now, now + 1);
    GrowingLengthAt(now, now + 2);
    OneRetrySufficesIff(GrowingCms(now), t, s, now);
    SignThenVerify(GrowingCms(now), t, s, now);
  }

  // ---------------------------------------------------------------- signing again

  /** The signature does not depend on the clock. */
  ghost predicate Timeless(c: Crypto) {
    forall a: nat, b: nat, cd: Bytes :: c.cms(a, cd) == c.cms(b, cd)
  }

  lemma TimelessSignature(c: Crypto, t: Target, code: Bytes, a: nat, b: nat)
    requires c.Valid() && BlobFits(t, |code|, c.cmsMax) && Timeless(c)
    ensures SignatureBytes(c, t, code, a) == SignatureBytes(c, t, code, b)
  {
    assert |code| < U32;
    FitsParts(t, |code|, c.cmsMax, c.cmsMax);
    hide SuperBlobBytes, SuperEncodable, DistinctKinds, SortSlots, Increasing, BlobFits, CdSize, Cd, TaggedBlob,
         EmptyRequirements, EntitlementsBlob;
    assert c.cms(a, Cd(c, t, CS_HASHTYPE_SHA256, code)) == c.cms(b, Cd(c, t, CS_HASHTYPE_SHA256, code));
  }

  lemma FieldInPrefix(a: Bytes, r: Bytes, n: nat, off: nat, field: Bytes)
    requires n <= |a| && n <= |r| && r[..n] == a[..n] && At(a, off, field) && off + |field| <= n
    ensures At(r, off, field)
  {
    PrefixSlice(r, a, n, off, off + |field|);
  }

  lemma SignatureFieldsStay(s: Bytes, so: nat, ss: nat, r: Bytes)
    requires WellFormed(s) && Ready(s, so, ss) && StartsStamped(s, so, ss, r)
    ensures AfterSignature(r, so, ss) == r
  {
    assert so < U32 && ss < U32;
    hide WellFormed, Ready, Parsed, ParseSlice, Stamped, LE32, CodeLimit, LinkeditOf, LinkeditCommand, FirstCommand,
         At, Put;
    var lc := SignatureIsCommand(s);
    var off := SignatureCommand(s);
    StampedParse(s, so, ss, r);
    StampedSignature(s, so, ss);
    FieldInPrefix(Stamped(s, so, ss), r, CodeLimit(s), off + 8, LE32(so));
    FieldInPrefix(Stamped(s, so, ss), r, CodeLimit(s), off + 12, LE32(ss));
    PutSame(r, off + 8, LE32(so));
    PutSame(r, off + 12, LE32(ss));
  }

  lemma LinkeditFieldsStay(a: Bytes, r: Bytes, n: nat, is64: bool, l: Linkedit, m: Linkedit, end: nat)
    requires LinkeditWritable(a, is64, l, end) && LinkeditWritable(r, is64, m, end)
    requires m.loadCommandOffset == l.loadCommandOffset && m.fileoff == l.fileoff
    requires n <= |a| && n <= |r| && r[..n] == StampLinkedit(a, is64, l, end)[..n]
    requires l.loadCommandOffset + LinkeditWidth(is64) <= n
    ensures StampLinkedit(r, is64, m, end) == r
  {
    hide LE32, LE64, CeilToPage, Put, At;
    StampLinkeditFields(a, is64, l, end);
    var b, off, fs := StampLinkedit(a, is64, l, end), l.loadCommandOffset, end - l.fileoff;
    if is64 {
      FieldInPrefix(b, r, n, off + 40, LE64(CeilToPage(fs, true)));
      FieldInPrefix(b, r, n, off + 56, LE64(fs));
      PutSame(r, off + 40, LE64(CeilToPage(fs, true)));
      PutSame(r, off + 56, LE64(fs));
    } else {
      FieldInPrefix(b, r, n, off + 28, LE32(CeilToPage(fs, false)));
      FieldInPrefix(b, r, n, off + 36, LE32(fs));
      PutSame(r, off + 28, LE32(CeilToPage(fs, false)));
      PutSame(r, off + 36, LE32(fs));
    }
  }

  /** A slice that starts with stamped code is ready for every size its original was ready for. */
  lemma ReadyAgain(s: Bytes, so: nat, ss: nat, r: Bytes, n: nat)
    requires WellFormed(s) && Ready(s, so, ss) && StartsStamped(s, so, ss, r) && CodeLimit(s) <= so
    requires Ready(s, so, n)
    ensures WellFormed(r) && Ready(r, so, n)
  {
    hide WellFormed, Parsed, ParseSlice, Stamped, CodeLimit, LinkeditOf, LinkeditCommand, CeilToPage;
    StampedParse(s, so, ss, r);
    StampedParseLinkedit(s, so, ss, r);
    StampedIsWellFormed(s, so, ss, r);
    LinkeditReadable(s);
    if LinkeditOf(s).Some? {
      var le := LinkeditIsCommand(s);
    }
  }

  /** Stamping the values that are there already changes nothing. */
  lemma StampAgain(s: Bytes, so: nat, ss: nat, r: Bytes)
    requires WellFormed(s) && Ready(s, so, ss) && StartsStamped(s, so, ss, r) && CodeLimit(s) <= so
    ensures Stamped(r, so, ss) == r
  {
    hide WellFormed, Ready, Parsed, ParseSlice, Stamped, CodeLimit, LinkeditOf, LinkeditCommand, CeilToPage,
         AfterSignature, LinkeditWritable, StampLinkedit;
    ReadyAgain(s, so, ss, r, ss);
    StampIs(s, so, ss);
    StampIs(r, so, ss);
    SignatureFieldsStay(s, so, ss, r);
    StampedParse(s, so, ss, r);
    StampedParseLinkedit(s, so, ss, r);
    LinkeditReadable(s);
    if LinkeditOf(s).Some? {
      var le := LinkeditIsCommand(s);
      LinkeditFieldsStay(AfterSignature(s, so, ss), r, CodeLimit(s), Is64(s), LinkeditOf(s).value, LinkeditOf(r).value,
                         so + ss);
    }
  }

  /** The padded code can be signed too; for an aligned code limit this is part of CanSign. */
  ghost predicate PaddedFits(c: Crypto, t: Target, s: Bytes) {
    && BlobFits(t, Aligned(s), c.cmsMax)
    && forall n :: BlobSize(t, Aligned(s), c.cmsMin) <= n <= BlobSize(t, Aligned(s), c.cmsMax) ==>
         Ready(s, Aligned(s), n)
  }

  lemma PaddedReadyAgain(c: Crypto, t: Target, s: Bytes, n: nat, r: Bytes)
    requires WellFormed(s) && Ready(s, Aligned(s), n) && StartsStamped(s, Aligned(s), n, r) && PaddedFits(c, t, s)
    ensures WellFormed(r) && Ready(r, Aligned(s), n)
    ensures forall m :: BlobSize(t, Aligned(s), c.cmsMin) <= m <= BlobSize(t, Aligned(s), c.cmsMax) ==>
      Ready(r, Aligned(s), m)
  {
    hide WellFormed, Ready, StartsStamped, BlobSize, BlobFits, CodeLimit;
    ReadyAgain(s, Aligned(s), n, r, n);
    forall m | BlobSize(t, Aligned(s), c.cmsMin) <= m <= BlobSize(t, Aligned(s), c.cmsMax)
      ensures Ready(r, Aligned(s), m)
    {
      ReadyAgain(s, Aligned(s), n, r, m);
    }
  }

  lemma StampedCanBeSigned(c: Crypto, t: Target, s: Bytes, n: nat, r: Bytes)
    requires WellFormed(s) && Ready(s, Aligned(s), n) && StartsStamped(s, Aligned(s), n, r) && Aligned(s) <= |r|
    requires c.Valid() && PaddedFits(c, t, s)
    ensures CanSign(c, t, r) && CodeLimit(r) == Aligned(r) == Aligned(s)
    ensures StampedCode(r, n) == r[..CodeLimit(r)]
  {
    hide WellFormed, Ready, Parsed, ParseSlice, StartsStamped, CodeLimit, Stamped, BlobSize, BlobFits;
    StampedParse(s, Aligned(s), n, r);
    StampAgain(s, Aligned(s), n, r);
    PaddedReadyAgain(c, t, s, n, r);
  }

  /** A signed slice can be signed again; its code limit is aligned and its code is stamped already. */
  lemma SignedCanBeSigned(c: Crypto, t: Target, s: Bytes, now: nat)
    requires CanSign(c, t, s) && PaddedFits(c, t, s)
    ensures
      var r := SignedThin(c, t, s, now);
      && CanSign(c, t, r) && CodeLimit(r) == Aligned(r) == Aligned(s)
      && StampedCode(r, StampedSize(c, t, s, now)) == r[..CodeLimit(r)]
  {
    hide CanSign, WellFormed, Ready, StartsStamped, CodeLimit, StampedCode, FinalBlob, StampedSize, Spliced, PaddedFits;
    CanSignParts(c, t, s);
    SplicedParts(s, StampedSize(c, t, s, now), FinalBlob(c, t, s, now));
    StampedCanBeSigned(c, t, s, StampedSize(c, t, s, now), SignedThin(c, t, s, now));
  }

  /** Stamping a signed slice with another size stamps its code as stamping the original would. */
  lemma StampOver(s: Bytes, so: nat, n: nat, r: Bytes, m: nat)
    requires WellFormed(s) && Ready(s, so, n) && Ready(s, so, m) && StartsStamped(s, so, n, r) && CodeLimit(s) <= so
    ensures Stamped(r, so, m)[..CodeLimit(s)] == Stamped(s, so, m)[..CodeLimit(s)]
  {
    hide WellFormed, Ready, Parsed, ParseSlice, Stamped, CodeLimit, LinkeditOf, LinkeditCommand, InField, CeilToPage;
    ReadyAgain(s, so, n, r, m);
    StampedParse(s, so, n, r);
    StampedParseLinkedit(s, so, n, r);
    LinkeditReadable(s);
    forall i | 0 <= i < CodeLimit(s) ensures Stamped(r, so, m)[i] == Stamped(s, so, m)[i] {
      StampOverAt(s, so, n, r, m, i);
    }
  }

  lemma StampOverAt(s: Bytes, so: nat, n: nat, r: Bytes, m: nat, i: nat)
    requires WellFormed(s) && Ready(s, so, n) && Ready(s, so, m) && StartsStamped(s, so, n, r) && CodeLimit(s) <= so
    requires i < CodeLimit(s) && WellFormed(r) && Ready(r, so, m)
    requires SignatureCommand(r) == SignatureCommand(s) && Is64(r) == Is64(s)
    requires LinkeditCommand(r) == LinkeditCommand(s)
    requires LinkeditOf(s).Some? && LinkeditOf(r).Some? ==> LinkeditOf(r).value.fileoff == LinkeditOf(s).value.fileoff
    ensures Stamped(r, so, m)[i] == Stamped(s, so, m)[i]
  {
    hide WellFormed, Ready, Parsed, ParseSlice, Stamped, CodeLimit, LinkeditOf, LinkeditCommand, InLinkeditField;
    if InField(s, i) {
      StampedInside(s, so, m, r, i);
    } else {
      StampedOutside(s, so, m, i);
      StampedOutside(s, so, n, i);
      StampedOutside(r, so, m, i);
      assert r[i] == r[..CodeLimit(s)][i] == Stamped(s, so, n)[..CodeLimit(s)][i];
    }
  }

  /** What signing a signed slice again comes to: the draft is the signature it has, and the second pass is the pass
      over the original stamped with that signature's length. */
  lemma ResignPasses(c: Crypto, t: Target, s: Bytes, now: nat, later: nat, r: Bytes)
    requires CanSign(c, t, s) && CodeLimit(s) % 16 == 0 && Timeless(c)
    requires r == SignedThin(c, t, s, now) && CanSign(c, t, r)
    ensures Draft(c, t, r, later) == FinalBlob(c, t, s, now)
    ensures Second(c, t, r, later) == Pass(c, t, s, |FinalBlob(c, t, s, now)|, later)
  {
    var n, blob, limit := StampedSize(c, t, s, now), FinalBlob(c, t, s, now), CodeLimit(s);
    var tick := FinalIsOverStamped(c, t, s, now);
    SignedParts(c, t, s, now);
    PaddedWhenAligned(c, t, s);
    SignedCanBeSigned(c, t, s, now);
    assert c.Valid() && BlobFits(t, limit, c.cmsMax) && limit <= |s| && WellFormed(s) && Ready(s, Aligned(s), n);
    FinalFits(c, t, s, now);
    hide CanSign, WellFormed, Ready, BlobFits, Crypto.Valid, Timeless, SignatureBytes, Stamped, StartsStamped,
         CodeLimit, FinalBlob, StampedSize, SignedThin;
    TimelessSignature(c, t, StampedCode(s, n), tick, later);
    StampOver(s, Aligned(s), n, r, |blob|);
    TimelessSignature(c, t, StampedCode(s, |blob|), later + 1, later);
  }

  lemma PaddedWhenAligned(c: Crypto, t: Target, s: Bytes)
    requires CanSign(c, t, s) && CodeLimit(s) % 16 == 0
    ensures PaddedFits(c, t, s) && Aligned(s) == CodeLimit(s)
  {
    hide WellFormed, Ready, CodeLimit, BlobSize;
  }

  lemma FinalFits(c: Crypto, t: Target, s: Bytes, now: nat)
    requires CanSign(c, t, s)
    ensures Ready(s, Aligned(s), |FinalBlob(c, t, s, now)|)
  {
    hide CanSign, Ready;
  }

  lemma StampedIsSecond(c: Crypto, t: Target, s: Bytes, now: nat)
    requires CanSign(c, t, s)
    ensures StampedSize(c, t, s, now) == |Second(c, t, s, now)|
  {
    hide CanSign, Draft, Pass, Second;
  }

  /** With the size that is stamped already, the code of the second signing and so its signature are those of the
      first. */
  lemma SameSizeSameSignature(c: Crypto, t: Target, s: Bytes, now: nat, later: nat, r: Bytes)
    requires CanSign(c, t, s) && PaddedFits(c, t, s) && CodeLimit(s) == Aligned(s) && Timeless(c)
    requires r == SignedThin(c, t, s, now) && CanSign(c, t, r)
    requires StampedSize(c, t, r, later) == StampedSize(c, t, s, now)
    ensures CodeLimit(r) == Aligned(r) == Aligned(s) <= |r|
    ensures StampedCode(r, StampedSize(c, t, s, now)) == r[..Aligned(s)]
    ensures FinalBlob(c, t, r, later) == FinalBlob(c, t, s, now)
  {
    hide CanSign, BlobFits, Crypto.Valid, Timeless, SignatureBytes, StampedCode, CodeLimit, FinalBlob, StampedSize,
         CodeReaches, StartsStamped, SignedThin, PaddedFits;
    CanSignParts(c, t, s);
    SignedParts(c, t, s, now);
    SignedCanBeSigned(c, t, s, now);
    CanSignParts(c, t, r);
    var tick := FinalIsOverStamped(c, t, s, now);
    var again := FinalIsOverStamped(c, t, r, later);
    TimelessSignature(c, t, StampedCode(s, StampedSize(c, t, s, now)), tick, again);
  }

  /** Signing again with the size that is stamped already returns the same bytes. */
  lemma SameSizeSameBytes(c: Crypto, t: Target, s: Bytes, now: nat, later: nat, r: Bytes)
    requires CanSign(c, t, s) && CodeLimit(s) % 16 == 0 && Timeless(c)
    requires r == SignedThin(c, t, s, now) && CanSign(c, t, r)
    requires StampedSize(c, t, r, later) == StampedSize(c, t, s, now)
    ensures SignedThin(c, t, r, later) == r
  {
    hide CanSign, Timeless, StampedCode, CodeLimit, FinalBlob, StampedSize, CodeReaches, StartsStamped, SignedThin,
         PaddedFits;
    PaddedWhenAligned(c, t, s);
    SameSizeSameSignature(c, t, s, now, later, r);
    SignedParts(c, t, s, now);
    ThinIs(c, t, r, later);
    assert r == r[..Aligned(s)] + r[Aligned(s)..];
  }

  /** Without padding a signed slice is its stamped code and its signature. */
  lemma ThinIs(c: Crypto, t: Target, r: Bytes, now: nat)
    requires CanSign(c, t, r) && CodeLimit(r) <= |r| && CodeLimit(r) == Aligned(r)
    ensures SignedThin(c, t, r, now) == StampedCode(r, StampedSize(c, t, r, now)) + FinalBlob(c, t, r, now)
  {
    hide CanSign, CodeLimit, StampedCode, StampedSize, FinalBlob;
    assert Zeros(0) == [];
  }

  /** Signing is idempotent exactly when one more pass, stamped with the length the signature has, yields the stamped
      size: for an aligned code limit and a CMS that does not depend on the clock. */
  lemma ResignIsIdentityIff(c: Crypto, t: Target, s: Bytes, now: nat, later: nat)
    requires CanSign(c, t, s) && CodeLimit(s) % 16 == 0 && Timeless(c)
    ensures CanSign(c, t, SignedThin(c, t, s, now))
    ensures SignedThin(c, t, SignedThin(c, t, s, now), later) == SignedThin(c, t, s, now)
       <==> |Pass(c, t, s, |FinalBlob(c, t, s, now)|, later)| == StampedSize(c, t, s, now)
  {
    var r := SignedThin(c, t, s, now);
    hide CanSign, Parsed, ParseSlice, SignedThin, StampedSize, FinalBlob, Draft, Second, Pass, CodeLimit, Timeless;
    PaddedWhenAligned(c, t, s);
    SignedCanBeSigned(c, t, s, now);
    ResignPasses(c, t, s, now, later, r);
    StampedIsSecond(c, t, r, later);
    if StampedSize(c, t, r, later) == StampedSize(c, t, s, now) {
      SameSizeSameBytes(c, t, s, now, later, r);
    } else {
      SignedParse(c, t, s, now, r);
      SignedParse(c, t, r, later, SignedThin(c, t, r, later));
    }
  }

  /** In particular when the last two signature lengths agreed the first time. */
  lemma ResignIsIdentity(c: Crypto, t: Target, s: Bytes, now: nat, later: nat)
    requires CanSign(c, t, s) && CodeLimit(s) % 16 == 0 && Timeless(c) && SizesAgree(c, t, s, now)
    ensures CanSign(c, t, SignedThin(c, t, s, now))
    ensures SignedThin(c, t, SignedThin(c, t, s, now), later) == SignedThin(c, t, s, now)
  {
    ResignIsIdentityIff(c, t, s, now, later);
    AgreeMeansStamped(c, t, s, now);
    var tick := FinalIsOverStamped(c, t, s, now);
    assert c.Valid() && BlobFits(t, CodeLimit(s), c.cmsMax) && CodeLimit(s) <= |s|;
    hide CanSign, SignedThin, StampedSize, FinalBlob, Draft, Second, CodeLimit, Timeless, SizesAgree, SignatureBytes,
         StampedCode, BlobFits, Crypto.Valid;
    TimelessSignature(c, t, StampedCode(s, StampedSize(c, t, s, now)), tick, later);
  }

  /** An unaligned slice becomes stable after the first signing. */
  lemma SecondSigningIsStable(c: Crypto, t: Target, s: Bytes, now: nat, again: nat, later: nat)
    requires CanSign(c, t, s) && PaddedFits(c, t, s) && Timeless(c) && c.cmsMin == c.cmsMax
    ensures CanSign(c, t, SignedThin(c, t, s, now))
    ensures CanSign(c, t, SignedThin(c, t, SignedThin(c, t, s, now), again))
    ensures SignedThin(c, t, SignedThin(c, t, SignedThin(c, t, s, now), again), later)
         == SignedThin(c, t, SignedThin(c, t, s, now), again)
  {
    var r := SignedThin(c, t, s, now);
    hide CanSign, PaddedFits, Timeless, SignedThin, CodeLimit, StampedCode, StampedSize, Draft, Pass, Second;
    SignedCanBeSigned(c, t, s, now);
    ConstantCmsNeedsNoRetry(c, t, r, again);
    ResignIsIdentity(c, t, r, again, later);
  }
}
