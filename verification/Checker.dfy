/** An independent checker of signed slices, and the theorem that signing passes it. The checker parses the slice,
    follows LC_CODE_SIGNATURE to the SuperBlob, decodes its CodeDirectories, and hashes the slice's own bytes
    again. */
module Checker {
  import opened Wrappers
  import opened Bytes
  import opened CodeSign
  import opened BlobReader
  import opened MachO
  import opened SignatureBlob
  import opened TsSigner

  /** What the checker is told besides the file: the expected names, the bundle's Info.plist and CodeResources, and the
      entitlements an app is to have. */
  datatype Bundle = Bundle(identifier: Bytes, teamId: Bytes, infoPlist: Option<Bytes>, resources: Option<Bytes>,
                           entitlements: Option<Bytes>)

  function BundleOf(t: Target): Bundle {
    match t
    case App(id, team, info, res, entitlements) => Bundle(id, team, info, Some(res), Some(entitlements))
    case Nested(id, team, info, sealed) => Bundle(id, team, info, sealed, None)
  }

  // ---------------------------------------------------------------- the checker

  /** Page `i` of the code. */
  function Page(code: Bytes, i: nat): Bytes {
    SpanNext(i, CS_PAGE_SIZE);
    code[Clamp(Span(i, CS_PAGE_SIZE), |code|)..Clamp(Span(i + 1, CS_PAGE_SIZE), |code|)]
  }

  /** What special slot `k` seals: the bundle's files, and the blobs embedded next to the CodeDirectory. */
  function SealedBySlot(b: Bundle, slots: seq<Slot>, k: nat): Option<Bytes> {
    if k == 1 then b.infoPlist
    else if k == 3 then b.resources
    else if k == 2 || k == 5 then Lookup(slots, k)
    else None
  }

  /** A blob as it must read: four magic bytes, its own length, the contents. */
  predicate BlobHolds(blob: Option<Bytes>, magic: Bytes, contents: Bytes) {
    && |magic| == 4 && blob.Some? && |blob.value| == 8 + |contents|
    && blob.value[..4] == magic && ReadBE32(blob.value, 4) == |blob.value| && blob.value[8..] == contents
  }

  /** Slot 2 is the empty requirement set and slot 5 holds the expected entitlements; only what has entitlements has
      them, and a second CodeDirectory. */
  predicate EmbeddedHold(b: Bundle, slots: seq<Slot>) {
    && Lookup(slots, 2) == Some([0xfa, 0xde, 0x0c, 0x01, 0, 0, 0, 12, 0, 0, 0, 0])
    && (match b.entitlements
        case None => Lookup(slots, 5) == None && Lookup(slots, 0x1000) == None
        case Some(e) => BlobHolds(Lookup(slots, 5), [0xfa, 0xde, 0x71, 0x71], e) && Lookup(slots, 0x1000).Some?)
  }

  /** The slots a signature may have. */
  predicate KnownSlots(slots: seq<Slot>) {
    forall i :: 0 <= i < |slots| ==> slots[i].kind in {0, 2, 5, 0x1000, 0x10000}
  }

  /** Hash type 2 is SHA-256, 1 is SHA-1. */
  function DigestOf(c: Crypto, hashType: byte, data: Bytes): Bytes {
    if hashType == 2 then c.sha256(data) else c.sha1(data)
  }

  predicate SlotHolds(c: Crypto, hashType: byte, data: Option<Bytes>, slot: Bytes) {
    match data
    case None => |slot| == (if hashType == 2 then 32 else 20) && forall i :: 0 <= i < |slot| ==> slot[i] == 0
    case Some(d) => slot == DigestOf(c, hashType, d)
  }

  predicate HeaderHolds(b: Bundle, hashType: byte, cd: CodeDirectory) {
    && cd.version == 0x20400 && cd.flags == 0
    && cd.hashType == hashType && cd.hashSize == (if hashType == 2 then 32 else 20) && cd.pageShift == 14
    && cd.identifier == UpToNul(b.identifier) && cd.teamId == UpToNul(b.teamId)
    && |cd.codes| == PageCount(cd.codeLimit, CS_PAGE_SIZE)
  }

  /** The hashed code reaches up to the signature: only the padding to 16 bytes, all zeros, lies between. */
  predicate CodeReaches(file: Bytes, limit: nat, dataoff: nat) {
    limit <= dataoff <= |file| && CeilTo16(limit) == dataoff && file[limit..dataoff] == Zeros(dataoff - limit)
  }

  predicate PagesHold(c: Crypto, hashType: byte, cd: CodeDirectory, code: Bytes) {
    forall i :: 0 <= i < |cd.codes| ==> cd.codes[i] == DigestOf(c, hashType, Page(code, i))
  }

  ghost predicate SlotsHold(c: Crypto, b: Bundle, slots: seq<Slot>, hashType: byte, cd: CodeDirectory) {
    && (forall k :: 1 <= k <= |cd.specials| ==> SlotHolds(c, hashType, SealedBySlot(b, slots, k), cd.specials[k - 1]))
    && (forall k :: |cd.specials| < k ==> SealedBySlot(b, slots, k) == None)
  }

  ghost predicate DirectoryHolds(c: Crypto, b: Bundle, slots: seq<Slot>, hashType: byte, cd: CodeDirectory,
                                 code: Bytes)
  {
    && HeaderHolds(b, hashType, cd)
    && PagesHold(c, hashType, cd, code)
    && SlotsHold(c, b, slots, hashType, cd)
  }

  ghost predicate DirectoryAccepted(c: Crypto, b: Bundle, slots: seq<Slot>, hashType: byte, cdBytes: Bytes,
                                    file: Bytes, dataoff: nat)
  {
    match DecodeCodeDirectory(cdBytes)
    case None => false
    case Some(cd) =>
      && |cdBytes| >= 4 && cdBytes[..4] == [0xfa, 0xde, 0x0c, 0x02]
      && CodeReaches(file, cd.codeLimit, dataoff)
      && DirectoryHolds(c, b, slots, hashType, cd, file[..cd.codeLimit])
  }

  /** The CMS wrapper signs the primary CodeDirectory. */
  ghost predicate CmsAccepted(c: Crypto, wrapper: Bytes, cdBytes: Bytes) {
    && |wrapper| >= 8 && wrapper[..4] == [0xfa, 0xde, 0x0b, 0x01]
    && exists now: nat :: wrapper[8..] == c.cms(now, cdBytes)
  }

  /** The primary SHA-256 CodeDirectory must be there and be signed; an alternate SHA-1 one must hold if there is
      one. */
  ghost predicate SlotsAccepted(c: Crypto, b: Bundle, file: Bytes, dataoff: nat, slots: seq<Slot>) {
    && (match (Lookup(slots, 0), Lookup(slots, 0x10000))
        case (Some(cdBytes), Some(wrapper)) =>
          && DirectoryAccepted(c, b, slots, 2, cdBytes, file, dataoff)
          && CmsAccepted(c, wrapper, cdBytes)
        case _ => false)
    && (match Lookup(slots, 0x1000)
        case None => true
        case Some(cdBytes) => DirectoryAccepted(c, b, slots, 1, cdBytes, file, dataoff))
  }

  /** The SuperBlob `blob` is a signature of the first bytes of `file`. */
  ghost predicate SignatureAccepted(c: Crypto, b: Bundle, file: Bytes, dataoff: nat, blob: Bytes) {
    match ReadSuperBlob(blob)
    case None => false
    case Some(slots) =>
      && |blob| >= 4 && blob[..4] == [0xfa, 0xde, 0x0c, 0xc0]
      && Increasing(slots) && KnownSlots(slots) && EmbeddedHold(b, slots) && SlotsAccepted(c, b, file, dataoff, slots)
  }

  /** __LINKEDIT, as findLinkeditSegment reads it, ends where the signature ends and is mapped in whole pages. */
  predicate LinkeditAccepted(file: Bytes, slice: Slice, end: nat) {
    match FindLinkedit(slice, file)
    case Failure => false
    case Success(None) => true
    case Success(Some(l)) => l.fileoff + l.filesize == end && l.vmsize == CeilToPage(l.filesize, slice.header.is64)
  }

  /** The whole check of a slice standing alone. */
  ghost predicate Accepts(c: Crypto, b: Bundle, file: Bytes) {
    match ParseSlice(file, 0, |file|)
    case Failure => false
    case Success(slice) =>
      match slice.codeSignature
      case None => false
      case Some(sig) =>
        && sig.dataoff + sig.datasize == |file|
        && LinkeditAccepted(file, slice, sig.dataoff + sig.datasize)
        && SignatureAccepted(c, b, file, sig.dataoff, file[sig.dataoff..])
  }

  // ---------------------------------------------------------------- pages

  lemma {:induction false} PageHashAt(hash: Bytes -> Bytes, code: Bytes, i: nat)
    requires i < |PageHashes(hash, code, CS_PAGE_SIZE)|
    ensures PageHashes(hash, code, CS_PAGE_SIZE)[i] == hash(Page(code, i))
    decreases i
  {
    var n := Min(CS_PAGE_SIZE, |code|);
    if i == 0 {
      SpanNext(0, CS_PAGE_SIZE);
      assert Page(code, 0) == code[..n];
    } else {
      PageHashAt(hash, code[n..], i - 1);
      PageShift(code, i);
    }
  }

  lemma PageShift(code: Bytes, i: nat)
    requires i > 0 && |code| >= Min(CS_PAGE_SIZE, |code|)
    ensures Page(code[Min(CS_PAGE_SIZE, |code|)..], i - 1) == Page(code, i)
  {
    SpanNext(i, CS_PAGE_SIZE);
    SpanNext(i - 1, CS_PAGE_SIZE);
    var n := Min(CS_PAGE_SIZE, |code|);
    var rest := code[n..];
    var lo, hi := Clamp(Span(i - 1, CS_PAGE_SIZE), |rest|), Clamp(Span(i, CS_PAGE_SIZE), |rest|);
    hide Span;
    assert Clamp(Span(i, CS_PAGE_SIZE), |code|) == n + lo;
    assert Clamp(Span(i + 1, CS_PAGE_SIZE), |code|) == n + hi;
    assert rest[lo..hi] == code[n + lo..n + hi];
  }

  // ---------------------------------------------------------------- what a built signature reads as

  lemma CdIsSelfSized(c: Crypto, t: Target, hashType: byte, code: Bytes)
    requires EntitlementsFit(t) && |code| < U32 && CdSize(t, hashType, |code|) < U32
    ensures SelfSized(Cd(c, t, hashType, code))
  {
    CdEncodes(c, t, hashType, code);
    HeaderRead(CdParams(c, t, hashType, code));
    hide CodeDirectoryBytes, CdParams, FromBE32;
  }

  lemma SlotsSelfSized(c: Crypto, t: Target, code: Bytes, now: nat)
    requires c.Valid() && BlobFits(t, |code|, c.cmsMax)
    ensures forall i :: 0 <= i < |BlobSlots(c, t, code, now)| ==> SelfSized(BlobSlots(c, t, code, now)[i].blob)
  {
    hide Cd, CdSize, TaggedBlob, SelfSized, CmsLength, Span, BlobSize;
    FitsParts(t, |code|, CmsLength(c, t, code, now), c.cmsMax);
    CdIsSelfSized(c, t, CS_HASHTYPE_SHA256, code);
    TaggedBlobIsSelfSized(CSMAGIC_REQUIREMENTS, BE32(0));
    WrapperIsSelfSized(c, t, code, now);
    if t.App? {
      CdIsSelfSized(c, t, CS_HASHTYPE_SHA1, code);
      TaggedBlobIsSelfSized(CSMAGIC_ENTITLEMENTS, t.entitlements);
    }
  }

  lemma MagicRead(b: Bytes, magic: u32)
    requires |b| >= 4 && ReadBE32(b, 0) == magic
    ensures b[..4] == BE32(magic)
  {
    Inverse32(b[0..4]);
    assert b[0..4] == b[..4];
  }

  lemma WrapperIsSelfSized(c: Crypto, t: Target, code: Bytes, now: nat)
    requires c.Valid() && BlobFits(t, |code|, c.cmsMax)
    ensures EntitlementsFit(t) && |code| < U32 && CdSize(t, CS_HASHTYPE_SHA256, |code|) < U32
    ensures |c.cms(now, Cd(c, t, CS_HASHTYPE_SHA256, code))| + 8 < U32
    ensures SelfSized(TaggedBlob(CSMAGIC_BLOBWRAPPER, c.cms(now, Cd(c, t, CS_HASHTYPE_SHA256, code))))
    ensures
      var cd := Cd(c, t, CS_HASHTYPE_SHA256, code);
      CmsAccepted(c, TaggedBlob(CSMAGIC_BLOBWRAPPER, c.cms(now, cd)), cd)
  {
    hide Cd, CdSize, TaggedBlob, Span, BlobSize, FromBE32;
    FitsParts(t, |code|, c.cmsMax, c.cmsMax);
    var wrapper := TaggedBlob(CSMAGIC_BLOBWRAPPER, c.cms(now, Cd(c, t, CS_HASHTYPE_SHA256, code)));
    TaggedBlobIsSelfSized(CSMAGIC_BLOBWRAPPER, c.cms(now, Cd(c, t, CS_HASHTYPE_SHA256, code)));
    MagicRead(wrapper, CSMAGIC_BLOBWRAPPER);
  }

  lemma LookupFive(slots: seq<Slot>, k: nat)
    requires |slots| <= 5
    ensures Lookup(slots, k)
         == if |slots| > 0 && slots[0].kind == k then Some(slots[0].blob)
            else if |slots| > 1 && slots[1].kind == k then Some(slots[1].blob)
            else if |slots| > 2 && slots[2].kind == k then Some(slots[2].blob)
            else if |slots| > 3 && slots[3].kind == k then Some(slots[3].blob)
            else if |slots| > 4 && slots[4].kind == k then Some(slots[4].blob)
            else None
  {
    if |slots| > 0 {
      LookupFour(slots[1..], k);
    }
  }

  /** The embedded blobs are those the CodeDirectory seals. */
  lemma SealsAgree(c: Crypto, t: Target, code: Bytes, now: nat, k: nat)
    requires c.Valid() && BlobFits(t, |code|, c.cmsMax)
    ensures EntitlementsFit(t)
    ensures SealedBySlot(BundleOf(t), BlobSlots(c, t, code, now), k) == SealedData(t, k)
    ensures k > TopSlot(t) ==> SealedData(t, k) == None
  {
    hide Cd, CdSize, TaggedBlob, Span, BlobSize, CmsLength, EntitlementsBlob, EmptyRequirements;
    FitsParts(t, |code|, c.cmsMax, c.cmsMax);
    LookupFive(BlobSlots(c, t, code, now), k);
  }

  lemma DirectoryDecodes(c: Crypto, t: Target, hashType: byte, code: Bytes)
    requires EntitlementsFit(t) && |code| < U32 && CdSize(t, hashType, |code|) < U32
    ensures Encodable(CdParams(c, t, hashType, code))
    ensures DecodeCodeDirectory(Cd(c, t, hashType, code)) == Some(Decoded(CdParams(c, t, hashType, code)))
  {
    CdEncodes(c, t, hashType, code);
    hide DecodeCodeDirectory, Decoded, CdParams, CodeDirectoryBytes;
    CodeDirectoryRoundTrip(CdParams(c, t, hashType, code));
  }

  lemma HashIs(c: Crypto, hashType: byte, data: Bytes)
    requires hashType == 1 || hashType == 2
    ensures c.Hash(hashType)(data) == DigestOf(c, hashType, data)
  {
  }

  lemma CodesHold(c: Crypto, t: Target, hashType: byte, code: Bytes, i: nat)
    requires hashType == 1 || hashType == 2
    requires EntitlementsFit(t) && |code| < U32 && CdSize(t, hashType, |code|) < U32
    requires Encodable(CdParams(c, t, hashType, code))
    requires i < |Decoded(CdParams(c, t, hashType, code)).codes|
    ensures Decoded(CdParams(c, t, hashType, code)).codes[i] == DigestOf(c, hashType, Page(code, i))
  {
    hide SpecialHashes, CdSize, Page, Encodable;
    PageHashAt(c.Hash(hashType), code, i);
    HashLength(c, hashType, Page(code, i));
    HashIs(c, hashType, Page(code, i));
  }

  lemma SpecialsHold(c: Crypto, t: Target, hashType: byte, code: Bytes, k: nat)
    requires hashType == 1 || hashType == 2
    requires EntitlementsFit(t) && |code| < U32 && CdSize(t, hashType, |code|) < U32
    requires Encodable(CdParams(c, t, hashType, code))
    requires 1 <= k <= TopSlot(t)
    ensures |Decoded(CdParams(c, t, hashType, code)).specials| == TopSlot(t)
    ensures SlotHolds(c, hashType, SealedData(t, k), Decoded(CdParams(c, t, hashType, code)).specials[k - 1])
  {
    hide SpecialHashes, CdSize, Encodable, PageHashes, SealedData, Lookup, MaxSlot;
    SpecialHashesSeal(c, t, hashType);
    var p := CdParams(c, t, hashType, code);
    assert Decoded(p).specials[k - 1] == SlotHash(p.specialHashes, k, HashSize(hashType));
    assert Lookup(p.specialHashes, k) == SealedHash(c, t, hashType, k);
    if SealedData(t, k).Some? {
      HashLength(c, hashType, SealedData(t, k).value);
      HashIs(c, hashType, SealedData(t, k).value);
    }
  }

  lemma HeaderHoldsOf(c: Crypto, t: Target, hashType: byte, code: Bytes)
    requires hashType == 1 || hashType == 2
    requires EntitlementsFit(t) && |code| < U32 && CdSize(t, hashType, |code|) < U32
    requires Encodable(CdParams(c, t, hashType, code))
    ensures HeaderHolds(BundleOf(t), hashType, Decoded(CdParams(c, t, hashType, code)))
    ensures Decoded(CdParams(c, t, hashType, code)).codeLimit == |code|
  {
    hide SpecialHashes, CdSize, Encodable, PageHashes, PageCount, UpToNul, MaxSlot, FloorLog2;
    PageHashesCount(c.Hash(hashType), code, CS_PAGE_SIZE);
    PageShiftIs14();
  }

  lemma PagesHoldOf(c: Crypto, t: Target, hashType: byte, code: Bytes)
    requires hashType == 1 || hashType == 2
    requires EntitlementsFit(t) && |code| < U32 && CdSize(t, hashType, |code|) < U32
    requires Encodable(CdParams(c, t, hashType, code))
    ensures PagesHold(c, hashType, Decoded(CdParams(c, t, hashType, code)), code)
  {
    var cd := Decoded(CdParams(c, t, hashType, code));
    hide Decoded, CdParams, Encodable, CdSize, EntitlementsFit, Page, DigestOf;
    forall i | 0 <= i < |cd.codes| ensures cd.codes[i] == DigestOf(c, hashType, Page(code, i)) {
      CodesHold(c, t, hashType, code, i);
    }
  }

  lemma SlotsHoldOf(c: Crypto, t: Target, hashType: byte, code: Bytes, now: nat)
    requires hashType == 1 || hashType == 2
    requires c.Valid() && BlobFits(t, |code|, c.cmsMax)
    requires EntitlementsFit(t) && |code| < U32 && CdSize(t, hashType, |code|) < U32
    requires Encodable(CdParams(c, t, hashType, code))
    ensures SlotsHold(c, BundleOf(t), BlobSlots(c, t, code, now), hashType, Decoded(CdParams(c, t, hashType, code)))
  {
    var cd, slots, b := Decoded(CdParams(c, t, hashType, code)), BlobSlots(c, t, code, now), BundleOf(t);
    hide Decoded, CdParams, Encodable, CdSize, EntitlementsFit, BlobSlots, BundleOf, BlobFits, Crypto.Valid,
         SealedBySlot, SealedData, SlotHolds, TopSlot;
    SpecialsCount(c, t, hashType, code);
    forall k | 1 <= k <= |cd.specials| ensures SlotHolds(c, hashType, SealedBySlot(b, slots, k), cd.specials[k - 1]) {
      SpecialsHold(c, t, hashType, code, k);
      SealsAgree(c, t, code, now, k);
    }
    forall k | |cd.specials| < k ensures SealedBySlot(b, slots, k) == None {
      SealsAgree(c, t, code, now, k);
    }
  }

  lemma SpecialsCount(c: Crypto, t: Target, hashType: byte, code: Bytes)
    requires EntitlementsFit(t) && |code| < U32 && CdSize(t, hashType, |code|) < U32
    requires Encodable(CdParams(c, t, hashType, code))
    ensures |Decoded(CdParams(c, t, hashType, code)).specials| == TopSlot(t)
  {
    hide SpecialHashes, CdSize, Encodable, PageHashes, MaxSlot, HashSize, TopSlot;
    SpecialHashesSeal(c, t, hashType);
  }

  lemma DirectoryIsAccepted(c: Crypto, t: Target, hashType: byte, code: Bytes, now: nat, file: Bytes, dataoff: nat)
    requires hashType == 1 || hashType == 2
    requires c.Valid() && BlobFits(t, |code|, c.cmsMax)
    requires EntitlementsFit(t) && CdSize(t, hashType, |code|) < U32
    requires CodeReaches(file, |code|, dataoff) && file[..|code|] == code
    ensures DirectoryAccepted(c, BundleOf(t), BlobSlots(c, t, code, now), hashType, Cd(c, t, hashType, code), file,
                              dataoff)
  {
    assert |code| < U32;
    hide *;
    DirectoryDecodes(c, t, hashType, code);
    HeaderHoldsOf(c, t, hashType, code);
    PagesHoldOf(c, t, hashType, code);
    SlotsHoldOf(c, t, hashType, code, now);
    AcceptedWhen(c, BundleOf(t), BlobSlots(c, t, code, now), hashType, Cd(c, t, hashType, code), file, dataoff,
                 Decoded(CdParams(c, t, hashType, code)), code);
  }

  lemma AcceptedWhen(c: Crypto, b: Bundle, slots: seq<Slot>, hashType: byte, cdBytes: Bytes, file: Bytes, dataoff: nat,
                     cd: CodeDirectory, code: Bytes)
    requires DecodeCodeDirectory(cdBytes) == Some(cd) && cd.codeLimit == |code|
    requires CodeReaches(file, |code|, dataoff) && file[..|code|] == code
    requires HeaderHolds(b, hashType, cd) && PagesHold(c, hashType, cd, code) && SlotsHold(c, b, slots, hashType, cd)
    ensures DirectoryAccepted(c, b, slots, hashType, cdBytes, file, dataoff)
  {
    hide HeaderHolds, PagesHold, SlotsHold, CString, SpecialSlots, CodeSlots;
    MagicRead(cdBytes, CSMAGIC_CODEDIRECTORY);
  }

  lemma SuperMagic(blob: Bytes)
    requires ReadSuperBlob(blob).Some?
    ensures |blob| >= 4 && blob[..4] == [0xfa, 0xde, 0x0c, 0xc0]
  {
    hide ReadEntries;
    MagicRead(blob, CSMAGIC_EMBEDDED_SIGNATURE);
  }

  lemma BuiltReadsBack(c: Crypto, t: Target, code: Bytes, now: nat)
    requires c.Valid() && BlobFits(t, |code|, c.cmsMax)
    ensures ReadSuperBlob(SignatureBytes(c, t, code, now)) == Some(BlobSlots(c, t, code, now))
    ensures Increasing(BlobSlots(c, t, code, now))
  {
    hide BlobSlots, SelfSized, ReadSuperBlob, BlobFits, SuperEncodable, SuperSize, SortSlots, Increasing,
         DistinctKinds;
    BlobSlotsShape(c, t, code, now);
    SlotsSelfSized(c, t, code, now);
    SuperBlobReadsBack(BlobSlots(c, t, code, now));
  }

  lemma BuiltLookups(c: Crypto, t: Target, code: Bytes, now: nat)
    requires c.Valid() && BlobFits(t, |code|, c.cmsMax)
    ensures EntitlementsFit(t) && CdSize(t, CS_HASHTYPE_SHA256, |code|) < U32
    ensures t.App? ==> CdSize(t, CS_HASHTYPE_SHA1, |code|) < U32
    ensures |c.cms(now, Cd(c, t, CS_HASHTYPE_SHA256, code))| + 8 < U32
    ensures Lookup(BlobSlots(c, t, code, now), 0) == Some(Cd(c, t, CS_HASHTYPE_SHA256, code))
    ensures Lookup(BlobSlots(c, t, code, now), 0x10000)
         == Some(TaggedBlob(CSMAGIC_BLOBWRAPPER, c.cms(now, Cd(c, t, CS_HASHTYPE_SHA256, code))))
    ensures Lookup(BlobSlots(c, t, code, now), 0x1000)
         == if t.App? then Some(Cd(c, t, CS_HASHTYPE_SHA1, code)) else None
  {
    hide Cd, CdSize, TaggedBlob, Span, BlobSize, CmsLength, EntitlementsBlob, EmptyRequirements, Lookup;
    FitsParts(t, |code|, c.cmsMax, c.cmsMax);
    LookupFive(BlobSlots(c, t, code, now), 0);
    LookupFive(BlobSlots(c, t, code, now), 0x10000);
    LookupFive(BlobSlots(c, t, code, now), 0x1000);
  }

  /** The embedded blobs are the requirement set's twelve bytes and the entitlements the target has. */
  lemma BuiltEmbeds(c: Crypto, t: Target, code: Bytes, now: nat)
    requires c.Valid() && BlobFits(t, |code|, c.cmsMax)
    ensures EmbeddedHold(BundleOf(t), BlobSlots(c, t, code, now)) && KnownSlots(BlobSlots(c, t, code, now))
  {
    hide Cd, CdSize, TaggedBlob, Span, BlobSize, CmsLength, EntitlementsBlob, EmptyRequirements, Lookup, BlobHolds;
    FitsParts(t, |code|, c.cmsMax, c.cmsMax);
    var slots := BlobSlots(c, t, code, now);
    LookupFive(slots, 2);
    LookupFive(slots, 5);
    LookupFive(slots, 0x1000);
    RequirementsRead();
    if t.App? {
      EntitlementsRead(t);
    }
  }

  lemma RequirementsRead()
    ensures EmptyRequirements() == [0xfa, 0xde, 0x0c, 0x01, 0, 0, 0, 12, 0, 0, 0, 0]
  {
  }

  lemma EntitlementsRead(t: Target)
    requires t.App? && |t.entitlements| + 8 < U32
    ensures BlobHolds(Some(EntitlementsBlob(t)), [0xfa, 0xde, 0x71, 0x71], t.entitlements)
  {
    TaggedBlobIsSelfSized(CSMAGIC_ENTITLEMENTS, t.entitlements);
    assert EntitlementsBlob(t)[..4] == BE32(CSMAGIC_ENTITLEMENTS);
  }

  /** A signature built over `code` is accepted by anyone who finds it behind that code, padded to 16 bytes. */
  lemma BuiltSignatureAccepted(c: Crypto, t: Target, code: Bytes, now: nat, file: Bytes, dataoff: nat)
    requires c.Valid() && BlobFits(t, |code|, c.cmsMax)
    requires CodeReaches(file, |code|, dataoff) && file[..|code|] == code
    ensures SignatureAccepted(c, BundleOf(t), file, dataoff, SignatureBytes(c, t, code, now))
  {
    hide BlobSlots, Cd, CdSize, TaggedBlob, Span, BlobFits, DirectoryAccepted, CmsAccepted, BundleOf, Lookup,
         Increasing, SignatureBytes, Crypto.Valid, ReadSuperBlob, EmbeddedHold, KnownSlots;
    BuiltReadsBack(c, t, code, now);
    SuperMagic(SignatureBytes(c, t, code, now));
    BuiltEmbeds(c, t, code, now);
    BuiltLookups(c, t, code, now);
    WrapperIsSelfSized(c, t, code, now);
    DirectoryIsAccepted(c, t, CS_HASHTYPE_SHA256, code, now, file, dataoff);
    if t.App? {
      DirectoryIsAccepted(c, t, CS_HASHTYPE_SHA1, code, now, file, dataoff);
    }
  }

  // ---------------------------------------------------------------- what acceptance means

  /** Byte `i` lies in page `j`. */
  predicate InPage(i: nat, j: nat) {
    Span(j, CS_PAGE_SIZE) <= i < Span(j + 1, CS_PAGE_SIZE)
  }

  lemma {:induction false} PageOf(i: nat, pages: nat) returns (j: nat)
    requires i < Span(pages, CS_PAGE_SIZE)
    ensures j < pages && InPage(i, j)
  {
    if i < Span(pages - 1, CS_PAGE_SIZE) {
      j := PageOf(i, pages - 1);
    } else {
      j := pages - 1;
    }
  }

  /** Every byte before the signature is hashed, or is a zero of the padding. */
  lemma AcceptedCodeIsHashed(c: Crypto, b: Bundle, slots: seq<Slot>, hashType: byte, cdBytes: Bytes, file: Bytes,
                             dataoff: nat, i: nat)
    requires DirectoryAccepted(c, b, slots, hashType, cdBytes, file, dataoff) && i < dataoff
    ensures dataoff <= |file|
    ensures
      var cd := DecodeCodeDirectory(cdBytes).value;
      && dataoff < cd.codeLimit + 16 && cd.codeLimit <= |file|
      && if i < cd.codeLimit then
           exists j :: 0 <= j < |cd.codes| && InPage(i, j)
                       && cd.codes[j] == DigestOf(c, hashType, Page(file[..cd.codeLimit], j))
         else file[i] == 0
  {
    hide DecodeCodeDirectory, SlotsHold, Page, Span, DigestOf, UpToNul, HashSize;
    var cd := DecodeCodeDirectory(cdBytes).value;
    if i < cd.codeLimit {
      var j := PageOf(i, |cd.codes|);
    } else {
      assert file[i] == file[cd.codeLimit..dataoff][i - cd.codeLimit];
    }
  }

  /** No two different pages of these contents have the same digest. */
  ghost predicate NoCollision(c: Crypto, hashType: byte, x: Bytes, y: Bytes) {
    forall j :: DigestOf(c, hashType, Page(x, j)) == DigestOf(c, hashType, Page(y, j)) ==> Page(x, j) == Page(y, j)
  }

  lemma PageIndex(code: Bytes, i: nat, j: nat)
    requires i < |code| && InPage(i, j)
    ensures i - Span(j, CS_PAGE_SIZE) < |Page(code, j)| && Page(code, j)[i - Span(j, CS_PAGE_SIZE)] == code[i]
  {
    hide Span;
  }

  /** Two contents with the same page digests are equal. */
  lemma SamePagesSameCode(c: Crypto, hashType: byte, cd: CodeDirectory, x: Bytes, y: Bytes)
    requires |x| == |y| <= Span(|cd.codes|, CS_PAGE_SIZE) && NoCollision(c, hashType, x, y)
    requires PagesHold(c, hashType, cd, x) && PagesHold(c, hashType, cd, y)
    ensures x == y
  {
    hide Page, Span, DigestOf;
    forall i | 0 <= i < |x| ensures x[i] == y[i] {
      var j := PageOf(i, |cd.codes|);
      PageIndex(x, i, j);
      PageIndex(y, i, j);
    }
  }

  lemma DirectoryBindsCode(c: Crypto, b: Bundle, slots: seq<Slot>, hashType: byte, cdBytes: Bytes, f: Bytes, g: Bytes,
                           dataoff: nat)
    requires DirectoryAccepted(c, b, slots, hashType, cdBytes, f, dataoff)
    requires DirectoryAccepted(c, b, slots, hashType, cdBytes, g, dataoff)
    requires NoCollision(c, hashType, f[..DecodeCodeDirectory(cdBytes).value.codeLimit],
                         g[..DecodeCodeDirectory(cdBytes).value.codeLimit])
    ensures f[..dataoff] == g[..dataoff]
  {
    hide DecodeCodeDirectory, SlotsHold, PagesHold, NoCollision, UpToNul, HashSize;
    var cd := DecodeCodeDirectory(cdBytes).value;
    SamePagesSameCode(c, hashType, cd, f[..cd.codeLimit], g[..cd.codeLimit]);
    assert f[..dataoff] == f[..cd.codeLimit] + f[cd.codeLimit..dataoff];
    assert g[..dataoff] == g[..cd.codeLimit] + g[cd.codeLimit..dataoff];
  }

  function SignatureOffset(file: Bytes): nat {
    match Parsed(file).codeSignature case Some(sig) => sig.dataoff case None => 0
  }

  ghost predicate PrefixesCollisionFree(c: Crypto, f: Bytes, g: Bytes) {
    forall n :: 0 <= n <= |f| && n <= |g| ==> NoCollision(c, CS_HASHTYPE_SHA256, f[..n], g[..n])
  }

  lemma SameCode(c: Crypto, b: Bundle, slots: seq<Slot>, cdBytes: Bytes, f: Bytes, g: Bytes, off: nat)
    requires DirectoryAccepted(c, b, slots, CS_HASHTYPE_SHA256, cdBytes, f, off)
    requires DirectoryAccepted(c, b, slots, CS_HASHTYPE_SHA256, cdBytes, g, off)
    requires PrefixesCollisionFree(c, f, g)
    ensures off <= |f| && off <= |g| && f[..off] == g[..off]
  {
    hide DecodeCodeDirectory, DirectoryHolds, NoCollision;
    DirectoryBindsCode(c, b, slots, CS_HASHTYPE_SHA256, cdBytes, f, g, off);
  }

  /** The directory that signs an accepted file. */
  lemma SignedBy(c: Crypto, b: Bundle, f: Bytes) returns (slots: seq<Slot>, cdBytes: Bytes)
    requires Accepts(c, b, f)
    ensures SignatureOffset(f) <= |f| && ReadSuperBlob(f[SignatureOffset(f)..]) == Some(slots)
    ensures Lookup(slots, 0) == Some(cdBytes)
    ensures DirectoryAccepted(c, b, slots, CS_HASHTYPE_SHA256, cdBytes, f, SignatureOffset(f))
  {
    hide ParseSlice, LinkeditAccepted, DirectoryAccepted, CmsAccepted, ReadSuperBlob, Lookup, Increasing;
    slots := ReadSuperBlob(f[SignatureOffset(f)..]).value;
    cdBytes := Lookup(slots, 0).value;
  }

  /** The signature pins the file: two accepted files with the same signature at the same place are the same file,
      unless two of their pages collide under SHA-256. */
  lemma AcceptedIsTamperEvident(c: Crypto, b: Bundle, f: Bytes, g: Bytes, off: nat)
    requires Accepts(c, b, f) && Accepts(c, b, g) && SignatureOffset(f) == SignatureOffset(g) == off
    requires off <= |f| && off <= |g| && f[off..] == g[off..]
    requires PrefixesCollisionFree(c, f, g)
    ensures f == g
  {
    hide Accepts, SignatureOffset, DirectoryAccepted, PrefixesCollisionFree, ReadSuperBlob, Lookup;
    var slots, cdBytes := SignedBy(c, b, f);
    var slots', cdBytes' := SignedBy(c, b, g);
    SameCode(c, b, slots, cdBytes, f, g, off);
    assert f == f[..off] + f[off..] && g == g[..off] + g[off..];
  }
}
