/** The signature of one Mach-O slice: which blobs it holds and how long it is
    (the buildSignatureBlob, buildFwBlob and buildDylibBlob helpers of src/server/signing/ts-signer.ts). */
module SignatureBlob {
  import opened Wrappers
  import opened Bytes
  import opened CodeSign

  type Digest20 = s: Bytes | |s| == 20 witness seq(20, _ => 0)
  type Digest32 = s: Bytes | |s| == 32 witness seq(32, _ => 0)

  /** The foreign primitives. `cms(now, cd)` is the DER signature over a CodeDirectory made at time `now`:
      it contains the signing time, so its bytes, and in principle its length, vary with the clock. */
  datatype Crypto = Crypto(sha1: Bytes -> Digest20, sha256: Bytes -> Digest32, cms: (nat, Bytes) -> Bytes,
                           cmsMin: nat, cmsMax: nat)
  {
    ghost predicate Valid() {
      forall now: nat, cd: Bytes :: cmsMin <= |cms(now, cd)| <= cmsMax
    }

    function Hash(hashType: byte): (h: Bytes -> Bytes) {
      if hashType == CS_HASHTYPE_SHA1 then ((data: Bytes) => sha1(data)) else ((data: Bytes) => sha256(data))
    }
  }

  /** What is signed: the main executable of an app or extension, or a framework binary or dylib. */
  datatype Target =
    | App(identifier: Bytes, teamId: Bytes, infoPlist: Option<Bytes>, resources: Bytes, entitlements: Bytes)
    | Nested(identifier: Bytes, teamId: Bytes, infoPlist: Option<Bytes>, sealed: Option<Bytes>)

  function EntitlementsBlob(t: Target): (b: Bytes)
    requires t.App? && |t.entitlements| + 8 < U32
    ensures |b| == 8 + |t.entitlements|
  {
    TaggedBlob(CSMAGIC_ENTITLEMENTS, t.entitlements)
  }

  predicate EntitlementsFit(t: Target) {
    t.App? ==> |t.entitlements| + 8 < U32
  }

  function SpecialHashes(c: Crypto, t: Target, hashType: byte): (slots: seq<Slot>)
    requires EntitlementsFit(t)
  {
    var h := c.Hash(hashType);
    var req := [Slot(CSSLOT_REQUIREMENTS, h(EmptyRequirements()))];
    var info := if t.infoPlist.Some? then [Slot(CSSLOT_INFOSLOT, h(t.infoPlist.value))] else [];
    match t
    case App(_, _, _, resources, _) =>
      info + req + [Slot(CSSLOT_RESOURCEDIR, h(resources)), Slot(CSSLOT_ENTITLEMENTS, h(EntitlementsBlob(t)))]
    case Nested(_, _, _, sealed) =>
      req + (if sealed.Some? then [Slot(CSSLOT_RESOURCEDIR, h(sealed.value))] else []) + info
  }

  function TopSlot(t: Target): nat {
    match t
    case App(_, _, _, _, _) => 5
    case Nested(_, _, _, sealed) => if sealed.Some? then 3 else 2
  }

  lemma HashLength(c: Crypto, hashType: byte, data: Bytes)
    ensures |c.Hash(hashType)(data)| == HashSize(hashType)
  {
    if hashType == CS_HASHTYPE_SHA1 {
      assert c.Hash(hashType)(data) == c.sha1(data);
    } else {
      assert c.Hash(hashType)(data) == c.sha256(data);
    }
  }

  /** What each special slot of a CodeDirectory for `t` must hold, if anything. */
  function SealedData(t: Target, slot: nat): Option<Bytes>
    requires EntitlementsFit(t)
  {
    if slot == CSSLOT_INFOSLOT then t.infoPlist
    else if slot == CSSLOT_REQUIREMENTS then Some(EmptyRequirements())
    else if slot == CSSLOT_RESOURCEDIR then (match t case App(_, _, _, r, _) => Some(r) case Nested(_, _, _, s) => s)
    else if slot == CSSLOT_ENTITLEMENTS && t.App? then Some(EntitlementsBlob(t))
    else None
  }

  function SealedHash(c: Crypto, t: Target, hashType: byte, slot: nat): Option<Bytes>
    requires EntitlementsFit(t)
  {
    match SealedData(t, slot)
    case None => None
    case Some(data) => Some(c.Hash(hashType)(data))
  }

  /** The map of special hashes has one entry per sealed item, the hash of that item. */
  lemma SpecialHashesSeal(c: Crypto, t: Target, hashType: byte)
    requires EntitlementsFit(t)
    ensures DistinctKinds(SpecialHashes(c, t, hashType))
    ensures MaxSlot(SpecialHashes(c, t, hashType)) == TopSlot(t)
    ensures forall k :: Lookup(SpecialHashes(c, t, hashType), k) == SealedHash(c, t, hashType, k)
  {
    hide EntitlementsBlob, EmptyRequirements;
    var slots := SpecialHashes(c, t, hashType);
    forall k: nat
      ensures Lookup(slots, k) == SealedHash(c, t, hashType, k)
    {
      LookupFour(slots, k);
    }
    var top := if t.App? then |slots| - 1 else if t.sealed.Some? then 1 else 0;
    assert slots[top].kind == TopSlot(t);
    MaxIs(slots, TopSlot(t));
  }

  lemma LookupFour(slots: seq<Slot>, k: nat)
    requires |slots| <= 4
    ensures Lookup(slots, k)
         == if |slots| > 0 && slots[0].kind == k then Some(slots[0].blob)
            else if |slots| > 1 && slots[1].kind == k then Some(slots[1].blob)
            else if |slots| > 2 && slots[2].kind == k then Some(slots[2].blob)
            else if |slots| > 3 && slots[3].kind == k then Some(slots[3].blob)
            else None
  {
    if |slots| > 0 {
      var s1 := slots[1..];
      if |s1| > 0 {
        var s2 := s1[1..];
        if |s2| > 0 {
          assert Lookup(s2, k) == if s2[0].kind == k then Some(s2[0].blob) else Lookup(s2[1..], k);
        }
      }
    }
  }

  lemma MaxIs(slots: seq<Slot>, m: nat)
    requires exists i :: 0 <= i < |slots| && slots[i].kind == m
    requires forall i :: 0 <= i < |slots| ==> slots[i].kind <= m
    ensures MaxSlot(slots) == m
  {
  }

  // ---------------------------------------------------------------- CodeDirectories

  function CdParams(c: Crypto, t: Target, hashType: byte, exec: Bytes): CodeDirectoryParams
    requires EntitlementsFit(t)
  {
    CodeDirectoryParams(t.identifier, t.teamId, hashType, |exec|, CS_PAGE_SIZE,
                        PageHashes(c.Hash(hashType), exec, CS_PAGE_SIZE), SpecialHashes(c, t, hashType), 0, 0, 0, 0)
  }

  function CdSize(t: Target, hashType: byte, codeLimit: nat): nat {
    CD_HEADER_SIZE + |t.identifier| + 1 + Span(TopSlot(t), HashSize(hashType))
    + Span(PageCount(codeLimit, CS_PAGE_SIZE), HashSize(hashType)) + |t.teamId| + 1
  }

  /** The length of a signature: a function of the code length, the strings, the entitlements' length and the
      CMS length, in which the hashed bytes do not occur. */
  function BlobSize(t: Target, codeLimit: nat, cmsLength: nat): nat {
    match t
    case App(_, _, _, _, entitlements) =>
      12 + 8 * 5 + CdSize(t, CS_HASHTYPE_SHA256, codeLimit) + 12 + (8 + |entitlements|)
      + CdSize(t, CS_HASHTYPE_SHA1, codeLimit) + (8 + cmsLength)
    case Nested(_, _, _, _) =>
      12 + 8 * 3 + CdSize(t, CS_HASHTYPE_SHA256, codeLimit) + 12 + (8 + cmsLength)
  }

  /** Every length and offset of the signature fits 32 bits. */
  predicate BlobFits(t: Target, codeLimit: nat, cmsMax: nat) {
    codeLimit < U32 && BlobSize(t, codeLimit, cmsMax) < U32
  }

  lemma PageShiftIs14()
    ensures FloorLog2(CS_PAGE_SIZE) == CS_PAGE_SHIFT
  {
    assert FloorLog2(16384) == 1 + FloorLog2(8192);
    assert FloorLog2(8192) == 1 + FloorLog2(4096);
    assert FloorLog2(4096) == 1 + FloorLog2(2048);
    assert FloorLog2(2048) == 1 + FloorLog2(1024);
    assert FloorLog2(1024) == 1 + FloorLog2(512);
    assert FloorLog2(512) == 1 + FloorLog2(256);
    assert FloorLog2(256) == 1 + FloorLog2(128);
    assert FloorLog2(128) == 1 + FloorLog2(64);
    assert FloorLog2(64) == 1 + FloorLog2(32);
    assert FloorLog2(32) == 1 + FloorLog2(16);
    assert FloorLog2(16) == 4;
  }

  lemma FitsParts(t: Target, codeLimit: nat, cmsLength: nat, cmsMax: nat)
    requires BlobFits(t, codeLimit, cmsMax) && cmsLength <= cmsMax
    ensures EntitlementsFit(t)
    ensures BlobSize(t, codeLimit, cmsLength) < U32 && cmsLength + 8 < U32
    ensures CdSize(t, CS_HASHTYPE_SHA256, codeLimit) < U32
    ensures t.App? ==> CdSize(t, CS_HASHTYPE_SHA1, codeLimit) < U32
  {
    hide Span, PageCount;
  }

  lemma CdEncodes(c: Crypto, t: Target, hashType: byte, exec: Bytes)
    requires EntitlementsFit(t) && |exec| < U32 && CdSize(t, hashType, |exec|) < U32
    ensures Encodable(CdParams(c, t, hashType, exec))
    ensures CodeDirectorySize(CdParams(c, t, hashType, exec)) == CdSize(t, hashType, |exec|)
    ensures DistinctKinds(CdParams(c, t, hashType, exec).specialHashes)
  {
    SpecialHashesSeal(c, t, hashType);
    PageHashesCount(c.Hash(hashType), exec, CS_PAGE_SIZE);
    PageShiftIs14();
    hide Span, PageCount, PageHashes, SpecialHashes, DistinctKinds, MaxSlot, FloorLog2;
  }

  function Cd(c: Crypto, t: Target, hashType: byte, exec: Bytes): (b: Bytes)
    requires EntitlementsFit(t) && |exec| < U32 && CdSize(t, hashType, |exec|) < U32
    ensures |b| == CdSize(t, hashType, |exec|)
  {
    CdEncodes(c, t, hashType, exec);
    CodeDirectoryBytes(CdParams(c, t, hashType, exec))
  }

  // ---------------------------------------------------------------- the SuperBlob

  /** The blobs by slot, in the order they are put into the map; the CMS signs the SHA-256 CodeDirectory. */
  function BlobSlots(c: Crypto, t: Target, exec: Bytes, now: nat): (slots: seq<Slot>)
    requires c.Valid() && BlobFits(t, |exec|, c.cmsMax)
    ensures |slots| == if t.App? then 5 else 3
  {
    FitsParts(t, |exec|, c.cmsMax, c.cmsMax);
    var cd := Cd(c, t, CS_HASHTYPE_SHA256, exec);
    var cms := c.cms(now, cd);
    var wrapper := TaggedBlob(CSMAGIC_BLOBWRAPPER, cms);
    match t
    case App(_, _, _, _, _) =>
      [Slot(CSSLOT_CODEDIRECTORY, cd), Slot(CSSLOT_REQUIREMENTS, EmptyRequirements()),
       Slot(CSSLOT_ENTITLEMENTS, EntitlementsBlob(t)),
       Slot(CSSLOT_ALTERNATE_CODEDIRECTORIES, Cd(c, t, CS_HASHTYPE_SHA1, exec)),
       Slot(CSSLOT_SIGNATURESLOT, wrapper)]
    case Nested(_, _, _, _) =>
      [Slot(CSSLOT_CODEDIRECTORY, cd), Slot(CSSLOT_REQUIREMENTS, EmptyRequirements()),
       Slot(CSSLOT_SIGNATURESLOT, wrapper)]
  }

  function CmsLength(c: Crypto, t: Target, exec: Bytes, now: nat): (n: nat)
    requires c.Valid() && BlobFits(t, |exec|, c.cmsMax)
    ensures c.cmsMin <= n <= c.cmsMax
  {
    FitsParts(t, |exec|, c.cmsMax, c.cmsMax);
    |c.cms(now, Cd(c, t, CS_HASHTYPE_SHA256, exec))|
  }

  lemma {:induction false} SortedStays(slots: seq<Slot>)
    requires Increasing(slots)
    ensures SortSlots(slots) == slots
  {
    if slots != [] {
      var init, last := slots[..|slots| - 1], slots[|slots| - 1];
      SortedStays(init);
      if init != [] { assert init[|init| - 1] == slots[|slots| - 2]; }
      assert Insert(init, last) == init + [last];
      assert init + [last] == slots;
    }
  }

  lemma BlobsStep(slots: seq<Slot>, s: Slot)
    ensures |Blobs(slots + [s])| == |Blobs(slots)| + |s.blob|
  {
    assert (slots + [s])[..|slots|] == slots;
  }

  lemma BlobsOfThree(a: Slot, b: Slot, c: Slot)
    ensures |Blobs([a, b, c])| == |a.blob| + |b.blob| + |c.blob|
  {
    BlobsStep([], a);
    BlobsStep([a], b);
    BlobsStep([a, b], c);
    assert [] + [a] == [a] && [a] + [b] == [a, b] && [a, b] + [c] == [a, b, c];
  }

  lemma BlobsOfFive(a: Slot, b: Slot, c: Slot, d: Slot, e: Slot)
    ensures |Blobs([a, b, c, d, e])| == |a.blob| + |b.blob| + |c.blob| + |d.blob| + |e.blob|
  {
    BlobsOfThree(a, b, c);
    BlobsStep([a, b, c], d);
    BlobsStep([a, b, c, d], e);
    assert [a, b, c] + [d] == [a, b, c, d] && [a, b, c, d] + [e] == [a, b, c, d, e];
  }

  lemma BlobSlotsSize(c: Crypto, t: Target, exec: Bytes, now: nat)
    requires c.Valid() && BlobFits(t, |exec|, c.cmsMax)
    ensures SuperSize(BlobSlots(c, t, exec, now)) == BlobSize(t, |exec|, CmsLength(c, t, exec, now))
  {
    FitsParts(t, |exec|, CmsLength(c, t, exec, now), c.cmsMax);
    hide Cd, CdSize, EntitlementsBlob, EmptyRequirements, TaggedBlob, Blobs;
    var slots := BlobSlots(c, t, exec, now);
    match t
    case App(_, _, _, _, _) =>
      BlobsOfFive(slots[0], slots[1], slots[2], slots[3], slots[4]);
      assert slots == [slots[0], slots[1], slots[2], slots[3], slots[4]];
    case Nested(_, _, _, _) =>
      BlobsOfThree(slots[0], slots[1], slots[2]);
      assert slots == [slots[0], slots[1], slots[2]];
  }

  lemma BlobSlotsOrder(c: Crypto, t: Target, exec: Bytes, now: nat)
    requires c.Valid() && BlobFits(t, |exec|, c.cmsMax)
    ensures Increasing(BlobSlots(c, t, exec, now))
    ensures forall i :: 0 <= i < |BlobSlots(c, t, exec, now)| ==> BlobSlots(c, t, exec, now)[i].kind < U32
  {
    hide Cd, CdSize, EntitlementsBlob, EmptyRequirements, TaggedBlob;
  }

  lemma BlobSlotsShape(c: Crypto, t: Target, exec: Bytes, now: nat)
    requires c.Valid() && BlobFits(t, |exec|, c.cmsMax)
    ensures Increasing(BlobSlots(c, t, exec, now)) && DistinctKinds(BlobSlots(c, t, exec, now))
    ensures SortSlots(BlobSlots(c, t, exec, now)) == BlobSlots(c, t, exec, now)
    ensures SuperSize(BlobSlots(c, t, exec, now)) == BlobSize(t, |exec|, CmsLength(c, t, exec, now))
    ensures SuperEncodable(BlobSlots(c, t, exec, now))
  {
    FitsParts(t, |exec|, CmsLength(c, t, exec, now), c.cmsMax);
    BlobSlotsSize(c, t, exec, now);
    BlobSlotsOrder(c, t, exec, now);
    hide BlobSlots, BlobSize, Blobs;
    SortedStays(BlobSlots(c, t, exec, now));
  }

  /** buildSignatureBlob: from executable bytes to SuperBlob bytes. */
  function SignatureBytes(c: Crypto, t: Target, exec: Bytes, now: nat): (b: Bytes)
    requires c.Valid() && BlobFits(t, |exec|, c.cmsMax)
    ensures |b| == BlobSize(t, |exec|, CmsLength(c, t, exec, now)) < U32
  {
    FitsParts(t, |exec|, CmsLength(c, t, exec, now), c.cmsMax);
    BlobSlotsShape(c, t, exec, now);
    SuperBlobBytes(BlobSlots(c, t, exec, now))
  }

  method BuildSignatureBlob(c: Crypto, t: Target, execData: Bytes, now: nat) returns (blob: Bytes)
    requires c.Valid() && BlobFits(t, |execData|, c.cmsMax)
    ensures blob == SignatureBytes(c, t, execData, now)
  {
    FitsParts(t, |execData|, c.cmsMax, c.cmsMax);
    BlobSlotsShape(c, t, execData, now);
    hide CodeDirectoryBytes, CdSize, PageHashes, SpecialHashes, TaggedBlob, Blobs, SortSlots, SuperBlobBytes;
    var requirements := BuildEmptyRequirements();
    var codeDir256 := BuildCd(c, t, CS_HASHTYPE_SHA256, execData);
    var cms := BuildTaggedBlob(CSMAGIC_BLOBWRAPPER, c.cms(now, codeDir256[..]));
    var blobs: seq<Slot>;
    if t.App? {
      var codeDir1 := BuildCd(c, t, CS_HASHTYPE_SHA1, execData);
      var entitlements := BuildTaggedBlob(CSMAGIC_ENTITLEMENTS, t.entitlements);
      blobs := [Slot(CSSLOT_CODEDIRECTORY, codeDir256[..]), Slot(CSSLOT_REQUIREMENTS, requirements[..]),
                Slot(CSSLOT_ENTITLEMENTS, entitlements[..]),
                Slot(CSSLOT_ALTERNATE_CODEDIRECTORIES, codeDir1[..]), Slot(CSSLOT_SIGNATURESLOT, cms[..])];
    } else {
      blobs := [Slot(CSSLOT_CODEDIRECTORY, codeDir256[..]), Slot(CSSLOT_REQUIREMENTS, requirements[..]),
                Slot(CSSLOT_SIGNATURESLOT, cms[..])];
    }
    assert blobs == BlobSlots(c, t, execData, now);
    var buf := BuildSuperBlob(blobs);
    blob := buf[..];
  }

  method BuildCd(c: Crypto, t: Target, hashType: byte, execData: Bytes) returns (buf: array<byte>)
    requires EntitlementsFit(t) && |execData| < U32 && CdSize(t, hashType, |execData|) < U32
    ensures fresh(buf) && buf[..] == Cd(c, t, hashType, execData)
  {
    CdEncodes(c, t, hashType, execData);
    hide CodeDirectoryBytes, PageHashes, SpecialHashes, CdSize;
    var hashes := ComputeCodeHashes(execData, CS_PAGE_SIZE, c.Hash(hashType));
    buf := BuildCodeDirectory(
      CodeDirectoryParams(t.identifier, t.teamId, hashType, |execData|, CS_PAGE_SIZE, hashes,
                          SpecialHashes(c, t, hashType), 0, 0, 0, 0));
  }
}
