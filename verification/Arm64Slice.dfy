/** A 64-bit slice that can be signed: a header, __LINKEDIT and LC_CODE_SIGNATURE, as an arm64 executable has them. */
module Arm64Slice {
  import opened Wrappers
  import opened Bytes
  import opened MachO
  import opened MachOLayout
  import opened SignatureBlob
  import opened TsSigner
  import opened Stamping
  import opened SliceSigning
  import opened Checker
  import opened SignVerify

  const SIZE: u32 := 120

  const FIELDS := HeaderFields(0x0100_000c, 0, 2, 2, 88, 0, 0)

  /** Of the segment command: what follows its first 40 bytes. */
  function SegmentSizes(): (b: Bytes)
    ensures |b| == 24
  {
    DoubleWord(false, 0x4000) + DoubleWord(false, 0) + DoubleWord(false, SIZE)
  }

  function Segment(): (k: Command)
    ensures Size(k) == 72
  {
    Command(0x19, LINKEDIT_NAME + Zeros(16) + SegmentSizes() + Zeros(8))
  }

  function Signature(): (k: Command)
    ensures Size(k) == 16
  {
    Command(0x1d, Word(false, SIZE) + Word(false, 0))
  }

  function Commands2(): (ks: seq<Command>)
    ensures Sized(ks)
  {
    [Segment(), Signature()]
  }

  function Arm64(): (s: Bytes)
    ensures |s| == SIZE
  {
    CommandsSize();
    HeaderBytes(true, false, FIELDS) + CommandsBytes(false, Commands2())
  }

  lemma CommandsSize()
    ensures CommandsBytes(false, Commands2())
         == CommandBytes(false, Segment()) + CommandBytes(false, Signature())
  {
    hide CommandBytes, Segment, Signature;
    var ks := Commands2();
    assert ks[1..] == [Signature()] && ks[1..][1..] == [];
    assert CommandsBytes(false, []) == [];
    assert CommandsBytes(false, ks[1..]) == CommandBytes(false, Signature()) + [];
  }

  const SEGMENT := LoadCommand(0x19, 72, 32)
  const SIGNATURE := LoadCommand(0x1d, 16, 104)
  const LINK := Linkedit(0, SIZE, 0x4000, 32)

  lemma CommandsRead()
    ensures CommandsAt(Commands2(), 32) == [SEGMENT, SIGNATURE]
  {
    hide SegmentSizes, Word;
    var ks := Commands2();
    assert ks[1..] == [Signature()] && ks[1..][1..] == [];
    assert CommandsAt([], 120) == [];
    assert [SIGNATURE] + [] == [SIGNATURE];
    assert CommandsAt([Signature()], 104) == [SIGNATURE];
  }

  /** Where the pieces stand. */
  lemma Places()
    ensures At(Arm64(), 32, CommandBytes(false, Segment()))
    ensures At(Arm64(), 104, CommandBytes(false, Signature()))
  {
    hide CommandBytes, Segment, Signature, HeaderBytes;
    CommandsSize();
    assert Arm64()[..|Arm64()|] == Arm64();
    TwoAt(Arm64(), 0, HeaderBytes(true, false, FIELDS), CommandsBytes(false, Commands2()));
    TwoAt(Arm64(), 32, CommandBytes(false, Segment()), CommandBytes(false, Signature()));
  }

  lemma SegmentPlaces()
    ensures At(Arm64(), 40, LINKEDIT_NAME) && LinkeditAt(Arm64(), 32, true, false, LINK)
  {
    Places();
    hide Word, DoubleWord, Arm64, Zeros;
    var k := CommandBytes(false, Segment());
    var head := Word(false, 0x19) + Word(false, 72);
    assert k == head + (LINKEDIT_NAME + Zeros(16) + SegmentSizes() + Zeros(8));
    assert k[8..24] == LINKEDIT_NAME;
    assert k[40..48] == DoubleWord(false, 0x4000) && k[48..56] == DoubleWord(false, 0);
    assert k[56..64] == DoubleWord(false, SIZE);
    AtInside(Arm64(), 32, k, 8, LINKEDIT_NAME);
    AtInside(Arm64(), 32, k, 40, DoubleWord(false, 0x4000));
    AtInside(Arm64(), 32, k, 48, DoubleWord(false, 0));
    AtInside(Arm64(), 32, k, 56, DoubleWord(false, SIZE));
  }

  lemma SignaturePlaces()
    ensures At(Arm64(), 112, Word(false, SIZE)) && At(Arm64(), 116, Word(false, 0))
  {
    Places();
    hide Word, Arm64;
    var k := CommandBytes(false, Signature());
    assert k[8..12] == Word(false, SIZE) && k[12..16] == Word(false, 0);
    AtInside(Arm64(), 104, k, 8, Word(false, SIZE));
    AtInside(Arm64(), 104, k, 12, Word(false, 0));
  }

  const SIG := CodeSignature(SIZE, 0, 104)

  lemma Arm64Parses()
    ensures ParseSlice(Arm64(), 0, SIZE)
         == Success(Slice(HeaderOf(true, false, FIELDS), [SEGMENT, SIGNATURE], Some(SIG), 0, SIZE))
  {
    SignaturePlaces();
    CommandsRead();
    WholeAt();
    hide Arm64, ParseSlice, HeaderBytes, CommandsBytes, Word, Commands2, FindCodeSignature, CommandsAt;
    SignatureFound(Arm64(), false, [SEGMENT, SIGNATURE], 1, SIZE, 0);
    TwoCommands();
    SliceRoundTrip(Arm64(), 0, SIZE, true, false, FIELDS, Commands2(), Some(SIG));
  }

  lemma TwoCommands()
    ensures |Commands2()| == 2
  {
  }

  lemma WholeAt()
    ensures At(Arm64(), 0, HeaderBytes(true, false, FIELDS) + CommandsBytes(false, Commands2()))
  {
    hide HeaderBytes, CommandsBytes, Commands2;
    assert Arm64()[0..0 + |Arm64()|] == Arm64();
  }

  lemma NameStands()
    ensures NamedLinkedit(Arm64(), 32)
  {
    SegmentPlaces();
    hide Arm64, LinkeditAt;
    forall k | 0 <= k < 16 ensures Arm64()[32 + 8 + k] % 128 == LINKEDIT_NAME[k] {
      assert Arm64()[40..56][k] == LINKEDIT_NAME[k];
    }
  }

  lemma Arm64IsWellFormed()
    ensures WellFormed(Arm64()) && CodeLimit(Arm64()) == SIZE && LinkeditOf(Arm64()) == Some(LINK) && Is64(Arm64())
  {
    hide Arm64, ParseSlice, FirstLinkedit, FirstCommand, HeaderOf, NamedLinkedit, LinkeditAt, LinkeditFields;
    Arm64Parses();
    HeaderFacts(true, false, FIELDS);
    WideHeader();
    NameStands();
    SegmentPlaces();
    FirstIs([SEGMENT, SIGNATURE], 0x1d, 1);
    LinkeditFound(Arm64(), [SEGMENT, SIGNATURE], 0);
    LinkeditRoundTrip(Arm64(), SEGMENT, false, LINK);
  }

  lemma WideHeader()
    ensures HeaderOf(true, false, FIELDS).is64
  {
  }

  lemma Arm64IsReady(n: u32)
    ensures Ready(Arm64(), 128, n)
  {
    hide WellFormed, CodeLimit, LinkeditOf, Arm64, Is64, CeilToPage;
    Arm64IsWellFormed();
  }

  lemma Arm64CanSign(c: Crypto, t: Target)
    requires c.Valid() && BlobFits(t, SIZE, c.cmsMax)
    ensures CanSign(c, t, Arm64())
  {
    hide WellFormed, CodeLimit, LinkeditOf, Arm64, BlobSize, Crypto.Valid, Is64, Ready;
    Arm64IsWellFormed();
    assert Aligned(Arm64()) == 128 && CodeLimit(Arm64()) == SIZE && BlobSize(t, SIZE, c.cmsMax) < U32;
    forall n | BlobSize(t, SIZE, c.cmsMin) <= n <= BlobSize(t, SIZE, c.cmsMax) ensures Ready(Arm64(), 128, n) {
      Arm64IsReady(n);
    }
  }

  /** Every key and target whose signature fits 32 bits can sign it; with a CMS of constant length the checker accepts
      what comes out. */
  lemma Arm64CanBeSigned(c: Crypto, t: Target, now: nat)
    requires c.Valid() && BlobFits(t, SIZE, c.cmsMax)
    ensures CanSign(c, t, Arm64())
    ensures c.cmsMin == c.cmsMax ==> Accepts(c, BundleOf(t), SignedThin(c, t, Arm64(), now))
  {
    hide CanSign, Arm64, Crypto.Valid, Accepts, BundleOf, SignedThin, BlobFits;
    Arm64CanSign(c, t);
    if c.cmsMin == c.cmsMax {
      SignThenVerifyConstantCms(c, t, Arm64(), now);
    }
  }
}
