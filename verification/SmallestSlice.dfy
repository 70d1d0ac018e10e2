/** A smallest slice that can be signed: a 32-bit header and LC_CODE_SIGNATURE. It shows that what the signer demands
    can be met, and serves as the concrete input on which a drifting signature length defeats the single retry. */
module SmallestSlice {
  import opened Wrappers
  import opened Bytes
  import opened CodeSign
  import opened MachO
  import opened MachOLayout
  import opened SignatureBlob
  import opened TsSigner
  import opened Stamping
  import opened SliceSigning
  import opened Checker
  import opened SignVerify

  const SIZE: u32 := 44

  /** Seven header words with one load command, then cmd, cmdsize, dataoff and datasize. */
  const WORDS: seq<u32> := [MH_MAGIC, 7, 0, 2, 1, 16, 0, LC_CODE_SIGNATURE, 16, SIZE, 0]

  function Smallest(): (s: Bytes)
    ensures |s| == SIZE
  {
    WordList(false, WORDS)
  }

  lemma ReadSmallest(i: nat)
    requires i < 11
    ensures ReadLE32(Smallest(), 4 * i) == WORDS[i]
  {
    assert At(Smallest(), 0, WordList(false, WORDS));
    WordsRead(Smallest(), 0, false, WORDS, i);
  }

  const HEADER := Header(MH_MAGIC, 7, 0, 2, 1, 16, 0, None, false, false, 28)
  const COMMAND := LoadCommand(LC_CODE_SIGNATURE, 16, 28)

  lemma HeaderParses()
    ensures ParseHeader(Smallest(), 0) == Success(HEADER)
  {
    hide ReadLE32, Smallest;
    ReadSmallest(0); ReadSmallest(1); ReadSmallest(2); ReadSmallest(3);
    ReadSmallest(4); ReadSmallest(5); ReadSmallest(6);
  }

  lemma CommandParses()
    ensures CommandsFrom(Smallest(), false, 1, 28) == Success([COMMAND])
  {
    hide ReadLE32, Smallest;
    ReadSmallest(7); ReadSmallest(8);
    assert ReadU32(Smallest(), 28, false) == LC_CODE_SIGNATURE && ReadU32(Smallest(), 32, false) == 16;
    assert CommandsFrom(Smallest(), false, 0, 44) == Success([]);
    assert [COMMAND] + [] == [COMMAND];
  }

  lemma SignatureParses()
    ensures FindCodeSignature([COMMAND], Smallest(), false) == Success(Some(CodeSignature(SIZE, 0, 28)))
  {
    hide ReadLE32, Smallest;
    ReadSmallest(9); ReadSmallest(10);
    assert FirstCommand([COMMAND], LC_CODE_SIGNATURE) == Some(COMMAND);
  }

  lemma SmallestParses()
    ensures ParseSlice(Smallest(), 0, SIZE)
         == Success(Slice(HEADER, [COMMAND], Some(CodeSignature(SIZE, 0, 28)), 0, SIZE))
  {
    HeaderParses();
    CommandParses();
    SignatureParses();
    hide ParseHeader, CommandsFrom, FindCodeSignature, Smallest;
  }

  lemma NoLinkedit()
    ensures FirstLinkedit([COMMAND], Smallest()) == None
  {
    hide Smallest;
    assert FirstLinkedit([COMMAND][1..], Smallest()) == None;
  }

  lemma SmallestParsed()
    ensures Parsed(Smallest()) == Slice(HEADER, [COMMAND], Some(CodeSignature(SIZE, 0, 28)), 0, SIZE)
    ensures ParseSlice(Smallest(), 0, SIZE).Success?
  {
    hide ParseSlice, Smallest;
    SmallestParses();
  }

  lemma SmallestIsWellFormed()
    ensures WellFormed(Smallest()) && CodeLimit(Smallest()) == SIZE && LinkeditOf(Smallest()) == None
  {
    hide ParseSlice, Smallest, FirstLinkedit, FirstCommand, Parsed, FindLinkedit;
    SmallestParsed();
    FirstOfOne();
    NoLinkedit();
    assert LinkeditCommand(Smallest()) == None;
    NoneFound();
  }

  lemma FirstOfOne()
    ensures FirstCommand([COMMAND], LC_CODE_SIGNATURE) == Some(COMMAND)
  {
  }

  lemma NoneFound()
    requires FirstLinkedit([COMMAND], Smallest()) == None
    ensures FindLinkedit(Slice(HEADER, [COMMAND], Some(CodeSignature(SIZE, 0, 28)), 0, SIZE), Smallest())
         == Success(None)
  {
    hide Smallest, FirstLinkedit;
  }

  /** Every key and target whose signature fits 32 bits can sign it. */
  lemma SmallestCanBeSigned(c: Crypto, t: Target)
    requires c.Valid() && BlobFits(t, SIZE, c.cmsMax)
    ensures CanSign(c, t, Smallest())
  {
    hide WellFormed, CodeLimit, LinkeditOf, Smallest, BlobSize, Crypto.Valid;
    SmallestIsWellFormed();
  }

  /** A concrete case in which the signer returns a file that does not verify. */
  lemma RetryCanFail()
    ensures
      var c, t := GrowingCms(0), Nested([], [], None, None);
      && CanSign(c, t, Smallest()) && !Accepts(c, BundleOf(t), SignedThin(c, t, Smallest(), 0))
  {
    var c, t := GrowingCms(0), Nested([], [], None, None);
    assert c.Valid();
    assert PageCount(SIZE, CS_PAGE_SIZE) == 1;
    assert Span(2, 32) == 64 && Span(1, 32) == 32 by {
      assert Span(1, 32) == 32 + Span(0, 32);
    }
    assert BlobFits(t, SIZE, 2);
    hide *;
    SmallestCanBeSigned(c, t);
    GrowingCmsIsRejected(t, Smallest(), 0);
  }
}
