/** An independent writer of Mach-O headers, load commands and fat tables, byte by byte, and the laws that the parser
    of `MachO` reads back what it writes. Every offset and every magic byte stands here as a literal. */
module MachOLayout {
  import opened Wrappers
  import opened Bytes
  import opened MachO

  // ---------------------------------------------------------------- words

  /** A 32-bit word in the byte order of the file. */
  function Word(big: bool, v: u32): (b: Bytes)
    ensures |b| == 4
  {
    if big then [v / 0x100_0000, v / 0x1_0000 % 0x100, v / 0x100 % 0x100, v % 0x100]
    else [v % 0x100, v / 0x100 % 0x100, v / 0x1_0000 % 0x100, v / 0x100_0000]
  }

  function WordList(big: bool, ws: seq<u32>): (b: Bytes)
    ensures |b| == 4 * |ws|
  {
    if ws == [] then [] else WordList(big, ws[..|ws| - 1]) + Word(big, ws[|ws| - 1])
  }

  lemma WordRead(buf: Bytes, off: nat, big: bool, v: u32)
    requires At(buf, off, Word(big, v))
    ensures ReadU32(buf, off, big) == v
  {
    RoundTrip32(v);
  }

  lemma {:induction false} WordAt(big: bool, ws: seq<u32>, i: nat)
    requires i < |ws|
    ensures At(WordList(big, ws), 4 * i, Word(big, ws[i]))
  {
    hide Word;
    if i < |ws| - 1 {
      var init := ws[..|ws| - 1];
      WordAt(big, init, i);
      assert WordList(big, ws)[4 * i..4 * i + 4] == WordList(big, init)[4 * i..4 * i + 4];
    }
  }

  /** Word `i` of the words that stand at `off`. */
  lemma WordsRead(buf: Bytes, off: nat, big: bool, ws: seq<u32>, i: nat)
    requires At(buf, off, WordList(big, ws)) && i < |ws|
    ensures off + 4 * i + 4 <= |buf| && ReadU32(buf, off + 4 * i, big) == ws[i]
  {
    hide Word, WordList, ReadU32;
    WordAt(big, ws, i);
    AtInside(buf, off, WordList(big, ws), 4 * i, Word(big, ws[i]));
    WordRead(buf, off + 4 * i, big, ws[i]);
  }

  lemma TwoAt(buf: Bytes, off: nat, a: Bytes, b: Bytes)
    requires At(buf, off, a + b)
    ensures At(buf, off, a) && At(buf, off + |a|, b)
  {
    assert (a + b)[..|a|] == a && (a + b)[|a|..] == b;
    AtInside(buf, off, a + b, 0, a);
    AtInside(buf, off, a + b, |a|, b);
  }

  // ---------------------------------------------------------------- header

  /** The first four bytes of a file of the given width and byte order. */
  function MagicBytes(is64: bool, big: bool): (b: Bytes)
    ensures |b| == 4
  {
    if is64 then (if big then [0xfe, 0xed, 0xfa, 0xcf] else [0xcf, 0xfa, 0xed, 0xfe])
    else if big then [0xfe, 0xed, 0xfa, 0xce] else [0xce, 0xfa, 0xed, 0xfe]
  }

  /** Those bytes as a little-endian word. */
  function MagicWord(is64: bool, big: bool): u32 {
    if is64 then (if big then 0xcffaedfe else 0xfeedfacf)
    else if big then 0xcefaedfe else 0xfeedface
  }

  /** cputype, cpusubtype, filetype, ncmds, sizeofcmds and flags; a 64-bit header has one more word. */
  datatype HeaderFields = HeaderFields(cputype: u32, cpusubtype: u32, filetype: u32, ncmds: u32, sizeofcmds: u32,
                                       flags: u32, reserved: u32)

  function HeaderWords(is64: bool, h: HeaderFields): (ws: seq<u32>) {
    [h.cputype, h.cpusubtype, h.filetype, h.ncmds, h.sizeofcmds, h.flags] + if is64 then [h.reserved] else []
  }

  function HeaderBytes(is64: bool, big: bool, h: HeaderFields): (b: Bytes)
    ensures |b| == if is64 then 32 else 28
  {
    MagicBytes(is64, big) + WordList(big, HeaderWords(is64, h))
  }

  function HeaderOf(is64: bool, big: bool, h: HeaderFields): Header {
    Header(MagicWord(is64, big), h.cputype, h.cpusubtype, h.filetype, h.ncmds, h.sizeofcmds, h.flags,
           if is64 then Some(h.reserved) else None, is64, big, if is64 then 32 else 28)
  }

  lemma MagicRead(buf: Bytes, off: nat, is64: bool, big: bool)
    requires At(buf, off, MagicBytes(is64, big))
    ensures ReadLE32(buf, off) == MagicWord(is64, big)
  {
    assert buf[off..off + 4] == MagicBytes(is64, big);
  }

  lemma FieldsRead(buf: Bytes, off: nat, is64: bool, big: bool, h: HeaderFields)
    requires At(buf, off, WordList(big, HeaderWords(is64, h)))
    ensures off + (if is64 then 28 else 24) <= |buf|
    ensures ReadU32(buf, off, big) == h.cputype && ReadU32(buf, off + 4, big) == h.cpusubtype
    ensures ReadU32(buf, off + 8, big) == h.filetype && ReadU32(buf, off + 12, big) == h.ncmds
    ensures ReadU32(buf, off + 16, big) == h.sizeofcmds && ReadU32(buf, off + 20, big) == h.flags
    ensures is64 ==> ReadU32(buf, off + 24, big) == h.reserved
  {
    hide ReadU32, WordList;
    var ws := HeaderWords(is64, h);
    WordsRead(buf, off, big, ws, 0); WordsRead(buf, off, big, ws, 1); WordsRead(buf, off, big, ws, 2);
    WordsRead(buf, off, big, ws, 3); WordsRead(buf, off, big, ws, 4); WordsRead(buf, off, big, ws, 5);
    if is64 {
      WordsRead(buf, off, big, ws, 6);
    }
  }

  /** Header round trip, for every width, byte order and field values, anywhere in a buffer. */
  lemma HeaderRoundTrip(buf: Bytes, off: nat, is64: bool, big: bool, h: HeaderFields)
    requires At(buf, off, HeaderBytes(is64, big, h))
    ensures ParseHeader(buf, off) == Success(HeaderOf(is64, big, h))
  {
    hide ReadU32, WordList, ReadLE32, FromLE32;
    var magic, ws := MagicBytes(is64, big), WordList(big, HeaderWords(is64, h));
    TwoAt(buf, off, magic, ws);
    MagicRead(buf, off, is64, big);
    FieldsRead(buf, off + 4, is64, big, h);
  }

  lemma MagicOnly(b: Bytes, is64: bool, big: bool)
    requires |b| == 4 && FromLE32(b) == MagicWord(is64, big)
    ensures b == MagicBytes(is64, big)
  {
    assert b[3] == FromLE32(b) / 0x100_0000 && b[2] == FromLE32(b) / 0x1_0000 % 0x100;
    assert b[1] == FromLE32(b) / 0x100 % 0x100 && b[0] == FromLE32(b) % 0x100;
  }

  /** Nothing else is read as a header: it starts with one of the four magics and is there in full. */
  lemma HeaderIff(buf: Bytes, off: nat)
    ensures ParseHeader(buf, off).Success? <==>
      exists is64, big :: At(buf, off, MagicBytes(is64, big)) && off + (if is64 then 32 else 28) <= |buf|
  {
    hide ReadU32;
    if is64, big :| At(buf, off, MagicBytes(is64, big)) && off + (if is64 then 32 else 28) <= |buf| {
      MagicRead(buf, off, is64, big);
    }
    if ParseHeader(buf, off).Success? {
      var h := ParseHeader(buf, off).value;
      MagicOnly(buf[off..off + 4], h.is64, h.isSwapped);
      assert At(buf, off, MagicBytes(h.is64, h.isSwapped));
    }
  }

  // ---------------------------------------------------------------- load commands

  /** A load command: its kind, and what follows the two leading words. */
  datatype Command = Command(cmd: u32, payload: Bytes)

  function Size(k: Command): nat { 8 + |k.payload| }

  function CommandBytes(big: bool, k: Command): (b: Bytes)
    requires Size(k) < U32
    ensures |b| == Size(k)
  {
    Word(big, k.cmd) + Word(big, Size(k)) + k.payload
  }

  predicate Sized(ks: seq<Command>) {
    forall i :: 0 <= i < |ks| ==> Size(ks[i]) < U32
  }

  function CommandsBytes(big: bool, ks: seq<Command>): Bytes
    requires Sized(ks)
  {
    if ks == [] then [] else CommandBytes(big, ks[0]) + CommandsBytes(big, ks[1..])
  }

  /** What must be read back for commands of which the first starts at `off`. */
  function CommandsAt(ks: seq<Command>, off: nat): (cs: seq<LoadCommand>)
    requires Sized(ks)
    ensures |cs| == |ks|
  {
    if ks == [] then [] else [LoadCommand(ks[0].cmd, Size(ks[0]), off)] + CommandsAt(ks[1..], off + Size(ks[0]))
  }

  lemma CommandHead(buf: Bytes, off: nat, big: bool, k: Command)
    requires Size(k) < U32 && At(buf, off, CommandBytes(big, k))
    ensures off + Size(k) <= |buf|
    ensures ReadU32(buf, off, big) == k.cmd && ReadU32(buf, off + 4, big) == Size(k)
  {
    hide Word, ReadU32;
    var b := CommandBytes(big, k);
    assert b[0..4] == Word(big, k.cmd) && b[4..8] == Word(big, Size(k));
    AtInside(buf, off, b, 0, Word(big, k.cmd));
    AtInside(buf, off, b, 4, Word(big, Size(k)));
    WordRead(buf, off, big, k.cmd);
    WordRead(buf, off + 4, big, Size(k));
  }

  /** Round trip of a list of load commands, each behind the one before. */
  lemma {:induction false} CommandsRoundTrip(buf: Bytes, off: nat, big: bool, ks: seq<Command>)
    requires Sized(ks) && At(buf, off, CommandsBytes(big, ks))
    ensures CommandsFrom(buf, big, |ks|, off) == Success(CommandsAt(ks, off))
    decreases |ks|
  {
    hide CommandBytes, ReadU32;
    if ks != [] {
      var first, rest := CommandBytes(big, ks[0]), CommandsBytes(big, ks[1..]);
      TwoAt(buf, off, first, rest);
      CommandHead(buf, off, big, ks[0]);
      CommandsRoundTrip(buf, off + Size(ks[0]), big, ks[1..]);
    }
  }

  /** The first LC_CODE_SIGNATURE counts, with dataoff at its offset 8 and datasize at 12. */
  lemma {:induction false} SignatureFound(buf: Bytes, big: bool, cs: seq<LoadCommand>, i: nat, dataoff: u32,
                                          datasize: u32)
    requires i < |cs| && cs[i].cmd == 0x1d && forall j :: 0 <= j < i ==> cs[j].cmd != 0x1d
    requires At(buf, cs[i].offset + 8, Word(big, dataoff)) && At(buf, cs[i].offset + 12, Word(big, datasize))
    ensures FindCodeSignature(cs, buf, big) == Success(Some(CodeSignature(dataoff, datasize, cs[i].offset)))
  {
    hide Word, ReadU32;
    FirstIs(cs, 0x1d, i);
    WordRead(buf, cs[i].offset + 8, big, dataoff);
    WordRead(buf, cs[i].offset + 12, big, datasize);
  }

  lemma {:induction false} FirstIs(cs: seq<LoadCommand>, cmd: u32, i: nat)
    requires i < |cs| && cs[i].cmd == cmd && forall j :: 0 <= j < i ==> cs[j].cmd != cmd
    ensures FirstCommand(cs, cmd) == Some(cs[i])
  {
    if i > 0 {
      FirstIs(cs[1..], cmd, i - 1);
    }
  }

  lemma {:induction false} SignatureAbsent(buf: Bytes, big: bool, cs: seq<LoadCommand>)
    requires forall j :: 0 <= j < |cs| ==> cs[j].cmd != 0x1d
    ensures FindCodeSignature(cs, buf, big) == Success(None)
  {
    NoneIs(cs, 0x1d);
  }

  lemma {:induction false} NoneIs(cs: seq<LoadCommand>, cmd: u32)
    requires forall j :: 0 <= j < |cs| ==> cs[j].cmd != cmd
    ensures FirstCommand(cs, cmd) == None
  {
    if cs != [] {
      NoneIs(cs[1..], cmd);
    }
  }

  // ---------------------------------------------------------------- __LINKEDIT

  /** `__LINKEDIT` and six NULs. */
  const LINKEDIT_NAME: Bytes :=
    [0x5f, 0x5f, 0x4c, 0x49, 0x4e, 0x4b, 0x45, 0x44, 0x49, 0x54, 0, 0, 0, 0, 0, 0]

  /** The 16 bytes at offset 8 spell the name; the top bit of each is ignored. */
  predicate NamedLinkedit(buf: Bytes, off: nat) {
    off + 24 <= |buf| && forall k :: 0 <= k < 16 ==> buf[off + 8 + k] % 128 == LINKEDIT_NAME[k]
  }

  lemma {:induction false} StripIs(s: Bytes, name: Bytes)
    requires |name| <= |s| && name != [] && name[|name| - 1] != 0
    ensures StripNuls(s) == name
       <==> s[..|name|] == name && forall k :: |name| <= k < |s| ==> s[k] == 0
  {
    if |s| == |name| {
      assert s[..|name|] == s;
      StripShorter(s);
    } else if s[|s| - 1] == 0 {
      StripIs(s[..|s| - 1], name);
      assert s[..|s| - 1][..|name|] == s[..|name|];
    }
  }

  lemma {:induction false} StripShorter(s: Bytes)
    ensures |StripNuls(s)| <= |s| && (|StripNuls(s)| == |s| ==> StripNuls(s) == s)
  {
    if s != [] && s[|s| - 1] == 0 {
      StripShorter(s[..|s| - 1]);
    }
  }

  lemma NameIff(buf: Bytes, off: nat)
    requires off + 24 <= |buf|
    ensures SegmentName(buf, off) == LINKEDIT <==> NamedLinkedit(buf, off)
  {
    var raw := buf[off + 8..off + 24];
    var ascii := seq(|raw|, i requires 0 <= i < |raw| => raw[i] % 128);
    StripIs(ascii, LINKEDIT);
    assert forall k :: 0 <= k < 16 ==> ascii[k] == buf[off + 8 + k] % 128;
    assert LINKEDIT == LINKEDIT_NAME[..10];
    if NamedLinkedit(buf, off) {
      assert forall k :: 0 <= k < 16 ==> ascii[k] == LINKEDIT_NAME[k];
      assert ascii[..10] == LINKEDIT;
    }
    if ascii[..10] == LINKEDIT && forall k :: 10 <= k < 16 ==> ascii[k] == 0 {
      forall k | 0 <= k < 16 ensures ascii[k] == LINKEDIT_NAME[k] {
        assert k < 10 ==> ascii[k] == ascii[..10][k];
      }
    }
  }

  /** The first segment command of that name counts. */
  lemma {:induction false} LinkeditFound(buf: Bytes, cs: seq<LoadCommand>, i: nat)
    requires i < |cs| && (cs[i].cmd == 1 || cs[i].cmd == 0x19) && NamedLinkedit(buf, cs[i].offset)
    requires forall j :: 0 <= j < i && (cs[j].cmd == 1 || cs[j].cmd == 0x19) ==>
      cs[j].offset + 24 <= |buf| && !NamedLinkedit(buf, cs[j].offset)
    ensures FirstLinkedit(cs, buf) == Some(cs[i])
  {
    hide SegmentName, NamedLinkedit;
    NamedFits(buf, cs[i].offset);
    NameIff(buf, cs[i].offset);
    if i > 0 {
      if cs[0].cmd == 1 || cs[0].cmd == 0x19 {
        NameIff(buf, cs[0].offset);
      }
      LinkeditFound(buf, cs[1..], i - 1);
    }
  }

  lemma NamedFits(buf: Bytes, off: nat)
    requires NamedLinkedit(buf, off)
    ensures off + 24 <= |buf|
  {
  }

  /** A 64-bit value, low word first; big-endian ones have the high word first. */
  function DoubleWord(big: bool, v: u64): (b: Bytes)
    ensures |b| == 8
  {
    if big then Word(true, v / 0x1_0000_0000) + Word(true, v % 0x1_0000_0000)
    else Word(false, v % 0x1_0000_0000) + Word(false, v / 0x1_0000_0000)
  }

  lemma DoubleWordRead(buf: Bytes, off: nat, v: u64)
    ensures At(buf, off, DoubleWord(false, v)) ==> ReadLE64(buf, off) == v
    ensures At(buf, off, DoubleWord(true, v)) ==> ReadBE64(buf, off) == v
  {
    RoundTrip64(v);
    RoundTrip32(v / 0x1_0000_0000);
    RoundTrip32(v % 0x1_0000_0000);
    var b := DoubleWord(true, v);
    assert b[..4] == BE32(v / 0x1_0000_0000) && b[4..] == BE32(v % 0x1_0000_0000);
    assert DoubleWord(false, v) == LE64(v);
    hide FromBE32, FromLE64, BE32;
  }

  /** Where findLinkeditSegment reads: vmsize at 40, fileoff at 48 and filesize at 56 of a 64-bit segment, at 28, 32
      and 36 of a 32-bit one. */
  predicate LinkeditAt(buf: Bytes, off: nat, is64: bool, big: bool, l: Linkedit) {
    if is64 then
      && At(buf, off + 40, DoubleWord(false, l.vmsize))
      && At(buf, off + 48, DoubleWord(false, l.fileoff))
      && At(buf, off + 56, DoubleWord(false, l.filesize))
    else
      && l.vmsize < U32 && At(buf, off + 28, Word(big, l.vmsize))
      && l.fileoff < U32 && At(buf, off + 32, Word(big, l.fileoff))
      && l.filesize < U32 && At(buf, off + 36, Word(big, l.filesize))
  }

  lemma LinkeditRoundTrip(buf: Bytes, lc: LoadCommand, big: bool, l: Linkedit)
    requires (lc.cmd == 1 || lc.cmd == 0x19) && l.loadCommandOffset == lc.offset
    requires LinkeditAt(buf, lc.offset, lc.cmd == 0x19, big, l)
    ensures LinkeditFields(lc, buf, big) == Success(l)
  {
    hide Word, DoubleWord, ReadU32, ReadLE64;
    if lc.cmd == 0x19 {
      DoubleWordRead(buf, lc.offset + 40, l.vmsize);
      DoubleWordRead(buf, lc.offset + 48, l.fileoff);
      DoubleWordRead(buf, lc.offset + 56, l.filesize);
    } else {
      WordRead(buf, lc.offset + 28, big, l.vmsize);
      WordRead(buf, lc.offset + 32, big, l.fileoff);
      WordRead(buf, lc.offset + 36, big, l.filesize);
    }
  }

  // ---------------------------------------------------------------- a whole slice

  lemma HeaderFacts(is64: bool, big: bool, h: HeaderFields)
    ensures HeaderOf(is64, big, h).isSwapped == big && HeaderOf(is64, big, h).ncmds == h.ncmds
    ensures HeaderOf(is64, big, h).headerSize == if is64 then 32 else 28
  {
  }

  /** A slice written as header, load commands and anything behind them is read back as just that. */
  lemma SliceRoundTrip(buf: Bytes, off: nat, size: nat, is64: bool, big: bool, h: HeaderFields, ks: seq<Command>,
                       sig: Option<CodeSignature>)
    requires Sized(ks) && h.ncmds == |ks|
    requires At(buf, off, HeaderBytes(is64, big, h) + CommandsBytes(big, ks))
    requires FindCodeSignature(CommandsAt(ks, off + (if is64 then 32 else 28)), buf, big) == Success(sig)
    ensures ParseSlice(buf, off, size)
         == Success(Slice(HeaderOf(is64, big, h), CommandsAt(ks, off + (if is64 then 32 else 28)), sig, off, size))
  {
    hide HeaderBytes, CommandsBytes, ParseHeader, CommandsFrom, FindCodeSignature, CommandsAt, At, HeaderOf, Sized;
    var head, tail := HeaderBytes(is64, big, h), CommandsBytes(big, ks);
    TwoAt(buf, off, head, tail);
    HeaderRoundTrip(buf, off, is64, big, h);
    HeaderFacts(is64, big, h);
    CommandsRoundTrip(buf, off + |head|, big, ks);
  }

  // ---------------------------------------------------------------- fat tables

  /** The four magics a fat file can start with, and whether its records are the wide ones. */
  predicate FatMagic(b: Bytes, wide: bool) {
    if wide then b == [0xca, 0xfe, 0xba, 0xbf] || b == [0xbf, 0xba, 0xfe, 0xca]
    else b == [0xca, 0xfe, 0xba, 0xbe] || b == [0xbe, 0xba, 0xfe, 0xca]
  }

  /** A record: cputype, cpusubtype, offset, size and align, always big-endian; wide offsets and sizes take 8 bytes. */
  predicate ArchAt(buf: Bytes, off: nat, wide: bool, a: FatArch) {
    && At(buf, off, Word(true, a.cputype)) && At(buf, off + 4, Word(true, a.cpusubtype))
    && if wide then
         && At(buf, off + 8, DoubleWord(true, a.offset)) && At(buf, off + 16, DoubleWord(true, a.size))
         && At(buf, off + 24, Word(true, a.align))
       else
         && a.offset < U32 && At(buf, off + 8, Word(true, a.offset))
         && a.size < U32 && At(buf, off + 12, Word(true, a.size))
         && At(buf, off + 16, Word(true, a.align))
  }

  lemma BigWordRead(buf: Bytes, off: nat, v: u32)
    requires At(buf, off, Word(true, v))
    ensures ReadBE32(buf, off) == v
  {
    WordRead(buf, off, true, v);
  }

  lemma ArchRoundTrip(buf: Bytes, off: nat, wide: bool, a: FatArch)
    requires ArchAt(buf, off, wide, a)
    ensures ReadArch(buf, wide, off) == Success(a)
  {
    hide Word, DoubleWord, ReadBE32, ReadBE64;
    BigWordRead(buf, off, a.cputype);
    BigWordRead(buf, off + 4, a.cpusubtype);
    if wide {
      DoubleWordRead(buf, off + 8, a.offset);
      DoubleWordRead(buf, off + 16, a.size);
      BigWordRead(buf, off + 24, a.align);
    } else {
      BigWordRead(buf, off + 8, a.offset);
      BigWordRead(buf, off + 12, a.size);
      BigWordRead(buf, off + 16, a.align);
    }
  }

  /** Record `i` starts at 8 + 20 * i, or 8 + 32 * i when wide. */
  predicate TableAt(buf: Bytes, wide: bool, archs: seq<FatArch>) {
    forall i :: 0 <= i < |archs| ==> RecordAt(buf, wide, i, archs[i])
  }

  predicate RecordAt(buf: Bytes, wide: bool, i: nat, a: FatArch) {
    ArchAt(buf, 8 + i * (if wide then 32 else 20), wide, a)
  }

  lemma {:induction false} TableRoundTrip(buf: Bytes, wide: bool, archs: seq<FatArch>, n: nat)
    requires n <= |archs| && TableAt(buf, wide, archs)
    ensures FatArchs(buf, wide, n) == Success(archs[..n])
  {
    hide ArchAt, ReadArch;
    if n > 0 {
      TableRoundTrip(buf, wide, archs, n - 1);
      SpanIsProduct(n - 1, ArchSize(wide));
      assert RecordAt(buf, wide, n - 1, archs[n - 1]);
      ArchRoundTrip(buf, 8 + (n - 1) * (if wide then 32 else 20), wide, archs[n - 1]);
      assert archs[..n] == archs[..n - 1] + [archs[n - 1]];
    }
  }

  lemma FatMagicRead(buf: Bytes, wide: bool)
    requires |buf| >= 4 && FatMagic(buf[..4], wide)
    ensures IsFatMagic(ReadBE32(buf, 0))
    ensures wide <==> ReadBE32(buf, 0) == FAT_MAGIC_64 || ReadBE32(buf, 0) == FAT_CIGAM_64
  {
    assert buf[0..4] == buf[..4];
  }

  lemma {:induction false} SlicesRead(buf: Bytes, archs: seq<FatArch>, slices: seq<Slice>)
    requires |slices| == |archs|
    requires forall i :: 0 <= i < |archs| ==> ParseSlice(buf, archs[i].offset, archs[i].size) == Success(slices[i])
    ensures FatSlices(buf, archs) == Success(slices)
  {
    hide ParseSlice;
    if archs != [] {
      var n := |archs| - 1;
      SlicesRead(buf, archs[..n], slices[..n]);
      assert slices == slices[..n] + [slices[n]];
    }
  }

  /** A fat file of at most 20 records is read back as its table and the slices the records point to. */
  lemma FatRoundTrip(buf: Bytes, wide: bool, archs: seq<FatArch>, slices: seq<Slice>)
    requires |buf| >= 8 && FatMagic(buf[..4], wide) && |archs| <= 20
    requires At(buf, 4, Word(true, |archs|)) && TableAt(buf, wide, archs)
    requires |slices| == |archs|
    requires forall i :: 0 <= i < |archs| ==> ParseSlice(buf, archs[i].offset, archs[i].size) == Success(slices[i])
    ensures ParseMachO(buf) == Success(Binary(true, slices, archs))
  {
    hide Word, ReadBE32, IsFatMagic, ParseSlice, TableAt, FatSlices, FatArchs;
    FatMagicRead(buf, wide);
    BigWordRead(buf, 4, |archs|);
    TableRoundTrip(buf, wide, archs, |archs|);
    assert archs[..|archs|] == archs;
    SlicesRead(buf, archs, slices);
  }

  /** More than 20 records are refused. */
  lemma FatTooMany(buf: Bytes, wide: bool, n: u32)
    requires |buf| >= 8 && FatMagic(buf[..4], wide) && At(buf, 4, Word(true, n)) && n > 20
    ensures ParseMachO(buf) == Failure
  {
    hide Word, ReadBE32, IsFatMagic;
    FatMagicRead(buf, wide);
    BigWordRead(buf, 4, n);
  }

  lemma ThinMagic(buf: Bytes, is64: bool, big: bool)
    requires At(buf, 0, MagicBytes(is64, big))
    ensures !IsFatMagic(ReadBE32(buf, 0))
  {
    assert buf[0..4] == MagicBytes(is64, big);
  }

  /** A file that starts with one of the four header magics is read as a single slice. */
  lemma ThinRoundTrip(buf: Bytes, is64: bool, big: bool)
    requires At(buf, 0, MagicBytes(is64, big)) && ParseSlice(buf, 0, |buf|).Success?
    ensures ParseMachO(buf) == Success(Binary(false, [ParseSlice(buf, 0, |buf|).value], []))
  {
    hide ParseSlice, ReadBE32, IsFatMagic;
    ThinMagic(buf, is64, big);
  }
}
