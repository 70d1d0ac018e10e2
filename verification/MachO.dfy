/** Mach-O parsing (src/server/signing/macho.ts). Exceptions, the reader's own and the RangeErrors of
    out-of-range Buffer reads alike, are the value `Failure`. */
module MachO {
  import opened Wrappers
  import opened Bytes

  const MH_MAGIC: u32 := 0xfeedface
  const MH_CIGAM: u32 := 0xcefaedfe
  const MH_MAGIC_64: u32 := 0xfeedfacf
  const MH_CIGAM_64: u32 := 0xcffaedfe
  const FAT_MAGIC: u32 := 0xcafebabe
  const FAT_CIGAM: u32 := 0xbebafeca
  const FAT_MAGIC_64: u32 := 0xcafebabf
  const FAT_CIGAM_64: u32 := 0xbfbafeca
  const LC_SEGMENT: u32 := 0x01
  const LC_SEGMENT_64: u32 := 0x19
  const LC_CODE_SIGNATURE: u32 := 0x1d

  datatype Header = Header(
    magic: u32, cputype: u32, cpusubtype: u32, filetype: u32, ncmds: u32, sizeofcmds: u32, flags: u32,
    reserved: Option<u32>, is64: bool, isSwapped: bool, headerSize: nat)

  /** The `data` view of the original is the bytes from `offset` on, `cmdsize` long. */
  datatype LoadCommand = LoadCommand(cmd: u32, cmdsize: u32, offset: nat)

  datatype CodeSignature = CodeSignature(dataoff: u32, datasize: u32, loadCommandOffset: nat)

  datatype Slice = Slice(header: Header, loadCommands: seq<LoadCommand>, codeSignature: Option<CodeSignature>,
                         offset: nat, size: nat)

  datatype FatArch = FatArch(cputype: u32, cpusubtype: u32, offset: u64, size: u64, align: u32)

  datatype Binary = Binary(isFat: bool, slices: seq<Slice>, fatArchs: seq<FatArch>)

  /** readUint32: big-endian for a swapped file. */
  function ReadU32(buf: Bytes, off: nat, swap: bool): u32
    requires off + 4 <= |buf|
  {
    if swap then ReadBE32(buf, off) else ReadLE32(buf, off)
  }

  // ---------------------------------------------------------------- header

  function ParseHeader(buf: Bytes, offset: nat): (r: Result<Header>)
    ensures r.Success? ==> offset + r.value.headerSize <= |buf| && 28 <= r.value.headerSize <= 32
  {
    if offset + 28 > |buf| then Failure
    else
      var magic := ReadLE32(buf, offset);
      if magic != MH_MAGIC && magic != MH_CIGAM && magic != MH_MAGIC_64 && magic != MH_CIGAM_64 then Failure
      else
        var is64 := magic == MH_MAGIC_64 || magic == MH_CIGAM_64;
        var swap := magic == MH_CIGAM || magic == MH_CIGAM_64;
        if is64 && offset + 32 > |buf| then Failure
        else
          Success(Header(magic, ReadU32(buf, offset + 4, swap), ReadU32(buf, offset + 8, swap),
                         ReadU32(buf, offset + 12, swap), ReadU32(buf, offset + 16, swap),
                         ReadU32(buf, offset + 20, swap), ReadU32(buf, offset + 24, swap),
                         if is64 then Some(ReadU32(buf, offset + 28, swap)) else None,
                         is64, swap, if is64 then 32 else 28))
  }

  // ---------------------------------------------------------------- load commands

  /** `n` load commands, the first at `off`. */
  function CommandsFrom(buf: Bytes, swap: bool, n: nat, off: nat): Result<seq<LoadCommand>> {
    if n == 0 then Success([])
    else if off + 8 > |buf| then Failure
    else
      var cmdsize := ReadU32(buf, off + 4, swap);
      if cmdsize < 8 || off + cmdsize > |buf| then Failure
      else
        match CommandsFrom(buf, swap, n - 1, off + cmdsize)
        case Failure => Failure
        case Success(rest) => Success([LoadCommand(ReadU32(buf, off, swap), cmdsize, off)] + rest)
  }

  function Prepend<T>(front: seq<T>, r: Result<seq<T>>): Result<seq<T>> {
    match r
    case Failure => Failure
    case Success(rest) => Success(front + rest)
  }

  method ParseLoadCommands(buf: Bytes, header: Header, baseOffset: nat) returns (r: Result<seq<LoadCommand>>)
    ensures r == CommandsFrom(buf, header.isSwapped, header.ncmds, baseOffset + header.headerSize)
  {
    hide ReadU32;
    var commands: seq<LoadCommand> := [];
    var offset := baseOffset + header.headerSize;
    ghost var whole := CommandsFrom(buf, header.isSwapped, header.ncmds, offset);
    var i := 0;
    if whole.Success? { assert [] + whole.value == whole.value; }
    while i < header.ncmds
      invariant 0 <= i <= header.ncmds && 0 <= offset
      invariant whole == Prepend(commands, CommandsFrom(buf, header.isSwapped, header.ncmds - i, offset))
    {
      if offset + 8 > |buf| {
        return Failure;
      }
      var cmd, cmdsize := ReadU32(buf, offset, header.isSwapped), ReadU32(buf, offset + 4, header.isSwapped);
      if cmdsize < 8 || offset + cmdsize > |buf| {
        return Failure;
      }
      ghost var rest := CommandsFrom(buf, header.isSwapped, header.ncmds - i - 1, offset + cmdsize);
      if rest.Success? {
        assert commands + ([LoadCommand(cmd, cmdsize, offset)] + rest.value)
            == commands + [LoadCommand(cmd, cmdsize, offset)] + rest.value;
      }
      commands := commands + [LoadCommand(cmd, cmdsize, offset)];
      offset := offset + cmdsize;
      i := i + 1;
    }
    assert commands + [] == commands;
    r := Success(commands);
  }

  /** The first load command of a kind; the `for .. if .. return` of the original. */
  function FirstCommand(commands: seq<LoadCommand>, cmd: u32): Option<LoadCommand> {
    if commands == [] then None
    else if commands[0].cmd == cmd then Some(commands[0])
    else
      FirstCommand(commands[1..], cmd)
  }

  function FindCodeSignature(commands: seq<LoadCommand>, buf: Bytes, swap: bool): Result<Option<CodeSignature>> {
    match FirstCommand(commands, LC_CODE_SIGNATURE)
    case None => Success(None)
    case Some(lc) =>
      if lc.offset + 16 > |buf| then Failure
      else
        Success(Some(CodeSignature(ReadU32(buf, lc.offset + 8, swap), ReadU32(buf, lc.offset + 12, swap), lc.offset)))
  }

  function ParseSlice(buf: Bytes, offset: nat, size: nat): Result<Slice> {
    match ParseHeader(buf, offset)
    case Failure => Failure
    case Success(header) =>
      match CommandsFrom(buf, header.isSwapped, header.ncmds, offset + header.headerSize)
      case Failure => Failure
      case Success(commands) =>
        match FindCodeSignature(commands, buf, header.isSwapped)
        case Failure => Failure
        case Success(sig) => Success(Slice(header, commands, sig, offset, size))
  }

  // ---------------------------------------------------------------- whole files

  predicate IsFatMagic(magic: u32) {
    magic == FAT_MAGIC || magic == FAT_CIGAM || magic == FAT_MAGIC_64 || magic == FAT_CIGAM_64
  }

  function ReadArch(buf: Bytes, is64: bool, off: nat): Result<FatArch> {
    if off + (if is64 then 28 else 20) > |buf| then Failure
    else
      Success(FatArch(ReadBE32(buf, off), ReadBE32(buf, off + 4),
                      if is64 then ReadBE64(buf, off + 8) else ReadBE32(buf, off + 8),
                      if is64 then ReadBE64(buf, off + 16) else ReadBE32(buf, off + 12),
                      ReadBE32(buf, off + (if is64 then 24 else 16))))
  }

  function ArchSize(is64: bool): nat { if is64 then 32 else 20 }

  function FatArchs(buf: Bytes, is64: bool, n: nat): (r: Result<seq<FatArch>>)
    ensures r.Success? ==> |r.value| == n
  {
    if n == 0 then Success([])
    else
      match (FatArchs(buf, is64, n - 1), ReadArch(buf, is64, 8 + Span(n - 1, ArchSize(is64))))
      case (Success(before), Success(arch)) => Success(before + [arch])
      case _ => Failure
  }

  function FatSlices(buf: Bytes, archs: seq<FatArch>): (r: Result<seq<Slice>>)
    ensures r.Success? ==> |r.value| == |archs|
  {
    if archs == [] then Success([])
    else
      var last := archs[|archs| - 1];
      match (FatSlices(buf, archs[..|archs| - 1]), ParseSlice(buf, last.offset, last.size))
      case (Success(before), Success(slice)) => Success(before + [slice])
      case _ => Failure
  }

  function FatBinary(buf: Bytes): Result<Binary>
    requires |buf| >= 4 && IsFatMagic(ReadBE32(buf, 0))
  {
    var magic := ReadBE32(buf, 0);
    if |buf| < 8 || ReadBE32(buf, 4) > 20 then Failure
    else
      match FatArchs(buf, magic == FAT_MAGIC_64 || magic == FAT_CIGAM_64, ReadBE32(buf, 4))
      case Failure => Failure
      case Success(archs) =>
        match FatSlices(buf, archs)
        case Failure => Failure
        case Success(slices) => Success(Binary(true, slices, archs))
  }

  function ParseMachO(buf: Bytes): Result<Binary> {
    if |buf| < 4 then Failure
    else if IsFatMagic(ReadBE32(buf, 0)) then FatBinary(buf)
    else
      match ParseSlice(buf, 0, |buf|)
      case Failure => Failure
      case Success(slice) => Success(Binary(false, [slice], []))
  }

  lemma {:induction false} FatArchsFailEarly(buf: Bytes, is64: bool, m: nat, n: nat)
    requires m <= n && FatArchs(buf, is64, m).Failure?
    ensures FatArchs(buf, is64, n).Failure?
  {
    if m < n {
      FatArchsFailEarly(buf, is64, m, n - 1);
    }
  }

  lemma {:induction false} FatArchsPrefix(buf: Bytes, is64: bool, m: nat, n: nat)
    requires m <= n && FatArchs(buf, is64, n).Success?
    ensures FatArchs(buf, is64, m).Success?
    ensures FatArchs(buf, is64, m).value == FatArchs(buf, is64, n).value[..m]
  {
    if m < n {
      FatArchsPrefix(buf, is64, m, n - 1);
    }
  }

  lemma {:induction false} FatSlicesFailEarly(buf: Bytes, archs: seq<FatArch>, m: nat)
    requires m <= |archs| && FatSlices(buf, archs[..m]).Failure?
    ensures FatSlices(buf, archs).Failure?
  {
    if m < |archs| {
      assert archs[..|archs| - 1][..m] == archs[..m];
      FatSlicesFailEarly(buf, archs[..|archs| - 1], m);
    } else {
      assert archs[..m] == archs;
    }
  }

  /** An arch record or a slice that does not parse fails the whole file. */
  lemma FatFails(buf: Bytes, i: nat)
    requires |buf| >= 8 && IsFatMagic(ReadBE32(buf, 0)) && i < ReadBE32(buf, 4)
    requires
      var is64 := ReadBE32(buf, 0) == FAT_MAGIC_64 || ReadBE32(buf, 0) == FAT_CIGAM_64;
      var done := FatArchs(buf, is64, i);
      var arch := ReadArch(buf, is64, 8 + Span(i, ArchSize(is64)));
      done.Failure? || arch.Failure? || ParseSlice(buf, arch.value.offset, arch.value.size).Failure?
    ensures FatBinary(buf) == Failure
  {
    hide ReadArch, ParseSlice, ReadBE32;
    var is64 := ReadBE32(buf, 0) == FAT_MAGIC_64 || ReadBE32(buf, 0) == FAT_CIGAM_64;
    var n := ReadBE32(buf, 4);
    if FatArchs(buf, is64, i + 1).Failure? {
      FatArchsFailEarly(buf, is64, i + 1, n);
    } else if FatArchs(buf, is64, n).Success? {
      var archs := FatArchs(buf, is64, n).value;
      FatArchsPrefix(buf, is64, i + 1, n);
      assert archs[..i + 1][..i] == archs[..i];
      FatSlicesFailEarly(buf, archs, i + 1);
    }
  }

  method ParseFatBinary(buf: Bytes) returns (r: Result<Binary>)
    requires |buf| >= 4 && IsFatMagic(ReadBE32(buf, 0))
    ensures r == FatBinary(buf)
  {
    hide ReadArch, ParseSlice, FromBE32, Span;
    var magic := ReadBE32(buf, 0);
    var is64 := magic == FAT_MAGIC_64 || magic == FAT_CIGAM_64;
    if |buf| < 8 || ReadBE32(buf, 4) > 20 {
      return Failure;
    }
    var nfatArch := ReadBE32(buf, 4);
    var fatArchs: seq<FatArch> := [];
    var slices: seq<Slice> := [];
    var archOffset := 8;
    var i := 0;
    SpanNext(0, ArchSize(is64));
    while i < nfatArch
      invariant 0 <= i <= nfatArch && archOffset == 8 + Span(i, ArchSize(is64))
      invariant FatArchs(buf, is64, i) == Success(fatArchs)
      invariant FatSlices(buf, fatArchs) == Success(slices)
    {
      var arch := ReadArch(buf, is64, archOffset);
      if arch.Failure? {
        FatFails(buf, i);
        return Failure;
      }
      archOffset := archOffset + ArchSize(is64);
      SpanNext(i, ArchSize(is64));
      var slice := ParseSlice(buf, arch.value.offset, arch.value.size);
      if slice.Failure? {
        FatFails(buf, i);
        return Failure;
      }
      assert (fatArchs + [arch.value])[..|fatArchs|] == fatArchs;
      fatArchs := fatArchs + [arch.value];
      slices := slices + [slice.value];
      i := i + 1;
    }
    r := Success(Binary(true, slices, fatArchs));
  }

  // ---------------------------------------------------------------- helpers of the signer

  function GetExecutableSize(slice: Slice): nat {
    match slice.codeSignature
    case Some(sig) => sig.dataoff
    case None => slice.size
  }

  datatype Linkedit = Linkedit(fileoff: u64, filesize: u64, vmsize: u64, loadCommandOffset: nat)

  const LINKEDIT: Bytes := [0x5f, 0x5f, 0x4c, 0x49, 0x4e, 0x4b, 0x45, 0x44, 0x49, 0x54]

  /** `toString('ascii')` drops the top bit; the trailing NULs are then cut off. */
  function StripNuls(s: Bytes): Bytes {
    if s == [] || s[|s| - 1] != 0 then s else StripNuls(s[..|s| - 1])
  }

  function SegmentName(buf: Bytes, off: nat): Bytes {
    var raw := buf[Clamp(off + 8, |buf|)..Clamp(off + 24, |buf|)];
    StripNuls(seq(|raw|, i requires 0 <= i < |raw| => raw[i] % 128))
  }

  /** The bounds of `Buffer.subarray`. */
  function Clamp(i: nat, n: nat): (r: nat)
    ensures r <= n && r <= i
    ensures i <= n ==> r == i
  {
    if i <= n then i else n
  }

  predicate IsSegment(lc: LoadCommand) {
    lc.cmd == LC_SEGMENT || lc.cmd == LC_SEGMENT_64
  }

  function FirstLinkedit(commands: seq<LoadCommand>, buf: Bytes): Option<LoadCommand> {
    if commands == [] then None
    else if IsSegment(commands[0]) && SegmentName(buf, commands[0].offset) == LINKEDIT then Some(commands[0])
    else
      FirstLinkedit(commands[1..], buf)
  }

  /** Reads the fields the code reads: offsets 40, 48, 56 for a 64-bit segment, 28, 32, 36 for a 32-bit one. */
  function LinkeditFields(lc: LoadCommand, buf: Bytes, swap: bool): Result<Linkedit> {
    if lc.cmd == LC_SEGMENT_64 then
      if lc.offset + 64 > |buf| then Failure
      else
        Success(Linkedit(ReadLE64(buf, lc.offset + 48), ReadLE64(buf, lc.offset + 56),
                         ReadLE64(buf, lc.offset + 40), lc.offset))
    else if lc.offset + 40 > |buf| then Failure
    else
      Success(Linkedit(ReadU32(buf, lc.offset + 32, swap), ReadU32(buf, lc.offset + 36, swap),
                       ReadU32(buf, lc.offset + 28, swap), lc.offset))
  }

  function FindLinkedit(slice: Slice, buf: Bytes): Result<Option<Linkedit>> {
    match FirstLinkedit(slice.loadCommands, buf)
    case None => Success(None)
    case Some(lc) =>
      match LinkeditFields(lc, buf, slice.header.isSwapped)
      case Failure => Failure
      case Success(l) => Success(Some(l))
  }

  // ---------------------------------------------------------------- what a parse depends on

  /** `b` has at `off + d` the `len` bytes `a` has at `off`. */
  predicate SameAt(a: Bytes, b: Bytes, d: nat, off: nat, len: nat) {
    off + len <= |a| && off + d + len <= |b| && b[off + d..off + d + len] == a[off..off + len]
  }

  lemma SameField(a: Bytes, b: Bytes, d: nat, off: nat, len: nat, inner: nat, n: nat)
    requires SameAt(a, b, d, off, len) && inner + n <= len
    ensures SameAt(a, b, d, off + inner, n)
  {
    SliceOfSlice(a, off, off + len, inner, inner + n);
    SliceOfSlice(b, off + d, off + d + len, inner, inner + n);
  }

  function Shift(commands: seq<LoadCommand>, d: nat): (r: seq<LoadCommand>)
    ensures |r| == |commands|
    ensures forall i :: 0 <= i < |r| ==> r[i] == commands[i].(offset := commands[i].offset + d)
  {
    seq(|commands|, i requires 0 <= i < |commands| => commands[i].(offset := commands[i].offset + d))
  }

  lemma SameRead(a: Bytes, b: Bytes, d: nat, off: nat, len: nat, inner: nat, swap: bool)
    requires SameAt(a, b, d, off, len) && inner + 4 <= len
    ensures ReadU32(b, off + d + inner, swap) == ReadU32(a, off + inner, swap)
  {
    SameField(a, b, d, off, len, inner, 4);
  }

  lemma ReachesTo(a: Bytes, b: Bytes, d: nat, off: nat, len: nat)
    requires SameAt(a, b, d, off, len)
    ensures off + len <= |a| && off + d + len <= |b|
  {
  }

  lemma HeaderMoves(a: Bytes, b: Bytes, d: nat, off: nat)
    requires ParseHeader(a, off).Success?
    requires SameAt(a, b, d, off, ParseHeader(a, off).value.headerSize)
    ensures ParseHeader(b, off + d) == ParseHeader(a, off)
  {
    hide ReadLE32, ReadBE32, SameAt;
    var h := ParseHeader(a, off).value;
    ReachesTo(a, b, d, off, h.headerSize);
    SameRead(a, b, d, off, h.headerSize, 0, false);
    SameRead(a, b, d, off, h.headerSize, 4, h.isSwapped);
    SameRead(a, b, d, off, h.headerSize, 8, h.isSwapped);
    SameRead(a, b, d, off, h.headerSize, 12, h.isSwapped);
    SameRead(a, b, d, off, h.headerSize, 16, h.isSwapped);
    SameRead(a, b, d, off, h.headerSize, 20, h.isSwapped);
    SameRead(a, b, d, off, h.headerSize, 24, h.isSwapped);
    if h.is64 {
      SameRead(a, b, d, off, h.headerSize, 28, h.isSwapped);
    }
    assert ReadLE32(b, off + d) == ReadLE32(a, off);
  }

  /** Load commands depend on their first eight bytes and on the buffer reaching to their end. */
  lemma {:induction false} CommandsMove(a: Bytes, b: Bytes, d: nat, swap: bool, n: nat, off: nat, limit: nat)
    requires CommandsFrom(a, swap, n, off).Success?
    requires limit + d <= |b|
    requires forall i :: 0 <= i < |CommandsFrom(a, swap, n, off).value| ==>
      var lc := CommandsFrom(a, swap, n, off).value[i];
      lc.offset + lc.cmdsize <= limit && SameAt(a, b, d, lc.offset, 8)
    ensures CommandsFrom(b, swap, n, off + d) == Success(Shift(CommandsFrom(a, swap, n, off).value, d))
    decreases n
  {
    hide SameAt, ReadU32;
    var cs := CommandsFrom(a, swap, n, off).value;
    if n > 0 {
      var lc := cs[0];
      assert SameAt(a, b, d, lc.offset, 8);
      ReachesTo(a, b, d, off, 8);
      SameRead(a, b, d, off, 8, 0, swap);
      SameRead(a, b, d, off, 8, 4, swap);
      var rest := CommandsFrom(a, swap, n - 1, off + lc.cmdsize).value;
      assert cs == [lc] + rest;
      forall i | 0 <= i < |rest|
        ensures rest[i].offset + rest[i].cmdsize <= limit && SameAt(a, b, d, rest[i].offset, 8)
      {
        assert rest[i] == cs[i + 1];
      }
      CommandsMove(a, b, d, swap, n - 1, off + lc.cmdsize, limit);
      assert off + lc.cmdsize + d == off + d + lc.cmdsize;
      assert Shift(cs, d) == [lc.(offset := lc.offset + d)] + Shift(rest, d);
    }
  }

  /** Commands lie one behind the other from `off` on, inside the buffer. */
  lemma {:induction false} CommandsInOrder(a: Bytes, swap: bool, n: nat, off: nat)
    requires CommandsFrom(a, swap, n, off).Success?
    ensures
      var cs := CommandsFrom(a, swap, n, off).value;
      && |cs| == n
      && (forall i :: 0 <= i < |cs| ==>
            off <= cs[i].offset && cs[i].cmdsize >= 8 && cs[i].offset + cs[i].cmdsize <= |a|)
      && (forall i, j :: 0 <= i < j < |cs| ==> cs[i].offset + cs[i].cmdsize <= cs[j].offset)
  {
    if n > 0 {
      var cs := CommandsFrom(a, swap, n, off).value;
      CommandsInOrder(a, swap, n - 1, off + cs[0].cmdsize);
      var rest := CommandsFrom(a, swap, n - 1, off + cs[0].cmdsize).value;
      assert cs == [cs[0]] + rest;
      forall i, j | 0 <= i < j < |cs| ensures cs[i].offset + cs[i].cmdsize <= cs[j].offset {
        assert cs[j] == rest[j - 1];
        if i > 0 { assert cs[i] == rest[i - 1]; }
      }
      forall i | 0 <= i < |cs|
        ensures off <= cs[i].offset && cs[i].cmdsize >= 8 && cs[i].offset + cs[i].cmdsize <= |a|
      {
        if i > 0 { assert cs[i] == rest[i - 1]; }
      }
    }
  }

  lemma {:induction false} FirstCommandMoves(cs: seq<LoadCommand>, cmd: u32, d: nat)
    ensures FirstCommand(Shift(cs, d), cmd)
         == match FirstCommand(cs, cmd) case None => None case Some(lc) => Some(lc.(offset := lc.offset + d))
  {
    if cs != [] {
      FirstCommandMoves(cs[1..], cmd, d);
      assert Shift(cs, d)[1..] == Shift(cs[1..], d);
    }
  }

  lemma {:induction false} FirstCommandIsOne(cs: seq<LoadCommand>, cmd: u32)
    requires FirstCommand(cs, cmd).Some?
    ensures FirstCommand(cs, cmd).value in cs && FirstCommand(cs, cmd).value.cmd == cmd
  {
    if cs[0].cmd != cmd {
      FirstCommandIsOne(cs[1..], cmd);
    }
  }

  lemma NameMoves(a: Bytes, b: Bytes, d: nat, off: nat)
    requires SameAt(a, b, d, off + 8, 16)
    ensures SegmentName(b, off + d) == SegmentName(a, off)
  {
    assert off + d + 8 == off + 8 + d;
    var ra, rb := a[off + 8..off + 24], b[off + d + 8..off + d + 24];
    assert ra == rb;
    assert Clamp(off + 8, |a|) == off + 8 && Clamp(off + 24, |a|) == off + 24;
    assert Clamp(off + d + 8, |b|) == off + d + 8 && Clamp(off + d + 24, |b|) == off + d + 24;
    assert seq(|ra|, i requires 0 <= i < |ra| => ra[i] % 128) == seq(|rb|, i requires 0 <= i < |rb| => rb[i] % 128);
  }

  lemma {:induction false} FirstLinkeditMoves(cs: seq<LoadCommand>, a: Bytes, b: Bytes, d: nat)
    requires forall i :: 0 <= i < |cs| && IsSegment(cs[i]) ==> SameAt(a, b, d, cs[i].offset + 8, 16)
    ensures FirstLinkedit(Shift(cs, d), b)
         == match FirstLinkedit(cs, a) case None => None case Some(lc) => Some(lc.(offset := lc.offset + d))
  {
    if cs != [] {
      FirstLinkeditMoves(cs[1..], a, b, d);
      assert Shift(cs, d)[1..] == Shift(cs[1..], d);
      if IsSegment(cs[0]) {
        NameMoves(a, b, d, cs[0].offset);
      }
    }
  }

  lemma {:induction false} FirstLinkeditIsOne(cs: seq<LoadCommand>, a: Bytes)
    requires FirstLinkedit(cs, a).Some?
    ensures FirstLinkedit(cs, a).value in cs && IsSegment(FirstLinkedit(cs, a).value)
  {
    if !(IsSegment(cs[0]) && SegmentName(a, cs[0].offset) == LINKEDIT) {
      FirstLinkeditIsOne(cs[1..], a);
    }
  }
}
