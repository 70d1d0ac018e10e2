/** Signing one Mach-O slice (src/server/signing/ts-signer.ts): stamping the load commands, the two passes
    over the hashed region, and splicing the signature in. */
module TsSigner {
  import opened Wrappers
  import opened Bytes
  import opened MachO

  // ---------------------------------------------------------------- arithmetic

  /** `Math.ceil(n / unit) * unit` */
  function CeilTo16(n: nat): (r: nat)
    ensures n <= r < n + 16 && r % 16 == 0
    ensures n % 16 == 0 ==> r == n
  {
    (n + 15) / 16 * 16
  }

  /** The page sizes of the two address widths: 16 KiB and 4 KiB. */
  function CeilToPage(n: nat, is64: bool): (r: nat)
    ensures n <= r
    ensures is64 ==> r < n + 0x4000 && r % 0x4000 == 0
    ensures !is64 ==> r < n + 0x1000 && r % 0x1000 == 0
  {
    if is64 then (n + 0x3fff) / 0x4000 * 0x4000 else (n + 0xfff) / 0x1000 * 0x1000
  }

  // ---------------------------------------------------------------- stamping

  /** dataoff and datasize of LC_CODE_SIGNATURE. */
  function StampSignature(b: Bytes, slice: Slice, so: u32, ss: u32): (r: Bytes)
    requires slice.codeSignature.Some? ==> slice.codeSignature.value.loadCommandOffset + 16 <= |b|
    ensures |r| == |b|
  {
    match slice.codeSignature
    case None => b
    case Some(sig) => Put(Put(b, sig.loadCommandOffset + 8, LE32(so)), sig.loadCommandOffset + 12, LE32(ss))
  }

  /** What the writes into a __LINKEDIT command accept: a non-negative size, and room for the fields. */
  predicate LinkeditWritable(b: Bytes, is64: bool, l: Linkedit, end: nat) {
    && l.fileoff <= end
    && l.loadCommandOffset + (if is64 then 64 else 40) <= |b|
    && CeilToPage(end - l.fileoff, is64) < if is64 then U64 else U32
  }

  /** vmsize and filesize of __LINKEDIT, so that the segment ends at `end`. */
  function StampLinkedit(b: Bytes, is64: bool, l: Linkedit, end: nat): (r: Bytes)
    requires LinkeditWritable(b, is64, l, end)
    ensures |r| == |b|
  {
    var filesize := end - l.fileoff;
    if is64 then
      Put(Put(b, l.loadCommandOffset + 40, LE64(CeilToPage(filesize, true))), l.loadCommandOffset + 56, LE64(filesize))
    else
      Put(Put(b, l.loadCommandOffset + 28, LE32(CeilToPage(filesize, false))), l.loadCommandOffset + 36, LE32(filesize))
  }

  predicate Stampable(b: Bytes, slice: Slice, so: nat, ss: nat) {
    && so < U32 && ss < U32
    && (slice.codeSignature.Some? ==> slice.codeSignature.value.loadCommandOffset + 16 <= |b|)
    && var linkedit := FindLinkedit(slice, StampSignature(b, slice, so, ss));
      && linkedit.Success?
      && (linkedit.value.Some? ==> LinkeditWritable(b, slice.header.is64, linkedit.value.value, so + ss))
  }

  function Stamp(b: Bytes, slice: Slice, so: nat, ss: nat): (r: Bytes)
    requires Stampable(b, slice, so, ss)
    ensures |r| == |b|
  {
    var b1 := StampSignature(b, slice, so, ss);
    match FindLinkedit(slice, b1).value
    case None => b1
    case Some(l) => StampLinkedit(b1, slice.header.is64, l, so + ss)
  }

  method StampSignatureMetadata(buf: array<byte>, slice: Slice, signatureOffset: nat, signatureSize: nat)
    requires Stampable(buf[..], slice, signatureOffset, signatureSize)
    modifies buf
    ensures buf[..] == Stamp(old(buf[..]), slice, signatureOffset, signatureSize)
  {
    hide FindLinkedit, LE32, LE64, Put;
    if slice.codeSignature.Some? {
      WriteUInt32LE(buf, signatureOffset, slice.codeSignature.value.loadCommandOffset + 8);
      WriteUInt32LE(buf, signatureSize, slice.codeSignature.value.loadCommandOffset + 12);
    }
    var linkedit := FindLinkedit(slice, buf[..]);
    if linkedit.value.Some? {
      var l := linkedit.value.value;
      var newFilesize := signatureOffset + signatureSize - l.fileoff;
      if slice.header.is64 {
        WriteBigUInt64LE(buf, CeilToPage(newFilesize, true), l.loadCommandOffset + 40);
        WriteBigUInt64LE(buf, newFilesize, l.loadCommandOffset + 56);
      } else {
        WriteUInt32LE(buf, CeilToPage(newFilesize, false), l.loadCommandOffset + 28);
        WriteUInt32LE(buf, newFilesize, l.loadCommandOffset + 36);
      }
    }
  }

  // ---------------------------------------------------------------- slices that can be signed

  function LinkeditWidth(is64: bool): nat { if is64 then 64 else 40 }

  const NO_SLICE := Slice(Header(0, 0, 0, 0, 0, 0, 0, None, false, false, 28), [], None, 0, 0)

  /** The slice a thin file consists of; a placeholder when it does not parse. */
  function Parsed(s: Bytes): Slice {
    match ParseSlice(s, 0, |s|)
    case Success(slice) => slice
    case Failure => NO_SLICE
  }

  function CodeLimit(s: Bytes): nat {
    GetExecutableSize(Parsed(s))
  }

  /** Where LC_CODE_SIGNATURE is. */
  function SignatureCommand(s: Bytes): nat {
    match Parsed(s).codeSignature
    case Some(sig) => sig.loadCommandOffset
    case None => 0
  }

  function Is64(s: Bytes): bool {
    Parsed(s).header.is64
  }

  function LinkeditCommand(s: Bytes): Option<LoadCommand> {
    FirstLinkedit(Parsed(s).loadCommands, s)
  }

  /** A little-endian slice that parses, has LC_CODE_SIGNATURE, keeps its load commands below the code limit, and
      whose commands are large enough for the fields the signer reads and writes in them. */
  predicate WellFormed(s: Bytes) {
    && ParseSlice(s, 0, |s|).Success?
    && !Parsed(s).header.isSwapped
    && Parsed(s).codeSignature.Some?
    && FirstCommand(Parsed(s).loadCommands, LC_CODE_SIGNATURE).value.cmdsize >= 16
    && Parsed(s).header.headerSize <= CodeLimit(s)
    && (forall i :: 0 <= i < |Parsed(s).loadCommands| ==> CommandFits(Parsed(s).loadCommands[i], CodeLimit(s)))
    && (LinkeditCommand(s).Some? ==> LinkeditFits(LinkeditCommand(s).value, Is64(s)))
  }

  predicate CommandFits(lc: LoadCommand, limit: nat) {
    lc.offset + lc.cmdsize <= limit && (IsSegment(lc) ==> lc.cmdsize >= 24)
  }

  predicate LinkeditFits(lc: LoadCommand, is64: bool) {
    lc.cmd == (if is64 then LC_SEGMENT_64 else LC_SEGMENT) && lc.cmdsize >= LinkeditWidth(is64)
  }

  /** Facts about the commands of a well-formed slice, in one place. */
  lemma Commands(s: Bytes)
    requires WellFormed(s)
    ensures
      var slice := Parsed(s);
      var cs := slice.loadCommands;
      && ParseSlice(s, 0, |s|) == Success(slice) && ParseHeader(s, 0) == Success(slice.header)
      && !slice.header.isSwapped
      && CommandsFrom(s, false, slice.header.ncmds, slice.header.headerSize) == Success(cs)
      && slice.offset == 0 && slice.size == |s|
      && slice.header.headerSize <= CodeLimit(s) && slice.header.headerSize <= |s|
  {
    hide ReadU32, ParseHeader, FirstCommand, LinkeditCommand, CommandsFrom;
  }

  lemma SignatureIsCommand(s: Bytes) returns (lc: LoadCommand)
    requires WellFormed(s)
    ensures FirstCommand(Parsed(s).loadCommands, LC_CODE_SIGNATURE) == Some(lc)
    ensures Parsed(s).codeSignature
         == Some(CodeSignature(CodeLimit(s), Parsed(s).codeSignature.value.datasize, lc.offset))
    ensures lc in Parsed(s).loadCommands && lc.cmd == LC_CODE_SIGNATURE && lc.cmdsize >= 16
    ensures SignatureCommand(s) == lc.offset && lc.offset + 16 <= CodeLimit(s) && lc.offset + 16 <= |s|
  {
    lc := FirstCommand(Parsed(s).loadCommands, LC_CODE_SIGNATURE).value;
    FirstCommandIsOne(Parsed(s).loadCommands, LC_CODE_SIGNATURE);
    hide ReadU32, ParseHeader, LinkeditCommand, CommandsFrom;
    Apart(s, lc, lc);
  }

  lemma LinkeditIsCommand(s: Bytes) returns (le: LoadCommand)
    requires WellFormed(s) && LinkeditCommand(s).Some?
    ensures LinkeditCommand(s) == Some(le) && le in Parsed(s).loadCommands
    ensures le.cmd == (if Is64(s) then LC_SEGMENT_64 else LC_SEGMENT) && le.cmdsize >= LinkeditWidth(Is64(s))
    ensures le.offset + LinkeditWidth(Is64(s)) <= CodeLimit(s) && le.offset + LinkeditWidth(Is64(s)) <= |s|
  {
    le := LinkeditCommand(s).value;
    FirstLinkeditIsOne(Parsed(s).loadCommands, s);
    hide ReadU32, ParseSlice;
    Apart(s, le, le);
  }

  /** Two commands are the same one or do not meet. */
  lemma Apart(s: Bytes, a: LoadCommand, b: LoadCommand)
    requires WellFormed(s) && a in Parsed(s).loadCommands && b in Parsed(s).loadCommands
    ensures a == b || a.offset + a.cmdsize <= b.offset || b.offset + b.cmdsize <= a.offset
    ensures a.offset + a.cmdsize <= CodeLimit(s) && a.offset + a.cmdsize <= |s|
    ensures Parsed(s).header.headerSize <= a.offset && a.cmdsize >= 8
    ensures IsSegment(a) ==> a.cmdsize >= 24
  {
    Commands(s);
    var cs := Parsed(s).loadCommands;
    CommandsInOrder(s, false, Parsed(s).header.ncmds, Parsed(s).header.headerSize);
    hide CommandsFrom, ParseSlice, Parsed, FirstCommand, LinkeditCommand;
    var i :| 0 <= i < |cs| && cs[i] == a;
    var j :| 0 <= j < |cs| && cs[j] == b;
    assert CommandFits(cs[i], CodeLimit(s));
    if i < j { assert cs[i].offset + cs[i].cmdsize <= cs[j].offset; }
    if j < i { assert cs[j].offset + cs[j].cmdsize <= cs[i].offset; }
  }

  /** LC_CODE_SIGNATURE and __LINKEDIT are different commands. */
  lemma SignatureApartFromLinkedit(s: Bytes)
    requires WellFormed(s) && LinkeditCommand(s).Some?
    ensures
      var lco, leo := SignatureCommand(s), LinkeditCommand(s).value.offset;
      lco + 16 <= leo || leo + LinkeditWidth(Is64(s)) <= lco
  {
    var lc := SignatureIsCommand(s);
    var le := LinkeditIsCommand(s);
    Apart(s, le, lc);
    hide WellFormed, LinkeditCommand, FirstCommand;
  }

  /** The range [lo, hi) meets neither the stamped signature fields nor the stamped __LINKEDIT fields. */
  predicate Untouched(s: Bytes, lo: nat, hi: nat) {
    && lo <= hi <= |s|
    && (hi <= SignatureCommand(s) + 8 || SignatureCommand(s) + 16 <= lo)
    && (LinkeditCommand(s).Some? ==>
          hi <= LinkeditCommand(s).value.offset + 24 || LinkeditCommand(s).value.offset + LinkeditWidth(Is64(s)) <= lo)
  }

  lemma CommandHeadUntouched(s: Bytes, k: LoadCommand)
    requires WellFormed(s) && k in Parsed(s).loadCommands
    ensures Untouched(s, k.offset, k.offset + 8)
    ensures IsSegment(k) ==> Untouched(s, k.offset + 8, k.offset + 24)
  {
    var lc := SignatureIsCommand(s);
    Apart(s, k, lc);
    if LinkeditCommand(s).Some? {
      var le := LinkeditIsCommand(s);
      Apart(s, k, le);
    }
    hide WellFormed, Parsed, FirstCommand, LinkeditCommand;
  }

  lemma HeaderUntouched(s: Bytes)
    requires WellFormed(s)
    ensures Untouched(s, 0, Parsed(s).header.headerSize)
  {
    var lc := SignatureIsCommand(s);
    Apart(s, lc, lc);
    if LinkeditCommand(s).Some? {
      var le := LinkeditIsCommand(s);
      Apart(s, le, le);
    }
    hide WellFormed, Parsed, FirstCommand, LinkeditCommand;
  }

  lemma StampSignatureFrame(b: Bytes, slice: Slice, so: u32, ss: u32, lo: nat, hi: nat)
    requires slice.codeSignature.Some? && slice.codeSignature.value.loadCommandOffset + 16 <= |b|
    requires lo <= hi <= |b|
    requires
      || hi <= slice.codeSignature.value.loadCommandOffset + 8
      || slice.codeSignature.value.loadCommandOffset + 16 <= lo
    ensures StampSignature(b, slice, so, ss)[lo..hi] == b[lo..hi]
  {
    hide Put, LE32;
    var off := slice.codeSignature.value.loadCommandOffset;
    PutFrame(b, off + 8, LE32(so), lo, hi);
    PutFrame(Put(b, off + 8, LE32(so)), off + 12, LE32(ss), lo, hi);
  }

  lemma StampLinkeditFrame(b: Bytes, is64: bool, l: Linkedit, end: nat, lo: nat, hi: nat)
    requires LinkeditWritable(b, is64, l, end) && lo <= hi <= |b|
    requires
      || hi <= l.loadCommandOffset + (if is64 then 40 else 28) || l.loadCommandOffset + LinkeditWidth(is64) <= lo
      || (is64 && lo == l.loadCommandOffset + 48 && hi == lo + 8)
      || (!is64 && lo == l.loadCommandOffset + 32 && hi == lo + 4)
    ensures StampLinkedit(b, is64, l, end)[lo..hi] == b[lo..hi]
  {
    hide Put, LE32, LE64, CeilToPage;
    var filesize := end - l.fileoff;
    var off := l.loadCommandOffset;
    if is64 {
      PutFrame(b, off + 40, LE64(CeilToPage(filesize, true)), lo, hi);
      PutFrame(Put(b, off + 40, LE64(CeilToPage(filesize, true))), off + 56, LE64(filesize), lo, hi);
    } else {
      PutFrame(b, off + 28, LE32(CeilToPage(filesize, false)), lo, hi);
      PutFrame(Put(b, off + 28, LE32(CeilToPage(filesize, false))), off + 36, LE32(filesize), lo, hi);
    }
  }

  lemma StampSignatureFields(b: Bytes, slice: Slice, so: u32, ss: u32)
    requires slice.codeSignature.Some? && slice.codeSignature.value.loadCommandOffset + 16 <= |b|
    ensures At(StampSignature(b, slice, so, ss), slice.codeSignature.value.loadCommandOffset + 8, LE32(so))
    ensures At(StampSignature(b, slice, so, ss), slice.codeSignature.value.loadCommandOffset + 12, LE32(ss))
  {
    hide Put, LE32;
    var off := slice.codeSignature.value.loadCommandOffset;
    PutAt(b, off + 8, LE32(so));
    PutFrame(Put(b, off + 8, LE32(so)), off + 12, LE32(ss), off + 8, off + 12);
    PutAt(Put(b, off + 8, LE32(so)), off + 12, LE32(ss));
  }

  lemma StampLinkeditFields(b: Bytes, is64: bool, l: Linkedit, end: nat)
    requires LinkeditWritable(b, is64, l, end)
    ensures
      var r := StampLinkedit(b, is64, l, end);
      var off := l.loadCommandOffset;
      if is64 then At(r, off + 40, LE64(CeilToPage(end - l.fileoff, true))) && At(r, off + 56, LE64(end - l.fileoff))
      else At(r, off + 28, LE32(CeilToPage(end - l.fileoff, false))) && At(r, off + 36, LE32(end - l.fileoff))
  {
    hide Put, LE32, LE64, CeilToPage;
    var filesize := end - l.fileoff;
    var off := l.loadCommandOffset;
    if is64 {
      var vm := LE64(CeilToPage(filesize, true));
      PutAt(b, off + 40, vm);
      PutFrame(Put(b, off + 40, vm), off + 56, LE64(filesize), off + 40, off + 48);
      PutAt(Put(b, off + 40, vm), off + 56, LE64(filesize));
    } else {
      var vm := LE32(CeilToPage(filesize, false));
      PutAt(b, off + 28, vm);
      PutFrame(Put(b, off + 28, vm), off + 36, LE32(filesize), off + 28, off + 32);
      PutAt(Put(b, off + 28, vm), off + 36, LE32(filesize));
    }
  }
}
