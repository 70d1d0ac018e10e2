/** What stamping leaves as it was and what it sets: the parse of a stamped slice. */
module Stamping {
  import opened Wrappers
  import opened Bytes
  import opened MachO
  import opened TsSigner

  /** __LINKEDIT as the code reads it, if the slice has one. */
  function LinkeditOf(s: Bytes): Option<Linkedit> {
    match FindLinkedit(Parsed(s), s)
    case Success(l) => l
    case Failure => None
  }

  /** The sizes fit the stamped fields and the signature does not end before __LINKEDIT starts. */
  predicate Ready(s: Bytes, so: nat, ss: nat) {
    && so < U32 && ss < U32
    && (LinkeditOf(s).Some? ==> LinkeditWritable(s, Is64(s), LinkeditOf(s).value, so + ss))
  }

  lemma LinkeditReadable(s: Bytes)
    requires WellFormed(s)
    ensures FindLinkedit(Parsed(s), s) == Success(LinkeditOf(s))
    ensures LinkeditOf(s).Some? == LinkeditCommand(s).Some?
    ensures LinkeditOf(s).Some? ==>
      && LinkeditOf(s).value.loadCommandOffset == LinkeditCommand(s).value.offset
      && LinkeditFields(LinkeditCommand(s).value, s, false) == Success(LinkeditOf(s).value)
  {
    Commands(s);
    if LinkeditCommand(s).Some? {
      var le := LinkeditIsCommand(s);
    }
    hide WellFormed, Parsed, FirstLinkedit;
  }

  lemma ShiftZero(cs: seq<LoadCommand>)
    ensures Shift(cs, 0) == cs
  {
  }

  /** Equal bytes in the field range read as equal fields. */
  lemma FieldsSame(a: Bytes, b: Bytes, d: nat, lc: LoadCommand)
    requires SameAt(a, b, d, lc.offset + 24, LinkeditWidth(lc.cmd == LC_SEGMENT_64) - 24)
    requires LinkeditFields(lc, a, false).Success?
    ensures LinkeditFields(lc.(offset := lc.offset + d), b, false)
         == Success(LinkeditFields(lc, a, false).value.(loadCommandOffset := lc.offset + d))
  {
    var off, n := lc.offset + 24, LinkeditWidth(lc.cmd == LC_SEGMENT_64) - 24;
    if lc.cmd == LC_SEGMENT_64 {
      SameField(a, b, d, off, n, 16, 8);
      SameField(a, b, d, off, n, 24, 8);
      SameField(a, b, d, off, n, 32, 8);
      hide FromLE64;
    } else {
      SameField(a, b, d, off, n, 4, 4);
      SameField(a, b, d, off, n, 8, 4);
      SameField(a, b, d, off, n, 12, 4);
      hide FromLE32;
    }
  }

  lemma SameNames(s: Bytes, b: Bytes, d: nat)
    requires WellFormed(s)
    requires forall k :: k in Parsed(s).loadCommands && IsSegment(k) ==> SameAt(s, b, d, k.offset + 8, 16)
    ensures FirstLinkedit(Shift(Parsed(s).loadCommands, d), b)
         == match LinkeditCommand(s) case None => None case Some(lc) => Some(lc.(offset := lc.offset + d))
  {
    hide WellFormed, Parsed, SameAt;
    var cs := Parsed(s).loadCommands;
    forall i | 0 <= i < |cs| && IsSegment(cs[i]) ensures SameAt(s, b, d, cs[i].offset + 8, 16) {
      assert cs[i] in cs;
    }
    FirstLinkeditMoves(cs, s, b, d);
  }

  /** findLinkeditSegment depends on the segment names and the fields it reads, wherever they lie. */
  lemma LinkeditMoves(s: Bytes, b: Bytes, d: nat, slice: Slice)
    requires WellFormed(s)
    requires forall k :: k in Parsed(s).loadCommands && IsSegment(k) ==> SameAt(s, b, d, k.offset + 8, 16)
    requires LinkeditCommand(s).Some? ==>
      SameAt(s, b, d, LinkeditCommand(s).value.offset + 24, LinkeditWidth(Is64(s)) - 24)
    requires slice.loadCommands == Shift(Parsed(s).loadCommands, d) && !slice.header.isSwapped
    ensures FindLinkedit(slice, b)
         == Success(match LinkeditOf(s) case None => None
                    case Some(l) => Some(l.(loadCommandOffset := l.loadCommandOffset + d)))
  {
    hide WellFormed, Parsed, LinkeditCommand, LinkeditFields, SameAt, LinkeditOf;
    SameNames(s, b, d);
    LinkeditReadable(s);
    if LinkeditCommand(s).Some? {
      var le := LinkeditIsCommand(s);
      FieldsSame(s, b, d, le);
    }
  }

  lemma SegmentNamesAfterSignature(s: Bytes, so: u32, ss: u32, k: LoadCommand)
    requires WellFormed(s) && k in Parsed(s).loadCommands && IsSegment(k)
    ensures SignatureCommand(s) + 16 <= |s|
    ensures SameAt(s, StampSignature(s, Parsed(s), so, ss), 0, k.offset + 8, 16)
  {
    CommandHeadUntouched(s, k);
    var lc := SignatureIsCommand(s);
    hide WellFormed, Parsed, LinkeditCommand, StampSignature, FirstCommand;
    StampSignatureFrame(s, Parsed(s), so, ss, k.offset + 8, k.offset + 24);
  }

  lemma LinkeditFieldsAfterSignature(s: Bytes, so: u32, ss: u32)
    requires WellFormed(s) && LinkeditCommand(s).Some?
    ensures SignatureCommand(s) + 16 <= |s| && Parsed(s).codeSignature.Some?
    ensures SameAt(s, StampSignature(s, Parsed(s), so, ss), 0, LinkeditCommand(s).value.offset + 24,
                   LinkeditWidth(Is64(s)) - 24)
  {
    hide WellFormed, Parsed, LinkeditCommand, StampSignature, FirstCommand;
    var lc := SignatureIsCommand(s);
    SignatureApartFromLinkedit(s);
    var le := LinkeditIsCommand(s);
    StampSignatureFrame(s, Parsed(s), so, ss, le.offset + 24, le.offset + LinkeditWidth(Is64(s)));
  }

  /** Stamping dataoff and datasize does not change what findLinkeditSegment returns. */
  lemma LinkeditAfterSignature(s: Bytes, so: u32, ss: u32)
    requires WellFormed(s)
    ensures SignatureCommand(s) + 16 <= |s| && Parsed(s).codeSignature.Some?
    ensures FindLinkedit(Parsed(s), StampSignature(s, Parsed(s), so, ss)) == Success(LinkeditOf(s))
  {
    hide WellFormed, Parsed, LinkeditCommand, StampSignature, FirstCommand, FindLinkedit, LinkeditOf, SameAt;
    var lc := SignatureIsCommand(s);
    Commands(s);
    var b1 := StampSignature(s, Parsed(s), so, ss);
    forall k | k in Parsed(s).loadCommands && IsSegment(k) ensures SameAt(s, b1, 0, k.offset + 8, 16) {
      SegmentNamesAfterSignature(s, so, ss, k);
    }
    ShiftZero(Parsed(s).loadCommands);
    if LinkeditCommand(s).Some? {
      LinkeditFieldsAfterSignature(s, so, ss);
    }
    LinkeditMoves(s, b1, 0, Parsed(s));
  }

  /** The stamped slice; `s` itself where stampSignatureMetadata would throw. */
  function Stamped(s: Bytes, so: nat, ss: nat): (r: Bytes)
    ensures |r| == |s|
  {
    if Stampable(s, Parsed(s), so, ss) then Stamp(s, Parsed(s), so, ss) else s
  }

  function AfterSignature(s: Bytes, so: nat, ss: nat): (r: Bytes)
    ensures |r| == |s|
  {
    if so < U32 && ss < U32 && SignatureCommand(s) + 16 <= |s| then StampSignature(s, Parsed(s), so, ss) else s
  }

  /** Stamping, written out with the __LINKEDIT of the unstamped slice. */
  lemma StampIs(s: Bytes, so: nat, ss: nat)
    requires WellFormed(s) && Ready(s, so, ss)
    ensures Stampable(s, Parsed(s), so, ss)
    ensures LinkeditOf(s).Some? ==> LinkeditWritable(AfterSignature(s, so, ss), Is64(s), LinkeditOf(s).value, so + ss)
    ensures Stamped(s, so, ss)
         == match LinkeditOf(s)
            case None => AfterSignature(s, so, ss)
            case Some(l) => StampLinkedit(AfterSignature(s, so, ss), Is64(s), l, so + ss)
  {
    LinkeditAfterSignature(s, so, ss);
    hide WellFormed, ParseSlice, FindLinkedit, StampSignature, StampLinkedit, CeilToPage, LinkeditOf;
  }

  lemma AfterSignatureFrame(s: Bytes, so: nat, ss: nat, lo: nat, hi: nat)
    requires WellFormed(s) && lo <= hi <= |s|
    requires hi <= SignatureCommand(s) + 8 || SignatureCommand(s) + 16 <= lo
    ensures AfterSignature(s, so, ss)[lo..hi] == s[lo..hi]
  {
    var lc := SignatureIsCommand(s);
    hide WellFormed, ParseSlice, FirstCommand;
    if so < U32 && ss < U32 {
      StampSignatureFrame(s, Parsed(s), so, ss, lo, hi);
    }
  }

  lemma StampFrame(s: Bytes, so: nat, ss: nat, lo: nat, hi: nat)
    requires WellFormed(s) && Ready(s, so, ss) && Untouched(s, lo, hi)
    ensures Stamped(s, so, ss)[lo..hi] == s[lo..hi]
  {
    StampIs(s, so, ss);
    LinkeditReadable(s);
    AfterSignatureFrame(s, so, ss, lo, hi);
    hide WellFormed, Parsed, StampLinkedit, Stamped, AfterSignature, LinkeditCommand, LinkeditOf, LinkeditFields,
         FindLinkedit;
    if LinkeditOf(s).Some? {
      StampLinkeditFrame(AfterSignature(s, so, ss), Is64(s), LinkeditOf(s).value, so + ss, lo, hi);
    }
  }

  lemma FieldSurvives(b: Bytes, is64: bool, l: Linkedit, end: nat, off: nat, field: Bytes)
    requires LinkeditWritable(b, is64, l, end) && At(b, off, field)
    requires off + |field| <= l.loadCommandOffset || l.loadCommandOffset + LinkeditWidth(is64) <= off
    ensures At(StampLinkedit(b, is64, l, end), off, field)
  {
    StampLinkeditFrame(b, is64, l, end, off, off + |field|);
    hide StampLinkedit;
  }

  /** dataoff and datasize after stamping. */
  lemma StampedSignature(s: Bytes, so: nat, ss: nat)
    requires WellFormed(s) && Ready(s, so, ss)
    ensures At(Stamped(s, so, ss), SignatureCommand(s) + 8, LE32(so))
    ensures At(Stamped(s, so, ss), SignatureCommand(s) + 12, LE32(ss))
  {
    hide WellFormed, Parsed, StampLinkedit, Stamped, StampSignature, LinkeditCommand, LinkeditOf, LinkeditFields,
         FindLinkedit, At, LE32;
    var lc := SignatureIsCommand(s);
    StampIs(s, so, ss);
    StampSignatureFields(s, Parsed(s), so, ss);
    LinkeditReadable(s);
    if LinkeditOf(s).Some? {
      SignatureApartFromLinkedit(s);
      var b, lc := AfterSignature(s, so, ss), LinkeditOf(s).value;
      FieldSurvives(b, Is64(s), lc, so + ss, SignatureCommand(s) + 8, LE32(so));
      FieldSurvives(b, Is64(s), lc, so + ss, SignatureCommand(s) + 12, LE32(ss));
    }
  }

  /** __LINKEDIT read back after stamping: fileoff is kept, the segment ends where the signature ends, and vmsize is
      the file size rounded up to whole pages. */
  function StampedLinkedit(s: Bytes, so: nat, ss: nat): Option<Linkedit>
    requires Ready(s, so, ss)
  {
    match LinkeditOf(s)
    case None => None
    case Some(l) =>
      Some(l.(filesize := so + ss - l.fileoff, vmsize := CeilToPage(so + ss - l.fileoff, Is64(s))))
  }

  lemma StampedFields(b: Bytes, is64: bool, l: Linkedit, end: nat, lc: LoadCommand)
    requires LinkeditWritable(b, is64, l, end)
    requires lc.offset == l.loadCommandOffset && lc.cmd == (if is64 then LC_SEGMENT_64 else LC_SEGMENT)
    requires LinkeditFields(lc, b, false) == Success(l)
    ensures LinkeditFields(lc, StampLinkedit(b, is64, l, end), false)
         == Success(l.(filesize := end - l.fileoff, vmsize := CeilToPage(end - l.fileoff, is64)))
  {
    hide StampLinkedit, CeilToPage, LE32, LE64, FromLE64, FromLE32;
    var off := lc.offset;
    StampLinkeditFields(b, is64, l, end);
    if is64 {
      StampLinkeditFrame(b, true, l, end, off + 48, off + 56);
      RoundTrip64(CeilToPage(end - l.fileoff, true));
      RoundTrip64(end - l.fileoff);
    } else {
      StampLinkeditFrame(b, false, l, end, off + 32, off + 36);
      RoundTrip32(CeilToPage(end - l.fileoff, false));
      RoundTrip32(end - l.fileoff);
    }
  }

  lemma FieldsAfterSignature(s: Bytes, so: nat, ss: nat, le: LoadCommand)
    requires WellFormed(s) && LinkeditCommand(s) == Some(le)
    ensures LinkeditOf(s).Some?
    ensures LinkeditFields(le, AfterSignature(s, so, ss), false) == Success(LinkeditOf(s).value)
  {
    hide WellFormed, Parsed, LinkeditCommand, LinkeditFields, FindLinkedit, LinkeditOf, AfterSignature;
    SignatureApartFromLinkedit(s);
    var le' := LinkeditIsCommand(s);
    LinkeditReadable(s);
    AfterSignatureFrame(s, so, ss, le.offset + 24, le.offset + LinkeditWidth(Is64(s)));
    FieldsSame(s, AfterSignature(s, so, ss), 0, le);
    assert le.(offset := le.offset + 0) == le;
  }

  lemma StampedLinkeditFields(s: Bytes, so: nat, ss: nat, le: LoadCommand)
    requires WellFormed(s) && Ready(s, so, ss) && LinkeditCommand(s) == Some(le)
    ensures LinkeditOf(s).Some?
    ensures LinkeditFields(le, Stamped(s, so, ss), false) == Success(StampedLinkedit(s, so, ss).value)
  {
    hide WellFormed, Parsed, LinkeditCommand, LinkeditFields, FindLinkedit, LinkeditOf, AfterSignature, Stamped,
         StampLinkedit, CeilToPage;
    StampIs(s, so, ss);
    FieldsAfterSignature(s, so, ss, le);
    var le' := LinkeditIsCommand(s);
    LinkeditReadable(s);
    StampedFields(AfterSignature(s, so, ss), Is64(s), LinkeditOf(s).value, so + ss, le);
  }

  // ---------------------------------------------------------------- parsing a stamped slice

  /** `r` starts with the stamped code of `s`; what follows is free. */
  predicate StartsStamped(s: Bytes, so: nat, ss: nat, r: Bytes) {
    CodeLimit(s) <= |s| && CodeLimit(s) <= |r| && r[..CodeLimit(s)] == Stamped(s, so, ss)[..CodeLimit(s)]
  }

  lemma PrefixSlice(a: Bytes, b: Bytes, n: nat, lo: nat, hi: nat)
    requires n <= |a| && n <= |b| && a[..n] == b[..n] && lo <= hi <= n
    ensures a[lo..hi] == b[lo..hi]
  {
    SliceOfSlice(a, 0, n, lo, hi);
    SliceOfSlice(b, 0, n, lo, hi);
    assert a[0..n] == a[..n] && b[0..n] == b[..n];
  }

  lemma UntouchedSame(s: Bytes, so: nat, ss: nat, r: Bytes, lo: nat, hi: nat)
    requires WellFormed(s) && Ready(s, so, ss) && StartsStamped(s, so, ss, r)
    requires Untouched(s, lo, hi) && hi <= CodeLimit(s)
    ensures SameAt(s, r, 0, lo, hi - lo)
  {
    hide WellFormed, Ready, Stamped, CodeLimit;
    StampFrame(s, so, ss, lo, hi);
    PrefixSlice(r, Stamped(s, so, ss), CodeLimit(s), lo, hi);
  }

  lemma HeaderAfterStamp(s: Bytes, so: nat, ss: nat, r: Bytes)
    requires WellFormed(s) && Ready(s, so, ss) && StartsStamped(s, so, ss, r)
    ensures ParseHeader(r, 0) == Success(Parsed(s).header) == ParseHeader(s, 0)
  {
    hide WellFormed, Ready, StartsStamped, Parsed, Untouched, SameAt, ParseHeader;
    Commands(s);
    HeaderUntouched(s);
    UntouchedSame(s, so, ss, r, 0, Parsed(s).header.headerSize);
    HeaderMoves(s, r, 0, 0);
  }

  lemma CommandHeadsAfterStamp(s: Bytes, so: nat, ss: nat, r: Bytes, k: LoadCommand)
    requires WellFormed(s) && Ready(s, so, ss) && StartsStamped(s, so, ss, r)
    requires k in Parsed(s).loadCommands
    ensures k.offset + k.cmdsize <= CodeLimit(s)
    ensures SameAt(s, r, 0, k.offset, 8)
    ensures IsSegment(k) ==> SameAt(s, r, 0, k.offset + 8, 16)
  {
    hide WellFormed, Ready, StartsStamped, Parsed, Untouched, SameAt;
    Apart(s, k, k);
    CommandHeadUntouched(s, k);
    UntouchedSame(s, so, ss, r, k.offset, k.offset + 8);
    if IsSegment(k) {
      UntouchedSame(s, so, ss, r, k.offset + 8, k.offset + 24);
    }
  }

  /** The same load commands, at the same offsets. */
  lemma CommandsAfterStamp(s: Bytes, so: nat, ss: nat, r: Bytes)
    requires WellFormed(s) && Ready(s, so, ss) && StartsStamped(s, so, ss, r)
    ensures CommandsFrom(r, false, Parsed(s).header.ncmds, Parsed(s).header.headerSize)
         == Success(Parsed(s).loadCommands)
  {
    assert CodeLimit(s) <= |r|;
    hide WellFormed, Ready, StartsStamped, Parsed, SameAt, CommandsFrom;
    Commands(s);
    var cs := Parsed(s).loadCommands;
    forall i | 0 <= i < |cs|
      ensures cs[i].offset + cs[i].cmdsize <= CodeLimit(s) && SameAt(s, r, 0, cs[i].offset, 8)
    {
      assert cs[i] in cs;
      CommandHeadsAfterStamp(s, so, ss, r, cs[i]);
    }
    CommandsMove(s, r, 0, false, Parsed(s).header.ncmds, Parsed(s).header.headerSize, CodeLimit(s));
    ShiftZero(cs);
  }

  lemma SignatureAfterStamp(s: Bytes, so: nat, ss: nat, r: Bytes)
    requires WellFormed(s) && Ready(s, so, ss) && StartsStamped(s, so, ss, r)
    ensures FindCodeSignature(Parsed(s).loadCommands, r, false)
         == Success(Some(CodeSignature(so, ss, SignatureCommand(s))))
  {
    hide WellFormed, Parsed, Stamped, LE32, FromLE32, CodeLimit;
    var lc := SignatureIsCommand(s);
    StampedSignature(s, so, ss);
    PrefixSlice(r, Stamped(s, so, ss), CodeLimit(s), lc.offset + 8, lc.offset + 12);
    PrefixSlice(r, Stamped(s, so, ss), CodeLimit(s), lc.offset + 12, lc.offset + 16);
    RoundTrip32(so);
    RoundTrip32(ss);
  }

  /** Stamping preserves the parse: same header, same (cmd, cmdsize, offset) list; only the signature location is
      new. */
  lemma StampedParse(s: Bytes, so: nat, ss: nat, r: Bytes)
    requires WellFormed(s) && Ready(s, so, ss) && StartsStamped(s, so, ss, r)
    ensures ParseSlice(r, 0, |r|)
         == Success(Parsed(s).(codeSignature := Some(CodeSignature(so, ss, SignatureCommand(s))), size := |r|))
    ensures Parsed(r) == Parsed(s).(codeSignature := Some(CodeSignature(so, ss, SignatureCommand(s))), size := |r|)
    ensures CodeLimit(r) == so && SignatureCommand(r) == SignatureCommand(s) && Is64(r) == Is64(s)
  {
    Commands(s);
    HeaderAfterStamp(s, so, ss, r);
    CommandsAfterStamp(s, so, ss, r);
    SignatureAfterStamp(s, so, ss, r);
    assert Parsed(s).offset == 0;
    hide WellFormed, StartsStamped, Ready, ParseHeader, CommandsFrom, FindCodeSignature;
  }

  lemma LinkeditCommandAfterStamp(s: Bytes, so: nat, ss: nat, r: Bytes)
    requires WellFormed(s) && Ready(s, so, ss) && StartsStamped(s, so, ss, r)
    ensures LinkeditCommand(r) == LinkeditCommand(s)
  {
    hide WellFormed, StartsStamped, Ready, Parsed, SameAt, FirstLinkedit, ParseSlice, CodeLimit, SignatureCommand;
    StampedParse(s, so, ss, r);
    var cs := Parsed(s).loadCommands;
    forall k | k in cs && IsSegment(k) ensures SameAt(s, r, 0, k.offset + 8, 16) {
      CommandHeadsAfterStamp(s, so, ss, r, k);
    }
    SameNames(s, r, 0);
    ShiftZero(cs);
    if LinkeditCommand(s).Some? {
      var le := LinkeditCommand(s).value;
      assert le.(offset := le.offset + 0) == le;
    }
  }

  lemma FieldsInPrefix(a: Bytes, r: Bytes, n: nat, le: LoadCommand)
    requires n <= |a| && n <= |r| && a[..n] == r[..n]
    requires le.offset + LinkeditWidth(le.cmd == LC_SEGMENT_64) <= n
    requires LinkeditFields(le, a, false).Success?
    ensures LinkeditFields(le, r, false) == LinkeditFields(le, a, false)
  {
    PrefixSlice(r, a, n, le.offset + 24, le.offset + LinkeditWidth(le.cmd == LC_SEGMENT_64));
    hide LinkeditFields;
    FieldsSame(a, r, 0, le);
    assert le.(offset := le.offset + 0) == le;
    FieldsOffset(a, le);
  }

  lemma FieldsOffset(a: Bytes, le: LoadCommand)
    requires LinkeditFields(le, a, false).Success?
    ensures LinkeditFields(le, a, false).value.loadCommandOffset == le.offset
  {
    hide FromLE64, FromLE32;
  }

  /** findLinkeditSegment on the stamped slice. */
  lemma StampedParseLinkedit(s: Bytes, so: nat, ss: nat, r: Bytes)
    requires WellFormed(s) && Ready(s, so, ss) && StartsStamped(s, so, ss, r)
    ensures LinkeditCommand(r) == LinkeditCommand(s)
    ensures FindLinkedit(Parsed(r), r) == Success(StampedLinkedit(s, so, ss))
    ensures LinkeditOf(r) == StampedLinkedit(s, so, ss)
  {
    StampedParse(s, so, ss, r);
    Commands(s);
    assert !Parsed(r).header.isSwapped;
    LinkeditCommandAfterStamp(s, so, ss, r);
    LinkeditReadable(s);
    if LinkeditCommand(s).Some? {
      var le := LinkeditIsCommand(s);
      StampedLinkeditFields(s, so, ss, le);
      FieldsInPrefix(Stamped(s, so, ss), r, CodeLimit(s), le);
    }
    hide WellFormed, Ready, Parsed, FirstLinkedit, LinkeditFields, Stamped, StartsStamped;
  }

  /** A stamped slice can be signed again: its code now ends where the signature starts. */
  lemma StampedIsWellFormed(s: Bytes, so: nat, ss: nat, r: Bytes)
    requires WellFormed(s) && Ready(s, so, ss) && StartsStamped(s, so, ss, r)
    requires CodeLimit(s) <= so
    ensures WellFormed(r)
  {
    StampedParse(s, so, ss, r);
    LinkeditCommandAfterStamp(s, so, ss, r);
    hide Parsed, LinkeditCommand, FirstCommand, ParseSlice, Ready, StartsStamped;
    var cs := Parsed(s).loadCommands;
    assert Parsed(r).loadCommands == cs;
    forall i | 0 <= i < |cs| ensures CommandFits(cs[i], CodeLimit(r)) {
      assert CommandFits(cs[i], CodeLimit(s));
    }
  }

  // ---------------------------------------------------------------- stamping twice

  /** Index `i` lies in one of the four stamped fields. */
  predicate InField(s: Bytes, i: nat) {
    || SignatureCommand(s) + 8 <= i < SignatureCommand(s) + 16
    || (LinkeditCommand(s).Some? && InLinkeditField(LinkeditCommand(s).value.offset, Is64(s), i))
  }

  predicate InLinkeditField(off: nat, is64: bool, i: nat) {
    if is64 then off + 40 <= i < off + 48 || off + 56 <= i < off + 64
    else off + 28 <= i < off + 32 || off + 36 <= i < off + 40
  }

  lemma LinkeditOutside(b: Bytes, is64: bool, l: Linkedit, end: nat, i: nat)
    requires LinkeditWritable(b, is64, l, end) && i < |b| && !InLinkeditField(l.loadCommandOffset, is64, i)
    ensures StampLinkedit(b, is64, l, end)[i] == b[i]
  {
    hide LE32, LE64, CeilToPage;
    var filesize := end - l.fileoff;
    var off := l.loadCommandOffset;
    if is64 {
      PutIndex(b, off + 40, LE64(CeilToPage(filesize, true)), i);
      PutIndex(Put(b, off + 40, LE64(CeilToPage(filesize, true))), off + 56, LE64(filesize), i);
    } else {
      PutIndex(b, off + 28, LE32(CeilToPage(filesize, false)), i);
      PutIndex(Put(b, off + 28, LE32(CeilToPage(filesize, false))), off + 36, LE32(filesize), i);
    }
  }

  lemma StampedOutside(s: Bytes, so: nat, ss: nat, i: nat)
    requires WellFormed(s) && Ready(s, so, ss) && i < |s| && !InField(s, i)
    ensures Stamped(s, so, ss)[i] == s[i]
  {
    hide WellFormed, Parsed, StampLinkedit, Stamped, AfterSignature, LinkeditCommand, LinkeditOf, LinkeditFields,
         FindLinkedit;
    StampIs(s, so, ss);
    LinkeditReadable(s);
    AfterSignatureFrame(s, so, ss, i, i + 1);
    assert AfterSignature(s, so, ss)[i] == AfterSignature(s, so, ss)[i..i + 1][0] == s[i..i + 1][0];
    if LinkeditOf(s).Some? {
      LinkeditOutside(AfterSignature(s, so, ss), Is64(s), LinkeditOf(s).value, so + ss, i);
    }
  }

  lemma AtIndex(a: Bytes, off: nat, field: Bytes, i: nat)
    requires At(a, off, field) && off <= i < off + |field|
    ensures a[i] == field[i - off]
  {
    assert a[i] == a[off..off + |field|][i - off];
  }

  /** The bytes of the fields are functions of the stamped values and of fileoff. */
  lemma StampedInside(s: Bytes, so: nat, ss: nat, b: Bytes, i: nat)
    requires WellFormed(s) && Ready(s, so, ss) && WellFormed(b) && Ready(b, so, ss)
    requires SignatureCommand(b) == SignatureCommand(s) && Is64(b) == Is64(s)
    requires LinkeditCommand(b) == LinkeditCommand(s)
    requires LinkeditOf(s).Some? && LinkeditOf(b).Some? ==> LinkeditOf(b).value.fileoff == LinkeditOf(s).value.fileoff
    requires i < |s| && i < |b| && InField(s, i)
    ensures Stamped(b, so, ss)[i] == Stamped(s, so, ss)[i]
  {
    hide WellFormed, Parsed, StampLinkedit, Stamped, AfterSignature, LinkeditCommand, LinkeditOf, LinkeditFields,
         FindLinkedit, LE32, LE64, CeilToPage, At;
    StampedSignature(s, so, ss);
    StampedSignature(b, so, ss);
    var lco := SignatureCommand(s);
    if lco + 8 <= i < lco + 12 {
      AtIndex(Stamped(s, so, ss), lco + 8, LE32(so), i);
      AtIndex(Stamped(b, so, ss), lco + 8, LE32(so), i);
    } else if lco + 12 <= i < lco + 16 {
      AtIndex(Stamped(s, so, ss), lco + 12, LE32(ss), i);
      AtIndex(Stamped(b, so, ss), lco + 12, LE32(ss), i);
    } else {
      LinkeditReadable(s);
      LinkeditReadable(b);
      StampIs(s, so, ss);
      StampIs(b, so, ss);
      LinkeditInside(AfterSignature(s, so, ss), AfterSignature(b, so, ss), Is64(s), LinkeditOf(s).value,
                     LinkeditOf(b).value, so + ss, i);
    }
  }

  lemma LinkeditInside(a: Bytes, b: Bytes, is64: bool, l: Linkedit, m: Linkedit, end: nat, i: nat)
    requires LinkeditWritable(a, is64, l, end) && LinkeditWritable(b, is64, m, end)
    requires l.loadCommandOffset == m.loadCommandOffset && l.fileoff == m.fileoff
    requires i < |a| && i < |b| && InLinkeditField(l.loadCommandOffset, is64, i)
    ensures StampLinkedit(a, is64, l, end)[i] == StampLinkedit(b, is64, m, end)[i]
  {
    hide StampLinkedit, LE32, LE64, CeilToPage, At;
    StampLinkeditFields(a, is64, l, end);
    StampLinkeditFields(b, is64, m, end);
    var off, filesize := l.loadCommandOffset, end - l.fileoff;
    var vm, fs := CeilToPage(filesize, is64), filesize;
    var ra, rb := StampLinkedit(a, is64, l, end), StampLinkedit(b, is64, m, end);
    if is64 {
      if i < off + 48 { AtIndex(ra, off + 40, LE64(vm), i); AtIndex(rb, off + 40, LE64(vm), i); }
      else { AtIndex(ra, off + 56, LE64(fs), i); AtIndex(rb, off + 56, LE64(fs), i); }
    } else {
      if i < off + 32 { AtIndex(ra, off + 28, LE32(vm), i); AtIndex(rb, off + 28, LE32(vm), i); }
      else { AtIndex(ra, off + 36, LE32(fs), i); AtIndex(rb, off + 36, LE32(fs), i); }
    }
  }

  lemma SelfStamped(s: Bytes, so: nat, ss: nat)
    requires WellFormed(s) && CodeLimit(s) <= |s|
    ensures StartsStamped(s, so, ss, Stamped(s, so, ss))
  {
    hide WellFormed, Parsed, Stamped, CodeLimit;
    var lc := SignatureIsCommand(s);
  }

  /** The stamped fields can be stamped over: the last values win and nothing else differs. */
  lemma RestampIsStamp(s: Bytes, so: nat, ss: nat, ss': nat)
    requires WellFormed(s) && Ready(s, so, ss) && Ready(s, so, ss') && CodeLimit(s) <= so && CodeLimit(s) <= |s|
    ensures WellFormed(Stamped(s, so, ss)) && Ready(Stamped(s, so, ss), so, ss')
    ensures Stamped(Stamped(s, so, ss), so, ss') == Stamped(s, so, ss')
    ensures Stampable(Stamped(s, so, ss), Parsed(s), so, ss')
    ensures Stamp(Stamped(s, so, ss), Parsed(s), so, ss') == Stamped(s, so, ss')
  {
    var b := Stamped(s, so, ss);
    SelfStamped(s, so, ss);
    StampedParse(s, so, ss, b);
    StampedParseLinkedit(s, so, ss, b);
    StampedIsWellFormed(s, so, ss, b);
    LinkeditReadable(s);
    hide WellFormed, Parsed, Stamped, LinkeditCommand, LinkeditOf, InField, CeilToPage;
    forall i | 0 <= i < |s| && !InField(s, i) ensures b[i] == s[i] {
      StampedOutside(s, so, ss, i);
    }
    SameStamps(s, b, so, ss');
    StampIs(b, so, ss');
    StampBySlice(b, Parsed(b), Parsed(s), so, ss');
  }

  /** Stamping looks at the header, the load commands and the place of LC_CODE_SIGNATURE only. */
  lemma StampBySlice(b: Bytes, x: Slice, y: Slice, so: nat, ss: nat)
    requires Stampable(b, x, so, ss) && x.header == y.header && x.loadCommands == y.loadCommands
    requires x.codeSignature.Some? && y.codeSignature.Some?
    requires x.codeSignature.value.loadCommandOffset == y.codeSignature.value.loadCommandOffset
    ensures Stampable(b, y, so, ss) && Stamp(b, y, so, ss) == Stamp(b, x, so, ss)
  {
    assert StampSignature(b, y, so, ss) == StampSignature(b, x, so, ss);
    hide StampSignature, FirstLinkedit, LinkeditFields, StampLinkedit, CeilToPage;
  }

  /** Two slices of the same layout that differ in the fields only are stamped to the same bytes. */
  lemma SameStamps(s: Bytes, b: Bytes, so: nat, ss: nat)
    requires WellFormed(s) && Ready(s, so, ss) && WellFormed(b) && |s| == |b|
    requires SignatureCommand(b) == SignatureCommand(s) && Is64(b) == Is64(s)
    requires LinkeditCommand(b) == LinkeditCommand(s)
    requires LinkeditOf(s).Some? == LinkeditOf(b).Some?
    requires LinkeditOf(s).Some? ==> LinkeditOf(b).value.fileoff == LinkeditOf(s).value.fileoff
    requires LinkeditOf(s).Some? ==> LinkeditOf(b).value.loadCommandOffset == LinkeditOf(s).value.loadCommandOffset
    requires forall i :: 0 <= i < |s| && !InField(s, i) ==> b[i] == s[i]
    ensures Ready(b, so, ss) && Stamped(b, so, ss) == Stamped(s, so, ss)
  {
    hide WellFormed, Parsed, Stamped, LinkeditCommand, LinkeditOf, InLinkeditField, CeilToPage;
    assert Ready(b, so, ss);
    forall i | 0 <= i < |s| ensures Stamped(b, so, ss)[i] == Stamped(s, so, ss)[i] {
      if InField(s, i) {
        StampedInside(s, so, ss, b, i);
      } else {
        StampedOutside(s, so, ss, i);
        StampedOutside(b, so, ss, i);
      }
    }
  }
}
