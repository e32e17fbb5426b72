/** How much room a signature needs, how much a reallocation makes, and what it does to the two load
    commands that describe the end of the slice. */
module SignSpace {
  import opened Bytes
  import opened LoadCommands
  import opened CommandEdits
  import opened SliceFacts
  import opened CodeDirectory
  import opened RequirementSet
  import opened SuperBlob
  import opened Signing

  // ---------------------------------------------------------------- lengths

  /** `ZUtil::ByteAlign`: the next multiple above the value, a full unit more when it is aligned. */
  function ByteAlign(value: u32, align: u32): u32
    requires 0 < align
  {
    (value + (align - value % align)) % TWO32
  }

  lemma ByteAlignAbove(value: u32)
    requires value + 4096 < TWO32
    ensures value < ByteAlign(value, 4096) <= value + 4096 && ByteAlign(value, 4096) % 4096 == 0
  {
  }

  /** Room for both directories' page hashes. */
  function HashRoom(codeLength: u32): nat {
    (codeLength / 4096 + 1) * (20 + 32)
  }

  /** The slice's length after a reallocation, in 32-bit arithmetic. */
  function NewLength(codeLength: u32): u32 {
    (codeLength + ByteAlign(HashRoom(codeLength) % TWO32, 4096) + 16384) % TWO32
  }

  /** No sum of the computation wraps around. */
  predicate LengthInRange(codeLength: u32) {
    codeLength + HashRoom(codeLength) + 4096 + 16384 < TWO32
  }

  /** The grown slice leaves more than the room for the hashes and 16384 bytes behind the code, in whole
      pages. */
  lemma NewLengthRoom(codeLength: u32)
    requires LengthInRange(codeLength)
    ensures codeLength + HashRoom(codeLength) + 16384 < NewLength(codeLength)
    ensures NewLength(codeLength) <= codeLength + HashRoom(codeLength) + 4096 + 16384
    ensures (NewLength(codeLength) - codeLength) % 4096 == 0
  {
  }

  // ---------------------------------------------------------------- what a signature needs

  /** Bytes of a directory that are not page hashes. */
  function DirectoryOverhead(i: Input, f: Foreign, alternate: bool): nat
    requires Fitting(i, f) && f.Sound()
  {
    RequestSound(i, f, alternate, None);
    var r := RequestFor(i, f, alternate, None);
    if Unsigned(i) then 0 else HashOffset(r, |Trim(r.SpecialSlots(), Zeros(r.HashSize()))|)
  }

  /** Bytes of a signature that are not page hashes, for whatever code slots were offered. */
  function Overhead(i: Input, f: Foreign, existing1: Option<seq<byte>>, existing256: Option<seq<byte>>): nat
    requires Fitting(i, f) && f.Sound()
  {
    var s := SlotsFor(i, f, existing1, existing256);
    12 + 8 * |Present(s.All())| + |s.requirements| + |s.entitlements| + |s.derEntitlements| + |s.cms|
    + DirectoryOverhead(i, f, true) + if i.asset.sha256Only then 0 else DirectoryOverhead(i, f, false)
  }

  /** The page hashes of a signature. */
  function HashPart(i: Input): nat {
    if Unsigned(i) then 0
    else if i.asset.sha256Only then 32 * PageCount(i.code)
    else (20 + 32) * PageCount(i.code)
  }

  lemma DirectorySize(i: Input, f: Foreign, alternate: bool, existing: Option<seq<byte>>)
    requires Fitting(i, f) && f.Sound()
    ensures |Directory(i, f, alternate, existing)| == DirectoryOverhead(i, f, alternate)
              + if Unsigned(i) then 0 else (if alternate then 32 else 20) * PageCount(i.code)
  {
    hide Request.Sound, Fitting, Requirements, Entitlements, DerEntitlements, RequestFor, BigU32At,
         Request.Refused, Blob, HashOffset, Trim, Flatten, Words, CodeSlotBytes, CodeDirectory.HeaderWords;
    RequestSound(i, f, alternate, existing);
    RequestSound(i, f, alternate, None);
    var r, hash := RequestFor(i, f, alternate, existing), if alternate then f.sha256 else f.sha1;
    if r.Refused() {
      EmptyWhenRefused(r, hash);
    } else {
      BlobRegions(r, hash);
      SameOffset(i, f, alternate, existing);
    }
  }

  /** The code slots offered do not move the code slots. */
  lemma SameOffset(i: Input, f: Foreign, alternate: bool, existing: Option<seq<byte>>)
    requires Fitting(i, f) && f.Sound()
    ensures var r, r0 := RequestFor(i, f, alternate, existing), RequestFor(i, f, alternate, None);
            HashOffset(r, |Trim(r.SpecialSlots(), Zeros(r.HashSize()))|)
              == HashOffset(r0, |Trim(r0.SpecialSlots(), Zeros(r0.HashSize()))|)
  {
    hide Fitting, Requirements, Entitlements, DerEntitlements, Trim, Zeros, Request.SpecialSlots;
    var r := RequestFor(i, f, alternate, existing);
    assert r.(existing := None) == RequestFor(i, f, alternate, None);
    SameSlots(r);
  }

  lemma EmptyWhenRefused(r: Request, hash: Hash)
    requires r.Sound() && r.Refused()
    ensures Blob(r, hash) == []
  {
  }

  /** A signature is its overhead and its page hashes. */
  lemma SignatureSize(i: Input, f: Foreign, existing1: Option<seq<byte>>, existing256: Option<seq<byte>>)
    requires Fitting(i, f) && f.Sound() && SlotsFor(i, f, existing1, existing256).Sound()
    ensures var es := Present(SlotsFor(i, f, existing1, existing256).All());
            && 12 + 8 * |es| + TotalSize(es) < TWO32
            && |Assembled(es)| == Overhead(i, f, existing1, existing256) + HashPart(i)
  {
    hide Fitting, Requirements, Entitlements, DerEntitlements, Directory, DirectoryOverhead, Slots.All, Present,
         Words, Flatten, Blobs, TotalSize, CmsSlot, PageCount;
    var s := SlotsFor(i, f, existing1, existing256);
    DirectorySize(i, f, true, existing256);
    DirectorySize(i, f, false, existing1);
    SlotsSize(s);
    PresentSize(s.All());
    BlobsSize(Present(s.All()));
    AssembledSize(s);
  }

  /** A signature fits behind the code of a reallocated slice exactly when what is not page hashes
      fits what the reallocation leaves beside them, which is always more than 16384 bytes. */
  lemma FitsAfterGrowth(i: Input, f: Foreign, existing1: Option<seq<byte>>, existing256: Option<seq<byte>>)
    requires Fitting(i, f) && f.Sound() && SlotsFor(i, f, existing1, existing256).Sound()
    requires |i.code| < TWO32 && LengthInRange(|i.code|)
    ensures var es, room := Present(SlotsFor(i, f, existing1, existing256).All()), NewLength(|i.code|) - |i.code|;
            && 12 + 8 * |es| + TotalSize(es) < TWO32
            && (|Assembled(es)| <= room <==> Overhead(i, f, existing1, existing256) <= room - HashPart(i))
            && 16384 < room - HashPart(i)
  {
    hide Fitting, Assembled, Overhead, Slots.Sound, SlotsFor, Present, Slots.All, TotalSize;
    SignatureSize(i, f, existing1, existing256);
    NewLengthRoom(|i.code|);
    PagesFitRoom(i.code);
  }

  lemma PagesFitRoom(code: seq<byte>)
    requires |code| < TWO32
    ensures 52 * PageCount(code) <= HashRoom(|code|)
  {
  }

  // ---------------------------------------------------------------- the two commands

  /** `__LINKEDIT` stretched to end at the new length, in the 32-bit arithmetic of the source. */
  function Stretched(c: Command, length: u32, newLength: u32): (r: Command)
    requires SEGMENT_SIZE <= |c|
    ensures |r| == |c|
  {
    Splice(Splice(c, 32, LE64(StretchedVmSize(c, length, newLength))), 48, LE64(StretchedFileSize(c, newLength)))
  }

  function StretchedVmSize(c: Command, length: u32, newLength: u32): u32
    requires SEGMENT_SIZE <= |c|
  {
    ByteAlign((VmSize(c) % TWO32 + (newLength - length)) % TWO32, 4096)
  }

  function StretchedFileSize(c: Command, newLength: u32): u32
    requires SEGMENT_SIZE <= |c|
  {
    (newLength - FileOff(c) % TWO32) % TWO32
  }

  /** LC_CODE_SIGNATURE with its `datasize` set. */
  function Sized(c: Command, dataSize: u32): (r: Command)
    requires CODESIGNATURE_SIZE <= |c|
    ensures |r| == |c|
  {
    Splice(c, 12, LE32(dataSize))
  }

  /** A new LC_CODE_SIGNATURE. */
  function CodeSignatureCommand(dataOff: u32, dataSize: u32): (c: Command)
    ensures |c| == CODESIGNATURE_SIZE
  {
    LE32(LC_CODE_SIGNATURE) + LE32(CODESIGNATURE_SIZE) + LE32(dataOff) + LE32(dataSize)
  }

  /** The command list a successful reallocation leaves: `__LINKEDIT` is command `k`; the signature
      command is `m`, or a new one at the end. */
  function Grown(cs: seq<Command>, k: nat, m: Option<nat>, codeLength: u32, length: u32,
      newLength: u32): (r: seq<Command>)
    requires k < |cs| && SEGMENT_SIZE <= |cs[k]|
    requires m.Some? ==> m.value < |cs| && m.value != k && CODESIGNATURE_SIZE <= |cs[m.value]|
    requires codeLength <= newLength
    ensures |r| == |cs| + if m.Some? then 0 else 1
  {
    var stretched := cs[k := Stretched(cs[k], length, newLength)];
    match m
    case Some(j) => stretched[j := Sized(cs[j], newLength - codeLength)]
    case None => stretched + [CodeSignatureCommand(codeLength, newLength - codeLength)]
  }

  lemma CodeSignatureCommandReads(dataOff: u32, dataSize: u32)
    ensures var c := CodeSignatureCommand(dataOff, dataSize);
            IsCodeSignature(c) && DataOff(c) == dataOff && DataSize(c) == dataSize
  {
    hide U32At, LE32;
    var c := CodeSignatureCommand(dataOff, dataSize);
    assert c[0..4] == LE32(LC_CODE_SIGNATURE) && c[4..8] == LE32(CODESIGNATURE_SIZE);
    assert c[8..12] == LE32(dataOff) && c[12..16] == LE32(dataSize);
    LE32RoundTrip(c, 0, LC_CODE_SIGNATURE);
    LE32RoundTrip(c, 4, CODESIGNATURE_SIZE);
    LE32RoundTrip(c, 8, dataOff);
    LE32RoundTrip(c, 12, dataSize);
  }

  lemma SizedReads(c: Command, dataSize: u32)
    requires IsCodeSignature(c)
    ensures IsCodeSignature(Sized(c, dataSize))
    ensures DataOff(Sized(c, dataSize)) == DataOff(c) && DataSize(Sized(c, dataSize)) == dataSize
  {
    hide U32At, LE32, Splice;
    var r := Sized(c, dataSize);
    SpliceThere(c, 12, LE32(dataSize));
    LE32RoundTrip(r, 12, dataSize);
    Untouched32(c, 12, LE32(dataSize), 0);
    Untouched32(c, 12, LE32(dataSize), 4);
    Untouched32(c, 12, LE32(dataSize), 8);
  }

  lemma Untouched32(c: Command, at: nat, s: seq<byte>, i: nat)
    requires at + |s| <= |c| && i + 4 <= |c| && (i + 4 <= at || at + |s| <= i)
    ensures U32At(Splice(c, at, s), i) == U32At(c, i)
  {
  }

  lemma Untouched64(c: Command, at: nat, s: seq<byte>, i: nat)
    requires at + |s| <= |c| && i + 8 <= |c| && (i + 8 <= at || at + |s| <= i)
    ensures U64At(Splice(c, at, s), i) == U64At(c, i)
  {
  }

  /** The stretched segment keeps its name, its place and its sections; its sizes are the computed ones. */
  lemma StretchedReads(c: Command, length: u32, newLength: u32)
    requires IsLinkEdit(c)
    ensures var r := Stretched(c, length, newLength);
            && IsLinkEdit(r)
            && FileOff(r) == FileOff(c)
            && FileSize(r) == StretchedFileSize(c, newLength)
            && VmSize(r) == StretchedVmSize(c, length, newLength)
  {
    hide U32At, LE64, Splice, U64At, StretchedFileSize, StretchedVmSize, CString;
    var vm, fs := StretchedVmSize(c, length, newLength), StretchedFileSize(c, newLength);
    var mid := Splice(c, 32, LE64(vm));
    var r := Splice(mid, 48, LE64(fs));
    KeepsShape(c, 32, LE64(vm));
    KeepsShape(mid, 48, LE64(fs));
    SpliceThere(mid, 48, LE64(fs));
    LE64RoundTrip(r, 48, fs);
    SpliceThere(c, 32, LE64(vm));
    LE64RoundTrip(mid, 32, vm);
    Untouched64(mid, 48, LE64(fs), 32);
    Untouched64(mid, 48, LE64(fs), 40);
    Untouched64(c, 32, LE64(vm), 40);
  }

  /** A store into the size fields of a segment leaves its kind, name and section count. */
  lemma KeepsShape(c: Command, at: nat, s: seq<byte>)
    requires IsLinkEdit(c) && 32 <= at && at + |s| <= 64
    ensures IsLinkEdit(Splice(c, at, s))
  {
    hide U32At, Splice, CString;
    Untouched32(c, at, s, 0);
    Untouched32(c, at, s, 4);
    Untouched32(c, at, s, 64);
    var r := Splice(c, at, s);
    SpliceElsewhere(c, at, s, 8, 8 + |LINKEDIT| + 1);
    NameAt(c);
    assert r[8..18] == r[8..19][..10] && c[8..18] == c[8..19][..10] && r[18] == r[8..19][10];
    CStringIs(r, 8, LINKEDIT);
  }

  lemma NameAt(c: Command)
    requires IsLinkEdit(c)
    ensures c[8..18] == LINKEDIT && c[18] == 0
  {
  }

  /** Consistency: a grown slice is well described. `__LINKEDIT` and the signature both end at the new
      length, the signature starts where the code ends and takes whole pages. The segment's memory is whole
      pages, grows by what the slice grew and at most a page more, and still covers its file bytes when it did
      before and ended at the old length. */
  lemma GrownIsConsistent(cs: seq<Command>, codeLength: u32, length: u32)
    requires AllParsable(cs) && Last(cs, IsLinkEdit).Some? && LengthInRange(codeLength)
    requires codeLength == CodeLengthOf(cs, length) && length < NewLength(codeLength)
    ensures var newLength := NewLength(codeLength);
            var k, m := Last(cs, IsLinkEdit).value, Last(cs, IsCodeSignature);
            && codeLength < newLength
            && SEGMENT_SIZE <= |cs[k]| && (m.Some? ==> m.value != k && CODESIGNATURE_SIZE <= |cs[m.value]|)
            && var cs' := Grown(cs, k, m, codeLength, length, newLength);
               && AllParsable(cs')
               && Last(cs', IsLinkEdit) == Some(k)
               && Last(cs', IsCodeSignature) == (if m.Some? then m else Some(|cs|))
               && var seg, sig := cs'[k], cs'[Last(cs', IsCodeSignature).value];
                  && DataOff(sig) == codeLength
                  && DataOff(sig) + DataSize(sig) == newLength && DataSize(sig) % 4096 == 0
                  && (FileOff(cs[k]) <= newLength ==> FileOff(seg) + FileSize(seg) == newLength)
                  && MemoryGrows(VmSize(cs[k]), VmSize(seg), newLength - length)
                  && (CoversOldEnd(cs[k], length, newLength) ==> FileSize(seg) <= VmSize(seg))
  {
    hide U32At, U64At, CString, Stretched, Sized, CodeSignatureCommand, NewLength, Grown, FileOff, FileSize,
         VmSize, DataOff, DataSize, HashRoom, Parsable, Last, LengthInRange, CodeLengthOf, CoversOldEnd, MemoryGrows,
         IsLinkEdit, IsCodeSignature;
    var newLength := NewLength(codeLength);
    NewLengthRoom(codeLength);
    SignatureEnd(cs, codeLength, length, newLength);
    SegmentEnd(cs, codeLength, length, newLength);
  }

  lemma SignatureEnd(cs: seq<Command>, codeLength: u32, length: u32, newLength: u32)
    requires AllParsable(cs) && Last(cs, IsLinkEdit).Some?
    requires codeLength == CodeLengthOf(cs, length) && codeLength < newLength
    ensures var k, m := Last(cs, IsLinkEdit).value, Last(cs, IsCodeSignature);
            && SEGMENT_SIZE <= |cs[k]| && (m.Some? ==> m.value != k && CODESIGNATURE_SIZE <= |cs[m.value]|)
            && var cs' := Grown(cs, k, m, codeLength, length, newLength);
               && AllParsable(cs')
               && Last(cs', IsLinkEdit) == Some(k)
               && Last(cs', IsCodeSignature) == (if m.Some? then m else Some(|cs|))
               && |cs'| == |cs| + (if m.Some? then 0 else 1)
               && cs'[k] == Stretched(cs[k], length, newLength)
               && var sig := cs'[if m.Some? then m.value else |cs|];
                  && CODESIGNATURE_SIZE <= |sig|
                  && DataOff(sig) == codeLength
                  && DataOff(sig) + DataSize(sig) == newLength
  {
    hide U32At, U64At, CString, Splice, Stretched, Sized, CodeSignatureCommand, LE32, LE64, Grown, Parsable,
         DataOff, DataSize, Last;
    var k, m := Last(cs, IsLinkEdit).value, Last(cs, IsCodeSignature);
    Shape(cs[k]);
    assert cs[k] in cs;
    StretchedReads(cs[k], length, newLength);
    match m
    case Some(j) =>
      Shape(cs[j]);
      assert cs[j] in cs;
      SizedReads(cs[j], newLength - codeLength);
      GrownKinds(cs, k, m, codeLength, length, newLength);
      Shape(Sized(cs[j], newLength - codeLength));
    case None =>
      CodeSignatureCommandReads(codeLength, newLength - codeLength);
      GrownKinds(cs, k, m, codeLength, length, newLength);
      Shape(CodeSignatureCommand(codeLength, newLength - codeLength));
  }

  lemma Shape(c: Command)
    ensures IsLinkEdit(c) ==> SEGMENT_SIZE <= |c| && !IsCodeSignature(c)
    ensures IsCodeSignature(c) ==> CODESIGNATURE_SIZE <= |c|
  {
  }

  lemma PickedShapes(cs: seq<Command>)
    requires AllParsable(cs) && Last(cs, IsLinkEdit).Some?
    ensures var k, m := Last(cs, IsLinkEdit).value, Last(cs, IsCodeSignature);
            && k < |cs| && IsLinkEdit(cs[k]) && SEGMENT_SIZE <= |cs[k]|
            && (m.Some? ==>
                  && m.value < |cs| && m.value != k
                  && IsCodeSignature(cs[m.value]) && CODESIGNATURE_SIZE <= |cs[m.value]|)
  {
  }

  /** A memory size of whole pages; where 32 bits suffice it exceeds the old one by `more` and at most a page. */
  predicate MemoryGrows(before: nat, after: nat, more: nat) {
    && after % 4096 == 0
    && (before + more + 4096 < TWO32 ==> before + more < after <= before + more + 4096)
  }

  lemma SegmentEnd(cs: seq<Command>, codeLength: u32, length: u32, newLength: u32)
    requires AllParsable(cs) && Last(cs, IsLinkEdit).Some? && length < newLength
    ensures var c := cs[Last(cs, IsLinkEdit).value];
            && SEGMENT_SIZE <= |c|
            && var r := Stretched(c, length, newLength);
               && (FileOff(c) <= newLength ==> FileOff(r) + FileSize(r) == newLength)
               && MemoryGrows(VmSize(c), VmSize(r), newLength - length)
               && (CoversOldEnd(c, length, newLength) ==> FileSize(r) <= VmSize(r))
  {
    hide U32At, U64At, CString, Splice, Stretched, LE32, LE64, FileSize, VmSize, StretchedFileSize, StretchedVmSize;
    var c := cs[Last(cs, IsLinkEdit).value];
    assert c in cs;
    StretchedReads(c, length, newLength);
    StretchedCovers(c, length, newLength);
    StretchedGrows(c, length, newLength);
  }

  lemma StretchedGrows(c: Command, length: u32, newLength: u32)
    requires SEGMENT_SIZE <= |c| && length < newLength
    ensures MemoryGrows(VmSize(c), StretchedVmSize(c, length, newLength), newLength - length)
  {
    hide U64At;
    AlignedAnyway((VmSize(c) % TWO32 + (newLength - length)) % TWO32);
    if VmSize(c) + (newLength - length) + 4096 < TWO32 {
      ByteAlignAbove(VmSize(c) + (newLength - length));
    }
  }

  /** Wrapping around keeps whole pages whole. */
  lemma AlignedAnyway(value: u32)
    ensures ByteAlign(value, 4096) % 4096 == 0
  {
    var sum := value + (4096 - value % 4096);
    assert sum % 4096 == 0 && sum < 2 * TWO32;
  }

  /** The segment ended at the old length, its memory covered its file bytes, and there is 32-bit room. */
  predicate CoversOldEnd(c: Command, length: u32, newLength: u32)
    requires SEGMENT_SIZE <= |c|
  {
    && FileOff(c) + FileSize(c) == length
    && FileSize(c) <= VmSize(c)
    && VmSize(c) + (newLength - length) + 4096 < TWO32
  }

  lemma StretchedCovers(c: Command, length: u32, newLength: u32)
    requires SEGMENT_SIZE <= |c| && length < newLength
    ensures FileOff(c) <= newLength ==> StretchedFileSize(c, newLength) == newLength - FileOff(c)
    ensures CoversOldEnd(c, length, newLength) ==>
      StretchedFileSize(c, newLength) <= StretchedVmSize(c, length, newLength)
  {
    hide U64At;
    if VmSize(c) + (newLength - length) + 4096 < TWO32 {
      ByteAlignAbove(VmSize(c) + (newLength - length));
    }
  }

  /** The edits change no command's kind, so the parser picks the same commands, or the new one. */
  lemma GrownKinds(cs: seq<Command>, k: nat, m: Option<nat>, codeLength: u32, length: u32, newLength: u32)
    requires AllParsable(cs) && codeLength <= newLength
    requires Last(cs, IsLinkEdit) == Some(k) && m == Last(cs, IsCodeSignature)
    requires SEGMENT_SIZE <= |cs[k]| && (m.Some? ==> m.value != k && CODESIGNATURE_SIZE <= |cs[m.value]|)
    requires IsLinkEdit(Stretched(cs[k], length, newLength))
    requires m.Some? ==> IsCodeSignature(Sized(cs[m.value], newLength - codeLength))
    requires m.None? ==> IsCodeSignature(CodeSignatureCommand(codeLength, newLength - codeLength))
    ensures var cs' := Grown(cs, k, m, codeLength, length, newLength);
            && AllParsable(cs')
            && Last(cs', IsLinkEdit) == Some(k)
            && Last(cs', IsCodeSignature) == (if m.Some? then m else Some(|cs|))
            && cs'[k] == Stretched(cs[k], length, newLength)
            && (m.Some? ==> cs'[m.value] == Sized(cs[m.value], newLength - codeLength))
            && (m.None? ==> cs'[|cs|] == CodeSignatureCommand(codeLength, newLength - codeLength))
  {
    hide U32At, U64At, CString, Splice, Stretched, Sized, CodeSignatureCommand, LE32, LE64, Last;
    var cs' := Grown(cs, k, m, codeLength, length, newLength);
    forall j | 0 <= j < |cs'| ensures Parsable(cs'[j]) {
      assert j < |cs| ==> cs[j] in cs;
    }
    LastIs(cs', IsLinkEdit, k);
    LastIs(cs', IsCodeSignature, if m.Some? then m.value else |cs|);
  }

  lemma {:induction false} LastIs(cs: seq<Command>, pick: Command -> bool, k: nat)
    requires k < |cs| && pick(cs[k]) && forall j :: k < j < |cs| ==> !pick(cs[j])
    ensures Last(cs, pick) == Some(k)
  {
  }
}
