/** What lengthening makes of a slice, told from the bytes before and after. */
module GrownMeaning {
  import opened Bytes
  import opened LoadCommands
  import opened CommandEdits
  import opened SliceFacts
  import opened SignSpace
  import opened SliceSigning
  import opened MachO
  import opened ParseMeaning

  /** The room behind the code is the least that is more than 52 bytes for every page begun and one more, in whole
      pages, and 16384 bytes on top. */
  predicate IsNewLength(n: nat, codeLength: nat) {
    var hashes := (codeLength / 4096 + 1) * 52;
    (n - codeLength) % 4096 == 0 && codeLength + hashes + 16384 < n <= codeLength + hashes + 16384 + 4096
  }

  /** The segment differs in its two sizes only: it ends where the slice ends, and its memory, in whole pages, is
      larger by what the slice is longer and at most a page more. */
  predicate Stretches(c: Command, c': Command, length: nat, newLength: nat) {
    && 72 <= |c| == |c'| && length <= newLength
    && (forall i :: 0 <= i < |c| && !(32 <= i < 40) && !(48 <= i < 56) ==> c'[i] == c[i])
    && (U64At(c, 40) <= newLength ==> U64At(c', 40) + U64At(c', 48) == newLength)
    && U64At(c', 32) % 4096 == 0
    && (U64At(c, 32) + (newLength - length) + 4096 < 0x1_0000_0000 ==>
          U64At(c, 32) + (newLength - length) < U64At(c', 32) <= U64At(c, 32) + (newLength - length) + 4096)
  }

  /** The signature command differs in the size of the signature only. */
  predicate Resized(c: Command, c': Command, size: nat) {
    && 16 <= |c| == |c'|
    && (forall i :: 0 <= i < |c| && !(12 <= i < 16) ==> c'[i] == c[i])
    && U32At(c', 12) == size
  }

  predicate NewSignatureCommand(c: Command, at: nat, size: nat) {
    |c| == 16 && U32At(c, 0) == 0x1d && U32At(c, 4) == 16 && U32At(c, 8) == at && U32At(c, 12) == size
  }

  /** Of the commands, the `__LINKEDIT` segment is stretched and the signature resized, or a new one written behind all
      others; no other command changes. */
  ghost predicate CommandsGrow(cs: seq<Command>, cs': seq<Command>, codeLength: nat, length: nat, newLength: nat) {
    && codeLength <= newLength
    && exists k: nat ::
         && LastSegment(cs, k, Ascii("__LINKEDIT")) && k < |cs'| && Stretches(cs[k], cs'[k], length, newLength)
         && (SignatureResized(cs, cs', k, newLength - codeLength)
             || SignatureAdded(cs, cs', k, codeLength, newLength - codeLength))
  }

  ghost predicate SignatureResized(cs: seq<Command>, cs': seq<Command>, k: nat, size: nat) {
    exists m: nat ::
      && LastSignature(cs, m) && |cs'| == |cs| && Resized(cs[m], cs'[m], size)
      && forall i :: 0 <= i < |cs| && i != k && i != m ==> cs'[i] == cs[i]
  }

  predicate SignatureAdded(cs: seq<Command>, cs': seq<Command>, k: nat, at: nat, size: nat) {
    && (forall c :: c in cs ==> !SignatureCommand(c)) && |cs'| == |cs| + 1
    && NewSignatureCommand(cs'[|cs|], at, size)
    && forall i :: 0 <= i < |cs| && i != k ==> cs'[i] == cs[i]
  }

  /** Which slices can be lengthened: those with a `__LINKEDIT` segment that are shorter than they would become, and
      that have a signature command or, as the code asks, four bytes for one. */
  lemma GrowsWhen(s: seq<byte>)
    requires Good(s) && Roomy(s)
    ensures IsNewLength(NewLength(CodeLen(s)), CodeLen(s))
    ensures CanGrow(s) <==>
      && (exists c :: c in Cmds(s) && Segment(c, Ascii("__LINKEDIT")))
      && |s| < NewLength(CodeLen(s))
      && ((exists c :: c in Cmds(s) && SignatureCommand(c)) || 4 <= FreeSpace(Cmds(s), HeadEnd(s)))
  {
    hide U32At, CString, FreeSpace, Segment, SignatureCommand, NewLength, LengthInRange, CommandList, IsCodeSignature,
         IsLinkEdit, Parsable, Ascii;
    var cs := Cmds(s);
    NewLengthMeans(CodeLen(s));
    Names();
    AllShapes(cs);
    if k :| Last(cs, IsLinkEdit) == Some(k) {
      assert cs[k] in cs;
    }
    if k :| Last(cs, IsCodeSignature) == Some(k) {
      assert cs[k] in cs;
    }
  }

  lemma NewLengthMeans(codeLength: u32)
    requires LengthInRange(codeLength)
    ensures IsNewLength(NewLength(codeLength), codeLength)
  {
    hide NewLength;
    NewLengthRoom(codeLength);
  }

  lemma StretchedMeans(cs: seq<Command>, codeLength: u32, length: u32, newLength: u32)
    requires AllParsable(cs) && Last(cs, IsLinkEdit).Some? && length < newLength
    ensures var c := cs[Last(cs, IsLinkEdit).value];
            SEGMENT_SIZE <= |c| && Stretches(c, Stretched(c, length, newLength), length, newLength)
  {
    hide U64At, U32At, CString, LE64, StretchedFileSize, StretchedVmSize;
    var c := cs[Last(cs, IsLinkEdit).value];
    assert c in cs;
    SegmentEnd(cs, codeLength, length, newLength);
    StretchedReads(c, length, newLength);
  }

  lemma SizedMeans(c: Command, dataSize: u32)
    requires IsCodeSignature(c)
    ensures Resized(c, Sized(c, dataSize), dataSize)
  {
    hide U32At, LE32;
    SizedReads(c, dataSize);
  }

  lemma NewCommandMeans(dataOff: u32, dataSize: u32)
    ensures NewSignatureCommand(CodeSignatureCommand(dataOff, dataSize), dataOff, dataSize)
  {
    hide U32At, LE32;
    CodeSignatureCommandReads(dataOff, dataSize);
  }

  lemma ListMeans(cs: seq<Command>, codeLength: u32, length: u32)
    requires AllParsable(cs) && Last(cs, IsLinkEdit).Some? && LengthInRange(codeLength)
    requires codeLength == CodeLengthOf(cs, length) && length < NewLength(codeLength)
    ensures codeLength < NewLength(codeLength)
    ensures var k, m := Last(cs, IsLinkEdit).value, Last(cs, IsCodeSignature);
            && SEGMENT_SIZE <= |cs[k]| && (m.Some? ==> m.value != k && CODESIGNATURE_SIZE <= |cs[m.value]|)
            && CommandsGrow(cs, Grown(cs, k, m, codeLength, length, NewLength(codeLength)), codeLength, length,
                            NewLength(codeLength))
  {
    hide U32At, U64At, CString, NewLength, LengthInRange, Parsable, Stretched, Sized, CodeSignatureCommand, Segment,
         SignatureCommand, Stretches, Resized, NewSignatureCommand, Ascii, IsCodeSignature, IsLinkEdit;
    var k, m, n := Last(cs, IsLinkEdit).value, Last(cs, IsCodeSignature), NewLength(codeLength);
    NewLengthRoom(codeLength);
    PickedShapes(cs);
    Names();
    AllShapes(cs);
    StretchedMeans(cs, codeLength, length, n);
    assert LastSegment(cs, k, Ascii("__LINKEDIT"));
    var cs' := Grown(cs, k, m, codeLength, length, n);
    match m
    case Some(j) =>
      SizedMeans(cs[j], n - codeLength);
      assert LastSignature(cs, j);
      assert SignatureResized(cs, cs', k, n - codeLength);
    case None =>
      NewCommandMeans(codeLength, n - codeLength);
      assert SignatureAdded(cs, cs', k, codeLength, n - codeLength);
  }

  /** A lengthened slice: its length, its commands, the rest of its header as before, what lay behind the commands
      still there, and zeros for the rest. */
  lemma GrowthMeans(s: seq<byte>)
    requires CanGrow(s)
    ensures var r := GrownSlice(s);
            && Sliced(r) && |s| <= |r| && IsNewLength(|r|, CodeLen(s))
            && CommandsGrow(Cmds(s), Cmds(r), CodeLen(s), |s|, |r|)
            && r[..16] == s[..16] && r[24..32] == s[24..32]
            && (forall i :: HeadEnd(s) <= i && HeadEnd(r) <= i < |s| ==> r[i] == s[i])
            && (forall i :: |s| <= i < |r| ==> r[i] == 0)
  {
    hide U32At, Flatten, Last, FreeSpace, NewLength, LengthInRange, Walks, Commands, Rebuilt, AllParsable, Grown,
         CommandList, WellFormed, CommandsGrow, IsNewLength;
    var r := GrownSlice(s);
    GrownGood(s);
    GrownRoom(s);
    LongTail(s);
    NewLengthMeans(CodeLen(s));
    ListMeans(Cmds(s), CodeLen(s), |s|);
    forall i | 0 <= i < |s| ensures r[i] == Rebuilt(s, 0, GrownList(s))[i] {
    }
    forall i: nat | i < |s| ensures i < 16 || 24 <= i < 32 || (HeadEnd(s) <= i && HeadEnd(r) <= i) ==> r[i] == s[i] {
      RebuiltBytes(s, 0, GrownList(s), i);
    }
  }
}
