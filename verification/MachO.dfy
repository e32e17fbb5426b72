/** A whole Mach-O file, thin or universal: opening it, signing its slices, and rebuilding it once when
    a slice has no room for its signature. */
module MachO {
  import opened Bytes
  import opened LoadCommands
  import opened CommandEdits
  import opened SliceFacts
  import opened SuperBlob
  import opened Signing
  import opened SignSpace
  import opened SignAgain
  import opened SliceSigning
  import opened ArchO
  import CodeDirectory
  import FatFile

  // ---------------------------------------------------------------- what signing a file comes to

  /** A slice `ZArchO.Sign` can work on: an earlier signature can be read, and the new one stays in 32-bit
      range. */
  ghost predicate Able(s: seq<byte>, w: Settings) {
    Good(s) && (HasSignature(s) ==> Signable(s, w))
  }

  ghost predicate AllAble(slices: seq<seq<byte>>, w: Settings) {
    forall i :: 0 <= i < |slices| ==> Able(slices[i], w)
  }

  /** A slice the file's signing can work on, a reallocation and a second pass included: an earlier
      signature can be read, and no size leaves the 32-bit range. */
  ghost predicate Ready(s: seq<byte>, w: Settings) {
    Good(s) && Roomy(s) && Buildable(w, CodeLen(s)) && (HasSignature(s) ==> TailReadable(s, w))
  }

  ghost predicate AllReady(slices: seq<seq<byte>>, w: Settings) {
    forall i :: 0 <= i < |slices| ==> Ready(slices[i], w)
  }

  lemma ReadyAble(s: seq<byte>, w: Settings)
    requires Ready(s, w)
    ensures Able(s, w)
  {
    hide Buildable, Sliced, Roomy, Signable, TailReadable;
    if HasSignature(s) {
      BuildableSignable(s, w);
    }
  }

  lemma AllReadyAble(slices: seq<seq<byte>>, w: Settings)
    requires AllReady(slices, w)
    ensures AllAble(slices, w)
  {
    hide Ready, Able;
    forall i | 0 <= i < |slices| ensures Able(slices[i], w) {
      ReadyAble(slices[i], w);
    }
  }

  /** A slice whose signature fits as it is. */
  ghost predicate HasRoom(s: seq<byte>, w: Settings) {
    Able(s, w) && CanSign(s, w)
  }

  /** The slice signed, if its signature fits. */
  ghost function Outcome(s: seq<byte>, w: Settings): (r: seq<byte>)
    ensures |r| == |s|
  {
    if HasRoom(s, w) then SignedSlice(s, w) else s
  }

  /** A slice that can be lengthened. */
  predicate CanGrow(s: seq<byte>) {
    Good(s) && Roomy(s) && Growable(s)
  }

  /** The first slice from `i` on that cannot be signed as it is; the number of slices if there is none. */
  ghost function Misfit(slices: seq<seq<byte>>, w: Settings, i: nat): (n: nat)
    requires i <= |slices|
    ensures i <= n <= |slices|
    decreases |slices| - i
  {
    if i < |slices| && HasRoom(slices[i], w) then Misfit(slices, w, i + 1) else i
  }

  lemma {:induction false} MisfitMeaning(slices: seq<seq<byte>>, w: Settings, i: nat)
    requires i <= |slices|
    ensures forall j :: i <= j < Misfit(slices, w, i) ==> HasRoom(slices[j], w)
    ensures Misfit(slices, w, i) < |slices| ==> !HasRoom(slices[Misfit(slices, w, i)], w)
    decreases |slices| - i
  {
    hide HasRoom;
    if i < |slices| && HasRoom(slices[i], w) {
      MisfitMeaning(slices, w, i + 1);
    }
  }

  ghost predicate AllHaveRoom(slices: seq<seq<byte>>, w: Settings) {
    forall i :: 0 <= i < |slices| ==> HasRoom(slices[i], w)
  }

  /** The slices with the first `n` of them signed. */
  ghost function SignedUpTo(slices: seq<seq<byte>>, w: Settings, n: nat): (r: seq<seq<byte>>)
    ensures |r| == |slices|
  {
    seq(|slices|, i requires 0 <= i < |slices| => if i < n then Outcome(slices[i], w) else slices[i])
  }

  predicate AllGood(slices: seq<seq<byte>>) {
    forall i :: 0 <= i < |slices| ==> Good(slices[i]) && Roomy(slices[i])
  }

  predicate AllGrowable(slices: seq<seq<byte>>) {
    forall i :: 0 <= i < |slices| ==> CanGrow(slices[i])
  }

  function GrownAll(slices: seq<seq<byte>>): (r: seq<seq<byte>>)
    requires AllGrowable(slices)
    ensures |r| == |slices|
    ensures forall i :: 0 <= i < |slices| ==> r[i] == GrownSlice(slices[i])
  {
    seq(|slices|, i requires 0 <= i < |slices| => GrownSlice(slices[i]))
  }

  /** A grown slice is ready as it was before. */
  lemma GrownReady(s: seq<byte>, w: Settings)
    requires Ready(s, w) && CanGrow(s)
    ensures Ready(GrownSlice(s), w) && CodeLen(GrownSlice(s)) == CodeLen(s)
  {
    hide Buildable, Sliced, Growable, TailReadable, GrownSlice, NewLength;
    GrownGood(s);
    GrownTailReadable(s, w);
  }

  /** The slice can be lengthened, and what its signature needs besides the page hashes fits what that
      leaves beside them. */
  ghost predicate FitsGrown(s: seq<byte>, w: Settings) {
    && CanGrow(s)
    && Announced(GrownSlice(s)) && Signable(GrownSlice(s), w)
    && Needs(GrownSlice(s), w) <= Spare(InputOf(GrownSlice(s), w))
  }

  lemma GrownHasRoom(s: seq<byte>, w: Settings)
    requires Ready(s, w) && CanGrow(s)
    ensures HasRoom(GrownSlice(s), w) <==> FitsGrown(s, w)
    ensures Modest(w, CodeLen(s)) ==> FitsGrown(s, w)
  {
    hide Buildable, Modest, Sliced, Growable, Roomy, TailReadable, GrownSlice, CanSign, Signable, Needs, Spare;
    GrownCanSign(s, w);
    if Modest(w, CodeLen(s)) {
      ModestCanSign(s, w);
    }
  }

  /** A signed slice is ready again, and as able to grow as before. */
  lemma SignedReady(s: seq<byte>, w: Settings)
    requires HasRoom(s, w) && Ready(s, w)
    ensures Ready(Outcome(s, w), w) && (CanGrow(Outcome(s, w)) <==> CanGrow(s))
  {
    hide Buildable, Sliced, Signable, SignedSlice, Roomy, Growable, RegionsInside, Tail, CanGrow;
    SignedKeeps(s, w);
    SameGrowth(s, Outcome(s, w));
  }

  lemma SameGrowth(s: seq<byte>, r: seq<byte>)
    requires Good(s) && Good(r) && |r| == |s|
    requires Cmds(r) == Cmds(s) && HeadEnd(r) == HeadEnd(s) && CodeLen(r) == CodeLen(s)
    ensures Roomy(r) <==> Roomy(s)
    ensures CanGrow(r) <==> CanGrow(s)
  {
    hide Sliced, Last, FreeSpace, NewLength, LengthInRange;
  }

  lemma SignedUpToReady(slices: seq<seq<byte>>, w: Settings, n: nat)
    requires AllReady(slices, w) && n <= |slices| && forall j :: 0 <= j < n ==> HasRoom(slices[j], w)
    ensures AllReady(SignedUpTo(slices, w, n), w)
    ensures AllGrowable(SignedUpTo(slices, w, n)) <==> AllGrowable(slices)
    ensures forall i :: 0 <= i < |slices| ==> CodeLenOf(SignedUpTo(slices, w, n)[i]) == CodeLenOf(slices[i])
  {
    hide Ready, CanGrow, Outcome, HasRoom, CodeLenOf;
    var r := SignedUpTo(slices, w, n);
    forall i | 0 <= i < |slices|
      ensures Ready(r[i], w) && (CanGrow(r[i]) <==> CanGrow(slices[i])) && CodeLenOf(r[i]) == CodeLenOf(slices[i])
    {
      if i < n {
        SignedReady(slices[i], w);
        SameCodeLen(slices[i], w);
      }
    }
  }

  /** The code length, of a slice that can be parsed. */
  function CodeLenOf(s: seq<byte>): u32 {
    if Sliced(s) then CodeLen(s) else 0
  }

  lemma SameCodeLen(s: seq<byte>, w: Settings)
    requires HasRoom(s, w)
    ensures CodeLenOf(Outcome(s, w)) == CodeLenOf(s)
  {
    hide Sliced, Signable, SignedSlice, RegionsInside;
    SignedKeeps(s, w);
  }

  lemma GrownAllReady(slices: seq<seq<byte>>, w: Settings)
    requires AllReady(slices, w) && AllGrowable(slices)
    ensures AllReady(GrownAll(slices), w)
  {
    hide Ready, CanGrow, GrownSlice;
    forall i | 0 <= i < |slices| ensures Ready(GrownAll(slices)[i], w) {
      GrownReady(slices[i], w);
    }
  }

  /** The slices after `Sign`, when it succeeds: every slice signed as it is, or else, once, every slice
      grown first. Slices signed before the first misfit grow with the signature they were just given. */
  ghost function FinalSlices(slices: seq<seq<byte>>, w: Settings, realloced: bool): Option<seq<seq<byte>>>
    requires AllReady(slices, w)
    decreases if realloced then 0 else 1
  {
    var n := Misfit(slices, w, 0);
    MisfitMeaning(slices, w, 0);
    SignedUpToReady(slices, w, n);
    if slices == [] then None
    else if n == |slices| then Some(SignedUpTo(slices, w, n))
    else if !realloced && AllGrowable(slices) then
      GrownAllReady(SignedUpTo(slices, w, n), w);
      FinalSlices(GrownAll(SignedUpTo(slices, w, n)), w, true)
    else None
  }

  /** What the first pass leaves: the slices signed up to the first that has no room. */
  ghost function AfterFirstPass(slices: seq<seq<byte>>, w: Settings): seq<seq<byte>> {
    SignedUpTo(slices, w, Misfit(slices, w, 0))
  }

  ghost predicate AllFitGrown(slices: seq<seq<byte>>, w: Settings) {
    forall i :: 0 <= i < |slices| ==> FitsGrown(slices[i], w)
  }

  /** When it succeeds: every slice has room; or no reallocation was made yet, every slice can be
      lengthened, those with room included, and what each signature then needs besides its page hashes
      fits what lengthening leaves beside them. */
  lemma SucceedsWhen(slices: seq<seq<byte>>, w: Settings, realloced: bool)
    requires AllReady(slices, w) && slices != []
    ensures FinalSlices(slices, w, realloced).Some? <==>
      || AllHaveRoom(slices, w)
      || (!realloced && AllGrowable(slices) && AllFitGrown(AfterFirstPass(slices, w), w))
  {
    hide CanGrow, HasRoom, Ready, SignedUpTo, GrownAll, FitsGrown, AllReady, AllGrowable, AllFitGrown;
    MisfitMeaning(slices, w, 0);
    SignedUpToReady(slices, w, Misfit(slices, w, 0));
    if !AllHaveRoom(slices, w) && !realloced && AllGrowable(slices) {
      SecondPass(AfterFirstPass(slices, w), w);
    }
  }

  /** Under modest settings it succeeds whenever every slice has room or every slice can be lengthened. */
  lemma ModestSucceeds(slices: seq<seq<byte>>, w: Settings, realloced: bool)
    requires AllReady(slices, w) && slices != []
    requires forall i :: 0 <= i < |slices| ==> Modest(w, CodeLenOf(slices[i]))
    ensures FinalSlices(slices, w, realloced).Some? <==> AllHaveRoom(slices, w) || (!realloced && AllGrowable(slices))
  {
    hide CanGrow, HasRoom, Ready, SignedUpTo, FitsGrown, CodeLenOf, Modest;
    SucceedsWhen(slices, w, realloced);
    MisfitMeaning(slices, w, 0);
    SignedUpToReady(slices, w, Misfit(slices, w, 0));
    var left := AfterFirstPass(slices, w);
    if AllGrowable(slices) {
      forall i | 0 <= i < |left| ensures FitsGrown(left[i], w) {
        assert Modest(w, CodeLenOf(slices[i]));
        ModestFitsGrown(left[i], w);
      }
    }
  }

  lemma ModestFitsGrown(s: seq<byte>, w: Settings)
    requires Ready(s, w) && CanGrow(s) && Modest(w, CodeLenOf(s))
    ensures FitsGrown(s, w)
  {
    hide Buildable, Modest, Sliced, Growable, Roomy, TailReadable, FitsGrown, HasRoom;
    GrownHasRoom(s, w);
  }

  /** Signing with force leaves a slice whose signature is the one its own, final, code calls for, and
      a reader of it finds exactly that code's page hashes. */
  lemma ForcedMatchesCode(s: seq<byte>, w: Settings)
    requires HasRoom(s, w) && w.force
    ensures var r := Outcome(s, w);
            && Announced(r) && Fitting(InputOf(r, w), w.f) && w.f.Sound()
            && SlotsFor(InputOf(r, w), w.f, None, None).Sound()
            && Signature(InputOf(r, w), w.f) <= Tail(r)
            && RegionsInside(Some(Tail(r)))
            && (!Unsigned(InputOf(r, w)) ==>
                  Existing(false, Some(Tail(r)), CSSLOT_CODEDIRECTORY)
                    == Some(Flatten(CodeDirectory.PageHashes(PrimaryHash(InputOf(r, w), w.f), Code(r)))))
  {
    hide U32At, Sliced, RegionsInside, Existing, SlotsFor, Fitting, Slots.Sound, SignedSlice, Flatten,
         CodeDirectory.PageHashes, Tail, SignatureWith;
    SignedKeeps(s, w);
    NothingOffered(Tail(s), Tail(s));
    SlotsReadBack(InputOf(s, w), w.f, Tail(Outcome(s, w)));
  }

  lemma NothingOffered(m: seq<byte>, t: seq<byte>)
    ensures forall kind | kind in {CSSLOT_CODEDIRECTORY, CSSLOT_ALTERNATE_CODEDIRECTORIES} ::
              Existing(true, Some(m), kind) == Existing(true, Some(t), kind) == None
  {
  }

  /** After a reallocation and the second pass a slice's `__LINKEDIT` segment and its signature both end
      where the slice ends, the room for the signature is whole pages, and the segment's memory is whole pages
      that have grown with the slice and cover its bytes if they did before. */
  lemma RetriedIsConsistent(s: seq<byte>, w: Settings)
    requires CanGrow(s)
    ensures EndsTogether(s, Outcome(GrownSlice(s), w))
  {
    hide U32At, Sliced, SignedSlice, GrownSlice, Roomy, Growable, CanSign, NewLength, GrownList, EndsWith, Signable,
         RegionsInside, Covers;
    var r := GrownSlice(s);
    GrownGood(s);
    LongTail(s);
    if HasRoom(r, w) {
      SignedKeeps(r, w);
    }
    GrownEnds(s);
  }

  /** `r` carries the grown commands of `s`, and they end where it ends. */
  predicate EndsTogether(s: seq<byte>, r: seq<byte>)
    requires CanGrow(s)
  {
    && Announced(r) && Cmds(r) == GrownList(s) && |r| == NewLength(CodeLen(s))
    && LinkEditOf(s).Some?
    && EndsWith(Cmds(r), LinkEditOf(s).value.0, CodeLen(s), |r|, LinkEditOf(s).value.1, Covers(s))
    && MemoryGrown(Cmds(s), Cmds(r), LinkEditOf(s).value.0, |r| - |s|)
  }

  /** The memory of segment `k` is whole pages and has grown by `more` and at most a page. */
  predicate MemoryGrown(cs: seq<Command>, cs': seq<Command>, k: nat, more: int) {
    && k < |cs| && k < |cs'| && SEGMENT_SIZE <= |cs[k]| && SEGMENT_SIZE <= |cs'[k]| && 0 <= more
    && MemoryGrows(VmSize(cs[k]), VmSize(cs'[k]), more)
  }

  /** The segment's memory covered its bytes, up to the end of the slice, with 32-bit room to grow. */
  predicate Covers(s: seq<byte>)
    requires CanGrow(s)
  {
    var k := Last(Cmds(s), IsLinkEdit).value;
    SEGMENT_SIZE <= |Cmds(s)[k]| && CoversOldEnd(Cmds(s)[k], |s|, NewLength(CodeLen(s)))
  }

  /** Index and file offset of the segment that is stretched. */
  function LinkEditOf(s: seq<byte>): Option<(nat, nat)>
    requires Good(s)
  {
    match Last(Cmds(s), IsLinkEdit)
    case Some(k) => Some((k, FileOff(Cmds(s)[k])))
    case None => None
  }

  lemma GrownEnds(s: seq<byte>)
    requires CanGrow(s)
    ensures LinkEditOf(s).Some?
    ensures EndsWith(GrownList(s), LinkEditOf(s).value.0, CodeLen(s), NewLength(CodeLen(s)), LinkEditOf(s).value.1,
      Covers(s))
    ensures MemoryGrown(Cmds(s), GrownList(s), LinkEditOf(s).value.0, NewLength(CodeLen(s)) - |s|)
  {
    hide U32At, U64At, CString, NewLength, LengthInRange, Last, Grown, DataOff, DataSize, FileOff, FileSize,
         VmSize, Parsable, Stretched, Sized, CodeSignatureCommand, WellFormed, CommandList;
    NewLengthRoom(CodeLen(s));
    GrownIsConsistent(Cmds(s), CodeLen(s), |s|);
    PickedShapes(GrownList(s));
  }

  /** Segment `k` and the signature, from `codeLength` on, both end at `length`, and the segment's memory
      is no smaller than its bytes if it has to cover them. */
  predicate EndsWith(cs: seq<Command>, k: nat, codeLength: nat, length: nat, fileOff: nat, covers: bool) {
    && k < |cs| && SEGMENT_SIZE <= |cs[k]|
    && (fileOff <= length ==> FileOff(cs[k]) + FileSize(cs[k]) == length)
    && (covers ==> FileSize(cs[k]) <= VmSize(cs[k]))
    && Last(cs, IsCodeSignature).Some?
    && var sig := cs[Last(cs, IsCodeSignature).value];
       && CODESIGNATURE_SIZE <= |sig| && DataOff(sig) == codeLength
       && DataOff(sig) + DataSize(sig) == length && DataSize(sig) % 4096 == 0
  }

  // ---------------------------------------------------------------- one slice in a mapped file

  predicate SliceHere(b: seq<byte>, off: nat, s: seq<byte>) {
    off + |s| <= |b| && b[off..off + |s|] == s
  }

  /** The object's fields say what parsing the slice `s` finds. */
  predicate Describes(a: ZArchO, s: seq<byte>)
    reads a
  {
    && |s| == a.length && Good(s)
    && a.Fields() == Found(Cmds(s), a.off, a.length, HeadEnd(s))
    && a.fileType == U32At(s, 12)
  }

  lemma HereParsed(a: ZArchO, s: seq<byte>)
    requires Describes(a, s) && SliceHere(a.file[..], a.off, s)
    ensures a.Parsed() && a.Cmds() == Cmds(s) && a.HeadEnd() == HeadEnd(s)
  {
    hide U32At, Walks, Commands, Found, CString, AllParsable;
    assert s[0..|s|] == s;
    Relocated(s, 0, |s|, a.file[..], a.off);
  }

  /** What the object hands to the signature builder is what the slice's bytes say. */
  lemma HereInput(a: ZArchO, s: seq<byte>, w: Settings)
    requires Describes(a, s) && SliceHere(a.file[..], a.off, s) && Able(s, w) && HasSignature(s)
    ensures a.codeLength == CodeLen(s) && a.signBase == Some(a.off + a.codeLength)
      && a.off + a.codeLength <= a.file.Length
    ensures a.SigningInput(w.asset, w.f, w.bundleId, w.infoSHA1, w.infoSHA256, w.resources) == InputOf(s, w)
    ensures w.force || RegionsInside(Some(a.file[a.off + a.codeLength..]))
    ensures Signable(s, w) && Fitting(InputOf(s, w), w.f) && w.f.Sound() && NewSlots(s, w).Sound()
    ensures a.SlotsToWrite(InputOf(s, w), w.f, w.force) == NewSlots(s, w)
  {
    hide U32At, Walks, Commands, CommandList, CString, AllParsable, RegionsInside, SlotsFor, Fitting, Existing,
         Last, FreeSpace, ExecLimit, CodeLengthOf, Slots.Sound;
    var b, n := a.file[..], CodeLen(s);
    FoundPlaces(Cmds(s), a.off, a.length, HeadEnd(s));
    SliceOfSlice(b, a.off, a.off + |s|, 0, n);
    SliceOfSlice(b, a.off, a.off + |s|, n, |s|);
    var m := b[a.off + n..];
    assert Tail(s) == b[a.off + n..a.off + |s|] == m[..|s| - n];
    if !w.force {
      LongerReadable(Tail(s), m);
    } else {
      NothingOffered(m, Tail(s));
    }
    assert a.file[a.off + a.codeLength..] == m;
  }

  /** `ZArchO.Sign` on a slice of the file: the slice becomes its outcome, nothing else changes. */
  method SignArch(a: ZArchO, ghost s: seq<byte>, w: Settings) returns (ok: bool)
    requires Describes(a, s) && SliceHere(a.file[..], a.off, s) && Able(s, w)
    modifies a, a.file
    ensures ok <==> HasRoom(s, w)
    ensures a.file[..] == Splice(old(a.file[..]), a.off, Outcome(s, w))
    ensures Describes(a, s) && a.enoughSpace == (old(a.enoughSpace) && ok)
  {
    hide U32At, Good, Able, InputOf, NewSlots, Fitting, Slots.Sound, SlotsFor, Slots.All, Present, Assembled,
         TotalSize, RegionsInside, Existing, Splice, Found, Signable, NewBlob, TailReadable, Sliced, Outcome, HasRoom,
         CodeLengthOf, Last, FreeSpace, ExecLimit, SlotHash;
    ghost var b := a.file[..];
    AbleFacts(s, w);
    FoundPlaces(Cmds(s), a.off, a.length, HeadEnd(s));
    OutcomeInPlace(b, a.off, s, w);
    if HasSignature(s) {
      HereInput(a, s, w);
      BlobOfSlots(s, w);
    }
    ok := a.Sign(w.asset, w.f, w.force, w.bundleId, w.infoSHA1, w.infoSHA256, w.resources);
  }

  lemma AbleFacts(s: seq<byte>, w: Settings)
    requires Able(s, w)
    ensures Good(s) && Sliced(s) && |s| < 0x8000_0000 && CodeLen(s) < 0x8000_0000
  {
  }

  lemma BlobOfSlots(s: seq<byte>, w: Settings)
    requires Announced(s) && Signable(s, w)
    ensures 12 + 8 * |Present(NewSlots(s, w).All())| + TotalSize(Present(NewSlots(s, w).All())) < TWO32
    ensures NewBlob(s, w) == Assembled(Present(NewSlots(s, w).All()))
  {
    hide Slots.All, Present, Assembled, TotalSize, SlotsFor, Sliced, Existing, RegionsInside, Fitting,
         SignatureWith, Good, Offered, InputOf, Slots.Sound;
    SignatureIsAssembled(InputOf(s, w), w.f, Offered(s, w, CSSLOT_CODEDIRECTORY),
      Offered(s, w, CSSLOT_ALTERNATE_CODEDIRECTORIES));
  }

  lemma SignatureIsAssembled(i: Input, f: Foreign, existing1: Option<seq<byte>>, existing256: Option<seq<byte>>)
    requires Fitting(i, f) && f.Sound() && SlotsFor(i, f, existing1, existing256).Sound()
    ensures var es := Present(SlotsFor(i, f, existing1, existing256).All());
            12 + 8 * |es| + TotalSize(es) < TWO32 && SignatureWith(i, f, existing1, existing256) == Assembled(es)
  {
    hide Fitting, Words;
    SlotsSize(SlotsFor(i, f, existing1, existing256));
    PresentSize(SlotsFor(i, f, existing1, existing256).All());
  }

  lemma OutcomeInPlace(b: seq<byte>, off: nat, s: seq<byte>, w: Settings)
    requires Able(s, w) && SliceHere(b, off, s)
    ensures HasSignature(s) ==> Announced(s) && Signable(s, w)
    ensures HasSignature(s) ==> (HasRoom(s, w) <==> |NewBlob(s, w)| <= |s| - CodeLen(s))
    ensures !HasSignature(s) ==> !HasRoom(s, w)
    ensures !HasRoom(s, w) ==> Splice(b, off, Outcome(s, w)) == b
    ensures HasRoom(s, w) ==> Splice(b, off, Outcome(s, w)) == Splice(b, off + CodeLen(s), NewBlob(s, w))
  {
    hide NewBlob, Sliced, Signable, Splice;
    if HasRoom(s, w) {
      NestedSplice(b, off, s, CodeLen(s), NewBlob(s, w));
    } else {
      SameSplice(b, off, s);
    }
  }

  lemma NestedSplice(b: seq<byte>, off: nat, s: seq<byte>, at: nat, x: seq<byte>)
    requires SliceHere(b, off, s) && at + |x| <= |s|
    ensures Splice(b, off, Splice(s, at, x)) == Splice(b, off + at, x)
  {
  }

  lemma SameSplice(b: seq<byte>, off: nat, s: seq<byte>)
    requires SliceHere(b, off, s)
    ensures Splice(b, off, s) == b
  {
  }

  /** `ZArchO.ReallocCodeSignSpace` on a slice of the file: it gives the grown slice if it can be grown,
      nothing otherwise, and changes the file inside the slice only. */
  method ReallocArch(a: ZArchO, ghost s: seq<byte>) returns (newLength: u32, newFile: seq<byte>)
    requires Describes(a, s) && SliceHere(a.file[..], a.off, s) && Roomy(s)
    modifies a.file
    ensures newLength > 0 <==> CanGrow(s)
    ensures CanGrow(s) ==> newFile == GrownSlice(s) && newLength == |newFile|
    ensures a.file[..a.off] == old(a.file[..a.off]) && a.file[a.off + a.length..] == old(a.file[a.off + a.length..])
  {
    hide U32At, Walks, Commands, CommandList, CString, AllParsable, Last, FreeSpace, Rebuilt, NewLength,
         LengthInRange, Grown, Flatten, Stretched, Found;
    ghost var b := a.file[..];
    HereParsed(a, s);
    FoundPlaces(Cmds(s), a.off, a.length, HeadEnd(s));
    NewLengthRoom(CodeLen(s));
    newLength, newFile := a.ReallocCodeSignSpace();
    if CanGrow(s) {
      GrownRoom(s);
      SameHead(b, a.off, s);
      RebuiltSlice(b, a.off, s, GrownList(s));
    } else if newLength == 0 && a.file[..] != b {
      StretchedRoom(s);
      SameHead(b, a.off, s);
      ghost var k := Last(Cmds(s), IsLinkEdit).value;
      RebuiltSlice(b, a.off, s, Cmds(s)[k := Stretched(Cmds(s)[k], |s|, NewLength(CodeLen(s)))]);
    }
  }

  lemma SameHead(b: seq<byte>, off: nat, s: seq<byte>)
    requires Sliced(s) && SliceHere(b, off, s)
    ensures WellFormed(b, off) && CommandList(b, off) == Cmds(s) && SizeOfCmds(b, off) == SizeOfCmds(s, 0)
    ensures WellFormed(s, 0) && AreaEnd(s, 0) <= |s|
  {
    hide U32At, Walks, Commands, AllParsable;
    assert s[0..|s|] == s;
    Relocated(s, 0, |s|, b, off);
  }

  /** Stretching a segment moves no command. */
  lemma StretchedRoom(s: seq<byte>)
    requires Good(s) && Roomy(s) && Last(Cmds(s), IsLinkEdit).Some?
    ensures var k := Last(Cmds(s), IsLinkEdit).value;
            && k < |Cmds(s)| && SEGMENT_SIZE <= |Cmds(s)[k]|
            && LoadCommands.Fits(s, 0, Cmds(s)[k := Stretched(Cmds(s)[k], |s|, NewLength(CodeLen(s)))])
  {
    hide U32At, Flatten, Last, Stretched, NewLength, Walks, Commands, AllParsable, LengthInRange;
    PickedShapes(Cmds(s));
    var cs, k := Cmds(s), Last(Cmds(s), IsLinkEdit).value;
    SameLengths(cs, cs[k := Stretched(cs[k], |s|, NewLength(CodeLen(s)))]);
    CommandsFlatten(s, HEADER_SIZE, NCmds(s, 0), AreaEnd(s, 0));
  }

  /** Rebuilding the area of a slice in a file rebuilds the slice and leaves the rest of the file. */
  lemma RebuiltSlice(b: seq<byte>, off: nat, s: seq<byte>, cs: seq<Command>)
    requires SliceHere(b, off, s) && WellFormed(b, off) && WellFormed(s, 0) && SizeOfCmds(b, off) == SizeOfCmds(s, 0)
    requires LoadCommands.Fits(s, 0, cs)
    ensures LoadCommands.Fits(b, off, cs)
    ensures var r := Rebuilt(b, off, cs);
            r[..off] == b[..off] && r[off..off + |s|] == Rebuilt(s, 0, cs) && r[off + |s|..] == b[off + |s|..]
  {
  }

  // ---------------------------------------------------------------- the file

  /** Every slice the table names is inside the file. */
  predicate Bounded(b: seq<byte>) {
    && |b| < TWO32
    && (FatFile.IsFat(b) ==>
          && FatFile.TableInside(b)
          && forall i :: 0 <= i < |FatFile.Slices(b)| ==>
               FatFile.Slices(b)[i].offset + FatFile.Slices(b)[i].size <= |b|)
  }

  /** Where the slices are: what the table says, or the whole file. */
  function Extents(b: seq<byte>): (r: seq<FatFile.Slice>)
    requires Bounded(b)
    ensures forall i :: 0 <= i < |r| ==> r[i].offset + r[i].size <= |b|
  {
    if FatFile.IsFat(b) then FatFile.Slices(b) else [FatFile.Slice(0, |b|)]
  }

  function SlicesIn(b: seq<byte>): (r: seq<seq<byte>>)
    requires Bounded(b)
    ensures |r| == |Extents(b)|
    ensures forall i :: 0 <= i < |r| ==> r[i] == b[Extents(b)[i].offset..Extents(b)[i].offset + Extents(b)[i].size]
  {
    seq(|Extents(b)|, i requires 0 <= i < |Extents(b)| =>
      b[Extents(b)[i].offset..Extents(b)[i].offset + Extents(b)[i].size])
  }

  /** Number `k` of the table, in the byte order that the first four bytes tell. */
  function TableNumber(b: seq<byte>, at: nat): u32
    requires 4 <= |b| && at + 4 <= |b|
  {
    if b[0] == 0xca then BigU32At(b, at) else U32At(b, at)
  }

  /** A universal file starts with CA FE BA BE or, in the other byte order, BE BA FE CA; then come the number of its
      slices, and 20 bytes for each, with its offset and size in the third and fourth word. Any other file is its own
      only slice. */
  lemma SlicesMean(b: seq<byte>, i: nat)
    requires Bounded(b)
    ensures if 8 <= |b| && (b[..4] == [0xca, 0xfe, 0xba, 0xbe] || b[..4] == [0xbe, 0xba, 0xfe, 0xca]) then
              var n := TableNumber(b, 4);
              && |SlicesIn(b)| == (if n < 0x8000_0000 then n else 0)
              && (i < |SlicesIn(b)| ==>
                    && 8 + 20 * i + 20 <= |b|
                    && var off, size := TableNumber(b, 8 + 20 * i + 8), TableNumber(b, 8 + 20 * i + 12);
                       off + size <= |b| && SlicesIn(b)[i] == b[off..off + size])
            else SlicesIn(b) == [b]
  {
    hide BigU32At, U32At;
    Magics(b);
    if FatFile.IsFat(b) && i < |SlicesIn(b)| {
      assert Extents(b)[i] == FatFile.SliceAt(b, i);
    } else if !FatFile.IsFat(b) {
      assert Extents(b) == [FatFile.Slice(0, |b|)];
      assert SlicesIn(b)[0] == b[0..|b|] == b;
    }
  }

  lemma Magics(b: seq<byte>)
    ensures FatFile.IsFat(b) <==>
      8 <= |b| && (b[..4] == [0xca, 0xfe, 0xba, 0xbe] || b[..4] == [0xbe, 0xba, 0xfe, 0xca])
    ensures FatFile.IsFat(b) ==> (FatFile.Native(b) <==> b[0] != 0xca)
  {
    if 8 <= |b| {
      assert b[..4] == [b[0], b[1], b[2], b[3]];
    }
  }

  /** A slice that is empty, no Mach-O image, or a 64-bit image in native byte order. */
  predicate Parses(s: seq<byte>) {
    |s| > 0 ==>
      && HEADER_SIZE <= |s|
      && U32At(s, 0) !in {MH_MAGIC, MH_CIGAM, MH_CIGAM_64}
      && (U32At(s, 0) == MH_MAGIC_64 ==> Good(s))
  }

  /** A file the model opens: its slices lie in order behind the table and can be parsed. */
  predicate Openable(b: seq<byte>) {
    && Bounded(b)
    && (!FatFile.IsFat(b) ==> HEADER_SIZE <= |b|)
    && (FatFile.IsFat(b) ==>
          forall i :: 0 <= i < |Extents(b)| ==> FatFile.HeaderSize(|Extents(b)|) <= Extents(b)[i].offset)
    && (forall i, j :: 0 <= i < j < |Extents(b)| ==> Extents(b)[i].offset + Extents(b)[i].size <= Extents(b)[j].offset)
    && (forall i :: 0 <= i < |SlicesIn(b)| ==> Parses(SlicesIn(b)[i]))
  }

  /** A slice that `Init` takes. */
  predicate Taken(s: seq<byte>)
    requires Parses(s)
  {
    |s| > 0 && U32At(s, 0) == 0xfeed_facf
  }

  /** The header and table of a universal file with `n` slices. */
  predicate HasTable(b: seq<byte>, n: nat) {
    FatFile.IsFat(b) && FatFile.TableInside(b) && FatFile.SliceCount(b) == n
  }

  lemma OthersHere(b: seq<byte>, off: nat, x: seq<byte>, off2: nat, s: seq<byte>)
    requires off + |x| <= |b| && SliceHere(b, off2, s) && (off2 + |s| <= off || off + |x| <= off2)
    ensures SliceHere(Splice(b, off, x), off2, s)
  {
  }

  lemma OutcomeDescribed(a: ZArchO, s: seq<byte>, w: Settings)
    requires Describes(a, s) && HasRoom(s, w)
    ensures Describes(a, Outcome(s, w))
  {
    hide U32At, Sliced, Signable, SignedSlice, RegionsInside, Found;
    SignedKeeps(s, w);
  }

  // ---------------------------------------------------------------- the rebuilt file

  /** Runs as long as the grown slices. */
  function Sizes(slices: seq<seq<byte>>): (r: seq<seq<byte>>)
    ensures |r| == |slices|
    ensures forall i :: 0 <= i < |r| ==> |r[i]| == NewLength(CodeLenOf(slices[i]))
  {
    seq(|slices|, i requires 0 <= i < |slices| => Zeros(NewLength(CodeLenOf(slices[i]))))
  }

  /** The 32-bit offsets of a file rebuilt around the grown slices do not wrap. */
  predicate LayoutInRange(slices: seq<seq<byte>>) {
    |slices| > 1 ==> FatFile.OffsetAt(Sizes(slices), |slices|) < TWO32
  }

  lemma {:induction false} SameOffsets(files: seq<seq<byte>>, others: seq<seq<byte>>, i: nat)
    requires i <= |files| == |others| && forall j :: 0 <= j < |files| ==> |files[j]| == |others[j]|
    ensures FatFile.OffsetAt(files, i) == FatFile.OffsetAt(others, i)
  {
    hide FatFile.Pad;
    if i > 0 {
      SameOffsets(files, others, i - 1);
    }
  }

  lemma GrownLayout(slices: seq<seq<byte>>, files: seq<seq<byte>>)
    requires AllGrowable(slices) && LayoutInRange(slices) && files == GrownAll(slices) && |slices| > 1
    ensures FatFile.OffsetAt(files, |files|) < TWO32
  {
    hide Good, Roomy, Growable, NewLength, FatFile.OffsetAt, GrownSlice;
    forall i | 0 <= i < |files| ensures |files[i]| == |Sizes(slices)[i]| {
      GrownLength(slices[i]);
    }
    SameOffsets(files, Sizes(slices), |files|);
  }

  lemma GrownLength(s: seq<byte>)
    requires CanGrow(s)
    ensures |GrownSlice(s)| == NewLength(CodeLenOf(s))
  {
    hide U32At, NewLength;
  }

  lemma GrownTaken(s: seq<byte>)
    requires CanGrow(s)
    ensures Good(GrownSlice(s)) && Parses(GrownSlice(s)) && Taken(GrownSlice(s))
  {
    hide U32At, GrownSlice, Sliced, Growable;
    GrownGood(s);
    GoodParses(GrownSlice(s));
  }

  lemma GoodParses(s: seq<byte>)
    requires Good(s)
    ensures Parses(s) && Taken(s) && HEADER_SIZE <= |s| < TWO32 && U32At(s, 0) == MH_MAGIC_64
  {
  }

  /** Opening `b` succeeds and finds the slices. */
  predicate OpensTo(b: seq<byte>, slices: seq<seq<byte>>) {
    Openable(b) && SlicesIn(b) == slices && forall i :: 0 <= i < |SlicesIn(b)| ==> Taken(SlicesIn(b)[i])
  }

  /** A grown slice alone is a file that opens to itself. */
  lemma ThinOpens(s: seq<byte>)
    requires CanGrow(s)
    ensures OpensTo(GrownSlice(s), [GrownSlice(s)])
  {
    hide U32At, GrownSlice, Good, Roomy, Growable, OpensTo;
    GrownTaken(s);
    GoodOpens(GrownSlice(s));
  }

  lemma GoodOpens(r: seq<byte>)
    requires Good(r)
    ensures OpensTo(r, [r])
  {
    hide U32At, Good, Parses, Taken;
    GoodParses(r);
    assert !FatFile.IsFat(r);
    assert r[0..|r|] == r;
    assert SlicesIn(r)[0] == r;
  }

  /** A file rebuilt around good slices opens to exactly them. */
  lemma FatOpens(was: seq<byte>, files: seq<seq<byte>>)
    requires HasTable(was, |files|) && FatFile.OffsetAt(files, |files|) < TWO32
    requires forall i :: 0 <= i < |files| ==> Good(files[i])
    ensures OpensTo(FatFile.Rewritten(was, files), files)
  {
    hide U32At, BigU32At, FatFile.Rewritten, FatFile.OffsetAt, FatFile.SliceAt, FatFile.SliceCount,
         FatFile.TableInside, FatFile.IsFat, Good, Parses, Taken, SlicesIn, Extents, Bounded;
    var r := FatFile.Rewritten(was, files);
    RebuiltExtents(was, files);
    forall i | 0 <= i < |files| ensures Parses(files[i]) && Taken(files[i]) {
      GoodParses(files[i]);
    }
  }

  lemma RebuiltExtents(was: seq<byte>, files: seq<seq<byte>>)
    requires HasTable(was, |files|) && FatFile.OffsetAt(files, |files|) < TWO32
    ensures var r := FatFile.Rewritten(was, files);
            && FatFile.IsFat(r) && Bounded(r) && SlicesIn(r) == files && |Extents(r)| == |files|
            && (forall i :: 0 <= i < |files| ==> FatFile.HeaderSize(|files|) <= Extents(r)[i].offset)
            && (forall i, j :: 0 <= i < j < |files| ==>
                 Extents(r)[i].offset + Extents(r)[i].size <= Extents(r)[j].offset)
  {
    hide U32At, BigU32At, FatFile.Rewritten, FatFile.OffsetAt, FatFile.SliceAt, FatFile.Pad, FatFile.Body,
         FatFile.Table, FatFile.Placed;
    var r := FatFile.Rewritten(was, files);
    FatFile.OpenRecovers(was, files);
    FatFile.Parts(was, files);
    forall i | 0 <= i < |files| ensures FatFile.HeaderSize(|files|) <= Extents(r)[i].offset {
      BehindTable(was, files, i);
    }
    assert forall i :: 0 <= i < |files| ==> SlicesIn(r)[i] == files[i];
  }

  lemma BehindTable(was: seq<byte>, files: seq<seq<byte>>, i: nat)
    requires HasTable(was, |files|) && FatFile.OffsetAt(files, |files|) < TWO32 && i < |files|
    ensures var r := FatFile.Rewritten(was, files);
            FatFile.IsFat(r) && FatFile.TableInside(r) && FatFile.SliceCount(r) == |files|
            && FatFile.HeaderSize(|files|) <= FatFile.SliceAt(r, i).offset
  {
    hide U32At, BigU32At, FatFile.Rewritten, FatFile.OffsetAt, FatFile.SliceAt, FatFile.Body, FatFile.Table;
    FatFile.RewrittenLayout(was, files, i);
    FatFile.OffsetIsWritten(files, i);
  }

  class ZMachO {
    var base: array<byte>
    var csRealloced: bool
    var arches: seq<ZArchO>
    /** The bytes of the slices. */
    ghost var slices: seq<seq<byte>>

    constructor ()
      ensures arches == [] && slices == [] && !csRealloced && fresh(base)
    {
      base := new byte[0];
      csRealloced, arches, slices := false, [], [];
    }

    /** Slice `i` is in the file at its place and its object describes it. */
    ghost predicate Holds(i: nat)
      requires i < |arches| == |slices|
      reads `base, `arches, `slices, base, arches
    {
      && arches[i].file == base && arches[i].length == |slices[i]|
      && Describes(arches[i], slices[i]) && SliceHere(base[..], arches[i].off, slices[i])
    }

    /** The slices are distinct objects and lie in order, behind the table if there is one. */
    ghost predicate Apart()
      reads `arches
    {
      && (forall i, j :: 0 <= i < j < |arches| ==>
            arches[i] != arches[j] && arches[i].off + arches[i].length <= arches[j].off)
      && (|arches| > 1 ==> forall i :: 0 <= i < |arches| ==> FatFile.HeaderSize(|arches|) <= arches[i].off)
    }

    ghost predicate Tabled()
      reads `base, `arches, base
    {
      |arches| > 1 ==> HasTable(base[..], |arches|)
    }

    ghost predicate Valid()
      reads `base, `arches, `slices, base, arches
    {
      |arches| == |slices| && Apart() && Tabled() && forall i :: 0 <= i < |arches| ==> Holds(i)
    }

    /** The objects are as a fresh parse left them. */
    ghost predicate Opened()
      reads `base, `arches, `slices, base, arches
    {
      Valid() && forall i :: 0 <= i < |arches| ==> arches[i].enoughSpace
    }

    /** `NewArchO`: a slice that can be parsed becomes one more object. */
    method NewArchO(off: nat, length: u32, ghost s: seq<byte>) returns (taken: bool)
      requires |s| == length && SliceHere(base[..], off, s) && Parses(s)
      modifies this`arches, this`slices
      ensures taken <==> Taken(s)
      ensures !taken ==> arches == old(arches) && slices == old(slices)
      ensures taken ==> |arches| == |old(arches)| + 1 && arches[..|old(arches)|] == old(arches)
      ensures taken ==> slices == old(slices) + [s]
      ensures taken ==> var a := arches[|old(arches)|];
        fresh(a) && a.file == base && a.off == off && a.length == length && a.enoughSpace && Describes(a, s)
    {
      hide U32At, Good, Found, Walks, Commands, CommandList, AllParsable;
      var a := new ZArchO(base, off, length);
      InitApplies(base[..], off, s);
      taken := a.Init();
      if taken {
        arches, slices := arches + [a], slices + [s];
        DescribesParsed(a, s);
      }
    }

    /** The file's bytes in memory. */
    static method Mapped(contents: seq<byte>) returns (memory: array<byte>)
      ensures fresh(memory) && memory[..] == contents
    {
      memory := new byte[|contents|](i requires 0 <= i < |contents| => contents[i]);
    }

    /** `OpenFile` on a file with these bytes. */
    method OpenFile(contents: seq<byte>) returns (ok: bool)
      requires Openable(contents)
      modifies this
      ensures fresh(base) && base[..] == contents && csRealloced == old(csRealloced)
      ensures ok <==>
        SlicesIn(contents) != [] && forall i :: 0 <= i < |SlicesIn(contents)| ==> Taken(SlicesIn(contents)[i])
      ensures ok ==> Opened() && slices == SlicesIn(contents) && forall a :: a in arches ==> fresh(a)
    {
      hide Taken, Parses, Follows, Opened, SlicesIn, Extents, Bounded, U32At, BigU32At, FatFile.SliceAt,
           FatFile.SliceCount, FatFile.IsFat, FatFile.TableInside, Openable;
      arches, slices := [], [];
      base := Mapped(contents);
      ExtentsOf(contents);
      NoneFollow(contents);
      if FatFile.IsFat(contents) {
        for i := 0 to FatFile.SliceCount(contents)
          invariant base[..] == contents && csRealloced == old(csRealloced) && fresh(base)
          invariant Follows(contents, i) && forall a :: a in arches ==> fresh(a)
          invariant forall j :: 0 <= j < i ==> Taken(SlicesIn(contents)[j])
        {
          var e := FatFile.SliceAt(contents, i);
          var taken := OpenNext(contents, i, e.offset, e.size);
          if !taken {
            return false;
          }
        }
      } else {
        var taken := OpenNext(contents, 0, 0, |contents|);
        if !taken {
          return false;
        }
      }
      AllFollow(contents);
      ok := arches != [];
    }

    method OpenNext(contents: seq<byte>, i: nat, off: u32, length: u32) returns (taken: bool)
      requires Openable(contents) && base[..] == contents && i < |Extents(contents)| && Follows(contents, i)
      requires Extents(contents)[i] == FatFile.Slice(off, length) && Parses(SlicesIn(contents)[i])
      modifies this`arches, this`slices
      ensures taken <==> Taken(SlicesIn(contents)[i])
      ensures taken ==> Follows(contents, i + 1)
      ensures taken ==> |arches| == |old(arches)| + 1 && arches == old(arches) + [arches[|old(arches)|]]
      ensures taken ==> fresh(arches[|old(arches)|])
    {
      hide Taken, Parses, Extents, Openable, SlicesIn, SliceHere, Bounded, FollowLists;
      ExtentsOf(contents);
      ExtentHere(contents, i);
      taken := TakeNext(SlicesIn(contents), Extents(contents), i, off, length);
    }

    /** The slices in `all`, at the places in `places`, are taken one by one. */
    method TakeNext(ghost all: seq<seq<byte>>, ghost places: seq<FatFile.Slice>, ghost i: nat, off: u32, length: u32)
      returns (taken: bool)
      requires i < |all| == |places| && FollowLists(all, places, i)
      requires places[i] == FatFile.Slice(off, length) && |all[i]| == length
      requires SliceHere(base[..], off, all[i]) && Parses(all[i])
      modifies this`arches, this`slices
      ensures taken <==> Taken(all[i])
      ensures taken ==> FollowLists(all, places, i + 1)
      ensures taken ==> |arches| == |old(arches)| + 1 && arches == old(arches) + [arches[|old(arches)|]]
      ensures taken ==> fresh(arches[|old(arches)|])
    {
      hide Taken, Parses, Describes, SliceHere;
      taken := NewArchO(off, length, all[i]);
      if taken {
        assert arches == old(arches) + [arches[i]];
        forall j | 0 <= j < i ensures Holds(j) {
          assert old(Holds(j));
        }
        PrefixMore(all, i);
      }
    }

    lemma NoneFollow(contents: seq<byte>)
      requires Openable(contents) && arches == [] && slices == []
      ensures Follows(contents, 0)
    {
    }

    /** With every slice taken the file is open. */
    lemma AllFollow(contents: seq<byte>)
      requires Openable(contents) && base[..] == contents && Follows(contents, |Extents(contents)|)
      ensures Opened() && slices == SlicesIn(contents) && |arches| == |Extents(contents)|
    {
    }

    /** The first `n` slices of the file have been taken. */
    ghost predicate Follows(contents: seq<byte>, n: nat)
      requires Openable(contents) && n <= |Extents(contents)|
      reads `base, `arches, `slices, base, arches
    {
      FollowLists(SlicesIn(contents), Extents(contents), n)
    }

    ghost predicate FollowLists(all: seq<seq<byte>>, places: seq<FatFile.Slice>, n: nat)
      requires n <= |all| == |places|
      reads `base, `arches, `slices, base, arches
    {
      && |arches| == n && slices == all[..n]
      && (forall i :: 0 <= i < n ==>
            && arches[i].off == places[i].offset && arches[i].length == places[i].size
            && arches[i].enoughSpace && Parses(slices[i]) && Taken(slices[i]) && Holds(i))
      && (forall i, j :: 0 <= i < j < n ==> arches[i] != arches[j])
    }

    lemma OpenedIsValid()
      requires Opened()
      ensures Valid() && |arches| == |slices|
      ensures arches != [] ==> base.Length > 0
    {
      hide Apart, Tabled, U32At, Found;
      if arches != [] {
        assert Holds(0);
        HereFits(base[..], arches[0].off, slices[0]);
      }
    }

    /** One turn of the loop in `Sign`. */
    method SignNext(i: nat, w: Settings) returns (ok: bool)
      requires Valid() && i < |arches| && Able(slices[i], w)
      modifies this`slices, base, arches[i]
      ensures Valid() && slices == old(slices)[i := Outcome(old(slices[i]), w)]
      ensures ok <==> HasRoom(old(slices[i]), w)
      ensures arches[i].enoughSpace == (old(arches[i].enoughSpace) && ok)
      ensures old(Opened()) && ok ==> Opened()
    {
      hide HasRoom, Outcome, Able, Describes, Splice, HasTable, SliceHere;
      ghost var b, s := base[..], slices[i];
      assert Holds(i);
      HereFits(b, arches[i].off, s);
      ok := SignArch(arches[i], s, w);
      ghost var x := Outcome(s, w);
      slices := slices[i := x];
      if |arches| > 1 {
        TableBehind(b, base[..], |arches|, arches[i].off, x);
      }
      HereNow(b, arches[i].off, x);
      if ok {
        OutcomeDescribed(arches[i], s, w);
      } else {
        NotSigned(s, w);
      }
      assert Holds(i);
      forall j | 0 <= j < |arches| && j != i ensures Holds(j) {
        assert old(Holds(j));
        HereFits(b, arches[j].off, slices[j]);
        OthersHere(b, arches[i].off, x, arches[j].off, slices[j]);
      }
    }

    // ------------------------------------------------------------ reallocating

    /** The slices from `i` on are still as they were mapped. */
    ghost predicate HoldsFrom(i: nat)
      requires i <= |arches| == |slices|
      reads `base, `arches, `slices, base, arches
    {
      forall j :: i <= j < |arches| ==> Holds(j)
    }

    /** One turn of the first loop in `ReallocCodeSignSpace`. */
    method ReallocNext(i: nat) returns (newLength: u32, newFile: seq<byte>)
      requires |arches| == |slices| && i < |arches| && Apart() && Tabled() && HoldsFrom(i)
      requires Good(slices[i]) && Roomy(slices[i])
      modifies base
      ensures newLength > 0 <==> CanGrow(slices[i])
      ensures CanGrow(slices[i]) ==> newFile == GrownSlice(slices[i])
      ensures Tabled() && HoldsFrom(i + 1)
    {
      hide Describes, HasTable, SliceHere, GrownSlice, Good, Roomy, Growable;
      ghost var b, a := base[..], arches[i];
      assert Holds(i);
      HereFits(b, a.off, slices[i]);
      newLength, newFile := ReallocArch(arches[i], slices[i]);
      if |arches| > 1 {
        TableInFront(b, base[..], |arches|, a.off);
      }
      forall j | i + 1 <= j < |arches| ensures Holds(j) {
        assert old(Holds(j));
        HereBehind(b, base[..], a.off + a.length, arches[j].off, slices[j]);
      }
    }

    /** `ReallocCodeSignSpace`: the slices are grown one by one; a single one becomes the whole file,
        several are put together anew; and the result is opened. */
    method ReallocCodeSignSpace() returns (ok: bool)
      requires Valid() && slices != [] && AllGood(slices) && LayoutInRange(slices)
      modifies this, base
      ensures csRealloced == old(csRealloced)
      ensures ok <==> AllGrowable(old(slices))
      ensures ok ==> Opened() && slices == GrownAll(old(slices)) && fresh(base) && forall a :: a in arches ==> fresh(a)
    {
      hide Holds, Roomy, Good, Growable, Taken, Openable, SlicesIn, HasTable, GrownSlice, FatFile.Rewritten,
           FatFile.OffsetAt, Opened;
      ghost var old' := slices;
      var newFiles := [];
      for i := 0 to |arches|
        invariant arches == old(arches) && slices == old(slices) && base == old(base) && csRealloced == old(csRealloced)
        invariant Apart() && Tabled() && HoldsFrom(i)
        invariant |newFiles| == i && forall j :: 0 <= j < i ==>
          CanGrow(slices[j]) && newFiles[j] == GrownSlice(slices[j])
      {
        var newLength, newFile := ReallocNext(i);
        if newLength <= 0 {
          return false;
        }
        newFiles := newFiles + [newFile];
      }
      assert newFiles == GrownAll(old');
      forall i | 0 <= i < |newFiles| ensures Good(newFiles[i]) && Parses(newFiles[i]) && Taken(newFiles[i]) {
        GrownTaken(old'[i]);
      }
      if |arches| == 1 {
        ThinOpens(old'[0]);
        ok := OpenFile(newFiles[0]);
        assert newFiles == [newFiles[0]];
      } else {
        GrownLayout(old', newFiles);
        HasTableMeans(base[..], |arches|);
        var wrote, contents := FatFile.RewriteFat(base[..], newFiles);
        if !wrote {
          return false;
        }
        FatOpens(base[..], newFiles);
        ok := OpenFile(contents);
      }
    }

    // ------------------------------------------------------------ signing

    /** The loop of `Sign`: slices are signed in turn up to the first that has no room. */
    method SignPass(w: Settings) returns (all: bool, n: nat)
      requires Opened() && AllAble(slices, w)
      modifies this`slices, base, arches
      ensures Valid() && n <= |slices| == |old(slices)| && slices == SignedUpTo(old(slices), w, n)
      ensures forall j :: 0 <= j < n ==> HasRoom(old(slices)[j], w)
      ensures all <==> n == |slices|
      ensures !all ==> !HasRoom(old(slices)[n], w) && !arches[n].enoughSpace
    {
      hide HasRoom, Able, AllAble, Outcome, Holds, SignedUpTo, Opened, Valid, Apart, Tabled, Describes;
      OpenedIsValid();
      ghost var s0 := slices;
      SignedNone(s0, w);
      for i := 0 to |arches|
        invariant Opened() && slices == SignedUpTo(s0, w, i)
        invariant forall j :: 0 <= j < i ==> HasRoom(s0[j], w)
      {
        OpenedIsValid();
        SignedOneMore(s0, w, i);
        var signed := SignNext(i, w);
        if !signed {
          NotSigned(s0[i], w);
          return false, i;
        }
      }
      OpenedIsValid();
      return true, |arches|;
    }

    /** `Sign`, the names and hashes being resolved. A first misfit leads to one reallocation and a
        second pass; the flag is never cleared, so there is no third. */
    method Sign(w: Settings) returns (ok: bool)
      requires Opened() && AllReady(slices, w) && LayoutInRange(slices)
      modifies this, base, arches
      ensures ok <==> FinalSlices(old(slices), w, old(csRealloced)).Some?
      ensures ok ==> Valid() && slices == FinalSlices(old(slices), w, old(csRealloced)).value
      ensures old(csRealloced) ==> csRealloced
      decreases if csRealloced then 0 else 1
    {
      hide HasRoom, AllReady, AllAble, LayoutInRange, FinalSlices, SignedUpTo, GrownAll, AllGrowable, Opened, Valid,
        AllGood;
      OpenedIsValid();
      ghost var s0 := slices;
      if |arches| == 0 {
        NoSlices(w, csRealloced);
        return false;
      }
      AllReadyAble(s0, w);
      var all, n := SignPass(w);
      if all {
        AllSigned(s0, w, csRealloced);
        return base.Length > 0;
      }
      MisfitHere(s0, w, n);
      if !arches[n].enoughSpace && !csRealloced {
        csRealloced := true;
        RetryReady(s0, w, n);
        var again := ReallocCodeSignSpace();
        if again {
          RetryGrown(s0, w, n);
          assert forall i :: 0 <= i < |arches| ==> arches[i] in arches && fresh(arches[i]);
          ok := Sign(w);
          return;
        }
      }
      return false;
    }
  }

  lemma NoSlices(w: Settings, realloced: bool)
    ensures AllReady([], w) && FinalSlices([], w, realloced) == None
  {
  }

  lemma SignedNone(slices: seq<seq<byte>>, w: Settings)
    ensures SignedUpTo(slices, w, 0) == slices
  {
  }

  lemma SignedOneMore(slices: seq<seq<byte>>, w: Settings, i: nat)
    requires AllAble(slices, w) && i < |slices|
    ensures SignedUpTo(slices, w, i)[i] == slices[i] && Able(slices[i], w)
    ensures SignedUpTo(slices, w, i)[i := Outcome(slices[i], w)] == SignedUpTo(slices, w, i + 1)
    ensures SignedUpTo(slices, w, i)[i := slices[i]] == SignedUpTo(slices, w, i)
  {
  }

  lemma AllSigned(slices: seq<seq<byte>>, w: Settings, realloced: bool)
    requires AllReady(slices, w) && slices != [] && forall j :: 0 <= j < |slices| ==> HasRoom(slices[j], w)
    ensures FinalSlices(slices, w, realloced) == Some(SignedUpTo(slices, w, |slices|))
  {
    hide HasRoom, SignedUpTo, AllReady, GrownAll, AllGrowable;
    MisfitMeaning(slices, w, 0);
  }

  lemma MisfitIs(slices: seq<seq<byte>>, w: Settings, i: nat)
    requires i < |slices| && !HasRoom(slices[i], w) && forall j :: 0 <= j < i ==> HasRoom(slices[j], w)
    ensures Misfit(slices, w, 0) == i
  {
    hide HasRoom;
    MisfitMeaning(slices, w, 0);
  }

  /** At the first misfit the outcome hangs on growing what the pass has left so far. */
  lemma MisfitHere(slices: seq<seq<byte>>, w: Settings, i: nat)
    requires AllReady(slices, w) && i < |slices| && !HasRoom(slices[i], w)
    requires forall j :: 0 <= j < i ==> HasRoom(slices[j], w)
    ensures FinalSlices(slices, w, true) == None
    ensures !AllGrowable(SignedUpTo(slices, w, i)) ==> FinalSlices(slices, w, false) == None
    ensures AllGrowable(SignedUpTo(slices, w, i)) ==>
      && AllReady(GrownAll(SignedUpTo(slices, w, i)), w)
      && FinalSlices(slices, w, false) == FinalSlices(GrownAll(SignedUpTo(slices, w, i)), w, true)
  {
    hide HasRoom, SignedUpTo, AllReady, GrownAll, AllGrowable, Misfit, AllHaveRoom;
    MisfitIs(slices, w, i);
    SignedUpToReady(slices, w, i);
    if AllGrowable(SignedUpTo(slices, w, i)) {
      GrownAllReady(SignedUpTo(slices, w, i), w);
    }
  }

  /** The second pass: it signs all grown slices, or lacks room again and fails for good; which of the
      two can be told from what the signatures need. */
  lemma SecondPass(slices: seq<seq<byte>>, w: Settings)
    requires AllReady(slices, w) && AllGrowable(slices) && slices != []
    ensures AllReady(GrownAll(slices), w)
    ensures FinalSlices(GrownAll(slices), w, true)
         == if AllFitGrown(slices, w) then Some(SignedUpTo(GrownAll(slices), w, |slices|)) else None
  {
    hide HasRoom, SignedUpTo, AllReady, FinalSlices, CanGrow, FitsGrown, GrownSlice;
    GrownAllReady(slices, w);
    var grown := GrownAll(slices);
    forall i | 0 <= i < |slices| ensures HasRoom(grown[i], w) <==> FitsGrown(slices[i], w) {
      OneReady(slices, w, i);
      GrownHasRoom(slices[i], w);
    }
    if AllFitGrown(slices, w) {
      AllSigned(grown, w, true);
    } else {
      var i := FirstMisfit(grown, w);
      MisfitHere(grown, w, i);
    }
  }

  lemma OneReady(slices: seq<seq<byte>>, w: Settings, i: nat)
    requires AllReady(slices, w) && i < |slices|
    ensures Ready(slices[i], w)
  {
  }

  lemma FirstMisfit(slices: seq<seq<byte>>, w: Settings) returns (i: nat)
    requires exists j :: 0 <= j < |slices| && !HasRoom(slices[j], w)
    ensures i < |slices| && !HasRoom(slices[i], w) && forall j :: 0 <= j < i ==> HasRoom(slices[j], w)
  {
    hide HasRoom;
    MisfitMeaning(slices, w, 0);
    i := Misfit(slices, w, 0);
  }

  lemma RetryReady(slices: seq<seq<byte>>, w: Settings, i: nat)
    requires AllReady(slices, w) && i < |slices| && LayoutInRange(slices)
    requires forall j :: 0 <= j < i ==> HasRoom(slices[j], w)
    ensures AllGood(SignedUpTo(slices, w, i)) && LayoutInRange(SignedUpTo(slices, w, i))
  {
    hide HasRoom, SignedUpTo, AllReady, LayoutInRange, AllGood;
    SignedUpToReady(slices, w, i);
    ReadyGood(SignedUpTo(slices, w, i), w);
    SameLayout(slices, SignedUpTo(slices, w, i));
  }

  lemma RetryGrown(slices: seq<seq<byte>>, w: Settings, i: nat)
    requires i < |slices| && AllGrowable(SignedUpTo(slices, w, i)) && LayoutInRange(SignedUpTo(slices, w, i))
    ensures LayoutInRange(GrownAll(SignedUpTo(slices, w, i)))
  {
    hide SignedUpTo, LayoutInRange, AllGrowable, GrownAll;
    GrownSameLayout(SignedUpTo(slices, w, i));
  }

  lemma PrefixMore(all: seq<seq<byte>>, i: nat)
    requires i < |all|
    ensures all[..i + 1] == all[..i] + [all[i]]
  {
  }

  lemma HasTableMeans(b: seq<byte>, n: nat)
    requires HasTable(b, n)
    ensures FatFile.IsFat(b) && FatFile.TableInside(b) && FatFile.SliceCount(b) == n
  {
  }

  lemma TableInFront(b: seq<byte>, c: seq<byte>, n: nat, off: nat)
    requires HasTable(b, n) && |c| == |b| && FatFile.HeaderSize(n) <= off <= |b| && c[..off] == b[..off]
    ensures HasTable(c, n)
  {
  }

  lemma HereBehind(b: seq<byte>, c: seq<byte>, end: nat, off: nat, s: seq<byte>)
    requires SliceHere(b, off, s) && end <= off && |c| == |b| && end <= |b| && c[end..] == b[end..]
    ensures SliceHere(c, off, s)
  {
  }

  lemma ReadyGood(slices: seq<seq<byte>>, w: Settings)
    requires AllReady(slices, w)
    ensures AllGood(slices)
  {
  }

  lemma SameLayout(slices: seq<seq<byte>>, others: seq<seq<byte>>)
    requires |slices| == |others| && forall i :: 0 <= i < |slices| ==> CodeLenOf(slices[i]) == CodeLenOf(others[i])
    ensures LayoutInRange(slices) <==> LayoutInRange(others)
  {
    hide NewLength, CodeLenOf, FatFile.OffsetAt;
    SameOffsets(Sizes(slices), Sizes(others), |slices|);
  }

  lemma GrownSameLayout(slices: seq<seq<byte>>)
    requires AllGrowable(slices)
    ensures LayoutInRange(GrownAll(slices)) <==> LayoutInRange(slices)
  {
    hide Good, Roomy, Growable, GrownSlice, LayoutInRange, CodeLenOf;
    forall i | 0 <= i < |slices| ensures CodeLenOf(slices[i]) == CodeLenOf(GrownAll(slices)[i]) {
      GrownCodeLen(slices[i]);
    }
    SameLayout(slices, GrownAll(slices));
  }

  lemma GrownCodeLen(s: seq<byte>)
    requires CanGrow(s)
    ensures CodeLenOf(GrownSlice(s)) == CodeLenOf(s)
  {
    hide U32At, GrownSlice, Sliced, Growable, Roomy;
    GrownGood(s);
  }

  /** `Init` may run on a slice that can be parsed. */
  lemma InitApplies(b: seq<byte>, off: nat, s: seq<byte>)
    requires SliceHere(b, off, s) && Parses(s)
    ensures |s| > 0 ==> HEADER_SIZE <= |s| && U32At(b, off) == U32At(s, 0)
    ensures Good(s) ==>
      && WellFormed(b, off) && AreaEnd(b, off) <= off + |s| && CommandList(b, off) == Cmds(s) && AllParsable(Cmds(s))
      && SizeOfCmds(b, off) == SizeOfCmds(s, 0) && U32At(b, off + 12) == U32At(s, 12)
  {
    hide U32At, Walks, Commands, CommandList;
    assert s[0..|s|] == s;
    if |s| > 0 {
      SameField(s, 0, |s|, b, off, 0);
    }
    if Good(s) {
      Relocated(s, 0, |s|, b, off);
    }
  }

  lemma DescribesParsed(a: ZArchO, s: seq<byte>)
    requires |s| == a.length && SliceHere(a.file[..], a.off, s) && Good(s)
    requires a.Parsed() && a.fileType == U32At(a.file[..], a.off + 12)
    ensures Describes(a, s)
  {
    hide U32At, Found, Walks, Commands, AllParsable;
    assert s[0..|s|] == s;
    Relocated(s, 0, |s|, a.file[..], a.off);
  }

  /** What the loops of `OpenFile` run over. */
  lemma ExtentsOf(b: seq<byte>)
    requires Openable(b)
    ensures Bounded(b)
    ensures FatFile.IsFat(b) ==> FatFile.TableInside(b) && |Extents(b)| == FatFile.SliceCount(b)
    ensures FatFile.IsFat(b) ==> forall i :: 0 <= i < FatFile.SliceCount(b) ==> Extents(b)[i] == FatFile.SliceAt(b, i)
    ensures !FatFile.IsFat(b) ==> Extents(b) == [FatFile.Slice(0, |b|)]
    ensures forall i :: 0 <= i < |SlicesIn(b)| ==> Parses(SlicesIn(b)[i])
  {
  }

  lemma ExtentHere(b: seq<byte>, i: nat)
    requires Bounded(b) && i < |Extents(b)|
    ensures |SlicesIn(b)[i]| == Extents(b)[i].size && SliceHere(b, Extents(b)[i].offset, SlicesIn(b)[i])
  {
  }

  lemma HereFits(b: seq<byte>, off: nat, s: seq<byte>)
    requires SliceHere(b, off, s)
    ensures off + |s| <= |b|
  {
  }

  lemma HereNow(b: seq<byte>, off: nat, x: seq<byte>)
    requires off + |x| <= |b|
    ensures SliceHere(Splice(b, off, x), off, x)
  {
  }

  lemma NotSigned(s: seq<byte>, w: Settings)
    requires !HasRoom(s, w)
    ensures Outcome(s, w) == s
  {
  }

  lemma TableBehind(b: seq<byte>, c: seq<byte>, n: nat, off: nat, x: seq<byte>)
    requires HasTable(b, n) && off + |x| <= |b| && c == Splice(b, off, x) && FatFile.HeaderSize(n) <= off
    ensures HasTable(c, n)
  {
  }
}
