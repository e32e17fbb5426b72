/** Code slots taken over from an earlier signature after a reallocation: the code they were made for is no
    longer the code that is signed. */
module StaleHashes {
  import opened Bytes
  import opened LoadCommands
  import opened CommandEdits
  import opened SliceFacts
  import opened RequirementSet
  import opened SuperBlob
  import opened Signing
  import opened SignSpace
  import opened SignAgain
  import opened SliceSigning
  import opened MachO
  import CodeDirectory

  // ---------------------------------------------------------------- growing changes the code

  /** A stretched segment never has the memory size it had. */
  lemma VmSizeChanges(c: Command, length: u32, newLength: u32)
    requires SEGMENT_SIZE <= |c| && length < newLength < 0x8000_0000
    ensures StretchedVmSize(c, length, newLength) != VmSize(c)
  {
    hide U64At;
    var grown := (VmSize(c) % TWO32 + (newLength - length)) % TWO32;
    WrapsElsewhere(VmSize(c), newLength - length);
  }

  lemma WrapsElsewhere(vm: nat, more: nat)
    requires 0 < more < 0x8000_0000
    ensures ByteAlign((vm % TWO32 + more) % TWO32, 4096) != vm
  {
    var low := vm % TWO32;
    var sum := (low + more) % TWO32;
    assert sum == if low + more < TWO32 then low + more else low + more - TWO32;
    var pad := 4096 - sum % 4096;
    assert (sum + pad) % TWO32 == if sum + pad < TWO32 then sum + pad else sum + pad - TWO32;
  }

  /** Growing changes the header or the commands of every slice, signed before or not. */
  lemma GrowthChangesHead(s: seq<byte>)
    requires CanGrow(s)
    ensures HeadEnd(s) <= |s| <= |GrownSlice(s)|
    ensures GrownSlice(s)[..HeadEnd(s)] != s[..HeadEnd(s)]
  {
    hide U32At, U64At, Flatten, Last, Grown, FreeSpace, NewLength, LengthInRange, Walks, Commands, CommandList,
         DataOff, DataSize, Stretched, Sized, GrownSlice, Parsable, StretchedVmSize, CodeSignatureCommand;
    var r, cs, k := GrownSlice(s), Cmds(s), Last(Cmds(s), IsLinkEdit).value;
    GrownGood(s);
    LongTail(s);
    NewLengthRoom(CodeLen(s));
    SignatureEnd(cs, CodeLen(s), |s|, NewLength(CodeLen(s)));
    PickedShapes(cs);
    StretchedReads(cs[k], |s|, NewLength(CodeLen(s)));
    VmSizeChanges(cs[k], |s|, NewLength(CodeLen(s)));
    assert GrownList(s)[k] != cs[k];
    if r[..HeadEnd(s)] == s[..HeadEnd(s)] {
      assert r[0..HeadEnd(s)] == s[0..HeadEnd(s)];
      Relocated(s, 0, HeadEnd(s), r, 0);
      assert false;
    }
  }

  lemma GrowthChangesCode(s: seq<byte>)
    requires CanGrow(s) && HasSignature(s)
    ensures Announced(GrownSlice(s)) && |Code(GrownSlice(s))| == |Code(s)| && Code(GrownSlice(s)) != Code(s)
  {
    hide Sliced, Roomy, Growable, GrownSlice, NewLength;
    GrownGood(s);
    LongTail(s);
    GrowthChangesHead(s);
    var n := HeadEnd(s);
    assert Code(GrownSlice(s))[..n] == GrownSlice(s)[..n] && Code(s)[..n] == s[..n];
  }

  // ---------------------------------------------------------------- page hashes tell codes apart

  /** The hash tells the pages of `a` and `b` apart wherever they differ. */
  ghost predicate Separates(hash: CodeDirectory.Hash, a: seq<byte>, b: seq<byte>)
    requires |a| == |b|
  {
    forall k :: 0 <= k < CodeDirectory.PageCount(a) ==> PageTold(hash, a, b, k)
  }

  predicate PageTold(hash: CodeDirectory.Hash, a: seq<byte>, b: seq<byte>, k: nat)
    requires |a| == |b|
  {
    CodeDirectory.PAGE_SIZE * k < |a| && hash(CodeDirectory.Page(a, k)) == hash(CodeDirectory.Page(b, k)) ==>
      CodeDirectory.Page(a, k) == CodeDirectory.Page(b, k)
  }

  function HashesOf(hash: CodeDirectory.Hash, code: seq<byte>): seq<byte> {
    Flatten(CodeDirectory.PageHashes(hash, code))
  }

  lemma {:induction false} SamePages(a: seq<byte>, b: seq<byte>, i: nat)
    requires |a| == |b|
    requires forall k :: i <= k < CodeDirectory.PageCount(a) ==>
      CodeDirectory.PAGE_SIZE * k < |a| && CodeDirectory.Page(a, k) == CodeDirectory.Page(b, k)
    ensures CodeDirectory.PagesFrom(a, i) == CodeDirectory.PagesFrom(b, i)
    decreases |a| - CodeDirectory.PAGE_SIZE * i
  {
    hide CodeDirectory.Page;
    if CodeDirectory.PAGE_SIZE * i < |a| {
      SamePages(a, b, i + 1);
    }
  }

  /** Codes of one length have the same page hashes exactly when they are the same. */
  lemma HashesTell(hash: CodeDirectory.Hash, size: nat, a: seq<byte>, b: seq<byte>)
    requires CodeDirectory.Outputs(hash, size) && |a| == |b| && Separates(hash, a, b)
    ensures HashesOf(hash, a) == HashesOf(hash, b) <==> a == b
  {
    hide CodeDirectory.Page, CodeDirectory.PageHashes, Flatten;
    if HashesOf(hash, a) == HashesOf(hash, b) {
      CodeDirectory.PagesPartition(a);
      CodeDirectory.PagesPartition(b);
      forall k | 0 <= k < CodeDirectory.PageCount(a)
        ensures CodeDirectory.PAGE_SIZE * k < |a| && CodeDirectory.Page(a, k) == CodeDirectory.Page(b, k)
      {
        CodeDirectory.PageHashSlot(hash, size, a, k);
        CodeDirectory.PageHashSlot(hash, size, b, k);
        assert PageTold(hash, a, b, k);
      }
      SamePages(a, b, 0);
    }
  }

  // ---------------------------------------------------------------- when offered code slots are right

  /** Code slots of the length the directory needs are the page hashes. */
  predicate Right(hash: CodeDirectory.Hash, size: nat, offered: Option<seq<byte>>, code: seq<byte>) {
    TakenOver(size, offered, code) ==> offered.value == HashesOf(hash, code)
  }

  /** Code slots the builder puts into a directory without hashing: those of the right length. */
  predicate TakenOver(size: nat, offered: Option<seq<byte>>, code: seq<byte>) {
    offered.Some? && |offered.value| == size * CodeDirectory.PageCount(code)
  }

  predicate AllRight(i: Input, f: Foreign, existing1: Option<seq<byte>>, existing256: Option<seq<byte>>) {
    || Unsigned(i)
    || (Right(f.sha256, 32, existing256, i.code) && (i.asset.sha256Only || Right(f.sha1, 20, existing1, i.code)))
  }

  lemma DirectoryRight(i: Input, f: Foreign, alternate: bool, offered: Option<seq<byte>>)
    requires Fitting(i, f) && f.Sound() && !Unsigned(i)
    ensures Directory(i, f, alternate, offered) == Directory(i, f, alternate, None) <==>
              Right(if alternate then f.sha256 else f.sha1, if alternate then 32 else 20, offered, i.code)
  {
    hide Flatten, CodeDirectory.PageHashes, CodeDirectory.Blob, CodeDirectory.Request.Sound, Fitting, Requirements,
         Entitlements, DerEntitlements, CodeDirectory.Request.Refused, CodeDirectory.PageCount;
    RequestSound(i, f, alternate, offered);
    RequestSound(i, f, alternate, None);
    var r := RequestFor(i, f, alternate, offered);
    assert r.(existing := None) == RequestFor(i, f, alternate, None);
    if offered.Some? {
      CodeDirectory.ReuseIsRehash(r, if alternate then f.sha256 else f.sha1);
    }
  }

  /** A signature made with code slots offered is the one that hashing anew gives exactly when every run
      of slots of a usable length is the page hashes of the code. */
  lemma SlotsRight(i: Input, f: Foreign, existing1: Option<seq<byte>>, existing256: Option<seq<byte>>)
    requires Fitting(i, f) && f.Sound()
    ensures SlotsFor(i, f, existing1, existing256) == SlotsFor(i, f, None, None) <==>
      AllRight(i, f, existing1, existing256)
  {
    hide Directory, Fitting, Requirements, Entitlements, DerEntitlements, Right, Unsigned;
    if Unsigned(i) {
      DirectoryLong(i, f, true, existing256);
      DirectoryLong(i, f, false, existing1);
      DirectoryLong(i, f, true, None);
      DirectoryLong(i, f, false, None);
    } else {
      DirectoryRight(i, f, true, existing256);
      DirectoryRight(i, f, false, existing1);
      DirectoriesDecide(i, f, existing1, existing256);
    }
  }

  lemma DirectoriesDecide(i: Input, f: Foreign, existing1: Option<seq<byte>>, existing256: Option<seq<byte>>)
    requires Fitting(i, f) && f.Sound()
    ensures SlotsFor(i, f, existing1, existing256) == SlotsFor(i, f, None, None) <==>
      && Directory(i, f, true, existing256) == Directory(i, f, true, None)
      && (i.asset.sha256Only || Directory(i, f, false, existing1) == Directory(i, f, false, None))
  {
    hide Directory, Fitting, Requirements, Entitlements, DerEntitlements;
  }

  // ---------------------------------------------------------------- a signature that is current

  function StoredSlots(s: seq<byte>, kind: u32): Option<seq<byte>>
    requires Announced(s) && RegionsInside(Some(Tail(s)))
      && kind in {CSSLOT_CODEDIRECTORY, CSSLOT_ALTERNATE_CODEDIRECTORIES}
  {
    Existing(false, Some(Tail(s)), kind)
  }

  /** The code slots a reader finds in the slice, if any, are the page hashes of the slice's own code. */
  predicate Current(s: seq<byte>, f: Foreign) {
    && Announced(s) && RegionsInside(Some(Tail(s)))
    && var slots1, slots256 := StoredSlots(s, CSSLOT_CODEDIRECTORY), StoredSlots(s, CSSLOT_ALTERNATE_CODEDIRECTORIES);
       && (slots1.Some? ==> slots1.value in {HashesOf(f.sha1, Code(s)), HashesOf(f.sha256, Code(s))})
       && (slots256.Some? ==> slots256.value == HashesOf(f.sha256, Code(s)))
  }

  lemma SlotBytesRight(i: Input, f: Foreign, alternate: bool, offered: Option<seq<byte>>)
    requires Fitting(i, f) && f.Sound()
    ensures var hash, size := if alternate then f.sha256 else f.sha1, if alternate then 32 else 20;
            var bytes := CodeDirectory.CodeSlotBytes(RequestFor(i, f, alternate, offered), hash);
            && (bytes == HashesOf(hash, i.code) <==> Right(hash, size, offered, i.code))
            && |bytes| == size * CodeDirectory.PageCount(i.code)
  {
    hide Flatten, CodeDirectory.PageHashes, Fitting, CodeDirectory.PageCount, Requirements, Entitlements,
         DerEntitlements;
    RequestSound(i, f, alternate, offered);
    HashesSize(if alternate then f.sha256 else f.sha1, if alternate then 32 else 20, i.code);
  }

  lemma LengthsDiffer(f: Foreign, code: seq<byte>)
    requires f.Sound() && code != []
    ensures |HashesOf(f.sha1, code)| == 20 * CodeDirectory.PageCount(code) != 32 * CodeDirectory.PageCount(code)
    ensures |HashesOf(f.sha256, code)| == 32 * CodeDirectory.PageCount(code)
  {
    HashesSize(f.sha1, 20, code);
    HashesSize(f.sha256, 32, code);
    SomePages(code);
  }

  /** What the builder wrote for a slice is current exactly when everything it took over was right. */
  lemma WrittenCurrent(s: seq<byte>, i: Input, f: Foreign, existing1: Option<seq<byte>>, existing256: Option<seq<byte>>)
    requires Announced(s) && i.code == Code(s)
    requires Fitting(i, f) && f.Sound() && SlotsFor(i, f, existing1, existing256).Sound()
    requires SignatureWith(i, f, existing1, existing256) <= Tail(s)
    ensures RegionsInside(Some(Tail(s)))
    ensures Current(s, f) <==> AllRight(i, f, existing1, existing256)
    ensures StoredSlots(s, CSSLOT_ALTERNATE_CODEDIRECTORIES).Some? <==> !Unsigned(i) && !i.asset.sha256Only
    ensures var slots := StoredSlots(s, CSSLOT_ALTERNATE_CODEDIRECTORIES);
            slots.Some? ==> |slots.value| == 32 * CodeDirectory.PageCount(i.code)
    ensures TakenOver(20, StoredSlots(s, CSSLOT_CODEDIRECTORY), i.code) ==>
      StoredSlots(s, CSSLOT_ALTERNATE_CODEDIRECTORIES).Some?
  {
    hide U32At, Fitting, Slots.Sound, SlotsFor, RegionsInside, Existing, SignatureWith, Tail, RequestFor, Good,
         CodeDirectory.CodeSlotBytes, HashesOf, Right, Unsigned, CodeDirectory.PageCount;
    WrittenSlotsFound(i, f, existing1, existing256, Tail(s));
    SlotBytesRight(i, f, true, existing256);
    SlotBytesRight(i, f, false, existing1);
    CodeNotEmpty(s);
    LengthsDiffer(f, i.code);
  }

  lemma CodeNotEmpty(s: seq<byte>)
    requires Announced(s)
    ensures Code(s) != []
  {
  }

  // ---------------------------------------------------------------- signing a grown slice

  /** No directory is built for want of a name: no identifier, or no team for a real signature. */
  predicate Nameless(w: Settings) {
    w.bundleId == [] || (w.asset.teamId == [] && !w.asset.adhoc)
  }

  lemma UnsignedWhen(s: seq<byte>, w: Settings)
    requires Announced(s)
    ensures Unsigned(InputOf(s, w)) <==> Nameless(w)
  {
    hide Sliced, ExecLimit;
    CodeNotEmpty(s);
  }

  /** Signing without force would take over code slots the slice stores. */
  predicate Reuses(s: seq<byte>, w: Settings) {
    && Good(s) && HasSignature(s) && RegionsInside(Some(Tail(s)))
    && (|| TakenOver(32, StoredSlots(s, CSSLOT_ALTERNATE_CODEDIRECTORIES), Code(s))
        || (!w.asset.sha256Only && TakenOver(20, StoredSlots(s, CSSLOT_CODEDIRECTORY), Code(s))))
  }

  /** The hashes tell the pages that growing the slice changes from what they were. */
  ghost predicate Telling(s: seq<byte>, f: Foreign) {
    && CanGrow(s) && HasSignature(s)
    && Announced(GrownSlice(s)) && |Code(GrownSlice(s))| == |Code(s)|
    && Separates(f.sha1, Code(s), Code(GrownSlice(s)))
    && Separates(f.sha256, Code(s), Code(GrownSlice(s)))
  }

  lemma OfferedAfterGrowth(s: seq<byte>, w: Settings)
    requires Ready(s, w) && CanGrow(s) && HasSignature(s) && RegionsInside(Some(Tail(s)))
    ensures var g := GrownSlice(s);
            && Announced(g) && TailReadable(g, w)
            && Offered(g, w, CSSLOT_CODEDIRECTORY) == (if w.force then None else StoredSlots(s, CSSLOT_CODEDIRECTORY))
            && Offered(g, w, CSSLOT_ALTERNATE_CODEDIRECTORIES)
                 == (if w.force then None else StoredSlots(s, CSSLOT_ALTERNATE_CODEDIRECTORIES))
  {
    hide U32At, Sliced, Roomy, Growable, GrownSlice, RegionsInside, Existing, Buildable, Tail;
    var g := GrownSlice(s);
    GrownTail(s);
    GrownTailReadable(s, w);
    LongerReadable(Tail(s), Tail(g));
    NothingOffered(Tail(s), Tail(g));
  }

  /** What was right for the code as it was is wrong once the code has changed. */
  lemma RightNoMore(hash: CodeDirectory.Hash, size: nat, offered: Option<seq<byte>>, a: seq<byte>, b: seq<byte>)
    requires CodeDirectory.Outputs(hash, size) && |a| == |b| && a != b && Separates(hash, a, b)
    requires Right(hash, size, offered, a)
    ensures Right(hash, size, offered, b) <==> !TakenOver(size, offered, a)
  {
    hide HashesOf, Separates;
    HashesTell(hash, size, a, b);
  }

  /** Stored slots that are current are right for either hash: those of the other hash have another length. */
  lemma CurrentIsRight(s: seq<byte>, f: Foreign)
    requires Current(s, f) && f.Sound()
    ensures Right(f.sha1, 20, StoredSlots(s, CSSLOT_CODEDIRECTORY), Code(s))
    ensures Right(f.sha256, 32, StoredSlots(s, CSSLOT_ALTERNATE_CODEDIRECTORIES), Code(s))
  {
    hide RegionsInside, Existing, Tail, Good, HashesOf, CodeDirectory.PageCount;
    CodeNotEmpty(s);
    LengthsDiffer(f, Code(s));
  }

  /** What signing the slice takes over is right for its code. */
  predicate OfferedRight(s: seq<byte>, w: Settings)
    requires Announced(s) && TailReadable(s, w)
  {
    AllRight(InputOf(s, w), w.f, Offered(s, w, CSSLOT_CODEDIRECTORY), Offered(s, w, CSSLOT_ALTERNATE_CODEDIRECTORIES))
  }

  /** A grown slice whose stored code slots were current: the signature written is the one hashing anew
      gives exactly when it was forced, has no directories, or had nothing to take over. */
  lemma GrownSlotsRight(s: seq<byte>, w: Settings)
    requires Ready(s, w) && Current(s, w.f) && Telling(s, w.f) && w.f.Sound()
    ensures var g := GrownSlice(s);
            && Announced(g) && Signable(g, w)
            && (OfferedRight(g, w) <==> w.force || Nameless(w) || !Reuses(s, w))
  {
    hide U32At, Sliced, Roomy, Growable, GrownSlice, RegionsInside, Existing, Buildable, Tail, HashesOf, Separates,
         Right, TakenOver, Unsigned, Nameless, SlotsFor, Fitting, CodeDirectory.PageCount;
    var g := GrownSlice(s);
    OfferedAfterGrowth(s, w);
    GrowthChangesCode(s);
    GrownGood(s);
    BuildableSignable(g, w);
    UnsignedWhen(g, w);
    CurrentIsRight(s, w.f);
    RightNoMore(w.f.sha1, 20, StoredSlots(s, CSSLOT_CODEDIRECTORY), Code(s), Code(g));
    RightNoMore(w.f.sha256, 32, StoredSlots(s, CSSLOT_ALTERNATE_CODEDIRECTORIES), Code(s), Code(g));
    NothingIsRight(w.f, Code(g));
  }

  lemma NothingIsRight(f: Foreign, code: seq<byte>)
    ensures Right(f.sha1, 20, None, code) && Right(f.sha256, 32, None, code)
  {
  }

  /** A slice without a signature offers nothing once it has grown. */
  lemma NothingStored(s: seq<byte>, w: Settings)
    requires Ready(s, w) && CanGrow(s) && !HasSignature(s)
    ensures Announced(GrownSlice(s)) && Signable(GrownSlice(s), w) && OfferedRight(GrownSlice(s), w)
  {
    hide U32At, Sliced, Roomy, Growable, GrownSlice, Existing, Buildable, Tail, HashesOf, Right, Unsigned, SlotsFor,
         Fitting, RegionsInside;
    var g := GrownSlice(s);
    GrownTail(s);
    GrownGood(s);
    GrownTailReadable(s, w);
    BuildableSignable(g, w);
    LongTail(s);
    if !w.force {
      ZerosOffer(|g| - CodeLen(s));
    } else {
      NothingOffered(Tail(g), Tail(g));
    }
    NothingIsRight(w.f, Code(g));
  }

  lemma ZerosOffer(n: nat)
    requires 12 <= n
    ensures RegionsInside(Some(Zeros(n)))
    ensures Existing(false, Some(Zeros(n)), CSSLOT_CODEDIRECTORY) == None
    ensures Existing(false, Some(Zeros(n)), CSSLOT_ALTERNATE_CODEDIRECTORIES) == None
  {
    ZerosReadable(n);
  }

  /** Signing leaves a current signature exactly when what it took over was right. */
  lemma SignedCurrent(s: seq<byte>, w: Settings)
    requires HasRoom(s, w)
    ensures Announced(s) && Signable(s, w) && Announced(Outcome(s, w))
    ensures Code(Outcome(s, w)) == Code(s) && RegionsInside(Some(Tail(Outcome(s, w))))
    ensures Current(Outcome(s, w), w.f) <==> OfferedRight(s, w)
    ensures Reuses(Outcome(s, w), w) <==> !Nameless(w) && !w.asset.sha256Only
  {
    hide U32At, Sliced, SignedSlice, RegionsInside, Existing, Tail, HashesOf, Fitting, Slots.Sound, SlotsFor, Current,
         AllRight, SignatureWith, Unsigned, Nameless, CodeDirectory.PageCount;
    SignedKeeps(s, w);
    UnsignedWhen(s, w);
    WrittenCurrent(Outcome(s, w), InputOf(s, w), w.f, Offered(s, w, CSSLOT_CODEDIRECTORY),
                   Offered(s, w, CSSLOT_ALTERNATE_CODEDIRECTORIES));
  }

  /** The final slice after growing: its stored code slots are those of its code exactly when the signing
      was forced, has no directories, or found nothing to take over. */
  lemma GrownCurrent(s: seq<byte>, w: Settings)
    requires Ready(s, w) && CanGrow(s) && HasRoom(GrownSlice(s), w)
    requires HasSignature(s) ==> Current(s, w.f) && Telling(s, w.f)
    ensures Current(Outcome(GrownSlice(s), w), w.f) <==> w.force || Nameless(w) || !Reuses(s, w)
  {
    hide U32At, Sliced, Roomy, Growable, GrownSlice, RegionsInside, Existing, Buildable, Tail, HashesOf, Current,
         Telling, Nameless, OfferedRight, CanSign, Outcome, Signable, StoredSlots;
    SignedCurrent(GrownSlice(s), w);
    RoomIsSound(GrownSlice(s), w);
    if HasSignature(s) {
      GrownSlotsRight(s, w);
    } else {
      NothingStored(s, w);
    }
  }

  lemma RoomIsSound(s: seq<byte>, w: Settings)
    requires HasRoom(s, w)
    ensures w.f.Sound()
  {
  }

  /** A slice signed in the first pass: it is current, and it stores what a second pass would take over
      unless it has a SHA-256 directory only. */
  lemma FirstPassCurrent(s: seq<byte>, w: Settings)
    requires Ready(s, w) && HasRoom(s, w) && Current(s, w.f)
    ensures Current(Outcome(s, w), w.f)
    ensures Reuses(Outcome(s, w), w) <==> !Nameless(w) && !w.asset.sha256Only
  {
    hide U32At, Sliced, RegionsInside, Existing, Tail, HashesOf, Fitting, SlotsFor, Right, Unsigned, Nameless,
         SignedSlice, Buildable, Roomy, CanSign, CodeDirectory.PageCount, Outcome, Signable, Reuses;
    SignedCurrent(s, w);
    RoomIsSound(s, w);
    CurrentIsRight(s, w.f);
    NothingIsRight(w.f, Code(s));
    NothingOffered(Tail(s), Tail(s));
  }

  /** A slice that carries a forced signature of its own code is current; it stores what a later signing
      takes over unless that signature has no directories or a SHA-256 directory only. */
  lemma OwnSignature(s: seq<byte>, w: Settings, first: Input)
    requires Announced(s) && first.code == Code(s)
    requires Fitting(first, w.f) && w.f.Sound() && SlotsFor(first, w.f, None, None).Sound()
    requires Signature(first, w.f) <= Tail(s)
    ensures Current(s, w.f)
    ensures Reuses(s, w) <==> !Unsigned(first) && !first.asset.sha256Only
  {
    hide U32At, Sliced, RegionsInside, Existing, Tail, HashesOf, Fitting, Slots.Sound, SlotsFor, Current,
         SignatureWith, Unsigned, CodeDirectory.PageCount, Right;
    WrittenCurrent(s, first, w.f, None, None);
    NothingIsRight(w.f, first.code);
  }

  // ---------------------------------------------------------------- the whole file

  /** Slice `i` after the retry is the grown slice, signed. */
  lemma FinalSlice(slices: seq<seq<byte>>, w: Settings, i: nat)
    requires AllReady(slices, w) && i < |slices| && !AllHaveRoom(slices, w)
    requires FinalSlices(slices, w, false).Some?
    ensures var s, final := AfterFirstPass(slices, w)[i], FinalSlices(slices, w, false).value;
            && Ready(s, w) && CanGrow(s) && HasRoom(GrownSlice(s), w)
            && |final| == |slices| && final[i] == Outcome(GrownSlice(s), w)
  {
    hide HasRoom, Ready, AllReady, AllGrowable, CanGrow, FitsGrown, FinalSlices, GrownSlice, SignedUpTo, GrownAll,
      Outcome;
    MisfitMeaning(slices, w, 0);
    var n := Misfit(slices, w, 0);
    MisfitHere(slices, w, n);
    SignedUpToReady(slices, w, n);
    var left := AfterFirstPass(slices, w);
    SecondPass(left, w);
    OneFinal(left, w, i);
  }

  lemma OneFinal(slices: seq<seq<byte>>, w: Settings, i: nat)
    requires AllReady(slices, w) && AllGrowable(slices) && AllFitGrown(slices, w) && i < |slices|
    ensures Ready(slices[i], w) && CanGrow(slices[i]) && HasRoom(GrownSlice(slices[i]), w)
    ensures SignedUpTo(GrownAll(slices), w, |slices|)[i] == Outcome(GrownSlice(slices[i]), w)
  {
    hide HasRoom, Ready, CanGrow, FitsGrown, GrownSlice, Outcome;
    GrownHasRoom(slices[i], w);
  }

  /** Which slices end up with stale hashes when a file is signed after a reallocation. A slice that the
      first pass had signed is current exactly when the signing was forced, has no directories, or has a
      SHA-256 directory only; the slices from the first misfit on are current exactly when it was forced,
      has no directories, or they stored nothing to take over. */
  lemma FinalCurrent(slices: seq<seq<byte>>, w: Settings, i: nat)
    requires AllReady(slices, w) && i < |slices| && !AllHaveRoom(slices, w)
    requires FinalSlices(slices, w, false).Some?
    requires HasSignature(slices[i]) ==> Current(slices[i], w.f) && Telling(AfterFirstPass(slices, w)[i], w.f)
    ensures var final := FinalSlices(slices, w, false).value;
            && |final| == |slices|
            && (Current(final[i], w.f) <==>
                  || w.force || Nameless(w)
                  || if i < Misfit(slices, w, 0) then w.asset.sha256Only else !Reuses(slices[i], w))
  {
    hide HasRoom, Ready, AllReady, FinalSlices, GrownSlice, Current, Telling, Nameless, Reuses, CanGrow, Outcome,
         HasSignature;
    var s := AfterFirstPass(slices, w)[i];
    FinalSlice(slices, w, i);
    MisfitMeaning(slices, w, 0);
    if i < Misfit(slices, w, 0) {
      SignedHere(slices, w, i);
      FirstPassCurrent(slices[i], w);
    }
    GrownCurrent(s, w);
  }

  lemma SignedHere(slices: seq<seq<byte>>, w: Settings, i: nat)
    requires AllReady(slices, w) && i < |slices| && HasRoom(slices[i], w)
    ensures Ready(slices[i], w) && HasSignature(slices[i])
    ensures Announced(Outcome(slices[i], w))
  {
    hide Sliced, Signable, SignedSlice, Buildable, Roomy, RegionsInside;
    SignedKeeps(slices[i], w);
  }
}
