/** One slice as a run of bytes: what signing makes of it, what growing makes of it, and that a grown
    slice can be signed. */
module SliceSigning {
  import opened Bytes
  import opened LoadCommands
  import opened CommandEdits
  import opened SliceFacts
  import opened RequirementSet
  import opened SuperBlob
  import opened Signing
  import opened SignSpace
  import opened SignAgain
  import CodeDirectory
  import Der

  /** What `Sign` is handed. */
  datatype Settings = Settings(asset: Asset, f: Foreign, force: bool, bundleId: seq<byte>,
                               infoSHA1: seq<byte>, infoSHA256: seq<byte>, resources: seq<byte>)

  // ---------------------------------------------------------------- slices

  predicate Sliced(s: seq<byte>) {
    && HEADER_SIZE <= |s| < 0x8000_0000
    && WellFormed(s, 0)
    && AllParsable(CommandList(s, 0))
  }

  function Cmds(s: seq<byte>): seq<Command>
    requires Sliced(s)
  {
    CommandList(s, 0)
  }

  function HeadEnd(s: seq<byte>): nat
    requires Sliced(s)
  {
    HEADER_SIZE + SizeOfCmds(s, 0)
  }

  function CodeLen(s: seq<byte>): u32
    requires Sliced(s)
  {
    CodeLengthOf(Cmds(s), |s|)
  }

  predicate HasSignature(s: seq<byte>)
    requires Sliced(s)
  {
    Last(Cmds(s), IsCodeSignature).Some?
  }

  /** A 64-bit slice whose signature, if it has one, starts behind the commands and inside the slice. */
  predicate Good(s: seq<byte>) {
    && Sliced(s)
    && U32At(s, 0) == MH_MAGIC_64
    && CodeLen(s) < 0x8000_0000
    && (HasSignature(s) ==> HeadEnd(s) <= CodeLen(s) <= |s|)
  }

  /** A good slice whose commands announce where its signature is. */
  predicate Announced(s: seq<byte>) {
    Good(s) && HasSignature(s)
  }

  function Code(s: seq<byte>): seq<byte>
    requires Announced(s)
  {
    s[..CodeLen(s)]
  }

  /** The signature's place and the rest of the slice. */
  function Tail(s: seq<byte>): seq<byte>
    requires Announced(s)
  {
    s[CodeLen(s)..]
  }

  /** What `BuildCodeSignature` works on for this slice. */
  function InputOf(s: seq<byte>, w: Settings): Input
    requires Announced(s)
  {
    Input(w.asset, Code(s), U32At(s, 12) == MH_EXECUTE, ExecLimit(Cmds(s)), w.bundleId, w.infoSHA1, w.infoSHA256,
          SlotHash(w.resources, w.f.sha1, 20), SlotHash(w.resources, w.f.sha256, 32))
  }

  // ---------------------------------------------------------------- the same slice elsewhere

  /** Header and commands say the same wherever they lie. */
  lemma Relocated(b: seq<byte>, base: nat, n: nat, x: seq<byte>, base2: nat)
    requires WellFormed(b, base) && AreaEnd(b, base) <= base + n
    requires base + n <= |b| && base2 + n <= |x| && x[base2..base2 + n] == b[base..base + n]
    ensures WellFormed(x, base2) && CommandList(x, base2) == CommandList(b, base)
    ensures NCmds(x, base2) == NCmds(b, base) && SizeOfCmds(x, base2) == SizeOfCmds(b, base)
    ensures U32At(x, base2) == U32At(b, base) && U32At(x, base2 + 12) == U32At(b, base + 12)
  {
    hide U32At, Flatten, Walks, Commands;
    var cs, start, start2 := CommandList(b, base), base + HEADER_SIZE, base2 + HEADER_SIZE;
    SameField(b, base, n, x, base2, 0);
    SameField(b, base, n, x, base2, 12);
    SameField(b, base, n, x, base2, 16);
    SameField(b, base, n, x, base2, 20);
    CommandsFlatten(b, start, NCmds(b, base), AreaEnd(b, base));
    SliceOfSlice(x, base2, base2 + n, HEADER_SIZE, HEADER_SIZE + SizeOfCmds(b, base));
    SliceOfSlice(b, base, base + n, HEADER_SIZE, HEADER_SIZE + SizeOfCmds(b, base));
    FlattenWalks(x, start2, cs);
  }

  lemma SameField(b: seq<byte>, base: nat, n: nat, x: seq<byte>, base2: nat, at: nat)
    requires base + n <= |b| && base2 + n <= |x| && x[base2..base2 + n] == b[base..base + n] && at + 4 <= n
    ensures U32At(x, base2 + at) == U32At(b, base + at)
  {
    hide U32At;
    SliceOfSlice(x, base2, base2 + n, at, at + 4);
    SliceOfSlice(b, base, base + n, at, at + 4);
    SameU32(x, base2 + at, b, base + at);
  }

  // ---------------------------------------------------------------- signing

  /** The earlier signature is readable, unless it is not looked at. */
  predicate TailReadable(s: seq<byte>, w: Settings)
    requires Announced(s)
  {
    w.force || RegionsInside(Some(Tail(s)))
  }

  function Offered(s: seq<byte>, w: Settings, kind: u32): Option<seq<byte>>
    requires Announced(s) && TailReadable(s, w) && kind in {CSSLOT_CODEDIRECTORY, CSSLOT_ALTERNATE_CODEDIRECTORIES}
  {
    Existing(w.force, Some(Tail(s)), kind)
  }

  function NewSlots(s: seq<byte>, w: Settings): Slots
    requires Announced(s) && TailReadable(s, w) && Fitting(InputOf(s, w), w.f) && w.f.Sound()
  {
    SlotsFor(InputOf(s, w), w.f, Offered(s, w, CSSLOT_CODEDIRECTORY), Offered(s, w, CSSLOT_ALTERNATE_CODEDIRECTORIES))
  }

  ghost predicate Signable(s: seq<byte>, w: Settings)
    requires Announced(s)
  {
    TailReadable(s, w) && Fitting(InputOf(s, w), w.f) && w.f.Sound() && NewSlots(s, w).Sound()
  }

  ghost function NewBlob(s: seq<byte>, w: Settings): seq<byte>
    requires Announced(s) && Signable(s, w)
  {
    SignatureWith(InputOf(s, w), w.f, Offered(s, w, CSSLOT_CODEDIRECTORY),
      Offered(s, w, CSSLOT_ALTERNATE_CODEDIRECTORIES))
  }

  /** Whether `Sign` goes through for this slice. */
  ghost predicate CanSign(s: seq<byte>, w: Settings)
    requires Good(s) && (HasSignature(s) ==> Signable(s, w))
  {
    HasSignature(s) && |NewBlob(s, w)| <= |s| - CodeLen(s)
  }

  ghost function SignedSlice(s: seq<byte>, w: Settings): (r: seq<byte>)
    requires Announced(s) && Signable(s, w) && CanSign(s, w)
    ensures |r| == |s|
  {
    Splice(s, CodeLen(s), NewBlob(s, w))
  }

  /** A signed slice has the commands, the code and the signature's place it had, and its signature is
      the one written. */
  lemma SignedKeeps(s: seq<byte>, w: Settings)
    requires Announced(s) && Signable(s, w) && CanSign(s, w)
    ensures var r := SignedSlice(s, w);
            && Announced(r) && Cmds(r) == Cmds(s) && HeadEnd(r) == HeadEnd(s) && CodeLen(r) == CodeLen(s)
            && U32At(r, 12) == U32At(s, 12)
            && InputOf(r, w) == InputOf(s, w)
            && NewBlob(s, w) <= Tail(r)
            && RegionsInside(Some(Tail(r)))
  {
    hide U32At, Splice, NewBlob, WellFormed, CommandList, AllParsable, Signable, RegionsInside, Fitting;
    var r, n := SignedSlice(s, w), CodeLen(s);
    SpliceElsewhere(s, n, NewBlob(s, w), 0, n);
    AreaInside(s);
    Relocated(s, 0, n, r, 0);
    SpliceThere(s, n, NewBlob(s, w));
    SliceOfSlice(r, n, |r|, 0, |NewBlob(s, w)|);
    assert NewBlob(s, w) <= Tail(r);
    WrittenReads(s, w, Tail(r));
  }

  lemma AreaInside(s: seq<byte>)
    requires Announced(s)
    ensures WellFormed(s, 0) && AreaEnd(s, 0) <= CodeLen(s) <= |s|
  {
  }

  lemma WrittenReads(s: seq<byte>, w: Settings, m: seq<byte>)
    requires Announced(s) && Signable(s, w) && NewBlob(s, w) <= m
    ensures RegionsInside(Some(m))
  {
    hide U32At, SlotsFor, Fitting, RegionsInside, Announced, SignatureWith, Good, Existing;
    WrittenSlotsFound(InputOf(s, w), w.f, Offered(s, w, CSSLOT_CODEDIRECTORY),
      Offered(s, w, CSSLOT_ALTERNATE_CODEDIRECTORIES), m);
  }

  // ---------------------------------------------------------------- growing

  /** Whether a reallocation goes through for this slice. */
  predicate Growable(s: seq<byte>)
    requires Good(s)
  {
    && Last(Cmds(s), IsLinkEdit).Some?
    && |s| < NewLength(CodeLen(s))
    && (HasSignature(s) || 4 <= FreeSpace(Cmds(s), HeadEnd(s)))
  }

  /** No 32-bit sum wraps, and there are 16 bytes where a signature command may be added after a check
      for 4. */
  predicate Roomy(s: seq<byte>)
    requires Good(s)
  {
    && LengthInRange(CodeLen(s)) && NewLength(CodeLen(s)) < 0x8000_0000
    && (!HasSignature(s) && 4 <= FreeSpace(Cmds(s), HeadEnd(s)) ==> HeadEnd(s) + CODESIGNATURE_SIZE <= |s|)
  }

  function GrownList(s: seq<byte>): seq<Command>
    requires Good(s) && Growable(s) && Roomy(s)
  {
    NewLengthRoom(CodeLen(s));
    PickedShapes(Cmds(s));
    Grown(Cmds(s), Last(Cmds(s), IsLinkEdit).value, Last(Cmds(s), IsCodeSignature), CodeLen(s), |s|,
      NewLength(CodeLen(s)))
  }

  lemma {:induction false} SameLengths(cs: seq<Command>, ds: seq<Command>)
    requires |cs| == |ds| && forall i :: 0 <= i < |cs| ==> |cs[i]| == |ds[i]|
    ensures |Flatten(cs)| == |Flatten(ds)|
  {
    if cs != [] {
      SameLengths(cs[1..], ds[1..]);
    }
  }

  /** The grown list takes the old room, and 16 bytes more when the signature command is new. */
  lemma GrownRoom(s: seq<byte>)
    requires Good(s) && Growable(s) && Roomy(s)
    ensures |Flatten(GrownList(s))| == SizeOfCmds(s, 0) + if HasSignature(s) then 0 else CODESIGNATURE_SIZE
    ensures LoadCommands.Fits(s, 0, GrownList(s)) && AreaEnd(s, 0) <= |s|
    ensures HEADER_SIZE + |Flatten(GrownList(s))| <= |s| && HEADER_SIZE + |Flatten(GrownList(s))| <= CodeLen(s)
  {
    hide U32At, Flatten, Last, FreeSpace, Stretched, Sized, CodeSignatureCommand, NewLength, LengthInRange, Walks,
         Commands, AllParsable;
    var cs, cs' := Cmds(s), GrownList(s);
    PickedShapes(cs);
    var k, m := Last(cs, IsLinkEdit).value, Last(cs, IsCodeSignature);
    CommandsFlatten(s, HEADER_SIZE, NCmds(s, 0), AreaEnd(s, 0));
    SameLengths(cs, cs'[..|cs|]);
    EightEach(cs);
    if m.None? {
      assert cs' == cs'[..|cs|] + [cs'[|cs|]];
      FlattenAppend(cs'[..|cs|], [cs'[|cs|]]);
      FlattenOne(cs'[|cs|]);
      RoundsUp(s);
    } else {
      assert cs' == cs'[..|cs|];
    }
  }

  lemma RoundsUp(s: seq<byte>)
    requires Good(s) && !HasSignature(s)
    ensures |s| <= CodeLen(s)
  {
  }

  /** The bytes of a reallocated slice's new file. */
  function GrownSlice(s: seq<byte>): (r: seq<byte>)
    requires Good(s) && Growable(s) && Roomy(s)
    ensures |r| == NewLength(CodeLen(s))
  {
    GrownRoom(s);
    Rebuilt(s, 0, GrownList(s)) + Zeros(NewLength(CodeLen(s)) - |s|)
  }

  /** A grown slice is a good one with a signature command; its commands are the edited ones, its code
      length is the old one. */
  lemma GrownGood(s: seq<byte>)
    requires Good(s) && Growable(s) && Roomy(s)
    ensures var r := GrownSlice(s);
            && Announced(r) && Cmds(r) == GrownList(s) && CodeLen(r) == CodeLen(s)
            && HeadEnd(r) == HEADER_SIZE + |Flatten(GrownList(s))|
  {
    hide U32At, Flatten, Last, FreeSpace, Stretched, Sized, CodeSignatureCommand, NewLength, LengthInRange, Walks,
         Commands, Rebuilt, AllParsable, Grown, CommandList, WellFormed, DataOff, FileOff, FileSize, VmSize,
         DataSize;
    var r, cs' := GrownSlice(s), GrownList(s);
    GrownRoom(s);
    var b := Rebuilt(s, 0, cs');
    NewLengthRoom(CodeLen(s));
    GrownIsConsistent(Cmds(s), CodeLen(s), |s|);
    ParsableSized(cs');
    RebuiltWalks(s, 0, cs');
    RebuiltCounts(s, 0, cs');
    assert r[0..|s|] == b[0..|s|];
    Relocated(b, 0, |s|, r, 0);
    MagicKept(s, cs');
  }

  lemma ParsableSized(cs: seq<Command>)
    requires AllParsable(cs)
    ensures AllSelfSized(cs)
  {
  }

  lemma MagicKept(s: seq<byte>, cs: seq<Command>)
    requires HasHeader(s, 0) && AreaEnd(s, 0) <= |s| && LoadCommands.Fits(s, 0, cs)
    ensures U32At(Rebuilt(s, 0, cs), 0) == U32At(s, 0) && U32At(Rebuilt(s, 0, cs), 12) == U32At(s, 12)
  {
  }

  /** Behind the code length `r` holds what `s` held there, then zeros. */
  predicate TailGrows(s: seq<byte>, r: seq<byte>)
    requires Good(s) && Announced(r) && |s| <= |r| && CodeLen(s) <= |r|
  {
    if HasSignature(s) then Tail(r) == Tail(s) + Zeros(|r| - |s|) else Tail(r) == Zeros(|r| - CodeLen(s))
  }

  lemma GrownTail(s: seq<byte>)
    requires Good(s) && Growable(s) && Roomy(s)
    ensures Announced(GrownSlice(s)) && |s| <= |GrownSlice(s)| && CodeLen(s) <= |GrownSlice(s)|
    ensures TailGrows(s, GrownSlice(s))
  {
    hide U32At, Flatten, Last, FreeSpace, NewLength, LengthInRange, Walks, Commands, Rebuilt, AllParsable,
         GrownList, CommandList, Sliced;
    var r, n := GrownSlice(s), CodeLen(s);
    GrownGood(s);
    GrownRoom(s);
    LongTail(s);
    var b := Rebuilt(s, 0, GrownList(s));
    if HasSignature(s) {
      AreaInside(s);
      forall i | n <= i < |s| ensures b[i] == s[i] {
        RebuiltBytes(s, 0, GrownList(s), i);
      }
      assert Tail(r) == b[n..] + Zeros(|r| - |s|);
      assert b[n..] == s[n..];
    } else {
      RoundsUp(s);
      assert Tail(r) == Zeros(|r| - n);
    }
  }

  lemma ZerosReadable(n: nat)
    requires 12 <= n
    ensures RegionsInside(Some(Zeros(n)))
  {
  }

  /** What is readable stays so when more bytes follow, and reads the same. */
  lemma LongerReadable(t: seq<byte>, m: seq<byte>)
    requires RegionsInside(Some(t)) && t <= m
    ensures RegionsInside(Some(m))
    ensures forall force, kind | kind in {CSSLOT_CODEDIRECTORY, CSSLOT_ALTERNATE_CODEDIRECTORIES} ::
              Existing(force, Some(m), kind) == Existing(force, Some(t), kind)
  {
    hide BigU32At, LastRegion, Extract;
    SameWord(m, t, 0);
    if BigU32At(t, 0) == CSMAGIC_EMBEDDED_SIGNATURE {
      SameReadable(m, t);
      SameLastRegion(m, t, CSSLOT_CODEDIRECTORY, BigU32At(t, 8));
      SameLastRegion(m, t, CSSLOT_ALTERNATE_CODEDIRECTORIES, BigU32At(t, 8));
      SameExtract(m, t, LastRegion(t, CSSLOT_CODEDIRECTORY, BigU32At(t, 8)));
      SameExtract(m, t, LastRegion(t, CSSLOT_ALTERNATE_CODEDIRECTORIES, BigU32At(t, 8)));
    }
  }

  lemma GrownTailReadable(s: seq<byte>, w: Settings)
    requires Good(s) && Growable(s) && Roomy(s) && (HasSignature(s) ==> TailReadable(s, w))
    ensures Announced(GrownSlice(s)) && TailReadable(GrownSlice(s), w)
  {
    hide U32At, RegionsInside, Growable, Roomy, GrownSlice, Sliced, Existing, Tail;
    GrownTail(s);
    LongTail(s);
    if !w.force {
      LongerTail(s, GrownSlice(s));
    }
  }

  lemma LongerTail(s: seq<byte>, r: seq<byte>)
    requires Good(s) && Announced(r) && |s| <= |r| && CodeLen(s) + 12 <= |r| && TailGrows(s, r)
    requires HasSignature(s) ==> RegionsInside(Some(Tail(s)))
    ensures RegionsInside(Some(Tail(r)))
  {
    hide U32At, RegionsInside, Sliced, Existing, Tail;
    if HasSignature(s) {
      LongerReadable(Tail(s), Tail(r));
    } else {
      ZerosReadable(|r| - CodeLen(s));
    }
  }

  lemma LongTail(s: seq<byte>)
    requires Good(s) && Growable(s) && Roomy(s)
    ensures |GrownSlice(s)| == NewLength(CodeLen(s)) && CodeLen(s) + 16384 < NewLength(CodeLen(s))
  {
    hide U32At, GrownList;
    NewLengthRoom(CodeLen(s));
  }

  // ---------------------------------------------------------------- a grown slice can be signed

  /** Every length in a signature for the input, whatever slots are offered, is in 32-bit range. */
  ghost predicate Measured(i: Input, f: Foreign) {
    && f.Sound() && Fitting(i, f)
    && forall existing1, existing256 :: SlotsFor(i, f, existing1, existing256).Sound()
  }

  /** An input these settings give for some slice with `n` bytes of code. */
  predicate GivesInput(w: Settings, n: nat, i: Input) {
    && |i.code| == n && i.asset == w.asset && i.bundleId == w.bundleId
    && i.infoSHA1 == w.infoSHA1 && i.infoSHA256 == w.infoSHA256
    && i.resourcesSHA1 == SlotHash(w.resources, w.f.sha1, 20)
    && i.resourcesSHA256 == SlotHash(w.resources, w.f.sha256, 32)
  }

  /** Signatures of `n` bytes of code stay in 32-bit range under these settings. */
  ghost predicate Buildable(w: Settings, n: nat) {
    forall i :: GivesInput(w, n, i) ==> Measured(i, w.f)
  }

  /** And they need at most 16384 bytes besides their page hashes, whatever slots are offered. */
  ghost predicate Modest(w: Settings, n: nat) {
    Buildable(w, n) && forall i :: GivesInput(w, n, i) ==> Light(i, w.f)
  }

  ghost predicate Light(i: Input, f: Foreign) {
    && f.Sound() && Fitting(i, f)
    && forall existing1, existing256 :: Overhead(i, f, existing1, existing256) <= 16384
  }

  /** The signer's output never exceeds `most` bytes. */
  ghost predicate CmsWithin(f: Foreign, most: nat) {
    forall primary, alternate :: CmsBounded(f.cms(primary, alternate), most)
  }

  predicate CmsBounded(cms: Option<seq<byte>>, most: nat) {
    cms.Some? ==> |cms.value| <= most
  }

  function DerSize(w: Settings, text: seq<byte>): nat {
    |Der.Encode(w.f.readPlist(text))|
  }

  /** What a signature's parts besides page hashes come to at most. */
  function PartsBound(w: Settings, cms: nat): nat {
    12 + 8 * 6 + 20 + InnerLength(w.bundleId, w.asset.subjectCN) + (|w.asset.entitleData| + 8)
    + (DerSize(w, w.asset.entitleData) + 8) + (cms + 8)
    + 2 * (CodeDirectory.HEADER_LENGTH + |w.bundleId| + 1 + |w.asset.teamId| + 1 + 7 * 32)
  }

  predicate HashLengths(w: Settings) {
    && (w.infoSHA1 == [] || |w.infoSHA1| == 20) && (w.infoSHA256 == [] || |w.infoSHA256| == 32)
  }

  /** Settings stay in range when their parts are short enough, which can be told from their lengths. */
  lemma BuildableWhen(w: Settings, n: u32, cms: nat)
    requires w.f.Sound() && CmsWithin(w.f, cms) && HashLengths(w) && DerSize(w, []) + 8 < TWO32
    requires PartsBound(w, cms) + HashRoom(n) < 0x8000_0000
    ensures Buildable(w, n)
  {
    hide Fitting, SlotsFor, Slots.Sound, Overhead, Der.Encode;
    forall i | GivesInput(w, n, i) ensures Measured(i, w.f) {
      PartsFit(w, n, cms, i);
      forall existing1, existing256 ensures SlotsFor(i, w.f, existing1, existing256).Sound() {
        PartsMeasured(w, n, cms, i, existing1, existing256);
      }
    }
  }

  /** And they are modest when those parts come to no more than 16384 bytes. */
  lemma ModestWhen(w: Settings, n: u32, cms: nat)
    requires w.f.Sound() && CmsWithin(w.f, cms) && HashLengths(w) && DerSize(w, []) + 8 < TWO32
    requires PartsBound(w, cms) <= 16384
    ensures Modest(w, n)
  {
    hide Fitting, SlotsFor, Slots.Sound, Overhead, Der.Encode, Buildable, PartsBound, DerSize;
    BuildableWhen(w, n, cms);
    forall i | GivesInput(w, n, i) ensures Light(i, w.f) {
      PartsFit(w, n, cms, i);
      forall existing1, existing256 ensures Overhead(i, w.f, existing1, existing256) <= 16384 {
        PartsMeasured(w, n, cms, i, existing1, existing256);
      }
    }
  }

  lemma PartsFit(w: Settings, n: u32, cms: nat, i: Input)
    requires w.f.Sound() && HashLengths(w) && GivesInput(w, n, i) && DerSize(w, []) + 8 < TWO32
    requires PartsBound(w, cms) + HashRoom(n) < 0x8000_0000
    ensures Fitting(i, w.f)
    ensures 52 * CodeDirectory.PageCount(i.code) <= HashRoom(n)
  {
  }

  lemma PartsMeasured(w: Settings, n: u32, cms: nat, i: Input, existing1: Option<seq<byte>>,
                      existing256: Option<seq<byte>>)
    requires w.f.Sound() && CmsWithin(w.f, cms) && GivesInput(w, n, i) && Fitting(i, w.f)
    requires PartsBound(w, cms) + HashRoom(n) < 0x8000_0000
    requires 52 * CodeDirectory.PageCount(i.code) <= HashRoom(n)
    ensures SlotsFor(i, w.f, existing1, existing256).Sound()
    ensures Overhead(i, w.f, existing1, existing256) <= PartsBound(w, cms)
  {
    hide Fitting, Der.Encode, Requirements, Wrapped, Directory, DirectoryOverhead, CodeDirectory.PageCount,
         InnerLength, Entitlements, DerEntitlements, EntitledText, Present, CmsSlot, CmsFits, CmsBounded, DerSize,
         HashRoom;
    var s := SlotsFor(i, w.f, existing1, existing256);
    DirectorySize(i, w.f, true, existing256);
    DirectorySize(i, w.f, false, existing1);
    DirectoryBound(i, w.f, true);
    DirectoryBound(i, w.f, false);
    SmallSlots(i, w, cms);
    CmsSize(w.f.cms(s.codeDirectory, s.alternate), cms, w.f);
  }

  lemma DirectoryBound(i: Input, f: Foreign, alternate: bool)
    requires Fitting(i, f) && f.Sound()
    ensures DirectoryOverhead(i, f, alternate) <= CodeDirectory.HEADER_LENGTH + |i.bundleId| + 1 + |i.asset.teamId|
      + 1 + 7 * 32
  {
  }

  lemma SmallSlots(i: Input, w: Settings, cms: nat)
    requires w.f.Sound() && Fitting(i, w.f) && i.asset == w.asset && i.bundleId == w.bundleId
    ensures |Requirements(i.bundleId, i.asset.subjectCN)| <= 20 + InnerLength(w.bundleId, w.asset.subjectCN)
    ensures |Entitlements(EntitledText(i))| <= |w.asset.entitleData| + 8
    ensures |DerEntitlements(EntitledText(i), w.f)| <= DerSize(w, w.asset.entitleData) + 8
  {
  }

  lemma CmsSize(cms: Option<seq<byte>>, most: nat, f: Foreign)
    requires CmsFits(cms) && CmsBounded(cms, most)
    ensures |CmsSlot(cms)| <= most + 8
  {
  }

  lemma BuildableSignable(s: seq<byte>, w: Settings)
    requires Announced(s) && TailReadable(s, w) && Buildable(w, CodeLen(s))
    ensures Signable(s, w)
  {
    hide U32At, Fitting, SlotsFor, Slots.Sound, Existing, RegionsInside, Overhead;
    assert GivesInput(w, CodeLen(s), InputOf(s, w));
  }

  /** What a reallocation leaves for a signature of `i` besides its page hashes. */
  function Spare(i: Input): int
    requires |i.code| < TWO32
  {
    NewLength(|i.code|) - |i.code| - HashPart(i)
  }

  /** Bytes of the slice's signature that are not page hashes. */
  ghost function Needs(s: seq<byte>, w: Settings): nat
    requires Announced(s) && Signable(s, w)
  {
    Overhead(InputOf(s, w), w.f, Offered(s, w, CSSLOT_CODEDIRECTORY), Offered(s, w, CSSLOT_ALTERNATE_CODEDIRECTORIES))
  }

  /** A grown slice can be signed exactly when the signature's bytes besides the page hashes fit what the
      reallocation leaves beside them, which is always more than 16384 bytes. */
  lemma GrownCanSign(s: seq<byte>, w: Settings)
    requires Good(s) && Growable(s) && Roomy(s) && (HasSignature(s) ==> TailReadable(s, w)) && Buildable(w, CodeLen(s))
    ensures var r := GrownSlice(s);
            && Announced(r) && Signable(r, w)
            && (CanSign(r, w) <==> Needs(r, w) <= Spare(InputOf(r, w)))
            && 16384 < Spare(InputOf(r, w))
  {
    hide U32At, Fitting, SlotsFor, Slots.Sound, Existing, RegionsInside, Overhead, GrownSlice, Growable, Sliced,
         NewLength, TailReadable, HashPart;
    var r := GrownSlice(s);
    GrownGood(s);
    GrownTailReadable(s, w);
    BuildableSignable(r, w);
    LongTail(s);
    FitsAfterGrowth(InputOf(r, w), w.f, Offered(r, w, CSSLOT_CODEDIRECTORY),
      Offered(r, w, CSSLOT_ALTERNATE_CODEDIRECTORIES));
  }

  /** So under modest settings a grown slice never lacks room. */
  lemma ModestCanSign(s: seq<byte>, w: Settings)
    requires Good(s) && Growable(s) && Roomy(s) && (HasSignature(s) ==> TailReadable(s, w)) && Modest(w, CodeLen(s))
    ensures var r := GrownSlice(s); Announced(r) && Signable(r, w) && CanSign(r, w)
  {
    hide U32At, Fitting, SlotsFor, Slots.Sound, Existing, RegionsInside, Overhead, GrownSlice, Growable, Sliced,
         NewLength, TailReadable, CanSign, Roomy, Needs, Spare, Signable;
    GrownGood(s);
    GrownCanSign(s, w);
    ModestNeeds(GrownSlice(s), w);
  }

  lemma ModestNeeds(s: seq<byte>, w: Settings)
    requires Announced(s) && Signable(s, w) && Modest(w, CodeLen(s))
    ensures Needs(s, w) <= 16384
  {
    hide U32At, Fitting, SlotsFor, Slots.Sound, Existing, RegionsInside, Overhead, Sliced, Buildable;
    assert GivesInput(w, CodeLen(s), InputOf(s, w));
  }
}
