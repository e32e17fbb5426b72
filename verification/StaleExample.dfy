/** A slice that is signed, then signed again without force under a longer name: the new signature lacks room,
    the slice grows, and the page hashes taken over are those of the code before it grew. */
module StaleExample {
  import opened Bytes
  import opened LoadCommands
  import opened SliceFacts
  import opened SuperBlob
  import opened Signing
  import opened SignSpace
  import opened SliceSigning
  import opened MachO
  import opened SignAgain
  import opened StaleHashes
  import opened Images
  import CodeDirectory
  import Der

  /** A `__LINKEDIT` segment, and a signature behind the 120 bytes of header and commands. */
  function TwoCommands(): seq<Command> {
    [Segment(LINKEDIT, 0, []), CodeSignatureCommand(120, 0)]
  }

  /** The code of the slice: a dynamic library of nothing but its commands. */
  function Program(): (code: seq<byte>)
    ensures |code| == 120
  {
    FlattenTwo(Segment(LINKEDIT, 0, []), CodeSignatureCommand(120, 0));
    Image(6, TwoCommands())
  }

  function Ones(n: nat): (s: seq<byte>)
    ensures |s| == n
  {
    seq(n, _ => 1)
  }

  /** A hash that tells this code from all others. */
  function Digest(size: nat): CodeDirectory.Hash {
    x => if x == Program() then Zeros(size) else Ones(size)
  }

  function Tools(): Foreign {
    Foreign(Digest(20), Digest(32), _ => Der.Bool(true), (_, _) => None)
  }

  /** Ad-hoc signing under an identifier, without force. */
  function Adhoc(bundleId: seq<byte>): Settings {
    Settings(Asset([], [], [], true, false, false), Tools(), false, bundleId, [], [], [])
  }

  function InputFor(bundleId: seq<byte>): Input {
    var w := Adhoc(bundleId);
    Input(w.asset, Program(), false, 0, bundleId, [], [], SlotHash([], w.f.sha1, 20), SlotHash([], w.f.sha256, 32))
  }

  // ---------------------------------------------------------------- the slice

  lemma ProgramParses(s: seq<byte>)
    requires Program() <= s && |s| < 0x8000_0000
    ensures Sliced(s) && Cmds(s) == TwoCommands() && HeadEnd(s) == 120 && CodeLen(s) == 120
    ensures Announced(s) && Code(s) == Program() && Last(Cmds(s), IsLinkEdit).Some?
    ensures U32At(s, 12) == 6 && ExecLimit(Cmds(s)) == 0
  {
    hide U32At, Flatten, Segment, CodeSignatureCommand, CString, Walks, Commands;
    var seg, sig := Segment(LINKEDIT, 0, []), CodeSignatureCommand(120, 0);
    FlattenTwo(seg, sig);
    SegmentReads(LINKEDIT, 0, []);
    CodeSignatureCommandReads(120, 0);
    KindsOfTwo(seg, sig);
    ImageParses(s, 6, TwoCommands());
  }

  lemma KindsOfTwo(seg: Command, sig: Command)
    requires IsLinkEdit(seg) && IsCodeSignature(sig) && SelfSized(seg) && SelfSized(sig)
    ensures AllSelfSized([seg, sig]) && AllParsable([seg, sig])
    ensures Last([seg, sig], IsLinkEdit) == Some(0) && Last([seg, sig], IsCodeSignature) == Some(1)
    ensures Last([seg, sig], IsText).None?
  {
    hide U32At, CString;
    var cs: seq<Command>, none: seq<Command> := [seg, sig], [];
    assert cs[..1] == [seg] && cs[..1][..0] == none;
    OneRole(seg);
    OneRole(sig);
  }

  lemma ToolsSound()
    ensures Tools().Sound() && CmsWithin(Tools(), 0)
  {
  }

  /** Under a short identifier the settings are modest. */
  lemma AdhocModest(bundleId: seq<byte>)
    requires 0 < |bundleId| <= 2
    ensures Modest(Adhoc(bundleId), 120) && Tools().Sound()
    ensures GivesInput(Adhoc(bundleId), 120, InputFor(bundleId)) && !Unsigned(InputFor(bundleId))
  {
    hide Program, Digest;
    ToolsSound();
    var w := Adhoc(bundleId);
    assert DerSize(w, []) == 3 && DerSize(w, w.asset.entitleData) == 3;
    ModestWhen(w, 120, 0);
  }

  lemma AdhocFits(bundleId: seq<byte>, existing1: Option<seq<byte>>, existing256: Option<seq<byte>>)
    requires 0 < |bundleId| <= 2
    ensures var i := InputFor(bundleId);
            && Tools().Sound() && Fitting(i, Tools()) && !Unsigned(i) && |i.code| == 120
            && SlotsFor(i, Tools(), existing1, existing256).Sound()
            && |SignatureWith(i, Tools(), existing1, existing256)|
                 == 12 + 8 * 3 + 12 + DirectoryOverhead(i, Tools(), true) + DirectoryOverhead(i, Tools(), false) + 52
            && |SignatureWith(i, Tools(), existing1, existing256)| <= 16384 + 52
  {
    hide Program, Digest, Fitting, SlotsFor, DirectoryOverhead, Slots.Sound, Words, Overhead, Present, Slots.All;
    var w, i := Adhoc(bundleId), InputFor(bundleId);
    AdhocModest(bundleId);
    assert Measured(i, w.f) && Light(i, w.f);
    SignatureSize(i, Tools(), existing1, existing256);
    ThreeSlots(bundleId, existing1, existing256);
  }

  /** The two directories and the requirements. */
  lemma ThreeSlots(bundleId: seq<byte>, existing1: Option<seq<byte>>, existing256: Option<seq<byte>>)
    requires bundleId != [] && Tools().Sound() && Fitting(InputFor(bundleId), Tools())
    ensures Overhead(InputFor(bundleId), Tools(), existing1, existing256)
      == 12 + 8 * 3 + 12 + DirectoryOverhead(InputFor(bundleId), Tools(), true)
         + DirectoryOverhead(InputFor(bundleId), Tools(), false)
  {
    hide Program, Digest, DirectoryOverhead, Fitting, Directory, Words;
    var i := InputFor(bundleId);
    var s := SlotsFor(i, Tools(), existing1, existing256);
    DirectoryLong(i, Tools(), true, existing256);
    DirectoryLong(i, Tools(), false, existing1);
    assert s.entitlements == [] && s.derEntitlements == [] && s.cms == [];
    var a := s.All();
    assert a[1..][1..] == a[2..] && a[2..][1..] == a[3..] && a[3..][1..] == a[4..] && a[4..][1..] == a[5..]
      && |a[5..][1..]| == 0;
    assert |Present(a[5..])| == 0 && |Present(a[4..])| == 1 && |Present(a[3..])| == 1 && |Present(a[2..])| == 1;
    assert |Present(a[1..])| == 2;
  }

  /** A longer identifier makes each directory longer. */
  lemma LongerName(alternate: bool)
    requires Tools().Sound() && Fitting(InputFor([97]), Tools()) && Fitting(InputFor([97, 98]), Tools())
    ensures DirectoryOverhead(InputFor([97, 98]), Tools(), alternate)
      == DirectoryOverhead(InputFor([97]), Tools(), alternate) + 1
  {
    hide Program, Digest, Fitting, Words, CodeDirectory.Trim;
    var r := RequestFor(InputFor([97]), Tools(), alternate, None);
    var q := RequestFor(InputFor([97, 98]), Tools(), alternate, None);
    assert r.SpecialSlots() == q.SpecialSlots();
  }

  // ---------------------------------------------------------------- signing it again

  /** The slice, signed under the short identifier. */
  ghost predicate SignedShort(s: seq<byte>) {
    && Tools().Sound() && Fitting(InputFor([97]), Tools()) && SlotsFor(InputFor([97]), Tools(), None, None).Sound()
    && s == Program() + Signature(InputFor([97]), Tools())
  }

  lemma ShortIsCurrent(s: seq<byte>, w: Settings)
    requires SignedShort(s) && |s| < 0x8000_0000 && w == Adhoc([97, 98])
    ensures Announced(s) && CodeLen(s) == 120 && InputOf(s, w) == InputFor([97, 98])
    ensures Current(s, w.f) && Reuses(s, w)
  {
    hide Program, Digest, Fitting, SlotsFor, Slots.Sound, SignatureWith, Current, Reuses, Sliced;
    ProgramParses(s);
    AdhocModest([97]);
    assert Tail(s) == Signature(InputFor([97]), Tools());
    OwnSignature(s, w, InputFor([97]));
  }

  lemma ShortIsReady(s: seq<byte>, w: Settings)
    requires SignedShort(s) && 120 <= |s| <= 120 + 16384 + 52 && w == Adhoc([97, 98])
    ensures Ready(s, w) && CanGrow(s) && Modest(w, CodeLenOf(s))
  {
    hide Program, Digest, Fitting, SlotsFor, Slots.Sound, SignatureWith, Sliced, Signature, U32At, SignedShort,
         Buildable, Modest, RegionsInside, Existing, Last, FreeSpace;
    IsProgram(s);
    ShortIsCurrent(s, w);
    ProgramParses(s);
    AdhocModest([97, 98]);
    ModestBuildable(w);
    assert NewLength(120) == 120 + 4096 + 16384 && LengthInRange(120);
  }

  lemma IsProgram(s: seq<byte>)
    requires SignedShort(s)
    ensures Program() <= s
  {
  }

  lemma ModestBuildable(w: Settings)
    requires Modest(w, 120)
    ensures Buildable(w, 120)
  {
  }

  /** Under the longer identifier the new signature is two bytes too long. */
  lemma LacksRoom(s: seq<byte>, w: Settings)
    requires SignedShort(s) && |s| < 0x8000_0000 && w == Adhoc([97, 98]) && Ready(s, w)
    ensures !HasRoom(s, w)
  {
    hide Program, Digest, Fitting, SlotsFor, Slots.Sound, SignatureWith, Sliced, DirectoryOverhead, Roomy, Buildable,
         RegionsInside, Existing;
    ReadyAble(s, w);
    ShortIsCurrent(s, w);
    AdhocFits([97], None, None);
    AdhocFits([97, 98], Offered(s, w, CSSLOT_CODEDIRECTORY), Offered(s, w, CSSLOT_ALTERNATE_CODEDIRECTORIES));
    LongerName(true);
    LongerName(false);
  }

  /** Growing changes the only page, and the digest tells this page from every other. */
  lemma PageIsTold(s: seq<byte>, size: nat)
    requires Program() <= s && 0 < size && CanGrow(s) && Announced(s) && Code(s) == Program()
      && Announced(GrownSlice(s))
    requires |Code(GrownSlice(s))| == 120
    ensures Separates(Digest(size), Code(s), Code(GrownSlice(s)))
  {
    hide Program, GrownSlice, Sliced, Roomy, Growable;
    var a, b := Code(s), Code(GrownSlice(s));
    forall k | 0 <= k < CodeDirectory.PageCount(a) ensures PageTold(Digest(size), a, b, k) {
      assert k == 0 && CodeDirectory.Page(a, 0) == a && CodeDirectory.Page(b, 0) == b;
      assert Zeros(size)[0] != Ones(size)[0];
    }
  }

  /** The example: a file of one slice whose stored page hashes are those of its code, and are no longer
      once the file has been signed again without force. */
  lemma SigningAgainGoesStale() returns (s: seq<byte>, w: Settings)
    ensures AllReady([s], w) && LayoutInRange([s]) && !w.force && Current(s, w.f)
    ensures FinalSlices([s], w, false).Some? && |FinalSlices([s], w, false).value| == 1
    ensures !Current(FinalSlices([s], w, false).value[0], w.f)
  {
    hide Program, Digest, Fitting, SlotsFor, DirectoryOverhead, Slots.Sound, Words, Overhead, SignatureWith, Current,
         FinalSlices, HasRoom, Reuses, Ready, CanGrow, GrownSlice, Sliced, Modest, Telling, AfterFirstPass, Misfit,
         AllHaveRoom;
    w := Adhoc([97, 98]);
    AdhocFits([97], None, None);
    s := Program() + Signature(InputFor([97]), Tools());
    ShortIsCurrent(s, w);
    ShortIsReady(s, w);
    LacksRoom(s, w);
    ShortIsTold(s, w);
    NothingSigned(s, w);
    ModestSucceeds([s], w, false);
    FinalCurrent([s], w, 0);
  }

  lemma ShortIsTold(s: seq<byte>, w: Settings)
    requires SignedShort(s) && |s| < 0x8000_0000 && CanGrow(s) && w.f == Tools()
    ensures Telling(s, w.f)
  {
    hide Program, Digest, Fitting, SlotsFor, Slots.Sound, SignatureWith, CanGrow, GrownSlice, Sliced, Separates, Tools,
         SignedShort;
    IsProgram(s);
    ProgramParses(s);
    GrowthChangesCode(s);
    ToolsAre(w);
    PageIsTold(s, 20);
    PageIsTold(s, 32);
  }

  lemma NothingSigned(s: seq<byte>, w: Settings)
    requires !HasRoom(s, w)
    ensures AfterFirstPass([s], w) == [s] && Misfit([s], w, 0) == 0 && !AllHaveRoom([s], w)
  {
    hide HasRoom;
    assert !HasRoom([s][0], w);
  }

  lemma ToolsAre(w: Settings)
    requires w.f == Tools()
    ensures w.f.sha1 == Digest(20) && w.f.sha256 == Digest(32)
  {
  }
}
