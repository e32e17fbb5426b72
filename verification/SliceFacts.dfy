/** What a parse of one Mach-O slice finds in its load commands. */
module SliceFacts {
  import opened Bytes
  import opened LoadCommands
  import opened CommandEdits

  const MH_MAGIC: u32 := 0xfeed_face
  const MH_CIGAM: u32 := 0xcefa_edfe
  const MH_MAGIC_64: u32 := 0xfeed_facf
  const MH_CIGAM_64: u32 := 0xcffa_edfe
  const MH_EXECUTE: u32 := 0x2
  const LC_SEGMENT: u32 := 0x1
  const SEGMENT_SIZE := 72
  const SECTION_SIZE := 80
  const CODESIGNATURE_SIZE := 16

  // "__TEXT", "__LINKEDIT" and "__text"
  const TEXT: seq<byte> := [0x5f, 0x5f, 0x54, 0x45, 0x58, 0x54]
  const LINKEDIT: seq<byte> := [0x5f, 0x5f, 0x4c, 0x49, 0x4e, 0x4b, 0x45, 0x44, 0x49, 0x54]
  const TEXT_SECTION: seq<byte> := [0x5f, 0x5f, 0x74, 0x65, 0x78, 0x74]

  // ---------------------------------------------------------------- what Init looks for

  function NSects(c: Command): u32
    requires SEGMENT_SIZE <= |c|
  {
    U32At(c, 64)
  }

  /** Structures a command's kind promises lie inside the command. */
  predicate Parsable(c: Command) {
    && SelfSized(c)
    && Kind(c) != LC_SEGMENT
    && (Kind(c) == LC_SEGMENT_64 ==> SEGMENT_SIZE <= |c| && SEGMENT_SIZE + SECTION_SIZE * NSects(c) <= |c|)
    && (Kind(c) == LC_CODE_SIGNATURE ==> CODESIGNATURE_SIZE <= |c|)
  }

  predicate AllParsable(cs: seq<Command>) {
    forall c :: c in cs ==> Parsable(c)
  }

  predicate SegmentNamed(c: Command, name: seq<byte>) {
    Parsable(c) && Kind(c) == LC_SEGMENT_64 && CString(c, 8) == name
  }

  predicate IsLinkEdit(c: Command) {
    SegmentNamed(c, LINKEDIT)
  }

  predicate IsCodeSignature(c: Command) {
    Parsable(c) && Kind(c) == LC_CODE_SIGNATURE
  }

  function FileOff(c: Command): u64
    requires SEGMENT_SIZE <= |c|
  {
    U64At(c, 40)
  }

  function FileSize(c: Command): u64
    requires SEGMENT_SIZE <= |c|
  {
    U64At(c, 48)
  }

  function VmSize(c: Command): u64
    requires SEGMENT_SIZE <= |c|
  {
    U64At(c, 32)
  }

  function DataOff(c: Command): u32
    requires CODESIGNATURE_SIZE <= |c|
  {
    U32At(c, 8)
  }

  function DataSize(c: Command): u32
    requires CODESIGNATURE_SIZE <= |c|
  {
    U32At(c, 12)
  }

  /** The last command the predicate picks: later ones overwrite earlier ones in the parser. */
  function Last(cs: seq<Command>, pick: Command -> bool): (r: Option<nat>)
    ensures r.Some? ==> r.value < |cs| && pick(cs[r.value])
    ensures r.Some? ==> forall j :: r.value < j < |cs| ==> !pick(cs[j])
    ensures r.None? ==> forall c :: c in cs ==> !pick(c)
  {
    if cs == [] then None
    else if pick(cs[|cs| - 1]) then Some(|cs| - 1)
    else Last(cs[..|cs| - 1], pick)
  }

  /** Position of the command `Last` picks. */
  function Place(cs: seq<Command>, base: nat, k: Option<nat>): Option<nat>
    requires k.Some? ==> k.value < |cs|
  {
    if k.None? then None else Some(PosOf(cs, base, k.value))
  }

  /** Where section `j` of a segment starts in the slice, when it is called `__text`. */
  function TextSection(c: Command, j: nat): Option<u32>
    requires SegmentNamed(c, TEXT) && j < NSects(c)
  {
    var at := SEGMENT_SIZE + SECTION_SIZE * j;
    if CString(c, at) == TEXT_SECTION then Some(U32At(c, at + 48)) else None
  }

  /** The gap the sections of one segment leave: the last `__text` that starts past the commands
      decides, `before` is kept when there is none. */
  function SectionSpace(c: Command, n: nat, headEnd: nat, before: u32): u32
    requires SegmentNamed(c, TEXT) && n <= NSects(c)
  {
    if n == 0 then before
    else
      match TextSection(c, n - 1)
      case Some(offset) => if offset > headEnd then offset - headEnd else SectionSpace(c, n - 1, headEnd, before)
      case None => SectionSpace(c, n - 1, headEnd, before)
  }

  /** `m_uLoadCommandsFreeSpace` after a parse. */
  function FreeSpace(cs: seq<Command>, headEnd: nat): u32 {
    if cs == [] then 0
    else
      var c, before := cs[|cs| - 1], FreeSpace(cs[..|cs| - 1], headEnd);
      if SegmentNamed(c, TEXT) then SectionSpace(c, NSects(c), headEnd, before) else before
  }

  /** Some `__text` section starts `gap` bytes past the commands. */
  ghost predicate TextAfter(cs: seq<Command>, headEnd: nat, gap: nat) {
    exists c, j :: c in cs && SegmentNamed(c, TEXT) && 0 <= j < NSects(c) && StartsAt(TextSection(c, j), headEnd + gap)
  }

  predicate StartsAt(section: Option<u32>, offset: nat) {
    section == Some(offset)
  }

  lemma {:induction false} SectionSpaceMeaning(c: Command, n: nat, headEnd: nat, before: u32)
    requires SegmentNamed(c, TEXT) && n <= NSects(c)
    ensures var g := SectionSpace(c, n, headEnd, before);
            || (g > 0 && TextAfter([c], headEnd, g))
            || (g == before && forall j :: 0 <= j < n && TextSection(c, j).Some? ==> TextSection(c, j).value <= headEnd)
  {
    hide U32At, CString, TextSection, SegmentNamed;
    if n > 0 {
      SectionSpaceMeaning(c, n - 1, headEnd, before);
      var section := TextSection(c, n - 1);
      if section.Some? && section.value > headEnd {
        assert c in [c] && StartsAt(section, headEnd + (section.value - headEnd));
      }
    }
  }

  /** A positive counter is the distance from the end of the commands to a `__text` section; it is
      zero exactly when no `__text` section starts past the commands, so nothing is known then. */
  lemma {:induction false} FreeSpaceMeaning(cs: seq<Command>, headEnd: nat)
    ensures FreeSpace(cs, headEnd) > 0 ==> TextAfter(cs, headEnd, FreeSpace(cs, headEnd))
    ensures FreeSpace(cs, headEnd) == 0 ==>
      forall c, j :: c in cs && SegmentNamed(c, TEXT) && 0 <= j < NSects(c) && TextSection(c, j).Some? ==>
        TextSection(c, j).value <= headEnd
  {
    hide U32At, CString;
    if cs != [] {
      var c, front := cs[|cs| - 1], cs[..|cs| - 1];
      FreeSpaceMeaning(front, headEnd);
      assert forall d :: d in cs ==> d == c || d in front;
      if SegmentNamed(c, TEXT) {
        SectionSpaceMeaning(c, NSects(c), headEnd, FreeSpace(front, headEnd));
      }
    }
  }

  /** The next multiple of 16; it wraps to zero for the last lengths of the 32-bit range. */
  function RoundUp16(n: u32): (r: u32)
    ensures r % 16 == 0 && (n <= r < n + 16 || (r == 0 && TWO32 - 16 < n))
  {
    (if n % 16 == 0 then n else n + 16 - n % 16) % TWO32
  }

  /** `dataoff` of the last signature command, or the slice's length rounded up to 16. */
  function CodeLengthOf(cs: seq<Command>, length: u32): u32
    requires AllParsable(cs)
  {
    match Last(cs, IsCodeSignature)
    case Some(k) => DataOff(cs[k])
    case None => RoundUp16(length)
  }

  predicate IsText(c: Command) {
    SegmentNamed(c, TEXT)
  }

  /** Memory size of the last `__TEXT` segment. */
  function ExecLimit(cs: seq<Command>): u64
    requires AllParsable(cs)
  {
    match Last(cs, IsText)
    case Some(k) => VmSize(cs[k])
    case None => 0
  }

  /** What a parse finds. Positions count from the start of the file. */
  datatype Findings = Findings(linkEdit: Option<nat>, codeSign: Option<nat>, signBase: Option<nat>,
                               codeLength: u32, freeSpace: u32, execLimit: u64)

  /** What the commands of the slice at `base` say. */
  function Found(cs: seq<Command>, base: nat, length: u32, headEnd: nat): Findings
    requires AllParsable(cs)
  {
    Findings(Place(cs, base, Last(cs, IsLinkEdit)),
             Place(cs, base, Last(cs, IsCodeSignature)),
             if Last(cs, IsCodeSignature).None? then None else Some(base + CodeLengthOf(cs, length)),
             CodeLengthOf(cs, length),
             FreeSpace(cs, headEnd),
             ExecLimit(cs))
  }

  /** The parser's loop over the sections of a `__TEXT` segment. */
  method ScanSections(command: Command, headEnd: nat, before: u32) returns (space: u32)
    requires SegmentNamed(command, TEXT)
    ensures space == SectionSpace(command, NSects(command), headEnd, before)
  {
    hide U32At, CString, TextSection;
    space := before;
    for j := 0 to NSects(command)
      invariant space == SectionSpace(command, j, headEnd, before)
    {
      var section := TextSection(command, j);
      if section.Some? && section.value > headEnd {
        space := section.value - headEnd;
      }
    }
  }

  lemma FoundAtStart(cs: seq<Command>, base: nat, length: u32, headEnd: nat)
    ensures PosOf(cs, base, 0) == base + HEADER_SIZE
    ensures cs[..0] == []
    ensures Found([], base, length, headEnd) == Findings(None, None, None, RoundUp16(length), 0, 0)
  {
  }

  /** One more command changes only what its kind and name decide. */
  lemma FoundStep(cs: seq<Command>, i: nat, base: nat, length: u32, headEnd: nat)
    requires i < |cs| && AllParsable(cs)
    ensures var c, before, after := cs[i], Found(cs[..i], base, length, headEnd),
      Found(cs[..i + 1], base, length, headEnd);
            after == if IsCodeSignature(c) then
                       before.(codeSign := Some(PosOf(cs, base, i)), codeLength := DataOff(c),
                               signBase := Some(base + DataOff(c)))
                     else if IsLinkEdit(c) then before.(linkEdit := Some(PosOf(cs, base, i)))
                     else if SegmentNamed(c, TEXT) then
                       before.(freeSpace := SectionSpace(c, NSects(c), headEnd, before.freeSpace),
                         execLimit := VmSize(c))
                     else before
  {
    hide U32At, CString, U64At, Flatten, SectionSpace, Last, SegmentNamed, FreeSpace, Parsable;
    LastStep(cs, i, IsLinkEdit);
    LastStep(cs, i, IsCodeSignature);
    LastStep(cs, i, IsText);
    FreeSpaceStep(cs, i, headEnd);
    OneRole(cs[i]);
    assert forall k :: 0 <= k <= i ==> cs[..i + 1][..k] == cs[..k];
    assert forall k :: 0 <= k <= i ==> cs[..i][..k] == cs[..k];
  }

  lemma FreeSpaceStep(cs: seq<Command>, i: nat, headEnd: nat)
    requires i < |cs|
    ensures FreeSpace(cs[..i + 1], headEnd)
         == if SegmentNamed(cs[i], TEXT) then SectionSpace(cs[i], NSects(cs[i]), headEnd, FreeSpace(cs[..i], headEnd))
            else FreeSpace(cs[..i], headEnd)
  {
    hide U32At, CString, SectionSpace, SegmentNamed;
    assert cs[..i + 1][..i] == cs[..i];
  }

  lemma OneRole(c: Command)
    ensures IsCodeSignature(c) ==> !IsLinkEdit(c) && !IsText(c)
    ensures IsLinkEdit(c) ==> !IsText(c)
  {
  }

  /** The commands `RemoveDylibs` drops. */
  function DropsNamed(names: set<seq<byte>>): Command -> bool {
    c => Loads(c, names)
  }

  lemma LastStep(cs: seq<Command>, i: nat, pick: Command -> bool)
    requires i < |cs|
    ensures Last(cs[..i + 1], pick) == if pick(cs[i]) then Some(i) else Last(cs[..i], pick)
  {
  }

  /** What the loader finds at the position of command `i`. */
  lemma CommandRead(b: seq<byte>, base: nat, i: nat)
    requires WellFormed(b, base) && i < NCmds(b, base)
    ensures var c, p := CommandList(b, base)[i], PosOf(CommandList(b, base), base, i);
            && SelfSized(c)
            && p + |c| <= AreaEnd(b, base)
            && U32At(b, p) == Kind(c)
            && U32At(b, p + 4) == |c|
            && b[p..p + |c|] == c
  {
    CommandBytes(b, base, i);
    FieldIn32(b, base, i, 0);
    FieldIn32(b, base, i, 4);
  }

  lemma FirstLoadIs(cs: seq<Command>, name: seq<byte>, i: nat)
    requires i < |cs| && Loads(cs[i], {name}) && forall j :: 0 <= j < i ==> !Loads(cs[j], {name})
    ensures FirstLoad(cs, name) == Some(i)
  {
  }

  lemma FilterStart(drop: Command -> bool)
    ensures var none: seq<Command> := []; Filter(none, drop) == none && Flatten(none) == []
  {
  }

  lemma FilterStep(cs: seq<Command>, i: nat, drop: Command -> bool)
    requires i < |cs|
    ensures Filter(cs[..i + 1], drop) == Filter(cs[..i], drop) + if drop(cs[i]) then [] else [cs[i]]
    ensures Flatten(Filter(cs[..i + 1], drop)) == Flatten(Filter(cs[..i], drop)) + if drop(cs[i]) then [] else cs[i]
  {
    assert cs[..i + 1] == cs[..i] + [cs[i]];
    FilterAppend(cs[..i], [cs[i]], drop);
    var one := [cs[i]];
    assert |one[1..]| == 0;
    FlattenAppend(Filter(cs[..i], drop), if drop(cs[i]) then [] else [cs[i]]);
  }

  lemma PutBehind(b: seq<byte>, w: nat, s: seq<byte>)
    requires w + |s| <= |b|
    ensures Splice(b, w, s)[..w + |s|] == b[..w] + s
  {
  }

  lemma PosOfEnd(b: seq<byte>, base: nat)
    requires WellFormed(b, base)
    ensures PosOf(CommandList(b, base), base, NCmds(b, base)) == AreaEnd(b, base)
  {
    var cs := CommandList(b, base);
    CommandsFlatten(b, base + HEADER_SIZE, NCmds(b, base), AreaEnd(b, base));
    assert cs[..NCmds(b, base)] == cs;
  }

  /** The counts may be stored before the area is overwritten. */
  lemma CountsFirst(b: seq<byte>, base: nat, cs: seq<Command>)
    requires HasHeader(b, base) && AreaEnd(b, base) <= |b| && Fits(b, base, cs)
    ensures Splice(Splice(Splice(b, base + 16, Counts(cs)), base + HEADER_SIZE, Zeros(SizeOfCmds(b, base))),
                   base + HEADER_SIZE, Flatten(cs)) == Rebuilt(b, base, cs)
  {
  }

  /** Two stores side by side are one store of both. */
  lemma TwoPuts(b: seq<byte>, at: nat, s: seq<byte>, t: seq<byte>, both: seq<byte>)
    requires both == s + t && at + |both| <= |b|
    ensures Splice(Splice(b, at, s), at + |s|, t) == Splice(b, at, both)
  {
  }

  lemma RoomForOneMore(b: seq<byte>, base: nat, size: nat)
    requires WellFormed(b, base) && HEADER_SIZE + SizeOfCmds(b, base) + size < TWO32
    ensures NCmds(b, base) + 1 < TWO32 && SizeOfCmds(b, base) + size < TWO32
  {
    CommandsFlatten(b, base + HEADER_SIZE, NCmds(b, base), AreaEnd(b, base));
    EightEach(CommandList(b, base));
  }

  lemma {:induction false} EightEach(cs: seq<Command>)
    requires AllSelfSized(cs)
    ensures 8 * |cs| <= |Flatten(cs)|
  {
    if cs != [] {
      EightEach(cs[1..]);
      assert SelfSized(cs[0]);
    }
  }

  lemma NoFirstLoad(cs: seq<Command>, name: seq<byte>)
    requires forall j :: 0 <= j < |cs| ==> !Loads(cs[j], {name})
    ensures FirstLoad(cs, name) == None
  {
  }

  /** A matching command of the requested kind stays as it is. */
  lemma KeepKind(b: seq<byte>, base: nat, i: nat, weak: bool)
    requires WellFormed(b, base) && i < NCmds(b, base)
    requires SelfSized(CommandList(b, base)[i]) && Kind(CommandList(b, base)[i]) == LoadKind(weak)
    ensures var cs := CommandList(b, base);
            cs[i := Splice(cs[i], 0, LE32(LoadKind(weak)))] == cs && Fits(b, base, cs) && Rebuilt(b, base, cs) == b
  {
    RetypedSame(CommandList(b, base)[i], weak);
    RebuiltSame(b, base);
  }
}
