/** The gap between the load commands and the `__text` section behind them: what may be written into it, and
    when a write goes past it into the section. */
module TextGap {
  import opened Bytes
  import opened LoadCommands
  import opened CommandEdits
  import opened SliceFacts
  import opened SignSpace
  import opened SliceSigning
  import opened ArchO
  import opened MachO
  import opened InjectRemove
  import opened Images

  /** `r` has the bytes of `b` from `from` on. */
  predicate SameFrom(b: seq<byte>, r: seq<byte>, from: nat) {
    |r| == |b| && forall i :: from <= i < |b| ==> r[i] == b[i]
  }

  /** Where the section starts that a positive counter was measured to. */
  function TextStart(a: ZArchO): nat
    reads a, a.file
    requires a.SliceOk()
  {
    a.off + a.HeadEnd() + a.loadCommandsFreeSpace
  }

  /** `InjectDylib` adds a command for this name: it is absent, the test lets it through, and the file is long
      enough. */
  predicate Accepts(a: ZArchO, name: seq<byte>)
    reads a, a.file
    requires a.SliceOk()
  {
    && NamesReadable(a.Cmds()) && 0 !in name && FirstLoad(a.Cmds(), name).None?
    && a.SpaceAllows(name) && a.InFile(DylibSize(name))
  }

  lemma AbsentFits(b: seq<byte>, base: nat, weak: bool, name: seq<byte>)
    requires WellFormed(b, base) && NamesReadable(CommandList(b, base)) && 0 !in name
    requires FirstLoad(CommandList(b, base), name).None?
    requires AreaEnd(b, base) + DylibSize(name) <= |b| && HEADER_SIZE + SizeOfCmds(b, base) + DylibSize(name) < TWO32
    ensures CanInject(b, base, weak, name)
  {
    hide U32At, CString, LE32, Flatten, Walks, Commands, CommandList, Splice, Rebuilt;
    RoomForOneMore(b, base, |DylibCommand(weak, name)|);
    DylibCommandReads(weak, name);
    AppendOne(b, base, DylibCommand(weak, name));
  }

  /** One injection never touches the section the counter was measured to. */
  lemma OneInjectionKeepsText(a: ZArchO, weak: bool, name: seq<byte>)
    requires a.Parsed() && 0 < a.loadCommandsFreeSpace && Accepts(a, name)
    ensures TextAfter(a.Cmds(), a.HeadEnd(), a.loadCommandsFreeSpace)
    ensures CanInject(a.file[..], a.off, weak, name)
    ensures SameFrom(a.file[..], AfterInject(a.file[..], a.off, weak, name), TextStart(a))
  {
    hide U32At, CString, Flatten, Walks, Commands, CommandList, AllParsable, AfterInject, DylibCommand;
    FoundPlaces(a.Cmds(), a.off, a.length, a.HeadEnd());
    FreeSpaceMeaning(a.Cmds(), a.HeadEnd());
    AbsentFits(a.file[..], a.off, weak, name);
    InjectAbsentAppends(a.file[..], a.off, weak, name);
  }

  /** Two different absent names are appended one behind the other. */
  lemma TwoAppends(b: seq<byte>, base: nat, weak1: bool, first: seq<byte>, weak2: bool, second: seq<byte>)
    requires WellFormed(b, base) && NamesReadable(CommandList(b, base)) && 0 !in first && 0 !in second
      && first != second
    requires FirstLoad(CommandList(b, base), first).None? && FirstLoad(CommandList(b, base), second).None?
    requires AreaEnd(b, base) + DylibSize(first) + DylibSize(second) <= |b|
    requires HEADER_SIZE + SizeOfCmds(b, base) + DylibSize(first) + DylibSize(second) < TWO32
    ensures CanInject(b, base, weak1, first)
    ensures CanInject(AfterInject(b, base, weak1, first), base, weak2, second)
    ensures var r := AfterInject(AfterInject(b, base, weak1, first), base, weak2, second);
            var at, end := AreaEnd(b, base) + DylibSize(first), AreaEnd(b, base) + DylibSize(first) + DylibSize(second);
            && r[at..end] == DylibCommand(weak2, second)
            && forall i :: end <= i < |b| ==> r[i] == b[i]
  {
    hide U32At, CString, Flatten, Walks, Commands, CommandList, AfterInject, DylibCommand;
    var c1 := DylibCommand(weak1, first);
    AbsentFits(b, base, weak1, first);
    InjectAbsentAppends(b, base, weak1, first);
    InjectKeepsArea(b, base, weak1, first);
    var mid := AfterInject(b, base, weak1, first);
    StillAbsent(CommandList(b, base), c1, first, second);
    AbsentFits(mid, base, weak2, second);
    InjectAbsentAppends(mid, base, weak2, second);
  }

  /** The counter is not lowered by an injection, so the second test compares with the old gap. Two accepted
      injections leave the section alone exactly when their commands together fit the counter, or the bytes
      written past it happen to be there already. */
  lemma TwoInjectionsKeepText(a: ZArchO, weak1: bool, first: seq<byte>, weak2: bool, second: seq<byte>)
    requires a.Parsed() && 0 < a.loadCommandsFreeSpace && first != second
    requires Accepts(a, first) && Accepts(a, second) && a.InFile(DylibSize(first) + DylibSize(second))
    ensures CanInject(a.file[..], a.off, weak1, first)
    ensures CanInject(AfterInject(a.file[..], a.off, weak1, first), a.off, weak2, second)
    ensures var b := a.file[..];
            var r := AfterInject(AfterInject(b, a.off, weak1, first), a.off, weak2, second);
            var both, gap := DylibSize(first) + DylibSize(second), a.loadCommandsFreeSpace;
            && |DylibCommand(weak2, second)| == DylibSize(second)
            && (SameFrom(b, r, TextStart(a)) <==>
                  || both <= gap
                  || b[TextStart(a)..TextStart(a) + (both - gap)]
                    == DylibCommand(weak2, second)[gap - DylibSize(first)..])
  {
    hide U32At, CString, Flatten, Walks, Commands, CommandList, AllParsable, AfterInject, DylibCommand, Found,
         NamesReadable, SameFrom, DylibSize, FirstLoad, WellFormed, SizeOfCmds;
    var b := a.file[..];
    TwoAppends(b, a.off, weak1, first, weak2, second);
    var r := AfterInject(AfterInject(b, a.off, weak1, first), a.off, weak2, second);
    WrittenPast(b, r, AreaEnd(b, a.off) + DylibSize(first), DylibCommand(weak2, second), TextStart(a));
  }

  lemma StillAbsent(cs: seq<Command>, c: Command, first: seq<byte>, second: seq<byte>)
    requires FirstLoad(cs, second).None? && SelfSized(c) && NameInside(c) && DylibName(c) == first != second
    ensures FirstLoad(cs + [c], second).None?
  {
    hide U32At, CString;
  }

  /** A run `c` written at `at` changes nothing from `from` on exactly when it ends before, or was there. */
  lemma WrittenPast(b: seq<byte>, r: seq<byte>, at: nat, c: seq<byte>, from: nat)
    requires |r| == |b| && at <= from && at + |c| <= |b| && r[at..at + |c|] == c
    requires forall i :: at + |c| <= i < |b| ==> r[i] == b[i]
    ensures SameFrom(b, r, from) <==> at + |c| <= from || b[from..at + |c|] == c[from - at..]
  {
    if from < at + |c| {
      SliceOfSlice(r, at, at + |c|, from - at, |c|);
      assert r[from..at + |c|] == c[from - at..];
      if b[from..at + |c|] == c[from - at..] {
        forall i | from <= i < |b| ensures r[i] == b[i] {
          if i < at + |c| {
            assert r[i] == r[from..at + |c|][i - from] == b[from..at + |c|][i - from];
          }
        }
      }
    }
  }

  /** The gap holds a new signature command, or the bytes written past it are there already. */
  predicate GapHolds(s: seq<byte>, gap: nat, c: seq<byte>)
    requires Sliced(s)
  {
    |c| <= gap || (HeadEnd(s) + |c| <= |s| && s[HeadEnd(s) + gap..HeadEnd(s) + |c|] == c[gap..])
  }

  /** Lengthening a slice leaves the section alone exactly when the slice has a signature command, or the gap
      holds the 16 bytes of a new one, where the code asks for 4. */
  lemma GrowthKeepsText(s: seq<byte>)
    requires CanGrow(s)
    ensures |s| <= |GrownSlice(s)|
    ensures SameFrom(s, GrownSlice(s)[..|s|], HeadEnd(s) + FreeSpace(Cmds(s), HeadEnd(s))) <==>
              HasSignature(s) || GapHolds(s, FreeSpace(Cmds(s), HeadEnd(s)), NewSignature(s))
  {
    hide U32At, Flatten, Walks, Commands, CommandList, AllParsable, FreeSpace, Rebuilt, NewLength, LengthInRange, Last,
         CodeSignatureCommand, Stretched, Sized;
    LongTail(s);
    NewLengthRoom(CodeLen(s));
    GrownRoom(s);
    var b, cs' := Rebuilt(s, 0, GrownList(s)), GrownList(s);
    assert GrownSlice(s)[..|s|] == b;
    forall i | HEADER_SIZE + |Flatten(cs')| <= i < |s| ensures b[i] == s[i] {
      RebuiltBytes(s, 0, cs', i);
    }
    if !HasSignature(s) {
      NewCommandLast(s, cs');
      WrittenPast(s, b, HeadEnd(s), NewSignature(s), HeadEnd(s) + FreeSpace(Cmds(s), HeadEnd(s)));
    }
  }

  /** The signature command that growing adds to a slice without one. */
  function NewSignature(s: seq<byte>): (c: Command)
    requires CanGrow(s)
    ensures |c| == CODESIGNATURE_SIZE
  {
    NewLengthRoom(CodeLen(s));
    CodeSignatureCommand(CodeLen(s), NewLength(CodeLen(s)) - CodeLen(s))
  }

  /** It lies behind the old commands. */
  lemma NewCommandLast(s: seq<byte>, cs': seq<Command>)
    requires CanGrow(s) && !HasSignature(s) && cs' == GrownList(s)
    requires WellFormed(s, 0) && AreaEnd(s, 0) <= |s| && LoadCommands.Fits(s, 0, cs')
    ensures HeadEnd(s) + CODESIGNATURE_SIZE <= |s|
    ensures Rebuilt(s, 0, cs')[HeadEnd(s)..HeadEnd(s) + CODESIGNATURE_SIZE] == NewSignature(s)
  {
    hide U32At, Flatten, Walks, Commands, AllParsable, FreeSpace, Rebuilt, NewLength, LengthInRange, Last,
         CodeSignatureCommand, Stretched, Sized;
    var cs := Cmds(s);
    NewLengthRoom(CodeLen(s));
    GrownIsConsistent(cs, CodeLen(s), |s|);
    ParsableSized(cs');
    PickedShapes(cs);
    SameLengths(cs, cs'[..|cs|]);
    assert cs' == cs'[..|cs|] + [NewSignature(s)];
    CommandsFlatten(s, HEADER_SIZE, NCmds(s, 0), AreaEnd(s, 0));
    LastCommandAt(s, 0, cs'[..|cs|], NewSignature(s));
  }

  /** A command behind as many bytes of others as the area had lies where the area ended. */
  lemma LastCommandAt(b: seq<byte>, base: nat, cs: seq<Command>, c: Command)
    requires WellFormed(b, base) && LoadCommands.Fits(b, base, cs + [c]) && AllSelfSized(cs + [c])
    requires |Flatten(cs)| == SizeOfCmds(b, base)
    ensures AreaEnd(b, base) + |c| <= |b|
    ensures Rebuilt(b, base, cs + [c])[AreaEnd(b, base)..AreaEnd(b, base) + |c|] == c
  {
    hide U32At, Flatten, Walks, Commands, Rebuilt;
    var r := Rebuilt(b, base, cs + [c]);
    RebuiltWalks(b, base, cs + [c]);
    RebuiltCounts(b, base, cs + [c]);
    assert (cs + [c])[..|cs|] == cs;
    CommandBytes(r, base, |cs|);
  }

  // ---------------------------------------------------------------- a slice where the second injection goes wrong

  /** A `__TEXT` segment with one section, `__text`, at byte 216: 32 bytes behind the commands. */
  function TextSegment(): (c: Command)
    ensures |c| == 152
  {
    Segment(TEXT, 1, TEXT_SECTION + Zeros(42) + LE32(216) + Zeros(28))
  }

  /** Its commands, 32 bytes of nothing, and code that starts with a return instruction. */
  function SmallLibrary(): (b: seq<byte>)
    ensures |b| == 248 && b[216] == 0xc3
  {
    FlattenOne(TextSegment());
    Image(6, [TextSegment()]) + Zeros(32) + [0xc3] + Zeros(31)
  }

  lemma TextSegmentReads()
    ensures var c := TextSegment();
            SelfSized(c) && SegmentNamed(c, TEXT) && NSects(c) == 1 && TextSection(c, 0) == Some(216)
  {
    hide U32At, LE32, Zeros, CString, Segment;
    var c, section := TextSegment(), TEXT_SECTION + Zeros(42) + LE32(216) + Zeros(28);
    SegmentReads(TEXT, 1, section);
    SectionInside(c, section);
    CStringIs(c, 72, TEXT_SECTION);
    LE32RoundTrip(c, 120, 216);
  }

  lemma SectionInside(c: Command, section: seq<byte>)
    requires section == TEXT_SECTION + Zeros(42) + LE32(216) + Zeros(28) && |c| == 152 && c[SEGMENT_SIZE..] == section
    ensures c[72..78] == TEXT_SECTION && c[78] == 0 && c[120..124] == LE32(216)
  {
    hide LE32;
    SliceOfSlice(c, 72, 152, 0, 6);
    SliceOfSlice(c, 72, 152, 48, 52);
    assert section[0..6] == TEXT_SECTION && section[6] == 0 && section[48..52] == LE32(216);
    assert c[78] == c[72..][6];
  }

  lemma SmallLibraryParses()
    ensures var b := SmallLibrary();
            && WellFormed(b, 0) && CommandList(b, 0) == [TextSegment()] && SizeOfCmds(b, 0) == 152
            && FreeSpace([TextSegment()], 184) == 32 && NamesReadable([TextSegment()])
  {
    hide U32At, LE32, Flatten, CString, TextSegment;
    var cs, none: seq<Command> := [TextSegment()], [];
    TextSegmentReads();
    FlattenOne(TextSegment());
    assert Image(6, cs) <= SmallLibrary();
    ImageParses(SmallLibrary(), 6, cs);
    assert cs[..0] == none;
    assert SectionSpace(TextSegment(), 1, 184, 0) == 32;
  }

  /** Both injections are let through, and the second writes over the first byte of the code. */
  lemma SecondInjectionOverwrites(a: ZArchO)
    requires a.off == 0 && a.length == 248 && a.file[..] == SmallLibrary() && a.Parsed()
    ensures var first, second := [0x61], [0x62]; // "a" and "b"
            && TextStart(a) == 216 && Accepts(a, first) && Accepts(a, second)
            && CanInject(a.file[..], 0, false, first)
            && CanInject(AfterInject(a.file[..], 0, false, first), 0, false, second)
            && AfterInject(AfterInject(a.file[..], 0, false, first), 0, false, second)[216] != a.file[216]
  {
    hide U32At, LE32, Flatten, CString, TextSegment, SmallLibrary, Walks, Commands, AfterInject, DylibCommand,
         CommandList, FreeSpace;
    SmallLibraryParses();
    FoundPlaces(a.Cmds(), 0, 248, a.HeadEnd());
    NoLoads([0x61]);
    NoLoads([0x62]);
    SecondCommandOverwrites();
  }

  lemma SecondCommandOverwrites()
    ensures var b, first, second := SmallLibrary(), [0x61], [0x62];
            && CanInject(b, 0, false, first) && CanInject(AfterInject(b, 0, false, first), 0, false, second)
            && AfterInject(AfterInject(b, 0, false, first), 0, false, second)[216] != b[216]
  {
    hide U32At, LE32, Flatten, CString, TextSegment, SmallLibrary, Walks, Commands, AfterInject, DylibCommand,
         CommandList;
    var b, first, second := SmallLibrary(), [0x61], [0x62];
    SmallLibraryParses();
    NoLoads(first);
    NoLoads(second);
    TwoAppends(b, 0, false, first, false, second);
    FirstByteOfCommand(second);
    var r := AfterInject(AfterInject(b, 0, false, first), 0, false, second);
    assert r[216] == r[216..248][0];
  }

  lemma NoLoads(name: seq<byte>)
    ensures FirstLoad([TextSegment()], name).None?
  {
    hide U32At, CString, TextSegment;
    TextSegmentReads();
  }

  lemma FirstByteOfCommand(name: seq<byte>)
    requires |name| + DYLIB_COMMAND_SIZE + 8 < TWO32
    ensures |DylibCommand(false, name)| > 0 && DylibCommand(false, name)[0] == 0x0c
  {
  }
}
