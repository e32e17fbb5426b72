/** What a parse of a slice's load commands finds, told from the bytes of the commands: kinds, names and fields at
    the places the file format gives them. */
module ParseMeaning {
  import opened Bytes
  import opened LoadCommands
  import opened CommandEdits
  import opened SliceFacts

  /** A 64-bit segment of a name. */
  predicate Segment(c: Command, name: seq<byte>) {
    72 <= |c| && U32At(c, 0) == 0x19 && CString(c, 8) == name
  }

  predicate SignatureCommand(c: Command) {
    16 <= |c| && U32At(c, 0) == 0x1d
  }

  predicate LastSegment(cs: seq<Command>, k: nat, name: seq<byte>) {
    k < |cs| && Segment(cs[k], name) && forall j :: k < j < |cs| ==> !Segment(cs[j], name)
  }

  predicate LastSignature(cs: seq<Command>, k: nat) {
    k < |cs| && SignatureCommand(cs[k]) && forall j :: k < j < |cs| ==> !SignatureCommand(cs[j])
  }

  /** Section `j` is called `__text`, belongs to `__TEXT`, and starts behind the commands. */
  predicate TextBehind(c: Command, headEnd: nat, j: nat) {
    && Segment(c, Ascii("__TEXT"))
    && j < U32At(c, 64) && 72 + 80 * j + 80 <= |c|
    && CString(c, 72 + 80 * j) == Ascii("__text")
    && headEnd < U32At(c, 72 + 80 * j + 48)
  }

  /** Among its first `n` sections command `c` has none of that kind. */
  predicate NoTextBehind(c: Command, headEnd: nat, n: nat) {
    forall j :: 0 <= j < n ==> !TextBehind(c, headEnd, j)
  }

  /** The last of them is section `j`, which starts `gap` bytes behind the commands. */
  predicate LastTextBehind(c: Command, headEnd: nat, n: nat, j: nat, gap: nat) {
    && j < n && TextBehind(c, headEnd, j) && (forall i :: j < i < n ==> !TextBehind(c, headEnd, i))
    && 72 + 80 * j + 52 <= |c| && U32At(c, 72 + 80 * j + 48) == headEnd + gap
  }

  ghost predicate EndsInText(c: Command, headEnd: nat, n: nat, gap: nat) {
    exists j: nat :: LastTextBehind(c, headEnd, n, j, gap)
  }

  /** Command `k` has the last `__text` section of the slice that starts behind the commands. */
  ghost predicate LastText(cs: seq<Command>, headEnd: nat, k: nat, gap: nat) {
    && k < |cs| && EndsInText(cs[k], headEnd, |cs[k]|, gap)
    && forall i :: k < i < |cs| ==> NoTextBehind(cs[i], headEnd, |cs[i]|)
  }

  /** Where command `k` starts in the file. */
  function Start(cs: seq<Command>, base: nat, k: nat): nat
    requires k <= |cs|
  {
    base + 32 + |Flatten(cs[..k])|
  }

  // ---------------------------------------------------------------- the findings

  ghost predicate FindsSegments(cs: seq<Command>, base: nat, f: Findings) {
    && (match f.linkEdit
        case None => forall c :: c in cs ==> !Segment(c, Ascii("__LINKEDIT"))
        case Some(p) => exists k: nat :: LastSegment(cs, k, Ascii("__LINKEDIT")) && p == Start(cs, base, k))
    && TextMemory(cs, f.execLimit)
  }

  /** The memory size of the last `__TEXT` segment, zero without one. */
  ghost predicate TextMemory(cs: seq<Command>, limit: u64) {
    || ((forall c :: c in cs ==> !Segment(c, Ascii("__TEXT"))) && limit == 0)
    || exists k: nat :: LastSegment(cs, k, Ascii("__TEXT")) && limit == U64At(cs[k], 32)
  }

  /** Without a signature command the code is taken to be as long as the slice, rounded up to a multiple of 16, which
      wraps to zero at the end of the 32-bit range. */
  ghost predicate FindsSignature(cs: seq<Command>, base: nat, length: u32, f: Findings) {
    match f.codeSign
    case None =>
      && (forall c :: c in cs ==> !SignatureCommand(c)) && f.signBase == None
      && f.codeLength % 16 == 0
      && (length <= f.codeLength < length + 16 || (f.codeLength == 0 && 0xffff_fff0 < length))
    case Some(p) =>
      exists k: nat ::
        && LastSignature(cs, k) && p == Start(cs, base, k)
        && f.codeLength == U32At(cs[k], 8) && f.signBase == Some(base + f.codeLength)
  }

  ghost predicate FindsText(cs: seq<Command>, headEnd: nat, freeSpace: nat) {
    || ((forall k :: 0 <= k < |cs| ==> NoTextBehind(cs[k], headEnd, |cs[k]|)) && freeSpace == 0)
    || exists k: nat :: LastText(cs, headEnd, k, freeSpace)
  }

  // ---------------------------------------------------------------- why

  lemma Names()
    ensures TEXT == Ascii("__TEXT") && LINKEDIT == Ascii("__LINKEDIT") && TEXT_SECTION == Ascii("__text")
  {
    var a, b, c := "__TEXT", "__LINKEDIT", "__text";
    assert |a| == 6 && |b| == 10 && |c| == 6;
  }

  lemma SegmentIs(c: Command, name: seq<byte>)
    requires Parsable(c)
    ensures SegmentNamed(c, name) <==> Segment(c, name)
    ensures IsCodeSignature(c) <==> SignatureCommand(c)
  {
    hide U32At, CString;
  }

  lemma TextBehindIs(c: Command, headEnd: nat, j: nat)
    requires Parsable(c)
    ensures SegmentNamed(c, TEXT) && j < NSects(c) ==>
      72 + 80 * j + 80 <= |c| && j < |c|
      && (TextBehind(c, headEnd, j) <==> TextSection(c, j).Some? && headEnd < TextSection(c, j).value)
    ensures !SegmentNamed(c, TEXT) || NSects(c) <= j ==> !TextBehind(c, headEnd, j)
  {
    hide U32At, CString;
    Names();
    SegmentIs(c, TEXT);
    if SegmentNamed(c, TEXT) && j < NSects(c) {
      assert 80 * j + 80 <= 80 * NSects(c);
    }
  }

  lemma {:induction false} SpaceOfSections(c: Command, n: nat, headEnd: nat, before: u32)
    requires Parsable(c) && SegmentNamed(c, TEXT) && n <= NSects(c)
    ensures var g := SectionSpace(c, n, headEnd, before);
            (NoTextBehind(c, headEnd, n) && g == before) || EndsInText(c, headEnd, n, g)
  {
    hide U32At, CString, TextBehind, Parsable, SegmentNamed, TextSection;
    if n > 0 {
      SpaceOfSections(c, n - 1, headEnd, before);
      TextBehindIs(c, headEnd, n - 1);
      var g := SectionSpace(c, n, headEnd, before);
      if TextBehind(c, headEnd, n - 1) {
        SectionOffset(c, n - 1);
        assert LastTextBehind(c, headEnd, n, n - 1, g);
      } else if EndsInText(c, headEnd, n - 1, g) {
        var j: nat :| LastTextBehind(c, headEnd, n - 1, j, g);
        assert LastTextBehind(c, headEnd, n, j, g);
      }
    }
  }

  lemma SectionOffset(c: Command, j: nat)
    requires Parsable(c) && SegmentNamed(c, TEXT) && j < NSects(c) && TextSection(c, j).Some?
    ensures 72 + 80 * j + 52 <= |c| && U32At(c, 72 + 80 * j + 48) == TextSection(c, j).value
  {
    hide U32At, CString;
    assert 80 * j + 80 <= 80 * NSects(c);
  }

  /** What one more command makes of the counter. */
  lemma SpaceStep(c: Command, before: u32, headEnd: nat)
    requires Parsable(c)
    ensures var after := if SegmentNamed(c, TEXT) then SectionSpace(c, NSects(c), headEnd, before) else before;
            (NoTextBehind(c, headEnd, |c|) && after == before) || EndsInText(c, headEnd, |c|, after)
  {
    hide U32At, CString, TextBehind, SectionSpace;
    if SegmentNamed(c, TEXT) {
      SpaceOfSections(c, NSects(c), headEnd, before);
      forall j: nat | NSects(c) <= j ensures !TextBehind(c, headEnd, j) {
        TextBehindIs(c, headEnd, j);
      }
      var g := SectionSpace(c, NSects(c), headEnd, before);
      if EndsInText(c, headEnd, NSects(c), g) {
        var j: nat :| LastTextBehind(c, headEnd, NSects(c), j, g);
        assert LastTextBehind(c, headEnd, |c|, j, g);
      }
    } else {
      forall j: nat ensures !TextBehind(c, headEnd, j) {
        TextBehindIs(c, headEnd, j);
      }
    }
  }

  lemma {:induction false} SpaceOfCommands(cs: seq<Command>, headEnd: nat)
    requires AllParsable(cs)
    ensures var g := FreeSpace(cs, headEnd);
            || ((forall k :: 0 <= k < |cs| ==> NoTextBehind(cs[k], headEnd, |cs[k]|)) && g == 0)
            || exists k: nat :: LastText(cs, headEnd, k, g)
  {
    hide U32At, CString, NoTextBehind, EndsInText, Parsable, SectionSpace, SegmentNamed;
    if cs != [] {
      var c, front, g := cs[|cs| - 1], cs[..|cs| - 1], FreeSpace(cs, headEnd);
      SpaceOfCommands(front, headEnd);
      SpaceStep(c, FreeSpace(front, headEnd), headEnd);
      if EndsInText(c, headEnd, |c|, g) {
        assert LastText(cs, headEnd, |cs| - 1, g);
      } else if k: nat :| LastText(front, headEnd, k, g) {
        assert LastText(cs, headEnd, k, g);
      }
    }
  }

  /** What the parse finds: the last `__LINKEDIT` segment, the last signature command with its offset, the memory size
      of the last `__TEXT` segment, and how far behind the commands the last `__text` section that starts behind them
      starts; and what it settles for when there is none. */
  lemma FoundMeans(cs: seq<Command>, base: nat, length: u32, headEnd: nat)
    requires AllParsable(cs)
    ensures FindsSegments(cs, base, Found(cs, base, length, headEnd))
    ensures FindsSignature(cs, base, length, Found(cs, base, length, headEnd))
    ensures FindsText(cs, headEnd, Found(cs, base, length, headEnd).freeSpace)
  {
    hide U32At, U64At, CString, FreeSpace, Parsable, FindsSegments, FindsSignature, NoTextBehind, LastText, Last,
         CodeLengthOf, ExecLimit;
    SegmentsFound(cs, base, length, headEnd);
    SignatureFound(cs, base, length, headEnd);
    SpaceOfCommands(cs, headEnd);
  }

  lemma SegmentsFound(cs: seq<Command>, base: nat, length: u32, headEnd: nat)
    requires AllParsable(cs)
    ensures FindsSegments(cs, base, Found(cs, base, length, headEnd))
  {
    hide U32At, U64At, CString, Segment, SignatureCommand, FreeSpace, Flatten, Ascii, Parsable, SegmentNamed,
         IsCodeSignature, CodeLengthOf;
    Names();
    AllShapes(cs);
    var k := Last(cs, IsLinkEdit);
    assert k.Some? ==> LastSegment(cs, k.value, Ascii("__LINKEDIT"));
    k := Last(cs, IsText);
    assert k.Some? ==> LastSegment(cs, k.value, Ascii("__TEXT"));
  }

  lemma SignatureFound(cs: seq<Command>, base: nat, length: u32, headEnd: nat)
    requires AllParsable(cs)
    ensures FindsSignature(cs, base, length, Found(cs, base, length, headEnd))
  {
    hide U32At, U64At, CString, Segment, SignatureCommand, FreeSpace, Flatten, Parsable, SegmentNamed, IsCodeSignature,
         RoundUp16, ExecLimit;
    AllShapes(cs);
    var k := Last(cs, IsCodeSignature);
    assert k.Some? ==> LastSignature(cs, k.value);
  }

  lemma AllShapes(cs: seq<Command>)
    requires AllParsable(cs)
    ensures forall c :: c in cs ==> (IsLinkEdit(c) <==> Segment(c, LINKEDIT)) && (IsText(c) <==> Segment(c, TEXT))
    ensures forall c :: c in cs ==> (IsCodeSignature(c) <==> SignatureCommand(c))
  {
    hide Segment, SignatureCommand, SegmentNamed, IsCodeSignature, Parsable;
    forall c | c in cs
      ensures (IsLinkEdit(c) <==> Segment(c, LINKEDIT)) && (IsText(c) <==> Segment(c, TEXT))
      ensures IsCodeSignature(c) <==> SignatureCommand(c)
    {
      SegmentIs(c, LINKEDIT);
      SegmentIs(c, TEXT);
    }
  }
}
