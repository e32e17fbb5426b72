/** Small slices put together command by command, for the examples that show what can go wrong. */
module Images {
  import opened Bytes
  import opened LoadCommands
  import opened CommandEdits
  import opened SliceFacts

  /** The header of a 64-bit slice with the commands `cs`. */
  function Header(fileType: u32, cs: seq<Command>): (h: seq<byte>)
    requires |cs| < TWO32 && |Flatten(cs)| < TWO32
    ensures |h| == HEADER_SIZE
  {
    LE32(MH_MAGIC_64) + Zeros(8) + LE32(fileType) + Counts(cs) + Zeros(8)
  }

  /** Header and commands. */
  function Image(fileType: u32, cs: seq<Command>): seq<byte>
    requires |cs| < TWO32 && |Flatten(cs)| < TWO32
  {
    Header(fileType, cs) + Flatten(cs)
  }

  /** Whatever starts with an image parses to its commands. */
  lemma ImageParses(b: seq<byte>, fileType: u32, cs: seq<Command>)
    requires AllSelfSized(cs) && |cs| < TWO32 && |Flatten(cs)| < TWO32 && Image(fileType, cs) <= b
    ensures WellFormed(b, 0) && CommandList(b, 0) == cs && SizeOfCmds(b, 0) == |Flatten(cs)|
    ensures U32At(b, 0) == MH_MAGIC_64 && U32At(b, 12) == fileType
  {
    hide U32At, LE32, Flatten, Zeros;
    var h := Header(fileType, cs);
    assert b[..HEADER_SIZE] == h && b[HEADER_SIZE..HEADER_SIZE + |Flatten(cs)|] == Flatten(cs);
    HeaderWord(b, h, 0, MH_MAGIC_64);
    HeaderWord(b, h, 12, fileType);
    assert Counts(cs)[0..4] == LE32(|cs|) && Counts(cs)[4..8] == LE32(|Flatten(cs)|);
    HeaderWord(b, h, 16, |cs|);
    HeaderWord(b, h, 20, |Flatten(cs)|);
    FlattenWalks(b, HEADER_SIZE, cs);
  }

  lemma HeaderWord(b: seq<byte>, h: seq<byte>, at: nat, v: u32)
    requires h <= b && at + 4 <= |h| && h[at..at + 4] == LE32(v)
    ensures U32At(b, at) == v
  {
    hide U32At, LE32;
    assert b[at..at + 4] == h[at..at + 4];
    LE32RoundTrip(b, at, v);
  }

  /** A segment command: its name, zeros for addresses and sizes, and its sections. */
  function Segment(name: seq<byte>, nSects: u32, sections: seq<byte>): (c: Command)
    requires |name| < 16 && SEGMENT_SIZE + |sections| < TWO32
    ensures |c| == SEGMENT_SIZE + |sections|
  {
    LE32(LC_SEGMENT_64) + LE32(SEGMENT_SIZE + |sections|) + name + Zeros(16 - |name|) + Zeros(40) + LE32(nSects)
      + LE32(0)
    + sections
  }

  lemma SegmentReads(name: seq<byte>, nSects: u32, sections: seq<byte>)
    requires |name| < 16 && 0 !in name && |sections| == SECTION_SIZE * nSects && SEGMENT_SIZE + |sections| < TWO32
    ensures var c := Segment(name, nSects, sections);
            SelfSized(c) && SegmentNamed(c, name) && NSects(c) == nSects && c[SEGMENT_SIZE..] == sections
  {
    hide U32At, LE32, Zeros, CString;
    var c := Segment(name, nSects, sections);
    SegmentParts(name, nSects, sections);
    LE32RoundTrip(c, 0, LC_SEGMENT_64);
    LE32RoundTrip(c, 4, SEGMENT_SIZE + |sections|);
    LE32RoundTrip(c, 64, nSects);
    CStringIs(c, 8, name);
  }

  lemma SegmentParts(name: seq<byte>, nSects: u32, sections: seq<byte>)
    requires |name| < 16 && SEGMENT_SIZE + |sections| < TWO32
    ensures var c := Segment(name, nSects, sections);
            && c[0..4] == LE32(LC_SEGMENT_64) && c[4..8] == LE32(SEGMENT_SIZE + |sections|)
            && c[8..8 + |name|] == name && c[8 + |name|] == 0
            && c[64..68] == LE32(nSects) && c[SEGMENT_SIZE..] == sections
  {
    hide LE32;
  }

  lemma FlattenTwo(a: Command, b: Command)
    ensures Flatten([a, b]) == a + b
  {
    FlattenOne(b);
    assert [a, b][1..] == [b];
  }
}
