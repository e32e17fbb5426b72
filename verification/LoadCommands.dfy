/** The load-command area of one 64-bit Mach-O slice, in native byte order.

    The slice starts at `base` inside a larger buffer. Its header keeps the number of commands at
    byte 16 and their total size at byte 20; the commands follow from byte 32. Every edit of the area
    is one `Rebuilt`: the buffer whose area holds a given list of commands. */
module LoadCommands {
  import opened Bytes

  const HEADER_SIZE := 32
  const LC_SEGMENT_64: u32 := 0x19
  const LC_LOAD_DYLIB: u32 := 0xC
  const LC_LOAD_WEAK_DYLIB: u32 := 0x8000_0018
  const LC_CODE_SIGNATURE: u32 := 0x1D
  const DYLIB_COMMAND_SIZE := 24

  /** The bytes of one load command, `cmd` and `cmdsize` included. */
  type Command = seq<byte>

  // ---------------------------------------------------------------- reading

  predicate HasHeader(b: seq<byte>, base: nat) {
    base + HEADER_SIZE <= |b|
  }

  function NCmds(b: seq<byte>, base: nat): u32
    requires HasHeader(b, base)
  {
    U32At(b, base + 16)
  }

  function SizeOfCmds(b: seq<byte>, base: nat): u32
    requires HasHeader(b, base)
  {
    U32At(b, base + 20)
  }

  function AreaEnd(b: seq<byte>, base: nat): nat
    requires HasHeader(b, base)
  {
    base + HEADER_SIZE + SizeOfCmds(b, base)
  }

  /** Exactly `n` commands follow one another from `pos`, the last one stopping at `end`. */
  predicate Walks(b: seq<byte>, pos: nat, n: nat, end: nat)
    requires end <= |b|
    decreases n
  {
    if n == 0 then pos == end
    else pos + 8 <= end && 8 <= U32At(b, pos + 4) <= end - pos && Walks(b, pos + U32At(b, pos + 4), n - 1, end)
  }

  function Commands(b: seq<byte>, pos: nat, n: nat, end: nat): (cs: seq<Command>)
    requires end <= |b| && Walks(b, pos, n, end)
    ensures |cs| == n
    decreases n
  {
    if n == 0 then []
    else [b[pos..pos + U32At(b, pos + 4)]] + Commands(b, pos + U32At(b, pos + 4), n - 1, end)
  }

  predicate WellFormed(b: seq<byte>, base: nat) {
    && HasHeader(b, base)
    && AreaEnd(b, base) <= |b|
    && Walks(b, base + HEADER_SIZE, NCmds(b, base), AreaEnd(b, base))
  }

  /** What a loader walking the slice sees. */
  function CommandList(b: seq<byte>, base: nat): (cs: seq<Command>)
    requires WellFormed(b, base)
    ensures |cs| == NCmds(b, base)
  {
    Commands(b, base + HEADER_SIZE, NCmds(b, base), AreaEnd(b, base))
  }

  /** `cmdsize` tells the truth about the command's own length. */
  predicate SelfSized(c: Command) {
    8 <= |c| && U32At(c, 4) == |c|
  }

  predicate AllSelfSized(cs: seq<Command>) {
    forall c :: c in cs ==> SelfSized(c)
  }

  lemma {:induction false} CommandsFlatten(b: seq<byte>, pos: nat, n: nat, end: nat)
    requires end <= |b| && Walks(b, pos, n, end)
    ensures pos <= end
    ensures Flatten(Commands(b, pos, n, end)) == b[pos..end]
    ensures AllSelfSized(Commands(b, pos, n, end))
    decreases n
  {
    hide U32At, AllSelfSized;
    if n == 0 {
      SizedNone();
    } else {
      var size: nat := U32At(b, pos + 4);
      var c, rest := b[pos..pos + size], Commands(b, pos + size, n - 1, end);
      SliceOfSlice(b, pos, pos + size, 4, 8);
      SameU32(c, 4, b, pos + 4);
      CommandsFlatten(b, pos + size, n - 1, end);
      assert b[pos..end] == c + b[pos + size..end];
      assert ([c] + rest)[1..] == rest;
      SizedCons(c, rest);
    }
  }

  lemma SizedNone()
    ensures AllSelfSized([])
  {
  }

  lemma SizedCons(c: Command, rest: seq<Command>)
    requires SelfSized(c) && AllSelfSized(rest)
    ensures AllSelfSized([c] + rest)
  {
    hide U32At;
  }

  /** Commands laid end to end are found again by walking them. */
  lemma {:induction false} FlattenWalks(b: seq<byte>, pos: nat, cs: seq<Command>)
    requires AllSelfSized(cs)
    requires pos + |Flatten(cs)| <= |b| && b[pos..pos + |Flatten(cs)|] == Flatten(cs)
    ensures Walks(b, pos, |cs|, pos + |Flatten(cs)|)
    ensures Commands(b, pos, |cs|, pos + |Flatten(cs)|) == cs
    decreases |cs|
  {
    hide U32At;
    if cs == [] {
    } else {
      var c, end := cs[0], pos + |Flatten(cs)|;
      FirstOfFlatten(b, pos, cs);
      FlattenWalks(b, pos + |c|, cs[1..]);
      WalksOneMore(b, pos, |cs| - 1, end, c);
    }
  }

  lemma FirstOfFlatten(b: seq<byte>, pos: nat, cs: seq<Command>)
    requires cs != [] && SelfSized(cs[0])
    requires pos + |Flatten(cs)| <= |b| && b[pos..pos + |Flatten(cs)|] == Flatten(cs)
    ensures var c, rest := cs[0], Flatten(cs[1..]);
            && |Flatten(cs)| == |c| + |rest|
            && b[pos..pos + |c|] == c
            && U32At(b, pos + 4) == |c|
            && b[pos + |c|..pos + |c| + |rest|] == rest
  {
    hide U32At;
    var c := cs[0];
    Halves(b, pos, c, Flatten(cs[1..]));
    SliceOfSlice(b, pos, pos + |c|, 4, 8);
    SameU32(b, pos + 4, c, 4);
  }

  lemma Halves(b: seq<byte>, pos: nat, c: seq<byte>, rest: seq<byte>)
    requires pos + |c| + |rest| <= |b| && b[pos..pos + |c| + |rest|] == c + rest
    ensures b[pos..pos + |c|] == c && b[pos + |c|..pos + |c| + |rest|] == rest
  {
    SliceOfSlice(b, pos, pos + |c| + |rest|, 0, |c|);
    SliceOfSlice(b, pos, pos + |c| + |rest|, |c|, |c| + |rest|);
    assert (c + rest)[..|c|] == c && (c + rest)[|c|..] == rest;
  }

  lemma WalksOneMore(b: seq<byte>, pos: nat, n: nat, end: nat, c: Command)
    requires SelfSized(c) && pos + |c| <= end <= |b| && b[pos..pos + |c|] == c && U32At(b, pos + 4) == |c|
    requires Walks(b, pos + |c|, n, end)
    ensures Walks(b, pos, n + 1, end) && Commands(b, pos, n + 1, end) == [c] + Commands(b, pos + |c|, n, end)
  {
    hide U32At;
    assert 8 <= |c|;
    assert Walks(b, pos, n + 1, end);
  }

  // ---------------------------------------------------------------- editing

  /** The counts of a list of commands fit the header's 32-bit fields and the buffer from `base`. */
  predicate Fits(b: seq<byte>, base: nat, cs: seq<Command>) {
    && base + HEADER_SIZE + |Flatten(cs)| <= |b|
    && |cs| < TWO32
    && |Flatten(cs)| < TWO32
  }

  function Counts(cs: seq<Command>): (s: seq<byte>)
    requires |cs| < TWO32 && |Flatten(cs)| < TWO32
    ensures |s| == 8
  {
    LE32(|cs|) + LE32(|Flatten(cs)|)
  }

  /** `b` with the old command area zeroed, the commands `cs` written from its start and the header's
      two counts set to match. Nothing else changes. */
  function Rebuilt(b: seq<byte>, base: nat, cs: seq<Command>): (r: seq<byte>)
    requires HasHeader(b, base) && AreaEnd(b, base) <= |b| && Fits(b, base, cs)
    ensures |r| == |b|
  {
    var cleared := Splice(b, base + HEADER_SIZE, Zeros(SizeOfCmds(b, base)));
    Splice(Splice(cleared, base + HEADER_SIZE, Flatten(cs)), base + 16, Counts(cs))
  }

  lemma RebuiltCounts(b: seq<byte>, base: nat, cs: seq<Command>)
    requires HasHeader(b, base) && AreaEnd(b, base) <= |b| && Fits(b, base, cs)
    ensures NCmds(Rebuilt(b, base, cs), base) == |cs|
    ensures SizeOfCmds(Rebuilt(b, base, cs), base) == |Flatten(cs)|
  {
    hide U32At, LE32, Flatten;
    var r := Rebuilt(b, base, cs);
    SpliceThere(Splice(Splice(b, base + HEADER_SIZE, Zeros(SizeOfCmds(b, base))), base + HEADER_SIZE, Flatten(cs)),
                base + 16, Counts(cs));
    assert r[base + 16..base + 24] == Counts(cs);
    SliceOfSlice(r, base + 16, base + 24, 0, 4);
    SliceOfSlice(r, base + 16, base + 24, 4, 8);
    assert Counts(cs)[0..4] == LE32(|cs|) && Counts(cs)[4..8] == LE32(|Flatten(cs)|);
    LE32RoundTrip(r, base + 16, |cs|);
    LE32RoundTrip(r, base + 20, |Flatten(cs)|);
  }

  /** The edited buffer, byte by byte: the new counts, the new commands, zeros where only old ones were, and
      every byte outside the two counts and the larger of the two areas untouched. */
  lemma RebuiltBytes(b: seq<byte>, base: nat, cs: seq<Command>, i: nat)
    requires HasHeader(b, base) && AreaEnd(b, base) <= |b| && Fits(b, base, cs) && i < |b|
    ensures var r, start := Rebuilt(b, base, cs), base + HEADER_SIZE;
            && (start <= i < start + |Flatten(cs)| ==> r[i] == Flatten(cs)[i - start])
            && (start + |Flatten(cs)| <= i < AreaEnd(b, base) ==> r[i] == 0)
            && (i < base + 16 || base + 24 <= i < start ==> r[i] == b[i])
            && (base + 16 <= i < base + 24 ==> r[i] == Counts(cs)[i - base - 16])
            && (AreaEnd(b, base) <= i && start + |Flatten(cs)| <= i ==> r[i] == b[i])
  {
  }

  /** The edited slice is well formed again and walks as exactly the new list. */
  lemma RebuiltWalks(b: seq<byte>, base: nat, cs: seq<Command>)
    requires HasHeader(b, base) && AreaEnd(b, base) <= |b| && Fits(b, base, cs) && AllSelfSized(cs)
    ensures WellFormed(Rebuilt(b, base, cs), base)
    ensures CommandList(Rebuilt(b, base, cs), base) == cs
  {
    hide U32At, LE32, Flatten;
    var r, start := Rebuilt(b, base, cs), base + HEADER_SIZE;
    RebuiltCounts(b, base, cs);
    assert r[start..start + |Flatten(cs)|] == Flatten(cs);
    FlattenWalks(r, start, cs);
  }

  /** Writing back the list that is already there changes nothing. */
  lemma RebuiltSame(b: seq<byte>, base: nat)
    requires WellFormed(b, base)
    ensures Fits(b, base, CommandList(b, base))
    ensures Rebuilt(b, base, CommandList(b, base)) == b
    ensures AllSelfSized(CommandList(b, base))
  {
    hide U32At, LE32, Flatten, Walks, Commands, Rebuilt;
    var cs, start := CommandList(b, base), base + HEADER_SIZE;
    CommandsFlatten(b, start, NCmds(b, base), AreaEnd(b, base));
    var r := Rebuilt(b, base, cs);
    forall i | 0 <= i < |b| ensures r[i] == b[i] {
      RebuiltBytes(b, base, cs, i);
      if start <= i < AreaEnd(b, base) {
        assert Flatten(cs)[i - start] == b[start..AreaEnd(b, base)][i - start];
      } else if base + 16 <= i < base + 24 {
        CountBytes(b, base);
        assert r[i] == Counts(cs)[i - base - 16] == b[base + 16..base + 24][i - base - 16];
      }
    }
  }

  /** The eight count bytes are the two little-endian numbers read from them. */
  lemma CountBytes(b: seq<byte>, base: nat)
    requires HasHeader(b, base)
    ensures b[base + 16..base + 24] == LE32(NCmds(b, base)) + LE32(SizeOfCmds(b, base))
  {
    U32Bytes(b, base + 16);
    U32Bytes(b, base + 20);
    assert b[base + 16..base + 24] == b[base + 16..base + 20] + b[base + 20..base + 24];
  }

  lemma U32Bytes(b: seq<byte>, at: nat)
    requires at + 4 <= |b|
    ensures b[at..at + 4] == LE32(U32At(b, at))
  {
    var v: int := U32At(b, at);
    var w2: int := b[at + 2] + 0x100 * (b[at + 3] as int);
    var w1: int := b[at + 1] + 0x100 * w2;
    assert v == b[at] + 0x100 * w1;
    assert v / 0x100 == w1 && v % 0x100 == b[at];
    assert w1 / 0x100 == w2 && w1 % 0x100 == b[at + 1];
    assert w2 / 0x100 == b[at + 3] && w2 % 0x100 == b[at + 2];
    assert v / 0x1_0000 == v / 0x100 / 0x100 && v / 0x100_0000 == v / 0x1_0000 / 0x100;
  }

  /** Two edits in a row: when everything past the original area was zero as far as the first edit
      reached, the second edit leaves what it would have left on its own. */
  lemma RebuiltTwice(b: seq<byte>, base: nat, first: seq<Command>, second: seq<Command>)
    requires HasHeader(b, base) && AreaEnd(b, base) <= |b| && Fits(b, base, first) && Fits(b, base, second)
    requires forall i :: AreaEnd(b, base) <= i < base + HEADER_SIZE + |Flatten(first)| ==> b[i] == 0
    ensures AreaEnd(Rebuilt(b, base, first), base) <= |b|
    ensures Rebuilt(Rebuilt(b, base, first), base, second) == Rebuilt(b, base, second)
  {
    var r := Rebuilt(b, base, first);
    RebuiltCounts(b, base, first);
    var x, y := Rebuilt(r, base, second), Rebuilt(b, base, second);
    forall i | 0 <= i < |b| ensures x[i] == y[i] {
      RebuiltBytes(b, base, first, i);
      RebuiltBytes(r, base, second, i);
      RebuiltBytes(b, base, second, i);
    }
  }

  // ---------------------------------------------------------------- dylib commands

  /** The C string at `at`: the bytes up to the first NUL, or to the end when there is none. */
  function CString(b: seq<byte>, at: nat): (s: seq<byte>)
    requires at <= |b|
    ensures 0 !in s
    ensures at + |s| <= |b| && s == b[at..at + |s|]
    ensures at + |s| < |b| ==> b[at + |s|] == 0
    decreases |b| - at
  {
    if at == |b| || b[at] == 0 then []
    else
      var rest := CString(b, at + 1);
      assert b[at..at + 1 + |rest|] == [b[at]] + rest;
      [b[at]] + rest
  }

  /** A NUL-terminated run is the C string found at its start. */
  lemma {:induction false} CStringIs(b: seq<byte>, at: nat, s: seq<byte>)
    requires 0 !in s && at + |s| < |b| && b[at..at + |s|] == s && b[at + |s|] == 0
    ensures CString(b, at) == s
    decreases |s|
  {
  }

  function Kind(c: Command): u32
    requires SelfSized(c)
  {
    U32At(c, 0)
  }

  predicate LoadsDylib(c: Command)
    requires SelfSized(c)
  {
    Kind(c) == LC_LOAD_DYLIB || Kind(c) == LC_LOAD_WEAK_DYLIB
  }

  /** The name starts behind the dylib structure and the NUL that ends it is inside the command. */
  predicate NameInside(c: Command)
    requires SelfSized(c)
  {
    && DYLIB_COMMAND_SIZE <= |c|
    && DYLIB_COMMAND_SIZE <= U32At(c, 8) < |c|
    && U32At(c, 8) + |CString(c, U32At(c, 8))| < |c|
  }

  /** Every dylib command of the list carries a readable name. */
  predicate NamesReadable(cs: seq<Command>) {
    forall c :: c in cs ==> SelfSized(c) && (LoadsDylib(c) ==> NameInside(c))
  }

  function DylibName(c: Command): seq<byte>
    requires SelfSized(c) && NameInside(c)
  {
    CString(c, U32At(c, 8))
  }

  /** `c` loads, weakly or not, one of the named libraries. */
  predicate Loads(c: Command, names: set<seq<byte>>) {
    SelfSized(c) && LoadsDylib(c) && NameInside(c) && DylibName(c) in names
  }

  /** Bytes a new dylib command for `name` takes. */
  function DylibSize(name: seq<byte>): nat {
    DYLIB_COMMAND_SIZE + |name| + (8 - |name| % 8)
  }

  /** The command `InjectDylib` writes: name padded with one to eight NULs. */
  function DylibCommand(weak: bool, name: seq<byte>): (c: Command)
    requires |name| + DYLIB_COMMAND_SIZE + 8 < TWO32
    ensures |c| == DylibSize(name)
  {
    DylibHeader(if weak then LC_LOAD_WEAK_DYLIB else LC_LOAD_DYLIB, DylibSize(name))
    + name + Zeros(8 - |name| % 8)
  }

  /** `dylib_command` without its name: the name starts right after it. */
  function DylibHeader(cmd: u32, size: u32): (h: seq<byte>)
    ensures |h| == DYLIB_COMMAND_SIZE
  {
    LE32(cmd) + LE32(size) + LE32(DYLIB_COMMAND_SIZE) + LE32(2) + LE32(0) + LE32(0)
  }

  lemma DylibHeaderReads(c: Command, cmd: u32, size: u32)
    requires DYLIB_COMMAND_SIZE <= |c| && c[..DYLIB_COMMAND_SIZE] == DylibHeader(cmd, size)
    ensures U32At(c, 0) == cmd && U32At(c, 4) == size && U32At(c, 8) == DYLIB_COMMAND_SIZE
    ensures U32At(c, 12) == 2 && U32At(c, 16) == U32At(c, 20) == 0
  {
    hide U32At, LE32;
    var h := DylibHeader(cmd, size);
    assert c[0..4] == h[0..4] == LE32(cmd);
    assert c[4..8] == h[4..8] == LE32(size);
    assert c[8..12] == h[8..12] == LE32(DYLIB_COMMAND_SIZE);
    assert c[12..16] == h[12..16] == LE32(2);
    assert c[16..20] == h[16..20] == LE32(0) && c[20..24] == h[20..24] == LE32(0);
    LE32RoundTrip(c, 0, cmd);
    LE32RoundTrip(c, 4, size);
    LE32RoundTrip(c, 8, DYLIB_COMMAND_SIZE);
    LE32RoundTrip(c, 12, 2);
    LE32RoundTrip(c, 16, 0);
    LE32RoundTrip(c, 20, 0);
  }

  /** Its size is a multiple of eight, it ends in a NUL, and it reads back as the library asked for. */
  lemma DylibCommandReads(weak: bool, name: seq<byte>)
    requires |name| + DYLIB_COMMAND_SIZE + 8 < TWO32 && 0 !in name
    ensures var c := DylibCommand(weak, name);
            && |c| % 8 == 0
            && c[|c| - 1] == 0
            && SelfSized(c)
            && Kind(c) == (if weak then LC_LOAD_WEAK_DYLIB else LC_LOAD_DYLIB)
            && NameInside(c)
            && DylibName(c) == name
  {
    hide U32At, CString, DylibHeader, NameInside, DylibName, Zeros, DylibSize;
    var cmd := if weak then LC_LOAD_WEAK_DYLIB else LC_LOAD_DYLIB;
    DylibSizeIs(name);
    PaddedDylibReads(DylibCommand(weak, name), DylibHeader(cmd, DylibSize(name)), cmd, name, 8 - |name| % 8);
  }

  /** Word by word: command 12, or 0x8000_0018 for a weak load, the size, the name behind these 24 bytes, the time
      stamp 2, and both versions zero; then the name and nothing but NULs. */
  lemma DylibCommandWords(weak: bool, name: seq<byte>)
    requires |name| + DYLIB_COMMAND_SIZE + 8 < TWO32
    ensures var c := DylibCommand(weak, name);
            && |c| % 8 == 0 && 24 + |name| < |c| <= 24 + |name| + 8
            && U32At(c, 0) == (if weak then 0x8000_0018 else 12) && U32At(c, 4) == |c|
            && U32At(c, 8) == 24 && U32At(c, 12) == 2 && U32At(c, 16) == U32At(c, 20) == 0
            && c[24..24 + |name|] == name && forall k :: 24 + |name| <= k < |c| ==> c[k] == 0
  {
    hide U32At, DylibHeader, DylibSize;
    DylibSizeIs(name);
    DylibHeaderReads(DylibCommand(weak, name), if weak then 0x8000_0018 else 12, DylibSize(name));
  }

  lemma DylibSizeIs(name: seq<byte>)
    ensures DylibSize(name) % 8 == 0 && DylibSize(name) == DYLIB_COMMAND_SIZE + |name| + (8 - |name| % 8)
  {
  }

  lemma PaddedDylibReads(c: Command, header: seq<byte>, cmd: u32, name: seq<byte>, pad: nat)
    requires 0 < pad && |header| == DYLIB_COMMAND_SIZE && c == header + name + Zeros(pad) && 0 !in name
    requires |c| < TWO32 && header == DylibHeader(cmd, |c|)
    ensures SelfSized(c) && Kind(c) == cmd && NameInside(c) && DylibName(c) == name && c[|c| - 1] == 0
  {
    PaddedName(header, name, pad, c);
    DylibHeaderReads(c, cmd, |c|);
    CStringIs(c, DYLIB_COMMAND_SIZE, name);
  }

  lemma PaddedName(header: seq<byte>, name: seq<byte>, pad: nat, c: seq<byte>)
    requires 0 < pad && c == header + name + Zeros(pad)
    ensures c[..|header|] == header
    ensures c[|header|..|header| + |name|] == name
    ensures c[|header| + |name|] == 0 && c[|c| - 1] == 0
  {
  }

  // ---------------------------------------------------------------- removing commands

  /** The commands that are not dropped, in their old order. */
  function Filter(cs: seq<Command>, drop: Command -> bool): (kept: seq<Command>)
    ensures |kept| <= |cs|
    ensures forall c :: c in kept <==> c in cs && !drop(c)
  {
    if cs == [] then []
    else if drop(cs[0]) then Filter(cs[1..], drop)
    else [cs[0]] + Filter(cs[1..], drop)
  }

  lemma {:induction false} FilterSize(cs: seq<Command>, drop: Command -> bool)
    ensures |Flatten(Filter(cs, drop))| <= |Flatten(cs)|
  {
    if cs == [] {
    } else {
      FilterSize(cs[1..], drop);
      assert !drop(cs[0]) ==> Filter(cs, drop)[1..] == Filter(cs[1..], drop);
    }
  }

  lemma {:induction false} FilterAppend(cs: seq<Command>, more: seq<Command>, drop: Command -> bool)
    ensures Filter(cs + more, drop) == Filter(cs, drop) + Filter(more, drop)
  {
    if cs == [] {
      assert cs + more == more;
    } else {
      assert (cs + more)[1..] == cs[1..] + more;
      FilterAppend(cs[1..], more, drop);
    }
  }

  lemma {:induction false} FilterAll(cs: seq<Command>, drop: Command -> bool)
    requires forall c :: c in cs ==> !drop(c)
    ensures Filter(cs, drop) == cs
  {
    if cs == [] {
    } else {
      FilterAll(cs[1..], drop);
    }
  }

  lemma {:induction false} FilterAgree(cs: seq<Command>, drop: Command -> bool, drop': Command -> bool)
    requires forall c :: c in cs ==> drop(c) == drop'(c)
    ensures Filter(cs, drop) == Filter(cs, drop')
  {
    if cs == [] {
    } else {
      FilterAgree(cs[1..], drop, drop');
    }
  }

  /** The abstract operation both removers implement. */
  function Stripped(b: seq<byte>, base: nat, drop: Command -> bool): (r: seq<byte>)
    requires WellFormed(b, base)
    ensures |r| == |b|
  {
    StrippedFits(b, base, drop);
    Rebuilt(b, base, Filter(CommandList(b, base), drop))
  }

  lemma StrippedFits(b: seq<byte>, base: nat, drop: Command -> bool)
    requires WellFormed(b, base)
    ensures Fits(b, base, Filter(CommandList(b, base), drop))
  {
    RebuiltSame(b, base);
    FilterSize(CommandList(b, base), drop);
    CommandsFlatten(b, base + HEADER_SIZE, NCmds(b, base), AreaEnd(b, base));
  }

  /** Removal refines filtering: the buffer keeps its length, walks as the old list with the dropped
      commands filtered out, carries counts that say so, has a zeroed tail, and no byte outside the
      counts and the old area differs. */
  lemma StrippedIsFiltered(b: seq<byte>, base: nat, drop: Command -> bool)
    requires WellFormed(b, base)
    ensures var r, kept := Stripped(b, base, drop), Filter(CommandList(b, base), drop);
            && WellFormed(r, base)
            && CommandList(r, base) == kept
            && NCmds(r, base) == |kept|
            && SizeOfCmds(r, base) == |Flatten(kept)| <= SizeOfCmds(b, base)
            && (forall i :: AreaEnd(r, base) <= i < AreaEnd(b, base) ==> r[i] == 0)
            && (forall i :: 0 <= i < |b|
                  && (i < base + 16 || base + 24 <= i < base + HEADER_SIZE || AreaEnd(b, base) <= i)
                  ==> r[i] == b[i])
  {
    var kept := Filter(CommandList(b, base), drop);
    StrippedFits(b, base, drop);
    RebuiltSame(b, base);
    RebuiltWalks(b, base, kept);
    RebuiltCounts(b, base, kept);
    FilterSize(CommandList(b, base), drop);
    CommandsFlatten(b, base + HEADER_SIZE, NCmds(b, base), AreaEnd(b, base));
  }

  /** Removing again finds nothing more to remove, and dropping nothing is the identity. */
  lemma StrippedTwice(b: seq<byte>, base: nat, drop: Command -> bool)
    requires WellFormed(b, base)
    ensures WellFormed(Stripped(b, base, drop), base)
    ensures Stripped(Stripped(b, base, drop), base, drop) == Stripped(b, base, drop)
    ensures (forall c :: c in CommandList(b, base) ==> !drop(c)) ==> Stripped(b, base, drop) == b
  {
    StrippedIsFiltered(b, base, drop);
    var r := Stripped(b, base, drop);
    FilterAll(CommandList(r, base), drop);
    RebuiltSame(r, base);
    if forall c :: c in CommandList(b, base) ==> !drop(c) {
      FilterAll(CommandList(b, base), drop);
      RebuiltSame(b, base);
    }
  }
}
