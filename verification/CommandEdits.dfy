/** How a store into the buffer shows up in the list of load commands: a store inside command `k`
    changes that one element, a command written at the end of the area appends one. */
module CommandEdits {
  import opened Bytes
  import opened LoadCommands

  /** Where command `k` of the list starts. */
  function PosOf(cs: seq<Command>, base: nat, k: nat): nat
    requires k <= |cs|
  {
    base + HEADER_SIZE + |Flatten(cs[..k])|
  }

  lemma FlattenSplit(cs: seq<Command>, k: nat)
    requires k < |cs|
    ensures Flatten(cs) == Flatten(cs[..k]) + cs[k] + Flatten(cs[k + 1..])
  {
    var tail := cs[k..];
    assert cs == cs[..k] + tail;
    FlattenAppend(cs[..k], tail);
    assert tail[0] == cs[k] && tail[1..] == cs[k + 1..];
    FlattenCons(cs[..k], tail);
  }

  lemma FlattenCons(front: seq<Command>, tail: seq<Command>)
    requires tail != []
    ensures Flatten(front) + Flatten(tail) == Flatten(front) + tail[0] + Flatten(tail[1..])
  {
  }

  lemma PosOfNext(cs: seq<Command>, base: nat, k: nat)
    requires k < |cs|
    ensures PosOf(cs, base, k + 1) == PosOf(cs, base, k) + |cs[k]|
  {
    assert cs[..k + 1] == cs[..k] + [cs[k]];
    FlattenAppend(cs[..k], [cs[k]]);
    assert Flatten([cs[k]]) == cs[k] + Flatten([cs[k]][1..]) == cs[k];
  }

  /** Command `k` is the stretch of the buffer that starts at `PosOf`. */
  lemma CommandBytes(b: seq<byte>, base: nat, k: nat)
    requires WellFormed(b, base) && k < NCmds(b, base)
    ensures var cs := CommandList(b, base); var pos := PosOf(cs, base, k);
            && pos + |cs[k]| <= AreaEnd(b, base)
            && b[pos..pos + |cs[k]|] == cs[k]
            && SelfSized(cs[k])
  {
    var cs, start := CommandList(b, base), base + HEADER_SIZE;
    CommandsFlatten(b, start, NCmds(b, base), AreaEnd(b, base));
    FlattenSplit(cs, k);
    Middle(b, start, Flatten(cs[..k]), cs[k], Flatten(cs[k + 1..]), AreaEnd(b, base));
  }

  lemma Middle(b: seq<byte>, start: nat, front: seq<byte>, mid: seq<byte>, back: seq<byte>, end: nat)
    requires start <= end <= |b| && b[start..end] == front + mid + back
    ensures start + |front| + |mid| <= end
    ensures b[start + |front|..start + |front| + |mid|] == mid
  {
    var area := b[start..end];
    assert |area| == |front| + |mid| + |back|;
    assert area[|front|..|front| + |mid|] == mid;
    SliceOfSlice(b, start, end, |front|, |front| + |mid|);
  }

  /** A number inside a command reads the same in the buffer and in the list. */
  lemma FieldIn32(b: seq<byte>, base: nat, k: nat, at: nat)
    requires WellFormed(b, base) && k < NCmds(b, base) && at + 4 <= |CommandList(b, base)[k]|
    ensures var cs := CommandList(b, base); var pos := PosOf(cs, base, k);
            pos + at + 4 <= |b| && U32At(b, pos + at) == U32At(cs[k], at)
  {
    CommandBytes(b, base, k);
    var cs := CommandList(b, base);
    var pos := PosOf(cs, base, k);
    SliceOfSlice(b, pos, pos + |cs[k]|, at, at + 4);
    SameU32(b, pos + at, cs[k], at);
  }

  lemma FieldIn64(b: seq<byte>, base: nat, k: nat, at: nat)
    requires WellFormed(b, base) && k < NCmds(b, base) && at + 8 <= |CommandList(b, base)[k]|
    ensures var cs := CommandList(b, base); var pos := PosOf(cs, base, k);
            pos + at + 8 <= |b| && U64At(b, pos + at) == U64At(cs[k], at)
  {
    FieldIn32(b, base, k, at);
    FieldIn32(b, base, k, at + 4);
  }

  /** A C string that ends inside a command reads the same in the buffer and in the list. */
  lemma StringIn(b: seq<byte>, base: nat, k: nat, at: nat)
    requires WellFormed(b, base) && k < NCmds(b, base)
    requires var c := CommandList(b, base)[k]; at < |c| && at + |CString(c, at)| < |c|
    ensures var cs := CommandList(b, base); var pos := PosOf(cs, base, k);
            pos + at <= |b| && CString(b, pos + at) == CString(cs[k], at)
  {
    hide U32At, Flatten, CString, Walks, Commands, CommandList;
    CommandBytes(b, base, k);
    StringInside(b, PosOf(CommandList(b, base), base, k), CommandList(b, base)[k], at);
  }

  lemma StringInside(b: seq<byte>, pos: nat, c: seq<byte>, at: nat)
    requires pos + |c| <= |b| && b[pos..pos + |c|] == c
    requires at < |c| && at + |CString(c, at)| < |c|
    ensures CString(b, pos + at) == CString(c, at)
  {
    var s := CString(c, at);
    SliceOfSlice(b, pos, pos + |c|, at, at + |s|);
    assert b[pos + at + |s|] == c[at + |s|];
    CStringIs(b, pos + at, s);
  }

  /** A store inside command `k` that leaves its size field alone replaces just that element. */
  lemma EditOne(b: seq<byte>, base: nat, k: nat, at: nat, s: seq<byte>)
    requires WellFormed(b, base) && k < NCmds(b, base)
    requires at + |s| <= |CommandList(b, base)[k]|
    requires at + |s| <= 4 || 8 <= at
    ensures var cs := CommandList(b, base); var cs' := cs[k := Splice(cs[k], at, s)];
            && PosOf(cs, base, k) + at + |s| <= |b|
            && Fits(b, base, cs')
            && |Flatten(cs')| == SizeOfCmds(b, base)
            && Splice(b, PosOf(cs, base, k) + at, s) == Rebuilt(b, base, cs')
            && WellFormed(Rebuilt(b, base, cs'), base)
            && CommandList(Rebuilt(b, base, cs'), base) == cs'
            && NCmds(Rebuilt(b, base, cs'), base) == NCmds(b, base)
            && SizeOfCmds(Rebuilt(b, base, cs'), base) == SizeOfCmds(b, base)
  {
    hide U32At, LE32;
    var cs, start := CommandList(b, base), base + HEADER_SIZE;
    var c' := Splice(cs[k], at, s);
    var cs' := cs[k := c'];
    CommandBytes(b, base, k);
    RebuiltSame(b, base);
    SpliceElsewhere(cs[k], at, s, 4, 8);
    SameU32(c', 4, cs[k], 4);
    CommandsFlatten(b, start, NCmds(b, base), AreaEnd(b, base));
    FlattenSplit(cs, k);
    FlattenSplit(cs', k);
    assert cs'[..k] == cs[..k] && cs'[k + 1..] == cs[k + 1..];
    EditBytes(b, base, k, at, s, cs');
    RebuiltWalks(b, base, cs');
    RebuiltCounts(b, base, cs');
  }

  lemma EditBytes(b: seq<byte>, base: nat, k: nat, at: nat, s: seq<byte>, cs': seq<Command>)
    requires WellFormed(b, base) && k < NCmds(b, base)
    requires at + |s| <= |CommandList(b, base)[k]|
    requires cs' == CommandList(b, base)[k := Splice(CommandList(b, base)[k], at, s)]
    requires Fits(b, base, cs') && |Flatten(cs')| == SizeOfCmds(b, base)
    requires PosOf(CommandList(b, base), base, k) + at + |s| <= AreaEnd(b, base)
    ensures Splice(b, PosOf(CommandList(b, base), base, k) + at, s) == Rebuilt(b, base, cs')
  {
    hide U32At, LE32, Splice, Rebuilt;
    var cs, start := CommandList(b, base), base + HEADER_SIZE;
    CommandsFlatten(b, start, NCmds(b, base), AreaEnd(b, base));
    FlattenSplit(cs, k);
    FlattenSplit(cs', k);
    assert cs'[..k] == cs[..k] && cs'[k + 1..] == cs[k + 1..];
    SpliceMiddle(Flatten(cs[..k]), cs[k], Flatten(cs[k + 1..]), at, s);
    EditedArea(b, base, |Flatten(cs[..k])| + at, s, cs');
  }

  lemma SpliceMiddle(front: seq<byte>, mid: seq<byte>, back: seq<byte>, at: nat, s: seq<byte>)
    requires at + |s| <= |mid|
    ensures Splice(front + mid + back, |front| + at, s) == front + Splice(mid, at, s) + back
  {
  }

  /** A store inside the area that keeps the counts is the rebuilt buffer for the list it leaves. */
  lemma EditedArea(b: seq<byte>, base: nat, at: nat, s: seq<byte>, cs': seq<Command>)
    requires HasHeader(b, base) && AreaEnd(b, base) <= |b| && at + |s| <= SizeOfCmds(b, base)
    requires |cs'| == NCmds(b, base)
    requires Flatten(cs') == Splice(b[base + HEADER_SIZE..AreaEnd(b, base)], at, s)
    ensures Fits(b, base, cs')
    ensures Splice(b, base + HEADER_SIZE + at, s) == Rebuilt(b, base, cs')
  {
    hide U32At, LE32, Flatten;
    var start, end := base + HEADER_SIZE, AreaEnd(b, base);
    CountBytes(b, base);
    var x, y := Splice(b, start + at, s), Rebuilt(b, base, cs');
    forall i | 0 <= i < |b| ensures x[i] == y[i] {
      RebuiltBytes(b, base, cs', i);
      if start <= i < end {
        assert b[i] == b[start..end][i - start];
      } else if base + 16 <= i < base + 24 {
        assert y[i] == Counts(cs')[i - base - 16] == b[base + 16..base + 24][i - base - 16];
      }
    }
  }

  /** A command written right after the area, with the counts raised to match, appends one element. */
  lemma AppendOne(b: seq<byte>, base: nat, c: Command)
    requires WellFormed(b, base) && AreaEnd(b, base) + |c| <= |b| && SelfSized(c)
    requires NCmds(b, base) + 1 < TWO32 && SizeOfCmds(b, base) + |c| < TWO32
    ensures var cs' := CommandList(b, base) + [c];
            && Fits(b, base, cs')
            && |Flatten(cs')| == SizeOfCmds(b, base) + |c|
            && Splice(Splice(b, AreaEnd(b, base), c), base + 16, Counts(cs')) == Rebuilt(b, base, cs')
            && WellFormed(Rebuilt(b, base, cs'), base)
            && CommandList(Rebuilt(b, base, cs'), base) == cs'
            && NCmds(Rebuilt(b, base, cs'), base) == NCmds(b, base) + 1
            && SizeOfCmds(Rebuilt(b, base, cs'), base) == SizeOfCmds(b, base) + |c|
  {
    hide U32At, LE32;
    var cs, start := CommandList(b, base), base + HEADER_SIZE;
    var cs' := cs + [c];
    CommandsFlatten(b, start, NCmds(b, base), AreaEnd(b, base));
    FlattenAppend(cs, [c]);
    assert Flatten([c]) == c + Flatten([c][1..]) == c;
    var x, y := Splice(Splice(b, AreaEnd(b, base), c), base + 16, Counts(cs')), Rebuilt(b, base, cs');
    forall i | 0 <= i < |b| ensures x[i] == y[i] {
      RebuiltBytes(b, base, cs', i);
      if start <= i < AreaEnd(b, base) {
        assert b[i] == b[start..AreaEnd(b, base)][i - start] == Flatten(cs)[i - start];
      }
    }
    RebuiltWalks(b, base, cs');
    RebuiltCounts(b, base, cs');
  }

  /** A list that takes the same room as the one in the buffer. */
  predicate SameRoom(b: seq<byte>, base: nat, cs: seq<Command>)
    requires WellFormed(b, base)
  {
    AllSelfSized(cs) && |cs| == NCmds(b, base) && |Flatten(cs)| == SizeOfCmds(b, base) && Fits(b, base, cs)
  }

  lemma OwnRoom(b: seq<byte>, base: nat)
    requires WellFormed(b, base)
    ensures SameRoom(b, base, CommandList(b, base))
    ensures Rebuilt(b, base, CommandList(b, base)) == b
  {
    RebuiltSame(b, base);
    CommandsFlatten(b, base + HEADER_SIZE, NCmds(b, base), AreaEnd(b, base));
  }

  /** A further store inside a command of an already edited list. */
  lemma EditNext(b: seq<byte>, base: nat, cs: seq<Command>, k: nat, at: nat, s: seq<byte>)
    requires WellFormed(b, base) && SameRoom(b, base, cs)
    requires k < |cs| && at + |s| <= |cs[k]| && 8 <= at
    ensures var cs' := cs[k := Splice(cs[k], at, s)];
            && PosOf(cs, base, k) + at + |s| <= |b|
            && SameRoom(b, base, cs')
            && Splice(Rebuilt(b, base, cs), PosOf(cs, base, k) + at, s) == Rebuilt(b, base, cs')
  {
    hide U32At, LE32, Flatten, Splice, Rebuilt, Walks, Commands;
    var r, cs' := Rebuilt(b, base, cs), cs[k := Splice(cs[k], at, s)];
    RebuiltWalks(b, base, cs);
    RebuiltCounts(b, base, cs);
    EditOne(r, base, k, at, s);
    RebuiltSame(Rebuilt(r, base, cs'), base);
    RebuiltTwice(b, base, cs, cs');
  }

  /** Replacing a command by one of its length moves no other command. */
  lemma PosOfKept(cs: seq<Command>, base: nat, k: nat, c: Command, j: nat)
    requires k < |cs| && |c| == |cs[k]| && j <= |cs|
    ensures PosOf(cs[k := c], base, j) == PosOf(cs, base, j)
  {
    hide Flatten;
    var front, front' := cs[..j], cs[k := c][..j];
    if k < j {
      FlattenSplit(front, k);
      FlattenSplit(front', k);
      assert front'[..k] == front[..k] && front'[k + 1..] == front[k + 1..];
    } else {
      assert front' == front;
    }
  }

  /** A command appended to an already edited list. */
  lemma AppendNext(b: seq<byte>, base: nat, cs: seq<Command>, c: Command)
    requires WellFormed(b, base) && SameRoom(b, base, cs) && SelfSized(c)
    requires AreaEnd(b, base) + |c| <= |b| && NCmds(b, base) + 1 < TWO32 && SizeOfCmds(b, base) + |c| < TWO32
    ensures Fits(b, base, cs + [c]) && |Flatten(cs + [c])| == SizeOfCmds(b, base) + |c|
    ensures Splice(Splice(Rebuilt(b, base, cs), AreaEnd(b, base), c), base + 16, Counts(cs + [c]))
      == Rebuilt(b, base, cs + [c])
  {
    hide U32At, LE32, Flatten, Splice, Rebuilt, Walks, Commands;
    var r := Rebuilt(b, base, cs);
    RebuiltWalks(b, base, cs);
    RebuiltCounts(b, base, cs);
    AppendOne(r, base, c);
    RebuiltTwice(b, base, cs, cs + [c]);
  }

  // ---------------------------------------------------------------- injecting a library

  /** The first command that loads `name`, weakly or not. */
  function FirstLoad(cs: seq<Command>, name: seq<byte>): (r: Option<nat>)
    ensures r.None? <==> forall c :: c in cs ==> !Loads(c, {name})
    ensures r.Some? ==> r.value < |cs| && Loads(cs[r.value], {name})
    ensures r.Some? ==> forall j :: 0 <= j < r.value ==> !Loads(cs[j], {name})
  {
    if cs == [] then None
    else if Loads(cs[0], {name}) then Some(0)
    else
      match FirstLoad(cs[1..], name)
      case None => None
      case Some(i) => Some(i + 1)
  }

  function LoadKind(weak: bool): u32 {
    if weak then LC_LOAD_WEAK_DYLIB else LC_LOAD_DYLIB
  }

  /** The list `InjectDylib` leaves: the first existing load of the library given the requested kind,
      or a new command at the end. */
  function Injected(cs: seq<Command>, weak: bool, name: seq<byte>): (r: seq<Command>)
    requires |name| + DYLIB_COMMAND_SIZE + 8 < TWO32
  {
    match FirstLoad(cs, name)
    case Some(i) => cs[i := Splice(cs[i], 0, LE32(LoadKind(weak)))]
    case None => cs + [DylibCommand(weak, name)]
  }

  /** A store of the kind leaves the rest of the command, so it reads as the same library. */
  lemma RetypedReads(c: Command, weak: bool, name: seq<byte>)
    requires Loads(c, {name})
    ensures var c' := Splice(c, 0, LE32(LoadKind(weak)));
            Loads(c', {name}) && Kind(c') == LoadKind(weak)
  {
    var c' := Splice(c, 0, LE32(LoadKind(weak)));
    LE32RoundTrip(c', 0, LoadKind(weak));
    SameBehind(c, c');
    NameBehind(c, c');
  }

  lemma SameBehind(c: Command, c': Command)
    requires |c| == |c'| && 12 <= |c| && c[4..] == c'[4..]
    ensures U32At(c', 4) == U32At(c, 4) && U32At(c', 8) == U32At(c, 8)
  {
  }

  lemma NameBehind(c: Command, c': Command)
    requires SelfSized(c) && NameInside(c) && SelfSized(c') && |c| == |c'| && c[4..] == c'[4..]
      && U32At(c', 8) == U32At(c, 8)
    ensures NameInside(c') && DylibName(c') == DylibName(c)
  {
  }

  /** Storing the kind a command already has changes nothing. */
  lemma RetypedSame(c: Command, weak: bool)
    requires SelfSized(c) && Kind(c) == LoadKind(weak)
    ensures Splice(c, 0, LE32(LoadKind(weak))) == c
  {
    U32Bytes(c, 0);
    assert c == c[0..4] + c[4..];
  }
}
