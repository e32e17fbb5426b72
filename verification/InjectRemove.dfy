/** Injecting a library and removing it again, as operations on the whole buffer. */
module InjectRemove {
  import opened Bytes
  import opened LoadCommands
  import opened CommandEdits
  import opened SliceFacts

  predicate CanInject(b: seq<byte>, base: nat, weak: bool, name: seq<byte>) {
    && WellFormed(b, base)
    && NamesReadable(CommandList(b, base))
    && 0 !in name && |name| + DYLIB_COMMAND_SIZE + 8 < TWO32
    && Fits(b, base, Injected(CommandList(b, base), weak, name))
  }

  /** The buffer a successful `InjectDylib` leaves. */
  function AfterInject(b: seq<byte>, base: nat, weak: bool, name: seq<byte>): (r: seq<byte>)
    requires CanInject(b, base, weak, name)
    ensures |r| == |b|
  {
    Rebuilt(b, base, Injected(CommandList(b, base), weak, name))
  }

  lemma InjectedReads(cs: seq<Command>, weak: bool, name: seq<byte>)
    requires NamesReadable(cs) && 0 !in name && |name| + DYLIB_COMMAND_SIZE + 8 < TWO32
    ensures var cs' := Injected(cs, weak, name);
            && NamesReadable(cs')
            && FirstLoad(cs', name).Some?
            && var c := cs'[FirstLoad(cs', name).value];
               SelfSized(c) && Kind(c) == LoadKind(weak)
    ensures FirstLoad(cs, name).None? ==> FirstLoad(Injected(cs, weak, name), name) == Some(|cs|)
    ensures FirstLoad(cs, name).Some? ==> FirstLoad(Injected(cs, weak, name), name) == FirstLoad(cs, name)
  {
    hide U32At, CString, LE32, Splice, Loads, NameInside, DylibName, FirstLoad, DylibCommand;
    var cs' := Injected(cs, weak, name);
    match FirstLoad(cs, name)
    case Some(i) =>
      RetypedReads(cs[i], weak, name);
      LoadsIsSized(cs'[i], name);
      assert forall c :: c in cs' ==> c == cs'[i] || c in cs;
      FirstLoadIs(cs', name, i);
    case None =>
      DylibCommandReads(weak, name);
      LoadsItself(weak, name);
      assert forall j :: 0 <= j < |cs| ==> cs'[j] == cs[j] && cs[j] in cs;
      FirstLoadIs(cs', name, |cs|);
  }

  lemma LoadsIsSized(c: Command, name: seq<byte>)
    requires Loads(c, {name})
    ensures SelfSized(c) && NameInside(c)
  {
    hide U32At, CString;
  }

  lemma LoadsItself(weak: bool, name: seq<byte>)
    requires |name| + DYLIB_COMMAND_SIZE + 8 < TWO32 && 0 !in name
    ensures Loads(DylibCommand(weak, name), {name})
  {
    hide U32At, CString, DylibCommand;
    DylibCommandReads(weak, name);
  }

  /** Injection keeps the slice well formed, and leaves a load of the requested kind for the name. */
  lemma InjectKeepsArea(b: seq<byte>, base: nat, weak: bool, name: seq<byte>)
    requires CanInject(b, base, weak, name)
    ensures var r := AfterInject(b, base, weak, name);
            && WellFormed(r, base)
            && CommandList(r, base) == Injected(CommandList(b, base), weak, name)
            && NamesReadable(CommandList(r, base))
  {
    hide U32At, CString, LE32, Splice, Flatten;
    RebuiltSame(b, base);
    InjectedReads(CommandList(b, base), weak, name);
    RebuiltWalks(b, base, Injected(CommandList(b, base), weak, name));
  }

  /** Injecting the same library with the same kind a second time changes no byte. */
  lemma InjectTwice(b: seq<byte>, base: nat, weak: bool, name: seq<byte>)
    requires CanInject(b, base, weak, name)
    ensures CanInject(AfterInject(b, base, weak, name), base, weak, name)
    ensures AfterInject(AfterInject(b, base, weak, name), base, weak, name) == AfterInject(b, base, weak, name)
  {
    hide U32At, CString, LE32, Splice, Flatten, Rebuilt;
    var r, cs' := AfterInject(b, base, weak, name), Injected(CommandList(b, base), weak, name);
    InjectKeepsArea(b, base, weak, name);
    InjectedReads(CommandList(b, base), weak, name);
    KeepKind(r, base, FirstLoad(cs', name).value, weak);
  }

  /** An absent library gets exactly one new command, behind all others: a multiple of eight bytes
      long, NUL-terminated, naming the library; every byte outside the counts and the bytes the
      command takes is unchanged. */
  lemma InjectAbsentAppends(b: seq<byte>, base: nat, weak: bool, name: seq<byte>)
    requires CanInject(b, base, weak, name) && FirstLoad(CommandList(b, base), name).None?
    ensures var r, c := AfterInject(b, base, weak, name), DylibCommand(weak, name);
            && WellFormed(r, base)
            && CommandList(r, base) == CommandList(b, base) + [c]
            && |c| % 8 == 0 && c[|c| - 1] == 0 && SelfSized(c) && Kind(c) == LoadKind(weak)
            && NameInside(c) && DylibName(c) == name
            && AreaEnd(r, base) == AreaEnd(b, base) + |c| <= |b|
            && r[AreaEnd(b, base)..AreaEnd(r, base)] == c
            && forall i :: 0 <= i < |b| && (i < base + 16 || base + 24 <= i < AreaEnd(b, base) || AreaEnd(r, base) <= i)
                 ==> r[i] == b[i]
  {
    hide U32At, CString, LE32, Flatten, DylibCommand, DylibSize, NameInside, DylibName, Loads, FirstLoad, NamesReadable;
    var r, c := AfterInject(b, base, weak, name), DylibCommand(weak, name);
    InjectKeepsArea(b, base, weak, name);
    DylibCommandReads(weak, name);
    FlattenAppendOne(CommandList(b, base), c);
    CommandsFlatten(b, base + HEADER_SIZE, NCmds(b, base), AreaEnd(b, base));
    RebuiltCounts(b, base, CommandList(b, base) + [c]);
    CommandBytes(r, base, NCmds(b, base));
    assert (CommandList(b, base) + [c])[..NCmds(b, base)] == CommandList(b, base);
    var area := b[base + HEADER_SIZE..AreaEnd(b, base)];
    forall i | 0 <= i < |b| && (i < base + 16 || base + 24 <= i < AreaEnd(b, base) || AreaEnd(r, base) <= i)
      ensures r[i] == b[i]
    {
      RebuiltBytes(b, base, CommandList(b, base) + [c], i);
      if base + HEADER_SIZE <= i < AreaEnd(b, base) {
        assert b[i] == area[i - base - HEADER_SIZE] == (area + c)[i - base - HEADER_SIZE];
      }
    }
  }

  lemma FlattenAppendOne(cs: seq<Command>, c: Command)
    ensures Flatten(cs + [c]) == Flatten(cs) + c
  {
    var one := [c];
    FlattenAppend(cs, one);
    assert |one[1..]| == 0;
  }

  /** The bytes a new command for `name` would take are all zero. */
  predicate GapIsZero(b: seq<byte>, base: nat, name: seq<byte>)
    requires HasHeader(b, base) && AreaEnd(b, base) + DylibSize(name) <= |b|
  {
    forall i :: AreaEnd(b, base) <= i < AreaEnd(b, base) + DylibSize(name) ==> b[i] == 0
  }

  /** Removing a library that was just injected into a slice that did not have it restores every byte
      exactly when the gap it went into was zero. */
  lemma RemoveUndoesInject(b: seq<byte>, base: nat, weak: bool, name: seq<byte>)
    requires CanInject(b, base, weak, name) && FirstLoad(CommandList(b, base), name).None?
    requires AreaEnd(b, base) + DylibSize(name) <= |b|
    ensures WellFormed(AfterInject(b, base, weak, name), base)
    ensures Stripped(AfterInject(b, base, weak, name), base, DropsNamed({name})) == b <==> GapIsZero(b, base, name)
  {
    hide U32At, CString, LE32, Flatten, Rebuilt, Filter, Walks, Commands, Splice, DylibHeader, Injected;
    StrippedIsInjectUndone(b, base, weak, name);
    InjectAbsentAppends(b, base, weak, name);
    if GapIsZero(b, base, name) {
      ZeroGapRestores(b, base, CommandList(b, base) + [DylibCommand(weak, name)]);
    } else {
      var i :| AreaEnd(b, base) <= i < AreaEnd(b, base) + |DylibCommand(weak, name)| && b[i] != 0;
      StrippedZeroes(AfterInject(b, base, weak, name), base, DropsNamed({name}), CommandList(b, base), i);
    }
  }

  lemma ZeroGapRestores(b: seq<byte>, base: nat, more: seq<Command>)
    requires WellFormed(b, base) && Fits(b, base, more) && Fits(b, base, CommandList(b, base))
    requires forall i :: AreaEnd(b, base) <= i < base + HEADER_SIZE + |Flatten(more)| ==> b[i] == 0
    ensures AreaEnd(Rebuilt(b, base, more), base) <= |b|
    ensures Rebuilt(Rebuilt(b, base, more), base, CommandList(b, base)) == b
  {
    hide U32At, LE32, Flatten, Rebuilt, Walks, Commands;
    RebuiltTwice(b, base, more, CommandList(b, base));
    RebuiltSame(b, base);
  }

  lemma StrippedZeroes(r: seq<byte>, base: nat, drop: Command -> bool, kept: seq<Command>, i: nat)
    requires WellFormed(r, base) && Fits(r, base, kept)
    requires Stripped(r, base, drop) == Rebuilt(r, base, kept)
    requires base + HEADER_SIZE + |Flatten(kept)| <= i < AreaEnd(r, base)
    ensures Stripped(r, base, drop)[i] == 0
  {
  }

  /** Stripping the injected library rebuilds the original list over the injected buffer. */
  lemma StrippedIsInjectUndone(b: seq<byte>, base: nat, weak: bool, name: seq<byte>)
    requires CanInject(b, base, weak, name) && FirstLoad(CommandList(b, base), name).None?
    ensures var r, c, cs := AfterInject(b, base, weak, name), DylibCommand(weak, name), CommandList(b, base);
            && WellFormed(r, base)
            && Fits(b, base, cs + [c]) && Fits(b, base, cs)
            && r == Rebuilt(b, base, cs + [c])
            && |Flatten(cs + [c])| == SizeOfCmds(b, base) + |c|
            && |Flatten(cs)| == SizeOfCmds(b, base)
            && AreaEnd(r, base) <= |r|
            && Stripped(r, base, DropsNamed({name})) == Rebuilt(r, base, cs)
  {
    hide U32At, CString, LE32, Flatten, Rebuilt, Filter, DylibCommand, Walks, Commands;
    var r, c, cs := AfterInject(b, base, weak, name), DylibCommand(weak, name), CommandList(b, base);
    InjectAbsentAppends(b, base, weak, name);
    InjectKeepsArea(b, base, weak, name);
    RemovesJustThat(cs, c, name);
    StrippedFits(r, base, DropsNamed({name}));
    RebuiltSame(b, base);
    AreaIsFlatten(b, base);
    FlattenAppendOne(cs, c);
  }

  lemma AreaIsFlatten(b: seq<byte>, base: nat)
    requires WellFormed(b, base)
    ensures |Flatten(CommandList(b, base))| == SizeOfCmds(b, base)
  {
    CommandsFlatten(b, base + HEADER_SIZE, NCmds(b, base), AreaEnd(b, base));
  }

  lemma RemovesJustThat(cs: seq<Command>, c: Command, name: seq<byte>)
    requires FirstLoad(cs, name).None? && Loads(c, {name})
    ensures Filter(cs + [c], DropsNamed({name})) == cs
  {
    var drop, one := DropsNamed({name}), [c];
    FilterAppend(cs, one, drop);
    FilterAll(cs, drop);
    assert |one[1..]| == 0;
  }

  // ---------------------------------------------------------------- command by command

  /** A command that loads the library, weakly or not: command 12 or 0x8000_0018 with a name at the offset in its third
      word. */
  predicate LoadOf(c: Command, name: seq<byte>) {
    24 <= |c| && U32At(c, 0) in {12, 0x8000_0018} && 24 <= U32At(c, 8) < |c| && CString(c, U32At(c, 8)) == name
  }

  lemma LoadsIsLoadOf(c: Command, names: set<seq<byte>>, cs: seq<Command>)
    requires NamesReadable(cs) && c in cs
    ensures Loads(c, names) <==> exists name :: name in names && LoadOf(c, name)
  {
    hide U32At, CString;
  }

  /** Injecting a library that is loaded sets the kind of the first command that loads it and no other byte of any
      command; injecting one that is not adds one command at the end. */
  lemma InjectMeans(cs: seq<Command>, weak: bool, name: seq<byte>)
    requires NamesReadable(cs) && |name| + DYLIB_COMMAND_SIZE + 8 < TWO32
    ensures var cs' := Injected(cs, weak, name);
            || ((forall c :: c in cs ==> !LoadOf(c, name)) && cs' == cs + [DylibCommand(weak, name)])
            || exists i :: 0 <= i < |cs| && Retyped(cs, cs', i, weak, name)
  {
    hide U32At, CString, LE32, DylibCommand, Loads, LoadOf, Splice;
    forall c | c in cs ensures Loads(c, {name}) <==> LoadOf(c, name) {
      LoadsIsLoadOf(c, {name}, cs);
    }
    if i :| FirstLoad(cs, name) == Some(i) {
      RetypedReads(cs[i], weak, name);
      RetypedBytes(cs[i], weak, name);
      assert Retyped(cs, Injected(cs, weak, name), i, weak, name);
    }
  }

  predicate Retyped(cs: seq<Command>, cs': seq<Command>, i: nat, weak: bool, name: seq<byte>) {
    && i < |cs| == |cs'| && LoadOf(cs[i], name) && (forall j :: 0 <= j < i ==> !LoadOf(cs[j], name))
    && (forall j :: 0 <= j < |cs| && j != i ==> cs'[j] == cs[j])
    && 4 <= |cs[i]| == |cs'[i]| && cs'[i][4..] == cs[i][4..] && U32At(cs'[i], 0) == (if weak then 0x8000_0018 else 12)
  }

  lemma RetypedBytes(c: Command, weak: bool, name: seq<byte>)
    requires Loads(c, {name})
    ensures var c' := Splice(c, 0, LE32(LoadKind(weak)));
            4 <= |c| == |c'| && c'[4..] == c[4..] && U32At(c', 0) == (if weak then 0x8000_0018 else 12)
  {
    hide CString, LE32;
    LE32RoundTrip(Splice(c, 0, LE32(LoadKind(weak))), 0, LoadKind(weak));
  }

  /** Removing libraries takes the commands one after the other and leaves out those that load one of them. */
  lemma RemoveMeans(cs: seq<Command>, names: set<seq<byte>>, i: nat)
    requires NamesReadable(cs) && i < |cs|
    ensures var none: seq<Command> := []; Filter(none, DropsNamed(names)) == none
    ensures Filter(cs[..i + 1], DropsNamed(names))
         == Filter(cs[..i], DropsNamed(names))
            + if exists name :: name in names && LoadOf(cs[i], name) then [] else [cs[i]]
  {
    hide U32At, CString, Loads, LoadOf, Flatten;
    FilterStep(cs, i, DropsNamed(names));
    LoadsIsLoadOf(cs[i], names, cs);
  }
}
