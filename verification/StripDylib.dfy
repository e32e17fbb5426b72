/** `tools/strip_injected_dylib.py`: the second implementation of load-command removal. */
module StripDylib {
  import opened Bytes
  import opened LoadCommands
  import opened CommandEdits
  import opened SliceFacts

  const PY_LC_REEXPORT_DYLIB: u32 := 0x1F

  /** How Python turns the bytes of a name into text (`decode(errors="replace")`). */
  type Decoder = seq<byte> -> string

  predicate IsDylibKind(kind: u32) {
    kind == LC_LOAD_DYLIB || kind == LC_LOAD_WEAK_DYLIB || kind == PY_LC_REEXPORT_DYLIB
  }

  /** Commands of the three kinds hold at least their name offset. */
  predicate OffsetsInside(cs: seq<Command>) {
    forall c :: c in cs ==> SelfSized(c) && (IsDylibKind(Kind(c)) ==> 12 <= |c|)
  }

  /** `chunk[name_off:].split(b"\0", 1)[0]`: an offset past the chunk gives the empty name. */
  function ChunkName(c: Command): seq<byte>
    requires 12 <= |c|
  {
    var at := U32At(c, 8);
    CString(c, if at <= |c| then at else |c|)
  }

  /** `posixpath.basename`: what follows the last slash. */
  function Basename(path: string): (r: string)
    ensures '/' !in r
    ensures |r| <= |path| && path[|path| - |r|..] == r
    ensures |r| < |path| ==> path[|path| - |r| - 1] == '/'
  {
    if path == [] || path[|path| - 1] == '/' then []
    else
      var front := Basename(path[..|path| - 1]);
      assert path[..|path| - 1][|path| - 1 - |front|..] == front;
      front + [path[|path| - 1]]
  }

  /** The command's name, cut down to its last component, is one of the targets. */
  predicate NamesTarget(c: Command, targets: set<string>, decode: Decoder) {
    SelfSized(c) && 12 <= |c| && Basename(decode(ChunkName(c))) in targets
  }

  predicate Targeted(c: Command, targets: set<string>, decode: Decoder) {
    SelfSized(c) && IsDylibKind(Kind(c)) && NamesTarget(c, targets, decode)
  }

  function DropsTargets(targets: set<string>, decode: Decoder): Command -> bool {
    c => Targeted(c, targets, decode)
  }

  /** The names of the targeted commands, in order. */
  function TargetedNames(cs: seq<Command>, targets: set<string>, decode: Decoder): seq<string> {
    if cs == [] then []
    else if Targeted(cs[0], targets, decode) then [decode(ChunkName(cs[0]))] + TargetedNames(cs[1..], targets, decode)
    else TargetedNames(cs[1..], targets, decode)
  }

  lemma {:induction false} TargetedNamesAppend(cs: seq<Command>, c: Command, targets: set<string>, decode: Decoder)
    ensures TargetedNames(cs + [c], targets, decode)
      == TargetedNames(cs, targets, decode) + if Targeted(c, targets, decode) then [decode(ChunkName(c))] else []
  {
    hide U32At, CString, Basename, ChunkName;
    if cs == [] {
      assert cs + [c] == [c];
    } else {
      assert (cs + [c])[1..] == cs[1..] + [c];
      TargetedNamesAppend(cs[1..], c, targets, decode);
    }
  }

  lemma {:induction false} NamesCount(cs: seq<Command>, targets: set<string>, decode: Decoder)
    ensures |TargetedNames(cs, targets, decode)| + |Filter(cs, DropsTargets(targets, decode))| == |cs|
  {
    if cs != [] {
      NamesCount(cs[1..], targets, decode);
    }
  }

  method StripFromSlice(buf: array<byte>, base: nat, targets: set<string>, decode: Decoder)
      returns (removed: seq<string>)
    requires WellFormed(buf[..], base) && OffsetsInside(CommandList(buf[..], base))
    modifies buf
    ensures removed == TargetedNames(old(CommandList(buf[..], base)), targets, decode)
    ensures buf[..] == Stripped(old(buf[..]), base, DropsTargets(targets, decode))
  {
    hide U32At, CString, LE32, Flatten, Walks, Commands, CommandList, Rebuilt, Splice, Filter, TargetedNames,
         Targeted, Basename, ChunkName;
    ghost var b, cs, drop := buf[..], CommandList(buf[..], base), DropsTargets(targets, decode);
    var n, size, start := NCmds(buf[..], base), SizeOfCmds(buf[..], base), base + HEADER_SIZE;
    var kept;
    kept, removed := Survivors(buf[..], base, targets, decode);
    NamesCount(cs, targets, decode);
    if removed == [] {
      NothingTargeted(cs, targets, decode);
      StrippedTwice(b, base, drop);
      return;
    }
    StrippedFits(b, base, drop);
    StrippedIsFiltered(b, base, drop);
    Put(buf, start, kept + Zeros(size - |kept|));
    Put(buf, base + 16, LE32(n - |removed|) + LE32(|kept|));
    ZerosBehind(b, start, kept, size);
    OneStore(b, base, Filter(cs, drop));
  }

  /** The loop over the commands: what is kept, and the names of what is not. */
  method Survivors(buf: seq<byte>, base: nat, targets: set<string>, decode: Decoder)
    returns (kept: seq<byte>, removed: seq<string>)
    requires WellFormed(buf, base) && OffsetsInside(CommandList(buf, base))
    ensures kept == Flatten(Filter(CommandList(buf, base), DropsTargets(targets, decode)))
    ensures removed == TargetedNames(CommandList(buf, base), targets, decode)
  {
    hide U32At, CString, Flatten, Walks, Commands, CommandList, Filter, TargetedNames, Basename, ChunkName;
    ghost var cs, drop := CommandList(buf, base), DropsTargets(targets, decode);
    kept, removed := [], [];
    var pos, i := base + HEADER_SIZE, 0;
    FoundAtStart(cs, base, 0, 0);
    FilterStart(drop);
    NoNames(targets, decode);
    while i < NCmds(buf, base)
      invariant 0 <= i <= |cs| && pos == PosOf(cs, base, i)
      invariant kept == Flatten(Filter(cs[..i], drop))
      invariant removed == TargetedNames(cs[..i], targets, decode)
    {
      CommandRead(buf, base, i);
      PosOfNext(cs, base, i);
      FilterStep(cs, i, drop);
      NamesStep(cs, i, targets, decode);
      assert cs[i] in cs;
      var cmd, cmdsize := U32At(buf, pos), U32At(buf, pos + 4);
      var chunk := buf[pos..pos + cmdsize];
      if IsDylibKind(cmd) && Basename(decode(ChunkName(chunk))) in targets {
        removed := removed + [decode(ChunkName(chunk))];
      } else {
        kept := kept + chunk;
      }
      pos, i := pos + cmdsize, i + 1;
    }
    assert cs[..i] == cs;
  }

  lemma NamesStep(cs: seq<Command>, i: nat, targets: set<string>, decode: Decoder)
    requires i < |cs|
    ensures TargetedNames(cs[..i + 1], targets, decode)
      == TargetedNames(cs[..i], targets, decode)
         + if Targeted(cs[i], targets, decode) then [decode(ChunkName(cs[i]))] else []
  {
    hide TargetedNames, Targeted;
    assert cs[..i + 1] == cs[..i] + [cs[i]];
    TargetedNamesAppend(cs[..i], cs[i], targets, decode);
  }

  lemma NoNames(targets: set<string>, decode: Decoder)
    ensures TargetedNames([], targets, decode) == []
  {
  }

  /** A load, weak load or re-export, as the script numbers it, whose name ends in one of the targets. */
  predicate AtTarget(c: Command, targets: set<string>, decode: Decoder) {
    && 12 <= |c| && U32At(c, 0) in {0xC, 0x8000_0018, 0x1F}
    && LastComponentIn(decode(if U32At(c, 8) <= |c| then CString(c, U32At(c, 8)) else []), targets)
  }

  /** What follows the last slash of the path, or the path itself, is in the set. */
  predicate LastComponentIn(path: string, targets: set<string>) {
    exists k :: 0 <= k <= |path| && (k == 0 || path[k - 1] == '/') && '/' !in path[k..] && path[k..] in targets
  }

  lemma BasenameIsLast(path: string, targets: set<string>)
    ensures LastComponentIn(path, targets) <==> Basename(path) in targets
  {
    var r := Basename(path);
    var at := |path| - |r|;
    assert path[at..] == r;
    forall k: nat | k <= |path| && k != at
      ensures !((k == 0 || path[k - 1] == '/') && '/' !in path[k..])
    {
      OneLastComponent(path, at, k);
    }
  }

  /** A last component starts nowhere but behind the last slash. */
  lemma OneLastComponent(path: string, at: nat, k: nat)
    requires at <= |path| && k <= |path| && k != at && '/' !in path[at..] && (at == 0 || path[at - 1] == '/')
    ensures k < at ==> '/' in path[k..]
    ensures at < k ==> path[k - 1] != '/'
  {
    if k < at {
      assert path[k..][at - 1 - k] == '/';
    } else {
      assert path[at..][k - 1 - at] == path[k - 1];
    }
  }

  lemma TargetedIsAtTarget(c: Command, targets: set<string>, decode: Decoder)
    requires SelfSized(c) && (IsDylibKind(Kind(c)) ==> 12 <= |c|)
    ensures Targeted(c, targets, decode) <==> AtTarget(c, targets, decode)
  {
    hide U32At, Basename, LastComponentIn;
    if 12 <= |c| {
      NoNameAtEnd(c);
      BasenameIsLast(decode(ChunkName(c)), targets);
    }
  }

  lemma NoNameAtEnd(c: Command)
    ensures CString(c, |c|) == []
  {
  }

  /** The script takes the commands one after the other: it leaves out those that name a target and reports their full
      names. */
  lemma StripMeans(cs: seq<Command>, targets: set<string>, decode: Decoder, i: nat)
    requires OffsetsInside(cs) && i < |cs|
    ensures var none: seq<Command> := [];
            Filter(none, DropsTargets(targets, decode)) == none && TargetedNames([], targets, decode) == []
    ensures var c, drop := cs[i], DropsTargets(targets, decode);
            if AtTarget(c, targets, decode) then
              && Filter(cs[..i + 1], drop) == Filter(cs[..i], drop)
              && TargetedNames(cs[..i + 1], targets, decode)
                   == TargetedNames(cs[..i], targets, decode)
                      + [decode(if U32At(c, 8) <= |c| then CString(c, U32At(c, 8)) else [])]
            else
              && Filter(cs[..i + 1], drop) == Filter(cs[..i], drop) + [c]
              && TargetedNames(cs[..i + 1], targets, decode) == TargetedNames(cs[..i], targets, decode)
  {
    hide U32At, Flatten, AtTarget, Targeted, TargetedNames;
    assert cs[i] in cs;
    TargetedIsAtTarget(cs[i], targets, decode);
    FilterStep(cs, i, DropsTargets(targets, decode));
    NamesStep(cs, i, targets, decode);
    NoNames(targets, decode);
    NameOf(cs[i], targets, decode);
  }

  lemma NameOf(c: Command, targets: set<string>, decode: Decoder)
    ensures AtTarget(c, targets, decode) ==>
      12 <= |c| && ChunkName(c) == if U32At(c, 8) <= |c| then CString(c, U32At(c, 8)) else []
  {
    hide U32At, LastComponentIn;
    NoNameAtEnd(c);
  }

  lemma {:induction false} NothingTargeted(cs: seq<Command>, targets: set<string>, decode: Decoder)
    requires TargetedNames(cs, targets, decode) == []
    ensures forall c :: c in cs ==> !DropsTargets(targets, decode)(c)
  {
    if cs != [] {
      NothingTargeted(cs[1..], targets, decode);
      assert forall c :: c in cs ==> c == cs[0] || c in cs[1..];
    }
  }

  lemma ZerosBehind(b: seq<byte>, start: nat, kept: seq<byte>, size: nat)
    requires |kept| <= size && start + size <= |b|
    ensures Splice(b, start, kept + Zeros(size - |kept|)) == Splice(Splice(b, start, Zeros(size)), start, kept)
  {
  }

  lemma OneStore(b: seq<byte>, base: nat, cs: seq<Command>)
    requires HasHeader(b, base) && AreaEnd(b, base) <= |b| && Fits(b, base, cs)
    ensures Splice(Splice(Splice(b, base + HEADER_SIZE, Zeros(SizeOfCmds(b, base))), base + HEADER_SIZE, Flatten(cs)),
                   base + 16, Counts(cs)) == Rebuilt(b, base, cs)
  {
  }

  // ---------------------------------------------------------------- against the signer's remover

  /** The two removers treat the command alike. For a library load the full path is one of `names` exactly
      when its last component is one of `targets`; the kind that only the script looks at is not targeted. */
  predicate AgreesOn(c: Command, names: set<seq<byte>>, targets: set<string>, decode: Decoder)
    requires SelfSized(c) && (LoadsDylib(c) ==> NameInside(c))
  {
    if LoadsDylib(c) then DylibName(c) in names <==> Basename(decode(DylibName(c))) in targets
    else Kind(c) == PY_LC_REEXPORT_DYLIB ==> !NamesTarget(c, targets, decode)
  }

  lemma AgreesMeaning(c: Command, names: set<seq<byte>>, targets: set<string>, decode: Decoder)
    requires SelfSized(c) && (LoadsDylib(c) ==> NameInside(c))
    ensures AgreesOn(c, names, targets, decode) <==> (Loads(c, names) <==> Targeted(c, targets, decode))
  {
    hide U32At, CString, Basename;
  }

  /** The script's remover and the signer's leave the same bytes exactly when they treat every command of the
      slice alike. */
  lemma RemoversAgree(b: seq<byte>, base: nat, names: set<seq<byte>>, targets: set<string>, decode: Decoder)
    requires WellFormed(b, base) && NamesReadable(CommandList(b, base))
    ensures Stripped(b, base, DropsTargets(targets, decode)) == Stripped(b, base, DropsNamed(names)) <==>
      forall c :: c in CommandList(b, base) ==> AgreesOn(c, names, targets, decode)
  {
    hide U32At, CString, Flatten, Walks, Commands, CommandList, Filter, Basename, Stripped, AgreesOn, Targeted, Loads;
    var cs, drop, drop' := CommandList(b, base), DropsTargets(targets, decode), DropsNamed(names);
    forall c | c in cs ensures AgreesOn(c, names, targets, decode) <==> drop(c) == drop'(c) {
      AgreesMeaning(c, names, targets, decode);
    }
    StrippedIsFiltered(b, base, drop);
    StrippedIsFiltered(b, base, drop');
    if forall c :: c in cs ==> AgreesOn(c, names, targets, decode) {
      SameFilterSameBytes(b, base, drop, drop');
    }
  }

  lemma SameFilterSameBytes(b: seq<byte>, base: nat, drop: Command -> bool, drop': Command -> bool)
    requires WellFormed(b, base) && forall c :: c in CommandList(b, base) ==> drop(c) == drop'(c)
    ensures Stripped(b, base, drop) == Stripped(b, base, drop')
  {
    FilterAgree(CommandList(b, base), drop, drop');
  }

  /** With the last components of `names` as targets the script removes no less; it leaves the same bytes
      exactly when no other library has one of these last components. */
  lemma BasenamesAgree(b: seq<byte>, base: nat, names: set<seq<byte>>, targets: set<string>, decode: Decoder)
    requires WellFormed(b, base) && NamesReadable(CommandList(b, base))
    requires targets == set n | n in names :: Basename(decode(n))
    ensures Stripped(b, base, DropsTargets(targets, decode)) == Stripped(b, base, DropsNamed(names)) <==>
      forall c :: c in CommandList(b, base) && Targeted(c, targets, decode) ==> Loads(c, names)
  {
    hide U32At, CString, Flatten, Walks, Commands, CommandList, Filter, Basename, Stripped, AgreesOn, Targeted, Loads;
    RemoversAgree(b, base, names, targets, decode);
    forall c | c in CommandList(b, base)
      ensures AgreesOn(c, names, targets, decode) <==> (Targeted(c, targets, decode) ==> Loads(c, names))
    {
      AgreesMeaning(c, names, targets, decode);
      NamedIsTargeted(c, names, targets, decode);
    }
  }

  lemma NamedIsTargeted(c: Command, names: set<seq<byte>>, targets: set<string>, decode: Decoder)
    requires targets == set n | n in names :: Basename(decode(n))
    ensures Loads(c, names) ==> Targeted(c, targets, decode)
  {
    hide U32At, CString, Basename;
  }

  // ---------------------------------------------------------------- the re-export constant

  /** The format's own value of the re-export kind; the script has 0x1F. */
  const LC_REEXPORT_DYLIB: u32 := 0x8000_001F

  /** A command of one of the three kinds the script is after, as the format numbers them, for a target. */
  predicate LoadsTarget(c: Command, targets: set<string>, decode: Decoder) {
    && SelfSized(c) && Kind(c) in {LC_LOAD_DYLIB, LC_LOAD_WEAK_DYLIB, LC_REEXPORT_DYLIB}
    && NamesTarget(c, targets, decode)
  }

  /** After the script has run, some command still loads a target exactly when one of the re-export kind did
      before. */
  lemma OnlyReexportsStay(b: seq<byte>, base: nat, targets: set<string>, decode: Decoder)
    requires WellFormed(b, base)
    ensures var r := Stripped(b, base, DropsTargets(targets, decode));
            && WellFormed(r, base)
            && ((forall c :: c in CommandList(r, base) ==> !LoadsTarget(c, targets, decode)) <==>
                (forall c :: c in CommandList(b, base) && LoadsTarget(c, targets, decode) ==>
                  Kind(c) != LC_REEXPORT_DYLIB))
  {
    hide U32At, CString, Flatten, Walks, Commands, CommandList, Filter, NamesTarget, Stripped;
    StrippedIsFiltered(b, base, DropsTargets(targets, decode));
  }

  /** Such a command: a re-export of "a", with `a` as target. */
  lemma ReexportStays(decode: Decoder) returns (c: Command)
    requires decode([0x61]) == "a"
    ensures LoadsTarget(c, {"a"}, decode) && !DropsTargets({"a"}, decode)(c)
  {
    hide U32At, CString, Basename, DylibName, ChunkName, NameInside;
    c := ReexportOf([0x61]);
    SameName(c);
    BasenameOfOne('a');
  }

  lemma ReexportOf(name: seq<byte>) returns (c: Command)
    requires |name| == 1 && 0 !in name
    ensures SelfSized(c) && 12 <= |c| && Kind(c) == LC_REEXPORT_DYLIB && NameInside(c) && DylibName(c) == name
  {
    hide U32At, LE32, CString, DylibHeader, DylibName, NameInside, Zeros;
    c := DylibHeader(LC_REEXPORT_DYLIB, 32) + name + Zeros(7);
    PaddedDylibReads(c, DylibHeader(LC_REEXPORT_DYLIB, 32), LC_REEXPORT_DYLIB, name, 7);
  }

  lemma SameName(c: Command)
    requires SelfSized(c) && NameInside(c)
    ensures 12 <= |c| && ChunkName(c) == DylibName(c)
  {
    hide U32At, CString;
  }

  lemma BasenameOfOne(ch: char)
    requires ch != '/'
    ensures Basename([ch]) == [ch]
  {
    var none: string := [];
    assert [ch][..0] == none;
  }
}
