/** One slice of a mapped Mach-O file: parsing it, and editing its load commands in place. */
module ArchO {
  import opened Bytes
  import opened LoadCommands
  import opened CommandEdits
  import opened SliceFacts
  import opened SignSpace
  import opened SuperBlob
  import opened Signing
  import CodeDirectory

  class ZArchO {
    const file: array<byte>
    const off: nat
    const length: u32

    var fileType: u32
    var codeLength: u32
    var signBase: Option<nat>
    var codeSignSegment: Option<nat>
    var linkEditSegment: Option<nat>
    var loadCommandsFreeSpace: u32
    var execSegLimit: u64
    var enoughSpace: bool

    constructor (file: array<byte>, off: nat, length: u32)
      ensures this.file == file && this.off == off && this.length == length
      ensures enoughSpace && signBase == None && codeSignSegment == None && linkEditSegment == None
      ensures codeLength == 0 && loadCommandsFreeSpace == 0 && execSegLimit == 0 && fileType == 0
    {
      this.file, this.off, this.length := file, off, length;
      fileType, codeLength, loadCommandsFreeSpace, execSegLimit := 0, 0, 0, 0;
      signBase, codeSignSegment, linkEditSegment, enoughSpace := None, None, None, true;
    }

    /** The slice lies in the file and its command area is well formed and inside the slice. */
    predicate SliceOk()
      reads file
    {
      && off + length <= file.Length
      && HEADER_SIZE <= length
      && WellFormed(file[..], off)
      && AreaEnd(file[..], off) <= off + length
    }

    function Cmds(): seq<Command>
      reads file
      requires SliceOk()
    {
      CommandList(file[..], off)
    }

    /** Size of the header and the commands together. */
    function HeadEnd(): nat
      reads file
      requires SliceOk()
    {
      HEADER_SIZE + SizeOfCmds(file[..], off)
    }

    function Fields(): Findings
      reads this
    {
      Findings(linkEditSegment, codeSignSegment, signBase, codeLength, loadCommandsFreeSpace, execSegLimit)
    }

    /** The fields say what the slice's commands say. */
    predicate Parsed()
      reads this, file
    {
      && SliceOk()
      && AllParsable(Cmds())
      && Fields() == Found(Cmds(), off, length, HeadEnd())
    }

    method Init() returns (ok: bool)
      requires off + length <= file.Length
      requires length > 0 ==> HEADER_SIZE <= length
      requires length > 0 ==> U32At(file[..], off) !in {MH_MAGIC, MH_CIGAM, MH_CIGAM_64}
      requires length > 0 && U32At(file[..], off) == MH_MAGIC_64 ==> SliceOk() && AllParsable(Cmds())
      requires signBase == None && codeSignSegment == None && linkEditSegment == None && loadCommandsFreeSpace == 0
        && execSegLimit == 0
      modifies this
      ensures ok <==> length > 0 && U32At(file[..], off) == MH_MAGIC_64
      ensures ok ==> Parsed() && fileType == U32At(file[..], off + 12)
      ensures enoughSpace == old(enoughSpace)
    {
      hide U32At, CString, U64At, Flatten;
      if length <= 0 {
        return false;
      }
      codeLength := RoundUp16(length);
      var b := file[..];
      if U32At(b, off) != MH_MAGIC_64 {
        return false;
      }
      fileType := U32At(b, off + 12);

      ParseCommands(b);
      ok := true;
    }

    /** The parser's loop over the commands of the slice in `b`. */
    method ParseCommands(b: seq<byte>)
      requires WellFormed(b, off) && AllParsable(CommandList(b, off))
      requires Fields() == Findings(None, None, None, RoundUp16(length), 0, 0)
      modifies this
      ensures Fields() == Found(CommandList(b, off), off, length, HEADER_SIZE + SizeOfCmds(b, off))
      ensures enoughSpace == old(enoughSpace) && fileType == old(fileType)
    {
      hide U32At, CString, U64At, Flatten, Walks, Commands, Found, CommandList, Parsable;
      ghost var cs := CommandList(b, off);
      var headEnd := HEADER_SIZE + SizeOfCmds(b, off);
      var p, i := off + HEADER_SIZE, 0;
      FoundAtStart(cs, off, length, headEnd);
      while i < NCmds(b, off)
        invariant 0 <= i <= |cs| && p == PosOf(cs, off, i)
        invariant AllParsable(cs[..i])
        invariant Fields() == Found(cs[..i], off, length, headEnd)
        invariant fileType == old(fileType) && enoughSpace == old(enoughSpace)
      {
        CommandRead(b, off, i);
        PosOfNext(cs, off, i);
        FoundStep(cs, i, off, length, headEnd);
        ParseCommand(p, b[p..p + U32At(b, p + 4)], headEnd);
        p, i := p + U32At(b, p + 4), i + 1;
      }
      assert cs[..i] == cs;
    }

    /** The body of the parser's switch for the command at `p`. */
    method ParseCommand(p: nat, command: Command, headEnd: nat)
      requires Parsable(command)
      modifies this
      ensures Fields() ==
        if IsCodeSignature(command) then
          old(Fields()).(codeSign := Some(p), codeLength := DataOff(command), signBase := Some(off + DataOff(command)))
        else if IsLinkEdit(command) then old(Fields()).(linkEdit := Some(p))
        else if SegmentNamed(command, TEXT) then
          old(Fields()).(freeSpace := SectionSpace(command, NSects(command), headEnd, old(loadCommandsFreeSpace)),
                         execLimit := VmSize(command))
        else old(Fields())
      ensures enoughSpace == old(enoughSpace) && fileType == old(fileType)
    {
      hide U32At, CString, U64At;
      if Kind(command) == LC_SEGMENT_64 {
        var name := CString(command, 8);
        if name == TEXT {
          execSegLimit := VmSize(command);
          loadCommandsFreeSpace := ScanSections(command, headEnd, loadCommandsFreeSpace);
        } else if name == LINKEDIT {
          linkEditSegment := Some(p);
        }
      } else if Kind(command) == LC_CODE_SIGNATURE {
        codeSignSegment := Some(p);
        codeLength := DataOff(command);
        signBase := Some(off + codeLength);
      }
    }

    /** The test that lets a new command through: an unknown gap is never refused. */
    predicate SpaceAllows(name: seq<byte>)
      reads this
    {
      loadCommandsFreeSpace == 0 || DylibSize(name) <= loadCommandsFreeSpace
    }

    /** `size` bytes behind the commands lie in the file, and the raised `sizeofcmds` fits its field. */
    predicate InFile(size: nat)
      reads file
      requires SliceOk()
    {
      off + HeadEnd() + size <= file.Length && HeadEnd() + size < TWO32
    }

    method InjectDylib(weak: bool, name: seq<byte>) returns (ok: bool)
      requires SliceOk() && NamesReadable(Cmds())
      requires 0 !in name && |name| + DYLIB_COMMAND_SIZE + 8 < TWO32
      // the code writes without looking where the file ends
      requires FirstLoad(Cmds(), name).None? && SpaceAllows(name) ==> InFile(DylibSize(name))
      modifies file
      ensures ok <==>
        || old(FirstLoad(Cmds(), name).Some?)
        || loadCommandsFreeSpace == 0
        || |DylibCommand(weak, name)| <= loadCommandsFreeSpace
      ensures ok ==> Fits(old(file[..]), off, Injected(old(Cmds()), weak, name))
      ensures file[..] == if ok then Rebuilt(old(file[..]), off, Injected(old(Cmds()), weak, name)) else old(file[..])
    {
      hide U32At, CString, LE32, Flatten, Walks, Commands, CommandList, Rebuilt, Splice;
      var found, k := FindDylib(file[..], name);
      if found.Some? {
        var p := found.value;
        CommandRead(file[..], off, k);
        EditOne(file[..], off, k, 0, LE32(LoadKind(weak)));
        if U32At(file[..], p) != LoadKind(weak) {
          Put(file, p, LE32(LoadKind(weak)));
        } else {
          KeepKind(file[..], off, k, weak);
        }
        return true;
      }
      var size := DylibSize(name);
      if loadCommandsFreeSpace > 0 && loadCommandsFreeSpace < size {
        return false;
      }
      AppendDylib(weak, name);
      ok := true;
    }

    /** The part of `InjectDylib` that looks for a command loading `name`; `k` is its index. */
    method FindDylib(b: seq<byte>, name: seq<byte>) returns (found: Option<nat>, ghost k: nat)
      requires WellFormed(b, off) && NamesReadable(CommandList(b, off))
      ensures found.None? <==> FirstLoad(CommandList(b, off), name).None?
      ensures found.Some? ==> FirstLoad(CommandList(b, off), name) == Some(k)
      ensures found.Some? ==> found.value == PosOf(CommandList(b, off), off, k)
    {
      hide U32At, CString, Flatten, Walks, Commands, CommandList;
      ghost var cs := CommandList(b, off);
      var p, i := off + HEADER_SIZE, 0;
      FoundAtStart(cs, off, 0, 0);
      while i < NCmds(b, off)
        invariant 0 <= i <= |cs| && p == PosOf(cs, off, i)
        invariant forall j :: 0 <= j < i ==> !Loads(cs[j], {name})
      {
        CommandRead(b, off, i);
        PosOfNext(cs, off, i);
        var named := NamedAt(b, p, i, {name});
        if named {
          FirstLoadIs(cs, name, i);
          return Some(p), i;
        }
        p, i := p + U32At(b, p + 4), i + 1;
      }
      NoFirstLoad(cs, name);
      return None, 0;
    }

    /** The part of `InjectDylib` that writes a new command behind the last one. */
    method AppendDylib(weak: bool, name: seq<byte>)
      requires SliceOk() && |name| + DYLIB_COMMAND_SIZE + 8 < TWO32 && 0 !in name
      requires InFile(DylibSize(name))
      modifies file
      ensures Fits(old(file[..]), off, old(Cmds()) + [DylibCommand(weak, name)])
      ensures file[..] == Rebuilt(old(file[..]), off, old(Cmds()) + [DylibCommand(weak, name)])
    {
      hide U32At, LE32, Flatten, Walks, Commands, CommandList, Rebuilt, Splice;
      ghost var b, c, cs := file[..], DylibCommand(weak, name), Cmds();
      var at := AreaEnd(file[..], off);
      var n, size := NCmds(file[..], off), SizeOfCmds(file[..], off);
      DylibCommandReads(weak, name);
      RoomForOneMore(b, off, DylibSize(name));
      AppendOne(b, off, c);

      Put(file, at, DylibHeader(LoadKind(weak), DylibSize(name)));
      Put(file, at + DYLIB_COMMAND_SIZE, name + Zeros(8 - |name| % 8));
      TwoPuts(b, at, DylibHeader(LoadKind(weak), DylibSize(name)), name + Zeros(8 - |name| % 8), c);
      ghost var b' := file[..];
      Put(file, off + 16, LE32(n + 1));
      Put(file, off + 20, LE32(size + DylibSize(name)));
      TwoPuts(b', off + 16, LE32(n + 1), LE32(size + DylibSize(name)), Counts(cs + [c]));
    }

    method RemoveDylibs(names: set<seq<byte>>)
      requires SliceOk() && NamesReadable(Cmds())
      modifies file
      ensures file[..] == Stripped(old(file[..]), off, DropsNamed(names))
    {
      hide U32At, CString, LE32, Flatten, Walks, Commands, CommandList, Rebuilt, Splice, Filter;
      ghost var b, cs, drop := file[..], Cmds(), DropsNamed(names);
      var start, n, oldSize := off + HEADER_SIZE, NCmds(file[..], off), SizeOfCmds(file[..], off);
      var survivors, clearNum, clearSize := CopySurvivors(file[..], names);
      ghost var kept := Filter(cs, drop);
      StrippedFits(b, off, drop);
      CommandsFlatten(b, start, n, AreaEnd(b, off));

      Put(file, off + 16, LE32(n - clearNum));
      Put(file, off + 20, LE32(oldSize - clearSize));
      TwoPuts(b, off + 16, LE32(n - clearNum), LE32(oldSize - clearSize), Counts(kept));
      Put(file, start, Zeros(oldSize));
      Put(file, start, survivors);
      CountsFirst(b, off, kept);
    }

    /** Whether the command at `p`, number `i`, loads one of `names`. */
    method NamedAt(b: seq<byte>, p: nat, ghost i: nat, names: set<seq<byte>>) returns (named: bool)
      requires WellFormed(b, off) && NamesReadable(CommandList(b, off))
      requires i < NCmds(b, off) && p == PosOf(CommandList(b, off), off, i)
      ensures named == Loads(CommandList(b, off)[i], names)
    {
      hide U32At, CString, Flatten, Walks, Commands, CommandList;
      ghost var c := CommandList(b, off)[i];
      CommandRead(b, off, i);
      assert c in CommandList(b, off);
      var kind := U32At(b, p);
      if kind == LC_LOAD_DYLIB || kind == LC_LOAD_WEAK_DYLIB {
        FieldIn32(b, off, i, 8);
        StringIn(b, off, i, U32At(c, 8));
        return CString(b, p + U32At(b, p + 8)) in names;
      }
      return false;
    }

    /** The loop of `RemoveDylibs`: the surviving commands gathered one behind the other in a scratch
        buffer as large as the old area, and how many commands and bytes were dropped. */
    method CopySurvivors(b: seq<byte>, names: set<seq<byte>>)
      returns (survivors: seq<byte>, clearNum: nat, clearSize: nat)
      requires WellFormed(b, off) && NamesReadable(CommandList(b, off))
      ensures var kept := Filter(CommandList(b, off), DropsNamed(names));
              && survivors == Flatten(kept)
              && clearNum == NCmds(b, off) - |kept|
              && clearSize == SizeOfCmds(b, off) - |Flatten(kept)|
    {
      hide U32At, CString, Flatten, Walks, Commands, CommandList, Filter, Splice;
      ghost var cs, drop := CommandList(b, off), DropsNamed(names);
      var oldSize := SizeOfCmds(b, off);
      var scratch := new byte[oldSize](_ => 0);
      var p, i, w := off + HEADER_SIZE, 0, 0;
      clearNum, clearSize := 0, 0;
      FoundAtStart(cs, off, 0, 0);
      FilterStart(drop);
      while i < NCmds(b, off)
        invariant 0 <= i <= |cs| && p == PosOf(cs, off, i) && scratch.Length == oldSize && fresh(scratch)
        invariant w + clearSize == p - off - HEADER_SIZE && |Filter(cs[..i], drop)| + clearNum == i
        invariant 0 <= w <= oldSize && scratch[..w] == Flatten(Filter(cs[..i], drop))
      {
        CommandRead(b, off, i);
        PosOfNext(cs, off, i);
        FilterStep(cs, i, drop);
        var size := U32At(b, p + 4);
        var dropped := NamedAt(b, p, i, names);
        if dropped {
          clearNum, clearSize := clearNum + 1, clearSize + size;
        } else {
          ghost var before := scratch[..];
          Put(scratch, w, b[p..p + size]);
          PutBehind(before, w, b[p..p + size]);
          w := w + size;
        }
        p, i := p + size, i + 1;
      }
      assert cs[..i] == cs;
      PosOfEnd(b, off);
      survivors := scratch[..w];
    }

    // -------------------------------------------------------------- signing

    /** What `BuildCodeSignature` is handed for this slice: the bytes below the code length, and hashes
        of the resource list, zeros when there is none. */
    function SigningInput(asset: Asset, f: Foreign, bundleId: seq<byte>, infoSHA1: seq<byte>, infoSHA256: seq<byte>,
                          resources: seq<byte>): Input
      reads this, file
      requires off + codeLength <= file.Length
    {
      Input(asset, file[off..off + codeLength], fileType == MH_EXECUTE, execSegLimit, bundleId, infoSHA1, infoSHA256,
            SlotHash(resources, f.sha1, 20), SlotHash(resources, f.sha256, 32))
    }

    /** The slots of the signature to be written: code slots of the signature already behind the code
        are offered unless forced. */
    function SlotsToWrite(i: Input, f: Foreign, force: bool): Slots
      reads this, file
      requires off + codeLength <= file.Length && Fitting(i, f) && f.Sound()
      requires force || RegionsInside(Some(file[off + codeLength..]))
    {
      SlotsFor(i, f, Existing(force, Some(file[off + codeLength..]), CSSLOT_CODEDIRECTORY),
               Existing(force, Some(file[off + codeLength..]), CSSLOT_ALTERNATE_CODEDIRECTORIES))
    }

    /** Writes a signature behind the code. It is refused for want of a signature command or of room;
        then the flag that asks for more room is set and no byte changes. */
    method Sign(asset: Asset, f: Foreign, force: bool, bundleId: seq<byte>, infoSHA1: seq<byte>, infoSHA256: seq<byte>,
                resources: seq<byte>) returns (ok: bool)
      requires off + length <= file.Length && length < 0x8000_0000
      requires signBase.Some? ==> signBase.value == off + codeLength <= file.Length && codeLength < 0x8000_0000
      requires signBase.Some? ==>
        var i := SigningInput(asset, f, bundleId, infoSHA1, infoSHA256, resources);
        && Fitting(i, f) && f.Sound() && (force || RegionsInside(Some(file[off + codeLength..])))
        && SlotsToWrite(i, f, force).Sound()
      modifies this, file
      ensures signBase == old(signBase) && codeLength == old(codeLength) && codeSignSegment == old(codeSignSegment)
        && linkEditSegment == old(linkEditSegment) && loadCommandsFreeSpace == old(loadCommandsFreeSpace)
        && fileType == old(fileType) && execSegLimit == old(execSegLimit)
      ensures !ok ==> !enoughSpace && file[..] == old(file[..])
      ensures ok ==> enoughSpace == old(enoughSpace)
      ensures signBase.None? ==> !ok
      ensures signBase.Some? ==>
        var slots := old(SlotsToWrite(SigningInput(asset, f, bundleId, infoSHA1, infoSHA256, resources), f, force));
        && 12 + 8 * |Present(slots.All())| + TotalSize(Present(slots.All())) < TWO32
        && var blob := Assembled(Present(slots.All()));
           && (ok <==> |blob| <= length - codeLength)
           && (ok ==> file[..] == Splice(old(file[..]), off + codeLength, blob))
    {
      hide Words, Assembled, Present, Slots.All, TotalSize, Fitting, Slots.Sound, RegionsInside, SlotsFor,
           Existing, Splice;
      if signBase.None? {
        enoughSpace := false;
        return false;
      }
      var i := SigningInput(asset, f, bundleId, infoSHA1, infoSHA256, resources);
      var blob := BuildCodeSignature(i, f, force, Some(file[signBase.value..]));
      var space := length - codeLength - |blob|;
      if space < 0 {
        enoughSpace := false;
        return false;
      }
      Put(file, off + codeLength, blob);
      ok := true;
    }

    // -------------------------------------------------------------- room for the signature

    /** The two stores that make `__LINKEDIT`, command `k` at `p`, end at `n`. */
    method StretchLinkEdit(p: nat, ghost k: nat, n: u32)
      requires SliceOk() && k < |Cmds()| && p == PosOf(Cmds(), off, k) && IsLinkEdit(Cmds()[k])
      requires length < n && SEGMENT_SIZE <= |Cmds()[k]|
      modifies file
      ensures var cs' := old(Cmds())[k := Stretched(old(Cmds())[k], length, n)];
              SameRoom(old(file[..]), off, cs') && file[..] == Rebuilt(old(file[..]), off, cs')
    {
      hide U32At, U64At, CString, LE64, Flatten, Splice, Rebuilt, Walks, Commands, CommandList, ByteAlign,
           Parsable, SameRoom;
      ghost var b, cs := file[..], Cmds();
      ghost var c := cs[k];
      OwnRoom(b, off);
      FieldIn64(b, off, k, 32);
      FieldIn64(b, off, k, 40);
      var fileOff := U64At(file[..], p + 40) % TWO32;
      var vmSize := ByteAlign((U64At(file[..], p + 32) % TWO32 + (n - length)) % TWO32, 4096);
      Put(file, p + 32, LE64(vmSize));
      EditNext(b, off, cs, k, 32, LE64(vmSize));
      ghost var mid := Splice(c, 32, LE64(vmSize));
      PosOfKept(cs, off, k, mid, k);
      var fileSize := (n - fileOff) % TWO32;
      EditNext(b, off, cs[k := mid], k, 48, LE64(fileSize));
      Put(file, p + 48, LE64(fileSize));
      assert cs[k := mid][k := Splice(mid, 48, LE64(fileSize))] == cs[k := Stretched(c, length, n)];
    }

    /** The store of `datasize` into an existing signature command, number `j` at `p`. */
    method SizeSignature(p: nat, ghost j: nat, ghost cs: seq<Command>, ghost k: nat, ghost c: Command,
        ghost b: seq<byte>, dataSize: u32)
      requires WellFormed(b, off) && k < |cs| && j < |cs| && j != k && |c| == |cs[k]|
      requires SameRoom(b, off, cs[k := c]) && file[..] == Rebuilt(b, off, cs[k := c])
      requires p == PosOf(cs, off, j) && CODESIGNATURE_SIZE <= |cs[j]|
      modifies file
      ensures SameRoom(b, off, cs[k := c][j := Sized(cs[j], dataSize)])
      ensures file[..] == Rebuilt(b, off, cs[k := c][j := Sized(cs[j], dataSize)])
    {
      hide U32At, LE32, Flatten, Splice, Rebuilt, Walks, Commands, SameRoom, WellFormed;
      PosOfKept(cs, off, k, c, j);
      EditNext(b, off, cs[k := c], j, 12, LE32(dataSize));
      Put(file, p + 12, LE32(dataSize));
    }

    /** The stores that add a signature command behind the others. */
    method AddSignature(ghost cs: seq<Command>, ghost b: seq<byte>, dataSize: u32)
      requires WellFormed(b, off) && SameRoom(b, off, cs) && file[..] == Rebuilt(b, off, cs)
      requires off + HEADER_SIZE + SizeOfCmds(b, off) + CODESIGNATURE_SIZE <= file.Length
      requires HEADER_SIZE + SizeOfCmds(b, off) + CODESIGNATURE_SIZE < TWO32
      modifies file
      ensures Fits(b, off, cs + [CodeSignatureCommand(codeLength, dataSize)])
      ensures file[..] == Rebuilt(b, off, cs + [CodeSignatureCommand(codeLength, dataSize)])
    {
      hide U32At, LE32, Flatten, Splice, Rebuilt, Walks, Commands, SameRoom, WellFormed, CodeSignatureCommand;
      ghost var c := CodeSignatureCommand(codeLength, dataSize);
      RoomForOneMore(b, off, CODESIGNATURE_SIZE);
      CodeSignatureCommandReads(codeLength, dataSize);
      SignatureIsSized(c);
      AppendNext(b, off, cs, c);
      HeaderKept(b, off, cs);
      ghost var r := file[..];
      var n, size := NCmds(file[..], off), SizeOfCmds(file[..], off);
      var at := off + HEADER_SIZE + size;
      Put(file, at, LE32(LC_CODE_SIGNATURE) + LE32(CODESIGNATURE_SIZE) + LE32(codeLength));
      Put(file, off + 16, LE32(n + 1) + LE32(size + CODESIGNATURE_SIZE));
      Put(file, at + 12, LE32(dataSize));
      SplitStore(r, at, off + 16, codeLength, dataSize, Counts(cs + [c]));
    }

    /** Lengthens `__LINKEDIT` and the signature to the size a signature may need, and gives the bytes
        of the slice's new file; 0 when there is no `__LINKEDIT`, the slice is long enough already, or
        the commands have no room for a signature command. */
    method ReallocCodeSignSpace() returns (newLength: u32, newFile: seq<byte>)
      requires Parsed() && LengthInRange(codeLength)
      // 16 bytes are written where the code asks for 4, without looking where the file ends
      requires codeSignSegment.None? && loadCommandsFreeSpace >= 4 ==> InFile(CODESIGNATURE_SIZE)
      modifies file
      ensures var cs, k, m, n := old(Cmds()), Last(old(Cmds()), IsLinkEdit), Last(old(Cmds()), IsCodeSignature),
        NewLength(codeLength);
              if k.None? || n <= length then newLength == 0 && newFile == [] && file[..] == old(file[..])
              else
                && k.value < |cs| && SEGMENT_SIZE <= |cs[k.value]|
                && (m.Some? ==> m.value != k.value && CODESIGNATURE_SIZE <= |cs[m.value]|)
                && codeLength <= n
                && if m.None? && loadCommandsFreeSpace < 4 then
                     && newLength == 0 && newFile == []
                     && var cs' := cs[k.value := Stretched(cs[k.value], length, n)];
                        Fits(old(file[..]), off, cs') && file[..] == Rebuilt(old(file[..]), off, cs')
                   else
                     && newLength == n
                     && newFile == file[off..off + length] + Zeros(n - length)
                     && var cs' := Grown(cs, k.value, m, codeLength, length, n);
                        Fits(old(file[..]), off, cs') && file[..] == Rebuilt(old(file[..]), off, cs')
    {
      hide U32At, U64At, CString, LE32, LE64, Flatten, Splice, Rebuilt, Walks, Commands, CommandList, Last, Found,
           Stretched, Sized, CodeSignatureCommand, ByteAlign, FreeSpace, RoundUp16, WellFormed;
      newFile := [];
      ghost var b, cs := file[..], Cmds();
      ghost var k, m := Last(cs, IsLinkEdit), Last(cs, IsCodeSignature);
      var n := NewLength(codeLength);
      FoundPlaces(cs, off, length, HeadEnd());
      NewLengthRoom(codeLength);
      if linkEditSegment.None? || n <= length {
        return 0, [];
      }
      PickedShapes(cs);
      StretchLinkEdit(linkEditSegment.value, k.value, n);
      if codeSignSegment.None? {
        if loadCommandsFreeSpace < 4 {
          return 0, [];
        }
        AddSignature(cs[k.value := Stretched(cs[k.value], length, n)], b, n - codeLength);
      } else {
        SizeSignature(codeSignSegment.value, m.value, cs, k.value, Stretched(cs[k.value], length, n), b,
          n - codeLength);
      }
      newLength := n;
      newFile := file[off..off + length] + Zeros(n - length);
    }
  }

  /** The counts in the header of a rebuilt buffer whose list takes the old room. */
  lemma HeaderKept(b: seq<byte>, base: nat, cs: seq<Command>)
    requires WellFormed(b, base) && SameRoom(b, base, cs)
    ensures NCmds(Rebuilt(b, base, cs), base) == NCmds(b, base) == |cs|
    ensures SizeOfCmds(Rebuilt(b, base, cs), base) == SizeOfCmds(b, base) == |Flatten(cs)|
  {
    hide U32At, Rebuilt, Flatten;
    RebuiltCounts(b, base, cs);
  }

  lemma SignatureIsSized(c: Command)
    requires IsCodeSignature(c)
    ensures SelfSized(c)
  {
  }

  /** Writing the last field after the counts instead of with the rest makes no difference. */
  lemma SplitStore(r: seq<byte>, at: nat, counts: nat, dataOff: u32, dataSize: u32, newCounts: seq<byte>)
    requires counts + 8 <= at && at + CODESIGNATURE_SIZE <= |r| && |newCounts| == 8
    ensures var head := LE32(LC_CODE_SIGNATURE) + LE32(CODESIGNATURE_SIZE) + LE32(dataOff);
            Splice(Splice(Splice(r, at, head), counts, newCounts), at + 12, LE32(dataSize))
              == Splice(Splice(r, at, CodeSignatureCommand(dataOff, dataSize)), counts, newCounts)
  {
  }

  lemma FoundPlaces(cs: seq<Command>, base: nat, length: u32, headEnd: nat)
    requires AllParsable(cs)
    ensures var f, k, m := Found(cs, base, length, headEnd), Last(cs, IsLinkEdit), Last(cs, IsCodeSignature);
            && (k.None? ==> f.linkEdit == None)
            && (k.Some? ==> k.value < |cs| && f.linkEdit == Some(PosOf(cs, base, k.value)))
            && (m.None? ==> f.codeSign == None && f.signBase == None)
            && (m.Some? ==> m.value < |cs| && f.codeSign == Some(PosOf(cs, base, m.value)))
            && (m.Some? ==> f.signBase == Some(base + f.codeLength))
            && f.codeLength == CodeLengthOf(cs, length)
            && f.freeSpace == FreeSpace(cs, headEnd)
            && f.execLimit == ExecLimit(cs)
  {
  }
}
