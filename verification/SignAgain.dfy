/** A signature read back: its code slots are found again, and signing once more with them gives what
    hashing everything anew would give. */
module SignAgain {
  import opened Bytes
  import opened CodeDirectory
  import opened RequirementSet
  import opened SuperBlob
  import opened Signing

  // ---------------------------------------------------------------- bytes behind the signature

  /** Reading through the signature's base sees the signature and whatever follows it in memory. */
  lemma SameRegion(m: seq<byte>, b: seq<byte>, at: nat)
    requires b <= m && at + HEADER_LENGTH <= |b|
    ensures HashRegion(m, at) == HashRegion(b, at)
  {
  }

  lemma SameWord(m: seq<byte>, b: seq<byte>, at: nat)
    requires b <= m && at + 4 <= |b|
    ensures BigU32At(m, at) == BigU32At(b, at)
  {
  }

  lemma SameReadable(m: seq<byte>, b: seq<byte>)
    requires b <= m && Readable(b) && BigU32At(b, 0) == CSMAGIC_EMBEDDED_SIGNATURE
    ensures Readable(m) && BigU32At(m, 0) == CSMAGIC_EMBEDDED_SIGNATURE && BigU32At(m, 8) == BigU32At(b, 8)
  {
    hide BigU32At;
    SameWord(m, b, 0);
    SameWord(m, b, 8);
    forall i | 0 <= i < BigU32At(b, 8)
      ensures EntryKind(m, i) == EntryKind(b, i) && EntryOffset(m, i) == EntryOffset(b, i)
    {
      SameWord(m, b, 12 + 8 * i);
      SameWord(m, b, 16 + 8 * i);
    }
  }

  lemma {:induction false} SameLastRegion(m: seq<byte>, b: seq<byte>, kind: u32, n: nat)
    requires b <= m && Readable(b) && BigU32At(b, 0) == CSMAGIC_EMBEDDED_SIGNATURE && n <= BigU32At(b, 8)
    requires Readable(m) && BigU32At(m, 0) == CSMAGIC_EMBEDDED_SIGNATURE && BigU32At(m, 8) == BigU32At(b, 8)
    requires kind in {CSSLOT_CODEDIRECTORY, CSSLOT_ALTERNATE_CODEDIRECTORIES}
    ensures LastRegion(m, kind, n) == LastRegion(b, kind, n)
  {
    hide BigU32At, HashRegion;
    if n > 0 {
      SameLastRegion(m, b, kind, n - 1);
      SameWord(m, b, 12 + 8 * (n - 1));
      SameWord(m, b, 16 + 8 * (n - 1));
      if EntryKind(b, n - 1) == kind {
        SameRegion(m, b, EntryOffset(b, n - 1));
      }
    }
  }

  // ---------------------------------------------------------------- finding the directories

  /** The directory in a signature's primary slot and the hash it was built with. */
  function PrimaryRequest(i: Input, f: Foreign, existing1: Option<seq<byte>>, existing256: Option<seq<byte>>): Request
    requires Fitting(i, f)
  {
    RequestFor(i, f, i.asset.sha256Only, if i.asset.sha256Only then existing256 else existing1)
  }

  function PrimaryHash(i: Input, f: Foreign): Hash {
    if i.asset.sha256Only then f.sha256 else f.sha1
  }

  lemma SlotsIncreasing(s: Slots)
    ensures Increasing(s.All()) && Increasing(Present(s.All()))
  {
    PresentIncreasing(s.All());
  }

  /** What the reader finds in a signature for one of the two directory kinds: the slot's code slots
      when the slot was built, nothing when it is empty. */
  lemma SlotFound(s: Slots, kind: u32, r: Request, hash: Hash)
    requires s.Sound() && r.Sound() && Outputs(hash, r.HashSize()) && !r.Refused()
    requires DirectoriesLong(Present(s.All()))
    requires kind in {CSSLOT_CODEDIRECTORY, CSSLOT_ALTERNATE_CODEDIRECTORIES}
    requires (if kind == CSSLOT_CODEDIRECTORY then s.codeDirectory else s.alternate) == Blob(r, hash)
    ensures 12 + 8 * |Present(s.All())| + TotalSize(Present(s.All())) < TWO32
    ensures var b := Assembled(Present(s.All()));
            && Readable(b) && BigU32At(b, 0) == CSMAGIC_EMBEDDED_SIGNATURE
            && var region := LastRegion(b, kind, BigU32At(b, 8));
               && region.Some?
               && region.value.size == r.HashBytes(r.CodeSlots()) > 0
               && region.value.at + region.value.size <= |b|
               && b[region.value.at..region.value.at + region.value.size] == CodeSlotBytes(r, hash)
  {
    hide BigU32At, HashRegion, Blob, CodeSlotBytes, Request.Sound, Request.Refused, Request.HashBytes, Assembled,
         Slots.All, TotalSize, Readable, OffsetOf, LastRegion, Present, Request.CodeSlots, Request.HashSize;
    var es := Present(s.All());
    AssembledSize(s);
    SlotsIncreasing(s);
    AssembledReadable(es);
    LongEnough(r, hash);
    var k := EntryOfKind(s, kind);
    AssembledLayout(es, k);
    DirectoryRegion(Assembled(es), OffsetOf(es, k), r, hash);
    LastRegionFound(es, kind, |es|, k);
  }

  lemma LongEnough(r: Request, hash: Hash)
    requires r.Sound() && Outputs(hash, r.HashSize()) && !r.Refused()
    ensures Blob(r, hash) != []
  {
  }

  /** A non-empty slot of a directory kind is one of the entries. */
  lemma EntryOfKind(s: Slots, kind: u32) returns (k: nat)
    requires kind in {CSSLOT_CODEDIRECTORY, CSSLOT_ALTERNATE_CODEDIRECTORIES}
    requires (if kind == CSSLOT_CODEDIRECTORY then s.codeDirectory else s.alternate) != []
    ensures k < |Present(s.All())|
    ensures Present(s.All())[k] == Entry(kind, if kind == CSSLOT_CODEDIRECTORY then s.codeDirectory else s.alternate)
  {
    hide Present;
    var e := Entry(kind, if kind == CSSLOT_CODEDIRECTORY then s.codeDirectory else s.alternate);
    assert s.All()[0] in s.All() && s.All()[4] in s.All();
    assert e in s.All();
    assert e in Present(s.All());
    k :| k < |Present(s.All())| && Present(s.All())[k] == e;
  }

  lemma SlotMissing(s: Slots, kind: u32)
    requires s.Sound() && DirectoriesLong(Present(s.All()))
    requires kind in {CSSLOT_CODEDIRECTORY, CSSLOT_ALTERNATE_CODEDIRECTORIES}
    requires (if kind == CSSLOT_CODEDIRECTORY then s.codeDirectory else s.alternate) == []
    ensures 12 + 8 * |Present(s.All())| + TotalSize(Present(s.All())) < TWO32
    ensures var b := Assembled(Present(s.All()));
            && Readable(b) && BigU32At(b, 0) == CSMAGIC_EMBEDDED_SIGNATURE
            && LastRegion(b, kind, BigU32At(b, 8)) == None
  {
    hide BigU32At, HashRegion, Assembled, TotalSize, Readable, Present, Slots.Size, LastRegion;
    var es := Present(s.All());
    AssembledSize(s);
    AssembledReadable(es);
    forall e | e in es ensures e.kind != kind {
      assert e in s.All() && e.blob != [];
    }
    LastRegionAbsent(es, kind, |es|);
  }

  lemma DirectoriesAreLong(i: Input, f: Foreign, existing1: Option<seq<byte>>, existing256: Option<seq<byte>>)
    requires Fitting(i, f) && f.Sound()
    ensures DirectoriesLong(Present(SlotsFor(i, f, existing1, existing256).All()))
  {
    hide Blob, Request.Sound, Fitting, Requirements, Entitlements, DerEntitlements, Request.Refused, RequestFor,
         BigU32At;
    var s := SlotsFor(i, f, existing1, existing256);
    DirectoryLong(i, f, true, existing256);
    DirectoryLong(i, f, false, existing1);
    forall e | e in Present(s.All()) && e.kind in {CSSLOT_CODEDIRECTORY, CSSLOT_ALTERNATE_CODEDIRECTORIES}
      ensures HEADER_LENGTH <= |e.blob|
    {
      assert e in s.All() && e.blob != [];
    }
  }

  lemma DirectoryLong(i: Input, f: Foreign, alternate: bool, existing: Option<seq<byte>>)
    requires Fitting(i, f) && f.Sound()
    ensures var d := Directory(i, f, alternate, existing);
            (d == [] <==> Unsigned(i)) && (d != [] ==> HEADER_LENGTH <= |d|)
  {
  }

  lemma RefusedIsEmpty(r: Request, hash: Hash)
    requires r.Sound() && r.Refused()
    ensures Blob(r, hash) == []
  {
  }

  /** The reader finds, in any signature the builder made, exactly the code slots it wrote: those of
      the primary directory and those of the alternate one. The memory `m` may go on behind the
      signature. */
  lemma WrittenSlotsFound(i: Input, f: Foreign, existing1: Option<seq<byte>>, existing256: Option<seq<byte>>,
      m: seq<byte>)
    requires Fitting(i, f) && f.Sound() && SlotsFor(i, f, existing1, existing256).Sound()
    requires SignatureWith(i, f, existing1, existing256) <= m
    ensures RegionsInside(Some(m)) && BigU32At(m, 0) == CSMAGIC_EMBEDDED_SIGNATURE
    ensures Existing(false, Some(m), CSSLOT_CODEDIRECTORY) == PrimarySlots(i, f, existing1, existing256)
    ensures Existing(false, Some(m), CSSLOT_ALTERNATE_CODEDIRECTORIES) == AlternateSlots(i, f, existing256)
  {
    hide BigU32At, LastRegion, Flatten, PageHashes, Fitting, Assembled, Slots.All, Slots.Sound, SlotsFor, Extract,
         PrimarySlots, AlternateSlots;
    var b := SignatureWith(i, f, existing1, existing256);
    PrimaryFound(i, f, existing1, existing256);
    AlternateFound(i, f, existing1, existing256);
    SameReadable(m, b);
    SameLastRegion(m, b, CSSLOT_CODEDIRECTORY, BigU32At(b, 8));
    SameLastRegion(m, b, CSSLOT_ALTERNATE_CODEDIRECTORIES, BigU32At(b, 8));
    SameExtract(m, b, LastRegion(b, CSSLOT_CODEDIRECTORY, BigU32At(b, 8)));
    SameExtract(m, b, LastRegion(b, CSSLOT_ALTERNATE_CODEDIRECTORIES, BigU32At(b, 8)));
  }

  function PrimarySlots(i: Input, f: Foreign, existing1: Option<seq<byte>>,
      existing256: Option<seq<byte>>): Option<seq<byte>>
    requires Fitting(i, f) && f.Sound()
  {
    if Unsigned(i) then None
    else
      RequestSound(i, f, i.asset.sha256Only, if i.asset.sha256Only then existing256 else existing1);
      Some(CodeSlotBytes(PrimaryRequest(i, f, existing1, existing256), PrimaryHash(i, f)))
  }

  function AlternateSlots(i: Input, f: Foreign, existing256: Option<seq<byte>>): Option<seq<byte>>
    requires Fitting(i, f) && f.Sound()
  {
    if Unsigned(i) || i.asset.sha256Only then None
    else
      RequestSound(i, f, true, existing256);
      Some(CodeSlotBytes(RequestFor(i, f, true, existing256), f.sha256))
  }

  /** The read-back: in a signature with both directories the reader finds exactly the SHA-1 and the
      SHA-256 page hashes of the code; in a SHA-256-only one the primary region holds the SHA-256
      hashes and there is no alternate; in one without directories there is nothing. */
  lemma SlotsReadBack(i: Input, f: Foreign, m: seq<byte>)
    requires Fitting(i, f) && f.Sound() && SlotsFor(i, f, None, None).Sound()
    requires Signature(i, f) <= m
    ensures RegionsInside(Some(m)) && BigU32At(m, 0) == CSMAGIC_EMBEDDED_SIGNATURE
    ensures var primary := Existing(false, Some(m), CSSLOT_CODEDIRECTORY);
            primary == if Unsigned(i) then None else Some(Flatten(PageHashes(PrimaryHash(i, f), i.code)))
    ensures var alternate := Existing(false, Some(m), CSSLOT_ALTERNATE_CODEDIRECTORIES);
            alternate == if Unsigned(i) || i.asset.sha256Only then None else Some(Flatten(PageHashes(f.sha256, i.code)))
  {
    hide BigU32At, LastRegion, Flatten, PageHashes, Fitting, Assembled, Slots.All, Slots.Sound, SlotsFor, Extract,
         RegionsInside, Existing, RequestFor, CodeSlotBytes;
    WrittenSlotsFound(i, f, None, None, m);
    NothingReused(i, f, i.asset.sha256Only);
    NothingReused(i, f, true);
  }

  lemma SameExtract(m: seq<byte>, b: seq<byte>, region: Option<Region>)
    requires b <= m && (region.Some? ==> region.value.at + region.value.size <= |b|)
    ensures Extract(Some(m), region) == Extract(Some(b), region)
  {
    if region.Some? {
      assert m[0..|b|] == b;
      SliceOfSlice(m, 0, |b|, region.value.at, region.value.at + region.value.size);
    }
  }

  /** The region of a kind in a signature, and that it lies inside. */
  predicate Finds(b: seq<byte>, kind: u32, slots: Option<seq<byte>>)
    requires kind in {CSSLOT_CODEDIRECTORY, CSSLOT_ALTERNATE_CODEDIRECTORIES}
  {
    && Readable(b) && BigU32At(b, 0) == CSMAGIC_EMBEDDED_SIGNATURE
    && var region := LastRegion(b, kind, BigU32At(b, 8));
       && (region.Some? ==> region.value.at + region.value.size <= |b|)
       && Extract(Some(b), region) == slots
  }

  lemma PrimaryFound(i: Input, f: Foreign, existing1: Option<seq<byte>>, existing256: Option<seq<byte>>)
    requires Fitting(i, f) && f.Sound() && SlotsFor(i, f, existing1, existing256).Sound()
    ensures Finds(SignatureWith(i, f, existing1, existing256), CSSLOT_CODEDIRECTORY,
      PrimarySlots(i, f, existing1, existing256))
  {
    hide BigU32At, LastRegion, Readable, Flatten, PageHashes, Fitting, Assembled, Slots.All, Slots.Sound, Blob,
         Request.Sound, RequestFor, Request.Refused, Requirements, Entitlements, DerEntitlements, Present,
         TotalSize, CodeSlotBytes;
    var s, only := SlotsFor(i, f, existing1, existing256), i.asset.sha256Only;
    DirectoriesAreLong(i, f, existing1, existing256);
    if Unsigned(i) {
      DirectoryLong(i, f, only, if only then existing256 else existing1);
      SlotMissing(s, CSSLOT_CODEDIRECTORY);
    } else {
      RequestSound(i, f, only, if only then existing256 else existing1);
      SlotFound(s, CSSLOT_CODEDIRECTORY, PrimaryRequest(i, f, existing1, existing256), PrimaryHash(i, f));
    }
  }

  lemma AlternateFound(i: Input, f: Foreign, existing1: Option<seq<byte>>, existing256: Option<seq<byte>>)
    requires Fitting(i, f) && f.Sound() && SlotsFor(i, f, existing1, existing256).Sound()
    ensures Finds(SignatureWith(i, f, existing1, existing256), CSSLOT_ALTERNATE_CODEDIRECTORIES,
      AlternateSlots(i, f, existing256))
  {
    hide BigU32At, LastRegion, Readable, Flatten, PageHashes, Fitting, Assembled, Slots.All, Slots.Sound, Blob,
         Request.Sound, RequestFor, Request.Refused, Requirements, Entitlements, DerEntitlements, Present,
         TotalSize, CodeSlotBytes;
    var s := SlotsFor(i, f, existing1, existing256);
    DirectoriesAreLong(i, f, existing1, existing256);
    if Unsigned(i) || i.asset.sha256Only {
      DirectoryLong(i, f, true, existing256);
      SlotMissing(s, CSSLOT_ALTERNATE_CODEDIRECTORIES);
    } else {
      RequestSound(i, f, true, existing256);
      SlotFound(s, CSSLOT_ALTERNATE_CODEDIRECTORIES, RequestFor(i, f, true, existing256), f.sha256);
    }
  }

  lemma NothingReused(i: Input, f: Foreign, alternate: bool)
    requires Fitting(i, f)
    ensures var r := RequestFor(i, f, alternate, None);
            CodeSlotBytes(r, if alternate then f.sha256 else f.sha1)
              == Flatten(PageHashes(if alternate then f.sha256 else f.sha1, i.code))
  {
  }

  // ---------------------------------------------------------------- signing again

  /** Slots that are the page hashes, or of another length than the directory needs, or absent, leave
      the directory as hashing anew would. */
  lemma ReuseHarmless(i: Input, f: Foreign, alternate: bool, existing: Option<seq<byte>>)
    requires Fitting(i, f) && f.Sound()
    requires existing.Some? ==>
      || existing.value == Flatten(PageHashes(if alternate then f.sha256 else f.sha1, i.code))
      || |existing.value| != PageCount(i.code) * (if alternate then 32 else 20)
    ensures Directory(i, f, alternate, existing) == Directory(i, f, alternate, None)
  {
    hide Flatten, PageHashes, Blob, Request.Sound, Fitting, Requirements, Entitlements, DerEntitlements,
         Request.Refused;
    RequestSound(i, f, alternate, existing);
    RequestSound(i, f, alternate, None);
    var r, hash := RequestFor(i, f, alternate, existing), if alternate then f.sha256 else f.sha1;
    assert r.(existing := None) == RequestFor(i, f, alternate, None);
    if r.Refused() {
      RefusedIsEmpty(r, hash);
      RefusedIsEmpty(r.(existing := None), hash);
    } else if existing.Some? {
      ReuseIsRehash(r, hash);
      assert r.HashBytes(r.CodeSlots()) == PageCount(i.code) * (if alternate then 32 else 20);
    }
  }

  /** Signing without force over a signature made from the same code, whatever its settings were,
      uses the stored slots and still gives the signature that hashing every page would give. */
  lemma ResignIsSign(first: Input, again: Input, f: Foreign, m: seq<byte>)
    requires Fitting(first, f) && f.Sound() && SlotsFor(first, f, None, None).Sound()
    requires Fitting(again, f) && again.code == first.code
    requires Signature(first, f) <= m
    ensures RegionsInside(Some(m))
    ensures SlotsFor(again, f, Existing(false, Some(m), CSSLOT_CODEDIRECTORY),
                     Existing(false, Some(m), CSSLOT_ALTERNATE_CODEDIRECTORIES)) == SlotsFor(again, f, None, None)
  {
    hide BigU32At, LastRegion, Readable, Flatten, PageHashes, Fitting, Slots.Sound, Signature, Directory,
         RegionsInside, Existing, Requirements, Entitlements, DerEntitlements;
    SlotsReadBack(first, f, m);
    var primary := Existing(false, Some(m), CSSLOT_CODEDIRECTORY);
    var alternate := Existing(false, Some(m), CSSLOT_ALTERNATE_CODEDIRECTORIES);
    ReuseHarmless(again, f, true, alternate);
    if primary.Some? && first.asset.sha256Only {
      HashesSize(f.sha256, 32, again.code);
      SomePages(again.code);
    }
    ReuseHarmless(again, f, false, primary);
  }

  lemma HashesSize(hash: Hash, size: nat, code: seq<byte>)
    requires Outputs(hash, size)
    ensures |Flatten(PageHashes(hash, code))| == size * PageCount(code)
  {
    var hashes := PageHashes(hash, code);
    forall h | h in hashes ensures |h| == size {
      var k :| 0 <= k < |hashes| && hashes[k] == h;
      PageHashesAt(hash, code, k);
    }
    PageHashesAt(hash, code, 0);
    FlattenLength(hashes, size);
  }

  lemma SomePages(code: seq<byte>)
    ensures |code| > 0 ==> PageCount(code) > 0 && 32 * PageCount(code) != PageCount(code) * 20
  {
  }
}
