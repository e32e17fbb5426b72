/** What a verifier finds in a signature, blob by blob through its index. Everything here is said about bytes:
    those the builder wrote, whatever follows them. */
module SignatureMeaning {
  import opened Bytes
  import opened CodeDirectory
  import opened RequirementSet
  import opened SuperBlob
  import opened SignatureReader
  import opened Signing
  import Der

  // ---------------------------------------------------------------- what the bytes say

  /** A magic, the blob's own length, then the contents. */
  predicate Wraps(blob: seq<byte>, magic: u32, contents: seq<byte>) {
    8 <= |blob| && BigU32At(blob, 0) == magic && BigU32At(blob, 4) == |blob| && blob[8..] == contents
  }

  function OrEmpty(blob: Option<seq<byte>>): seq<byte> {
    match blob
    case None => []
    case Some(b) => b
  }

  /** An executable with an entitlement text carries it twice, as it is and as DER, and nothing else carries
      either. The DER decodes to what the plist reader makes of the text exactly when the encoder is faithful to
      that value. */
  predicate EntitlementsSay(m: seq<byte>, i: Input, f: Foreign) {
    var text, der, v := ReadBlob(m, 5), ReadBlob(m, 7), f.readPlist(i.asset.entitleData);
    && (text.Some? <==> i.isExecute && i.asset.entitleData != [])
    && (text.Some? ==> Wraps(text.value, 0xfade_7171, i.asset.entitleData))
    && (der.Some? <==> text.Some?)
    && (der.Some? ==>
          && Wraps(der.value, 0xfade_7172, Der.Encode(v))
          && (Der.Decode(der.value[8..]) == Some((v, [])) <==> Der.Faithful(v)))
  }

  /** A signature that is not ad hoc carries what the CMS signer makes of the two directories stored. */
  predicate CmsSays(m: seq<byte>, i: Input, f: Foreign) {
    var cms, made := ReadBlob(m, 0x10000), f.cms(OrEmpty(ReadBlob(m, 0)), OrEmpty(ReadBlob(m, 0x1000)));
    && (cms.Some? <==> !i.asset.adhoc && made.Some?)
    && (cms.Some? ==> Wraps(cms.value, 0xfade_0b01, made.value))
  }

  /** The executable asks for `get-task-allow`. */
  predicate AsksForTasks(i: Input) {
    i.isExecute && Occurs(Ascii("<key>get-task-allow</key>"), i.asset.entitleData)
  }

  /** The low bit marks a main binary, bit 4 one that may run unsigned code. */
  predicate FlagsSay(flags: int, i: Input) {
    && flags in {0, 1, 0x11}
    && (flags == 0x11 <==> AsksForTasks(i))
    && (flags != 0 <==> i.isExecute && (AsksForTasks(i) || i.asset.adhoc || i.asset.singleBinary))
  }

  predicate TextAt(cd: seq<byte>, at: nat, text: seq<byte>) {
    at + |text| + 1 <= |cd| && cd[at..at + |text| + 1] == text + [0]
  }

  /** Special slot `-k`, counted back from the code slots, and zeros when so many are not kept. */
  function SpecialSlot(cd: seq<byte>, sha256: bool, k: nat): seq<byte>
    requires HasFields(cd)
  {
    var size, back := if sha256 then 32 else 20, if sha256 then 32 * k else 20 * k;
    if k <= BigU32At(cd, 24) && back <= BigU32At(cd, 16) && BigU32At(cd, 16) - back + size <= |cd| then
      cd[BigU32At(cd, 16) - back..BigU32At(cd, 16) - back + size]
    else Zeros(size)
  }

  /** The hash of the signature's own blob of a kind. */
  function BlobHash(m: seq<byte>, kind: u32, hash: Hash, size: nat): seq<byte> {
    match ReadBlob(m, kind)
    case None => Zeros(size)
    case Some(blob) => hash(blob)
  }

  /** Slot -1 vouches for Info.plist, -3 for the resources, and -2, -5 and -7 for the signature's own blobs of the
      kinds 2, 5 and 7. */
  predicate SpecialSlotsSay(cd: seq<byte>, sha256: bool, m: seq<byte>, i: Input, f: Foreign)
    requires HasFields(cd)
  {
    var hash, size := if sha256 then f.sha256 else f.sha1, if sha256 then 32 else 20;
    var info, resources :=
      if sha256 then i.infoSHA256 else i.infoSHA1, if sha256 then i.resourcesSHA256 else i.resourcesSHA1;
    && SpecialSlot(cd, sha256, 1) == (if info == [] then Zeros(size) else info)
    && SpecialSlot(cd, sha256, 2) == BlobHash(m, 2, hash, size)
    && SpecialSlot(cd, sha256, 3) == (if resources == [] then Zeros(size) else resources)
    && SpecialSlot(cd, sha256, 5) == BlobHash(m, 5, hash, size)
    && SpecialSlot(cd, sha256, 7) == BlobHash(m, 7, hash, size)
    && forall k :: 0 < k <= BigU32At(cd, 24) && k !in {1, 2, 3, 5, 7} ==> SpecialSlot(cd, sha256, k) == Zeros(size)
  }

  /** The directory's magic, length and version, the ad-hoc flag, the hash, how much code it covers in how many
      pages of 2 to the 12th bytes, and the executable segment. */
  predicate FieldsSay(cd: seq<byte>, sha256: bool, adhoc: bool, codeLength: nat, execSegLimit: int)
    requires HasFields(cd)
  {
    && BigU32At(cd, 0) == 0xfade_0c02 && BigU32At(cd, 4) == |cd| && BigU32At(cd, 8) == 0x20400
    && BigU32At(cd, 12) == (if adhoc then 2 else 0)
    && cd[36] == (if sha256 then 32 else 20) && cd[37] == (if sha256 then 2 else 1) && cd[39] == 12
    && BigU32At(cd, 28) == (codeLength + 4095) / 4096 && BigU32At(cd, 32) == codeLength
    && BigU32At(cd, 72) * 0x1_0000_0000 + BigU32At(cd, 76) == execSegLimit
  }

  predicate NamesSay(cd: seq<byte>, bundleId: seq<byte>, teamId: seq<byte>)
    requires HasFields(cd)
  {
    && TextAt(cd, BigU32At(cd, 20), bundleId)
    && (BigU32At(cd, 48) == 0 <==> teamId == [])
    && (teamId != [] ==> TextAt(cd, BigU32At(cd, 48), teamId))
  }

  /** A directory over SHA-1 or SHA-256. */
  predicate DirectorySays(cd: seq<byte>, sha256: bool, m: seq<byte>, i: Input, f: Foreign) {
    && HasFields(cd)
    && FieldsSay(cd, sha256, i.asset.adhoc, |i.code|, i.execSegLimit)
    && FlagsSay(BigU32At(cd, 80) * 0x1_0000_0000 + BigU32At(cd, 84), i)
    && NamesSay(cd, i.bundleId, i.asset.teamId)
    && SpecialSlotsSay(cd, sha256, m, i, f)
  }

  /** There is code, an identifier, and a team unless the signature is ad hoc. */
  predicate Covered(i: Input) {
    i.code != [] && i.bundleId != [] && (i.asset.teamId != [] || i.asset.adhoc)
  }

  /** The first directory is over SHA-1 and a second over SHA-256, or the only one is over SHA-256. */
  predicate DirectoriesSay(m: seq<byte>, i: Input, f: Foreign) {
    var first, second := ReadBlob(m, 0), ReadBlob(m, 0x1000);
    && (first.Some? <==> Covered(i))
    && (first.Some? ==> DirectorySays(first.value, i.asset.sha256Only, m, i, f))
    && (second.Some? <==> Covered(i) && !i.asset.sha256Only)
    && (second.Some? ==> DirectorySays(second.value, true, m, i, f))
  }

  /** Everything a verifier finds in the signature. */
  predicate SignatureSays(m: seq<byte>, i: Input, f: Foreign) {
    && 12 <= |m| && BigU32At(m, 0) == 0xfade_0cc0 && BigU32At(m, 4) <= |m|
    && DirectoriesSay(m, i, f)
    && ReadBlob(m, 2).Some? && RequirementsSay(ReadBlob(m, 2).value, i.bundleId, i.asset.subjectCN)
    && EntitlementsSay(m, i, f)
    && CmsSays(m, i, f)
  }

  // ---------------------------------------------------------------- reading the slots

  /** The blobs found are those in the slots. */
  predicate ReadsSlots(m: seq<byte>, s: Slots) {
    && ReadBlob(m, 0) == Stored(s.codeDirectory)
    && ReadBlob(m, 2) == Stored(s.requirements)
    && ReadBlob(m, 5) == Stored(s.entitlements)
    && ReadBlob(m, 7) == Stored(s.derEntitlements)
    && ReadBlob(m, 0x1000) == Stored(s.alternate)
    && ReadBlob(m, 0x10000) == Stored(s.cms)
  }

  lemma BlobsRead(i: Input, f: Foreign, existing1: Option<seq<byte>>, existing256: Option<seq<byte>>, m: seq<byte>)
    requires Fitting(i, f) && f.Sound() && SlotsFor(i, f, existing1, existing256).Sound()
    requires SignatureWith(i, f, existing1, existing256) <= m
    ensures ReadsSlots(m, SlotsFor(i, f, existing1, existing256))
  {
    hide SlotsFor, Fitting, ReadBlob, Assembled, Present, Slots.All, AllStateLength, StatesLength;
    var s := SlotsFor(i, f, existing1, existing256);
    AssembledSize(s);
    SlotsStateLength(i, f, existing1, existing256);
    AllSlotsState(s);
    ReadBack(s, m, 0);
    ReadBack(s, m, 2);
    ReadBack(s, m, 5);
    ReadBack(s, m, 7);
    ReadBack(s, m, 0x1000);
    ReadBack(s, m, 0x10000);
  }

  lemma HeaderRead(i: Input, f: Foreign, existing1: Option<seq<byte>>, existing256: Option<seq<byte>>, m: seq<byte>)
    requires Fitting(i, f) && f.Sound() && SlotsFor(i, f, existing1, existing256).Sound()
    requires SignatureWith(i, f, existing1, existing256) <= m
    ensures 12 <= |m| && BigU32At(m, 0) == 0xfade_0cc0
    ensures BigU32At(m, 4) == |SignatureWith(i, f, existing1, existing256)|
  {
    hide SlotsFor, Fitting, Assembled, Present, Slots.All, BigU32At, OffsetOf;
    var s := SlotsFor(i, f, existing1, existing256);
    AssembledSize(s);
    var es := Present(s.All());
    AssembledLayout(es, 0);
    SameWordIn(m, Assembled(es), 0);
    SameWordIn(m, Assembled(es), 4);
  }

  predicate EmptyOrStates(blob: seq<byte>) {
    blob == [] || StatesLength(blob)
  }

  predicate EachStates(s: Slots) {
    && EmptyOrStates(s.codeDirectory) && EmptyOrStates(s.requirements) && EmptyOrStates(s.entitlements)
    && EmptyOrStates(s.derEntitlements) && EmptyOrStates(s.alternate) && EmptyOrStates(s.cms)
  }

  lemma AllSlotsState(s: Slots)
    requires EachStates(s)
    ensures AllStateLength(Present(s.All()))
  {
    hide StatesLength;
  }

  lemma SlotsStateLength(i: Input, f: Foreign, existing1: Option<seq<byte>>, existing256: Option<seq<byte>>)
    requires Fitting(i, f) && f.Sound()
    ensures EachStates(SlotsFor(i, f, existing1, existing256))
  {
    hide Fitting, Directory, Requirements, Der.Encode, Wrapped, BigU32At, Foreign.Sound;
    FittingSizes(i, f);
    DirectoryStates(i, f, false, existing1);
    DirectoryStates(i, f, true, existing256);
    RequirementsLayout(i.bundleId, i.asset.subjectCN);
    var text := EntitledText(i);
    WrappedLength(0xfade_7171, text);
    WrappedLength(0xfade_7172, Der.Encode(f.readPlist(text)));
    CmsStates(i, f, existing1, existing256);
  }

  lemma DirectoryStates(i: Input, f: Foreign, sha256: bool, existing: Option<seq<byte>>)
    requires Fitting(i, f) && f.Sound()
    ensures EmptyOrStates(Directory(i, f, sha256, existing))
    ensures Directory(i, f, sha256, existing) != [] <==> Covered(i)
  {
    hide Fitting, Blob, BigU32At, Request.Sound, Request.HashBytes, RequestFor, Request.CodeSlots;
    RequestSound(i, f, sha256, existing);
    var r := RequestFor(i, f, sha256, existing);
    if r.Refused() {
      BlobRefused(r, if sha256 then f.sha256 else f.sha1);
    } else {
      BlobLayout(r, if sha256 then f.sha256 else f.sha1);
    }
  }

  lemma BlobRefused(r: Request, hash: Hash)
    requires r.Sound() && r.Refused()
    ensures Blob(r, hash) == []
  {
  }

  lemma CmsStates(i: Input, f: Foreign, existing1: Option<seq<byte>>, existing256: Option<seq<byte>>)
    requires Fitting(i, f) && f.Sound()
    ensures EmptyOrStates(SlotsFor(i, f, existing1, existing256).cms)
  {
    hide Fitting, Directory, Requirements, Der.Encode, Wrapped, BigU32At, Entitlements, DerEntitlements, Outputs;
    var s := SlotsFor(i, f, existing1, existing256);
    var cms := f.cms(s.codeDirectory, s.alternate);
    assert CmsFits(cms);
    if !i.asset.adhoc && cms.Some? {
      WrappedLength(0xfade_0b01, cms.value);
    }
  }

  // ---------------------------------------------------------------- blob by blob

  lemma RequirementsThere(i: Input, f: Foreign, existing1: Option<seq<byte>>, existing256: Option<seq<byte>>,
                          m: seq<byte>)
    requires Fitting(i, f) && f.Sound() && ReadsSlots(m, SlotsFor(i, f, existing1, existing256))
    ensures ReadBlob(m, 2).Some? && RequirementsSay(ReadBlob(m, 2).value, i.bundleId, i.asset.subjectCN)
  {
    hide Fitting, Directory, Requirements, Entitlements, DerEntitlements, ReadBlob, RequirementsSay, CmsSlot, Outputs;
    FittingSizes(i, f);
    RequirementsRead(i.bundleId, i.asset.subjectCN);
    RequirementsLayout(i.bundleId, i.asset.subjectCN);
  }

  lemma EntitlementsThere(i: Input, f: Foreign, existing1: Option<seq<byte>>, existing256: Option<seq<byte>>,
                          m: seq<byte>)
    requires Fitting(i, f) && f.Sound() && ReadsSlots(m, SlotsFor(i, f, existing1, existing256))
    ensures EntitlementsSay(m, i, f)
  {
    hide Fitting, Directory, Requirements, ReadBlob, CmsSlot, Outputs, BigU32At, Wrapped, Der.Encode, Der.Decode,
         Der.Faithful;
    FittingSizes(i, f);
    var text := i.asset.entitleData;
    if i.isExecute && text != [] {
      var v := f.readPlist(text);
      WrappedLength(0xfade_7171, text);
      WrappedLength(0xfade_7172, Der.Encode(v));
      Der.RoundTrip(v, []);
      assert Der.Encode(v) + [] == Der.Encode(v);
    }
  }

  lemma CmsThere(i: Input, f: Foreign, existing1: Option<seq<byte>>, existing256: Option<seq<byte>>, m: seq<byte>)
    requires Fitting(i, f) && f.Sound() && ReadsSlots(m, SlotsFor(i, f, existing1, existing256))
    ensures CmsSays(m, i, f)
  {
    hide Fitting, Directory, Requirements, Entitlements, DerEntitlements, ReadBlob, Outputs, BigU32At, Wrapped;
    var s := SlotsFor(i, f, existing1, existing256);
    assert OrEmpty(ReadBlob(m, 0)) == s.codeDirectory && OrEmpty(ReadBlob(m, 0x1000)) == s.alternate;
    var cms := f.cms(s.codeDirectory, s.alternate);
    assert CmsFits(cms);
    if cms.Some? {
      WrappedLength(0xfade_0b01, cms.value);
    }
  }

  lemma DirectoriesThere(i: Input, f: Foreign, existing1: Option<seq<byte>>, existing256: Option<seq<byte>>,
                         m: seq<byte>)
    requires Fitting(i, f) && f.Sound() && ReadsSlots(m, SlotsFor(i, f, existing1, existing256))
    ensures DirectoriesSay(m, i, f)
  {
    hide Fitting, Directory, Requirements, Entitlements, DerEntitlements, ReadBlob, CmsSlot, Outputs, DirectorySays,
         Covered, StatesLength;
    DirectoryStates(i, f, true, existing256);
    DirectoryStates(i, f, false, existing1);
    if Covered(i) {
      DirectoryThere(i, f, existing1, existing256, true, existing256, m);
      DirectoryThere(i, f, existing1, existing256, false, existing1, m);
    }
  }

  lemma DirectoryThere(i: Input, f: Foreign, existing1: Option<seq<byte>>, existing256: Option<seq<byte>>,
                       sha256: bool, existing: Option<seq<byte>>, m: seq<byte>)
    requires Fitting(i, f) && f.Sound() && Covered(i) && ReadsSlots(m, SlotsFor(i, f, existing1, existing256))
    ensures DirectorySays(Directory(i, f, sha256, existing), sha256, m, i, f)
  {
    hide Fitting, Directory, ReadBlob, BigU32At, SpecialSlotsSay, FlagsSay, FieldsSay, NamesSay, SlotsFor,
         Foreign.Sound;
    DirectoryFields(i, f, sha256, existing);
    SpecialSlotsThere(i, f, existing1, existing256, sha256, existing, m);
  }

  /** The fields of a directory, without its special slots. */
  lemma DirectoryFields(i: Input, f: Foreign, sha256: bool, existing: Option<seq<byte>>)
    requires Fitting(i, f) && f.Sound() && Covered(i)
    ensures var cd := Directory(i, f, sha256, existing);
            && HasFields(cd)
            && FieldsSay(cd, sha256, i.asset.adhoc, |i.code|, i.execSegLimit)
            && FlagsSay(BigU32At(cd, 80) * 0x1_0000_0000 + BigU32At(cd, 84), i)
            && NamesSay(cd, i.bundleId, i.asset.teamId)
  {
    hide Fitting, Blob, BigU32At, Request.Sound, Requirements, Entitlements, DerEntitlements, SlotHash, ExecSegFlags,
         FlagsSay, Outputs, FieldsSay, NamesSay, PageCount;
    RequestSound(i, f, sha256, existing);
    BlobFields(RequestFor(i, f, sha256, existing), if sha256 then f.sha256 else f.sha1);
    FlagsMean(i);
  }

  lemma BlobFields(r: Request, hash: Hash)
    requires r.Sound() && Outputs(hash, r.HashSize()) && !r.Refused()
    ensures var cd := Blob(r, hash);
            && HasFields(cd)
            && FieldsSay(cd, r.alternate, r.isAdhoc, |r.code|, r.execSegLimit)
            && BigU32At(cd, 80) * 0x1_0000_0000 + BigU32At(cd, 84) == r.execSegFlags
            && NamesSay(cd, r.bundleId, r.teamId)
  {
    hide Blob, BigU32At, Request.Sound, Outputs, Trim, Request.SpecialSlots, Zeros, Request.HashBytes, Request.Refused,
         PageCount, HashOffset;
    BlobLayout(r, hash);
    HeaderFields(r, hash);
    PagesRoundedUp(r.code);
  }

  lemma PagesRoundedUp(code: seq<byte>)
    ensures PageCount(code) == (|code| + 4095) / 4096
  {
  }

  lemma FlagsMean(i: Input)
    ensures FlagsSay(ExecSegFlags(i), i)
  {
    hide Occurs;
    KeyText();
    NothingOccurs();
  }

  lemma KeyText()
    ensures TASK_ALLOW == Ascii("<key>get-task-allow</key>")
  {
    var s := "<key>get-task-allow</key>";
    assert |s| == 25;
  }

  lemma NothingOccurs()
    ensures !Occurs(TASK_ALLOW, [])
  {
  }

  lemma SpecialSlotsThere(i: Input, f: Foreign, existing1: Option<seq<byte>>, existing256: Option<seq<byte>>,
                          sha256: bool, existing: Option<seq<byte>>, m: seq<byte>)
    requires Fitting(i, f) && f.Sound() && Covered(i) && ReadsSlots(m, SlotsFor(i, f, existing1, existing256))
    requires HasFields(Directory(i, f, sha256, existing))
    ensures SpecialSlotsSay(Directory(i, f, sha256, existing), sha256, m, i, f)
  {
    hide Fitting, Directory, ReadBlob, BigU32At, SlotsFor, Foreign.Sound, SpecialSlot;
    var s, cd := SlotsFor(i, f, existing1, existing256), Directory(i, f, sha256, existing);
    forall k: nat | 0 < k ensures SpecialSlot(cd, sha256, k) == Vouched(s, i, f, sha256, k) {
      SlotVouches(i, f, existing1, existing256, sha256, existing, k);
    }
    SlotThere(i, f, existing1, existing256);
  }

  lemma SlotThere(i: Input, f: Foreign, existing1: Option<seq<byte>>, existing256: Option<seq<byte>>)
    requires Fitting(i, f) && f.Sound()
    ensures SlotsFor(i, f, existing1, existing256).requirements != []
  {
    hide Fitting, Directory, Requirements, Entitlements, DerEntitlements, CmsSlot, Outputs, BigU32At;
    FittingSizes(i, f);
    RequirementsLayout(i.bundleId, i.asset.subjectCN);
  }

  lemma SlotVouches(i: Input, f: Foreign, existing1: Option<seq<byte>>, existing256: Option<seq<byte>>, sha256: bool,
                    existing: Option<seq<byte>>, k: nat)
    requires Fitting(i, f) && f.Sound() && Covered(i) && 0 < k && HasFields(Directory(i, f, sha256, existing))
    ensures SpecialSlot(Directory(i, f, sha256, existing), sha256, k)
         == Vouched(SlotsFor(i, f, existing1, existing256), i, f, sha256, k)
  {
    hide Fitting, Directory, Requirements, Entitlements, DerEntitlements, CmsSlot, Outputs, BigU32At, Vouched, Zeros;
    DirectoryVouches(i, f, sha256, existing, SlotsFor(i, f, existing1, existing256), k);
  }

  // ---------------------------------------------------------------- all of it

  /** Whatever code slots were offered and whatever follows, a signature says of its input what it should. */
  lemma SignatureMeans(i: Input, f: Foreign, existing1: Option<seq<byte>>, existing256: Option<seq<byte>>,
                       m: seq<byte>)
    requires Fitting(i, f) && f.Sound() && SlotsFor(i, f, existing1, existing256).Sound()
    requires SignatureWith(i, f, existing1, existing256) <= m
    ensures SignatureSays(m, i, f) && BigU32At(m, 4) == |SignatureWith(i, f, existing1, existing256)|
  {
    hide SlotsFor, SignatureWith, Fitting, ReadBlob, BigU32At, DirectoriesSay, EntitlementsSay, CmsSays,
         RequirementsSay, Slots.Sound;
    HeaderRead(i, f, existing1, existing256, m);
    BlobsRead(i, f, existing1, existing256, m);
    RequirementsThere(i, f, existing1, existing256, m);
    EntitlementsThere(i, f, existing1, existing256, m);
    CmsThere(i, f, existing1, existing256, m);
    DirectoriesThere(i, f, existing1, existing256, m);
  }
}
