/** The slots of a signature and `BuildCodeSignature`, which assembles them. The hash functions, the
    plist reader and the CMS signer are foreign code and appear as functions handed in. */
module Signing {
  import opened Bytes
  import opened CodeDirectory
  import opened RequirementSet
  import opened SuperBlob
  import Der

  const CSMAGIC_EMBEDDED_ENTITLEMENTS: u32 := 0xfade_7171
  const CSMAGIC_EMBEDDED_DER_ENTITLEMENTS: u32 := 0xfade_7172
  const CSMAGIC_BLOBWRAPPER: u32 := 0xfade_0b01
  const EXECSEG_MAIN_BINARY: u64 := 0x1
  const EXECSEG_ALLOW_UNSIGNED: u64 := 0x10

  datatype Foreign = Foreign(sha1: Hash, sha256: Hash, readPlist: seq<byte> -> Der.Value,
                             cms: (seq<byte>, seq<byte>) -> Option<seq<byte>>)
  {
    ghost predicate Sound() {
      && Outputs(sha1, 20) && Outputs(sha256, 32)
      && forall primary, alternate :: CmsFits(cms(primary, alternate))
    }
  }

  predicate CmsFits(cms: Option<seq<byte>>) {
    cms.Some? ==> |cms.value| + 8 < TWO32
  }

  datatype Asset = Asset(entitleData: seq<byte>, subjectCN: seq<byte>, teamId: seq<byte>,
                         adhoc: bool, singleBinary: bool, sha256Only: bool)

  /** What `BuildCodeSignature` works on besides the asset: the code bytes and the parsed slice's facts,
      and the hashes of the bundle's files. */
  datatype Input = Input(asset: Asset, code: seq<byte>, isExecute: bool, execSegLimit: u64, bundleId: seq<byte>,
                         infoSHA1: seq<byte>, infoSHA256: seq<byte>, resourcesSHA1: seq<byte>,
                         resourcesSHA256: seq<byte>)

  // ---------------------------------------------------------------- the other slots

  /** A blob with a magic and a length in front of its contents. */
  function Wrapped(magic: u32, contents: seq<byte>): seq<byte>
    requires |contents| + 8 < TWO32
  {
    Words([magic, |contents| + 8]) + contents
  }

  lemma WrappedLength(magic: u32, contents: seq<byte>)
    requires |contents| + 8 < TWO32
    ensures var b := Wrapped(magic, contents);
            8 <= |b| && BigU32At(b, 0) == magic && BigU32At(b, 4) == |b| && b[8..] == contents
  {
    hide Words;
    var b := Wrapped(magic, contents);
    WordAt([magic, |contents| + 8], 0, b);
    WordAt([magic, |contents| + 8], 1, b);
  }

  function Entitlements(data: seq<byte>): seq<byte>
    requires |data| + 8 < TWO32
  {
    if data == [] then [] else Wrapped(CSMAGIC_EMBEDDED_ENTITLEMENTS, data)
  }

  function DerEntitlements(data: seq<byte>, f: Foreign): seq<byte>
    requires |Der.Encode(f.readPlist(data))| + 8 < TWO32
  {
    if data == [] then [] else Wrapped(CSMAGIC_EMBEDDED_DER_ENTITLEMENTS, Der.Encode(f.readPlist(data)))
  }

  // "<key>get-task-allow</key>"
  const TASK_ALLOW: seq<byte> := [0x3c, 0x6b, 0x65, 0x79, 0x3e, 0x67, 0x65, 0x74, 0x2d, 0x74, 0x61, 0x73, 0x6b,
                                  0x2d, 0x61, 0x6c, 0x6c, 0x6f, 0x77, 0x3c, 0x2f, 0x6b, 0x65, 0x79, 0x3e]

  /** `strstr`: the search ends at the first zero byte. */
  predicate Occurs(needle: seq<byte>, s: seq<byte>) {
    exists i :: 0 <= i <= |s| - |needle| && OccursAt(needle, s, i) && 0 !in s[..i]
  }

  predicate OccursAt(needle: seq<byte>, s: seq<byte>, i: nat)
    requires i + |needle| <= |s|
  {
    s[i..i + |needle|] == needle
  }

  function EntitledText(i: Input): seq<byte> {
    if i.isExecute then i.asset.entitleData else []
  }

  function ExecSegFlags(i: Input): u64 {
    if Occurs(TASK_ALLOW, EntitledText(i)) then EXECSEG_MAIN_BINARY + EXECSEG_ALLOW_UNSIGNED
    else if i.isExecute && (i.asset.adhoc || i.asset.singleBinary) then EXECSEG_MAIN_BINARY
    else 0
  }

  /** Everything the builder measures fits 32 bits and the hashes handed in have their lengths. */
  predicate Fitting(i: Input, f: Foreign) {
    && InnerLength(i.bundleId, i.asset.subjectCN) + 20 < TWO32
    && |EntitledText(i)| + 8 < TWO32
    && |Der.Encode(f.readPlist(EntitledText(i)))| + 8 < TWO32
    && |i.code| < TWO32
    && HEADER_LENGTH + |i.bundleId| + 1 + |i.asset.teamId| + 1 + 7 * 32 + 32 * PageCount(i.code) < TWO32
    && (i.infoSHA1 == [] || |i.infoSHA1| == 20) && (i.infoSHA256 == [] || |i.infoSHA256| == 32)
    && (i.resourcesSHA1 == [] || |i.resourcesSHA1| == 20) && (i.resourcesSHA256 == [] || |i.resourcesSHA256| == 32)
  }

  /** Hash of a slot's blob, zeros for an absent slot. */
  function SlotHash(blob: seq<byte>, hash: Hash, size: nat): seq<byte> {
    if blob == [] then Zeros(size) else hash(blob)
  }

  /** The CodeDirectory request for one hash algorithm. */
  function RequestFor(i: Input, f: Foreign, alternate: bool, existing: Option<seq<byte>>): Request
    requires Fitting(i, f)
  {
    var hash, size := if alternate then f.sha256 else f.sha1, if alternate then 32 else 20;
    Request(alternate, i.code, existing, i.execSegLimit, ExecSegFlags(i), i.bundleId, i.asset.teamId,
            if alternate then i.infoSHA256 else i.infoSHA1,
            SlotHash(Requirements(i.bundleId, i.asset.subjectCN), hash, size),
            if alternate then i.resourcesSHA256 else i.resourcesSHA1,
            SlotHash(Entitlements(EntitledText(i)), hash, size),
            SlotHash(DerEntitlements(EntitledText(i), f), hash, size),
            i.isExecute, i.asset.adhoc)
  }

  lemma RequestSound(i: Input, f: Foreign, alternate: bool, existing: Option<seq<byte>>)
    requires Fitting(i, f) && f.Sound()
    ensures var r := RequestFor(i, f, alternate, existing);
            && r.Sound()
            && Outputs(if alternate then f.sha256 else f.sha1, r.HashSize())
            && r.CodeSlots() == PageCount(i.code)
            && r.HashSize() == (if alternate then 32 else 20)
            && (r.Refused() <==> Unsigned(i))
  {
  }

  /** No CodeDirectory can be built: no code, no identifier, or no team for a real signature. */
  predicate Unsigned(i: Input) {
    |i.code| == 0 || i.bundleId == [] || (i.asset.teamId == [] && !i.asset.adhoc)
  }

  function Directory(i: Input, f: Foreign, alternate: bool, existing: Option<seq<byte>>): seq<byte>
    requires Fitting(i, f) && f.Sound()
  {
    RequestSound(i, f, alternate, existing);
    Blob(RequestFor(i, f, alternate, existing), if alternate then f.sha256 else f.sha1)
  }

  /** The signature's slots: with SHA-256 only, that directory is the primary one and there is no
      alternate; an ad-hoc signature has no CMS slot. */
  function SlotsFor(i: Input, f: Foreign, existing1: Option<seq<byte>>, existing256: Option<seq<byte>>): Slots
    requires Fitting(i, f) && f.Sound()
  {
    var sha256 := Directory(i, f, true, existing256);
    var primary := if i.asset.sha256Only then sha256 else Directory(i, f, false, existing1);
    var alternate := if i.asset.sha256Only then [] else sha256;
    Slots(primary, Requirements(i.bundleId, i.asset.subjectCN), Entitlements(EntitledText(i)),
          DerEntitlements(EntitledText(i), f), alternate,
          if i.asset.adhoc then [] else CmsSlot(f.cms(primary, alternate)))
  }

  /** The CMS slot, empty when the signer fails. */
  function CmsSlot(cms: Option<seq<byte>>): seq<byte>
    requires CmsFits(cms)
  {
    if cms.None? then [] else Wrapped(CSMAGIC_BLOBWRAPPER, cms.value)
  }

  /** The hash that special slot `-k` has to hold when the signature consists of the slots `s`. */
  function Vouched(s: Slots, i: Input, f: Foreign, alternate: bool, k: nat): seq<byte> {
    var hash, size := if alternate then f.sha256 else f.sha1, if alternate then 32 else 20;
    match k
    case 1 => var info := if alternate then i.infoSHA256 else i.infoSHA1; if info == [] then Zeros(size) else info
    case 2 => hash(s.requirements)
    case 3 =>
      var res := if alternate then i.resourcesSHA256 else i.resourcesSHA1;
      if res == [] then Zeros(size) else res
    case 5 => if s.entitlements == [] then Zeros(size) else hash(s.entitlements)
    case 7 => if s.derEntitlements == [] then Zeros(size) else hash(s.derEntitlements)
    case _ => Zeros(size)
  }

  /** Each directory of a signature vouches for the signature's other blobs: read where a verifier reads
      it, special slot `-k` holds the hash of the very blob in the slot it stands for; and slots past the
      kept ones stand for nothing. */
  lemma DirectoryVouches(i: Input, f: Foreign, alternate: bool, existing: Option<seq<byte>>, s: Slots, k: nat)
    requires Fitting(i, f) && f.Sound() && !Unsigned(i) && 0 < k
    requires s.requirements == Requirements(i.bundleId, i.asset.subjectCN)
    requires s.entitlements == Entitlements(EntitledText(i)) && s.derEntitlements == DerEntitlements(EntitledText(i), f)
    ensures var cd, size := Directory(i, f, alternate, existing), if alternate then 32 else 20;
            var back := if alternate then 32 * k else 20 * k;
            && HasFields(cd)
            && (k <= ReadSpecialSlots(cd) ==>
                  && back <= ReadHashOffset(cd) && ReadHashOffset(cd) - back + size <= |cd|
                  && cd[ReadHashOffset(cd) - back..ReadHashOffset(cd) - back + size] == Vouched(s, i, f, alternate, k))
            && (ReadSpecialSlots(cd) < k ==> Vouched(s, i, f, alternate, k) == Zeros(size))
  {
    hide Words, Der.Encode, Blob, Zeros, Request.Sound, Request.Refused, BigU32At, Requirements, Wrapped;
    RequestSound(i, f, alternate, existing);
    FittingSizes(i, f);
    var r := RequestFor(i, f, alternate, existing);
    SpecialSlotAt(r, if alternate then f.sha256 else f.sha1, k);
    IntendedIsVouched(i, f, alternate, existing, s, k);
  }

  lemma IntendedIsVouched(i: Input, f: Foreign, alternate: bool, existing: Option<seq<byte>>, s: Slots, k: nat)
    requires Fitting(i, f) && f.Sound()
    requires s.requirements == Requirements(i.bundleId, i.asset.subjectCN)
    requires s.entitlements == Entitlements(EntitledText(i)) && s.derEntitlements == DerEntitlements(EntitledText(i), f)
    ensures RequestFor(i, f, alternate, existing).Intended(k) == Vouched(s, i, f, alternate, k)
  {
    hide Words, Der.Encode, Zeros, ExecSegFlags, Fitting;
    FittingSizes(i, f);
    RequirementsLayout(i.bundleId, i.asset.subjectCN);
  }

  /** The signature made when the given code slots were offered. */
  function SignatureWith(i: Input, f: Foreign, existing1: Option<seq<byte>>, existing256: Option<seq<byte>>): seq<byte>
    requires Fitting(i, f) && f.Sound() && SlotsFor(i, f, existing1, existing256).Sound()
  {
    SlotsSize(SlotsFor(i, f, existing1, existing256));
    PresentSize(SlotsFor(i, f, existing1, existing256).All());
    Assembled(Present(SlotsFor(i, f, existing1, existing256).All()))
  }

  /** The forced signature: every page hashed anew. */
  function Signature(i: Input, f: Foreign): seq<byte>
    requires Fitting(i, f) && f.Sound() && SlotsFor(i, f, None, None).Sound()
  {
    SignatureWith(i, f, None, None)
  }

  // ---------------------------------------------------------------- the builder

  function Extract(base: Option<seq<byte>>, region: Option<Region>): Option<seq<byte>>
    requires region.Some? ==> base.Some? && region.value.at + region.value.size <= |base.value|
  {
    if region.None? then None else Some(base.value[region.value.at..region.value.at + region.value.size])
  }

  /** The regions an earlier signature declares lie inside the memory behind its base. */
  predicate RegionsInside(base: Option<seq<byte>>) {
    base.Some? ==>
      && Readable(base.value)
      && (BigU32At(base.value, 0) == CSMAGIC_EMBEDDED_SIGNATURE ==>
            forall kind | kind in {CSSLOT_CODEDIRECTORY, CSSLOT_ALTERNATE_CODEDIRECTORIES} ::
              var region := LastRegion(base.value, kind, BigU32At(base.value, 8));
              region.Some? ==> region.value.at + region.value.size <= |base.value|)
  }

  /** The code slots of an earlier signature as the builder sees them: none when forced. */
  function Existing(force: bool, base: Option<seq<byte>>, kind: u32): Option<seq<byte>>
    requires (force || RegionsInside(base)) && kind in {CSSLOT_CODEDIRECTORY, CSSLOT_ALTERNATE_CODEDIRECTORIES}
  {
    if force || base.None? || BigU32At(base.value, 0) != CSMAGIC_EMBEDDED_SIGNATURE then None
    else Extract(base, LastRegion(base.value, kind, BigU32At(base.value, 8)))
  }

  method BuildCodeSignature(i: Input, f: Foreign, force: bool, signBase: Option<seq<byte>>) returns (output: seq<byte>)
    requires Fitting(i, f) && f.Sound() && (force || RegionsInside(signBase))
    requires SlotsFor(i, f, Existing(force, signBase, CSSLOT_CODEDIRECTORY),
                      Existing(force, signBase, CSSLOT_ALTERNATE_CODEDIRECTORIES)).Sound()
    ensures var slots := SlotsFor(i, f, Existing(force, signBase, CSSLOT_CODEDIRECTORY),
                                  Existing(force, signBase, CSSLOT_ALTERNATE_CODEDIRECTORIES));
            && 12 + 8 * |Present(slots.All())| + TotalSize(Present(slots.All())) < TWO32
            && output == Assembled(Present(slots.All()))
  {
    hide Words, Der.Encode, Requirements, Blob, Wrapped, LastRegion, Readable, BigU32At, Fitting, Request.Sound,
         Assembled, Present, Slots.All;
    var text := EntitledText(i);
    FittingSizes(i, f);
    var requirements := BuildRequirements(i.bundleId, i.asset.subjectCN);
    var entitlements := Entitlements(text);
    var der := DerEntitlements(text, f);

    var existing1, existing256 := None, None;
    if !force {
      var ok, slots1, slots256 := GetExistsCodeSlotsData(signBase);
      existing1, existing256 := Extract(signBase, slots1), Extract(signBase, slots256);
    }

    var codeDirectory, alternate := [], [];
    RequestSound(i, f, false, existing1);
    RequestSound(i, f, true, existing256);
    var ok;
    if !i.asset.sha256Only {
      ok, codeDirectory := BuildCodeDirectory(RequestFor(i, f, false, existing1), f.sha1);
    }
    ok, alternate := BuildCodeDirectory(RequestFor(i, f, true, existing256), f.sha256);
    if i.asset.sha256Only {
      alternate, codeDirectory := codeDirectory, alternate;
    }
    var cms := [];
    if !i.asset.adhoc {
      cms := CmsSlot(f.cms(codeDirectory, alternate));
    }
    output := BuildSuperBlob(Slots(codeDirectory, requirements, entitlements, der, alternate, cms));
  }

  lemma FittingSizes(i: Input, f: Foreign)
    requires Fitting(i, f)
    ensures InnerLength(i.bundleId, i.asset.subjectCN) + 20 < TWO32
    ensures |EntitledText(i)| + 8 < TWO32 && |Der.Encode(f.readPlist(EntitledText(i)))| + 8 < TWO32
  {
  }
}
