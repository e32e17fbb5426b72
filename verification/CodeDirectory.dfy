/** Building a CodeDirectory blob and reading it back. */
module CodeDirectory {
  import opened Bytes

  const CSMAGIC_CODEDIRECTORY: u32 := 0xfade_0c02
  const VERSION: u32 := 0x20400
  const CS_ADHOC: u32 := 2
  const PAGE_SIZE := 4096
  const HEADER_LENGTH := 88

  /** A hash function with outputs of one length. */
  type Hash = seq<byte> -> seq<byte>

  ghost predicate Outputs(hash: Hash, size: nat) {
    forall x :: |hash(x)| == size
  }

  /** The arguments of `SlotBuildCodeDirectory`. `code` is the run of `uCodeLength` bytes at the code
      base, `existing` the code slots of an earlier signature when the caller found some. */
  datatype Request = Request(
    alternate: bool, code: seq<byte>, existing: Option<seq<byte>>,
    execSegLimit: u64, execSegFlags: u64, bundleId: seq<byte>, teamId: seq<byte>,
    infoPlist: seq<byte>, requirements: seq<byte>, codeResources: seq<byte>,
    entitlements: seq<byte>, derEntitlements: seq<byte>, isExecute: bool, isAdhoc: bool)
  {
    /** 32 for SHA-256, 20 for SHA-1. */
    function HashSize(): nat {
      if alternate then 32 else 20
    }

    /** Size of `n` hashes. */
    function HashBytes(n: nat): nat {
      if alternate then 32 * n else 20 * n
    }

    function HashType(): nat {
      if alternate then 2 else 1
    }

    /** The cases in which the builder produces nothing. */
    predicate Refused() {
      |code| == 0 || bundleId == [] || (teamId == [] && !isAdhoc)
    }

    /** A slot hash the caller leaves empty stands for a hash of zeros. */
    function OrZeros(hash: seq<byte>): seq<byte> {
      if hash == [] then Zeros(HashSize()) else hash
    }

    /** The special slots as the source lists them: the highest number first, Info.plist last. */
    function SpecialSlots(): seq<seq<byte>> {
      if isExecute then
        [OrZeros(derEntitlements), Zeros(HashSize()),
         OrZeros(entitlements), Zeros(HashSize()), OrZeros(codeResources), OrZeros(requirements), OrZeros(infoPlist)]
      else
        [OrZeros(entitlements), Zeros(HashSize()), OrZeros(codeResources), OrZeros(requirements), OrZeros(infoPlist)]
    }

    /** What special slot `-k` is meant to hold; slots past the list are meant to be absent. */
    function Intended(k: nat): seq<byte> {
      match k
      case 1 => OrZeros(infoPlist)
      case 2 => OrZeros(requirements)
      case 3 => OrZeros(codeResources)
      case 5 => OrZeros(entitlements)
      case 7 => if isExecute then OrZeros(derEntitlements) else Zeros(HashSize())
      case _ => Zeros(HashSize())
    }

    function CodeSlots(): nat {
      PageCount(code)
    }

    /** Slot hashes have the algorithm's length or are empty, and every length field fits 32 bits. */
    predicate Sound() {
      && |code| < TWO32
      && (forall h :: h in {infoPlist, requirements, codeResources, entitlements, derEntitlements} ==>
            h == [] || |h| == HashSize())
      && HEADER_LENGTH + |bundleId| + 1 + |teamId| + 1 + 7 * 32 + 32 * CodeSlots() < TWO32
    }
  }

  // ---------------------------------------------------------------- pages

  function Min(a: nat, b: nat): nat {
    if a < b then a else b
  }

  /** Page `i` of the code: 4096 bytes, fewer at the end. */
  function Page(code: seq<byte>, i: nat): seq<byte>
    requires PAGE_SIZE * i < |code|
  {
    code[PAGE_SIZE * i..Min(PAGE_SIZE * i + PAGE_SIZE, |code|)]
  }

  function PageCount(code: seq<byte>): nat {
    |code| / PAGE_SIZE + if |code| % PAGE_SIZE > 0 then 1 else 0
  }

  /** The hashes of the pages of `code` from page `i` on. */
  function PageHashesFrom(hash: Hash, code: seq<byte>, i: nat): seq<seq<byte>>
    decreases |code| - PAGE_SIZE * i
  {
    if |code| <= PAGE_SIZE * i then [] else [hash(Page(code, i))] + PageHashesFrom(hash, code, i + 1)
  }

  function PageHashes(hash: Hash, code: seq<byte>): seq<seq<byte>> {
    PageHashesFrom(hash, code, 0)
  }

  function PagesFrom(code: seq<byte>, i: nat): seq<seq<byte>>
    decreases |code| - PAGE_SIZE * i
  {
    if |code| <= PAGE_SIZE * i then [] else [Page(code, i)] + PagesFrom(code, i + 1)
  }

  lemma {:induction false} PageHashesFromAt(hash: Hash, code: seq<byte>, i: nat, k: nat)
    requires i <= PageCount(code)
    ensures |PageHashesFrom(hash, code, i)| == PageCount(code) - i
    ensures k < PageCount(code) - i ==>
      PAGE_SIZE * (i + k) < |code| && PageHashesFrom(hash, code, i)[k] == hash(Page(code, i + k))
    decreases |code| - PAGE_SIZE * i
  {
    if |code| <= PAGE_SIZE * i {
    } else {
      PageHashesFromAt(hash, code, i + 1, if k > 0 then k - 1 else 0);
    }
  }

  /** One hash per page, the hash of page `k` at place `k`. */
  lemma PageHashesAt(hash: Hash, code: seq<byte>, k: nat)
    ensures |PageHashes(hash, code)| == PageCount(code)
    ensures k < PageCount(code) ==> PAGE_SIZE * k < |code| && PageHashes(hash, code)[k] == hash(Page(code, k))
  {
    PageHashesFromAt(hash, code, 0, k);
  }

  lemma {:induction false} PagesFromCover(code: seq<byte>, i: nat)
    ensures Flatten(PagesFrom(code, i)) == if PAGE_SIZE * i <= |code| then code[PAGE_SIZE * i..] else []
    decreases |code| - PAGE_SIZE * i
  {
    hide Page, Flatten;
    if |code| <= PAGE_SIZE * i {
      FlattenNone();
    } else {
      PagesFromCover(code, i + 1);
      FlattenFirst(Page(code, i), PagesFrom(code, i + 1));
      PageThenRest(code, i);
    }
  }

  lemma FlattenNone()
    ensures Flatten([]) == []
  {
  }

  lemma FlattenFirst(run: seq<byte>, runs: seq<seq<byte>>)
    ensures Flatten([run] + runs) == run + Flatten(runs)
  {
    assert ([run] + runs)[1..] == runs;
  }

  lemma PageThenRest(code: seq<byte>, i: nat)
    requires PAGE_SIZE * i < |code|
    ensures code[PAGE_SIZE * i..]
      == Page(code, i) + if PAGE_SIZE * (i + 1) <= |code| then code[PAGE_SIZE * (i + 1)..] else []
  {
  }

  /** The pages partition the code: laid end to end they are it, none is empty, and their number is
      the length divided by 4096, rounded up. */
  lemma PagesPartition(code: seq<byte>)
    ensures Flatten(PagesFrom(code, 0)) == code
    ensures 4096 * PageCount(code) - 4096 < |code| <= 4096 * PageCount(code) || |code| == PageCount(code) == 0
    ensures forall k :: 0 <= k < PageCount(code) ==>
              && 4096 * k < |code|
              && Page(code, k) == code[4096 * k..if k < PageCount(code) - 1 then 4096 * k + 4096 else |code|]
  {
    PagesFromCover(code, 0);
  }

  // ---------------------------------------------------------------- the blob

  /** Leading all-zero slots are dropped. */
  function Trim(slots: seq<seq<byte>>, empty: seq<byte>): (r: seq<seq<byte>>)
    ensures |r| <= |slots| && r == slots[|slots| - |r|..]
    ensures r != [] ==> r[0] != empty
    ensures forall j :: 0 <= j < |slots| - |r| ==> slots[j] == empty
  {
    if slots == [] || slots[0] != empty then slots else Trim(slots[1..], empty)
  }

  function TeamBytes(teamId: seq<byte>): seq<byte> {
    if teamId == [] then [] else teamId + [0]
  }

  /** The 22 words of the header. The four single-byte fields are one word. */
  function HeaderWords(r: Request, nSpecial: nat): (ws: seq<u32>)
    requires r.Sound() && nSpecial <= 7
    ensures |ws| == 22
  {
    Fields(r.isAdhoc, r.alternate, |r.code|, r.execSegLimit, r.execSegFlags,
           HashOffset(r, nSpecial) + r.HashBytes(r.CodeSlots()), HashOffset(r, nSpecial), TeamOffset(r), nSpecial,
           r.CodeSlots())
  }

  lemma LengthsFit(r: Request, nSpecial: nat)
    requires r.Sound() && nSpecial <= 7
    ensures HashOffset(r, nSpecial) + r.HashBytes(r.CodeSlots()) < TWO32 && |r.code| < TWO32
  {
  }

  /** Code slot 0 starts behind the strings and the special slots. */
  function HashOffset(r: Request, nSpecial: nat): nat {
    HEADER_LENGTH + |r.bundleId| + 1 + |TeamBytes(r.teamId)| + r.HashBytes(nSpecial)
  }

  function TeamOffset(r: Request): nat {
    if r.teamId == [] then 0 else HEADER_LENGTH + |r.bundleId| + 1
  }

  function Fields(isAdhoc: bool, alternate: bool, codeLimit: u32, execSegLimit: u64, execSegFlags: u64,
                  length: u32, hashOffset: u32, teamOffset: u32, nSpecial: u32, nCode: u32): (ws: seq<u32>)
    ensures |ws| == 22
  {
    [CSMAGIC_CODEDIRECTORY, length, VERSION, if isAdhoc then CS_ADHOC else 0,
     hashOffset, HEADER_LENGTH, nSpecial, nCode, codeLimit,
     if alternate then 0x2002_000C else 0x1401_000C, 0, // hashSize, hashType, spare1, pageSize; spare2
     0, teamOffset, 0, 0, 0,
     0, 0, execSegLimit / TWO32, execSegLimit % TWO32, execSegFlags / TWO32, execSegFlags % TWO32]
  }

  /** The code slots: those handed in when their length is right, fresh page hashes otherwise. */
  function CodeSlotBytes(r: Request, hash: Hash): seq<byte> {
    if r.existing.Some? && |r.existing.value| == r.HashBytes(r.CodeSlots()) then r.existing.value
    else Flatten(PageHashes(hash, r.code))
  }

  /** The blob, empty when the builder refuses. */
  function Blob(r: Request, hash: Hash): seq<byte>
    requires r.Sound()
  {
    if r.Refused() then []
    else
      var special := Trim(r.SpecialSlots(), Zeros(r.HashSize()));
      Words(HeaderWords(r, |special|)) + r.bundleId + [0] + TeamBytes(r.teamId) + Flatten(special)
        + CodeSlotBytes(r, hash)
  }

  // ---------------------------------------------------------------- the builder

  method BuildCodeDirectory(r: Request, hash: Hash) returns (ok: bool, output: seq<byte>)
    requires r.Sound() && Outputs(hash, r.HashSize())
    ensures ok <==> !r.Refused()
    ensures output == Blob(r, hash)
  {
    hide HeaderWords, Words, PageHashes, Trim, Request.SpecialSlots, Request.Sound, BE32;
    output := [];
    if |r.code| <= 0 || r.bundleId == [] || (r.teamId == [] && !r.isAdhoc) {
      return false, output;
    }
    var special := UsedSpecialSlots(r);
    var words := Header(r, |special|);
    output := Words(words) + r.bundleId + [0];
    if r.teamId != [] {
      output := output + (r.teamId + [0]);
    }
    ghost var strings := Words(words) + r.bundleId + [0] + TeamBytes(r.teamId);
    assert output == strings;
    for i := 0 to |special|
      invariant output == strings + Flatten(special[..i])
    {
      FlattenNext(special, i);
      output := output + special[i];
    }
    assert special[..|special|] == special;

    if r.existing.Some? && |r.existing.value| == r.HashBytes(r.CodeSlots()) {
      output := output + r.existing.value;
    } else {
      var hashes := HashPages(r.code, hash);
      output := output + hashes;
    }
    ok := true;
  }

  /** The step that lists the special slots and drops the unused ones in front. */
  method UsedSpecialSlots(r: Request) returns (special: seq<seq<byte>>)
    ensures special == Trim(r.SpecialSlots(), Zeros(r.HashSize()))
    ensures |special| <= 7
  {
    hide Trim, Zeros, Request.SpecialSlots;
    var empty := Zeros(r.HashSize());
    special := [];
    if r.isExecute {
      special := special + [if r.derEntitlements == [] then empty else r.derEntitlements];
      special := special + [empty];
    }
    ghost var first := special;
    special := special + [if r.entitlements == [] then empty else r.entitlements];
    special := special + [empty];
    special := special + [if r.codeResources == [] then empty else r.codeResources];
    special := special + [if r.requirements == [] then empty else r.requirements];
    special := special + [if r.infoPlist == [] then empty else r.infoPlist];
    SlotsInOrder(r, first, special);
    special := DropEmpty(special, empty);
  }

  lemma SlotsInOrder(r: Request, first: seq<seq<byte>>, all: seq<seq<byte>>)
    requires first == if r.isExecute then [] + [r.OrZeros(r.derEntitlements)] + [Zeros(r.HashSize())] else []
    requires all == first + [r.OrZeros(r.entitlements)] + [Zeros(r.HashSize())] + [r.OrZeros(r.codeResources)]
                    + [r.OrZeros(r.requirements)] + [r.OrZeros(r.infoPlist)]
    ensures all == r.SpecialSlots()
    ensures |all| <= 7
  {
    hide Zeros, Request.OrZeros, Request.HashSize;
  }

  method DropEmpty(slots: seq<seq<byte>>, empty: seq<byte>) returns (kept: seq<seq<byte>>)
    ensures kept == Trim(slots, empty)
  {
    var used := 0;
    while used < |slots| && slots[used] == empty
      invariant used <= |slots|
      invariant Trim(slots[used..], empty) == Trim(slots, empty)
    {
      used := used + 1;
    }
    kept := slots[used..];
  }

  /** The step that fills in the header, as its 22 words. */
  method Header(r: Request, nSpecial: nat) returns (words: seq<u32>)
    requires r.Sound() && nSpecial <= 7
    ensures words == HeaderWords(r, nSpecial)
  {
    hide Fields, Request.HashBytes, Request.Sound;
    LengthsFit(r, nSpecial);
    var pages, remain := |r.code| / PAGE_SIZE, |r.code| % PAGE_SIZE;
    var codeSlots := pages + if remain > 0 then 1 else 0;
    var headerLength := 44 + 4 + 4 + 4 + 8 + 8 + 8 + 8;
    var bundleIdLength, teamIdLength := |r.bundleId| + 1, |r.teamId| + 1;
    var slotLength := headerLength + bundleIdLength + r.HashBytes(nSpecial) + r.HashBytes(codeSlots);
    var hashOffset, teamOffset := headerLength + bundleIdLength + r.HashBytes(nSpecial), 0;
    if r.teamId != [] {
      slotLength := slotLength + teamIdLength;
      hashOffset := hashOffset + teamIdLength;
      teamOffset := headerLength + bundleIdLength;
    }
    words := Fields(r.isAdhoc, r.alternate, |r.code|, r.execSegLimit, r.execSegFlags, slotLength, hashOffset,
      teamOffset, nSpecial, codeSlots);
  }

  lemma FlattenNext(runs: seq<seq<byte>>, i: nat)
    requires i < |runs|
    ensures Flatten(runs[..i + 1]) == Flatten(runs[..i]) + runs[i]
  {
    var one := [runs[i]];
    assert runs[..i + 1] == runs[..i] + one;
    FlattenAppend(runs[..i], one);
    assert |one[1..]| == 0;
  }

  /** The two hashing steps of the builder: whole pages, then what remains. */
  method HashPages(code: seq<byte>, hash: Hash) returns (hashes: seq<byte>)
    ensures hashes == Flatten(PageHashes(hash, code))
  {
    var pages, remain := |code| / PAGE_SIZE, |code| % PAGE_SIZE;
    ghost var all := PageHashes(hash, code);
    hashes := [];
    PageHashesAt(hash, code, 0);
    for i := 0 to pages
      invariant hashes == Flatten(all[..i])
    {
      PageHashesAt(hash, code, i);
      FlattenNext(all, i);
      hashes := hashes + hash(code[PAGE_SIZE * i..PAGE_SIZE * i + PAGE_SIZE]);
    }
    if remain > 0 {
      PageHashesAt(hash, code, pages);
      FlattenNext(all, pages);
      hashes := hashes + hash(code[PAGE_SIZE * pages..PAGE_SIZE * pages + remain]);
    }
    assert all[..|all|] == all;
  }

  // ---------------------------------------------------------------- reading it back

  /** The fields `SlotParseCodeDirectory` and `SlotGetCodeSlotsData` read. */
  predicate HasFields(cd: seq<byte>) {
    HEADER_LENGTH <= |cd|
  }

  function ReadLength(cd: seq<byte>): u32 requires HasFields(cd) { BigU32At(cd, 4) }
  function ReadHashOffset(cd: seq<byte>): u32 requires HasFields(cd) { BigU32At(cd, 16) }
  function ReadIdentOffset(cd: seq<byte>): u32 requires HasFields(cd) { BigU32At(cd, 20) }
  function ReadSpecialSlots(cd: seq<byte>): u32 requires HasFields(cd) { BigU32At(cd, 24) }
  function ReadCodeSlots(cd: seq<byte>): u32 requires HasFields(cd) { BigU32At(cd, 28) }
  function ReadCodeLimit(cd: seq<byte>): u32 requires HasFields(cd) { BigU32At(cd, 32) }
  function ReadHashSize(cd: seq<byte>): byte requires HasFields(cd) { cd[36] }
  function ReadTeamOffset(cd: seq<byte>): u32 requires HasFields(cd) { BigU32At(cd, 48) }

  /** Five regions laid end to end. */
  lemma Regions(cd: seq<byte>, a: seq<byte>, b: seq<byte>, c: seq<byte>, d: seq<byte>, e: seq<byte>)
    requires cd == a + b + c + d + e
    ensures |cd| == |a| + |b| + |c| + |d| + |e|
    ensures cd[..|a|] == a
    ensures cd[|a|..|a| + |b|] == b
    ensures cd[|a| + |b|..|a| + |b| + |c|] == c
    ensures cd[|a| + |b| + |c|..|a| + |b| + |c| + |d|] == d
    ensures cd[|a| + |b| + |c| + |d|..] == e
  {
  }

  /** Where everything in the blob is, region by region. */
  lemma BlobRegions(r: Request, hash: Hash)
    requires r.Sound() && Outputs(hash, r.HashSize()) && !r.Refused()
    ensures var cd, special := Blob(r, hash), Trim(r.SpecialSlots(), Zeros(r.HashSize()));
            var strings, hashes := HEADER_LENGTH + |r.bundleId| + 1, HashOffset(r, |special|);
            && |special| <= 7
            && |Flatten(special)| == r.HashBytes(|special|)
            && |CodeSlotBytes(r, hash)| == r.HashBytes(r.CodeSlots())
            && |cd| == hashes + r.HashBytes(r.CodeSlots())
            && cd[..HEADER_LENGTH] == Words(HeaderWords(r, |special|))
            && cd[HEADER_LENGTH..strings] == r.bundleId + [0]
            && cd[strings..strings + |TeamBytes(r.teamId)|] == TeamBytes(r.teamId)
            && cd[hashes - r.HashBytes(|special|)..hashes] == Flatten(special)
            && cd[hashes..] == CodeSlotBytes(r, hash)
  {
    hide HeaderWords, Words, PageHashes, Trim, Request.SpecialSlots, Request.Sound, BE32, Flatten, CodeSlotBytes, Blob,
         Zeros, Request.Refused, Request.CodeSlots, Request.HashSize, Request.HashBytes;
    var cd, special := Blob(r, hash), Trim(r.SpecialSlots(), Zeros(r.HashSize()));
    SpecialSizes(r);
    SpecialLength(r, special);
    CodeSlotsSize(r, hash);
    BlobIs(r, hash);
    Regions(cd, Words(HeaderWords(r, |special|)), r.bundleId + [0], TeamBytes(r.teamId), Flatten(special),
      CodeSlotBytes(r, hash));
  }

  lemma BlobIs(r: Request, hash: Hash)
    requires r.Sound() && !r.Refused()
    ensures var special := Trim(r.SpecialSlots(), Zeros(r.HashSize()));
            && |special| <= 7
            && Blob(r, hash)
                 == Words(HeaderWords(r, |special|)) + (r.bundleId + [0]) + TeamBytes(r.teamId) + Flatten(special)
                    + CodeSlotBytes(r, hash)
  {
    hide HeaderWords, Words, Trim, Request.SpecialSlots, Request.Sound, Flatten, CodeSlotBytes, Zeros, Request.HashSize,
         TeamBytes;
    SpecialSizes(r);
    var special := Trim(r.SpecialSlots(), Zeros(r.HashSize()));
    assert |special| <= 7;
    Grouped(Words(HeaderWords(r, |special|)), r.bundleId, [0]);
  }

  lemma Grouped<T>(a: seq<T>, b: seq<T>, c: seq<T>)
    ensures a + b + c == a + (b + c)
  {
  }

  lemma SpecialLength(r: Request, special: seq<seq<byte>>)
    requires forall h :: h in special ==> |h| == r.HashSize()
    ensures |Flatten(special)| == r.HashBytes(|special|)
  {
    hide Flatten;
    FlattenLength(special, r.HashSize());
  }

  lemma SpecialSizes(r: Request)
    requires r.Sound()
    ensures var special := Trim(r.SpecialSlots(), Zeros(r.HashSize()));
            |special| <= 7 && forall h :: h in special ==> |h| == r.HashSize()
  {
    hide Trim, Request.SpecialSlots, Request.Sound;
    var all := r.SpecialSlots();
    var special := Trim(all, Zeros(r.HashSize()));
    SlotSizes(r);
    forall h | h in special ensures |h| == r.HashSize() {
      var j :| 0 <= j < |special| && special[j] == h;
      assert h == all[|all| - |special| + j];
    }
  }

  lemma SlotSizes(r: Request)
    requires r.Sound()
    ensures |r.SpecialSlots()| <= 7
    ensures forall j :: 0 <= j < |r.SpecialSlots()| ==> |r.SpecialSlots()[j]| == r.HashSize()
  {
  }

  lemma CodeSlotsSize(r: Request, hash: Hash)
    requires Outputs(hash, r.HashSize())
    ensures |CodeSlotBytes(r, hash)| == r.HashBytes(r.CodeSlots())
    ensures |Flatten(PageHashes(hash, r.code))| == r.HashBytes(r.CodeSlots())
  {
    var hashes := PageHashes(hash, r.code);
    forall h | h in hashes ensures |h| == r.HashSize() {
      var k :| 0 <= k < |hashes| && hashes[k] == h;
      PageHashesAt(hash, r.code, k);
    }
    PageHashesAt(hash, r.code, 0);
    FlattenLength(hashes, r.HashSize());
  }

  /** The header fields say where the rest is: the length field is the blob's size, the identifier
      and team offsets point at the NUL-terminated strings, and code slots fill the blob's end. */
  lemma BlobLayout(r: Request, hash: Hash)
    requires r.Sound() && Outputs(hash, r.HashSize()) && !r.Refused()
    ensures var cd := Blob(r, hash);
            && HasFields(cd)
            && ReadLength(cd) == |cd|
            && ReadCodeLimit(cd) == |r.code|
            && ReadHashSize(cd) == r.HashSize()
            && ReadCodeSlots(cd) == r.CodeSlots() == PageCount(r.code)
            && var ident := ReadIdentOffset(cd);
               ident + |r.bundleId| + 1 <= |cd| && cd[ident..ident + |r.bundleId| + 1] == r.bundleId + [0]
    ensures var cd, team := Blob(r, hash), ReadTeamOffset(Blob(r, hash));
            && (r.teamId == [] <==> team == 0)
            && (r.teamId != [] ==> team + |r.teamId| + 1 <= |cd| && cd[team..team + |r.teamId| + 1] == r.teamId + [0])
    ensures var cd := Blob(r, hash);
            ReadHashOffset(cd) + r.HashBytes(ReadCodeSlots(cd)) == |cd|
  {
    hide HeaderWords, Words, Request.SpecialSlots, Request.Sound, BE32, Flatten, CodeSlotBytes, BigU32At, Trim, Blob;
    var cd, special := Blob(r, hash), Trim(r.SpecialSlots(), Zeros(r.HashSize()));
    BlobRegions(r, hash);
    HeaderFields(r, hash);
  }

  /** The 22 words of the header, read one by one. */
  predicate HasWords(cd: seq<byte>, ws: seq<u32>) {
    && |ws| == 22 && HasFields(cd)
    && (forall k :: 0 <= k < 22 ==> BigU32At(cd, 4 * k) == ws[k])
    && cd[36..40] == BE32(ws[9])
  }

  lemma WordsRead(cd: seq<byte>, ws: seq<u32>)
    requires |ws| == 22 && HasFields(cd) && cd[..HEADER_LENGTH] == Words(ws)
    ensures HasWords(cd, ws)
  {
    hide Words, BigU32At, BE32;
    forall k | 0 <= k < 22 ensures BigU32At(cd, 4 * k) == ws[k] {
      WordAt(ws, k, cd);
    }
    WordBytes(ws, 9);
    SliceOfSlice(cd, 0, HEADER_LENGTH, 36, 40);
  }

  /** Every byte of the header: where everything is and how much of it, the flags, the hash, the page size as a
      power of two, the executable segment, and zeros in all fields the builder leaves unused. */
  predicate DescribesHeader(cd: seq<byte>, r: Request, nSpecial: nat)
    requires HasFields(cd)
  {
    && BigU32At(cd, 0) == CSMAGIC_CODEDIRECTORY
    && ReadLength(cd) == HashOffset(r, nSpecial) + r.HashBytes(r.CodeSlots())
    && BigU32At(cd, 8) == VERSION
    && BigU32At(cd, 12) == (if r.isAdhoc then CS_ADHOC else 0)
    && ReadHashOffset(cd) == HashOffset(r, nSpecial)
    && ReadIdentOffset(cd) == HEADER_LENGTH
    && ReadSpecialSlots(cd) == nSpecial
    && ReadCodeSlots(cd) == r.CodeSlots()
    && ReadCodeLimit(cd) == |r.code|
    && ReadHashSize(cd) == r.HashSize() && cd[37] == r.HashType() && cd[38] == 0 && cd[39] == 12
    && BigU32At(cd, 40) == BigU32At(cd, 44) == 0
    && ReadTeamOffset(cd) == TeamOffset(r)
    && BigU32At(cd, 52) == BigU32At(cd, 56) == BigU32At(cd, 60) == BigU32At(cd, 64) == BigU32At(cd, 68) == 0
    && BigU32At(cd, 72) * TWO32 + BigU32At(cd, 76) == r.execSegLimit
    && BigU32At(cd, 80) * TWO32 + BigU32At(cd, 84) == r.execSegFlags
  }

  lemma HeaderFields(r: Request, hash: Hash)
    requires r.Sound() && Outputs(hash, r.HashSize()) && !r.Refused()
    ensures var cd, special := Blob(r, hash), Trim(r.SpecialSlots(), Zeros(r.HashSize()));
            HasFields(cd) && |special| <= 7 && DescribesHeader(cd, r, |special|)
  {
    hide Words, Request.SpecialSlots, Request.Sound, BE32, Flatten, CodeSlotBytes, BigU32At, Trim, Blob, HeaderWords,
         DescribesHeader, Request.Refused, Zeros;
    var cd, special := Blob(r, hash), Trim(r.SpecialSlots(), Zeros(r.HashSize()));
    BlobRegions(r, hash);
    WordsRead(cd, HeaderWords(r, |special|));
    WordsDescribe(cd, r, |special|);
  }

  lemma WordsDescribe(cd: seq<byte>, r: Request, nSpecial: nat)
    requires r.Sound() && nSpecial <= 7 && HasFields(cd) && HasWords(cd, HeaderWords(r, nSpecial))
    ensures DescribesHeader(cd, r, nSpecial)
  {
    hide BigU32At, BE32, Request.Sound, HashOffset, Request.HashBytes, TeamOffset, Request.CodeSlots;
    LengthsFit(r, nSpecial);
    var ws := HeaderWords(r, nSpecial);
    FourBytes(cd, ws[9], r);
    assert BigU32At(cd, 4 * 0) == ws[0] && BigU32At(cd, 4 * 1) == ws[1] && BigU32At(cd, 4 * 2) == ws[2];
    assert BigU32At(cd, 4 * 3) == ws[3] && BigU32At(cd, 4 * 4) == ws[4] && BigU32At(cd, 4 * 5) == ws[5];
    assert BigU32At(cd, 4 * 6) == ws[6] && BigU32At(cd, 4 * 7) == ws[7] && BigU32At(cd, 4 * 8) == ws[8];
    assert BigU32At(cd, 4 * 10) == ws[10] && BigU32At(cd, 4 * 11) == ws[11] && BigU32At(cd, 4 * 12) == ws[12];
    assert BigU32At(cd, 4 * 13) == ws[13] && BigU32At(cd, 4 * 14) == ws[14] && BigU32At(cd, 4 * 15) == ws[15];
    assert BigU32At(cd, 4 * 16) == ws[16] && BigU32At(cd, 4 * 17) == ws[17] && BigU32At(cd, 4 * 18) == ws[18];
    assert BigU32At(cd, 4 * 19) == ws[19] && BigU32At(cd, 4 * 20) == ws[20] && BigU32At(cd, 4 * 21) == ws[21];
  }

  /** The word of four single-byte fields. */
  lemma FourBytes(cd: seq<byte>, w: u32, r: Request)
    requires HasFields(cd) && cd[36..40] == BE32(w)
    requires w == if r.alternate then 0x2002_000C else 0x1401_000C
    ensures cd[36] == r.HashSize() && cd[37] == r.HashType() && cd[38] == 0 && cd[39] == 12
  {
    assert cd[36] == cd[36..40][0] && cd[37] == cd[36..40][1] && cd[38] == cd[36..40][2] && cd[39] == cd[36..40][3];
  }

  /** Code slots are taken over when slots of the right length were handed in. */
  predicate TakesOver(r: Request) {
    r.existing.Some? && |r.existing.value| == r.HashBytes(r.CodeSlots())
  }

  /** Code slot `i` is where the readers look for it. It is the one handed in when slots are taken over, and
      otherwise the hash of page `i`. */
  lemma CodeSlotAt(r: Request, hash: Hash, i: nat)
    requires r.Sound() && Outputs(hash, r.HashSize()) && !r.Refused() && i < r.CodeSlots()
    ensures var cd, hs := Blob(r, hash), r.HashSize();
            && HasFields(cd)
            && var at := ReadHashOffset(cd) + r.HashBytes(i);
               && at + hs <= |cd|
               && (TakesOver(r) ==>
                     && 0 <= hs * i && hs * i + hs <= |r.existing.value|
                     && cd[at..at + hs] == r.existing.value[hs * i..hs * i + hs])
               && (!TakesOver(r) ==> PAGE_SIZE * i < |r.code| && cd[at..at + hs] == hash(Page(r.code, i)))
  {
    hide HeaderWords, Words, Request.SpecialSlots, Request.Sound, BE32, Flatten, BigU32At, Trim, Blob, PageHashes,
         Page, PageCount, HashOffset, Request.Refused, Zeros, Request.HashBytes, CodeSlotBytes, Request.HashSize;
    var cd, hs := Blob(r, hash), r.HashSize();
    BlobRegions(r, hash);
    HeaderFields(r, hash);
    SlotInside(r, cd, ReadHashOffset(cd), CodeSlotBytes(r, hash), i);
    SlotBytes(r, hash);
    if !TakesOver(r) {
      PageHashSlot(hash, hs, r.code, i);
    }
  }

  lemma SlotBytes(r: Request, hash: Hash)
    ensures CodeSlotBytes(r, hash) == if TakesOver(r) then r.existing.value else Flatten(PageHashes(hash, r.code))
  {
  }

  lemma SlotInside(r: Request, cd: seq<byte>, from: nat, slots: seq<byte>, i: nat)
    requires i < r.CodeSlots() && |slots| == r.HashBytes(r.CodeSlots()) && from <= |cd| && cd[from..] == slots
    ensures 0 <= r.HashSize() * i && r.HashSize() * i + r.HashSize() <= |slots|
    ensures 0 <= r.HashBytes(i) && from + r.HashBytes(i) + r.HashSize() <= |cd|
    ensures cd[from + r.HashBytes(i)..from + r.HashBytes(i) + r.HashSize()]
         == slots[r.HashSize() * i..r.HashSize() * i + r.HashSize()]
  {
    hide PageCount;
    var hs := r.HashSize();
    HashTimes(r, i);
    SliceOfSlice(cd, from, |cd|, hs * i, hs * i + hs);
  }

  /** Hash `i` among the page hashes laid end to end. */
  lemma PageHashSlot(hash: Hash, size: nat, code: seq<byte>, i: nat)
    requires Outputs(hash, size) && i < PageCount(code)
    ensures 0 <= size * i && size * i + size <= |Flatten(PageHashes(hash, code))| && PAGE_SIZE * i < |code|
    ensures Flatten(PageHashes(hash, code))[size * i..size * i + size] == hash(Page(code, i))
  {
    hide Page, PageHashes, Flatten, PageCount;
    var hashes := PageHashes(hash, code);
    PageHashesAt(hash, code, i);
    forall h | h in hashes ensures |h| == size {
      var k :| 0 <= k < |hashes| && hashes[k] == h;
      PageHashesAt(hash, code, k);
    }
    FlattenUniform(hashes, size, i);
  }

  /** Special slot `-k`, read where `SlotParseCodeDirectory` reads it, holds what it is meant to; every
      slot past the kept ones was meant to be zero; and the farthest kept one is not. */
  lemma SpecialSlotAt(r: Request, hash: Hash, k: nat)
    requires r.Sound() && Outputs(hash, r.HashSize()) && !r.Refused() && 0 < k
    ensures var cd := Blob(r, hash);
            && HasFields(cd)
            && (k <= ReadSpecialSlots(cd) ==>
                  && 0 <= ReadHashOffset(cd) - r.HashBytes(k)
                  && ReadHashOffset(cd) - r.HashBytes(k) + r.HashSize() <= |cd|
                  && cd[ReadHashOffset(cd) - r.HashBytes(k)..ReadHashOffset(cd) - r.HashBytes(k) + r.HashSize()]
                       == r.Intended(k))
            && (ReadSpecialSlots(cd) < k ==> r.Intended(k) == Zeros(r.HashSize()))
            && (k == ReadSpecialSlots(cd) ==> r.Intended(k) != Zeros(r.HashSize()))
  {
    hide HeaderWords, Words, Request.SpecialSlots, Request.Sound, BE32, Flatten, BigU32At, Blob, Request.Intended,
         Trim, CodeSlotBytes, Request.Refused, Zeros, Request.HashBytes, HashOffset, Request.HashSize, Outputs;
    SpecialRegion(r, hash);
    KeptAreIntended(r, k);
    SpecialSizes(r);
    if k <= ReadSpecialSlots(Blob(r, hash)) {
      KeptSlotAt(r, Blob(r, hash), Trim(r.SpecialSlots(), Zeros(r.HashSize())), ReadHashOffset(Blob(r, hash)), k);
    }
  }

  lemma HashTimes(r: Request, n: nat)
    ensures r.HashBytes(n) == r.HashSize() * n
  {
  }

  /** Counted from the end, the kept slots hold what they are meant to; the rest were meant to be zero. */
  lemma KeptAreIntended(r: Request, k: nat)
    requires 0 < k
    ensures var special, zeros := Trim(r.SpecialSlots(), Zeros(r.HashSize())), Zeros(r.HashSize());
            && (k <= |special| ==> special[|special| - k] == r.Intended(k))
            && (|special| < k ==> r.Intended(k) == zeros)
            && (k == |special| ==> r.Intended(k) != zeros)
  {
    hide Request.SpecialSlots, Request.Intended, Trim, Zeros, Request.HashSize;
    IntendedAt(r, k);
  }

  lemma SpecialRegion(r: Request, hash: Hash)
    requires r.Sound() && Outputs(hash, r.HashSize()) && !r.Refused()
    ensures var cd, special := Blob(r, hash), Trim(r.SpecialSlots(), Zeros(r.HashSize()));
            && HasFields(cd)
            && ReadSpecialSlots(cd) == |special|
            && |Flatten(special)| <= ReadHashOffset(cd) == HashOffset(r, |special|) <= |cd|
            && cd[ReadHashOffset(cd) - |Flatten(special)|..ReadHashOffset(cd)] == Flatten(special)
  {
    hide HeaderWords, Words, Request.SpecialSlots, Request.Sound, BE32, Flatten, BigU32At, Blob, Trim, CodeSlotBytes;
    BlobRegions(r, hash);
    HeaderFields(r, hash);
  }

  /** Slots laid out before `hashes`, the last one nearest, are found by counting back from there. */
  lemma KeptSlot(cd: seq<byte>, special: seq<seq<byte>>, hs: nat, hashes: nat, k: nat)
    requires 0 < k <= |special| && forall h :: h in special ==> |h| == hs
    requires |Flatten(special)| <= hashes <= |cd| && cd[hashes - |Flatten(special)|..hashes] == Flatten(special)
    ensures 0 <= hs * k <= |Flatten(special)| && hs <= hs * k
    ensures cd[hashes - hs * k..hashes - hs * k + hs] == special[|special| - k]
  {
    hide Flatten;
    var n := |special|;
    FlattenUniform(special, hs, n - k);
    assert hs * (n - k) == hs * n - hs * k;
    var from: nat := hashes - hs * n;
    SliceOfSlice(cd, from, hashes, hs * (n - k), hs * (n - k) + hs);
  }

  lemma KeptSlotAt(r: Request, cd: seq<byte>, special: seq<seq<byte>>, hashes: nat, k: nat)
    requires 0 < k <= |special| && forall h :: h in special ==> |h| == r.HashSize()
    requires |Flatten(special)| <= hashes <= |cd| && cd[hashes - |Flatten(special)|..hashes] == Flatten(special)
    ensures 0 <= hashes - r.HashBytes(k) && hashes - r.HashBytes(k) + r.HashSize() <= |cd|
    ensures cd[hashes - r.HashBytes(k)..hashes - r.HashBytes(k) + r.HashSize()] == special[|special| - k]
  {
    hide Flatten, Request.HashSize, Request.HashBytes;
    HashTimes(r, k);
    KeptSlot(cd, special, r.HashSize(), hashes, k);
  }

  lemma IntendedAt(r: Request, k: nat)
    requires 0 < k
    ensures r.Intended(k) == if k <= |r.SpecialSlots()| then r.SpecialSlots()[|r.SpecialSlots()| - k]
      else Zeros(r.HashSize())
  {
  }

  /** Reusing slots of the right length gives the blob that rehashing would give exactly when they are
      the page hashes of the code; slots of any other length are ignored. */
  lemma ReuseIsRehash(r: Request, hash: Hash)
    requires r.Sound() && Outputs(hash, r.HashSize()) && !r.Refused() && r.existing.Some?
    ensures r.(existing := None).Sound() && !r.(existing := None).Refused()
    ensures |r.existing.value| != r.HashBytes(r.CodeSlots()) ==> Blob(r, hash) == Blob(r.(existing := None), hash)
    ensures |r.existing.value| == r.HashBytes(r.CodeSlots()) ==>
      (Blob(r, hash) == Blob(r.(existing := None), hash) <==> r.existing.value == Flatten(PageHashes(hash, r.code)))
  {
    hide Words, BE32, Flatten, PageHashes, Trim, HeaderWords, Request.SpecialSlots;
    var rehash := r.(existing := None);
    SameHeader(r, rehash);
    BlobRegions(r, hash);
    BlobRegions(rehash, hash);
  }

  lemma SameHeader(r: Request, rehash: Request)
    requires r.Sound() && rehash == r.(existing := None)
    ensures rehash.Sound() && rehash.SpecialSlots() == r.SpecialSlots()
    ensures |Trim(r.SpecialSlots(), Zeros(r.HashSize()))| <= 7
    ensures HeaderWords(rehash, |Trim(r.SpecialSlots(), Zeros(r.HashSize()))|)
      == HeaderWords(r, |Trim(r.SpecialSlots(), Zeros(r.HashSize()))|)
  {
    hide Request.SpecialSlots, Trim, Zeros, Fields;
    SpecialSizes(r);
    SameSlots(r);
    SameFields(r, |Trim(r.SpecialSlots(), Zeros(r.HashSize()))|);
  }

  lemma SameSlots(r: Request)
    ensures r.(existing := None).SpecialSlots() == r.SpecialSlots()
  {
  }

  lemma SameFields(r: Request, nSpecial: nat)
    requires r.Sound() && nSpecial <= 7
    ensures r.(existing := None).Sound() && HeaderWords(r.(existing := None), nSpecial) == HeaderWords(r, nSpecial)
  {
    hide Fields;
    LengthsFit(r, nSpecial);
    SameSound(r);
    hide Request.Sound;
  }

  lemma SameSound(r: Request)
    requires r.Sound()
    ensures r.(existing := None).Sound()
  {
  }
}
