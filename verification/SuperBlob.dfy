/** The embedded-signature SuperBlob: an index of typed blobs, and the reader that finds the code
    slots of an earlier signature through it. */
module SuperBlob {
  import opened Bytes
  import opened CodeDirectory

  const CSMAGIC_EMBEDDED_SIGNATURE: u32 := 0xfade_0cc0
  const CSSLOT_CODEDIRECTORY: u32 := 0
  const CSSLOT_REQUIREMENTS: u32 := 2
  const CSSLOT_ENTITLEMENTS: u32 := 5
  const CSSLOT_DER_ENTITLEMENTS: u32 := 7
  const CSSLOT_ALTERNATE_CODEDIRECTORIES: u32 := 0x1000
  const CSSLOT_SIGNATURESLOT: u32 := 0x10000

  datatype Entry = Entry(kind: u32, blob: seq<byte>)

  /** The six slots of a signature; an empty one is left out. */
  datatype Slots = Slots(codeDirectory: seq<byte>, requirements: seq<byte>, entitlements: seq<byte>,
                         derEntitlements: seq<byte>, alternate: seq<byte>, cms: seq<byte>)
  {
    function Size(): nat {
      |codeDirectory| + |requirements| + |entitlements| + |derEntitlements| + |alternate| + |cms|
    }

    /** The header plus six index entries plus the blobs fit the signed 32-bit length in which the signer
        computes the room it has. */
    predicate Sound() {
      12 + 8 * 6 + Size() < 0x8000_0000
    }

    function All(): seq<Entry> {
      [Entry(CSSLOT_CODEDIRECTORY, codeDirectory), Entry(CSSLOT_REQUIREMENTS, requirements),
       Entry(CSSLOT_ENTITLEMENTS, entitlements), Entry(CSSLOT_DER_ENTITLEMENTS, derEntitlements),
       Entry(CSSLOT_ALTERNATE_CODEDIRECTORIES, alternate), Entry(CSSLOT_SIGNATURESLOT, cms)]
    }
  }

  /** The entries that have a blob, in order. */
  function Present(es: seq<Entry>): (r: seq<Entry>)
    ensures |r| <= |es|
    ensures forall e :: e in r <==> e in es && e.blob != []
  {
    if es == [] then []
    else if es[0].blob == [] then Present(es[1..])
    else [es[0]] + Present(es[1..])
  }

  function TotalSize(es: seq<Entry>): nat {
    if es == [] then 0 else |es[0].blob| + TotalSize(es[1..])
  }

  function Blobs(es: seq<Entry>): seq<seq<byte>> {
    if es == [] then [] else [es[0].blob] + Blobs(es[1..])
  }

  /** Kind and offset of every entry when the first blob starts at `at`. */
  function Index(es: seq<Entry>, at: nat): (ws: seq<u32>)
    requires at + TotalSize(es) < TWO32
    ensures |ws| == 2 * |es|
  {
    if es == [] then [] else [es[0].kind, at] + Index(es[1..], at + |es[0].blob|)
  }

  /** Where the blob of entry `i` starts. */
  function OffsetOf(es: seq<Entry>, i: nat): nat
    requires i <= |es|
  {
    12 + 8 * |es| + TotalSize(es[..i])
  }

  function HeaderWords(es: seq<Entry>): (ws: seq<u32>)
    requires 12 + 8 * |es| + TotalSize(es) < TWO32
    ensures |ws| == 3 + 2 * |es|
  {
    [CSMAGIC_EMBEDDED_SIGNATURE, 12 + 8 * |es| + TotalSize(es), |es|] + Index(es, 12 + 8 * |es|)
  }

  /** The signature blob for a list of entries. */
  function Assembled(es: seq<Entry>): seq<byte>
    requires 12 + 8 * |es| + TotalSize(es) < TWO32
  {
    Words(HeaderWords(es)) + Flatten(Blobs(es))
  }

  lemma PresentSize(es: seq<Entry>)
    ensures TotalSize(Present(es)) == TotalSize(es)
    ensures Flatten(Blobs(Present(es))) == Flatten(Blobs(es))
  {
  }

  lemma SlotsSize(s: Slots)
    ensures TotalSize(s.All()) == s.Size()
    ensures Flatten(Blobs(s.All()))
         == s.codeDirectory + s.requirements + s.entitlements + s.derEntitlements + s.alternate + s.cms
  {
    var a := s.All();
    assert a[1..][1..] == a[2..] && a[2..][1..] == a[3..] && a[3..][1..] == a[4..] && a[4..][1..] == a[5..]
      && |a[5..][1..]| == 0;
    assert TotalSize(a[5..]) == |s.cms|;
    assert TotalSize(a[3..]) == |s.derEntitlements| + |s.alternate| + |s.cms|;
    assert TotalSize(a[1..]) == |s.requirements| + |s.entitlements| + |s.derEntitlements| + |s.alternate| + |s.cms|;
    BlobsOfSlots(s);
  }

  lemma AssembledSize(s: Slots)
    requires s.Sound()
    ensures 12 + 8 * |Present(s.All())| + TotalSize(Present(s.All())) < TWO32
  {
    SlotsSize(s);
    PresentSize(s.All());
  }

  lemma BlobsOfSlots(s: Slots)
    ensures Flatten(Blobs(s.All()))
         == s.codeDirectory + s.requirements + s.entitlements + s.derEntitlements + s.alternate + s.cms
  {
    var b := [s.codeDirectory, s.requirements, s.entitlements, s.derEntitlements, s.alternate, s.cms];
    BlobsAre(s.All(), b);
    assert Flatten(b[5..]) == s.cms + Flatten(b[6..]) == s.cms;
    assert Flatten(b[4..]) == s.alternate + Flatten(b[4..][1..]) && b[4..][1..] == b[5..];
    assert Flatten(b[3..]) == s.derEntitlements + Flatten(b[3..][1..]) && b[3..][1..] == b[4..];
    assert Flatten(b[2..]) == s.entitlements + Flatten(b[2..][1..]) && b[2..][1..] == b[3..];
    assert Flatten(b[1..]) == s.requirements + Flatten(b[1..][1..]) && b[1..][1..] == b[2..];
  }

  lemma {:induction false} BlobsAre(es: seq<Entry>, b: seq<seq<byte>>)
    requires |b| == |es| && forall i :: 0 <= i < |es| ==> es[i].blob == b[i]
    ensures Blobs(es) == b
  {
    if es != [] {
      BlobsAre(es[1..], b[1..]);
    }
  }

  // ---------------------------------------------------------------- the builder

  /** The layout part of `BuildCodeSignature`: count, offsets, index, then the blobs. */
  method BuildSuperBlob(s: Slots) returns (output: seq<byte>)
    requires s.Sound()
    ensures 12 + 8 * |Present(s.All())| + TotalSize(Present(s.All())) < TWO32
    ensures output == Assembled(Present(s.All()))
  {
    hide Present, Index, Flatten, Blobs, TotalSize, Words, Assembled, Slots.All;
    var count := CountSlots(s);
    var headerLength := 12 + count * 8;
    var length := headerLength + |s.codeDirectory| + |s.requirements| + |s.entitlements| + |s.derEntitlements|
                  + |s.alternate| + |s.cms|;
    CountedSizes(s, count);
    var index := IndexWords(s, headerLength);
    var header := [CSMAGIC_EMBEDDED_SIGNATURE, length, count];
    output := Words(header);
    output := output + Words(index);
    ghost var front := output;
    output := output + s.codeDirectory + s.requirements + s.entitlements + s.derEntitlements + s.alternate + s.cms;
    assert output == front + (s.codeDirectory + s.requirements + s.entitlements + s.derEntitlements + s.alternate
      + s.cms);
    PutTogether(s, header, index);
  }

  lemma CountedSizes(s: Slots, count: nat)
    requires s.Sound() && count == CountUpTo(s.All(), 6)
    ensures count == |Present(s.All())| <= 6 && 12 + 8 * count + s.Size() < TWO32
    ensures s.Size() == TotalSize(Present(s.All()))
  {
    hide Present, Index, Flatten, Blobs, TotalSize, Words;
    UpTo(s.All(), 6, 0);
    assert s.All()[..6] == s.All();
    SlotsSize(s);
    PresentSize(s.All());
  }

  lemma PutTogether(s: Slots, header: seq<u32>, index: seq<u32>)
    requires s.Sound()
    requires 12 + 8 * |Present(s.All())| + TotalSize(Present(s.All())) < TWO32
    requires header == [CSMAGIC_EMBEDDED_SIGNATURE, 12 + 8 * |Present(s.All())| + TotalSize(Present(s.All())),
      |Present(s.All())|]
    requires index == Index(Present(s.All()), 12 + 8 * |Present(s.All())|)
    ensures Words(header) + Words(index)
              + (s.codeDirectory + s.requirements + s.entitlements + s.derEntitlements + s.alternate + s.cms)
         == Assembled(Present(s.All()))
  {
    hide Present, Index, Flatten, Blobs, TotalSize, Words;
    WordsAppend(header, index);
    SlotsSize(s);
    PresentSize(s.All());
  }

  /** Sizes, number and index entries of the first `k` slots, added one slot at a time. */
  function SizeUpTo(a: seq<Entry>, k: nat): nat
    requires k <= |a|
  {
    if k == 0 then 0 else SizeUpTo(a, k - 1) + |a[k - 1].blob|
  }

  function CountUpTo(a: seq<Entry>, k: nat): nat
    requires k <= |a|
  {
    if k == 0 then 0 else CountUpTo(a, k - 1) + if |a[k - 1].blob| > 0 then 1 else 0
  }

  function IndexUpTo(a: seq<Entry>, k: nat, at: nat): seq<u32>
    requires k <= |a| && at + SizeUpTo(a, k) < TWO32
  {
    if k == 0 then []
    else if |a[k - 1].blob| > 0 then IndexUpTo(a, k - 1, at) + [a[k - 1].kind, at + SizeUpTo(a, k - 1)]
    else IndexUpTo(a, k - 1, at)
  }

  method CountSlots(s: Slots) returns (count: nat)
    ensures count == CountUpTo(s.All(), 6) <= 6
  {
    hide Slots.All, Slots.Size, SizeUpTo;
    ghost var a := s.All();
    SizesUpTo(s);
    count := 0;
    count := count + if |s.codeDirectory| > 0 then 1 else 0;
    assert count == CountUpTo(a, 1);
    count := count + if |s.requirements| > 0 then 1 else 0;
    assert count == CountUpTo(a, 2);
    count := count + if |s.entitlements| > 0 then 1 else 0;
    assert count == CountUpTo(a, 3);
    count := count + if |s.derEntitlements| > 0 then 1 else 0;
    assert count == CountUpTo(a, 4);
    count := count + if |s.alternate| > 0 then 1 else 0;
    assert count == CountUpTo(a, 5);
    count := count + if |s.cms| > 0 then 1 else 0;
    assert count == CountUpTo(a, 6);
  }

  lemma {:induction false} UpTo(a: seq<Entry>, k: nat, at: nat)
    requires k <= |a|
    ensures SizeUpTo(a, k) == TotalSize(a[..k]) == TotalSize(Present(a[..k]))
    ensures CountUpTo(a, k) == |Present(a[..k])|
    ensures at + SizeUpTo(a, k) < TWO32 ==> IndexUpTo(a, k, at) == Index(Present(a[..k]), at)
  {
    hide Present, TotalSize, Index, Flatten, Blobs, CountUpTo, SizeUpTo, IndexUpTo;
    PresentSize(a[..k]);
    if k == 0 {
      EmptyUpTo(a, at);
    } else {
      UpTo(a, k - 1, at);
      var front, e := a[..k - 1], a[k - 1];
      assert a[..k] == front + [e];
      UpToStep(a, k, at);
      PresentAppend(front, e);
      SizeAppend(front, e);
      if at + SizeUpTo(a, k) < TWO32 {
        IndexAppend(Present(front), e, at);
      }
    }
  }

  lemma EmptyUpTo(a: seq<Entry>, at: nat)
    ensures SizeUpTo(a, 0) == TotalSize(a[..0]) == 0 && Present(a[..0]) == [] && CountUpTo(a, 0) == 0
    ensures TotalSize([]) == 0
    ensures at < TWO32 ==> IndexUpTo(a, 0, at) == Index([], at)
  {
  }

  lemma UpToStep(a: seq<Entry>, k: nat, at: nat)
    requires 0 < k <= |a|
    ensures SizeUpTo(a, k) == SizeUpTo(a, k - 1) + |a[k - 1].blob|
    ensures CountUpTo(a, k) == CountUpTo(a, k - 1) + if a[k - 1].blob == [] then 0 else 1
    ensures at + SizeUpTo(a, k) < TWO32 ==>
      IndexUpTo(a, k, at)
        == IndexUpTo(a, k - 1, at) + if a[k - 1].blob == [] then [] else [a[k - 1].kind, at + SizeUpTo(a, k - 1)]
  {
  }

  lemma {:induction false} PresentAppend(es: seq<Entry>, e: Entry)
    ensures Present(es + [e]) == if e.blob == [] then Present(es) else Present(es) + [e]
  {
    if es == [] {
      assert es + [e] == [e] && |[e][1..]| == 0;
    } else {
      assert (es + [e])[1..] == es[1..] + [e];
      PresentAppend(es[1..], e);
    }
  }

  lemma {:induction false} SizeAppend(es: seq<Entry>, e: Entry)
    ensures TotalSize(es + [e]) == TotalSize(es) + |e.blob|
  {
    if es == [] {
      assert es + [e] == [e] && |[e][1..]| == 0;
    } else {
      assert (es + [e])[1..] == es[1..] + [e];
      SizeAppend(es[1..], e);
    }
  }

  lemma {:induction false} IndexAppend(es: seq<Entry>, e: Entry, at: nat)
    requires at + TotalSize(es) + |e.blob| < TWO32
    ensures TotalSize(es + [e]) == TotalSize(es) + |e.blob|
    ensures Index(es + [e], at) == Index(es, at) + [e.kind, at + TotalSize(es)]
  {
    SizeAppend(es, e);
    if es == [] {
      assert es + [e] == [e] && |[e][1..]| == 0;
    } else {
      assert (es + [e])[1..] == es[1..] + [e];
      IndexAppend(es[1..], e, at + |es[0].blob|);
    }
  }

  /** The index entries pushed one slot after the other, each offset summed up anew. */
  method IndexWords(s: Slots, headerLength: nat) returns (index: seq<u32>)
    requires headerLength + s.Size() < TWO32
    ensures headerLength + TotalSize(Present(s.All())) < TWO32
    ensures index == Index(Present(s.All()), headerLength)
  {
    ghost var a := s.All();
    SlotsSize(s);
    assert a[..6] == a;
    UpTo(a, 6, headerLength);
    index := IndexOfSlots(s, headerLength);
  }

  lemma SizesUpTo(s: Slots)
    ensures var a := s.All();
            && |a| == 6
            && a[0] == Entry(CSSLOT_CODEDIRECTORY, s.codeDirectory)
            && a[1] == Entry(CSSLOT_REQUIREMENTS, s.requirements)
            && a[2] == Entry(CSSLOT_ENTITLEMENTS, s.entitlements)
            && a[3] == Entry(CSSLOT_DER_ENTITLEMENTS, s.derEntitlements)
            && a[4] == Entry(CSSLOT_ALTERNATE_CODEDIRECTORIES, s.alternate)
            && a[5] == Entry(CSSLOT_SIGNATURESLOT, s.cms)
            && SizeUpTo(a, 0) == 0
            && SizeUpTo(a, 1) == |s.codeDirectory|
            && SizeUpTo(a, 2) == |s.codeDirectory| + |s.requirements|
            && SizeUpTo(a, 3) == |s.codeDirectory| + |s.requirements| + |s.entitlements|
            && SizeUpTo(a, 4) == |s.codeDirectory| + |s.requirements| + |s.entitlements| + |s.derEntitlements|
            && SizeUpTo(a, 5) == |s.codeDirectory| + |s.requirements| + |s.entitlements| + |s.derEntitlements|
                 + |s.alternate|
            && SizeUpTo(a, 6) == s.Size()
  {
  }

  method IndexOfSlots(s: Slots, headerLength: nat) returns (index: seq<u32>)
    requires headerLength + SizeUpTo(s.All(), 6) < TWO32
    ensures index == IndexUpTo(s.All(), 6, headerLength)
  {
    var cd, rq, en, de, al, cm :=
      |s.codeDirectory|, |s.requirements|, |s.entitlements|, |s.derEntitlements|, |s.alternate|, |s.cms|;
    hide Slots.All, SizeUpTo, IndexUpTo;
    ghost var a := s.All();
    SizesUpTo(s);
    index := NoEntries(a, headerLength);
    index := PushEntry(a, 0, headerLength, index, CSSLOT_CODEDIRECTORY, cd, headerLength);
    index := PushEntry(a, 1, headerLength, index, CSSLOT_REQUIREMENTS, rq, headerLength + cd);
    index := PushEntry(a, 2, headerLength, index, CSSLOT_ENTITLEMENTS, en, headerLength + cd + rq);
    index := PushEntry(a, 3, headerLength, index, CSSLOT_DER_ENTITLEMENTS, de, headerLength + cd + rq + en);
    index := PushEntry(a, 4, headerLength, index, CSSLOT_ALTERNATE_CODEDIRECTORIES, al,
      headerLength + cd + rq + en + de);
    index := PushEntry(a, 5, headerLength, index, CSSLOT_SIGNATURESLOT, cm, headerLength + cd + rq + en + de + al);
  }

  method NoEntries(ghost a: seq<Entry>, ghost at: nat) returns (index: seq<u32>)
    requires at < TWO32
    ensures SizeUpTo(a, 0) == 0 && index == IndexUpTo(a, 0, at)
  {
    index := [];
  }

  /** The step each of the six slots takes: an entry is pushed when the slot's length is positive. */
  method PushEntry(ghost a: seq<Entry>, ghost k: nat, ghost at: nat,
                   index: seq<u32>, kind: u32, length: nat, offset: u32) returns (r: seq<u32>)
    requires k < |a| && at + SizeUpTo(a, k) + |a[k].blob| < TWO32
    requires a[k].kind == kind && |a[k].blob| == length && offset == at + SizeUpTo(a, k)
    requires index == IndexUpTo(a, k, at)
    ensures at + SizeUpTo(a, k + 1) < TWO32 && r == IndexUpTo(a, k + 1, at)
  {
    r := index;
    if length > 0 {
      r := r + [kind, offset];
    }
  }

  // ---------------------------------------------------------------- reading it back

  lemma {:induction false} IndexAt(es: seq<Entry>, at: nat, i: nat)
    requires at + TotalSize(es) < TWO32 && i < |es|
    ensures Index(es, at)[2 * i] == es[i].kind
    ensures Index(es, at)[2 * i + 1] == at + TotalSize(es[..i])
  {
    if i > 0 {
      IndexAt(es[1..], at + |es[0].blob|, i - 1);
      assert es[..i][1..] == es[1..][..i - 1];
    }
  }

  lemma {:induction false} BlobAt(es: seq<Entry>, i: nat)
    requires i < |es|
    ensures |Flatten(Blobs(es))| == TotalSize(es)
    ensures TotalSize(es[..i]) + |es[i].blob| <= TotalSize(es)
    ensures Flatten(Blobs(es))[TotalSize(es[..i])..TotalSize(es[..i]) + |es[i].blob|] == es[i].blob
  {
    BlobsSize(es);
    assert (Blobs(es))[1..] == Blobs(es[1..]);
    if i > 0 {
      BlobAt(es[1..], i - 1);
      assert es[..i][1..] == es[1..][..i - 1];
      var at := TotalSize(es[1..][..i - 1]);
      ShiftSlice(es[0].blob, Flatten(Blobs(es[1..])), at, at + |es[i].blob|);
    }
  }

  lemma {:induction false} BlobsSize(es: seq<Entry>)
    ensures |Flatten(Blobs(es))| == TotalSize(es)
  {
    if es != [] {
      BlobsSize(es[1..]);
      assert (Blobs(es))[1..] == Blobs(es[1..]);
    }
  }

  /** Kind and offset in entry `i` of the index of a blob. */
  function EntryKind(b: seq<byte>, i: nat): u32
    requires 20 + 8 * i <= |b|
  {
    BigU32At(b, 12 + 8 * i)
  }

  function EntryOffset(b: seq<byte>, i: nat): u32
    requires 20 + 8 * i <= |b|
  {
    BigU32At(b, 16 + 8 * i)
  }

  /** The length field is the size of the output, the count is the number of entries, entry `i` of the
      index gives the kind of blob `i` and the offset at which exactly it lies; the first blob follows
      the index, each next one the one before, and the last one ends the output. */
  lemma AssembledLayout(es: seq<Entry>, i: nat)
    requires 12 + 8 * |es| + TotalSize(es) < TWO32 && i <= |es|
    ensures var b := Assembled(es);
            && 12 + 8 * |es| <= |b|
            && BigU32At(b, 0) == CSMAGIC_EMBEDDED_SIGNATURE
            && BigU32At(b, 4) == |b|
            && BigU32At(b, 8) == |es|
            && OffsetOf(es, 0) == 12 + 8 * |es|
            && OffsetOf(es, |es|) == |b|
            && (i < |es| ==>
                  && EntryKind(b, i) == es[i].kind
                  && EntryOffset(b, i) == OffsetOf(es, i)
                  && OffsetOf(es, i + 1) == OffsetOf(es, i) + |es[i].blob| <= |b|
                  && b[OffsetOf(es, i)..OffsetOf(es, i + 1)] == es[i].blob)
  {
    hide Words, BE32, BigU32At, Flatten, Blobs, Index, TotalSize, HeaderWords;
    BlobsSize(es);
    EmptyUpTo(es, 0);
    assert es[..0] == [] && es[..|es|] == es;
    HeaderOf(es);
    if i < |es| {
      EntryOf(es, i);
      SizeAppend(es[..i], es[i]);
      assert es[..i + 1] == es[..i] + [es[i]];
    }
  }

  lemma HeaderOf(es: seq<Entry>)
    requires 12 + 8 * |es| + TotalSize(es) < TWO32
    ensures var b, ws := Assembled(es), HeaderWords(es);
            && 4 * |ws| <= |b| && b[..4 * |ws|] == Words(ws)
            && BigU32At(b, 0) == CSMAGIC_EMBEDDED_SIGNATURE
            && BigU32At(b, 4) == 12 + 8 * |es| + TotalSize(es)
            && BigU32At(b, 8) == |es|
  {
    hide Words, BE32, BigU32At, Flatten, Blobs, Index, TotalSize;
    var b, ws := Assembled(es), HeaderWords(es);
    assert b[..4 * |ws|] == Words(ws);
    WordAt(ws, 0, b);
    WordAt(ws, 1, b);
    WordAt(ws, 2, b);
  }

  lemma EntryOf(es: seq<Entry>, i: nat)
    requires 12 + 8 * |es| + TotalSize(es) < TWO32 && i < |es|
    ensures var b, at := Assembled(es), OffsetOf(es, i);
            && 20 + 8 * i <= |b|
            && EntryKind(b, i) == es[i].kind
            && EntryOffset(b, i) == at
            && at + |es[i].blob| <= |b|
            && b[at..at + |es[i].blob|] == es[i].blob
  {
    hide Words, BE32, BigU32At, Flatten, Blobs, Index, TotalSize;
    var b, ws := Assembled(es), HeaderWords(es);
    HeaderOf(es);
    WordAt(ws, 3 + 2 * i, b);
    WordAt(ws, 4 + 2 * i, b);
    IndexAt(es, 12 + 8 * |es|, i);
    BlobAt(es, i);
    var at := TotalSize(es[..i]);
    ShiftSlice(Words(ws), Flatten(Blobs(es)), at, at + |es[i].blob|);
  }

  datatype Region = Region(at: nat, size: nat)

  /** The index and the CodeDirectory headers it points at are inside the memory behind the base. */
  predicate Readable(b: seq<byte>) {
    && 12 <= |b|
    && (BigU32At(b, 0) == CSMAGIC_EMBEDDED_SIGNATURE ==>
          && 12 + 8 * BigU32At(b, 8) <= |b|
          && forall i :: 0 <= i < BigU32At(b, 8) ==>
               EntryKind(b, i) in {CSSLOT_CODEDIRECTORY, CSSLOT_ALTERNATE_CODEDIRECTORIES} ==>
                 EntryOffset(b, i) + HEADER_LENGTH <= |b|)
  }

  /** The 32-bit product the reader computes. */
  function SlotBytes(n: u32, hashSize: byte): u32 {
    (n * (hashSize as int)) % TWO32
  }

  /** The hash region the CodeDirectory at `at` declares; a blob of at most eight bytes has none. */
  function HashRegion(b: seq<byte>, at: nat): Option<Region>
    requires at + HEADER_LENGTH <= |b|
  {
    var cd := b[at..];
    if ReadLength(cd) > 8 then
      Some(Region(at + ReadHashOffset(cd), SlotBytes(ReadCodeSlots(cd), ReadHashSize(cd))))
    else None
  }

  /** What the last of the first `n` index entries of a kind points at; an entry without a region does
      not count. */
  function LastRegion(b: seq<byte>, kind: u32, n: nat): Option<Region>
    requires Readable(b) && BigU32At(b, 0) == CSMAGIC_EMBEDDED_SIGNATURE && n <= BigU32At(b, 8)
    requires kind in {CSSLOT_CODEDIRECTORY, CSSLOT_ALTERNATE_CODEDIRECTORIES}
  {
    if n == 0 then None
    else if EntryKind(b, n - 1) == kind && HashRegion(b, EntryOffset(b, n - 1)).Some? then
      HashRegion(b, EntryOffset(b, n - 1))
    else LastRegion(b, kind, n - 1)
  }

  method GetExistsCodeSlotsData(base: Option<seq<byte>>)
      returns (ok: bool, slots1: Option<Region>, slots256: Option<Region>)
    requires base.Some? ==> Readable(base.value)
    ensures base.None? || BigU32At(base.value, 0) != CSMAGIC_EMBEDDED_SIGNATURE ==>
      !ok && slots1 == None && slots256 == None
    ensures base.Some? && BigU32At(base.value, 0) == CSMAGIC_EMBEDDED_SIGNATURE ==>
      && slots1 == LastRegion(base.value, CSSLOT_CODEDIRECTORY, BigU32At(base.value, 8))
      && slots256 == LastRegion(base.value, CSSLOT_ALTERNATE_CODEDIRECTORIES, BigU32At(base.value, 8))
      && (ok <==> slots1.Some? && slots256.Some? && slots1.value.size > 0 && slots256.value.size > 0)
  {
    hide HashRegion;
    slots1, slots256 := None, None;
    if base.None? || BigU32At(base.value, 0) != CSMAGIC_EMBEDDED_SIGNATURE {
      return false, slots1, slots256;
    }
    var b := base.value;
    for i := 0 to BigU32At(b, 8)
      invariant slots1 == LastRegion(b, CSSLOT_CODEDIRECTORY, i)
      invariant slots256 == LastRegion(b, CSSLOT_ALTERNATE_CODEDIRECTORIES, i)
    {
      var kind, at := EntryKind(b, i), EntryOffset(b, i);
      if kind == CSSLOT_CODEDIRECTORY {
        var region := HashRegion(b, at);
        if region.Some? { slots1 := region; }
      } else if kind == CSSLOT_ALTERNATE_CODEDIRECTORIES {
        var region := HashRegion(b, at);
        if region.Some? { slots256 := region; }
      }
    }
    ok := slots1.Some? && slots256.Some? && slots1.value.size > 0 && slots256.value.size > 0;
  }

  /** Index entry `i` is of the kind, and the directory it points at declares more than eight bytes. */
  predicate Declares(b: seq<byte>, i: nat, kind: u32) {
    && 12 + 8 * i + 8 <= |b| && BigU32At(b, 12 + 8 * i) == kind
    && BigU32At(b, 16 + 8 * i) + 88 <= |b| && 8 < BigU32At(b, BigU32At(b, 16 + 8 * i) + 4)
  }

  /** The region that the directory at `at` declares: from its hash offset on, as many hashes as it has code slots,
      of its hash size, multiplied in 32 bits. */
  predicate DeclaredAt(b: seq<byte>, at: nat, region: Region) {
    && at + 88 <= |b|
    && region.at == at + BigU32At(b, at + 16)
    && region.size == BigU32At(b, at + 28) * b[at + 36] as int % 0x1_0000_0000
  }

  /** The last such directory of a kind gives the region, in any signature, and there is none without one. */
  lemma {:induction false} LastRegionMeans(b: seq<byte>, kind: u32, n: nat)
    requires Readable(b) && BigU32At(b, 0) == CSMAGIC_EMBEDDED_SIGNATURE && n <= BigU32At(b, 8)
    requires kind in {CSSLOT_CODEDIRECTORY, CSSLOT_ALTERNATE_CODEDIRECTORIES}
    ensures match LastRegion(b, kind, n)
            case None => forall i :: 0 <= i < n ==> !Declares(b, i, kind)
            case Some(region) =>
              exists i :: 0 <= i < n && Declares(b, i, kind) && (forall j :: i < j < n ==> !Declares(b, j, kind))
                          && DeclaredAt(b, BigU32At(b, 16 + 8 * i), region)
    decreases n
  {
    hide BigU32At, HashRegion, DeclaredAt, Declares, Readable;
    if n > 0 {
      LastRegionMeans(b, kind, n - 1);
      EntryDeclares(b, n - 1, kind);
    }
  }

  lemma EntryDeclares(b: seq<byte>, i: nat, kind: u32)
    requires Readable(b) && BigU32At(b, 0) == CSMAGIC_EMBEDDED_SIGNATURE && i < BigU32At(b, 8)
    requires kind in {CSSLOT_CODEDIRECTORY, CSSLOT_ALTERNATE_CODEDIRECTORIES}
    ensures 20 + 8 * i <= |b|
    ensures EntryKind(b, i) == kind ==>
      && EntryOffset(b, i) + HEADER_LENGTH <= |b|
      && (HashRegion(b, EntryOffset(b, i)).Some? <==> Declares(b, i, kind))
      && (Declares(b, i, kind) ==> DeclaredAt(b, BigU32At(b, 16 + 8 * i), HashRegion(b, EntryOffset(b, i)).value))
    ensures EntryKind(b, i) != kind ==> !Declares(b, i, kind)
  {
    hide BigU32At;
    if EntryKind(b, i) == kind {
      var at: nat := EntryOffset(b, i);
      SameU32(b[at..], 4, b, at + 4);
      SameU32(b[at..], 16, b, at + 16);
      SameU32(b[at..], 28, b, at + 28);
    }
  }

  /** Kinds strictly increase along a list. */
  predicate Increasing(es: seq<Entry>) {
    forall i, j :: 0 <= i < j < |es| ==> es[i].kind < es[j].kind
  }

  lemma {:induction false} PresentIncreasing(es: seq<Entry>)
    requires Increasing(es)
    ensures Increasing(Present(es))
  {
    if es != [] {
      var rest := Present(es[1..]);
      assert Increasing(es[1..]);
      PresentIncreasing(es[1..]);
      if es[0].blob != [] {
        forall j | 0 <= j < |rest| ensures es[0].kind < rest[j].kind {
          assert rest[j] in es[1..];
          var k :| 0 <= k < |es[1..]| && es[1..][k] == rest[j];
          assert es[1..][k] == es[k + 1];
        }
      }
    }
  }

  /** Every entry of an assembled blob that is a CodeDirectory has room for a header. */
  predicate DirectoriesLong(es: seq<Entry>) {
    forall e :: e in es && e.kind in {CSSLOT_CODEDIRECTORY, CSSLOT_ALTERNATE_CODEDIRECTORIES} ==>
      HEADER_LENGTH <= |e.blob|
  }

  lemma AssembledReadable(es: seq<Entry>)
    requires 12 + 8 * |es| + TotalSize(es) < TWO32 && DirectoriesLong(es)
    ensures Readable(Assembled(es)) && BigU32At(Assembled(es), 0) == CSMAGIC_EMBEDDED_SIGNATURE
    ensures BigU32At(Assembled(es), 8) == |es|
  {
    hide Assembled, BigU32At, TotalSize;
    AssembledLayout(es, 0);
    forall i | 0 <= i < |es| && es[i].kind in {CSSLOT_CODEDIRECTORY, CSSLOT_ALTERNATE_CODEDIRECTORIES}
      ensures EntryKind(Assembled(es), i) == es[i].kind
      ensures EntryOffset(Assembled(es), i) + HEADER_LENGTH <= |Assembled(es)|
    {
      AssembledLayout(es, i);
      assert es[i] in es;
    }
    forall i | 0 <= i < |es| ensures EntryKind(Assembled(es), i) == es[i].kind {
      AssembledLayout(es, i);
    }
  }

  /** Looking a kind up in an assembled blob with increasing kinds finds the entry of that kind. */
  lemma {:induction false} LastRegionFound(es: seq<Entry>, kind: u32, n: nat, i: nat)
    requires 12 + 8 * |es| + TotalSize(es) < TWO32 && DirectoriesLong(es) && Increasing(es)
    requires kind in {CSSLOT_CODEDIRECTORY, CSSLOT_ALTERNATE_CODEDIRECTORIES}
    requires i < n <= |es| && es[i].kind == kind
    requires Readable(Assembled(es)) && BigU32At(Assembled(es), 8) == |es|
      && BigU32At(Assembled(es), 0) == CSMAGIC_EMBEDDED_SIGNATURE
    ensures OffsetOf(es, i) + HEADER_LENGTH <= |Assembled(es)|
    ensures HashRegion(Assembled(es), OffsetOf(es, i)).Some? ==>
      LastRegion(Assembled(es), kind, n) == HashRegion(Assembled(es), OffsetOf(es, i))
  {
    hide Assembled, BigU32At, TotalSize, HashRegion, OffsetOf;
    AssembledLayout(es, n - 1);
    AssembledLayout(es, i);
    assert es[i] in es;
    if i < n - 1 {
      LastRegionFound(es, kind, n - 1, i);
    }
  }

  lemma {:induction false} LastRegionAbsent(es: seq<Entry>, kind: u32, n: nat)
    requires 12 + 8 * |es| + TotalSize(es) < TWO32 && n <= |es|
    requires kind in {CSSLOT_CODEDIRECTORY, CSSLOT_ALTERNATE_CODEDIRECTORIES}
    requires forall e :: e in es ==> e.kind != kind
    requires Readable(Assembled(es)) && BigU32At(Assembled(es), 8) == |es|
      && BigU32At(Assembled(es), 0) == CSMAGIC_EMBEDDED_SIGNATURE
    ensures LastRegion(Assembled(es), kind, n) == None
  {
    hide Assembled, BigU32At, TotalSize, HashRegion, OffsetOf;
    if n > 0 {
      AssembledLayout(es, n - 1);
      LastRegionAbsent(es, kind, n - 1);
      assert es[n - 1] in es;
    }
  }

  /** The region a CodeDirectory blob declares, read where the blob lies, is its code slots. */
  lemma DirectoryRegion(b: seq<byte>, at: nat, r: Request, hash: Hash)
    requires r.Sound() && Outputs(hash, r.HashSize()) && !r.Refused()
    requires at + |Blob(r, hash)| <= |b| && b[at..at + |Blob(r, hash)|] == Blob(r, hash)
    ensures at + HEADER_LENGTH <= |b|
    ensures var region := HashRegion(b, at);
            && region.Some?
            && region.value.size == r.HashBytes(r.CodeSlots()) > 0
            && region.value.at + region.value.size <= |b|
            && b[region.value.at..region.value.at + region.value.size] == CodeSlotBytes(r, hash)
  {
    hide BigU32At, Blob, CodeSlotBytes, Request.Sound, Request.Refused, Request.HashBytes, Request.HashSize,
         Request.CodeSlots, SlotBytes;
    var cd, m := Blob(r, hash), b[at..];
    BlobLayout(r, hash);
    SliceOfSlice(b, at, |b|, 0, |cd|);
    SameHeaderFields(m, cd);
    CodeSlotsFit(r);
    CodeSlotsAtEnd(r, hash);
    var hashes: nat := ReadHashOffset(cd);
    SliceOfSlice(b, at, at + |cd|, hashes, |cd|);
    assert HashRegion(b, at) == Some(Region(at + hashes, r.HashBytes(r.CodeSlots())));
  }

  lemma CodeSlotsAtEnd(r: Request, hash: Hash)
    requires r.Sound() && Outputs(hash, r.HashSize()) && !r.Refused()
    ensures var cd := Blob(r, hash);
            && HasFields(cd)
            && ReadHashOffset(cd) <= |cd|
            && cd[ReadHashOffset(cd)..|cd|] == CodeSlotBytes(r, hash)
  {
    hide BigU32At, Blob, CodeSlotBytes, Request.Sound, Words, Flatten, Trim, Request.SpecialSlots,
         CodeDirectory.HeaderWords;
    BlobRegions(r, hash);
    HeaderFields(r, hash);
  }

  lemma CodeSlotsFit(r: Request)
    requires r.Sound() && !r.Refused()
    ensures r.CodeSlots() < TWO32
    ensures SlotBytes(r.CodeSlots(), r.HashSize()) == r.HashBytes(r.CodeSlots()) > 0
  {
  }

  lemma SameHeaderFields(m: seq<byte>, cd: seq<byte>)
    requires HasFields(cd) && |cd| <= |m| && m[..|cd|] == cd
    ensures ReadLength(m) == ReadLength(cd) && ReadHashOffset(m) == ReadHashOffset(cd)
    ensures ReadCodeSlots(m) == ReadCodeSlots(cd) && ReadHashSize(m) == ReadHashSize(cd)
  {
  }
}
