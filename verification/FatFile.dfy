/** Universal ("fat") files: reading the slice table and rebuilding a file around new slices. */
module FatFile {
  import opened Bytes

  const FAT_MAGIC: u32 := 0xcafe_babe
  const FAT_CIGAM: u32 := 0xbeba_feca
  const FAT_HEADER := 8
  const FAT_ARCH := 20
  const ALIGN := 16384

  /** A slice as the table records it. */
  datatype Slice = Slice(offset: u32, size: u32)

  function Num(v: u32, native: bool): (s: seq<byte>)
    ensures |s| == 4
  {
    if native then LE32(v) else BE32(v)
  }

  function ReadNum(b: seq<byte>, at: nat, native: bool): u32
    requires at + 4 <= |b|
  {
    if native then U32At(b, at) else BigU32At(b, at)
  }

  lemma NumRoundTrip(b: seq<byte>, at: nat, v: u32, native: bool)
    requires at + 4 <= |b| && b[at..at + 4] == Num(v, native)
    ensures ReadNum(b, at, native) == v
  {
    if native { LE32RoundTrip(b, at, v); } else { BE32RoundTrip(b, at, v); }
  }

  predicate IsFat(b: seq<byte>) {
    FAT_HEADER <= |b| && (U32At(b, 0) == FAT_MAGIC || U32At(b, 0) == FAT_CIGAM)
  }

  predicate Native(b: seq<byte>)
    requires IsFat(b)
  {
    U32At(b, 0) == FAT_MAGIC
  }

  /** The number of slices as the loops count it: the field is held in a signed 32-bit integer. */
  function SliceCount(b: seq<byte>): nat
    requires IsFat(b)
  {
    var n := ReadNum(b, 4, Native(b));
    if n < 0x8000_0000 then n else 0
  }

  predicate TableInside(b: seq<byte>)
    requires IsFat(b)
  {
    FAT_HEADER + FAT_ARCH * SliceCount(b) <= |b|
  }

  function SliceAt(b: seq<byte>, i: nat): Slice
    requires IsFat(b) && TableInside(b) && i < SliceCount(b)
  {
    Slice(ReadNum(b, FAT_HEADER + FAT_ARCH * i + 8, Native(b)), ReadNum(b, FAT_HEADER + FAT_ARCH * i + 12, Native(b)))
  }

  /** The slices `OpenFile` visits in a fat file, in order. */
  function Slices(b: seq<byte>): (r: seq<Slice>)
    requires IsFat(b) && TableInside(b)
    ensures |r| == SliceCount(b)
  {
    seq(SliceCount(b), i requires 0 <= i < SliceCount(b) => SliceAt(b, i))
  }

  // ---------------------------------------------------------------- the new layout

  /** Padding behind `n` bytes: one to 16384 zeros. */
  function Pad(n: nat): nat {
    ALIGN - n % ALIGN
  }

  function HeaderSize(n: nat): nat {
    FAT_HEADER + FAT_ARCH * n
  }

  /** The offset recorded for file `i`: the running offset, aligned anew behind every file. */
  function OffsetAt(files: seq<seq<byte>>, i: nat): nat
    requires i <= |files|
  {
    if i == 0 then HeaderSize(|files|) + Pad(HeaderSize(|files|))
    else OffsetAt(files, i - 1) + |files[i - 1]| + Pad(OffsetAt(files, i - 1) + |files[i - 1]|)
  }

  /** The bytes written for the first `i` files: each with padding for its own size. */
  function Body(files: seq<seq<byte>>, i: nat): seq<byte>
    requires i <= |files|
  {
    if i == 0 then [] else Body(files, i - 1) + files[i - 1] + Zeros(Pad(|files[i - 1]|))
  }

  /** Table entry `i`: the processor fields of the old entry, then offset, size and alignment 2^14. */
  function EntryBytes(was: seq<byte>, files: seq<seq<byte>>, i: nat): seq<byte>
    requires IsFat(was) && TableInside(was) && i < SliceCount(was) == |files| && OffsetAt(files, |files|) < TWO32
  {
    OffsetsGrow(files, i);
    was[FAT_HEADER + FAT_ARCH * i..FAT_HEADER + FAT_ARCH * i + 8]
    + Num(OffsetAt(files, i), Native(was)) + Num(|files[i]|, Native(was)) + Num(14, Native(was))
  }

  function Table(was: seq<byte>, files: seq<seq<byte>>, i: nat): seq<byte>
    requires IsFat(was) && TableInside(was) && i <= SliceCount(was) == |files| && OffsetAt(files, |files|) < TWO32
  {
    if i == 0 then [] else Table(was, files, i - 1) + EntryBytes(was, files, i - 1)
  }

  /** The rebuilt file. */
  function Rewritten(was: seq<byte>, files: seq<seq<byte>>): seq<byte>
    requires IsFat(was) && TableInside(was) && SliceCount(was) == |files| && OffsetAt(files, |files|) < TWO32
  {
    was[..FAT_HEADER] + Table(was, files, |files|) + Zeros(Pad(HeaderSize(|files|))) + Body(files, |files|)
  }

  lemma {:induction false} OffsetsGrow(files: seq<seq<byte>>, i: nat)
    requires i < |files|
    ensures OffsetAt(files, i) + |files[i]| < OffsetAt(files, i + 1) <= OffsetAt(files, |files|)
    decreases |files| - i
  {
    if i + 1 < |files| {
      OffsetsGrow(files, i + 1);
    }
  }

  /** The two ways of padding agree: every recorded offset is aligned and is where the bytes written
      so far end. */
  lemma {:induction false} OffsetIsWritten(files: seq<seq<byte>>, i: nat)
    requires i <= |files|
    ensures OffsetAt(files, i) % ALIGN == 0
    ensures OffsetAt(files, i) == HeaderSize(|files|) + Pad(HeaderSize(|files|)) + |Body(files, i)|
  {
    if i > 0 {
      OffsetIsWritten(files, i - 1);
      AlignedSum(OffsetAt(files, i - 1), |files[i - 1]|);
    } else {
      AlignedSum(0, HeaderSize(|files|));
    }
  }

  lemma AlignedSum(a: nat, n: nat)
    requires a % ALIGN == 0
    ensures (a + n) % ALIGN == n % ALIGN && (a + n + Pad(n)) % ALIGN == 0
  {
  }

  lemma {:induction false} BodyAt(files: seq<seq<byte>>, i: nat, n: nat)
    requires i < n <= |files|
    ensures |Body(files, i)| + |files[i]| <= |Body(files, n)|
    ensures Body(files, n)[|Body(files, i)|..|Body(files, i)| + |files[i]|] == files[i]
  {
    var at := |Body(files, i)|;
    var front := Body(files, n - 1);
    assert Body(files, n) == front + (files[n - 1] + Zeros(Pad(|files[n - 1]|)));
    if i == n - 1 {
      assert (files[i] + Zeros(Pad(|files[i]|)))[..|files[i]|] == files[i];
    } else {
      BodyAt(files, i, n - 1);
      assert Body(files, n)[..|front|] == front;
      SliceOfSlice(Body(files, n), 0, |front|, at, at + |files[i]|);
    }
  }

  lemma {:induction false} TableAt(was: seq<byte>, files: seq<seq<byte>>, i: nat, n: nat)
    requires IsFat(was) && TableInside(was) && i < n <= SliceCount(was) == |files| && OffsetAt(files, |files|) < TWO32
    ensures |Table(was, files, n)| == FAT_ARCH * n
    ensures Table(was, files, n)[FAT_ARCH * i..FAT_ARCH * i + FAT_ARCH] == EntryBytes(was, files, i)
  {
    hide EntryBytes, OffsetAt, U32At, BigU32At;
    var front, e := Table(was, files, n - 1), EntryBytes(was, files, n - 1);
    TableSize(was, files, n - 1);
    EntrySize(was, files, n - 1);
    assert Table(was, files, n) == front + e;
    if i < n - 1 {
      TableAt(was, files, i, n - 1);
      InFront(front, e, FAT_ARCH * i, FAT_ARCH * i + FAT_ARCH);
    } else {
      assert (front + e)[|front|..|front| + |e|] == e;
    }
  }

  lemma InFront(front: seq<byte>, back: seq<byte>, i: nat, j: nat)
    requires i <= j <= |front|
    ensures (front + back)[i..j] == front[i..j]
  {
  }

  lemma EntrySize(was: seq<byte>, files: seq<seq<byte>>, i: nat)
    requires IsFat(was) && TableInside(was) && i < SliceCount(was) == |files| && OffsetAt(files, |files|) < TWO32
    ensures |EntryBytes(was, files, i)| == FAT_ARCH
  {
    hide OffsetAt, U32At, BigU32At;
  }

  lemma {:induction false} TableSize(was: seq<byte>, files: seq<seq<byte>>, n: nat)
    requires IsFat(was) && TableInside(was) && n <= SliceCount(was) == |files| && OffsetAt(files, |files|) < TWO32
    ensures |Table(was, files, n)| == FAT_ARCH * n
  {
    if n > 0 {
      TableSize(was, files, n - 1);
    }
  }

  /** The four parts of the rebuilt file and where they are. */
  lemma Parts(was: seq<byte>, files: seq<seq<byte>>)
    requires IsFat(was) && TableInside(was) && SliceCount(was) == |files| && OffsetAt(files, |files|) < TWO32
    ensures var r, start := Rewritten(was, files), HeaderSize(|files|) + Pad(HeaderSize(|files|));
            && |r| == OffsetAt(files, |files|)
            && FAT_HEADER <= HeaderSize(|files|) <= start <= |r|
            && r[..FAT_HEADER] == was[..FAT_HEADER]
            && r[FAT_HEADER..HeaderSize(|files|)] == Table(was, files, |files|)
            && r[start..] == Body(files, |files|)
  {
    hide Table, Body, OffsetAt, U32At, BigU32At;
    TableSize(was, files, |files|);
    OffsetIsWritten(files, |files|);
    var a, b, c, d := was[..FAT_HEADER], Table(was, files, |files|), Zeros(Pad(HeaderSize(|files|))),
      Body(files, |files|);
    FourParts(Rewritten(was, files), a, b, c, d);
  }

  lemma FourParts(r: seq<byte>, a: seq<byte>, b: seq<byte>, c: seq<byte>, d: seq<byte>)
    requires r == a + b + c + d
    ensures r[..|a|] == a && r[|a|..|a| + |b|] == b && r[|a| + |b| + |c|..] == d
  {
  }

  /** Entry `i` of the fat file `r` records exactly where the bytes of `files[i]` are: at an offset that is
      a multiple of 16384, with room before the next one. */
  predicate Placed(r: seq<byte>, files: seq<seq<byte>>, i: nat)
    requires i < |files|
  {
    && IsFat(r) && TableInside(r) && SliceCount(r) == |files|
    && var s := SliceAt(r, i);
       && s.offset == OffsetAt(files, i) && s.size == |files[i]|
       && s.offset % 16384 == 0
       && s.offset + s.size < OffsetAt(files, i + 1) <= |r|
       && r[s.offset..s.offset + s.size] == files[i]
  }

  /** The processor fields of entry `i` are those of the old file. */
  predicate SameProcessor(was: seq<byte>, r: seq<byte>, i: nat)
    requires IsFat(was) && TableInside(was) && IsFat(r) && TableInside(r) && i < SliceCount(r) == SliceCount(was)
  {
    r[FAT_HEADER + FAT_ARCH * i..FAT_HEADER + FAT_ARCH * i + 8]
      == was[FAT_HEADER + FAT_ARCH * i..FAT_HEADER + FAT_ARCH * i + 8]
  }

  lemma RewrittenHeader(was: seq<byte>, files: seq<seq<byte>>)
    requires IsFat(was) && TableInside(was) && SliceCount(was) == |files| && OffsetAt(files, |files|) < TWO32
    ensures var r := Rewritten(was, files);
            IsFat(r) && Native(r) == Native(was) && SliceCount(r) == |files| && TableInside(r)
  {
    hide Table, Body, U32At, BigU32At, Rewritten, OffsetAt;
    Parts(was, files);
    SameHeader(was, Rewritten(was, files));
  }

  /** Cumulative offsets and padding file by file come to the same layout. */
  lemma RewrittenLayout(was: seq<byte>, files: seq<seq<byte>>, i: nat)
    requires IsFat(was) && TableInside(was) && SliceCount(was) == |files| && OffsetAt(files, |files|) < TWO32
    requires i < |files|
    ensures Placed(Rewritten(was, files), files, i)
    ensures SameProcessor(was, Rewritten(was, files), i)
  {
    hide Table, Body, U32At, BigU32At, Rewritten, LE32, BE32, Pad, OffsetAt, EntryBytes, SliceCount, SliceAt;
    var r := Rewritten(was, files);
    Parts(was, files);
    RewrittenHeader(was, files);
    OffsetsGrow(files, i);
    OffsetIsWritten(files, i);
    BodyAt(files, i, |files|);
    var start := HeaderSize(|files|) + Pad(HeaderSize(|files|));
    SliceOfSlice(r, start, |r|, |Body(files, i)|, |Body(files, i)| + |files[i]|);
    TableAt(was, files, i, |files|);
    SliceOfSlice(r, FAT_HEADER, HeaderSize(|files|), FAT_ARCH * i, FAT_ARCH * i + FAT_ARCH);
    EntryReads(was, files, i, r);
  }

  lemma SameHeader(was: seq<byte>, r: seq<byte>)
    requires IsFat(was) && FAT_HEADER <= |r| && r[..FAT_HEADER] == was[..FAT_HEADER]
    ensures IsFat(r) && Native(r) == Native(was) && SliceCount(r) == SliceCount(was)
  {
  }

  lemma EntryParts(was: seq<byte>, files: seq<seq<byte>>, i: nat)
    requires IsFat(was) && TableInside(was) && i < SliceCount(was) == |files| && OffsetAt(files, |files|) < TWO32
    ensures OffsetAt(files, i) < TWO32 && |files[i]| < TWO32
    ensures var at, e := FAT_HEADER + FAT_ARCH * i, EntryBytes(was, files, i);
            && |e| == FAT_ARCH && at + 8 <= |was|
            && e[0..8] == was[at..at + 8]
            && e[8..12] == Num(OffsetAt(files, i), Native(was))
            && e[12..16] == Num(|files[i]|, Native(was))
  {
    hide U32At, BigU32At, LE32, BE32, OffsetAt;
    OffsetsGrow(files, i);
  }

  lemma EntryReads(was: seq<byte>, files: seq<seq<byte>>, i: nat, r: seq<byte>)
    requires IsFat(was) && TableInside(was) && i < SliceCount(was) == |files| && OffsetAt(files, |files|) < TWO32
    requires IsFat(r) && Native(r) == Native(was) && SliceCount(r) == |files| && TableInside(r)
    requires r[FAT_HEADER + FAT_ARCH * i..FAT_HEADER + FAT_ARCH * i + FAT_ARCH] == EntryBytes(was, files, i)
    ensures SliceAt(r, i).offset == OffsetAt(files, i) && SliceAt(r, i).size == |files[i]|
    ensures r[FAT_HEADER + FAT_ARCH * i..FAT_HEADER + FAT_ARCH * i + 8]
      == was[FAT_HEADER + FAT_ARCH * i..FAT_HEADER + FAT_ARCH * i + 8]
  {
    hide U32At, BigU32At, LE32, BE32, OffsetAt, Num, EntryBytes;
    OffsetsGrow(files, i);
    var at := FAT_HEADER + FAT_ARCH * i;
    EntryParts(was, files, i);
    SliceOfSlice(r, at, at + FAT_ARCH, 0, 8);
    SliceOfSlice(r, at, at + FAT_ARCH, 8, 12);
    SliceOfSlice(r, at, at + FAT_ARCH, 12, 16);
    NumRoundTrip(r, at + 8, OffsetAt(files, i), Native(was));
    NumRoundTrip(r, at + 12, |files[i]|, Native(was));
  }

  /** No space is wasted: the first file starts within 16384 bytes of the table, each next one within 16384 bytes of
      the one before, and there are only zeros between. */
  lemma RewrittenIsTight(was: seq<byte>, files: seq<seq<byte>>, i: nat)
    requires IsFat(was) && TableInside(was) && SliceCount(was) == |files| && OffsetAt(files, |files|) < TWO32
    requires i < |files|
    ensures var r, table := Rewritten(was, files), 8 + 20 * |files|;
            && |r| == OffsetAt(files, |files|) && table < OffsetAt(files, 0) <= table + 16384
            && OffsetAt(files, i) + |files[i]| < OffsetAt(files, i + 1) <= OffsetAt(files, i) + |files[i]| + 16384
            && OffsetAt(files, 0) <= |r| && OffsetAt(files, i + 1) <= |r|
            && (forall j :: table <= j < OffsetAt(files, 0) ==> r[j] == 0)
            && (forall j :: OffsetAt(files, i) + |files[i]| <= j < OffsetAt(files, i + 1) ==> r[j] == 0)
  {
    hide Table, Body, U32At, BigU32At, Rewritten, LE32, BE32, EntryBytes, SliceCount;
    var r, start := Rewritten(was, files), HeaderSize(|files|) + Pad(HeaderSize(|files|));
    Parts(was, files);
    RewrittenHeader(was, files);
    OffsetsGrow(files, i);
    OffsetIsWritten(files, 0);
    OffsetIsWritten(files, i);
    OffsetIsWritten(files, i + 1);
    PadFits(OffsetAt(files, i), |files[i]|);
    HeaderGap(was, files);
    BodyGap(files, i, |files|);
    forall j | OffsetAt(files, i) + |files[i]| <= j < OffsetAt(files, i + 1) ensures r[j] == 0 {
      assert r[j] == r[start..][j - start];
    }
  }

  /** Each table entry gives the alignment 2^14. */
  lemma AlignmentIsWritten(was: seq<byte>, files: seq<seq<byte>>, i: nat)
    requires IsFat(was) && TableInside(was) && SliceCount(was) == |files| && OffsetAt(files, |files|) < TWO32
    requires i < |files|
    ensures var r := Rewritten(was, files);
            IsFat(r) && 8 + 20 * i + 20 <= |r| && ReadNum(r, 8 + 20 * i + 16, Native(r)) == 14
  {
    hide Table, Body, U32At, BigU32At, Rewritten, LE32, BE32, EntryBytes, SliceCount, OffsetAt, ReadNum, Pad;
    var r := Rewritten(was, files);
    Parts(was, files);
    RewrittenHeader(was, files);
    TableAt(was, files, i, |files|);
    SliceOfSlice(r, FAT_HEADER, HeaderSize(|files|), FAT_ARCH * i, FAT_ARCH * i + FAT_ARCH);
    AlignmentField(was, files, i);
    SliceOfSlice(r, 8 + 20 * i, 8 + 20 * i + 20, 16, 20);
    NumRoundTrip(r, 8 + 20 * i + 16, 14, Native(was));
  }

  lemma PadFits(at: nat, n: nat)
    requires at % ALIGN == 0
    ensures Pad(at + n) == Pad(n) <= 16384
  {
  }

  lemma HeaderGap(was: seq<byte>, files: seq<seq<byte>>)
    requires IsFat(was) && TableInside(was) && SliceCount(was) == |files| && OffsetAt(files, |files|) < TWO32
    requires HeaderSize(|files|) + Pad(HeaderSize(|files|)) <= |Rewritten(was, files)|
    ensures forall j :: HeaderSize(|files|) <= j < HeaderSize(|files|) + Pad(HeaderSize(|files|)) ==>
              Rewritten(was, files)[j] == 0
  {
    hide Table, Body, U32At, BigU32At, OffsetAt;
    TableSize(was, files, |files|);
  }

  /** Behind file `i` the body has its padding. */
  lemma {:induction false} BodyGap(files: seq<seq<byte>>, i: nat, n: nat)
    requires i < n <= |files|
    ensures |Body(files, i)| + |files[i]| <= |Body(files, i + 1)| <= |Body(files, n)|
    ensures forall j :: |Body(files, i)| + |files[i]| <= j < |Body(files, i + 1)| ==> Body(files, n)[j] == 0
    decreases n
  {
    hide Pad;
    if i < n - 1 {
      BodyGap(files, i, n - 1);
    }
  }

  lemma AlignmentField(was: seq<byte>, files: seq<seq<byte>>, i: nat)
    requires IsFat(was) && TableInside(was) && i < SliceCount(was) == |files| && OffsetAt(files, |files|) < TWO32
    ensures |EntryBytes(was, files, i)| == 20 && EntryBytes(was, files, i)[16..20] == Num(14, Native(was))
  {
    hide U32At, BigU32At, LE32, BE32, OffsetAt;
    OffsetsGrow(files, i);
  }

  /** Opening the rebuilt file finds exactly the new slices: as many, in order, each with its bytes, and
      no two of them overlap. */
  lemma OpenRecovers(was: seq<byte>, files: seq<seq<byte>>)
    requires IsFat(was) && TableInside(was) && SliceCount(was) == |files| && OffsetAt(files, |files|) < TWO32
    ensures IsFat(Rewritten(was, files)) && TableInside(Rewritten(was, files))
    ensures Holds(Rewritten(was, files), files)
  {
    hide Rewritten, U32At, BigU32At, OffsetAt, SliceCount, SliceAt;
    RewrittenHeader(was, files);
    var r := Rewritten(was, files);
    forall i | 0 <= i < |files| ensures Placed(r, files, i) {
      RewrittenLayout(was, files, i);
    }
    forall i, j | 0 <= i < j < |files| ensures Slices(r)[i].offset + Slices(r)[i].size < Slices(r)[j].offset {
      OffsetsApart(files, i, j);
      assert Placed(r, files, i) && Placed(r, files, j);
    }
    forall i | 0 <= i < |files|
      ensures Slices(r)[i].offset + Slices(r)[i].size <= |r|
      ensures r[Slices(r)[i].offset..Slices(r)[i].offset + Slices(r)[i].size] == files[i]
    {
      assert Placed(r, files, i);
    }
  }

  /** The slices of `r` are `files`, apart from each other and inside `r`. */
  predicate Holds(r: seq<byte>, files: seq<seq<byte>>)
    requires IsFat(r) && TableInside(r)
  {
    && |Slices(r)| == |files|
    && (forall i :: 0 <= i < |files| ==>
          && Slices(r)[i].offset + Slices(r)[i].size <= |r|
          && r[Slices(r)[i].offset..Slices(r)[i].offset + Slices(r)[i].size] == files[i])
    && (forall i, j :: 0 <= i < j < |files| ==> Slices(r)[i].offset + Slices(r)[i].size < Slices(r)[j].offset)
  }

  lemma {:induction false} OffsetsApart(files: seq<seq<byte>>, i: nat, j: nat)
    requires i < j < |files|
    ensures OffsetAt(files, i) + |files[i]| < OffsetAt(files, j)
  {
    if i + 1 < j {
      OffsetsApart(files, i, j - 1);
    }
  }

  // ---------------------------------------------------------------- the rewrite

  /** The fat branch of `ReallocCodeSignSpace`: the table is laid out first, with a running offset; the
      header and the files are written afterwards. */
  method RewriteFat(was: seq<byte>, files: seq<seq<byte>>) returns (ok: bool, r: seq<byte>)
    requires IsFat(was) && TableInside(was)
    requires OffsetAt(files, |files|) < TWO32
    ensures ok <==> SliceCount(was) == |files|
    ensures ok ==> r == Rewritten(was, files)
  {
    hide U32At, BigU32At, LE32, BE32, Table, Body, OffsetAt, EntryBytes, Num, Zeros;
    var native, n := Native(was), SliceCount(was);
    if n != |files| {
      return false, [];
    }
    var headerSize := FAT_HEADER + n * FAT_ARCH;
    var padding1 := ALIGN - headerSize % ALIGN;
    var offset := headerSize + padding1;
    var table := [];
    LayoutStart(was, files);
    for i := 0 to n
      invariant offset == OffsetAt(files, i)
      invariant table == Table(was, files, i)
    {
      OffsetsGrow(files, i);
      LayoutStep(was, files, i);
      var entry := was[FAT_HEADER + FAT_ARCH * i..FAT_HEADER + FAT_ARCH * i + 8]
                   + Num(offset, native) + Num(|files[i]|, native) + Num(14, native);
      table := table + entry;
      offset := offset + |files[i]|;
      offset := offset + (ALIGN - offset % ALIGN);
    }
    r := was[..FAT_HEADER] + table;
    r := r + Zeros(padding1);
    ghost var front := r;
    assert front + [] == front;
    for i := 0 to n
      invariant r == front + Body(files, i)
    {
      r := r + files[i];
      r := r + Zeros(ALIGN - |files[i]| % ALIGN);
      BodyStep(files, i);
      assert r == front + (Body(files, i) + files[i] + Zeros(Pad(|files[i]|)));
    }
    ok := true;
  }

  lemma LayoutStart(was: seq<byte>, files: seq<seq<byte>>)
    requires IsFat(was) && TableInside(was) && SliceCount(was) == |files| && OffsetAt(files, |files|) < TWO32
    ensures OffsetAt(files, 0) == HeaderSize(|files|) + Pad(HeaderSize(|files|))
    ensures Table(was, files, 0) == [] && Body(files, 0) == []
  {
  }

  lemma LayoutStep(was: seq<byte>, files: seq<seq<byte>>, i: nat)
    requires IsFat(was) && TableInside(was) && i < SliceCount(was) == |files| && OffsetAt(files, |files|) < TWO32
    ensures OffsetAt(files, i) < TWO32 && |files[i]| < TWO32
    ensures Table(was, files, i + 1)
         == Table(was, files, i)
            + (was[FAT_HEADER + FAT_ARCH * i..FAT_HEADER + FAT_ARCH * i + 8]
               + Num(OffsetAt(files, i), Native(was)) + Num(|files[i]|, Native(was)) + Num(14, Native(was)))
    ensures OffsetAt(files, i + 1) == OffsetAt(files, i) + |files[i]| + Pad(OffsetAt(files, i) + |files[i]|)
  {
    hide U32At, BigU32At, Num;
    OffsetsGrow(files, i);
  }

  lemma BodyStep(files: seq<seq<byte>>, i: nat)
    requires i < |files|
    ensures Body(files, i + 1) == Body(files, i) + files[i] + Zeros(Pad(|files[i]|))
  {
  }

  // ---------------------------------------------------------------- the script's reader

  /** `slice_offsets` of the removal script on a file whose first word is big-endian 0xCAFEBABE. */
  function ScriptOffsets(data: seq<byte>): seq<u32>
    requires 8 <= |data| && BigU32At(data, 0) == FAT_MAGIC && FAT_HEADER + FAT_ARCH * BigU32At(data, 4) <= |data|
  {
    seq(BigU32At(data, 4), i requires 0 <= i < BigU32At(data, 4) => BigU32At(data, FAT_HEADER + FAT_ARCH * i + 8))
  }

  /** Both readers see the same slices in a big-endian fat file of a countable number of slices. */
  lemma ReadersAgree(data: seq<byte>)
    requires 8 <= |data| && BigU32At(data, 0) == FAT_MAGIC && BigU32At(data, 4) < 0x8000_0000
    requires FAT_HEADER + FAT_ARCH * BigU32At(data, 4) <= |data|
    ensures IsFat(data) && TableInside(data)
    ensures |ScriptOffsets(data)| == |Slices(data)|
    ensures forall i :: 0 <= i < |Slices(data)| ==> ScriptOffsets(data)[i] == Slices(data)[i].offset
  {
    BigEndianMagic(data);
    hide U32At, BigU32At;
  }

  lemma BigEndianMagic(data: seq<byte>)
    requires 8 <= |data| && BigU32At(data, 0) == FAT_MAGIC
    ensures U32At(data, 0) == FAT_CIGAM
  {
    assert data[0] == 0xca;
    assert data[1] == 0xfe;
    assert data[2] == 0xba && data[3] == 0xbe;
  }
}
