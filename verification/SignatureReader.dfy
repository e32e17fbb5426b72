/** Reading the blobs of an embedded signature through its index, as a verifier does: an entry gives a kind and
    an offset, and the blob found there states its own length. */
module SignatureReader {
  import opened Bytes
  import opened SuperBlob

  /** The index lies inside the bytes. */
  predicate Indexed(m: seq<byte>) {
    12 <= |m| && 12 + 8 * BigU32At(m, 8) <= |m|
  }

  /** The first entry from `i` on of a kind. */
  function EntryFrom(m: seq<byte>, kind: u32, i: nat): (r: Option<nat>)
    requires Indexed(m)
    ensures r.Some? ==> i <= r.value < BigU32At(m, 8) && EntryKind(m, r.value) == kind
    decreases BigU32At(m, 8) - i
  {
    if i >= BigU32At(m, 8) then None
    else if EntryKind(m, i) == kind then Some(i)
    else EntryFrom(m, kind, i + 1)
  }

  /** The blob that starts at `at`, as long as its second word says. */
  function BlobFrom(m: seq<byte>, at: nat): Option<seq<byte>> {
    if at + 8 <= |m| && at + BigU32At(m, at + 4) <= |m| then Some(m[at..at + BigU32At(m, at + 4)]) else None
  }

  /** The blob of a kind; the signature may be followed by other bytes. */
  function ReadBlob(m: seq<byte>, kind: u32): Option<seq<byte>> {
    if !Indexed(m) then None
    else
      match EntryFrom(m, kind, 0)
      case None => None
      case Some(i) => BlobFrom(m, EntryOffset(m, i))
  }

  /** A blob states its own length in its second word. */
  predicate StatesLength(blob: seq<byte>) {
    8 <= |blob| && BigU32At(blob, 4) == |blob|
  }

  /** The blob in the slot of a kind. */
  function SlotOf(s: Slots, kind: u32): seq<byte> {
    match kind
    case 0 => s.codeDirectory
    case 2 => s.requirements
    case 5 => s.entitlements
    case 7 => s.derEntitlements
    case 0x1000 => s.alternate
    case 0x10000 => s.cms
    case _ => []
  }

  function Stored(blob: seq<byte>): Option<seq<byte>> {
    if blob == [] then None else Some(blob)
  }

  predicate AllStateLength(es: seq<Entry>) {
    forall e :: e in es ==> StatesLength(e.blob)
  }

  lemma IndexFits(es: seq<Entry>, m: seq<byte>)
    requires 12 + 8 * |es| + TotalSize(es) < TWO32 && Assembled(es) <= m
    ensures Indexed(m) && BigU32At(m, 8) == |es|
  {
    hide Assembled, BigU32At, TotalSize, OffsetOf;
    AssembledLayout(es, 0);
    SameWordIn(m, Assembled(es), 8);
  }

  lemma SameWordIn(m: seq<byte>, b: seq<byte>, at: nat)
    requires b <= m && at + 4 <= |b|
    ensures BigU32At(m, at) == BigU32At(b, at)
  {
  }

  lemma EntryThere(es: seq<Entry>, m: seq<byte>, i: nat)
    requires 12 + 8 * |es| + TotalSize(es) < TWO32 && Assembled(es) <= m && i < |es|
    ensures 20 + 8 * i <= |m| && EntryKind(m, i) == es[i].kind && EntryOffset(m, i) == OffsetOf(es, i)
    ensures OffsetOf(es, i) + |es[i].blob| <= |m|
    ensures m[OffsetOf(es, i)..OffsetOf(es, i) + |es[i].blob|] == es[i].blob
  {
    hide Assembled, BigU32At, TotalSize, OffsetOf;
    var b := Assembled(es);
    AssembledLayout(es, i);
    SameWordIn(m, b, 12 + 8 * i);
    SameWordIn(m, b, 16 + 8 * i);
    assert m[..|b|] == b;
    SliceOfSlice(m, 0, |b|, OffsetOf(es, i), OffsetOf(es, i) + |es[i].blob|);
  }

  /** The blob at an offset is read as long as it states. */
  lemma BlobThere(m: seq<byte>, at: nat, blob: seq<byte>)
    requires StatesLength(blob) && at + |blob| <= |m| && m[at..at + |blob|] == blob
    ensures BlobFrom(m, at) == Some(blob)
  {
    hide BigU32At;
    SliceOfSlice(m, at, at + |blob|, 4, 8);
    SameU32(m, at + 4, blob, 4);
  }

  lemma {:induction false} EntryFound(es: seq<Entry>, m: seq<byte>, kind: u32, i: nat, k: nat)
    requires 12 + 8 * |es| + TotalSize(es) < TWO32 && Assembled(es) <= m && Increasing(es)
    requires i <= k < |es| && es[k].kind == kind
    ensures Indexed(m) && EntryFrom(m, kind, i) == Some(k)
    decreases k - i
  {
    hide Assembled, BigU32At, TotalSize;
    IndexFits(es, m);
    EntryThere(es, m, i);
    if i < k {
      EntryFound(es, m, kind, i + 1, k);
    }
  }

  lemma {:induction false} EntryMissing(es: seq<Entry>, m: seq<byte>, kind: u32, i: nat)
    requires 12 + 8 * |es| + TotalSize(es) < TWO32 && Assembled(es) <= m
    requires i <= |es| && forall e :: e in es ==> e.kind != kind
    ensures Indexed(m) && EntryFrom(m, kind, i) == None
    decreases |es| - i
  {
    hide Assembled, BigU32At, TotalSize;
    IndexFits(es, m);
    if i < |es| {
      EntryThere(es, m, i);
      assert es[i] in es;
      EntryMissing(es, m, kind, i + 1);
    }
  }

  /** Reading any kind of an assembled signature gives the blob of its slot, or none when the slot is empty. */
  lemma ReadBack(s: Slots, m: seq<byte>, kind: u32)
    requires s.Sound() && AllStateLength(Present(s.All())) && kind in {0, 2, 5, 7, 0x1000, 0x10000}
    requires 12 + 8 * |Present(s.All())| + TotalSize(Present(s.All())) < TWO32
    requires Assembled(Present(s.All())) <= m
    ensures ReadBlob(m, kind) == Stored(SlotOf(s, kind))
  {
    hide Assembled, BigU32At, TotalSize, OffsetOf, EntryFrom, BlobFrom, StatesLength, Slots.All, Present;
    var es := Present(s.All());
    AllIncreasing(s);
    IndexFits(es, m);
    if SlotOf(s, kind) == [] {
      EmptySlot(s, kind);
      EntryMissing(es, m, kind, 0);
    } else {
      var k := SlotEntry(s, kind);
      EntryFound(es, m, kind, 0, k);
      EntryThere(es, m, k);
      assert es[k] in es;
      BlobThere(m, OffsetOf(es, k), es[k].blob);
    }
  }

  lemma AllIncreasing(s: Slots)
    ensures Increasing(Present(s.All()))
  {
    PresentIncreasing(s.All());
  }

  lemma EmptySlot(s: Slots, kind: u32)
    requires kind in {0, 2, 5, 7, 0x1000, 0x10000} && SlotOf(s, kind) == []
    ensures forall e :: e in Present(s.All()) ==> e.kind != kind
  {
    hide Present;
    forall e | e in Present(s.All()) ensures e.kind != kind {
      assert e in s.All() && e.blob != [];
    }
  }

  /** A filled slot has an entry of its kind. */
  lemma SlotEntry(s: Slots, kind: u32) returns (k: nat)
    requires kind in {0, 2, 5, 7, 0x1000, 0x10000} && SlotOf(s, kind) != []
    ensures k < |Present(s.All())| && Present(s.All())[k] == Entry(kind, SlotOf(s, kind))
  {
    hide Present;
    var e := Entry(kind, SlotOf(s, kind));
    var a := s.All();
    assert a[0] in a && a[1] in a && a[2] in a && a[3] in a && a[4] in a && a[5] in a;
    assert e in Present(a);
    k :| 0 <= k < |Present(a)| && Present(a)[k] == e;
  }
}
