/** Bytes, fixed-width integers and the memory edits every other module is built from.

    A mapped file is a sequence of bytes. Every store the program makes into it is one
    `Splice`: a run of bytes laid over the buffer at a position. */
module Bytes {
  type byte = x: int | 0 <= x < 0x100
  type u16 = x: int | 0 <= x < 0x1_0000
  type u32 = x: int | 0 <= x < 0x1_0000_0000
  type u64 = x: int | 0 <= x < 0x1_0000_0000_0000_0000

  const TWO32: int := 0x1_0000_0000

  datatype Option<+T> = None | Some(value: T)

  // ---------------------------------------------------------------- integers as bytes

  function LE16(v: u16): (s: seq<byte>)
    ensures |s| == 2
  {
    [v % 0x100, v / 0x100]
  }

  function LE32(v: u32): (s: seq<byte>)
    ensures |s| == 4
  {
    [v % 0x100, v / 0x100 % 0x100, v / 0x1_0000 % 0x100, v / 0x100_0000]
  }

  function LE64(v: u64): (s: seq<byte>)
    ensures |s| == 8
  {
    LE32(v % 0x1_0000_0000) + LE32(v / 0x1_0000_0000)
  }

  function BE32(v: u32): (s: seq<byte>)
    ensures |s| == 4
  {
    [v / 0x100_0000, v / 0x1_0000 % 0x100, v / 0x100 % 0x100, v % 0x100]
  }

  function U16At(b: seq<byte>, at: nat): (v: u16)
    requires at + 2 <= |b|
  {
    (b[at] as int) + 0x100 * (b[at + 1] as int)
  }

  function U32At(b: seq<byte>, at: nat): (v: u32)
    requires at + 4 <= |b|
  {
    (U16At(b, at) as int) + 0x1_0000 * (U16At(b, at + 2) as int)
  }

  function U64At(b: seq<byte>, at: nat): (v: u64)
    requires at + 8 <= |b|
  {
    (U32At(b, at) as int) + 0x1_0000_0000 * (U32At(b, at + 4) as int)
  }

  function BigU32At(b: seq<byte>, at: nat): (v: u32)
    requires at + 4 <= |b|
  {
    0x100_0000 * (b[at] as int) + 0x1_0000 * (b[at + 1] as int) + 0x100 * (b[at + 2] as int) + (b[at + 3] as int)
  }

  lemma LE16RoundTrip(b: seq<byte>, at: nat, v: u16)
    requires at + 2 <= |b| && b[at..at + 2] == LE16(v)
    ensures U16At(b, at) == v
  {
  }

  lemma LE32RoundTrip(b: seq<byte>, at: nat, v: u32)
    requires at + 4 <= |b| && b[at..at + 4] == LE32(v)
    ensures U32At(b, at) == v
  {
  }

  lemma Digits(v: u32)
    ensures v == v % 0x100 + 0x100 * (v / 0x100 % 0x100) + 0x1_0000 * (v / 0x1_0000 % 0x100)
      + 0x100_0000 * (v / 0x100_0000)
  {
    Shifted(v, 0x100);
    Shifted(v, 0x1_0000);
  }

  lemma Shifted(v: nat, base: nat)
    requires base in {0x100, 0x1_0000}
    ensures v / base / 0x100 == v / (base * 0x100)
  {
  }

  lemma LE64RoundTrip(b: seq<byte>, at: nat, v: u64)
    requires at + 8 <= |b| && b[at..at + 8] == LE64(v)
    ensures U64At(b, at) == v
  {
    assert b[at..at + 4] == b[at..at + 8][..4] == LE32(v % TWO32);
    assert b[at + 4..at + 8] == b[at..at + 8][4..] == LE32(v / TWO32);
    LE32RoundTrip(b, at, v % TWO32);
    LE32RoundTrip(b, at + 4, v / TWO32);
  }

  lemma BE32RoundTrip(b: seq<byte>, at: nat, v: u32)
    requires at + 4 <= |b| && b[at..at + 4] == BE32(v)
    ensures BigU32At(b, at) == v
  {
    var w := b[at..at + 4];
    assert w[0] == b[at] && w[1] == b[at + 1] && w[2] == b[at + 2] && w[3] == b[at + 3];
    Digits(v);
  }

  /** The bytes at a position decide the number read there, wherever they sit. */
  lemma SameU32(a: seq<byte>, i: nat, b: seq<byte>, j: nat)
    requires i + 4 <= |a| && j + 4 <= |b| && a[i..i + 4] == b[j..j + 4]
    ensures U32At(a, i) == U32At(b, j)
    ensures BigU32At(a, i) == BigU32At(b, j)
  {
    var v, w := a[i..i + 4], b[j..j + 4];
    assert v[0] == a[i] && v[1] == a[i + 1] && v[2] == a[i + 2] && v[3] == a[i + 3];
    assert w[0] == b[j] && w[1] == b[j + 1] && w[2] == b[j + 2] && w[3] == b[j + 3];
  }

  // ---------------------------------------------------------------- ZUtil::Swap

  /** `ZUtil::Swap` for 32 bits, the meaning of both the LE and the BE macro. */
  function Swap(value: bv32): bv32
  {
    var v := ((value >> 8) & 0x00ff00ff) | ((value << 8) & 0xff00ff00);
    ((v >> 16) & 0x0000ffff) | ((v << 16) & 0xffff0000)
  }

  /** Swap reverses the four bytes, so storing a swapped word in native order writes it big-endian
      and swapping a word read in native order reads it big-endian; done twice it is the identity. */
  lemma SwapReversesBytes(v: bv32)
    ensures Swap(v) & 0xff == v >> 24
    ensures (Swap(v) >> 8) & 0xff == (v >> 16) & 0xff
    ensures (Swap(v) >> 16) & 0xff == (v >> 8) & 0xff
    ensures Swap(v) >> 24 == v & 0xff
    ensures Swap(Swap(v)) == v
  {
  }

  // ---------------------------------------------------------------- buffers

  /** The bytes of a text of ASCII characters. */
  function Ascii(s: string): (b: seq<byte>)
    requires forall k :: 0 <= k < |s| ==> s[k] < 0x80 as char
    ensures |b| == |s|
  {
    seq(|s|, k requires 0 <= k < |s| => s[k] as int)
  }

  function Zeros(n: nat): (z: seq<byte>)
    ensures |z| == n
    ensures forall i :: 0 <= i < n ==> z[i] == 0
  {
    seq(n, _ => 0)
  }

  /** The buffer `b` after `s` was copied over it at `at` (memcpy, a field store, memset). */
  function Splice(b: seq<byte>, at: nat, s: seq<byte>): (r: seq<byte>)
    requires at + |s| <= |b|
    ensures |r| == |b|
    ensures forall i {:trigger r[i]} :: 0 <= i < |b| ==> r[i] == if at <= i < at + |s| then s[i - at] else b[i]
  {
    seq(|b|, i requires 0 <= i < |b| => if at <= i < at + |s| then s[i - at] else b[i])
  }

  lemma SliceOfSlice(b: seq<byte>, i: nat, j: nat, x: nat, y: nat)
    requires i <= j <= |b| && x <= y <= j - i
    ensures b[i..j][x..y] == b[i + x..i + y]
  {
    var l, r := b[i..j][x..y], b[i + x..i + y];
    assert forall k :: 0 <= k < y - x ==> l[k] == b[i..j][x + k] == b[i + x + k] == r[k];
  }

  /** The splice reads back where it was laid. */
  lemma SpliceThere(b: seq<byte>, at: nat, s: seq<byte>)
    requires at + |s| <= |b|
    ensures Splice(b, at, s)[at..at + |s|] == s
  {
  }

  /** A stretch that the splice does not touch reads as before. */
  lemma SpliceElsewhere(b: seq<byte>, at: nat, s: seq<byte>, i: nat, j: nat)
    requires at + |s| <= |b| && i <= j <= |b| && (j <= at || at + |s| <= i)
    ensures Splice(b, at, s)[i..j] == b[i..j]
  {
  }

  /** Runs of bytes laid end to end. */
  function Flatten(runs: seq<seq<byte>>): seq<byte> {
    if runs == [] then [] else runs[0] + Flatten(runs[1..])
  }

  lemma FlattenOne(run: seq<byte>)
    ensures Flatten([run]) == run
  {
  }

  lemma {:induction false} FlattenAppend(runs: seq<seq<byte>>, more: seq<seq<byte>>)
    ensures Flatten(runs + more) == Flatten(runs) + Flatten(more)
  {
    if runs == [] {
      assert runs + more == more;
    } else {
      assert (runs + more)[1..] == runs[1..] + more;
      FlattenAppend(runs[1..], more);
    }
  }

  /** Runs of one length sit at multiples of it. */
  lemma {:induction false} FlattenUniform(runs: seq<seq<byte>>, n: nat, k: nat)
    requires forall r :: r in runs ==> |r| == n
    requires k < |runs|
    ensures |Flatten(runs)| == n * |runs|
    ensures 0 <= n * k && n * k + n <= n * |runs|
    ensures Flatten(runs)[n * k..n * k + n] == runs[k]
  {
    FlattenLength(runs, n);
    Multiples(n, k, |runs|);
    if k > 0 {
      FlattenUniform(runs[1..], n, k - 1);
      Multiples(n, k - 1, k);
      ShiftSlice(runs[0], Flatten(runs[1..]), n * (k - 1), n * (k - 1) + n);
    }
  }

  lemma TimesNext(n: nat, m: nat)
    ensures n * (m + 1) == n * m + n
  {
  }

  lemma Multiples(n: nat, k: nat, m: nat)
    requires k < m
    ensures 0 <= n * k && n * k + n == n * (k + 1) && n * (k + 1) <= n * m
  {
  }

  lemma ShiftSlice(front: seq<byte>, b: seq<byte>, i: nat, j: nat)
    requires i <= j <= |b|
    ensures (front + b)[|front| + i..|front| + j] == b[i..j]
  {
  }

  lemma {:induction false} FlattenLength(runs: seq<seq<byte>>, n: nat)
    requires forall r :: r in runs ==> |r| == n
    ensures |Flatten(runs)| == n * |runs|
  {
    if runs != [] {
      FlattenLength(runs[1..], n);
      TimesNext(n, |runs| - 1);
    }
  }

  /** 32-bit words in the byte order of the signature structures. */
  function Words(ws: seq<u32>): (s: seq<byte>)
    ensures |s| == 4 * |ws|
  {
    if ws == [] then [] else BE32(ws[0]) + Words(ws[1..])
  }

  lemma {:induction false} WordAt(ws: seq<u32>, k: nat, b: seq<byte>)
    requires k < |ws| && 4 * |ws| <= |b| && b[..4 * |ws|] == Words(ws)
    ensures BigU32At(b, 4 * k) == ws[k]
  {
    WordBytes(ws, k);
    SliceOfSlice(b, 0, 4 * |ws|, 4 * k, 4 * k + 4);
    BE32RoundTrip(b, 4 * k, ws[k]);
  }

  lemma {:induction false} WordBytes(ws: seq<u32>, k: nat)
    requires k < |ws|
    ensures Words(ws)[4 * k..4 * k + 4] == BE32(ws[k])
  {
    if k > 0 {
      WordBytes(ws[1..], k - 1);
      assert Words(ws)[4 * k..4 * k + 4] == Words(ws[1..])[4 * (k - 1)..4 * (k - 1) + 4];
    }
  }

  lemma {:induction false} WordsAppend(ws: seq<u32>, more: seq<u32>)
    ensures Words(ws + more) == Words(ws) + Words(more)
  {
    if ws == [] {
      assert ws + more == more;
    } else {
      assert (ws + more)[1..] == ws[1..] + more;
      WordsAppend(ws[1..], more);
    }
  }

  method Put(a: array<byte>, at: nat, s: seq<byte>)
    requires at + |s| <= a.Length
    modifies a
    ensures a[..] == Splice(old(a[..]), at, s)
  {
    ghost var before := a[..];
    for i := 0 to |s|
      invariant forall k :: 0 <= k < a.Length ==>
        a[k] == if at <= k < at + i then s[k - at] else before[k]
    {
      a[at + i] := s[i];
    }
    assert a[..] == Splice(before, at, s);
  }
}
