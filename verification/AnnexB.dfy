/** Rewriting length-prefixed H.264 units as an Annex B byte stream, and what a decoder of such a stream
    gets back. */
module AnnexB {
  import opened Bytes

  const START_CODE: seq<byte> := [0x00, 0x00, 0x00, 0x01]

  type Unit = seq<byte>

  // ---------------------------------------------------------------- the two forms

  /** A unit that a four-byte length prefix can announce. */
  predicate Framable(u: Unit) {
    0 < |u| < TWO32
  }

  predicate AllFramable(us: seq<Unit>) {
    forall i :: 0 <= i < |us| ==> Framable(us[i])
  }

  function Avcc(us: seq<Unit>): seq<byte>
    requires AllFramable(us)
  {
    if us == [] then [] else BE32(|us[0]|) + us[0] + Avcc(us[1..])
  }

  function ByteStream(us: seq<Unit>): seq<byte> {
    if us == [] then [] else START_CODE + us[0] + ByteStream(us[1..])
  }

  /** Both forms are equally long. */
  lemma {:induction false} SameLength(us: seq<Unit>)
    requires AllFramable(us)
    ensures |Avcc(us)| == |ByteStream(us)|
  {
    if us != [] {
      SameLength(us[1..]);
    }
  }

  // ---------------------------------------------------------------- the conversion

  /** A complete unit is at the front of `b`. */
  predicate UnitInFront(b: seq<byte>) {
    4 <= |b| && 0 < BigU32At(b, 0) <= |b| - 4
  }

  /** The units up to the first prefix that is cut short, zero, or runs past the end. */
  function Units(b: seq<byte>): (us: seq<Unit>)
    ensures AllFramable(us)
    decreases |b|
  {
    if UnitInFront(b) then
      var n := BigU32At(b, 0);
      [b[4..4 + n]] + Units(b[4 + n..])
    else []
  }

  /** `convertToAnnexB`. */
  method ConvertToAnnexB(avcc: seq<byte>) returns (r: Option<seq<byte>>)
    ensures r == if Units(avcc) == [] then None else Some(ByteStream(Units(avcc)))
  {
    hide BigU32At;
    var output, offset := [], 0;
    ghost var done: seq<Unit> := [];
    while offset + 4 <= |avcc|
      invariant 0 <= offset <= |avcc|
      invariant Units(avcc) == done + Units(avcc[offset..])
      invariant output == ByteStream(done) && (done == [] <==> output == [])
      decreases |avcc| - offset
    {
      SameFront(avcc, offset);
      var length := BigU32At(avcc, offset);
      ghost var rest := avcc[offset..];
      offset := offset + 4;
      if !(length > 0 && offset + length <= |avcc|) {
        assert Units(rest) == [];
        assert done + [] == done;
        return if output == [] then None else Some(output);
      }
      output := output + START_CODE;
      output := output + avcc[offset..offset + length];
      ghost var u := avcc[offset..offset + length];
      assert rest[4..4 + length] == u && rest[4 + length..] == avcc[offset + length..];
      assert done + ([u] + Units(avcc[offset + length..])) == done + [u] + Units(avcc[offset + length..]);
      StreamAppend(done, u);
      done := done + [u];
      offset := offset + length;
    }
    assert done + [] == done;
    r := if output == [] then None else Some(output);
  }

  lemma SameFront(b: seq<byte>, at: nat)
    requires at + 4 <= |b|
    ensures BigU32At(b, at) == BigU32At(b[at..], 0)
  {
  }

  lemma {:induction false} StreamAppend(us: seq<Unit>, u: Unit)
    ensures ByteStream(us + [u]) == ByteStream(us) + START_CODE + u
  {
    if us == [] {
      assert us + [u] == [u];
      var one := [u];
      assert |one[1..]| == 0;
      assert START_CODE + u + [] == START_CODE + u;
    } else {
      assert (us + [u])[1..] == us[1..] + [u];
      StreamAppend(us[1..], u);
      assert START_CODE + us[0] + (ByteStream(us[1..]) + START_CODE + u)
        == START_CODE + us[0] + ByteStream(us[1..]) + START_CODE + u;
    }
  }

  lemma FrontUnit(u: Unit, tail: seq<byte>)
    requires Framable(u)
    ensures UnitInFront(BE32(|u|) + u + tail) && BigU32At(BE32(|u|) + u + tail, 0) == |u|
    ensures (BE32(|u|) + u + tail)[4..4 + |u|] == u && (BE32(|u|) + u + tail)[4 + |u|..] == tail
  {
    hide BE32, BigU32At;
    var b := BE32(|u|) + u + tail;
    assert b[0..4] == BE32(|u|);
    BE32RoundTrip(b, 0, |u|);
  }

  /** A well-formed list followed by a tail with no unit in front converts to exactly its units. */
  lemma {:induction false} UnitsOfAvcc(us: seq<Unit>, tail: seq<byte>)
    requires AllFramable(us) && !UnitInFront(tail)
    ensures Units(Avcc(us) + tail) == us
  {
    hide BE32, BigU32At;
    if us == [] {
      assert Avcc(us) + tail == tail;
    } else {
      FrontUnit(us[0], Avcc(us[1..]) + tail);
      assert Avcc(us) + tail == BE32(|us[0]|) + us[0] + (Avcc(us[1..]) + tail);
      UnitsOfAvcc(us[1..], tail);
    }
  }

  /** What is converted is the longest valid prefix: it is a prefix, and every list of units that the
      input starts with is an initial part of it. */
  lemma LongestPrefix(b: seq<byte>, us: seq<Unit>)
    requires AllFramable(us)
    ensures Avcc(Units(b)) <= b
    ensures Avcc(us) <= b ==> us <= Units(b)
  {
    hide Avcc, Units;
    UnitsArePrefix(b);
    if Avcc(us) <= b {
      PrefixIsInUnits(b, us);
    }
  }

  lemma {:induction false} UnitsArePrefix(b: seq<byte>)
    ensures Avcc(Units(b)) <= b
    decreases |b|
  {
    hide BE32, BigU32At;
    if UnitInFront(b) {
      FrontBytes(b);
      var n := BigU32At(b, 0);
      UnitsArePrefix(b[4 + n..]);
      assert Units(b)[1..] == Units(b[4 + n..]);
      assert b == BE32(n) + b[4..4 + n] + b[4 + n..];
    }
  }

  lemma {:induction false} PrefixIsInUnits(b: seq<byte>, us: seq<Unit>)
    requires AllFramable(us) && Avcc(us) <= b
    ensures us <= Units(b)
    decreases |us|
  {
    hide BE32, BigU32At;
    if us != [] {
      var rest := b[|Avcc(us)|..];
      var tail := Avcc(us[1..]) + rest;
      assert b == BE32(|us[0]|) + us[0] + tail;
      FrontUnit(us[0], tail);
      PrefixIsInUnits(tail, us[1..]);
      assert us == [us[0]] + us[1..];
    }
  }

  lemma FrontBytes(b: seq<byte>)
    requires 4 <= |b|
    ensures BE32(BigU32At(b, 0)) == b[0..4]
  {
    var v, w, x := BigU32At(b, 0), (b[0] as int) * 0x1_0000 + (b[1] as int) * 0x100 + (b[2] as int),
      (b[0] as int) * 0x100 + (b[1] as int);
    Digit(w, b[3]);
    Digit(x, b[2]);
    Digit(b[0], b[1]);
    assert v == 0x100 * w + (b[3] as int) && w == 0x100 * x + (b[2] as int);
    assert v / 0x1_0000 == v / 0x100 / 0x100 && v / 0x100_0000 == v / 0x1_0000 / 0x100;
  }

  lemma Digit(high: nat, low: byte)
    ensures (0x100 * high + low) / 0x100 == high && (0x100 * high + low) % 0x100 == low
  {
  }

  // ---------------------------------------------------------------- the decoder's side

  predicate StartAt(b: seq<byte>, i: nat) {
    i + 3 <= |b| && b[i] == 0 && b[i + 1] == 0 && b[i + 2] == 1
  }

  /** A unit ends before 0x000000, before 0x000001 and at the end of the stream. */
  predicate EndsAt(b: seq<byte>, i: nat) {
    i >= |b| || (i + 3 <= |b| && b[i] == 0 && b[i + 1] == 0 && b[i + 2] <= 1)
  }

  /** Zero bytes in front of a start code prefix, and trailing ones, skipped. */
  function SkipZeros(b: seq<byte>): (r: seq<byte>)
    ensures |r| <= |b|
  {
    if |b| == 0 || StartAt(b, 0) || b[0] != 0 then b else SkipZeros(b[1..])
  }

  function UnitLength(b: seq<byte>, i: nat): (n: nat)
    requires i <= |b|
    ensures i <= n <= |b|
    ensures EndsAt(b, n) && forall k :: i <= k < n ==> !EndsAt(b, k)
    decreases |b| - i
  {
    if EndsAt(b, i) then i else UnitLength(b, i + 1)
  }

  /** The byte stream decoding process of section B.2 of ITU-T H.264: the units of a stream, or none
      when something that is no start code stands where one is due. */
  function DecodeStream(b: seq<byte>): Option<seq<Unit>>
    decreases |b|
  {
    var z := SkipZeros(b);
    if |z| == 0 then Some([])
    else if !StartAt(z, 0) then None
    else
      var n := UnitLength(z[3..], 0);
      match DecodeStream(z[3..][n..])
      case None => None
      case Some(us) => Some([z[3..][..n]] + us)
  }

  /** No 0x000000 or 0x000001 anywhere in the unit. */
  predicate Clean(u: Unit) {
    forall i :: 0 <= i && i + 3 <= |u| ==> !(u[i] == 0 && u[i + 1] == 0 && u[i + 2] <= 1)
  }

  /** The byte sequences that section 7.4.1 of ITU-T H.264 rules out in a unit. */
  predicate Section741(u: Unit) {
    && |u| > 0 && u[|u| - 1] != 0
    && (forall i :: 0 <= i && i + 3 <= |u| && u[i] == 0 && u[i + 1] == 0 ==> u[i + 2] > 2)
    && (forall i :: 0 <= i && i + 4 <= |u| && u[i] == 0 && u[i + 1] == 0 && u[i + 2] == 3 ==> u[i + 3] <= 3)
  }

  /** Units a stream can carry: clean ones, each but the last not ending in a zero byte. */
  predicate Recoverable(us: seq<Unit>) {
    && (forall i :: 0 <= i < |us| ==> |us[i]| > 0 && Clean(us[i]))
    && (forall i :: 0 <= i < |us| - 1 ==> |us[i]| > 0 && us[i][|us[i]| - 1] != 0)
  }

  lemma SkipZeroByte(u: Unit, rest: seq<byte>)
    ensures SkipZeros(START_CODE + u + rest) == [0, 0, 1] + u + rest
  {
  }

  /** What follows a unit is the end of the stream or three zero bytes. */
  predicate Follows(rest: seq<byte>) {
    rest == [] || (3 <= |rest| && rest[0] == 0 && rest[1] == 0 && rest[2] == 0)
  }

  lemma StreamFollows(us: seq<Unit>)
    ensures Follows(ByteStream(us))
    ensures ByteStream(us) == [] <==> us == []
  {
  }

  lemma CleanUnitSeen(u: Unit, rest: seq<byte>)
    requires |u| > 0 && Follows(rest) && Clean(u) && (rest == [] || u[|u| - 1] != 0)
    ensures UnitLength(u + rest, 0) == |u|
  {
    hide UnitLength, Clean;
    var b := u + rest;
    assert EndsAt(b, |u|) by {
      assert rest != [] ==> b[|u|] == rest[0] && b[|u| + 1] == rest[1] && b[|u| + 2] == rest[2];
    }
    forall i | 0 <= i < |u| ensures !EndsAt(b, i) {
      Within(u, rest, i);
    }
  }

  lemma Within(u: Unit, rest: seq<byte>, i: nat)
    requires i < |u| && Clean(u) && (rest == [] || u[|u| - 1] != 0)
    ensures !EndsAt(u + rest, i)
  {
  }

  lemma OtherUnitCut(u: Unit, rest: seq<byte>)
    requires |u| > 0 && Follows(rest) && !(Clean(u) && (rest == [] || u[|u| - 1] != 0))
    ensures UnitLength(u + rest, 0) < |u|
  {
    hide UnitLength;
    var b := u + rest;
    if !Clean(u) {
      var i :| 0 <= i && i + 3 <= |u| && u[i] == 0 && u[i + 1] == 0 && u[i + 2] <= 1;
      assert b[i] == u[i] && b[i + 1] == u[i + 1] && b[i + 2] == u[i + 2];
      assert EndsAt(b, i);
    } else {
      assert b[|u| - 1] == u[|u| - 1] && b[|u|] == rest[0] && b[|u| + 1] == rest[1];
      assert EndsAt(b, |u| - 1);
    }
  }

  /** The unit in front of the next start code, or of the end, is seen whole exactly when it is clean
      and, if a start code follows, does not end in zero. */
  lemma UnitSeen(u: Unit, us: seq<Unit>)
    requires |u| > 0
    ensures UnitLength(u + ByteStream(us), 0) == |u| <==> Clean(u) && (us == [] || u[|u| - 1] != 0)
  {
    hide Clean, UnitLength, ByteStream, Follows;
    StreamFollows(us);
    if Clean(u) && (us == [] || u[|u| - 1] != 0) {
      CleanUnitSeen(u, ByteStream(us));
    } else {
      OtherUnitCut(u, ByteStream(us));
    }
  }

  /** A decoder recovers the units of a byte stream exactly when the stream can carry them. */
  lemma {:induction false} StreamRecovered(us: seq<Unit>)
    requires forall i :: 0 <= i < |us| ==> |us[i]| > 0
    ensures DecodeStream(ByteStream(us)) == Some(us) <==> Recoverable(us)
  {
    hide UnitLength, Recoverable, Clean, SkipZeros, DecodeStream;
    if us == [] {
      NothingToDecode();
    } else {
      var u, rest := us[0], ByteStream(us[1..]);
      UnitSeen(u, us[1..]);
      StreamRecovered(us[1..]);
      DecodeOne(u, rest);
      var n := UnitLength(u + rest, 0);
      if n == |u| {
        assert (u + rest)[..n] == u && (u + rest)[n..] == rest;
        assert us == [u] + us[1..];
      } else {
        assert |(u + rest)[..n]| != |u|;
      }
      RecoverableParts(us);
    }
  }

  lemma NothingToDecode()
    ensures DecodeStream(ByteStream([])) == Some([]) && Recoverable([])
  {
  }

  /** One step of the decoder at a start code. */
  lemma DecodeOne(u: Unit, rest: seq<byte>)
    ensures var n := UnitLength(u + rest, 0);
            DecodeStream(START_CODE + u + rest)
              == match DecodeStream((u + rest)[n..])
                 case None => None
                 case Some(us) => Some([(u + rest)[..n]] + us)
  {
    hide UnitLength, SkipZeros;
    var z := [0, 0, 1] + u + rest;
    SkipZeroByte(u, rest);
    assert z[3..] == u + rest;
  }

  lemma RecoverableParts(us: seq<Unit>)
    requires us != [] && |us[0]| > 0
    ensures Recoverable(us) <==> Clean(us[0]) && (us[1..] == [] || us[0][|us[0]| - 1] != 0) && Recoverable(us[1..])
  {
  }

  /** End to end: units that obey section 7.4.1, sent length-prefixed through the conversion with any
      cut-off tail, come out of a decoder as they were. */
  lemma ConversionRecovered(us: seq<Unit>, tail: seq<byte>)
    requires AllFramable(us) && !UnitInFront(tail) && forall i :: 0 <= i < |us| ==> Section741(us[i])
    ensures DecodeStream(ByteStream(Units(Avcc(us) + tail))) == Some(us)
  {
    UnitsOfAvcc(us, tail);
    forall i | 0 <= i < |us| ensures |us[i]| > 0 && Clean(us[i]) && us[i][|us[i]| - 1] != 0 {
      assert Section741(us[i]);
    }
    StreamRecovered(us);
  }
}
