/** The Base64 codec, on bytes and 32-bit words. Wide loads and stores are modelled as the three or four
    bytes whose values are used. */
module Base64 {
  type octet = bv8

  const PAD: octet := 0x3d

  // ---------------------------------------------------------------- the alphabet

  /** `get_b64_char`: the 64 characters of Table 1 of RFC 4648, the padding sign for any other index. */
  function CharAt(index: bv32): octet {
    if index < 26 then (index + 0x41) as octet
    else if index < 52 then (index - 26 + 0x61) as octet
    else if index < 62 then (index - 52 + 0x30) as octet
    else if index == 62 then 0x2b
    else if index == 63 then 0x2f
    else PAD
  }

  const NO_INDEX: bv32 := 0xffff_ffff

  /** `get_b64_index`, minus one for a character outside the alphabet. */
  function IndexOf(ch: octet): bv32 {
    if 0x41 <= ch <= 0x5a then (ch - 0x41) as bv32
    else if 0x61 <= ch <= 0x7a then (ch - 0x61) as bv32 + 26
    else if 0x30 <= ch <= 0x39 then (ch - 0x30) as bv32 + 52
    else if ch == 0x2b then 62
    else if ch == 0x2f then 63
    else NO_INDEX
  }

  predicate InAlphabet(ch: octet) {
    IndexOf(ch) != NO_INDEX
  }

  /** The two lookups are inverse to each other. */
  lemma LookupsInverse(index: bv32, ch: octet)
    ensures index < 64 ==> InAlphabet(CharAt(index)) && IndexOf(CharAt(index)) == index
    ensures InAlphabet(ch) ==> IndexOf(ch) < 64 && CharAt(IndexOf(ch)) == ch
    ensures !InAlphabet(PAD)
  {
  }

  /** Table 1 of RFC 4648. */
  lemma Table(index: bv32)
    ensures index < 26 ==> CharAt(index) == 'A' as octet + index as octet
    ensures 26 <= index < 52 ==> CharAt(index) == 'a' as octet + (index - 26) as octet
    ensures 52 <= index < 62 ==> CharAt(index) == '0' as octet + (index - 52) as octet
    ensures CharAt(62) == '+' as octet && CharAt(63) == '/' as octet && PAD == '=' as octet
  {
    assert 'A' as octet == 0x41 && 'a' as octet == 0x61 && '0' as octet == 0x30;
  }

  // ---------------------------------------------------------------- words

  function Little(a: octet, b: octet, c: octet, d: octet): bv32 {
    (a as bv32) | ((b as bv32) << 8) | ((c as bv32) << 16) | ((d as bv32) << 24)
  }

  function B0(w: bv32): bv32 { w & 0xff }
  function B1(w: bv32): bv32 { (w >> 8) & 0xff }
  function B2(w: bv32): bv32 { (w >> 16) & 0xff }
  function B3(w: bv32): bv32 { (w >> 24) & 0xff }

  /** The sign-propagating right shift of a signed word. */
  function Sar(w: bv32, n: nat): bv32
    requires n <= 31
  {
    if w < 0x8000_0000 then w >> n else !((!w) >> n)
  }

  lemma LittleBytes(a: octet, b: octet, c: octet, d: octet)
    ensures var w := Little(a, b, c, d);
            B0(w) == a as bv32 && B1(w) == b as bv32 && B2(w) == c as bv32 && B3(w) == d as bv32
  {
  }

  // ---------------------------------------------------------------- section 4 of RFC 4648

  /** The 24 bits of three octets. */
  function Group(a: octet, b: octet, c: octet): bv24 {
    ((a as bv24) << 16) | ((b as bv24) << 8) | (c as bv24)
  }

  /** Six-bit piece `k` of a group, the first being the highest. */
  function Sextet(g: bv24, k: nat): bv32
    requires k < 4
  {
    match k
    case 0 => (g >> 18) as bv32
    case 1 => ((g >> 12) & 0x3f) as bv32
    case 2 => ((g >> 6) & 0x3f) as bv32
    case 3 => (g & 0x3f) as bv32
  }

  /** The encoding of a byte string: 24-bit groups become four characters; a final group of 8 or 16
      bits is filled up with zero bits and its missing characters are padding. */
  function Encoded(s: seq<octet>): seq<octet> {
    if |s| == 0 then []
    else if |s| == 1 then
      var g := Group(s[0], 0, 0);
      [CharAt(Sextet(g, 0)), CharAt(Sextet(g, 1)), PAD, PAD]
    else if |s| == 2 then
      var g := Group(s[0], s[1], 0);
      [CharAt(Sextet(g, 0)), CharAt(Sextet(g, 1)), CharAt(Sextet(g, 2)), PAD]
    else
      var g := Group(s[0], s[1], s[2]);
      [CharAt(Sextet(g, 0)), CharAt(Sextet(g, 1)), CharAt(Sextet(g, 2)), CharAt(Sextet(g, 3))] + Encoded(s[3..])
  }

  // ---------------------------------------------------------------- encode

  function First(temp: bv32): bv32 { (B0(temp) >> 2) & 0x3f }
  function Second(temp: bv32): bv32 { (((B0(temp) << 6) >> 2) | (B1(temp) >> 4)) & 0x3f }
  function Third(temp: bv32): bv32 { (((B1(temp) << 4) >> 2) | (B2(temp) >> 6)) & 0x3f }
  function Fourth(temp: bv32): bv32 { ((B2(temp) << 2) >> 2) & 0x3f }

  /** The shifts of the code cut a group into its sextets. */
  lemma ShiftsCutSextets(a: octet, b: octet, c: octet, d: octet)
    ensures var w, g := Little(a, b, c, d), Group(a, b, c);
            First(w) == Sextet(g, 0) && Second(w) == Sextet(g, 1) && Third(w) == Sextet(g, 2)
              && Fourth(w) == Sextet(g, 3)
  {
  }

  /** `encode`: whole groups while more than three bytes are left, then the last one to three bytes. */
  method Encode(src: seq<octet>) returns (enc: seq<octet>)
    ensures enc == Encoded(src)
  {
    hide CharAt, Sextet, Group, First, Second, Third, Fourth, Little;
    if |src| <= 0 {
      return [];
    }
    enc := [];
    var i := 0;
    while i < |src| - 3
      invariant 0 <= i < |src|
      invariant Encoded(src) == enc + Encoded(src[i..])
    {
      var temp := Little(src[i], src[i + 1], src[i + 2], src[i + 3]);
      ShiftsCutSextets(src[i], src[i + 1], src[i + 2], src[i + 3]);
      var four := [CharAt(First(temp)), CharAt(Second(temp)), CharAt(Third(temp)), CharAt(Fourth(temp))];
      assert src[i..][3..] == src[i + 3..];
      assert enc + (four + Encoded(src[i + 3..])) == (enc + four) + Encoded(src[i + 3..]);
      enc := enc + four;
      i := i + 3;
    }
    if i < |src| {
      var rest := |src| - i;
      var temp := Little(src[i], if rest > 1 then src[i + 1] else 0, if rest > 2 then src[i + 2] else 0, 0);
      ShiftsCutSextets(src[i], if rest > 1 then src[i + 1] else 0, if rest > 2 then src[i + 2] else 0, 0);
      EncodedLast(src[i..]);
      enc := enc + [CharAt(First(temp)), CharAt(Second(temp)), if rest > 1 then CharAt(Third(temp)) else PAD,
                    if rest > 2 then CharAt(Fourth(temp)) else PAD];
    }
  }

  lemma EncodedLast(s: seq<octet>)
    requires 1 <= |s| <= 3
    ensures var g := Group(s[0], if |s| > 1 then s[1] else 0, if |s| > 2 then s[2] else 0);
            Encoded(s) == [CharAt(Sextet(g, 0)), CharAt(Sextet(g, 1)), if |s| > 1 then CharAt(Sextet(g, 2)) else PAD,
                           if |s| > 2 then CharAt(Sextet(g, 3)) else PAD]
  {
  }

  /** The test vectors `f`, `fo`, `foo` and `foobar` of section 10 of RFC 4648, which are encoded as `Zg==`, `Zm8=`,
      `Zm9v` and `Zm9vYmFy`. */
  lemma Vectors()
    ensures Encoded([0x66]) == [0x5a, 0x67, 0x3d, 0x3d]
    ensures Encoded([0x66, 0x6f]) == [0x5a, 0x6d, 0x38, 0x3d]
    ensures Encoded([0x66, 0x6f, 0x6f]) == [0x5a, 0x6d, 0x39, 0x76]
    ensures Encoded([0x66, 0x6f, 0x6f, 0x62, 0x61, 0x72]) == [0x5a, 0x6d, 0x39, 0x76, 0x59, 0x6d, 0x46, 0x79]
  {
    var s: seq<octet> := [0x66, 0x6f, 0x6f, 0x62, 0x61, 0x72];
    var rest: seq<octet> := [0x62, 0x61, 0x72];
    var none: seq<octet> := [];
    assert s[3..] == rest && rest[3..] == none;
    assert Encoded(none) == none;
    assert Encoded(rest) == [0x59, 0x6d, 0x46, 0x79];
    var foo: seq<octet> := [0x66, 0x6f, 0x6f];
    assert foo[3..] == none;
  }

  // ---------------------------------------------------------------- decode

  // the three bytes of a word, from the indices of its characters
  function Join0(p: bv32, q: bv32): octet { (((p << 2) | Sar(q << 2, 6)) & 0xff) as octet }
  function Join1(q: bv32, r: bv32): octet { (((q << 4) | Sar(r << 2, 4)) & 0xff) as octet }
  function Join2(r: bv32, s: bv32): octet { (((r << 6) | Sar(s << 2, 2)) & 0xff) as octet }

  function Byte0(temp: bv32): octet {
    Join0(IndexOf(B0(temp) as octet), IndexOf(B1(temp) as octet))
  }
  function Byte1(temp: bv32): octet {
    Join1(IndexOf(B1(temp) as octet), IndexOf(B2(temp) as octet))
  }
  function Byte2(temp: bv32): octet {
    Join2(IndexOf(B2(temp) as octet), IndexOf(B3(temp) as octet))
  }

  /** The last one to four characters; a missing character counts as a NUL. */
  function DecodedLast(t: seq<octet>): seq<octet>
    requires 1 <= |t| <= 4
  {
    var temp := Little(t[0], if |t| > 1 then t[1] else 0, if |t| > 2 then t[2] else 0, if |t| > 3 then t[3] else 0);
    var pad := PAD as bv32;
    [Byte0(temp)]
    + (if pad != B1(temp) && pad != B2(temp) then [Byte1(temp)] else [])
    + (if pad != B2(temp) && pad != B3(temp) then [Byte2(temp)] else [])
  }

  function Decoded(t: seq<octet>): seq<octet> {
    if |t| == 0 then []
    else if |t| <= 4 then DecodedLast(t)
    else
      var temp := Little(t[0], t[1], t[2], t[3]);
      [Byte0(temp), Byte1(temp), Byte2(temp)] + Decoded(t[4..])
  }

  /** `decode` on a text without NULs. */
  method Decode(src: seq<octet>) returns (dec: seq<octet>)
    ensures dec == Decoded(src)
  {
    hide DecodedLast, Byte0, Byte1, Byte2, Little;
    if |src| <= 0 {
      return [];
    }
    dec := [];
    var i := 0;
    while i < |src| - 4
      invariant 0 <= i < |src|
      invariant Decoded(src) == dec + Decoded(src[i..])
    {
      var temp := Little(src[i], src[i + 1], src[i + 2], src[i + 3]);
      var three := [Byte0(temp), Byte1(temp), Byte2(temp)];
      assert src[i..][4..] == src[i + 4..];
      assert dec + (three + Decoded(src[i + 4..])) == (dec + three) + Decoded(src[i + 4..]);
      dec := dec + three;
      i := i + 4;
    }
    if i < |src| {
      var last := DecodeLast(src[i..]);
      dec := dec + last;
    }
  }

  method DecodeLast(t: seq<octet>) returns (dec: seq<octet>)
    requires 1 <= |t| <= 4
    ensures dec == DecodedLast(t)
  {
    hide Byte0, Byte1, Byte2, Little, B1, B2, B3;
    var temp := Little(t[0], if |t| > 1 then t[1] else 0, if |t| > 2 then t[2] else 0, if |t| > 3 then t[3] else 0);
    dec := [Byte0(temp)];
    if PAD as bv32 != B1(temp) && PAD as bv32 != B2(temp) {
      dec := dec + [Byte1(temp)];
    }
    if PAD as bv32 != B2(temp) && PAD as bv32 != B3(temp) {
      dec := dec + [Byte2(temp)];
    }
  }

  // ---------------------------------------------------------------- round trips

  lemma SextetsFit(g: bv24)
    ensures Sextet(g, 0) < 64 && Sextet(g, 1) < 64 && Sextet(g, 2) < 64 && Sextet(g, 3) < 64
  {
  }

  lemma BytesOfWord(a: octet, b: octet, c: octet, d: octet)
    ensures var w := Little(a, b, c, d);
            && Byte0(w) == Join0(IndexOf(a), IndexOf(b))
            && Byte1(w) == Join1(IndexOf(b), IndexOf(c))
            && Byte2(w) == Join2(IndexOf(c), IndexOf(d))
  {
    hide IndexOf, Little, B0, B1, B2, B3, Join0, Join1, Join2;
    LittleBytes(a, b, c, d);
    Narrowed(a);
    Narrowed(b);
    Narrowed(c);
    Narrowed(d);
  }

  lemma Narrowed(a: octet)
    ensures (a as bv32) as octet == a
  {
  }

  lemma JoinSextets(a: octet, b: octet, c: octet)
    ensures var g := Group(a, b, c);
            && Join0(Sextet(g, 0), Sextet(g, 1)) == a
            && Join1(Sextet(g, 1), Sextet(g, 2)) == b
            && Join2(Sextet(g, 2), Sextet(g, 3)) == c
  {
  }

  /** Four characters of the alphabet give back the group they encode. */
  lemma FourRoundTrip(a: octet, b: octet, c: octet, w: bv32, q: seq<octet>)
    requires |q| == 4 && w == Little(q[0], q[1], q[2], q[3])
    requires forall k :: 0 <= k < 4 ==> q[k] == CharAt(Sextet(Group(a, b, c), k)) || (k > 1 && q[k] == PAD)
    ensures Byte0(w) == a
    ensures q[2] != PAD ==> Byte1(w) == b
    ensures q[2] != PAD && q[3] != PAD ==> Byte2(w) == c
    ensures q[0] != PAD && q[1] != PAD
    ensures B1(w) == q[1] as bv32 && B2(w) == q[2] as bv32 && B3(w) == q[3] as bv32
  {
    hide CharAt, IndexOf, Little, Group, Sextet, B0, B1, B2, B3, Join0, Join1, Join2, Byte0, Byte1, Byte2;
    var g := Group(a, b, c);
    SextetsFit(g);
    LookupsInverse(Sextet(g, 0), q[0]);
    LookupsInverse(Sextet(g, 1), q[1]);
    LookupsInverse(Sextet(g, 2), q[2]);
    LookupsInverse(Sextet(g, 3), q[3]);
    BytesOfWord(q[0], q[1], q[2], q[3]);
    LittleBytes(q[0], q[1], q[2], q[3]);
    JoinSextets(a, b, c);
  }

  /** Decoding what was encoded gives the bytes back, whatever they are. */
  lemma {:induction false} DecodeEncode(s: seq<octet>)
    ensures Decoded(Encoded(s)) == s
  {
    hide CharAt, Little, Group, Sextet, Byte0, Byte1, Byte2, B0, B1, B2, B3;
    if |s| == 0 {
    } else if |s| <= 3 {
      EncodedLast(s);
      LastRoundTrip(s, Encoded(s));
    } else {
      var g, t := Group(s[0], s[1], s[2]), Encoded(s);
      var q := t[..4];
      assert t == [CharAt(Sextet(g, 0)), CharAt(Sextet(g, 1)), CharAt(Sextet(g, 2)), CharAt(Sextet(g, 3))]
        + Encoded(s[3..]);
      assert t[4..] == Encoded(s[3..]);
      EncodedFills(s[3..]);
      NotPadding(g);
      FourRoundTrip(s[0], s[1], s[2], Little(q[0], q[1], q[2], q[3]), q);
      DecodeEncode(s[3..]);
    }
  }

  lemma EncodedFills(s: seq<octet>)
    requires |s| > 0
    ensures |Encoded(s)| >= 4
  {
  }

  lemma NotPadding(g: bv24)
    ensures CharAt(Sextet(g, 2)) != PAD && CharAt(Sextet(g, 3)) != PAD
  {
  }

  lemma LastRoundTrip(s: seq<octet>, t: seq<octet>)
    requires 1 <= |s| <= 3 && |t| == 4
    requires var g := Group(s[0], if |s| > 1 then s[1] else 0, if |s| > 2 then s[2] else 0);
             t == [CharAt(Sextet(g, 0)), CharAt(Sextet(g, 1)), if |s| > 1 then CharAt(Sextet(g, 2)) else PAD,
                   if |s| > 2 then CharAt(Sextet(g, 3)) else PAD]
    ensures DecodedLast(t) == s
  {
    hide CharAt, Little, Group, Sextet, Byte0, Byte1, Byte2, B0, B1, B2, B3;
    var b, c := if |s| > 1 then s[1] else 0, if |s| > 2 then s[2] else 0;
    NotPadding(Group(s[0], b, c));
    FourRoundTrip(s[0], b, c, Little(t[0], t[1], t[2], t[3]), t);
    SameOctets(t);
  }

  lemma SameOctets(t: seq<octet>)
    ensures forall k :: 0 <= k < |t| ==> (t[k] as bv32 == PAD as bv32 <==> t[k] == PAD)
  {
  }

  // ---------------------------------------------------------------- canonical texts

  predicate CanonicalLast(t: seq<octet>)
    requires |t| == 4
  {
    && InAlphabet(t[0]) && InAlphabet(t[1])
    && (|| (InAlphabet(t[2]) && InAlphabet(t[3]))
        || (InAlphabet(t[2]) && t[3] == PAD && IndexOf(t[2]) & 3 == 0)
        || (t[2] == PAD && t[3] == PAD && IndexOf(t[1]) & 15 == 0))
  }

  /** Whole groups of alphabet characters; the last may be padded, its unused bits then being zero. */
  predicate Canonical(t: seq<octet>) {
    || |t| == 0
    || (|t| == 4 && CanonicalLast(t))
    || (|t| > 4 && InAlphabet(t[0]) && InAlphabet(t[1]) && InAlphabet(t[2]) && InAlphabet(t[3]) && Canonical(t[4..]))
  }

  lemma JoinCuts4(p: bv32, q: bv32, r: bv32, s: bv32)
    requires p < 64 && q < 64 && r < 64 && s < 64
    ensures var g := Group(Join0(p, q), Join1(q, r), Join2(r, s));
            Sextet(g, 0) == p && Sextet(g, 1) == q && Sextet(g, 2) == r && Sextet(g, 3) == s
  {
  }

  lemma JoinCuts3(p: bv32, q: bv32, r: bv32)
    requires p < 64 && q < 64 && r < 64 && r & 3 == 0
    ensures var g := Group(Join0(p, q), Join1(q, r), 0);
            Sextet(g, 0) == p && Sextet(g, 1) == q && Sextet(g, 2) == r
  {
  }

  lemma JoinCuts2(p: bv32, q: bv32)
    requires p < 64 && q < 64 && q & 15 == 0
    ensures var g := Group(Join0(p, q), 0, 0);
            Sextet(g, 0) == p && Sextet(g, 1) == q
  {
  }

  lemma ZeroBits(a: octet, b: octet)
    ensures Sextet(Group(a, b, 0), 2) & 3 == 0
    ensures Sextet(Group(a, 0, 0), 1) & 15 == 0
  {
  }

  lemma SextetChars(g: bv24)
    ensures forall k :: 0 <= k < 4 ==> InAlphabet(CharAt(Sextet(g, k))) && IndexOf(CharAt(Sextet(g, k))) == Sextet(g, k)
  {
  }

  lemma {:induction false} EncodedIsCanonical(s: seq<octet>)
    ensures Canonical(Encoded(s))
  {
    hide CharAt, IndexOf, Sextet, Group;
    if |s| == 0 {
    } else if |s| <= 3 {
      EncodedLast(s);
      SextetChars(Group(s[0], if |s| > 1 then s[1] else 0, if |s| > 2 then s[2] else 0));
      ZeroBits(s[0], if |s| > 1 then s[1] else 0);
    } else {
      var g := Group(s[0], s[1], s[2]);
      SextetChars(g);
      EncodedIsCanonical(s[3..]);
      EncodedFills(s[3..]);
      assert Encoded(s)[4..] == Encoded(s[3..]);
    }
  }

  /** A text is what encoding its decoding gives exactly when it is canonical. */
  lemma EncodeDecode(t: seq<octet>)
    ensures Encoded(Decoded(t)) == t <==> Canonical(t)
  {
    EncodedIsCanonical(Decoded(t));
    if Canonical(t) {
      CanonicalRoundTrip(t);
    }
  }

  lemma {:induction false} CanonicalRoundTrip(t: seq<octet>)
    requires Canonical(t)
    ensures Encoded(Decoded(t)) == t
  {
    hide CharAt, IndexOf, Sextet, Group, Join0, Join1, Join2, Little, Byte0, Byte1, Byte2, DecodedLast, CanonicalLast,
         InAlphabet, Encoded;
    if |t| > 4 {
      CanonicalRoundTrip(t[4..]);
      SomethingDecoded(t[4..]);
      FrontQuad(t, Decoded(t[4..]));
      assert t == t[..4] + t[4..];
    } else if |t| == 4 {
      LastDecodes(t);
    } else {
      NothingEncoded();
    }
  }

  lemma NothingEncoded()
    ensures Encoded(Decoded([])) == []
  {
  }

  lemma SomethingDecoded(t: seq<octet>)
    requires Canonical(t) && t != []
    ensures Decoded(t) != []
  {
  }

  /** The three bytes of a group of four characters are encoded as these characters. */
  lemma FrontQuad(t: seq<octet>, rest: seq<octet>)
    requires |t| > 4 && rest != [] && InAlphabet(t[0]) && InAlphabet(t[1]) && InAlphabet(t[2]) && InAlphabet(t[3])
    ensures var w := Little(t[0], t[1], t[2], t[3]);
            Encoded([Byte0(w), Byte1(w), Byte2(w)] + rest) == t[..4] + Encoded(rest)
  {
    hide CharAt, IndexOf, Sextet, Group, Join0, Join1, Join2, Little, Byte0, Byte1, Byte2, InAlphabet;
    var w := Little(t[0], t[1], t[2], t[3]);
    var s := [Byte0(w), Byte1(w), Byte2(w)] + rest;
    BytesOfWord(t[0], t[1], t[2], t[3]);
    AlphabetIndices(t);
    JoinCuts4(IndexOf(t[0]), IndexOf(t[1]), IndexOf(t[2]), IndexOf(t[3]));
    assert s[3..] == rest;
    assert t[..4] == [t[0], t[1], t[2], t[3]];
  }

  lemma AlphabetIndices(t: seq<octet>)
    ensures forall k :: 0 <= k < |t| && InAlphabet(t[k]) ==>
      IndexOf(t[k]) < 64 && CharAt(IndexOf(t[k])) == t[k] && t[k] != PAD
  {
  }

  lemma LastDecodes(t: seq<octet>)
    requires |t| == 4 && CanonicalLast(t)
    ensures Encoded(DecodedLast(t)) == t
  {
    hide CharAt, IndexOf, Sextet, Group, Join0, Join1, Join2, Little, Byte0, Byte1, Byte2, B0, B1, B2, B3;
    BytesOfWord(t[0], t[1], t[2], t[3]);
    LittleBytes(t[0], t[1], t[2], t[3]);
    SameOctets(t);
    AlphabetIndices(t);
    if InAlphabet(t[3]) {
      JoinCuts4(IndexOf(t[0]), IndexOf(t[1]), IndexOf(t[2]), IndexOf(t[3]));
    } else if InAlphabet(t[2]) {
      JoinCuts3(IndexOf(t[0]), IndexOf(t[1]), IndexOf(t[2]));
    } else {
      JoinCuts2(IndexOf(t[0]), IndexOf(t[1]));
    }
    EncodedLast(DecodedLast(t));
  }
}
