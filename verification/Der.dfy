/** DER encoding of entitlements, its length octets, and a decoder for the conventions it uses. */
module Der {
  import opened Bytes

  // ---------------------------------------------------------------- counting bits and bytes

  function Pow2(n: nat): (p: nat)
    ensures p > 0
  {
    if n == 0 then 1 else 2 * Pow2(n - 1)
  }

  function Pow256(n: nat): (p: nat)
    ensures p > 0
  {
    if n == 0 then 1 else 0x100 * Pow256(n - 1)
  }

  /** `count` zero bits lead the 64-bit number `x`. */
  predicate LeadingZeros(x: u64, count: nat) {
    if x == 0 then count == 64
    else count < 64 && Pow2(63) <= x * Pow2(count) < Pow2(64)
  }

  lemma {:induction false} Pow2Add(a: nat, b: nat)
    ensures Pow2(a + b) == Pow2(a) * Pow2(b)
  {
    if b == 0 {
    } else {
      Pow2Add(a, b - 1);
      assert Pow2(a) * Pow2(b) == 2 * (Pow2(a) * Pow2(b - 1));
    }
  }

  lemma Pow2Values()
    ensures Pow2(1) == 2 && Pow2(2) == 4 && Pow2(4) == 0x10 && Pow2(8) == 0x100 && Pow2(16) == 0x1_0000
    ensures Pow2(32) == 0x1_0000_0000 && Pow2(63) == 0x8000_0000_0000_0000 && Pow2(64) == 0x1_0000_0000_0000_0000
  {
    Pow2Small();
    hide Pow2;
    Pow2Add(4, 4);
    Pow2Add(8, 8);
    Pow2Add(16, 16);
    Pow2Add(32, 32);
    Pow2Add(63, 1);
  }

  lemma Pow2Small()
    ensures Pow2(0) == 1 && Pow2(1) == 2 && Pow2(2) == 4 && Pow2(4) == 0x10
  {
  }

  lemma ShiftOn(value: nat, count: nat, k: nat, x: nat)
    requires x == value * Pow2(count)
    ensures x * Pow2(k) == value * Pow2(count + k)
  {
    Pow2Add(count, k);
    assert value * Pow2(count) * Pow2(k) == value * (Pow2(count) * Pow2(k));
  }

  /** `ZUtil::builtin_clzll`: the true leading-zero count. A shift keeps 64 bits. */
  method BuiltinClzll(value: u64) returns (count: nat)
    ensures LeadingZeros(value, count)
  {
    if value == 0 {
      return 64;
    }
    hide Pow2;
    Pow2Values();
    Pow2Small();
    count := 0;
    var x: u64 := value;
    count, x := Narrow(value, count, x, 0x0000_0000_FFFF_FFFF, 32, 0x1_0000_0000, 1);
    count, x := Narrow(value, count, x, 0x0000_FFFF_FFFF_FFFF, 16, 0x1_0000, 0x1_0000_0000);
    count, x := Narrow(value, count, x, 0x00FF_FFFF_FFFF_FFFF, 8, 0x100, 0x1_0000_0000_0000);
    count, x := Narrow(value, count, x, 0x0FFF_FFFF_FFFF_FFFF, 4, 0x10, 0x100_0000_0000_0000);
    count, x := Narrow(value, count, x, 0x3FFF_FFFF_FFFF_FFFF, 2, 4, 0x1000_0000_0000_0000);
    if x <= 0x7FFF_FFFF_FFFF_FFFF {
      ShiftOn(value, count, 1, x);
      count := count + 1;
    }
    CountBelow64(value, count);
  }

  /** One halving step: numbers up to `limit` are shifted left by `k` places and the count raised. */
  method Narrow(ghost value: u64, count: nat, x: u64, limit: u64, k: nat, factor: nat, ghost low: nat)
    returns (count': nat, x': u64)
    requires x == value * Pow2(count) && low <= x
    requires factor == Pow2(k) && low * factor == limit + 1 && (limit + 1) * factor == 0x1_0000_0000_0000_0000
    ensures x' == value * Pow2(count') && limit + 1 <= x'
  {
    hide Pow2;
    count', x' := count, x;
    if x <= limit {
      ShiftOn(value, count, k, x);
      Scale(low, x, limit, factor);
      count' := count + k;
      x' := (x * factor) % 0x1_0000_0000_0000_0000;
    }
  }

  /** The shift loses no bit and reaches past the limit. */
  lemma Scale(low: nat, x: nat, limit: nat, factor: nat)
    requires low <= x <= limit && low * factor == limit + 1 && (limit + 1) * factor == 0x1_0000_0000_0000_0000
    ensures limit + 1 <= x * factor == (x * factor) % 0x1_0000_0000_0000_0000
  {
    assert low * factor <= x * factor < (limit + 1) * factor;
  }

  lemma CountBelow64(value: u64, count: nat)
    requires 0 < value && value * Pow2(count) < Pow2(64)
    ensures count < 64
  {
    hide Pow2;
    if 64 <= count {
      Pow2Add(64, count - 64);
      AtLeast(value, Pow2(64), Pow2(count - 64));
    }
  }

  lemma AtLeast(a: nat, p: nat, q: nat)
    requires 0 < a && 0 < q
    ensures p <= a * (p * q)
  {
    assert p <= p * q;
    assert p * q <= a * (p * q);
  }

  /** The fewest bytes that hold `x`; zero needs none. */
  function NumBytes(x: nat): nat {
    if x == 0 then 0 else 1 + NumBytes(x / 0x100)
  }

  /** `k` bytes hold `x` and fewer do not. */
  lemma {:induction false} NumBytesBounds(x: nat)
    ensures x < Pow256(NumBytes(x))
    ensures x > 0 ==> Pow256(NumBytes(x) - 1) <= x
    ensures x >= 2 ==> NumBytes(x) < x
    ensures NumBytes(x) == 0 <==> x == 0
  {
    if x > 0 {
      NumBytesBounds(x / 0x100);
    }
  }

  lemma {:induction false} NumBytesIs(x: nat, k: nat)
    requires 0 < k && Pow256(k - 1) <= x < Pow256(k)
    ensures NumBytes(x) == k
  {
    if k > 1 {
      NumBytesIs(x / 0x100, k - 1);
    }
  }

  lemma {:induction false} Pow256IsPow2(k: nat)
    ensures Pow256(k) == Pow2(8 * k)
  {
    if k > 0 {
      Pow256IsPow2(k - 1);
      Pow2Add(8, 8 * (k - 1));
      assert Pow2(8) == 0x100 by { Pow2Values(); }
    }
  }

  /** The byte count the encoder derives from the leading zeros is the least that holds the number. */
  lemma BytesFromZeros(x: u64, count: nat)
    requires LeadingZeros(x, count)
    ensures count <= 64 && (64 - count + 7) / 8 == NumBytes(x) <= 8
  {
    hide Pow2, Pow256;
    if x > 0 {
      var bits := 64 - count;
      var k := (bits + 7) / 8;
      BitBounds(x, count);
      Pow256IsPow2(k);
      Pow256IsPow2(k - 1);
      Pow2Grows(8 * (k - 1), bits - 1);
      Pow2Grows(bits, 8 * k);
      NumBytesIs(x, k);
    }
  }

  lemma {:induction false} Pow2Grows(a: nat, b: nat)
    requires a <= b
    ensures Pow2(a) <= Pow2(b)
    decreases b - a
  {
    if a < b {
      Pow2Grows(a + 1, b);
    }
  }

  lemma BitBounds(x: u64, count: nat)
    requires LeadingZeros(x, count) && 0 < x
    ensures Pow2(63 - count) <= x < Pow2(64 - count)
  {
    hide Pow2;
    Pow2Add(63 - count, count);
    Pow2Add(64 - count, count);
    var p, q, r := Pow2(63 - count), Pow2(64 - count), Pow2(count);
    Cancel(p, x, r);
    Cancel2(q, x, r);
  }

  lemma Cancel(p: nat, x: nat, r: nat)
    requires p * r <= x * r && 0 < r
    ensures p <= x
  {
  }

  lemma Cancel2(q: nat, x: nat, r: nat)
    ensures q <= x ==> q * r <= x * r
  {
  }

  // ---------------------------------------------------------------- big-endian numbers

  /** The low `k` bytes of `x`, highest first. */
  function BigEndian(x: nat, k: nat): (s: seq<byte>)
    ensures |s| == k
  {
    if k == 0 then [] else BigEndian(x / 0x100, k - 1) + [x % 0x100]
  }

  function FromBig(s: seq<byte>): nat {
    if s == [] then 0 else 0x100 * FromBig(s[..|s| - 1]) + (s[|s| - 1] as int)
  }

  lemma {:induction false} BigRoundTrip(x: nat, k: nat)
    requires x < Pow256(k)
    ensures FromBig(BigEndian(x, k)) == x
  {
    if k > 0 {
      BigRoundTrip(x / 0x100, k - 1);
      assert BigEndian(x, k)[..k - 1] == BigEndian(x / 0x100, k - 1);
    }
  }

  lemma {:induction false} FromBigAppend(s: seq<byte>, t: seq<byte>)
    ensures FromBig(s + t) == FromBig(s) * Pow256(|t|) + FromBig(t)
  {
    if t == [] {
      assert s + t == s;
    } else {
      var t' := t[..|t| - 1];
      FromBigAppend(s, t');
      assert (s + t)[..|s + t| - 1] == s + t';
      assert FromBig(s) * Pow256(|t|) == 0x100 * (FromBig(s) * Pow256(|t'|));
    }
  }

  /** The first byte of the shortest form is not zero. */
  lemma {:induction false} FirstByte(x: nat)
    requires 0 < x
    ensures BigEndian(x, NumBytes(x))[0] > 0
  {
    if x >= 0x100 {
      FirstByte(x / 0x100);
    } else {
      assert NumBytes(x / 0x100) == 0;
    }
  }

  // ---------------------------------------------------------------- length octets

  /** Definite form: one byte below 128, otherwise the number of bytes with the top bit set and then
      the bytes. */
  function Length(n: nat): (s: seq<byte>)
    ensures |s| >= 1
  {
    if n < 0x80 then [n] else [(0x80 + NumBytes(n)) % 0x100] + BigEndian(n, NumBytes(n))
  }

  /** The bytes `do { append(x >> (sLength -= 8)) } while (sLength != 0)` writes for `bytes` bytes: the
      32-bit counter wraps when it starts at zero, and a zero shifted by any amount is zero. */
  function Dumped(x: nat): seq<byte> {
    if x == 0 then Zeros(0x2000_0000) else BigEndian(x, NumBytes(x))
  }

  /** `x` shifted right by `n` bytes. */
  function Shr(x: nat, n: nat): nat {
    if n == 0 then x else Shr(x, n - 1) / 0x100
  }

  /** The first `n` of the `total` low bytes of `x`, highest first. */
  function DumpedTo(x: nat, total: nat, n: nat): seq<byte>
    requires n <= total
  {
    if n == 0 then [] else DumpedTo(x, total, n - 1) + [Shr(x, total - n) % 0x100]
  }

  lemma {:induction false} DumpedToIs(x: nat, total: nat, n: nat)
    requires n <= total
    ensures DumpedTo(x, total, n) == BigEndian(Shr(x, total - n), n)
    ensures x == 0 ==> DumpedTo(x, total, n) == Zeros(n)
  {
    if n > 0 {
      DumpedToIs(x, total, n - 1);
      ShrZero(total - n);
    }
  }

  /** The shared tail loop of the length and integer branches. */
  method DumpBytes(blob: seq<byte>, x: u64, bytes: nat) returns (r: seq<byte>)
    requires bytes == NumBytes(x) <= 8
    ensures r == blob + Dumped(x)
  {
    hide Shr, NumBytes, BigEndian, Zeros, DumpedTo, Pow256;
    ghost var total: nat := if x == 0 then 0x2000_0000 else bytes;
    NumBytesBounds(x);
    var shift: int := (8 * bytes - 8) % TWO32;
    r := blob + [Shr(x, shift / 8) % 0x100];
    ghost var n: nat := 1;
    DumpedNone(x, total);
    DumpedNext(x, total, 0, shift, blob);
    while shift != 0
      invariant 1 <= n <= total && shift == 8 * (total - n)
      invariant r == blob + DumpedTo(x, total, n)
    {
      shift := (shift - 8) % TWO32;
      DumpedNext(x, total, n, shift, blob);
      n := n + 1;
      r := r + [Shr(x, shift / 8) % 0x100];
    }
    DumpedToIs(x, total, total);
    ShrNone(x);
  }

  lemma DumpedNone(x: nat, total: nat)
    ensures DumpedTo(x, total, 0) == []
  {
  }

  /** One more byte. */
  lemma DumpedNext(x: nat, total: nat, n: nat, shift: nat, blob: seq<byte>)
    requires n < total && shift == 8 * (total - (n + 1))
    ensures shift / 8 == total - (n + 1)
    ensures blob + DumpedTo(x, total, n) + [Shr(x, shift / 8) % 0x100] == blob + DumpedTo(x, total, n + 1)
  {
    hide Shr;
  }

  lemma ShrNone(x: nat)
    ensures Shr(x, 0) == x
  {
  }

  lemma {:induction false} ShrZero(n: nat)
    ensures Shr(0, n) == 0
  {
    if n > 0 {
      ShrZero(n - 1);
    }
  }

  /** `_DERLength`. */
  method AppendLength(blob: seq<byte>, length: u64) returns (r: seq<byte>)
    ensures r == blob + Length(length)
  {
    hide NumBytes, BigEndian, LeadingZeros, Zeros;
    if length < 0x80 {
      r := blob + [length];
    } else {
      var zeros := BuiltinClzll(length);
      BytesFromZeros(length, zeros);
      var bytes := (64 - zeros + 7) / 8;
      r := blob + [0x80 + bytes];
      r := DumpBytes(r, length, bytes);
      assert r == blob + ([0x80 + bytes] + BigEndian(length, bytes));
    }
  }

  /** The octets are those of section 8.1.3 of ITU-T X.690, and by section 10.1 the shortest ones: the
      short form below 128, else a count octet and that many octets, the first one not zero. */
  lemma LengthIsMinimalDefinite(n: u64)
    ensures n < 0x80 ==> Length(n) == [n]
    ensures n >= 0x80 ==>
      var s := Length(n);
      && 2 <= |s| <= 9
      && s[0] == 0x80 + (|s| - 1)
      && s[1] > 0
      && FromBig(s[1..]) == n
  {
    hide NumBytes, BigEndian, FromBig, Pow256;
    if n >= 0x80 {
      NumBytesFit(n);
      NumBytesBounds(n);
      BigRoundTrip(n, NumBytes(n));
      FirstByte(n);
      assert Length(n)[1..] == BigEndian(n, NumBytes(n));
    }
  }

  lemma NumBytesFit(n: u64)
    ensures NumBytes(n) <= 8
  {
    NumBytesBounds(n);
    if NumBytes(n) > 8 {
      Pow256Grows(8, NumBytes(n) - 1);
      assert Pow256(8) == 0x1_0000_0000_0000_0000 by { Pow256IsPow2(8); Pow2Values(); }
    }
  }

  lemma {:induction false} Pow256Grows(a: nat, b: nat)
    requires a <= b
    ensures Pow256(a) <= Pow256(b)
    decreases b - a
  {
    if a < b {
      Pow256Grows(a + 1, b);
    }
  }

  // ---------------------------------------------------------------- values

  /** What an entitlements plist holds. Dictionary entries come in key order. The source asserts that
      reals, dates and raw data do not occur. */
  datatype Value =
    | Bool(b: bool)
    | Int(v: u64)
    | Str(s: seq<byte>)
    | Arr(items: seq<Value>)
    | Dict(entries: seq<Entry>)

  datatype Entry = Entry(key: seq<byte>, value: Value)

  const TAG_BOOL: byte := 0x01
  const TAG_INT: byte := 0x02
  const TAG_UTF8: byte := 0x0c
  const TAG_SEQUENCE: byte := 0x30
  const TAG_SET: byte := 0x31

  function Encode(v: Value): (s: seq<byte>)
    ensures |s| >= 2
  {
    match v
    case Bool(b) => [TAG_BOOL, 1, if b then 1 else 0]
    case Int(n) => [TAG_INT] + Length(n) + Dumped(n)
    case Str(s) => [TAG_UTF8] + Length(|s|) + s
    case Arr(items) => [TAG_SEQUENCE] + Length(|EncodeAll(items)|) + EncodeAll(items)
    case Dict(entries) => [TAG_SET] + Length(|EncodeEntries(entries)|) + EncodeEntries(entries)
  }

  function EncodeAll(items: seq<Value>): seq<byte> {
    if items == [] then [] else Encode(items[0]) + EncodeAll(items[1..])
  }

  /** One dictionary entry. Its length counts two bytes for the key's tag and length, whatever they take. */
  function EncodeEntry(e: Entry): (s: seq<byte>)
    ensures |s| >= 2
    decreases e, 1
  {
    [TAG_SEQUENCE] + Length(2 + |e.key| + |Encode(e.value)|) + EntryBody(e)
  }

  function EntryBody(e: Entry): seq<byte>
    decreases e, 0
  {
    [TAG_UTF8] + Length(|e.key|) + e.key + Encode(e.value)
  }

  function EncodeEntries(entries: seq<Entry>): seq<byte> {
    if entries == [] then [] else EncodeEntry(entries[0]) + EncodeEntries(entries[1..])
  }

  lemma {:induction false} EncodeAllAppend(items: seq<Value>, v: Value)
    ensures EncodeAll(items + [v]) == EncodeAll(items) + Encode(v)
  {
    hide Encode;
    if items == [] {
      assert items + [v] == [v] && [v][1..] == [];
    } else {
      assert (items + [v])[1..] == items[1..] + [v];
      EncodeAllAppend(items[1..], v);
    }
  }

  lemma {:induction false} EncodeEntriesAppend(entries: seq<Entry>, e: Entry)
    ensures EncodeEntries(entries + [e]) == EncodeEntries(entries) + EncodeEntry(e)
  {
    hide EncodeEntry;
    if entries == [] {
      assert entries + [e] == [e] && [e][1..] == [];
    } else {
      assert (entries + [e])[1..] == entries[1..] + [e];
      EncodeEntriesAppend(entries[1..], e);
    }
  }

  /** A prefix of the items takes no more room than all of them, and one item no more than that. */
  lemma {:induction false} EncodeAllSize(items: seq<Value>, i: nat)
    requires i < |items|
    ensures |EncodeAll(items[..i])| + |Encode(items[i])| <= |EncodeAll(items)|
  {
    hide Encode;
    if i > 0 {
      EncodeAllSize(items[1..], i - 1);
      assert items[..i][1..] == items[1..][..i - 1];
    }
  }

  lemma {:induction false} EncodeEntriesSize(entries: seq<Entry>, i: nat)
    requires i < |entries|
    ensures |EncodeEntries(entries[..i])| + |EncodeEntry(entries[i])| <= |EncodeEntries(entries)|
  {
    hide EncodeEntry;
    if i > 0 {
      EncodeEntriesSize(entries[1..], i - 1);
      assert entries[..i][1..] == entries[1..][..i - 1];
    }
  }

  /** `_DER`. The output's size must be a 64-bit number, as every size in the source is. */
  method BuildDer(data: Value) returns (output: seq<byte>)
    requires |Encode(data)| < 0x1_0000_0000_0000_0000
    ensures output == Encode(data)
    decreases data
  {
    hide Length, Dumped, EncodeAll, EncodeEntries;
    output := [];
    match data
    case Bool(b) =>
      output := output + [TAG_BOOL];
      output := output + [1];
      output := output + [if b then 1 else 0];
    case Int(v) =>
      output := output + [TAG_INT];
      output := AppendLength(output, v);
      var zeros := BuiltinClzll(v);
      BytesFromZeros(v, zeros);
      output := DumpBytes(output, v, (64 - zeros + 7) / 8);
    case Str(s) =>
      output := output + [TAG_UTF8];
      output := AppendLength(output, |s|);
      output := output + s;
    case Arr(items) =>
      var listed := BuildItems(items);
      output := output + [TAG_SEQUENCE];
      output := AppendLength(output, |listed|);
      output := output + listed;
    case Dict(entries) =>
      var dict := BuildEntries(entries);
      output := output + [TAG_SET];
      output := AppendLength(output, |dict|);
      output := output + dict;
  }

  /** The loop over the items of an array. */
  method BuildItems(items: seq<Value>) returns (listed: seq<byte>)
    requires |EncodeAll(items)| < 0x1_0000_0000_0000_0000
    ensures listed == EncodeAll(items)
    decreases items
  {
    hide Encode;
    listed := [];
    for i := 0 to |items|
      invariant listed == EncodeAll(items[..i])
    {
      EncodeAllSize(items, i);
      assert items[..i + 1] == items[..i] + [items[i]];
      EncodeAllAppend(items[..i], items[i]);
      var one := BuildDer(items[i]);
      listed := listed + one;
    }
    assert items[..|items|] == items;
  }

  /** The loop over the keys of an object. */
  method BuildEntries(entries: seq<Entry>) returns (dict: seq<byte>)
    requires |EncodeEntries(entries)| < 0x1_0000_0000_0000_0000
    ensures dict == EncodeEntries(entries)
    decreases entries
  {
    hide Encode, Length;
    dict := [];
    for i := 0 to |entries|
      invariant dict == EncodeEntries(entries[..i])
    {
      var e := entries[i];
      EncodeEntriesSize(entries, i);
      assert entries[..i + 1] == entries[..i] + [e];
      EncodeEntriesAppend(entries[..i], e);
      var value := BuildDer(e.value);
      dict := AppendEntry(dict, e, value);
    }
    assert entries[..|entries|] == entries;
  }

  method AppendEntry(dict: seq<byte>, e: Entry, value: seq<byte>) returns (r: seq<byte>)
    requires |EncodeEntry(e)| < 0x1_0000_0000_0000_0000 && value == Encode(e.value)
    ensures r == dict + EncodeEntry(e)
  {
    hide Encode, Length;
    r := dict + [TAG_SEQUENCE];
    r := AppendLength(r, 2 + |e.key| + |value|);
    ghost var front := r;
    r := r + [TAG_UTF8];
    r := AppendLength(r, |e.key|);
    r := r + e.key;
    r := r + value;
    assert r == front + EntryBody(e);
  }

  // ---------------------------------------------------------------- decoding

  /** The definite, shortest length at the start of `s`, and how many octets it takes. */
  function ReadLength(s: seq<byte>): (r: Option<(nat, nat)>)
    ensures r.Some? ==> 1 <= r.value.1 <= |s|
  {
    if s == [] then None
    else if s[0] < 0x80 then Some((s[0] as nat, 1))
    else
      var k := s[0] - 0x80;
      if k == 0 || |s| < 1 + k || s[1] == 0 || FromBig(s[1..1 + k]) < 0x80 then None
      else Some((FromBig(s[1..1 + k]), 1 + k))
  }

  datatype Header = Header(tag: byte, body: seq<byte>, rest: seq<byte>)

  /** Tag, contents and what follows, when the contents are all there. */
  function ReadHeader(s: seq<byte>): (r: Option<Header>)
    ensures r.Some? ==> |r.value.body| + |r.value.rest| + 2 <= |s|
  {
    if s == [] then None
    else
      match ReadLength(s[1..])
      case None => None
      case Some((n, used)) =>
        var at := 1 + used;
        if |s| - at < n then None else Some(Header(s[0], s[at..at + n], s[at + n..]))
  }

  /** One value from the front of `s` and the bytes behind it; the tags are those of clause 8 of ITU-T X.690,
      a dictionary being a set of sequences of a string and a value. An integer's contents are read as an
      unsigned number of at least one byte; a boolean's are one byte, 1 for true and 0 for false. */
  function Decode(s: seq<byte>): (r: Option<(Value, seq<byte>)>)
    ensures r.Some? ==> |r.value.1| + 2 <= |s|
    decreases |s|, 0
  {
    match ReadHeader(s)
    case None => None
    case Some(h) =>
      if h.tag == 0x01 then
        if h.body == [0] || h.body == [1] then Some((Bool(h.body == [1]), h.rest)) else None
      else if h.tag == 0x02 then
        if |h.body| >= 1 && FromBig(h.body) < 0x1_0000_0000_0000_0000 then Some((Int(FromBig(h.body)), h.rest))
        else None
      else if h.tag == 0x0c then Some((Str(h.body), h.rest))
      else if h.tag == 0x30 then
        match DecodeAll(h.body)
        case None => None
        case Some(items) => Some((Arr(items), h.rest))
      else if h.tag == 0x31 then
        match DecodeEntries(h.body)
        case None => None
        case Some(entries) => Some((Dict(entries), h.rest))
      else None
  }

  function DecodeAll(s: seq<byte>): Option<seq<Value>>
    decreases |s|, 1
  {
    if s == [] then Some([])
    else
      match Decode(s)
      case None => None
      case Some((v, rest)) =>
        match DecodeAll(rest)
        case None => None
        case Some(items) => Some([v] + items)
  }

  /** Contents of one entry: a string and then exactly one value. */
  function DecodeBody(s: seq<byte>): Option<Entry>
    decreases |s|, 1
  {
    match ReadHeader(s)
    case None => None
    case Some(h) =>
      if h.tag != 0x0c then None
      else
        match Decode(h.rest)
        case None => None
        case Some((v, rest)) => if rest == [] then Some(Entry(h.body, v)) else None
  }

  function DecodeEntries(s: seq<byte>): Option<seq<Entry>>
    decreases |s|, 2
  {
    if s == [] then Some([])
    else
      match ReadHeader(s)
      case None => None
      case Some(h) =>
        if h.tag != 0x30 then None
        else
          match DecodeBody(h.body)
          case None => None
          case Some(e) =>
            match DecodeEntries(h.rest)
            case None => None
            case Some(entries) => Some([e] + entries)
  }

  // ---------------------------------------------------------------- round trip

  /** What the encoder gets right: keys below 128 bytes, and of the integers only 1, whose value
      happens to be its own byte count. */
  predicate Faithful(v: Value) {
    match v
    case Bool(_) => true
    case Int(n) => n == 1
    case Str(_) => true
    case Arr(items) => forall i :: 0 <= i < |items| ==> Faithful(items[i])
    case Dict(entries) => forall i :: 0 <= i < |entries| ==> |entries[i].key| < 0x80 && Faithful(entries[i].value)
  }

  const TWO64: int := 0x1_0000_0000_0000_0000

  lemma ReadLengthOf(n: nat, t: seq<byte>)
    requires n < TWO64
    ensures ReadLength(Length(n) + t) == Some((n, |Length(n)|))
  {
    hide NumBytes, BigEndian;
    LengthIsMinimalDefinite(n);
    var s := Length(n) + t;
    if n >= 0x80 {
      assert s[1..|Length(n)|] == Length(n)[1..];
    }
  }

  /** A length read from a piece of the encoding is the length that was written. */
  lemma ReadLengthOfPiece(n: nat, t: seq<byte>, s: seq<byte>)
    requires n < TWO64 && s <= Length(n) + t && ReadLength(s).Some?
    ensures ReadLength(s) == Some((n, |Length(n)|))
  {
    hide NumBytes, BigEndian;
    LengthIsMinimalDefinite(n);
    if n >= 0x80 {
      assert s[0] == Length(n)[0];
      assert s[1..|Length(n)|] == Length(n)[1..];
    }
  }

  /** Writing a tag, a true length and the contents is what the header reader undoes. */
  lemma ReadHeaderOf(tag: byte, body: seq<byte>, t: seq<byte>)
    requires |body| < TWO64
    ensures ReadHeader([tag] + Length(|body|) + body + t) == Some(Header(tag, body, t))
  {
    hide Length, ReadLength;
    var s := [tag] + Length(|body|) + body + t;
    assert s[1..] == Length(|body|) + (body + t);
    ReadLengthOf(|body|, body + t);
    var at := 1 + |Length(|body|)|;
    assert s[at..at + |body|] == body && s[at + |body|..] == t;
  }

  /** What an integer is written as: the length field holds its value instead of its number of bytes, and its
      bytes follow, the first one not zero; the bytes of 0 are 2^29 zeros. */
  lemma IntegerLayout(n: u64)
    ensures var s := Encode(Int(n));
            && 2 <= |s| && s[0] == 0x02
            && var length := ReadLength(s[1..]);
               && length.Some? && length.value.0 == n
               && var body := s[1 + length.value.1..];
                  if n == 0 then body == Zeros(0x2000_0000)
                  else body != [] && body[0] > 0 && FromBig(body) == n
  {
    hide NumBytes, BigEndian, Length, ReadLength, FromBig, Zeros;
    var s := Encode(Int(n));
    ReadLengthOf(n, Dumped(n));
    assert s[1..] == Length(n) + Dumped(n);
    assert s[1 + |Length(n)|..] == Dumped(n);
    if n > 0 {
      NumBytesBounds(n);
      BigRoundTrip(n, NumBytes(n));
      FirstByte(n);
    }
  }

  /** What a dictionary entry is written as: a sequence of the key and the value, whose length field counts two
      bytes for the key's tag and length whatever they take. */
  lemma EntryLayout(e: Entry)
    requires |e.key| < TWO64 && 2 + |e.key| + |Encode(e.value)| < TWO64
    ensures var s := EncodeEntry(e);
            && s[0] == 0x30
            && var length := ReadLength(s[1..]);
               && length.Some? && length.value.0 == 2 + |e.key| + |Encode(e.value)|
               && ReadHeader(s[1 + length.value.1..]) == Some(Header(0x0c, e.key, Encode(e.value)))
  {
    hide Encode, Length, ReadHeader, ReadLength;
    var s, n := EncodeEntry(e), 2 + |e.key| + |Encode(e.value)|;
    ReadLengthOf(n, EntryBody(e));
    assert s[1..] == Length(n) + EntryBody(e);
    assert s[1 + |Length(n)|..] == EntryBody(e);
    ReadHeaderOf(0x0c, e.key, Encode(e.value));
  }

  /** A header read from a piece of a tag, a length and whatever follows. */
  lemma ReadHeaderOfPiece(tag: byte, n: nat, x: seq<byte>, s: seq<byte>)
    requires n < TWO64 && s <= [tag] + Length(n) + x && ReadHeader(s).Some?
    ensures var h := ReadHeader(s).value;
            && h.tag == tag
            && |h.body| == n
            && s == [tag] + Length(n) + (h.body + h.rest)
            && h.body + h.rest <= x
  {
    hide Length, ReadLength;
    assert s[1..] <= Length(n) + x by {
      assert ([tag] + Length(n) + x)[1..] == Length(n) + x;
    }
    ReadLengthOfPiece(n, x, s[1..]);
    var h, at := ReadHeader(s).value, 1 + |Length(n)|;
    assert s[..at] == ([tag] + Length(n) + x)[..at] == [tag] + Length(n);
    assert s[at..] == h.body + h.rest;
    assert ([tag] + Length(n) + x)[at..] == x;
    assert s == s[..at] + s[at..];
  }

  /** The decoder undoes the encoder on faithful values and leaves the bytes behind. */
  lemma {:induction false} DecodeUndoes(v: Value, t: seq<byte>)
    requires Faithful(v) && |Encode(v)| < TWO64
    ensures Decode(Encode(v) + t) == Some((v, t))
    decreases v
  {
    hide Length, ReadHeader, EncodeAll, EncodeEntries, DecodeAll, DecodeEntries, FromBig, Dumped, ReadLength;
    match v
    case Bool(b) =>
      ShortLength(1);
      ReadHeaderOf(TAG_BOOL, [if b then 1 else 0], t);
      assert Encode(v) == [TAG_BOOL] + Length(1) + [if b then 1 else 0];
    case Int(n) =>
      OneAsInt();
      ReadHeaderOf(TAG_INT, [1], t);
    case Str(s) =>
      ReadHeaderOf(TAG_UTF8, s, t);
    case Arr(items) =>
      ReadHeaderOf(TAG_SEQUENCE, EncodeAll(items), t);
      DecodeAllUndoes(items);
    case Dict(entries) =>
      ReadHeaderOf(TAG_SET, EncodeEntries(entries), t);
      DecodeEntriesUndoes(entries);
  }

  lemma ShortLength(n: nat)
    requires n < 0x80
    ensures Length(n) == [n]
  {
  }

  lemma OneAsInt()
    ensures Dumped(1) == [1] && FromBig([1]) == 1
  {
  }

  lemma {:induction false} DecodeAllUndoes(items: seq<Value>)
    requires forall i :: 0 <= i < |items| ==> Faithful(items[i])
    requires |EncodeAll(items)| < TWO64
    ensures DecodeAll(EncodeAll(items)) == Some(items)
    decreases items
  {
    hide Encode, Decode, Faithful;
    if items != [] {
      DecodeUndoes(items[0], EncodeAll(items[1..]));
      DecodeAllUndoes(items[1..]);
      assert items == [items[0]] + items[1..];
    }
  }

  lemma {:induction false} DecodeEntriesUndoes(entries: seq<Entry>)
    requires forall i :: 0 <= i < |entries| ==> |entries[i].key| < 0x80 && Faithful(entries[i].value)
    requires |EncodeEntries(entries)| < TWO64
    ensures DecodeEntries(EncodeEntries(entries)) == Some(entries)
    decreases entries
  {
    hide Encode, Decode, Faithful, Length, ReadHeader, ReadLength, EntryBody, DecodeBody;
    if entries != [] {
      var e, more := entries[0], EncodeEntries(entries[1..]);
      DecodeBodyUndoes(e);
      assert EncodeEntries(entries) == [TAG_SEQUENCE] + Length(|EntryBody(e)|) + EntryBody(e) + more;
      ReadHeaderOf(TAG_SEQUENCE, EntryBody(e), more);
      DecodeEntriesUndoes(entries[1..]);
      assert entries == [e] + entries[1..];
    }
  }

  lemma {:induction false} DecodeBodyUndoes(e: Entry)
    requires |e.key| < 0x80 && Faithful(e.value) && |EntryBody(e)| < TWO64
    ensures |EntryBody(e)| == 2 + |e.key| + |Encode(e.value)|
    ensures DecodeBody(EntryBody(e)) == Some(e)
    decreases e
  {
    hide Encode, Decode, Faithful, Length, ReadHeader, ReadLength;
    ShortLength(|e.key|);
    ReadHeaderOf(TAG_UTF8, e.key, Encode(e.value));
    DecodeUndoes(e.value, []);
    assert Encode(e.value) + [] == Encode(e.value);
  }

  /** When the decoder gets a value back from a piece of its encoding (with anything behind it), the
      value is faithful and the piece is its whole encoding. */
  lemma {:induction false} OnlyFaithfulDecodes(v: Value, t: seq<byte>, s: seq<byte>, r: seq<byte>)
    requires |Encode(v)| < TWO64
    requires s <= Encode(v) + t && Decode(s) == Some((v, r))
    ensures Faithful(v) && s == Encode(v) + r
    decreases v, 1
  {
    hide Length, ReadHeader, EncodeAll, EncodeEntries, DecodeAll, DecodeEntries, FromBig, Dumped, ReadLength;
    var h := ReadHeader(s).value;
    match v
    case Bool(b) => BoolPiece(b, t, s);
    case Int(n) => IntPiece(n, t, s);
    case Str(c) =>
      assert Encode(v) + t == [TAG_UTF8] + Length(|c|) + (c + t);
      ReadHeaderOfPiece(TAG_UTF8, |c|, c + t, s);
      Front(c, t, h.body, h.rest);
    case Arr(items) =>
      var c := EncodeAll(items);
      assert Encode(v) + t == [TAG_SEQUENCE] + Length(|c|) + (c + t);
      ReadHeaderOfPiece(TAG_SEQUENCE, |c|, c + t, s);
      Front(c, t, h.body, h.rest);
      OnlyFaithfulItems(items);
    case Dict(entries) =>
      var c := EncodeEntries(entries);
      assert Encode(v) + t == [TAG_SET] + Length(|c|) + (c + t);
      ReadHeaderOfPiece(TAG_SET, |c|, c + t, s);
      Front(c, t, h.body, h.rest);
      OnlyFaithfulEntries(entries);
  }

  lemma BoolPiece(b: bool, t: seq<byte>, s: seq<byte>)
    requires s <= Encode(Bool(b)) + t && Decode(s).Some? && Decode(s).value.0 == Bool(b)
    ensures s == Encode(Bool(b)) + Decode(s).value.1
  {
    hide Length, ReadHeader, ReadLength, DecodeAll, DecodeEntries, FromBig;
    var h := ReadHeader(s).value;
    ShortLength(1);
    assert Encode(Bool(b)) + t == [TAG_BOOL] + Length(1) + ([if b then 1 else 0] + t);
    ReadHeaderOfPiece(TAG_BOOL, 1, [if b then 1 else 0] + t, s);
    Front([if b then 1 else 0], t, h.body, h.rest);
  }

  lemma IntPiece(n: u64, t: seq<byte>, s: seq<byte>)
    requires |Encode(Int(n))| < TWO64
    requires s <= Encode(Int(n)) + t && Decode(s).Some? && Decode(s).value.0 == Int(n)
    ensures Faithful(Int(n)) && s == Encode(Int(n)) + Decode(s).value.1
  {
    hide Length, ReadHeader, ReadLength, DecodeAll, DecodeEntries, FromBig, Dumped;
    var h := ReadHeader(s).value;
    assert Encode(Int(n)) + t == [TAG_INT] + Length(n) + (Dumped(n) + t);
    ReadHeaderOfPiece(TAG_INT, n, Dumped(n) + t, s);
    OnlyOne(n, t, h.body, h.rest);
  }

  lemma Front(c: seq<byte>, t: seq<byte>, body: seq<byte>, rest: seq<byte>)
    requires |body| == |c| && body + rest <= c + t
    ensures body == c
  {
    assert body == (body + rest)[..|c|] == (c + t)[..|c|] == c;
  }

  lemma OnlyOne(n: u64, t: seq<byte>, body: seq<byte>, rest: seq<byte>)
    requires |body| == n && body + rest <= Dumped(n) + t && 1 <= |body| && FromBig(body) == n
    ensures n == 1 && body == Dumped(n)
  {
    hide FromBig, NumBytes, BigEndian;
    var k := NumBytes(n);
    NumBytesBounds(n);
    AtMostItself(n);
    assert body[..k] == (body + rest)[..k] == (Dumped(n) + t)[..k] == Dumped(n);
    var tail := body[k..];
    assert body == body[..k] + tail;
    FromBigAppend(body[..k], tail);
    BigRoundTrip(n, k);
    if |tail| > 0 {
      Grows(n, |tail|);
    }
    assert tail == [];
  }

  lemma AtMostItself(n: nat)
    requires 0 < n
    ensures NumBytes(n) <= n && (NumBytes(n) == n ==> n == 1)
  {
  }

  lemma Grows(n: nat, k: nat)
    requires 0 < n && 0 < k
    ensures n < n * Pow256(k)
  {
  }

  lemma {:induction false} OnlyFaithfulItems(items: seq<Value>)
    requires |EncodeAll(items)| < TWO64 && DecodeAll(EncodeAll(items)) == Some(items)
    ensures forall i :: 0 <= i < |items| ==> Faithful(items[i])
    decreases items, 0
  {
    hide Encode, Decode, Faithful;
    if items != [] {
      var s, t := EncodeAll(items), EncodeAll(items[1..]);
      var (v, rest) := Decode(s).value;
      assert items == [v] + DecodeAll(rest).value;
      OnlyFaithfulDecodes(items[0], t, s, rest);
      SamePieces(Encode(items[0]), rest, Encode(items[0]), t);
      OnlyFaithfulItems(items[1..]);
    }
  }

  lemma {:induction false} OnlyFaithfulEntries(entries: seq<Entry>)
    requires |EncodeEntries(entries)| < TWO64 && DecodeEntries(EncodeEntries(entries)) == Some(entries)
    ensures forall i :: 0 <= i < |entries| ==> |entries[i].key| < 0x80 && Faithful(entries[i].value)
    decreases entries, 0
  {
    hide Encode, Decode, Faithful, Length, ReadHeader, ReadLength, EntryBody, DecodeBody;
    if entries != [] {
      var s, more, e := EncodeEntries(entries), EncodeEntries(entries[1..]), entries[0];
      var n := 2 + |e.key| + |Encode(e.value)|;
      assert s == [TAG_SEQUENCE] + Length(n) + (EntryBody(e) + more);
      EntryBodySize(e);
      var h := ReadHeader(s).value;
      ReadHeaderOfPiece(TAG_SEQUENCE, n, EntryBody(e) + more, s);
      assert entries == [DecodeBody(h.body).value] + DecodeEntries(h.rest).value;
      OnlyFaithfulBody(e, more, h.body);
      assert |h.body + h.rest| == |EntryBody(e) + more|;
      SamePieces(h.body, h.rest, EntryBody(e), more);
      OnlyFaithfulEntries(entries[1..]);
    }
  }

  lemma SamePieces(a: seq<byte>, b: seq<byte>, c: seq<byte>, d: seq<byte>)
    requires a + b <= c + d && |a + b| == |c + d| && a == c
    ensures b == d
  {
    assert (a + b)[|a|..] == b && (c + d)[|a|..] == d;
  }

  lemma EntryBodySize(e: Entry)
    ensures |EntryBody(e)| == 1 + |Length(|e.key|)| + |e.key| + |Encode(e.value)|
  {
  }

  lemma {:induction false} OnlyFaithfulBody(e: Entry, more: seq<byte>, body: seq<byte>)
    requires |EntryBody(e)| < TWO64
    requires body <= EntryBody(e) + more && |body| == 2 + |e.key| + |Encode(e.value)|
    requires DecodeBody(body) == Some(e)
    ensures |e.key| < 0x80 && Faithful(e.value) && body == EntryBody(e)
    decreases e, 0
  {
    hide Encode, Decode, Faithful, Length, ReadHeader, ReadLength;
    EntryBodySize(e);
    var x := e.key + (Encode(e.value) + more);
    assert EntryBody(e) + more == [TAG_UTF8] + Length(|e.key|) + x;
    ReadHeaderOfPiece(TAG_UTF8, |e.key|, x, body);
    var h := ReadHeader(body).value;
    assert h.rest <= Encode(e.value) + more by {
      assert h.rest == (h.body + h.rest)[|e.key|..];
      assert x[|e.key|..] == Encode(e.value) + more;
    }
    OnlyFaithfulDecodes(e.value, more, h.rest, []);
    LongKeyLength(|e.key|);
  }

  lemma LongKeyLength(n: nat)
    ensures |Length(n)| == 1 ==> n < 0x80
  {
  }

  /** The encoding of a value can be decoded to that value, consuming exactly the bytes written,
      exactly when the value has no integer but 1 and no key of 128 bytes or more. */
  lemma RoundTrip(v: Value, t: seq<byte>)
    requires |Encode(v)| < TWO64
    ensures Decode(Encode(v) + t) == Some((v, t)) <==> Faithful(v)
  {
    hide Encode, Decode, Faithful;
    if Faithful(v) {
      DecodeUndoes(v, t);
    }
    if Decode(Encode(v) + t) == Some((v, t)) {
      OnlyFaithfulDecodes(v, t, Encode(v) + t, t);
    }
  }

  /** Entitlements such as `{"count": 2}` are not recovered: the length octet says two bytes, one
      follows. */
  lemma IntegerTwoIsLost()
    ensures Encode(Int(2)) == [TAG_INT, 2, 2]
    ensures Decode(Encode(Int(2))) == None
  {
  }
}
