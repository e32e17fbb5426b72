/** The mirror stream's wire format: a 24-byte little-endian header before every payload. The receiver
    here is written from the documented layout; it is what the format has to satisfy. */
module MirrorProtocol {
  import opened Bytes

  const MAGIC: u32 := 0x564d_4345
  const HEADER_SIZE := 24
  const DESCRIPTOR_SIZE := 8
  const PCM_S16LE_INTERLEAVED: byte := 1

  datatype PacketType = Config | Keyframe | Frame | Meta | Audio

  function Raw(kind: PacketType): byte {
    match kind
    case Config => 0
    case Keyframe => 1
    case Frame => 2
    case Meta => 3
    case Audio => 4
  }

  function KindOf(raw: byte): (kind: Option<PacketType>)
    ensures forall k :: kind == Some(k) <==> Raw(k) == raw
  {
    match raw
    case 0 => Some(Config)
    case 1 => Some(Keyframe)
    case 2 => Some(Frame)
    case 3 => Some(Meta)
    case 4 => Some(Audio)
    case _ => None
  }

  datatype Header = Header(kind: PacketType, flags: byte, width: u16, height: u16, timestamp: u64, length: u32)

  function Encoded(h: Header): (b: seq<byte>)
    ensures |b| == HEADER_SIZE
  {
    LE32(MAGIC) + [Raw(h.kind), h.flags] + LE16(0) + LE16(h.width) + LE16(h.height) + LE64(h.timestamp) + LE32(h.length)
  }

  /** `Header.encoded`: the fields appended one by one. */
  method EncodeHeader(h: Header) returns (data: seq<byte>)
    ensures data == Encoded(h)
  {
    data := [];
    data := data + LE32(MAGIC);
    data := data + [Raw(h.kind)];
    data := data + [h.flags];
    data := data + LE16(0);
    data := data + LE16(h.width);
    data := data + LE16(h.height);
    data := data + LE64(h.timestamp);
    data := data + LE32(h.length);
    assert [Raw(h.kind)] + [h.flags] == [Raw(h.kind), h.flags];
  }

  /** The documented header at the front of `b`, if it is one. */
  function ReadHeader(b: seq<byte>): Option<Header>
    requires HEADER_SIZE <= |b|
  {
    if U32At(b, 0) == MAGIC && KindOf(b[4]).Some? && U16At(b, 6) == 0 then
      Some(Header(KindOf(b[4]).value, b[5], U16At(b, 8), U16At(b, 10), U64At(b, 12), U32At(b, 20)))
    else None
  }

  lemma HeaderRoundTrip(h: Header, tail: seq<byte>)
    ensures ReadHeader(Encoded(h) + tail) == Some(h)
  {
    hide U32At, U64At, U16At, LE16, LE32, LE64;
    var b := Encoded(h) + tail;
    assert b[0..4] == LE32(MAGIC) && b[4] == Raw(h.kind) && b[5] == h.flags && b[6..8] == LE16(0);
    assert b[8..10] == LE16(h.width) && b[10..12] == LE16(h.height);
    assert b[12..20] == LE64(h.timestamp) && b[20..24] == LE32(h.length);
    LE32RoundTrip(b, 0, MAGIC);
    LE16RoundTrip(b, 6, 0);
    LE16RoundTrip(b, 8, h.width);
    LE16RoundTrip(b, 10, h.height);
    LE64RoundTrip(b, 12, h.timestamp);
    LE32RoundTrip(b, 20, h.length);
  }

  /** The bytes in front: the magic, the number of the kind, the flags, two zeros. */
  lemma HeaderBytes(h: Header)
    ensures var b := Encoded(h);
            && b[..4] == Ascii("ECMV")
            && b[4] == (match h.kind case Config => 0 case Keyframe => 1 case Frame => 2 case Meta => 3 case Audio => 4)
            && b[5] == h.flags && b[6] == b[7] == 0
  {
    var text := "ECMV";
    assert |text| == 4;
  }

  /** Only the first 24 bytes matter. */
  lemma HeaderIsLocal(a: seq<byte>, b: seq<byte>)
    requires HEADER_SIZE <= |a|
    ensures ReadHeader(a + b) == ReadHeader(a)
  {
  }

  // ---------------------------------------------------------------- packets

  datatype Packet = Packet(kind: PacketType, flags: byte, width: u16, height: u16, timestamp: u64, payload: seq<byte>)

  /** `UInt16(clamping:)`. */
  function Clamped(v: int): (r: u16)
    ensures 0 <= v < 0x1_0000 ==> r == v
    ensures v < 0 ==> r == 0
    ensures 0x1_0000 <= v ==> r == 0xffff
  {
    if v < 0 then 0 else if v > 0xffff then 0xffff else v
  }

  /** A payload whose length the header can carry; the sender traps on a longer one. */
  predicate Sendable(p: Packet) {
    |p.payload| < TWO32
  }

  function HeaderOf(p: Packet): Header
    requires Sendable(p)
  {
    Header(p.kind, p.flags, p.width, p.height, p.timestamp, |p.payload|)
  }

  function Wire(p: Packet): (b: seq<byte>)
    requires Sendable(p)
    ensures |b| == HEADER_SIZE + |p.payload|
  {
    Encoded(HeaderOf(p)) + p.payload
  }

  function Stream(ps: seq<Packet>): seq<byte>
    requires forall p :: p in ps ==> Sendable(p)
  {
    if ps == [] then [] else Wire(ps[0]) + Stream(ps[1..])
  }

  // ---------------------------------------------------------------- the receiver

  /** Packets complete in the buffer, and what is left of it. A front that is no header stays. */
  function Receive(b: seq<byte>): (r: (seq<Packet>, seq<byte>))
    decreases |b|
  {
    if |b| < HEADER_SIZE then ([], b)
    else
      match ReadHeader(b)
      case None => ([], b)
      case Some(h) =>
        if |b| < HEADER_SIZE + h.length then ([], b)
        else
          var rest := Receive(b[HEADER_SIZE + h.length..]);
          ([Packet(h.kind, h.flags, h.width, h.height, h.timestamp, b[HEADER_SIZE..HEADER_SIZE + h.length])]
            + rest.0, rest.1)
  }

  datatype Receiver = Receiver(buffer: seq<byte>, got: seq<Packet>)

  function Feed(r: Receiver, chunk: seq<byte>): Receiver {
    var next := Receive(r.buffer + chunk);
    Receiver(next.1, r.got + next.0)
  }

  function FeedAll(r: Receiver, chunks: seq<seq<byte>>): Receiver
    decreases |chunks|
  {
    if chunks == [] then r else FeedAll(Feed(r, chunks[0]), chunks[1..])
  }

  /** Receiving in two portions is receiving at once. */
  lemma {:induction false} ReceiveMore(a: seq<byte>, b: seq<byte>)
    ensures var first := Receive(a);
            var second := Receive(first.1 + b);
            Receive(a + b) == (first.0 + second.0, second.1)
    decreases |a|
  {
    hide ReadHeader, U32At, U64At, Receive;
    FirstPacket(a);
    FirstPacket(a + b);
    if PacketInFront(a) {
      HeaderIsLocal(a, b);
      var n := HEADER_SIZE + ReadHeader(a).value.length;
      assert (a + b)[n..] == a[n..] + b;
      assert (a + b)[HEADER_SIZE..n] == a[HEADER_SIZE..n];
      ReceiveMore(a[n..], b);
      var more := Receive(Receive(a).1 + b).0;
      assert [Receive(a).0[0]] + Receive(a[n..]).0 + more == [Receive(a).0[0]] + (Receive(a[n..]).0 + more);
    } else {
      assert [] + Receive(a + b).0 == Receive(a + b).0;
    }
  }

  /** A whole packet stands in front. */
  predicate PacketInFront(b: seq<byte>) {
    HEADER_SIZE <= |b| && ReadHeader(b).Some? && HEADER_SIZE + ReadHeader(b).value.length <= |b|
  }

  lemma FirstPacket(b: seq<byte>)
    ensures !PacketInFront(b) ==> Receive(b) == ([], b)
    ensures PacketInFront(b) ==>
      var h := ReadHeader(b).value;
      var rest := Receive(b[HEADER_SIZE + h.length..]);
      && Receive(b).0
           == [Packet(h.kind, h.flags, h.width, h.height, h.timestamp, b[HEADER_SIZE..HEADER_SIZE + h.length])] + rest.0
      && Receive(b).1 == rest.1
  {
    hide ReadHeader;
  }

  lemma ReceivePacket(p: Packet, tail: seq<byte>)
    requires Sendable(p)
    ensures Receive(Wire(p) + tail) == ([p] + Receive(tail).0, Receive(tail).1)
  {
    hide ReadHeader, Encoded;
    var b := Wire(p) + tail;
    assert b == Encoded(HeaderOf(p)) + (p.payload + tail);
    HeaderRoundTrip(HeaderOf(p), p.payload + tail);
    assert b[HEADER_SIZE..|Wire(p)|] == p.payload && b[|Wire(p)|..] == tail;
  }

  lemma NothingReceived()
    ensures Receive([]) == ([], [])
  {
  }

  lemma {:induction false} ReceiveStream(ps: seq<Packet>)
    requires forall p :: p in ps ==> Sendable(p)
    ensures Receive(Stream(ps)) == (ps, [])
  {
    hide Receive, Wire;
    if ps == [] {
      NothingReceived();
    } else {
      ReceivePacket(ps[0], Stream(ps[1..]));
      ReceiveStream(ps[1..]);
      assert [ps[0]] + ps[1..] == ps;
    }
  }

  /** However the bytes are cut up, the receiver ends where it would with all of them at once. */
  lemma {:induction false} ChunkingIsIrrelevant(r: Receiver, chunks: seq<seq<byte>>)
    requires Receive(r.buffer) == ([], r.buffer)
    ensures var whole := Receive(r.buffer + Flatten(chunks));
            FeedAll(r, chunks) == Receiver(whole.1, r.got + whole.0)
    decreases |chunks|
  {
    hide Receive;
    if chunks == [] {
      assert r.buffer + Flatten(chunks) == r.buffer;
    } else {
      var next := Feed(r, chunks[0]);
      ReceiveMore(r.buffer + chunks[0], []);
      ReceiveMore(r.buffer + chunks[0], Flatten(chunks[1..]));
      Settled(r.buffer + chunks[0]);
      ChunkingIsIrrelevant(next, chunks[1..]);
      assert r.buffer + Flatten(chunks) == r.buffer + chunks[0] + Flatten(chunks[1..]);
    }
  }

  /** Nothing complete is left behind. */
  lemma {:induction false} Settled(b: seq<byte>)
    ensures Receive(Receive(b).1) == ([], Receive(b).1)
    decreases |b|
  {
    hide ReadHeader, U32At, U64At;
    if |b| >= HEADER_SIZE {
      var h := ReadHeader(b);
      if h.Some? && HEADER_SIZE + h.value.length <= |b| {
        Settled(b[HEADER_SIZE + h.value.length..]);
      }
    }
  }

  /** Framing: any packets, sent one after the other and cut into any chunks, arrive unchanged with
      nothing left over. */
  lemma FramingRoundTrip(ps: seq<Packet>, chunks: seq<seq<byte>>)
    requires forall p :: p in ps ==> Sendable(p)
    requires Flatten(chunks) == Stream(ps)
    ensures FeedAll(Receiver([], []), chunks) == Receiver([], ps)
  {
    hide Receive, Stream;
    NothingReceived();
    ChunkingIsIrrelevant(Receiver([], []), chunks);
    ReceiveStream(ps);
    assert [] + Flatten(chunks) == Stream(ps);
  }

  /** At any moment on the way, the packets delivered are the first of those sent. */
  lemma DeliveredIsPrefix(ps: seq<Packet>, chunks: seq<seq<byte>>)
    requires forall p :: p in ps ==> Sendable(p)
    requires Flatten(chunks) <= Stream(ps)
    ensures FeedAll(Receiver([], []), chunks).got <= ps
  {
    hide Receive, Stream;
    var rest := Stream(ps)[|Flatten(chunks)|..];
    NothingReceived();
    ChunkingIsIrrelevant(Receiver([], []), chunks);
    ReceiveStream(ps);
    ReceiveMore(Flatten(chunks), rest);
    assert [] + Flatten(chunks) == Flatten(chunks);
    assert Flatten(chunks) + rest == Stream(ps);
  }

  // ---------------------------------------------------------------- the audio descriptor

  datatype AudioDescriptor = AudioDescriptor(sampleRate: u32, channels: u16, format: byte)

  function EncodedDescriptor(d: AudioDescriptor): (b: seq<byte>)
    ensures |b| == DESCRIPTOR_SIZE
  {
    LE32(d.sampleRate) + LE16(d.channels) + [d.format, 0]
  }

  /** `AudioDescriptor.encoded`. */
  method EncodeDescriptor(d: AudioDescriptor) returns (data: seq<byte>)
    ensures data == EncodedDescriptor(d)
  {
    data := [];
    data := data + LE32(d.sampleRate);
    data := data + LE16(d.channels);
    data := data + [d.format];
    data := data + [0];
    assert [d.format] + [0] == [d.format, 0];
  }

  function ReadDescriptor(b: seq<byte>): AudioDescriptor
    requires DESCRIPTOR_SIZE <= |b|
  {
    AudioDescriptor(U32At(b, 0), U16At(b, 4), b[6])
  }

  lemma DescriptorRoundTrip(d: AudioDescriptor, tail: seq<byte>)
    ensures ReadDescriptor(EncodedDescriptor(d) + tail) == d && EncodedDescriptor(d)[7] == 0
  {
    hide U32At, U16At, LE16, LE32;
    var b := EncodedDescriptor(d) + tail;
    assert b[0..4] == LE32(d.sampleRate) && b[4..6] == LE16(d.channels) && b[6] == d.format;
    LE32RoundTrip(b, 0, d.sampleRate);
    LE16RoundTrip(b, 4, d.channels);
  }
}
