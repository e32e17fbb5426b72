/** Turning the buffers of an audio sample into the payload of an audio packet: 16-bit samples,
    interleaved. Floating-point samples are real numbers or not finite. */
module Audio {
  import opened Bytes
  import opened MirrorProtocol

  type i16 = x: int | -0x8000 <= x < 0x8000

  datatype Sample = Float(level: real) | NotFinite | Integer(value: i16)

  /** One buffer of the list: its samples, if it points to any, and its size in bytes. */
  datatype Buffer = Buffer(data: Option<seq<Sample>>, byteSize: nat)

  datatype Format = Format(channels: nat, sampleRate: real, bitsPerChannel: nat,
                           isFloat: bool, isBigEndian: bool, isInterleaved: bool)

  // ---------------------------------------------------------------- one sample

  function Truncated(v: real): int {
    if v >= 0.0 then v.Floor else -((-v).Floor)
  }

  /** `clampToInt16`. */
  function Clamped16(v: real): i16 {
    var scaled := v * 32767.0;
    if scaled >= 32767.0 then 32767
    else if scaled <= -32768.0 then -32768
    else Truncated(scaled)
  }

  function Converted(s: Sample): i16 {
    match s
    case Float(v) => Clamped16(v)
    case NotFinite => 0
    case Integer(v) => v
  }

  /** The result is the scaled value brought into range and cut off towards zero, and louder never
      becomes quieter. */
  lemma ClampMeaning(v: real, w: real)
    ensures var r, x := Clamped16(v), v * 32767.0;
            && (-32768.0 < x < 32767.0 ==> if x >= 0.0 then 0.0 <= x - r as real < 1.0 else 0.0 <= r as real - x < 1.0)
            && (x >= 32767.0 <==> r == 32767)
            && (r == -32768 <==> x <= -32768.0)
            && (v >= 0.0 ==> r >= 0) && (v <= 0.0 ==> r <= 0)
    ensures v <= w ==> Clamped16(v) <= Clamped16(w)
  {
  }

  /** `r` stands for the sample: a 16-bit sample for itself, one that is not finite for silence, and a level for 32767
      times it, brought into range and cut off towards zero. */
  predicate StandsFor(r: int, s: Sample) {
    match s
    case Integer(v) => r == v
    case NotFinite => r == 0
    case Float(v) =>
      var x := v * 32767.0;
      if x >= 32767.0 then r == 32767
      else if x <= -32768.0 then r == -32768
      else if x >= 0.0 then 0.0 <= x - r as real < 1.0
      else 0.0 <= r as real - x < 1.0
  }

  lemma ConvertedStands(s: Sample)
    ensures StandsFor(Converted(s), s)
  {
    if s.Float? {
      ClampMeaning(s.level, s.level);
    }
  }

  // ---------------------------------------------------------------- positions

  function At(frame: nat, plane: nat, planes: nat): nat {
    frame * planes + plane
  }

  function FrameOf(k: nat, planes: nat): nat
    requires 0 < planes
  {
    k / planes
  }

  function PlaneOf(k: nat, planes: nat): (p: nat)
    requires 0 < planes
    ensures p < planes
  {
    k % planes
  }

  /** Frame and plane, and the position in the interleaved samples, determine each other. */
  lemma Positions(frame: nat, plane: nat, planes: nat, k: nat)
    requires plane < planes
    ensures FrameOf(At(frame, plane, planes), planes) == frame && PlaneOf(At(frame, plane, planes), planes) == plane
    ensures At(FrameOf(k, planes), PlaneOf(k, planes), planes) == k
  {
    var at := frame * planes + plane;
    Quotient(at, planes, frame, plane);
  }

  lemma Quotient(k: nat, n: nat, q: nat, r: nat)
    requires r < n && k == q * n + r
    ensures k / n == q && k % n == r
  {
    assert n * (k / n) + k % n == k;
    assert n * (k / n - q) == r - k % n;
    Multiple(n, k / n - q);
  }

  lemma Multiple(n: int, d: int)
    requires n >= 0
    ensures d > 0 ==> n * d >= n
    ensures d < 0 ==> n * d <= -n
  {
  }

  lemma InRange(frame: nat, plane: nat, planes: nat, frames: nat)
    requires plane < planes && frame < frames
    ensures At(frame, plane, planes) < frames * planes
  {
    assert (frame + 1) * planes <= frames * planes;
  }

  // ---------------------------------------------------------------- the conversion

  /** A plane that is present and long enough. */
  predicate Usable(b: Buffer, frames: nat) {
    b.data.Some? && frames <= |b.data.value|
  }

  function PlaneSample(b: Buffer, frame: nat, frames: nat): i16
    requires frame < frames
  {
    if Usable(b, frames) then Converted(b.data.value[frame]) else 0
  }

  /** Sample `k` of the interleaved planes. */
  function Mixed(buffers: seq<Buffer>, planes: nat, frames: nat, k: nat): i16
    requires 0 < planes <= |buffers|
  {
    if FrameOf(k, planes) < frames then PlaneSample(buffers[PlaneOf(k, planes)], FrameOf(k, planes), frames) else 0
  }

  /** The inner loop of the planar branch. */
  method CopyPlane(output: array<i16>, buffers: seq<Buffer>, plane: nat, planes: nat, frames: nat)
    requires plane < planes <= |buffers| && output.Length == frames * planes
    requires Usable(buffers[plane], frames)
    modifies output
    ensures forall k :: 0 <= k < output.Length ==>
      output[k] == if PlaneOf(k, planes) == plane then Mixed(buffers, planes, frames, k) else old(output[k])
  {
    hide At, FrameOf, PlaneOf, Converted;
    var source := buffers[plane].data.value;
    forall k | 0 <= k < output.Length ensures At(FrameOf(k, planes), PlaneOf(k, planes), planes) == k {
      Positions(0, plane, planes, k);
    }
    for frame := 0 to frames
      invariant forall k :: 0 <= k < output.Length ==>
        output[k] == if PlaneOf(k, planes) == plane && FrameOf(k, planes) < frame then Mixed(buffers, planes, frames, k)
                     else old(output[k])
    {
      Positions(frame, plane, planes, 0);
      InRange(frame, plane, planes, frames);
      output[At(frame, plane, planes)] := Converted(source[frame]);
    }
    forall k | 0 <= k < output.Length ensures FrameOf(k, planes) < frames {
      FrameInRange(k, planes, frames);
    }
  }

  lemma FrameInRange(k: nat, planes: nat, frames: nat)
    requires 0 < planes && k < frames * planes
    ensures FrameOf(k, planes) < frames
  {
  }

  function MixedAll(buffers: seq<Buffer>, planes: nat, frames: nat): (r: seq<i16>)
    requires 0 < planes <= |buffers|
    ensures |r| == frames * planes
  {
    seq(frames * planes, k requires 0 <= k < frames * planes => Mixed(buffers, planes, frames, k))
  }

  /** The planar branch: planes that are missing or too short stay zero. */
  method Interleave(buffers: seq<Buffer>, planes: nat, frames: nat, bytesPerSample: nat) returns (r: seq<i16>)
    requires 0 < planes <= |buffers| && AllWhole(buffers, bytesPerSample)
    ensures r == MixedAll(buffers, planes, frames)
  {
    hide FrameOf, PlaneOf, Converted;
    var output := new i16[frames * planes](_ => 0);
    for plane := 0 to planes
      invariant forall k :: 0 <= k < output.Length ==>
        output[k] == if PlaneOf(k, planes) < plane then Mixed(buffers, planes, frames, k) else 0
    {
      assert Whole(buffers[plane], bytesPerSample);
      if !(buffers[plane].data.Some? && buffers[plane].byteSize / bytesPerSample >= frames) {
        continue;
      }
      CopyPlane(output, buffers, plane, planes, frames);
    }
    r := output[..];
  }

  // ---------------------------------------------------------------- the payload

  function BytesPerSample(f: Format): nat {
    f.bitsPerChannel / 8
  }

  /** The buffer's samples are what its size says. */
  predicate Whole(b: Buffer, bytesPerSample: nat) {
    bytesPerSample > 0 && (b.data.Some? ==> |b.data.value| == b.byteSize / bytesPerSample)
  }

  predicate AllWhole(buffers: seq<Buffer>, bytesPerSample: nat) {
    bytesPerSample > 0 && forall i :: 0 <= i < |buffers| ==> Whole(buffers[i], bytesPerSample)
  }

  predicate Accepted(f: Format) {
    f.channels > 0 && !f.isBigEndian && BytesPerSample(f) == if f.isFloat then 4 else 2
  }

  function ConvertedAll(source: seq<Sample>): (r: seq<i16>)
    ensures |r| == |source|
    ensures forall i :: 0 <= i < |r| ==> r[i] == Converted(source[i])
  {
    seq(|source|, i requires 0 <= i < |source| => Converted(source[i]))
  }

  /** The loops of the interleaved branch. */
  method ConvertAll(source: seq<Sample>) returns (r: seq<i16>)
    ensures r == ConvertedAll(source)
  {
    hide Converted;
    var interleaved := new i16[|source|](_ => 0);
    for index := 0 to |source|
      invariant forall k :: 0 <= k < index ==> interleaved[k] == Converted(source[k])
    {
      interleaved[index] := Converted(source[index]);
    }
    r := interleaved[..];
  }

  datatype Pcm = Pcm(channels: nat, samples: seq<i16>)

  /** What is to be sent for the buffers, if anything. */
  function PcmOf(f: Format, buffers: seq<Buffer>): Option<Pcm> {
    if !Accepted(f) || |buffers| == 0 then None
    else
      var frames := buffers[0].byteSize / BytesPerSample(f);
      if f.isInterleaved then
        if buffers[0].data.None? || frames < f.channels then None
        else
          var data := buffers[0].data.value;
          Some(Pcm(f.channels, seq(|data|, i requires 0 <= i < |data| => Converted(data[i]))))
      else if frames == 0 then None
      else
        var planes := if f.channels < |buffers| then f.channels else |buffers|;
        Some(Pcm(planes, MixedAll(buffers, planes, frames)))
  }

  function Word16(v: i16): u16 {
    if v < 0 then v + 0x1_0000 else v
  }

  function Signed16(v: u16): i16 {
    if v < 0x8000 then v else v - 0x1_0000
  }

  function SampleBytes(samples: seq<i16>): (b: seq<byte>)
    ensures |b| == 2 * |samples|
  {
    if samples == [] then [] else LE16(Word16(samples[0])) + SampleBytes(samples[1..])
  }

  /** Sample rates of at least one and what fits 32 bits; the sender traps on others. */
  function Rate(f: Format): u32
    requires f.sampleRate < TWO32 as real
  {
    if f.sampleRate < 1.0 then 1 else f.sampleRate.Floor
  }

  function Payload(f: Format, pcm: Pcm): seq<byte>
    requires f.sampleRate < TWO32 as real && pcm.channels < 0x1_0000
  {
    EncodedDescriptor(AudioDescriptor(Rate(f), if pcm.channels < 1 then 1 else pcm.channels, PCM_S16LE_INTERLEAVED))
    + SampleBytes(pcm.samples)
  }

  /** `pcmS16` behind the format query. */
  method PcmS16(f: Format, buffers: seq<Buffer>) returns (payload: Option<seq<byte>>)
    requires f.sampleRate < TWO32 as real && f.channels < 0x1_0000
    requires Accepted(f) ==> AllWhole(buffers, BytesPerSample(f))
    ensures payload == match PcmOf(f, buffers) case None => None case Some(pcm) => Some(Payload(f, pcm))
  {
    hide MixedAll, ConvertedAll, LE16, LE32, SampleBytes, EncodedDescriptor;
    if !(f.channels > 0) {
      return None;
    }
    var bytesPerSample := f.bitsPerChannel / 8;
    if f.isBigEndian || !(if f.isFloat then bytesPerSample == 4 else bytesPerSample == 2) {
      return None;
    }
    if |buffers| == 0 {
      return None;
    }
    var interleaved: seq<i16> := [];
    var outputChannels := f.channels;
    assert Whole(buffers[0], bytesPerSample);
    if f.isInterleaved {
      if buffers[0].data.None? || buffers[0].byteSize == 0 {
        return None;
      }
      var sampleCount := buffers[0].byteSize / bytesPerSample;
      if sampleCount < f.channels {
        return None;
      }
      interleaved := ConvertAll(buffers[0].data.value);
      assert PcmOf(f, buffers).value.samples == interleaved;
    } else {
      var planes := if f.channels < |buffers| then f.channels else |buffers|;
      var framesPerPlane := buffers[0].byteSize / bytesPerSample;
      if framesPerPlane == 0 {
        return None;
      }
      outputChannels := planes;
      interleaved := Interleave(buffers, planes, framesPerPlane, bytesPerSample);
      InRange(0, 0, planes, framesPerPlane);
    }
    if interleaved == [] {
      return None;
    }
    var channels := if outputChannels < 1 then 1 else outputChannels;
    var out := EncodeDescriptor(AudioDescriptor(Rate(f), channels, PCM_S16LE_INTERLEAVED));
    out := out + SampleBytes(interleaved);
    payload := Some(out);
    assert PcmOf(f, buffers) == Some(Pcm(outputChannels, interleaved));
    assert out == Payload(f, Pcm(outputChannels, interleaved));
  }

  // ---------------------------------------------------------------- the receiver

  function ReadSamples(b: seq<byte>): seq<i16> {
    if |b| < 2 then [] else [Signed16(U16At(b, 0))] + ReadSamples(b[2..])
  }

  lemma {:induction false} SamplesRoundTrip(samples: seq<i16>)
    ensures ReadSamples(SampleBytes(samples)) == samples
  {
    hide U16At, LE16;
    if samples != [] {
      var b := SampleBytes(samples);
      assert b[0..2] == LE16(Word16(samples[0])) && b[2..] == SampleBytes(samples[1..]);
      LE16RoundTrip(b, 0, Word16(samples[0]));
      SamplesRoundTrip(samples[1..]);
    }
  }

  /** The samples of one channel as a receiver takes them out of a payload. */
  function ChannelSample(payload: seq<byte>, frame: nat, channel: nat): Option<i16>
    requires DESCRIPTOR_SIZE <= |payload|
  {
    var at, samples := At(frame, channel, ReadDescriptor(payload).channels), ReadSamples(payload[DESCRIPTOR_SIZE..]);
    if at < |samples| then Some(samples[at]) else None
  }

  lemma PayloadRoundTrip(f: Format, pcm: Pcm)
    requires f.sampleRate < TWO32 as real && 0 < pcm.channels < 0x1_0000
    ensures var p := Payload(f, pcm);
            && DESCRIPTOR_SIZE <= |p|
            && ReadDescriptor(p) == AudioDescriptor(Rate(f), pcm.channels, PCM_S16LE_INTERLEAVED)
            && ReadSamples(p[DESCRIPTOR_SIZE..]) == pcm.samples
  {
    hide EncodedDescriptor, ReadDescriptor, SampleBytes, ReadSamples;
    var d := AudioDescriptor(Rate(f), pcm.channels, PCM_S16LE_INTERLEAVED);
    DescriptorRoundTrip(d, SampleBytes(pcm.samples));
    SamplesRoundTrip(pcm.samples);
    assert Payload(f, pcm)[DESCRIPTOR_SIZE..] == SampleBytes(pcm.samples);
  }

  /** When buffers are sent at all: the samples are little-endian floats or 16-bit integers of at least one channel,
      and the first buffer holds a frame. */
  lemma SentWhen(f: Format, buffers: seq<Buffer>)
    ensures PcmOf(f, buffers).Some? <==>
      && 0 < f.channels && !f.isBigEndian && buffers != []
      && var size := f.bitsPerChannel / 8;
         && size == (if f.isFloat then 4 else 2)
         && (if f.isInterleaved then buffers[0].data.Some? && f.channels <= buffers[0].byteSize / size
             else size <= buffers[0].byteSize)
  {
  }

  /** The descriptor a receiver reads: the rate cut off to whole samples a second and never zero, the channels, and
      the one format there is. */
  predicate Announces(payload: seq<byte>, f: Format, channels: nat) {
    && DESCRIPTOR_SIZE <= |payload|
    && var d := ReadDescriptor(payload);
       && d.channels == channels && d.format == 1
       && (if f.sampleRate < 1.0 then d.sampleRate == 1
           else d.sampleRate as real <= f.sampleRate < d.sampleRate as real + 1.0)
  }

  lemma PayloadAnnounces(f: Format, pcm: Pcm)
    requires f.sampleRate < TWO32 as real && 0 < pcm.channels < 0x1_0000
    ensures Announces(Payload(f, pcm), f, pcm.channels)
  {
    hide Payload, ReadDescriptor, ReadSamples;
    PayloadRoundTrip(f, pcm);
  }

  /** Planar buffers arrive: the payload announces the planes, and every frame of every plane stands for that plane's
      sample, and is zero when the plane is missing or short. */
  lemma PlanesRecovered(f: Format, buffers: seq<Buffer>, plane: nat, frame: nat)
    requires f.sampleRate < TWO32 as real && f.channels < 0x1_0000
    requires !f.isInterleaved && PcmOf(f, buffers).Some?
    requires plane < PcmOf(f, buffers).value.channels && frame < buffers[0].byteSize / BytesPerSample(f)
    ensures var p, frames := Payload(f, PcmOf(f, buffers).value), buffers[0].byteSize / BytesPerSample(f);
            && Announces(p, f, if f.channels < |buffers| then f.channels else |buffers|)
            && ChannelSample(p, frame, plane).Some?
            && if buffers[plane].data.Some? && frames <= |buffers[plane].data.value|
               then StandsFor(ChannelSample(p, frame, plane).value, buffers[plane].data.value[frame])
               else ChannelSample(p, frame, plane) == Some(0)
  {
    hide Payload, ReadDescriptor, ReadSamples, At, FrameOf, PlaneOf, Converted, StandsFor, Announces;
    var pcm, frames := PcmOf(f, buffers).value, buffers[0].byteSize / BytesPerSample(f);
    PayloadRoundTrip(f, pcm);
    PayloadAnnounces(f, pcm);
    Positions(frame, plane, pcm.channels, 0);
    InRange(frame, plane, pcm.channels, frames);
    if Usable(buffers[plane], frames) {
      ConvertedStands(buffers[plane].data.value[frame]);
    }
  }

  /** Interleaved samples arrive in their order, under the channel count of the format. */
  lemma InterleavedRecovered(f: Format, buffers: seq<Buffer>)
    requires f.sampleRate < TWO32 as real && f.channels < 0x1_0000
    requires f.isInterleaved && PcmOf(f, buffers).Some?
    ensures var p, source := Payload(f, PcmOf(f, buffers).value), buffers[0].data.value;
            && Announces(p, f, f.channels)
            && |ReadSamples(p[DESCRIPTOR_SIZE..])| == |source|
            && forall i :: 0 <= i < |source| ==> StandsFor(ReadSamples(p[DESCRIPTOR_SIZE..])[i], source[i])
  {
    hide Payload, ReadDescriptor, ReadSamples, Converted, StandsFor, Announces;
    var pcm, source := PcmOf(f, buffers).value, buffers[0].data.value;
    PayloadRoundTrip(f, pcm);
    PayloadAnnounces(f, pcm);
    forall i | 0 <= i < |source| ensures StandsFor(pcm.samples[i], source[i]) {
      ConvertedStands(source[i]);
    }
  }
}
