/**
 * The packet decoder of the SDK (`OmiOpusDecoder`): strips the device's
 * 3-byte header and turns the Opus payload into 16-bit little-endian PCM,
 * either through the native Opus library or, when that library is not
 * usable, through a deterministic synthetic waveform built from the payload.
 */
module Decoder {
  import opened Wrappers

  /** One element of a Python `bytes` object. */
  type byte = x: int | 0 <= x < 256

  const HeaderLength := 3
  /** Samples in one 20 ms frame at 16 kHz. */
  const FrameSamples := 320
  /** Frame size the native decoder is asked for (60 ms at 16 kHz). */
  const NativeFrameSize := 960
  const SampleMin := -32768
  const SampleMax := 32767
  /** Bound of the quiet noise emitted for payloads too short to synthesise from. */
  const NoiseAmplitude := 25
  /** Bounds of the synthetic samples: (0 + 0 - 256) * 50 and (255 + 255 - 256) * 50. */
  const SynthMin := -12800
  const SynthMax := 12700

  /** A decoder instance; `functional` is fixed when it is constructed. */
  datatype OmiOpusDecoder = OmiOpusDecoder(functional: bool)

  /**
   * `OmiOpusDecoder()`. `opuslibAvailable` is the import-time probe of the
   * native library; `nativeInitOk` and `retryInitOk` say whether the first
   * `Decoder(16000, 1)` call and the one in the exception handler return.
   * `None` is a constructor that raises.
   */
  function Create(opuslibAvailable: bool, nativeInitOk: bool, retryInitOk: bool): (d: Option<OmiOpusDecoder>)
    ensures d.Some? && d.value.functional <==> opuslibAvailable && nativeInitOk
    ensures d.None? <==> opuslibAvailable && !nativeInitOk && !retryInitOk
  {
    if !opuslibAvailable then Some(OmiOpusDecoder(false))
    else if nativeInitOk then Some(OmiOpusDecoder(true))
    else if retryInitOk then Some(OmiOpusDecoder(false))
    else None
  }

  /** What the native `decode(payload, frame_size)` call does: return PCM or raise. */
  datatype NativeOutcome = Decoded(pcm: seq<byte>) | Raised

  /** The noise source: one `random.randint(-25, 25)` draw per sample. */
  predicate ValidNoise(noise: seq<int>)
  {
    && |noise| == FrameSamples
    && forall i :: 0 <= i < |noise| ==> -NoiseAmplitude <= noise[i] <= NoiseAmplitude
  }

  function Abs(x: int): nat
  {
    if x < 0 then -x else x
  }

  /** The periodic envelope `|((i * 17) % 100) - 50|`, scaled by 50. */
  function Envelope(i: nat): (e: nat)
    ensures e <= 50
  {
    Abs((i * 17) % 100 - 50)
  }

  /**
   * Synthetic sample `i` of payload `p`: the exact value of
   * `((b1 + b2) / 2 - 128) * 100 * (e / 50)`, that is
   * `(b1 + b2 - 256) * e`, where b1 and b2 are the payload bytes at
   * `i % n` and `(i % n + 1) % n`.
   */
  function SynthSample(p: seq<byte>, i: nat): (v: int)
    requires |p| > 0
    ensures SynthMin <= v <= SynthMax
  {
    var idx := i % |p|;
    var base := p[idx] as int + p[(idx + 1) % |p|] as int - 256;
    ProductBounds(base, Envelope(i));
    base * Envelope(i)
  }

  /** `max(-32768, min(32767, v))`. */
  function Clamp(v: int): (r: int)
    ensures SampleMin <= r <= SampleMax
    ensures SampleMin <= v <= SampleMax ==> r == v
  {
    if v < SampleMin then SampleMin else if v > SampleMax then SampleMax else v
  }

  /** `v & 0xFF`: Python's bitwise and on an unbounded two's-complement integer. */
  function Lo(v: int): byte
  {
    v % 256
  }

  /** `(v >> 8) & 0xFF`: the arithmetic shift floors, as Dafny's `/` by a positive divisor does. */
  function Hi(v: int): byte
  {
    (v / 256) % 256
  }

  /**
   * The bytes written for `samples`: sample `i` at `2i` (low byte) and
   * `2i + 1` (high byte). Every sample in the 16-bit range reads back.
   */
  function EncodeS16LE(samples: seq<int>): (bytes: seq<byte>)
    ensures |bytes| == 2 * |samples|
    ensures forall i {:trigger ReadS16LE(bytes, i)} :: 0 <= i < |samples| && SampleMin <= samples[i] <= SampleMax ==>
      ReadS16LE(bytes, i) == samples[i]
  {
    var bytes := seq(2 * |samples|, k requires 0 <= k < 2 * |samples| =>
      if k % 2 == 0 then Lo(samples[k / 2]) else Hi(samples[k / 2]));
    ReadsBack(samples, bytes);
    bytes
  }

  lemma ReadsBack(samples: seq<int>, bytes: seq<byte>)
    requires |bytes| == 2 * |samples|
    requires forall k :: 0 <= k < |bytes| ==>
      bytes[k] == if k % 2 == 0 then Lo(samples[k / 2]) else Hi(samples[k / 2])
    ensures forall i {:trigger ReadS16LE(bytes, i)} :: 0 <= i < |samples| && SampleMin <= samples[i] <= SampleMax ==>
      ReadS16LE(bytes, i) == samples[i]
  {
    forall i | 0 <= i < |samples| && SampleMin <= samples[i] <= SampleMax
      ensures ReadS16LE(bytes, i) == samples[i]
    {
      assert bytes[2 * i] == Lo(samples[i]);
      assert bytes[2 * i + 1] == Hi(samples[i]);
      S16RoundTrip(samples[i]);
    }
  }

  /** Reads bytes `2i` and `2i + 1` back as a signed 16-bit little-endian value. */
  function ReadS16LE(bytes: seq<byte>, i: nat): (v: int)
    requires 2 * i + 1 < |bytes|
    ensures SampleMin <= v <= SampleMax
  {
    var u := bytes[2 * i] as int + 256 * bytes[2 * i + 1] as int;
    if u >= 32768 then u - 65536 else u
  }

  /** A byte string read back as 16-bit little-endian samples. */
  function DecodeS16LE(bytes: seq<byte>): (samples: seq<int>)
    ensures |samples| == |bytes| / 2
  {
    seq(|bytes| / 2, i requires 0 <= i < |bytes| / 2 => ReadS16LE(bytes, i))
  }

  /** The 320 clamped synthetic samples of the fallback frame. */
  function SynthFrame(p: seq<byte>): (samples: seq<int>)
    requires |p| > 0
    ensures |samples| == FrameSamples
  {
    seq(FrameSamples, i requires 0 <= i < FrameSamples => Clamp(SynthSample(p, i)))
  }

  /** The fallback path for a payload `p` (after the header is gone). */
  function FallbackDecode(p: seq<byte>, noise: seq<int>): (pcm: seq<byte>)
    requires ValidNoise(noise)
    ensures |pcm| == 2 * FrameSamples
    ensures |p| >= 4 ==> DecodeS16LE(pcm) == SynthFrame(p)
    ensures |p| < 4 ==> DecodeS16LE(pcm) == noise
  {
    if |p| >= 4 then
      DecodeEncode(SynthFrame(p));
      EncodeS16LE(SynthFrame(p))
    else
      DecodeEncode(noise);
      EncodeS16LE(noise)
  }

  /**
   * `decode_packet(data)`. `native` stands for the native library's decode
   * call, which is not modelled; `noise` stands for the random draws of the
   * quiet-noise branch. Nothing in the fallback branch can raise.
   */
  function DecodePacket(dec: OmiOpusDecoder, data: seq<byte>,
                        native: (seq<byte>, nat) -> NativeOutcome, noise: seq<int>): (pcm: seq<byte>)
    requires ValidNoise(noise)
    ensures |data| <= HeaderLength ==> pcm == []
    ensures !dec.functional && |data| > HeaderLength ==> |pcm| == 2 * FrameSamples
    ensures dec.functional && |data| > HeaderLength ==>
      pcm == match native(data[HeaderLength..], NativeFrameSize)
             case Decoded(out) => out
             case Raised => []
  {
    if |data| <= HeaderLength then []
    else
      var payload := data[HeaderLength..];
      if dec.functional then
        match native(payload, NativeFrameSize)
        case Decoded(out) => out
        case Raised => []
      else FallbackDecode(payload, noise)
  }

  // ---------------------------------------------------------------------
  // Properties

  /** The three header bytes never influence the output. */
  lemma HeaderIgnored(dec: OmiOpusDecoder, a: seq<byte>, b: seq<byte>,
                      native: (seq<byte>, nat) -> NativeOutcome, noise: seq<int>)
    requires ValidNoise(noise)
    requires |a| > HeaderLength && |b| > HeaderLength
    requires a[HeaderLength..] == b[HeaderLength..]
    ensures DecodePacket(dec, a, native, noise) == DecodePacket(dec, b, native, noise)
  {
  }

  /** Multiplying by a natural number keeps order. */
  lemma {:induction false} MulMonotone(a: int, b: int, e: nat)
    requires a <= b
    ensures a * e <= b * e
    decreases e
  {
    if e > 0 {
      MulMonotone(a, b, e - 1);
      assert a * e == a * (e - 1) + a;
      assert b * e == b * (e - 1) + b;
    }
  }

  lemma ProductBounds(base: int, e: int)
    requires -256 <= base <= 254 && 0 <= e <= 50
    ensures SynthMin <= base * e <= SynthMax
  {
    MulMonotone(base, 254, e);
    MulMonotone(-256, base, e);
  }

  /** Every synthetic sample lies in [-12800, 12700], so the clamp never changes it. */
  lemma SynthSampleBounds(p: seq<byte>, i: nat)
    requires |p| > 0
    ensures SynthMin <= SynthSample(p, i) <= SynthMax
    ensures Clamp(SynthSample(p, i)) == SynthSample(p, i)
  {
    var idx := i % |p|;
    ProductBounds(p[idx] as int + p[(idx + 1) % |p|] as int - 256, Envelope(i));
  }

  /** Writing a 16-bit sample as two bytes and reading them back yields the sample. */
  lemma S16RoundTrip(v: int)
    requires SampleMin <= v <= SampleMax
    ensures var u := Lo(v) + 256 * Hi(v); (if u >= 32768 then u - 65536 else u) == v
  {
    var q := v / 256;
    var r := v % 256;
    assert v == 256 * q + r;
    assert -128 <= q < 128;
    if q >= 0 {
      assert Hi(v) == q;
    } else {
      assert Hi(v) == q + 256;
    }
  }

  /** Reading an encoding back gives the samples that were encoded. */
  lemma {:induction false} DecodeEncode(samples: seq<int>)
    requires forall i :: 0 <= i < |samples| ==> SampleMin <= samples[i] <= SampleMax
    ensures DecodeS16LE(EncodeS16LE(samples)) == samples
  {
    var bytes := EncodeS16LE(samples);
    forall i | 0 <= i < |samples|
      ensures DecodeS16LE(bytes)[i] == samples[i]
    {
      assert DecodeS16LE(bytes)[i] == ReadS16LE(bytes, i);
    }
  }

  /** Two bytes read as a signed 16-bit value and written back are the same two bytes. */
  lemma BytesRoundTrip(lo: byte, hi: byte)
    ensures var u := lo + 256 * hi;
      var v := if u >= 32768 then u - 65536 else u;
      Lo(v) == lo && Hi(v) == hi
  {
    var u := lo + 256 * hi;
    if u >= 32768 {
      var v := u - 65536;
      assert v == lo + 256 * (hi - 256);
      assert v / 256 == hi - 256;
    } else {
      assert u / 256 == hi;
    }
  }

  /** Encoding the samples read from an even-length byte string restores the bytes. */
  lemma {:induction false} EncodeDecode(bytes: seq<byte>)
    requires |bytes| % 2 == 0
    ensures EncodeS16LE(DecodeS16LE(bytes)) == bytes
  {
    var samples := DecodeS16LE(bytes);
    var out := EncodeS16LE(samples);
    forall k | 0 <= k < |bytes|
      ensures out[k] == bytes[k]
    {
      var i := k / 2;
      assert 2 * i + 1 < |bytes|;
      BytesRoundTrip(bytes[2 * i], bytes[2 * i + 1]);
      assert samples[i] == ReadS16LE(bytes, i);
    }
  }

  /** The clamped synthetic frame holds the unclamped samples, in the 16-bit range. */
  lemma SynthFrameExact(p: seq<byte>)
    requires |p| > 0
    ensures forall i :: 0 <= i < FrameSamples ==> SynthFrame(p)[i] == SynthSample(p, i)
    ensures forall i :: 0 <= i < FrameSamples ==> SampleMin <= SynthFrame(p)[i] <= SampleMax
  {
    forall i | 0 <= i < FrameSamples
      ensures SynthFrame(p)[i] == SynthSample(p, i)
    {
      SynthSampleBounds(p, i);
    }
  }

  lemma {:induction false} MulAtLeast(d: int, n: nat)
    requires d >= 1
    ensures d * n >= n
    decreases d
  {
    if d > 1 {
      MulAtLeast(d - 1, n);
      assert d * n == (d - 1) * n + n;
    }
  }

  /** Euclidean division has one remainder: `q * n + r` with `0 <= r < n` leaves `r`. */
  lemma ModUnique(x: int, n: int, q: int, r: int)
    requires n > 0 && x == q * n + r && 0 <= r < n
    ensures x % n == r
  {
    var q', r' := x / n, x % n;
    assert x == q' * n + r';
    if q > q' {
      assert (q - q') * n == q * n - q' * n == r' - r;
      MulAtLeast(q - q', n);
    } else if q < q' {
      assert (q' - q) * n == q' * n - q * n == r - r';
      MulAtLeast(q' - q, n);
    }
  }

  /** `decode_packet`'s byte indices `i % n` and `(i % n + 1) % n` are `i mod n` and `(i + 1) mod n`. */
  lemma SynthSampleFormula(p: seq<byte>, i: nat)
    requires |p| > 0
    ensures var n := |p|;
      SynthSample(p, i) == (p[i % n] as int + p[(i + 1) % n] as int - 256) * Abs((i * 17) % 100 - 50)
  {
    var n := |p|;
    var q, r := i / n, i % n;
    if r + 1 < n {
      ModUnique(i + 1, n, q, r + 1);
      ModUnique(r + 1, n, 0, r + 1);
    } else {
      ModUnique(i + 1, n, q + 1, 0);
      ModUnique(r + 1, n, 1, 0);
    }
  }

  /** In fallback mode a payload of at least four bytes decodes to the encoding of the synthetic frame. */
  lemma FallbackFrame(dec: OmiOpusDecoder, data: seq<byte>,
                      native: (seq<byte>, nat) -> NativeOutcome, noise: seq<int>)
    requires ValidNoise(noise)
    requires !dec.functional && |data| >= HeaderLength + 4
    ensures |DecodePacket(dec, data, native, noise)| == 2 * FrameSamples
    ensures DecodeS16LE(DecodePacket(dec, data, native, noise)) == SynthFrame(data[HeaderLength..])
  {
    var frame := SynthFrame(data[HeaderLength..]);
    SynthFrameExact(data[HeaderLength..]);
    DecodeEncode(frame);
  }

  /**
   * Sample `i` of `pcm` is `(p[i mod n] + p[(i + 1) mod n] - 256) * |((17 i) mod 100) - 50|`
   * for the payload `p` of length `n`, and lies in [-12800, 12700].
   */
  predicate SampleMatches(p: seq<byte>, pcm: seq<byte>, i: nat)
    requires |p| > 0 && 2 * i + 1 < |pcm|
  {
    var n := |p|;
    && ReadS16LE(pcm, i) == (p[i % n] as int + p[(i + 1) % n] as int - 256) * Abs((i * 17) % 100 - 50)
    && SynthMin <= ReadS16LE(pcm, i) <= SynthMax
  }

  /** Sample `i` read back from the encoded synthetic frame of payload `p`. */
  lemma SynthPcmSample(p: seq<byte>, i: nat)
    requires |p| > 0 && i < FrameSamples
    ensures SampleMatches(p, EncodeS16LE(SynthFrame(p)), i)
  {
    var frame := SynthFrame(p);
    var pcm := EncodeS16LE(frame);
    assert frame[i] == SynthSample(p, i);
    assert ReadS16LE(pcm, i) == frame[i];
    SynthSampleFormula(p, i);
  }

  /**
   * In fallback mode, with a payload `p` of at least four bytes, the packet
   * decodes to exactly 320 samples and sample `i` is
   * `(p[i mod n] + p[(i + 1) mod n] - 256) * |((17 i) mod 100) - 50|`,
   * which lies in [-12800, 12700].
   */
  lemma FallbackSamples(dec: OmiOpusDecoder, data: seq<byte>,
                        native: (seq<byte>, nat) -> NativeOutcome, noise: seq<int>)
    requires ValidNoise(noise)
    requires !dec.functional && |data| >= HeaderLength + 4
    ensures |DecodePacket(dec, data, native, noise)| == 2 * FrameSamples
    ensures forall i :: 0 <= i < FrameSamples ==>
      SampleMatches(data[HeaderLength..], DecodePacket(dec, data, native, noise), i)
  {
    var p := data[HeaderLength..];
    assert DecodePacket(dec, data, native, noise) == EncodeS16LE(SynthFrame(p));
    forall i | 0 <= i < FrameSamples
      ensures SampleMatches(p, EncodeS16LE(SynthFrame(p)), i)
    {
      SynthPcmSample(p, i);
    }
  }

  /** A fallback payload of at least four bytes decodes the same whatever the native codec and the noise source do. */
  lemma FallbackDeterministic(dec: OmiOpusDecoder, data: seq<byte>,
                              native1: (seq<byte>, nat) -> NativeOutcome, noise1: seq<int>,
                              native2: (seq<byte>, nat) -> NativeOutcome, noise2: seq<int>)
    requires ValidNoise(noise1) && ValidNoise(noise2)
    requires !dec.functional && |data| >= HeaderLength + 4
    ensures DecodePacket(dec, data, native1, noise1) == DecodePacket(dec, data, native2, noise2)
  {
  }

  /** A fallback payload of one to three bytes yields 320 quiet-noise samples, each within [-25, 25]. */
  lemma FallbackNoise(dec: OmiOpusDecoder, data: seq<byte>,
                      native: (seq<byte>, nat) -> NativeOutcome, noise: seq<int>)
    requires ValidNoise(noise)
    requires !dec.functional && HeaderLength < |data| < HeaderLength + 4
    ensures var pcm := DecodePacket(dec, data, native, noise);
      && |pcm| == 2 * FrameSamples
      && DecodeS16LE(pcm) == noise
      && forall i :: 0 <= i < FrameSamples ==> -NoiseAmplitude <= ReadS16LE(pcm, i) <= NoiseAmplitude
  {
    var pcm := DecodePacket(dec, data, native, noise);
    assert pcm == EncodeS16LE(noise);
    DecodeEncode(noise);
    forall i | 0 <= i < FrameSamples
      ensures -NoiseAmplitude <= ReadS16LE(pcm, i) <= NoiseAmplitude
    {
      assert ReadS16LE(pcm, i) == DecodeS16LE(pcm)[i] == noise[i];
    }
  }
}
