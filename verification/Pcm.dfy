/** PCM buffers: decoding little-endian bytes, downmixing to mono, zero padding. */
module Pcm {
  import opened Arithmetic

  type Byte = b: int | 0 <= b < 256

  /** Two's complement reading of an unsigned 16-bit value. */
  function ToInt16(u: nat): Sample
    requires u < 0x1_0000
  {
    if u <= MAX_INT16 then u else u - 0x1_0000
  }

  /** The unsigned value of two bytes in little-endian order. */
  function Word(low: int, high: int): int { low + 256 * high }

  /** Sample k is read from bytes 2k (low) and 2k + 1 (high). */
  function SampleFrom(bytes: seq<Byte>, k: nat): Sample
    requires 2 * k + 1 < |bytes|
  {
    ToInt16(Word(bytes[2 * k], bytes[2 * k + 1]))
  }

  /** What the decoder must yield. */
  function Decoded(bytes: seq<Byte>): (samples: seq<Sample>)
  {
    seq(|bytes| / 2, k requires 0 <= k < |bytes| / 2 => SampleFrom(bytes, k))
  }

  /** The decoder loop of the source; a trailing odd byte is dropped. */
  method BytesToInt16(bytes: seq<Byte>) returns (samples: seq<Sample>)
    ensures samples == Decoded(bytes)
  {
    var b := bytes;
    if |b| % 2 != 0 {
      b := b[..|b| - 1];
    }
    var n := |b| / 2;
    var out := new Sample[n];
    for i := 0 to n
      invariant forall k :: 0 <= k < i ==> out[k] == Decoded(bytes)[k]
    {
      out[i] := ToInt16(Word(b[2 * i], b[2 * i + 1]));
    }
    samples := out[..];
  }

  /** The unsigned 16-bit pattern of a sample. */
  function ToUint16(s: Sample): nat { if s >= 0 then s else s + 0x1_0000 }

  /** The inverse of the decoder: low byte first. */
  function Encoded(samples: seq<Sample>): (bytes: seq<Byte>)
    ensures |bytes| == 2 * |samples|
  {
    seq(2 * |samples|, k requires 0 <= k < 2 * |samples| =>
      var u := ToUint16(samples[k / 2]);
      if k % 2 == 0 then u % 256 else u / 256)
  }

  /** Nothing is lost by decoding: bytes and samples determine each other. */
  lemma DecodeInvertsEncode(samples: seq<Sample>)
    ensures Decoded(Encoded(samples)) == samples
  {
    forall k | 0 <= k < |samples| ensures Decoded(Encoded(samples))[k] == samples[k] {
      assert (2 * k) / 2 == k && (2 * k) % 2 == 0 && (2 * k + 1) / 2 == k && (2 * k + 1) % 2 == 1;
      var u := ToUint16(samples[k]);
      assert u % 256 + 256 * (u / 256) == u;
    }
  }

  lemma EncodeInvertsDecode(bytes: seq<Byte>)
    ensures Encoded(Decoded(bytes)) == bytes[..2 * (|bytes| / 2)]
  {
    forall k | 0 <= k < 2 * (|bytes| / 2) ensures Encoded(Decoded(bytes))[k] == bytes[k] {
      var j := k / 2;
      var lo: int, hi: int := bytes[2 * j], bytes[2 * j + 1];
      assert ToUint16(ToInt16(Word(lo, hi))) == Word(lo, hi);
      assert Word(lo, hi) / 256 == hi && Word(lo, hi) % 256 == lo;
      assert k == 2 * j || k == 2 * j + 1;
    }
  }

  lemma HalfRange(x: Sample)
    ensures -0x4000 <= TruncDiv(x, 2) <= 0x3fff
    ensures x - 1 <= 2 * TruncDiv(x, 2) <= x + 1
  {
  }

  /** One downmixed frame: each channel is halved (toward zero) before the sum. */
  function MonoOf(left: Sample, right: Sample): (m: Sample)
    ensures Abs(2 * m - (left + right)) <= 2
  {
    HalfRange(left);
    HalfRange(right);
    TruncDiv(left, 2) + TruncDiv(right, 2)
  }

  function MonoAt(stereo: seq<Sample>, k: nat): Sample
    requires 2 * k + 1 < |stereo|
  {
    MonoOf(stereo[2 * k], stereo[2 * k + 1])
  }

  function Mono(stereo: seq<Sample>): (mono: seq<Sample>)
  {
    if |stereo| < 2 then stereo
    else seq(|stereo| / 2, k requires 0 <= k < |stereo| / 2 => MonoAt(stereo, k))
  }

  /** The body of the source's downmix loop, with its two clamps: neither ever changes a value. */
  method DownmixFrame(left: Sample, right: Sample) returns (mono: Sample)
    ensures mono == MonoOf(left, right)
  {
    HalfRange(left);
    HalfRange(right);
    var m := TruncDiv(left, 2) + TruncDiv(right, 2);
    if m > MAX_INT16 {
      m := MAX_INT16;
    }
    if m < MIN_INT16 {
      m := MIN_INT16;
    }
    mono := m;
  }

  method DownmixStereoToMono(stereo: seq<Sample>) returns (mono: seq<Sample>)
    ensures mono == Mono(stereo)
  {
    if |stereo| < 2 {
      return stereo;
    }
    mono := [];
    var i := 0;
    while i + 1 < |stereo|
      invariant i == 2 * |mono| && i <= |stereo|
      invariant |mono| <= |stereo| / 2 && forall p :: 0 <= p < |mono| ==> mono[p] == MonoAt(stereo, p)
      decreases |stereo| - i
    {
      var m := DownmixFrame(stereo[i], stereo[i + 1]);
      mono := mono + [m];
      i := i + 2;
    }
    assert |mono| == |stereo| / 2;
  }

  /** Halving before adding is not averaging: two equal channels keep their value exactly when
      that value is even; an odd one moves one step toward zero. */
  lemma EqualChannels(x: Sample)
    ensures MonoOf(x, x) == x <==> x % 2 == 0
    ensures x % 2 != 0 ==> MonoOf(x, x) == if x > 0 then x - 1 else x + 1
  {
    var v: int := x;
    assert v == 2 * (v / 2) + v % 2 && -v == 2 * ((-v) / 2) + (-v) % 2;
  }

  /** The downmix differs by at most one from the truncated average of the channels, is symmetric in
      them, and does not fall when a channel rises. */
  lemma DownmixLaws(l: Sample, r: Sample, l': Sample, r': Sample)
    requires l <= l' && r <= r'
    ensures MonoOf(l, r) == MonoOf(r, l)
    ensures MonoOf(l, r) <= MonoOf(l', r')
    ensures Abs(MonoOf(l, r) - TruncDiv(l + r, 2)) <= 1
  {
    TruncDivMonotone(l, l', 2);
    TruncDivMonotone(r, r', 2);
  }

  function Zeros(n: nat): (z: seq<Sample>)
    ensures |z| == n && forall i :: 0 <= i < n ==> z[i] == 0
  {
    seq(n, _ => 0)
  }

  /** `padZeros`: at least `want` samples, the added ones silent. */
  function PadZeros(samples: seq<Sample>, want: nat): (padded: seq<Sample>)
    ensures |padded| == Max(|samples|, want)
    ensures samples <= padded && forall i :: |samples| <= i < |padded| ==> padded[i] == 0
  {
    if |samples| >= want then samples else samples + Zeros(want - |samples|)
  }

  /** Little-endian two's complement: a sample is its low byte and 256 times its high byte, modulo
      2^16, and is negative exactly when the high byte's top bit is set. */
  lemma SampleIsLittleEndian(bytes: seq<Byte>, k: nat)
    requires k < |bytes| / 2
    ensures |Decoded(bytes)| == |bytes| / 2
    ensures (Decoded(bytes)[k] as int - (bytes[2 * k] as int + 256 * bytes[2 * k + 1] as int)) % 0x1_0000 == 0
    ensures Decoded(bytes)[k] < 0 <==> bytes[2 * k + 1] >= 128
  {
    assert Decoded(bytes)[k] == SampleFrom(bytes, k);
    assert Word(bytes[2 * k], bytes[2 * k + 1]) == bytes[2 * k] as int + 256 * bytes[2 * k + 1] as int;
  }

  /** The downmix frame by frame: samples 2k and 2k + 1, halved toward zero, make sample k; an odd last
      sample is dropped, and a single sample is left as it is. */
  lemma DownmixFrames(stereo: seq<Sample>, k: nat)
    ensures |Mono(stereo)| == if |stereo| < 2 then |stereo| else |stereo| / 2
    ensures |stereo| >= 2 && k < |stereo| / 2 ==>
              Mono(stereo)[k] == TruncDiv(stereo[2 * k], 2) + TruncDiv(stereo[2 * k + 1], 2)
    ensures |stereo| == 1 ==> Mono(stereo) == stereo
  {
    if |stereo| >= 2 && k < |stereo| / 2 {
      assert Mono(stereo)[k] == MonoAt(stereo, k);
    }
  }
}
