/** The whole conversion of a decoded voice note: PCM bytes in, packets, duration and waveform out. */
module AudioPipeline {
  import opened Arithmetic
  import opened Pcm
  import opened Resample
  import opened Framing
  import opened Waveform

  /** What the foreign MP3 decoder makes of the input. */
  datatype Decoder = NoDecoder | Stream(sampleRate: int, body: Body)

  datatype Body = Broken | Bytes(bytes: seq<Byte>)

  datatype AudioError =
    | EmptyPayload | BadDecoder | InvalidRate | DecodeFailed | TooShort | NoSamples
    | WriterFailed | EncoderFailed | FramingFailed(error: FrameError)

  datatype Conversion = Converted(packets: seq<Packet>, seconds: nat, waveform: seq<nat>) | Failed(reason: AudioError)

  /** The mono samples at 16 kHz, at least one frame of them. */
  function TargetPcm(bytes: seq<Byte>, rate: int): seq<Sample>
  {
    var samples := Decoded(bytes);
    var mono := if |bytes| % 4 == 0 then Mono(samples) else samples;
    PadZeros(Resampled(mono, rate, TARGET_SAMPLE_RATE), FRAME)
  }

  /** How many mono samples the bytes hold: a whole number of stereo frames is taken for stereo. */
  function MonoCount(bytes: seq<Byte>): nat { if |bytes| % 4 == 0 then |bytes| / 4 else |bytes| / 2 }

  /** The k-th of them: the halves of both channels, truncated and added, or a sample as it stands. */
  function MonoSample(bytes: seq<Byte>, k: nat): int
    requires k < MonoCount(bytes)
  {
    if |bytes| % 4 == 0 then TruncDiv(Decoded(bytes)[2 * k], 2) + TruncDiv(Decoded(bytes)[2 * k + 1], 2)
    else Decoded(bytes)[k]
  }

  lemma MonoSamples(bytes: seq<Byte>)
    ensures var mono := if |bytes| % 4 == 0 then Mono(Decoded(bytes)) else Decoded(bytes);
            |mono| == MonoCount(bytes) && forall k :: 0 <= k < |mono| ==> mono[k] == MonoSample(bytes, k)
  {
    var samples := Decoded(bytes);
    if |bytes| % 4 == 0 && |bytes| > 0 {
      forall k | 0 <= k < |Mono(samples)| ensures Mono(samples)[k] == MonoSample(bytes, k) {
        assert Mono(samples)[k] == MonoAt(samples, k);
      }
    }
  }

  lemma ResampledLength(mono: seq<Sample>, rate: nat, len: nat)
    requires rate > 0 && len == |Resampled(mono, rate, TARGET_SAMPLE_RATE)|
    ensures || 0 - rate <= 2 * (|mono| * 16000 - len * rate) < rate
            || (len == 1 && 2 * (|mono| * 16000) < rate)
  {
    if |mono| == 0 {
      assert len == 0;
    } else if rate == TARGET_SAMPLE_RATE {
      assert len == |mono|;
    } else {
      OutLenNearest(|mono|, rate, TARGET_SAMPLE_RATE);
    }
  }

  lemma SmallerProduct(a: nat, b: nat, rate: nat)
    requires a <= b
    ensures a * rate <= b * rate
  {
    MulMonotone(a, b, rate);
  }

  /** The length of the result: the nearest whole number of samples to n * 16000 / rate, and 320
      when that is smaller. */
  lemma TargetLength(bytes: seq<Byte>, rate: nat)
    requires rate > 0
    ensures var n, len := MonoCount(bytes), |TargetPcm(bytes, rate)|;
            || (len > 320 && 0 - rate <= 2 * (n * 16000 - len * rate) < rate)
            || (len == 320 && 2 * (n * 16000 - 320 * rate) < rate)
  {
    var mono := if |bytes| % 4 == 0 then Mono(Decoded(bytes)) else Decoded(bytes);
    var len := |Resampled(mono, rate, TARGET_SAMPLE_RATE)|;
    MonoSamples(bytes);
    ResampledLength(mono, rate, len);
    if len < 320 {
      SmallerProduct(len, 320, rate);
    }
  }

  /** Output sample k is at position k * rate / 16000 of the mono samples. It is played if its middle
      is not past their end, or if it is the first of all. */
  predicate Played(n: nat, rate: nat, k: nat) { n > 0 && (k == 0 || (2 * k + 1) * rate <= 32000 * n) }

  lemma PlayedExactly(mono: seq<Sample>, rate: nat, k: nat)
    requires rate > 0
    ensures k < |Resampled(mono, rate, TARGET_SAMPLE_RATE)| <==> Played(|mono|, rate, k)
  {
    var len := |Resampled(mono, rate, TARGET_SAMPLE_RATE)|;
    ResampledLength(mono, rate, len);
    assert (2 * k + 1) * rate == 2 * (k * rate) + rate;
    if |mono| == 0 {
      assert len == 0;
    } else {
      assert len >= 1;
      if k < len {
        SmallerProduct(k + 1, len, rate);
        assert (k + 1) * rate == k * rate + rate;
      } else {
        SmallerProduct(len, k, rate);
      }
    }
  }

  /** At every rate, a sample of the result lies between the two mono samples around its position,
      or repeats the last one; what is added behind them is silent. */
  lemma TargetSamples(bytes: seq<Byte>, rate: nat, k: nat)
    requires rate > 0 && k < |TargetPcm(bytes, rate)|
    ensures var n, j, y := MonoCount(bytes), k * rate / 16000, TargetPcm(bytes, rate)[k];
            if Played(n, rate, k) then
              && 0 <= j < n
              && (j + 1 < n ==> Min(MonoSample(bytes, j), MonoSample(bytes, j + 1)) <= y
                                <= Max(MonoSample(bytes, j), MonoSample(bytes, j + 1)))
              && (j + 1 == n ==> y == MonoSample(bytes, j))
              && (rate == 16000 ==> j == k && y == MonoSample(bytes, k))
            else y == 0
  {
    var mono := if |bytes| % 4 == 0 then Mono(Decoded(bytes)) else Decoded(bytes);
    MonoSamples(bytes);
    PlayedExactly(mono, rate, k);
    if Played(MonoCount(bytes), rate, k) {
      SampleBetween(mono, rate, k);
    }
  }

  lemma SampleBetween(mono: seq<Sample>, rate: nat, k: nat)
    requires rate > 0 && k < |Resampled(mono, rate, TARGET_SAMPLE_RATE)|
    ensures var j, y := k * rate / 16000, Resampled(mono, rate, TARGET_SAMPLE_RATE)[k];
            && 0 <= j < |mono|
            && (j + 1 < |mono| ==> Min(mono[j], mono[j + 1]) <= y <= Max(mono[j], mono[j + 1]))
            && (j + 1 == |mono| ==> y == mono[j])
            && (rate == 16000 ==> j == k && y == mono[k])
  {
    if rate == TARGET_SAMPLE_RATE {
      DivisionUnique(k * rate, 16000, k);
    } else {
      StaysBetweenNeighbours(mono, rate, TARGET_SAMPLE_RATE, k);
    }
  }

  /** The announced duration, as an unsigned 32-bit number of seconds. */
  function Seconds(n: nat): nat
  {
    var rounded := RoundDiv(n, TARGET_SAMPLE_RATE) % TWO_32;
    if rounded == 0 then 1 else rounded
  }

  /** `writerFails` and `encoderFails`: the Ogg writer or the Opus encoder cannot be constructed. */
  method ConvertMP3ToOGG(payload: seq<Byte>, decoder: Decoder, writerFails: bool, encoderFails: bool, sink: Sink)
    returns (result: Conversion)
    ensures |payload| == 0 ==> result == Failed(EmptyPayload)
    ensures |payload| > 0 && decoder.NoDecoder? ==> result == Failed(BadDecoder)
    ensures |payload| > 0 && decoder.Stream? ==>
              if decoder.sampleRate <= 0 then result == Failed(InvalidRate)
              else if decoder.body.Broken? then result == Failed(DecodeFailed)
              else if |decoder.body.bytes| < 2 then result == Failed(TooShort)
              else if writerFails then result == Failed(WriterFailed)
              else if encoderFails then result == Failed(EncoderFailed)
              else
                var pcm := TargetPcm(decoder.body.bytes, decoder.sampleRate);
                if AllSucceed(FrameCount(|pcm|), sink) then
                  result == Converted(Packets(pcm), Seconds(|pcm|), WaveformOf(pcm))
                else
                  && result.Failed? && result.reason.FramingFailed?
                  && FirstFailure(FrameCount(|pcm|), sink, result.reason.error)
  {
    if |payload| == 0 {
      return Failed(EmptyPayload);
    }
    if decoder.NoDecoder? {
      return Failed(BadDecoder);
    }
    var srcRate := decoder.sampleRate;
    if srcRate <= 0 {
      return Failed(InvalidRate);
    }
    if decoder.body.Broken? {
      return Failed(DecodeFailed);
    }
    var pcmBytes := decoder.body.bytes;
    if |pcmBytes| < 2 {
      return Failed(TooShort);
    }
    var channels := 1;
    if |pcmBytes| % 4 == 0 {
      channels := 2;
    }
    var samples := BytesToInt16(pcmBytes);
    if channels == 2 {
      samples := DownmixStereoToMono(samples);
    }
    if |samples| == 0 {
      return Failed(NoSamples);
    }
    var pcm := ResampleLinearInt16(samples, srcRate, TARGET_SAMPLE_RATE);
    if |pcm| < FRAME {
      pcm := PadZeros(pcm, FRAME);
    }
    assert pcm == TargetPcm(pcmBytes, srcRate);
    RoundOfQuotient(|pcm|, TARGET_SAMPLE_RATE);
    var seconds := RoundReal(|pcm| as real / TARGET_SAMPLE_RATE as real) % TWO_32;
    if seconds == 0 {
      seconds := 1;
    }
    var waveform := BuildWaveform(pcm);
    if writerFails {
      return Failed(WriterFailed);
    }
    if encoderFails {
      return Failed(EncoderFailed);
    }
    var frames := EncodeFrames(pcm, sink);
    match frames
    case Ok(packets) => result := Converted(packets, seconds, waveform);
    case Err(error) => result := Failed(FramingFailed(error));
  }

  /** The announced number on the samples themselves: the nearest whole number of seconds, halves up,
      modulo 2^32, and 1 instead of 0. */
  lemma SecondsExactly(n: nat, nearest: nat)
    requires -8000 <= n - 16000 * nearest < 8000
    ensures Seconds(n) == if nearest % 0x1_0000_0000 == 0 then 1 else nearest % 0x1_0000_0000
  {
    var q := RoundDiv(n, TARGET_SAMPLE_RATE);
    DurationNearest(n);
    assert q == nearest;
  }

  lemma DurationNearest(n: nat)
    ensures 16000 * RoundDiv(n, TARGET_SAMPLE_RATE) - 8000 <= n < 16000 * RoundDiv(n, TARGET_SAMPLE_RATE) + 8000
  {
    var q := RoundDiv(n, 16000);
    RoundDivNearest(n, 16000);
    assert 2 * q * 16000 == 32000 * q;
  }

  /** The announced duration and the packets tell the same story: 50 packets a second, up to half a
      second of rounding; a duration that would be announced as 0 is announced as 1, and the number
      wraps around every 2^32 seconds. */
  lemma DurationMatchesPackets(bytes: seq<Byte>, rate: int) returns (wraps: nat)
    ensures var pcm := TargetPcm(bytes, rate);
            var announced := Seconds(|pcm|) + wraps * TWO_32;
            && 50 * announced - 75 <= |Packets(pcm)| <= 50 * announced + 25
            && (|Packets(pcm)| < 50 * TWO_32 - 25 ==> wraps == 0 && 50 * announced - 49 <= |Packets(pcm)|)
            && (25 < |Packets(pcm)| < 50 * TWO_32 - 25 ==> 50 * announced - 25 <= |Packets(pcm)|)
  {
    var pcm := TargetPcm(bytes, rate);
    DurationNearest(|pcm|);
    assert 320 * |Packets(pcm)| - 320 < |pcm| <= 320 * |Packets(pcm)|;
    wraps := RoundDiv(|pcm|, TARGET_SAMPLE_RATE) / TWO_32;
  }

  ghost predicate Silent(samples: seq<Sample>)
  {
    forall k :: 0 <= k < |samples| ==> samples[k] == 0
  }

  lemma ResampledSilence(samples: seq<Sample>, src: int, dst: int)
    requires Silent(samples)
    ensures Silent(Resampled(samples, src, dst))
  {
    var out := Resampled(samples, src, dst);
    forall i | 0 <= i < |out| ensures out[i] == 0 {
      if src > 0 && dst > 0 && |samples| > 0 && src != dst {
        StaysBetweenNeighbours(samples, src, dst, i);
      }
    }
  }

  ghost predicate ZeroBytes(bytes: seq<Byte>)
  {
    forall k :: 0 <= k < |bytes| ==> bytes[k] == 0
  }

  lemma DecodedSilence(bytes: seq<Byte>)
    requires ZeroBytes(bytes)
    ensures Silent(Decoded(bytes))
  {
    forall k | 0 <= k < |bytes| / 2 ensures Decoded(bytes)[k] == 0 {
      assert Decoded(bytes)[k] == SampleFrom(bytes, k);
    }
  }

  lemma MonoSilence(stereo: seq<Sample>)
    requires Silent(stereo)
    ensures Silent(Mono(stereo))
  {
    if |stereo| >= 2 {
      forall k | 0 <= k < |stereo| / 2 ensures Mono(stereo)[k] == 0 {
        assert Mono(stereo)[k] == MonoAt(stereo, k);
      }
    }
  }

  lemma TargetSilence(bytes: seq<Byte>, rate: int)
    requires ZeroBytes(bytes)
    ensures Silent(TargetPcm(bytes, rate))
  {
    var samples := Decoded(bytes);
    var mono := if |bytes| % 4 == 0 then Mono(samples) else samples;
    DecodedSilence(bytes);
    MonoSilence(samples);
    ResampledSilence(mono, rate, TARGET_SAMPLE_RATE);
    PaddedSilence(Resampled(mono, rate, TARGET_SAMPLE_RATE), FRAME);
  }

  lemma PaddedSilence(samples: seq<Sample>, want: nat)
    requires Silent(samples)
    ensures Silent(PadZeros(samples, want))
  {
  }

  /** Silence in, silence out: zero bytes give silent frames and an all-zero waveform, whatever the
      rate and the number of channels. */
  lemma SilenceStaysSilent(bytes: seq<Byte>, rate: int)
    requires ZeroBytes(bytes)
    ensures var pcm := TargetPcm(bytes, rate);
            && Silent(Payload(Packets(pcm)))
            && (forall i :: 0 <= i < BARS ==> WaveformOf(pcm)[i] == 0)
  {
    var pcm := TargetPcm(bytes, rate);
    TargetSilence(bytes, rate);
    FramingLosesNothing(pcm);
    WaveformShape(pcm);
  }
}
