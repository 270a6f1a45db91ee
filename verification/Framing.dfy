/** Cutting PCM into Opus frames with RTP counters. The Opus encoder and the Ogg writer are foreign
    code: all that is left of them is whether they fail on a given packet. */
module Framing {
  import opened Arithmetic
  import opened Pcm

  const TARGET_SAMPLE_RATE := 16000
  const FRAME := 320 // 20 ms
  const TWO_16 := 0x1_0000
  const TWO_26 := 0x400_0000
  const TWO_32 := 0x1_0000_0000

  datatype Packet = Packet(frame: seq<Sample>, sequence: nat, timestamp: nat)

  datatype FrameError = EncodeFailed(packet: nat) | WriteFailed(packet: nat) | CloseFailed

  datatype Frames = Ok(packets: seq<Packet>) | Err(error: FrameError)

  /** Which foreign calls fail: encoding or writing the k-th packet, closing the file. */
  datatype Sink = Sink(encodeFails: nat -> bool, writeFails: nat -> bool, closeFails: bool)

  function FrameCount(n: nat): nat { (n + FRAME - 1) / FRAME }

  /** Frame k: samples 320k up to 320k + 320, padded with silence at the end of the input. */
  function FrameAt(pcm: seq<Sample>, k: nat): seq<Sample>
    requires k < FrameCount(|pcm|)
  {
    PadZeros(pcm[FRAME * k..Min(FRAME * k + FRAME, |pcm|)], FRAME)
  }

  function PacketAt(pcm: seq<Sample>, k: nat): Packet
    requires k < FrameCount(|pcm|)
  {
    Packet(FrameAt(pcm, k), k % TWO_16, FRAME * (k + 1) % TWO_32)
  }

  function Packets(pcm: seq<Sample>): seq<Packet>
  {
    seq(FrameCount(|pcm|), k requires 0 <= k < FrameCount(|pcm|) => PacketAt(pcm, k))
  }

  /** Encoding and writing the first k packets succeeds. */
  ghost predicate Written(k: nat, sink: Sink)
  {
    forall p :: 0 <= p < k ==> !sink.encodeFails(p) && !sink.writeFails(p)
  }

  ghost predicate AllSucceed(count: nat, sink: Sink) { Written(count, sink) && !sink.closeFails }

  /** The error is the first call that fails, packet by packet, encoding before writing, closing last. */
  ghost predicate FirstFailure(count: nat, sink: Sink, error: FrameError)
  {
    match error
    case EncodeFailed(k) => k < count && Written(k, sink) && sink.encodeFails(k)
    case WriteFailed(k) => k < count && Written(k, sink) && !sink.encodeFails(k) && sink.writeFails(k)
    case CloseFailed => Written(count, sink) && sink.closeFails
  }

  lemma CounterStep(k: nat)
    ensures (k % TWO_16 + 1) % TWO_16 == (k + 1) % TWO_16
    ensures (FRAME * (k + 1) % TWO_32 + FRAME) % TWO_32 == FRAME * (k + 2) % TWO_32
  {
    WrappingAdd(k, 1, TWO_16);
    WrappingAdd(FRAME * (k + 1), FRAME, TWO_32);
  }

  lemma WrappingAdd(a: nat, b: nat, m: nat)
    requires m > 0
    ensures (a % m + b) % m == (a + b) % m
  {
    assert a + b == (a / m) * m + (a % m + b);
    var q := (a % m + b) / m;
    assert a + b == (a / m + q) * m + (a % m + b) % m;
    DivisionUnique(a + b, m, a / m + q);
  }

  lemma NextFrame(pcm: seq<Sample>, k: nat)
    requires FRAME * k < |pcm|
    ensures k < FrameCount(|pcm|)
    ensures Packets(pcm)[..k + 1] == Packets(pcm)[..k] + [PacketAt(pcm, k)]
  {
  }

  /** The framing loop of the source, with its 16-bit and 32-bit counters wrapping by addition. The
      packets are handed over only if nothing failed; otherwise the first failure is reported. */
  method EncodeFrames(pcm: seq<Sample>, sink: Sink) returns (result: Frames)
    ensures result.Ok? <==> AllSucceed(FrameCount(|pcm|), sink)
    ensures result.Ok? ==> result.packets == Packets(pcm)
    ensures result.Err? ==> FirstFailure(FrameCount(|pcm|), sink, result.error)
  {
    var packets: seq<Packet> := [];
    var sequence := 0;
    var timestamp := FRAME;
    var off := 0;
    ghost var k := 0;
    while off < |pcm|
      invariant off == FRAME * k && k <= FrameCount(|pcm|)
      invariant sequence == k % TWO_16 && timestamp == FRAME * (k + 1) % TWO_32
      invariant packets == Packets(pcm)[..k]
      invariant Written(k, sink)
    {
      NextFrame(pcm, k);
      CounterStep(k);
      var end := off + FRAME;
      if end > |pcm| {
        end := |pcm|;
      }
      var frame := pcm[off..end];
      if |frame| < FRAME {
        frame := PadZeros(frame, FRAME);
      }
      if sink.encodeFails(|packets|) {
        return Err(EncodeFailed(|packets|));
      }
      if sink.writeFails(|packets|) {
        return Err(WriteFailed(|packets|));
      }
      packets := packets + [Packet(frame, sequence, timestamp)];
      sequence := (sequence + 1) % TWO_16;
      timestamp := (timestamp + FRAME) % TWO_32;
      off := off + FRAME;
      k := k + 1;
    }
    assert k == FrameCount(|pcm|);
    assert Packets(pcm)[..k] == Packets(pcm);
    if sink.closeFails {
      return Err(CloseFailed);
    }
    result := Ok(packets);
  }

  // ---- nothing is lost

  function Payload(packets: seq<Packet>): seq<Sample>
  {
    if |packets| == 0 then [] else packets[0].frame + Payload(packets[1..])
  }

  lemma PayloadAppend(packets: seq<Packet>, last: Packet)
    ensures Payload(packets + [last]) == Payload(packets) + last.frame
  {
    if |packets| == 0 {
      assert packets + [last] == [last];
    } else {
      assert (packets + [last])[1..] == packets[1..] + [last];
      PayloadAppend(packets[1..], last);
    }
  }

  lemma PrefixGrows(pcm: seq<Sample>, k: nat)
    requires k < FrameCount(|pcm|)
    ensures PadZeros(pcm[..FRAME * k], FRAME * k) + FrameAt(pcm, k)
         == PadZeros(pcm[..Min(FRAME * k + FRAME, |pcm|)], FRAME * k + FRAME)
  {
    assert pcm[..FRAME * k] + pcm[FRAME * k..Min(FRAME * k + FRAME, |pcm|)] == pcm[..Min(FRAME * k + FRAME, |pcm|)];
  }

  lemma {:induction false} PayloadOfPrefix(pcm: seq<Sample>, k: nat)
    requires k <= FrameCount(|pcm|)
    ensures Payload(Packets(pcm)[..k]) == PadZeros(pcm[..Min(FRAME * k, |pcm|)], FRAME * k)
  {
    if k > 0 {
      PayloadOfPrefix(pcm, k - 1);
      NextFrame(pcm, k - 1);
      PayloadAppend(Packets(pcm)[..k - 1], PacketAt(pcm, k - 1));
      PrefixGrows(pcm, k - 1);
    }
  }

  /** The frames in order are the input followed by fewer than 320 zero samples, in exactly
      ceil(n / 320) packets of exactly 320 samples. */
  lemma FramingLosesNothing(pcm: seq<Sample>)
    ensures var ps := Packets(pcm);
            && 0 <= 320 * |ps| - |pcm| < 320
            && Payload(ps) == pcm + Zeros(320 * |ps| - |pcm|)
            && forall k :: 0 <= k < |ps| ==> |ps[k].frame| == 320
  {
    PayloadOfPrefix(pcm, FrameCount(|pcm|));
    assert Packets(pcm)[..FrameCount(|pcm|)] == Packets(pcm);
    assert pcm[..|pcm|] == pcm;
  }

  lemma CongruentWhenDifferenceDivides(a: int, b: int, m: int)
    requires m > 0
    ensures a % m == b % m <==> (b - a) % m == 0
  {
    var qa, qb, q := a / m, b / m, (b - a) / m;
    if a % m == b % m {
      assert b - a == (qb - qa) * m;
      DivisionUnique(b - a, m, qb - qa);
    } else if (b - a) % m == 0 {
      assert b == (q + qa) * m + a % m;
      DivisionUnique(b, m, q + qa);
      assert false;
    }
  }

  lemma DividesWhenMultiple(a: int, m: int, q: int)
    requires m > 0 && a == q * m
    ensures a % m == 0
  {
    DivisionUnique(a, m, q);
  }

  /** 320 is 64 times an odd number: 320 d wraps around 2^32 exactly when 2^26 divides d. */
  lemma FrameMultiples(d: nat)
    ensures (FRAME * d) % TWO_32 == 0 <==> d % TWO_26 == 0
  {
    if (FRAME * d) % TWO_32 == 0 {
      var q := (FRAME * d) / TWO_32;
      assert 320 * d == q * 0x1_0000_0000;
      // 2^26 leaves 4 when divided by 5, so q is a multiple of 5
      var e := d - q * 13421772;
      assert 5 * e == 4 * q;
      var m := q - e;
      assert q == 5 * m && e == 4 * m;
      DividesWhenMultiple(d, TWO_26, m);
    } else if d % TWO_26 == 0 {
      var m := d / TWO_26;
      DividesWhenMultiple(FRAME * d, TWO_32, 5 * m);
      assert false;
    }
  }

  /** Two packets of one file share a sequence number exactly when their positions differ by a
      multiple of 2^16, and a timestamp exactly when they differ by a multiple of 2^26, which is
      more than fifteen days of audio. */
  lemma CountersRepeat(pcm: seq<Sample>, i: nat, j: nat)
    requires i <= j < |Packets(pcm)|
    ensures Packets(pcm)[i].sequence == Packets(pcm)[j].sequence <==> (j - i) % TWO_16 == 0
    ensures Packets(pcm)[i].timestamp == Packets(pcm)[j].timestamp <==> (j - i) % TWO_26 == 0
  {
    CongruentWhenDifferenceDivides(i, j, TWO_16);
    CongruentWhenDifferenceDivides(FRAME * (i + 1), FRAME * (j + 1), TWO_32);
    FrameMultiples(j - i);
  }

  /** The first packet has sequence number 0 and timestamp 320; from one packet to the next they rise
      by 1 and by 320, wrapping around 2^16 and 2^32. */
  lemma CountersRun(pcm: seq<Sample>, k: nat)
    requires k < |Packets(pcm)|
    ensures k == 0 ==> Packets(pcm)[k].sequence == 0 && Packets(pcm)[k].timestamp == 320
    ensures k > 0 ==> Packets(pcm)[k].sequence == (Packets(pcm)[k - 1].sequence + 1) % 0x1_0000
    ensures k > 0 ==> Packets(pcm)[k].timestamp == (Packets(pcm)[k - 1].timestamp + 320) % 0x1_0000_0000
  {
    if k > 0 {
      CounterStep(k - 1);
    }
  }

  /** Which failure is reported: of the first packet with one, encoding before writing; closing the
      file comes last. */
  lemma FailureReported(count: nat, sink: Sink, k: nat, error: FrameError)
    requires k <= count && forall p :: 0 <= p < k ==> !sink.encodeFails(p) && !sink.writeFails(p)
    ensures k < count && sink.encodeFails(k) ==> (FirstFailure(count, sink, error) <==> error == EncodeFailed(k))
    ensures k < count && !sink.encodeFails(k) && sink.writeFails(k) ==>
              (FirstFailure(count, sink, error) <==> error == WriteFailed(k))
    ensures k == count ==> (FirstFailure(count, sink, error) <==> sink.closeFails && error == CloseFailed)
  {
    assert Written(k, sink);
  }
}
