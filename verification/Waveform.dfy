/** The 64-bar waveform of a voice note. The method follows the source's `float64` loops in exact
    reals; `WaveformOf` is the closed form over integer block sums. */
module Waveform {
  import opened Arithmetic

  const BARS := 64

  function BlockSize(n: nat): nat { if n / BARS == 0 then 1 else n / BARS }

  /** Samples that some bar covers: all of them below 64, otherwise the first 64 (n / 64). */
  function Covered(n: nat): nat { if n < BARS then n else BARS * (n / BARS) }

  /** The sum of the magnitudes of the samples. */
  function Loudness(samples: seq<Sample>): nat
  {
    if |samples| == 0 then 0 else Loudness(samples[..|samples| - 1]) + Abs(samples[|samples| - 1])
  }

  /** The i-th block of n / 64 samples (of one sample when there are fewer than 64). */
  function Block(samples: seq<Sample>, i: nat): seq<Sample>
  {
    var b := BlockSize(|samples|);
    var start := Times(i, b);
    if start >= |samples| then [] else samples[start..Min(start + b, |samples|)]
  }

  function BlockSums(samples: seq<Sample>): seq<nat>
  {
    seq(BARS, i requires 0 <= i => Loudness(Block(samples, i)))
  }

  /** The largest of the sums, 0 if there are none. */
  function Peak(sums: seq<nat>): nat
  {
    if |sums| == 0 then 0 else Max(Peak(sums[..|sums| - 1]), sums[|sums| - 1])
  }

  function Bar(sum: nat, peak: nat): nat
  {
    if peak == 0 then 0 else RoundDiv(100 * sum, peak)
  }

  function Bars(sums: seq<nat>): seq<nat>
  {
    seq(|sums|, i requires 0 <= i < |sums| => Bar(sums[i], Peak(sums)))
  }

  function WaveformOf(samples: seq<Sample>): seq<nat>
  {
    if |samples| == 0 then [] else Bars(BlockSums(samples))
  }

  // ---- the loops of the source

  /** Block bounds need no clamping: a block that starts inside the input ends inside it. */
  lemma BlockFits(n: nat, i: nat)
    requires i < BARS && Times(i, BlockSize(n)) < n
    ensures Times(i, BlockSize(n)) + BlockSize(n) <= Covered(n) <= n
  {
    var b := BlockSize(n);
    TimesIsProduct(i, b);
    if n / BARS > 0 {
      MulMonotone(i + 1, BARS, b);
    }
  }

  /** x is the average of a block of size d whose magnitudes add up to `sum`. */
  ghost predicate IsAverage(x: real, sum: nat, d: nat)
  {
    x * d as real == sum as real
  }

  /** The inner loop: the sum of the magnitudes of one block. */
  method SumMagnitudes(chunk: seq<Sample>) returns (sum: real)
    ensures sum == Loudness(chunk) as real
  {
    sum := 0.0;
    for i := 0 to |chunk|
      invariant sum == Loudness(chunk[..i]) as real
    {
      var v := chunk[i] as real;
      if v < 0.0 {
        v := -v;
      }
      assert chunk[..i + 1][..i] == chunk[..i];
      sum := sum + v;
    }
    assert chunk[..|chunk|] == chunk;
  }

  lemma DividedIsAverage(total: nat, d: nat)
    requires d > 0
    ensures IsAverage(total as real / d as real, total, d)
  {
    QuotientTimesDivisor(total as real, d as real);
  }

  lemma FullBlock(samples: seq<Sample>, i: nat)
    requires i < BARS && Times(i, BlockSize(|samples|)) < |samples|
    ensures var start, b := Times(i, BlockSize(|samples|)), BlockSize(|samples|);
            start + b <= |samples| && BlockSums(samples)[i] == Loudness(samples[start..start + b])
  {
    BlockFits(|samples|, i);
  }

  lemma EmptyBlock(samples: seq<Sample>, i: nat)
    requires i < BARS && Times(i, BlockSize(|samples|)) >= |samples|
    ensures BlockSums(samples)[i] == 0 && IsAverage(0.0, 0, BlockSize(|samples|))
  {
  }

  /** One pass of the averaging loop: every block, full or empty, is divided by the same size. */
  method BlockAverage(samples: seq<Sample>, blockSize: nat, i: nat) returns (avg: real)
    requires |samples| > 0 && blockSize == BlockSize(|samples|) && i < BARS
    ensures IsAverage(avg, BlockSums(samples)[i], blockSize)
  {
    TimesIsProduct(i, blockSize);
    var start := i * blockSize;
    var end := start + blockSize;
    if start >= |samples| {
      EmptyBlock(samples, i);
      return 0.0;
    }
    FullBlock(samples, i);
    if end > |samples| {
      end := |samples|;
    }
    var chunkLen := end - start;
    var sum := SumMagnitudes(samples[start..end]);
    avg := 0.0;
    if chunkLen > 0 {
      DividedIsAverage(BlockSums(samples)[i], blockSize);
      avg := sum / chunkLen as real;
    }
  }

  lemma AveragesCompare(x: real, a: nat, y: real, b: nat, d: nat)
    requires d > 0 && IsAverage(x, a, d) && IsAverage(y, b, d)
    ensures x <= y <==> a <= b
  {
    if x <= y {
      RealMulMonotone(x, y, d as real);
    } else {
      RealMulStrict(y, x, d as real);
    }
  }

  /** One round of the averaging loop: the average of a block, and the largest average so far. */
  method NextAverage(samples: seq<Sample>, blockSize: nat, i: nat, maxAmp: real) returns (avg: real, newMax: real)
    requires i < BARS && |samples| > 0 && blockSize == BlockSize(|samples|)
    requires IsAverage(maxAmp, Peak(BlockSums(samples)[..i]), blockSize)
    ensures IsAverage(avg, BlockSums(samples)[i], blockSize)
    ensures IsAverage(newMax, Peak(BlockSums(samples)[..i + 1]), blockSize)
  {
    ghost var sums := BlockSums(samples);
    avg := BlockAverage(samples, blockSize, i);
    assert sums[..i + 1][..i] == sums[..i];
    AveragesCompare(avg, sums[i], maxAmp, Peak(sums[..i]), blockSize);
    newMax := if avg > maxAmp then avg else maxAmp;
  }

  lemma NoAverage(d: nat)
    ensures IsAverage(0.0, 0, d)
  {
  }

  /** The averaging loop: the 64 averages and the largest of them. */
  method BlockAverages(samples: seq<Sample>, blockSize: nat) returns (filtered: seq<real>, maxAmp: real)
    requires |samples| > 0 && blockSize == BlockSize(|samples|)
    ensures |filtered| == BARS
    ensures forall k :: 0 <= k < BARS ==> IsAverage(filtered[k], BlockSums(samples)[k], blockSize)
    ensures IsAverage(maxAmp, Peak(BlockSums(samples)), blockSize)
  {
    ghost var sums := BlockSums(samples);
    filtered := [];
    maxAmp := 0.0;
    NoAverage(blockSize);
    for i := 0 to BARS
      invariant |filtered| == i
      invariant forall k :: 0 <= k < i ==> IsAverage(filtered[k], sums[k], blockSize)
      invariant IsAverage(maxAmp, Peak(sums[..i]), blockSize)
    {
      var avg, newMax := NextAverage(samples, blockSize, i, maxAmp);
      filtered := filtered + [avg];
      maxAmp := newMax;
    }
    assert sums[..BARS] == sums;
  }

  /** Normalising averages is normalising sums, and the clamps to 0..100 change nothing. */
  lemma NormalisedBar(avg: real, sum: nat, maxAmp: real, peak: nat, d: nat)
    requires d > 0 && sum <= peak && peak > 0 && IsAverage(avg, sum, d) && IsAverage(maxAmp, peak, d)
    ensures maxAmp > 0.0
    ensures var val := (avg / maxAmp) * 100.0; 0.0 <= val <= 100.0 && RoundReal(val) == Bar(sum, peak)
  {
    var q := sum as real / peak as real;
    AverageRatio(avg, sum, maxAmp, peak, d);
    QuotientTimesDivisor(sum as real, peak as real);
    QuotientUnique((100 * sum) as real, peak as real, q * 100.0);
    RoundOfQuotient(100 * sum, peak);
    UnitFraction(sum, peak);
    assert (avg / maxAmp) * 100.0 == (100 * sum) as real / peak as real;
  }

  lemma AverageRatio(avg: real, sum: nat, maxAmp: real, peak: nat, d: nat)
    requires d > 0 && peak > 0 && IsAverage(avg, sum, d) && IsAverage(maxAmp, peak, d)
    ensures maxAmp > 0.0 && avg / maxAmp == sum as real / peak as real
  {
    var q := sum as real / peak as real;
    QuotientTimesDivisor(sum as real, peak as real);
    if maxAmp <= 0.0 {
      RealMulMonotone(maxAmp, 0.0, d as real);
    }
    assert (q * maxAmp - avg) * d as real == q * (maxAmp * d as real) - avg * d as real == 0.0;
    QuotientUnique(avg, maxAmp, q);
  }

  lemma UnitFraction(sum: nat, peak: nat)
    requires sum <= peak && peak > 0
    ensures 0.0 <= sum as real / peak as real <= 1.0
  {
    var q := sum as real / peak as real;
    QuotientTimesDivisor(sum as real, peak as real);
    if q < 0.0 {
      RealMulStrict(q, 0.0, peak as real);
    } else if q > 1.0 {
      RealMulStrict(1.0, q, peak as real);
    }
  }

  /** One pass of the normalising loop, with its two clamps. */
  method NormaliseBar(avg: real, maxAmp: real, ghost sum: nat, ghost peak: nat, ghost d: nat) returns (bar: nat)
    requires d > 0 && sum <= peak && peak > 0 && IsAverage(avg, sum, d) && IsAverage(maxAmp, peak, d)
    ensures bar == Bar(sum, peak)
  {
    NormalisedBar(avg, sum, maxAmp, peak, d);
    var val := (avg / maxAmp) * 100.0;
    if val < 0.0 {
      val := 0.0;
    }
    if val > 100.0 {
      val := 100.0;
    }
    bar := RoundReal(val);
  }

  /** The normalising loop. */
  method NormaliseBars(filtered: seq<real>, maxAmp: real, ghost sums: seq<nat>, ghost d: nat) returns (out: seq<nat>)
    requires d > 0 && |filtered| == |sums| == BARS && Peak(sums) > 0 && IsAverage(maxAmp, Peak(sums), d)
    requires forall k :: 0 <= k < BARS ==> IsAverage(filtered[k], sums[k], d)
    ensures out == Bars(sums)
  {
    var bars := new nat[BARS](_ => 0);
    for i := 0 to BARS
      invariant forall k :: 0 <= k < i ==> bars[k] == Bar(sums[k], Peak(sums))
    {
      PeakBounds(sums, i);
      bars[i] := NormaliseBar(filtered[i], maxAmp, sums[i], Peak(sums), d);
    }
    out := bars[..];
  }

  lemma SilentBars(sums: seq<nat>)
    requires Peak(sums) == 0
    ensures Bars(sums) == seq(|sums|, _ => 0)
  {
  }

  lemma ZeroAverage(x: real, sum: nat, d: nat)
    requires d > 0 && IsAverage(x, sum, d)
    ensures x == 0.0 <==> sum == 0
  {
    if sum == 0 {
      QuotientUnique(0.0, d as real, x);
      QuotientUnique(0.0, d as real, 0.0);
    }
  }

  method BuildWaveform(samples: seq<Sample>) returns (out: seq<nat>)
    ensures out == WaveformOf(samples)
  {
    if |samples| == 0 {
      return [];
    }
    var blockSize := |samples| / BARS;
    if blockSize == 0 {
      blockSize := 1;
    }
    var filtered, maxAmp := BlockAverages(samples, blockSize);
    ZeroAverage(maxAmp, Peak(BlockSums(samples)), blockSize);
    if maxAmp == 0.0 {
      SilentBars(BlockSums(samples));
      return seq(BARS, _ => 0);
    }
    out := NormaliseBars(filtered, maxAmp, BlockSums(samples), blockSize);
  }

  // ---- peaks

  lemma PeakBounds(sums: seq<nat>, i: nat)
    requires i < |sums|
    ensures sums[i] <= Peak(sums)
  {
    if i < |sums| - 1 {
      PeakBounds(sums[..|sums| - 1], i);
    }
  }

  lemma PeakReached(sums: seq<nat>) returns (i: nat)
    requires Peak(sums) > 0
    ensures i < |sums| && sums[i] == Peak(sums)
  {
    if sums[|sums| - 1] == Peak(sums) {
      i := |sums| - 1;
    } else {
      i := PeakReached(sums[..|sums| - 1]);
    }
  }

  lemma BarLaws(sum: nat, sum': nat, peak: nat)
    requires sum <= sum' <= peak
    ensures Bar(sum, peak) <= Bar(sum', peak) <= 100
    ensures peak > 0 ==> Bar(peak, peak) == 100 && Bar(0, peak) == 0
  {
    if peak > 0 {
      RoundDivMonotone(100 * sum, 100 * sum', peak);
      RoundDivMonotone(100 * sum', 100 * peak, peak);
      RoundDivUnique(100 * peak, peak, 100);
      RoundDivUnique(0, peak, 0);
    }
  }

  lemma LoudnessZero(samples: seq<Sample>)
    ensures Loudness(samples) == 0 <==> forall i :: 0 <= i < |samples| ==> samples[i] == 0
  {
    if |samples| > 0 {
      LoudnessZero(samples[..|samples| - 1]);
    }
  }

  lemma CoveredByBlock(samples: seq<Sample>, p: nat) returns (i: nat)
    requires p < Covered(|samples|)
    ensures i < BARS && var b := BlockSize(|samples|); Times(i, b) <= p < Times(i, b) + b <= |samples|
  {
    var b := BlockSize(|samples|);
    i := p / b;
    DivisionBounds(p, b);
    TimesIsProduct(i, b);
    if BARS <= i {
      MulMonotone(BARS, i, b);
    }
    BlockFits(|samples|, i);
  }

  lemma SilentBlock(samples: seq<Sample>, i: nat, p: nat)
    requires var b := BlockSize(|samples|); Times(i, b) <= p < Times(i, b) + b <= |samples|
    requires Loudness(Block(samples, i)) == 0
    ensures samples[p] == 0
  {
    var block := Block(samples, i);
    LoudnessZero(block);
    assert block[p - Times(i, BlockSize(|samples|))] == samples[p];
  }

  lemma LoudBlock(samples: seq<Sample>, i: nat) returns (p: nat)
    requires i < BARS && Loudness(Block(samples, i)) > 0
    ensures p < Covered(|samples|) <= |samples| && samples[p] != 0
  {
    var start, block := Times(i, BlockSize(|samples|)), Block(samples, i);
    BlockFits(|samples|, i);
    LoudnessZero(block);
    var q :| 0 <= q < |block| && block[q] != 0;
    p := start + q;
  }

  ghost predicate CoveredSilent(samples: seq<Sample>)
  {
    forall p :: 0 <= p < Covered(|samples|) ==> samples[p] == 0
  }

  lemma PeakZero(samples: seq<Sample>)
    ensures Peak(BlockSums(samples)) == 0 <==> CoveredSilent(samples)
  {
    var sums := BlockSums(samples);
    if Peak(sums) == 0 {
      forall p | 0 <= p < Covered(|samples|) ensures samples[p] == 0 {
        var i := CoveredByBlock(samples, p);
        PeakBounds(sums, i);
        SilentBlock(samples, i, p);
      }
    } else {
      var i := PeakReached(sums);
      var p := LoudBlock(samples, i);
    }
  }

  // ---- promises

  /** The shape of every waveform of a nonempty recording: 64 bars between 0 and 100, ordered as
      the blocks are loud; a bar of exactly 100 exists unless every covered sample is silent, and
      then every bar is 0. */
  lemma WaveformShape(samples: seq<Sample>)
    requires |samples| > 0
    ensures var w, sums := WaveformOf(samples), BlockSums(samples);
            && |w| == BARS
            && (forall i :: 0 <= i < BARS ==> 0 <= w[i] <= 100)
            && (forall i, j :: 0 <= i < BARS && 0 <= j < BARS && sums[i] <= sums[j] ==> w[i] <= w[j])
            && ((exists i :: 0 <= i < BARS && w[i] == 100) <==> !CoveredSilent(samples))
            && ((forall i :: 0 <= i < BARS ==> w[i] == 0) <==> CoveredSilent(samples))
  {
    var w, sums := WaveformOf(samples), BlockSums(samples);
    forall i, j | 0 <= i < BARS && 0 <= j < BARS && sums[i] <= sums[j]
      ensures w[i] <= w[j] <= 100
    {
      PeakBounds(sums, j);
      BarLaws(sums[i], sums[j], Peak(sums));
    }
    PeakZero(samples);
    if Peak(sums) > 0 {
      var m := PeakReached(sums);
      BarLaws(0, 0, Peak(sums));
      assert w[m] == 100;
    }
  }

  /** Each bar is the nearest percentage of the loudest block. */
  lemma BarIsNearestPercentage(samples: seq<Sample>, i: nat)
    requires i < BARS && Peak(BlockSums(samples)) > 0 && |samples| > 0
    ensures var bar, peak := WaveformOf(samples)[i], Peak(BlockSums(samples));
            2 * bar * peak - peak <= 200 * BlockSums(samples)[i] < 2 * bar * peak + peak
  {
    RoundDivNearest(100 * BlockSums(samples)[i], Peak(BlockSums(samples)));
  }

  lemma BlockOfPrefix(samples: seq<Sample>, cut: seq<Sample>, b: nat, i: nat)
    requires b == BlockSize(|samples|) == BlockSize(|cut|) && cut <= samples && Times(i, b) + b <= |cut|
    ensures Block(samples, i) == Block(cut, i)
  {
  }

  /** What follows the last full block is not heard in the waveform. */
  lemma TailIsIgnored(samples: seq<Sample>)
    requires |samples| >= BARS
    ensures WaveformOf(samples) == WaveformOf(samples[..BARS * (|samples| / BARS)])
  {
    var b := |samples| / BARS;
    var cut := samples[..BARS * b];
    forall i | 0 <= i < BARS ensures BlockSums(samples)[i] == BlockSums(cut)[i] {
      MulMonotone(i + 1, BARS, b);
      TimesIsProduct(i, b);
      BlockOfPrefix(samples, cut, b, i);
    }
    assert BlockSums(samples) == BlockSums(cut);
  }

  /** `b` is `a` with every sample multiplied by c. */
  ghost predicate Scaled(a: seq<Sample>, b: seq<Sample>, c: int)
  {
    |a| == |b| && forall i :: 0 <= i < |a| ==> b[i] == c * a[i]
  }

  lemma {:induction false} ScaledLoudness(a: seq<Sample>, b: seq<Sample>, c: int)
    requires Scaled(a, b, c)
    ensures Loudness(b) == Times(Abs(c), Loudness(a))
  {
    if |a| == 0 {
      TimesIsProduct(Abs(c), 0);
    } else {
      var last := |a| - 1;
      ScaledLoudness(a[..last], b[..last], c);
      ScaledStep(c, Loudness(a[..last]), a[last]);
    }
  }

  lemma ScaledStep(c: int, l: nat, x: int)
    ensures Times(Abs(c), l + Abs(x)) == Times(Abs(c), l) + Abs(c * x)
  {
    TimesIsProduct(Abs(c), l + Abs(x));
    TimesIsProduct(Abs(c), l);
    AbsOfProduct(c, x);
    Distribute(Abs(c), l, Abs(x));
  }

  lemma Distribute(m: nat, x: nat, y: nat)
    ensures m * (x + y) == m * x + m * y
  {
  }

  lemma AbsOfProduct(c: int, x: int)
    ensures Abs(c * x) == Abs(c) * Abs(x)
  {
    if c >= 0 && x >= 0 {
    } else if c < 0 && x < 0 {
      assert c * x == (-c) * (-x);
    } else if c < 0 {
      assert c * x == -((-c) * x);
    } else {
      assert c * x == -(c * (-x));
    }
  }

  ghost predicate SumsScaled(a: seq<nat>, b: seq<nat>, m: nat)
  {
    |a| == |b| && forall i :: 0 <= i < |a| ==> b[i] == Times(m, a[i])
  }

  lemma {:induction false} ScaledPeak(a: seq<nat>, b: seq<nat>, m: nat)
    requires SumsScaled(a, b, m)
    ensures Peak(b) == Times(m, Peak(a))
  {
    if |a| == 0 {
      TimesIsProduct(m, 0);
    } else {
      var last := |a| - 1;
      ScaledPeak(a[..last], b[..last], m);
      if Peak(a[..last]) <= a[last] {
        TimesMonotone(m, Peak(a[..last]), a[last]);
      } else {
        TimesMonotone(m, a[last], Peak(a[..last]));
      }
    }
  }

  lemma ScaledBar(sum: nat, peak: nat, m: nat)
    requires m > 0
    ensures Bar(Times(m, sum), Times(m, peak)) == Bar(sum, peak)
  {
    TimesIsProduct(m, peak);
    if peak > 0 {
      RoundDivScale(100 * sum, peak, m);
      assert 100 * Times(m, sum) == m * (100 * sum) by { TimesIsProduct(m, sum); }
    }
  }

  /** The waveform does not depend on the volume or the polarity of the recording. */
  lemma VolumeInvariance(a: seq<Sample>, b: seq<Sample>, c: int)
    requires c != 0 && Scaled(a, b, c)
    ensures WaveformOf(b) == WaveformOf(a)
  {
    if |a| > 0 {
      var sa, sb := BlockSums(a), BlockSums(b);
      forall i | 0 <= i < BARS ensures sb[i] == Times(Abs(c), sa[i]) {
        ScaledLoudness(Block(a, i), Block(b, i), c);
      }
      ScaledPeak(sa, sb, Abs(c));
      forall i | 0 <= i < BARS ensures WaveformOf(b)[i] == WaveformOf(a)[i] {
        ScaledBar(sa[i], Peak(sa), Abs(c));
      }
    }
  }

  /** `b` is `a` played backwards. */
  ghost predicate Reversed<T>(a: seq<T>, b: seq<T>)
  {
    |a| == |b| && forall i :: 0 <= i < |a| ==> b[i] == a[|a| - 1 - i]
  }

  lemma {:induction false} LoudnessAppend(a: seq<Sample>, b: seq<Sample>)
    ensures Loudness(a + b) == Loudness(a) + Loudness(b)
  {
    if |b| == 0 {
      assert a + b == a;
    } else {
      assert (a + b)[..|a + b| - 1] == a + b[..|b| - 1];
      LoudnessAppend(a, b[..|b| - 1]);
    }
  }

  lemma {:induction false} ReversedLoudness(a: seq<Sample>, b: seq<Sample>)
    requires Reversed(a, b)
    ensures Loudness(a) == Loudness(b)
  {
    if |a| > 0 {
      var last := |a| - 1;
      ReversedLoudness(a[..last], b[1..]);
      assert b == [a[last]] + b[1..];
      LoudnessAppend([a[last]], b[1..]);
      assert Loudness([a[last]]) == Abs(a[last]) by { assert [a[last]][..0] == []; }
    }
  }

  lemma SlicesReversed(a: seq<Sample>, b: seq<Sample>, p: nat, q: nat, size: nat)
    requires Reversed(a, b) && p + size + q == |a|
    ensures Reversed(a[q..q + size], b[p..p + size])
  {
  }

  lemma ComplementStarts(i: nat, j: nat, size: nat)
    requires i + j == BARS - 1
    ensures Times(i, size) + size + Times(j, size) == BARS * size
  {
    TimesIsProduct(i, size);
    TimesIsProduct(j, size);
    Distribute(size, i, j + 1);
    Distribute(size, j, 1);
  }

  lemma BlocksReversed(a: seq<Sample>, b: seq<Sample>, size: nat, i: nat, j: nat)
    requires Reversed(a, b) && size > 0 && |a| == BARS * size && i + j == BARS - 1
    ensures Reversed(Block(a, j), Block(b, i))
  {
    var p, q := Times(i, size), Times(j, size);
    ComplementStarts(i, j, size);
    assert BlockSize(|a|) == size;
    SlicesReversed(a, b, p, q, size);
  }

  lemma SumsReversed(a: seq<Sample>, b: seq<Sample>, size: nat, i: nat, j: nat)
    requires Reversed(a, b) && size > 0 && |a| == BARS * size && i + j == BARS - 1
    ensures BlockSums(b)[i] == BlockSums(a)[j]
  {
    BlocksReversed(a, b, size, i, j);
    ReversedLoudness(Block(a, j), Block(b, i));
  }

  lemma BarsReversed(sa: seq<nat>, sb: seq<nat>)
    requires Reversed(sa, sb)
    ensures Reversed(Bars(sa), Bars(sb))
  {
    SamePeak(sa, sb);
    SamePeak(sb, sa);
  }

  lemma SamePeak(a: seq<nat>, b: seq<nat>)
    requires Reversed(a, b)
    ensures Peak(a) <= Peak(b)
  {
    if Peak(a) > 0 {
      var i := PeakReached(a);
      PeakBounds(b, |a| - 1 - i);
    }
  }

  /** A recording that fills its 64 blocks, played backwards, has its waveform backwards. */
  lemma PlayedBackwards(a: seq<Sample>, b: seq<Sample>)
    requires |a| > 0 && |a| % BARS == 0 && Reversed(a, b)
    ensures Reversed(WaveformOf(a), WaveformOf(b))
  {
    var sa, sb := BlockSums(a), BlockSums(b);
    forall i | 0 <= i < BARS ensures sb[i] == sa[BARS - 1 - i] {
      SumsReversed(a, b, |a| / BARS, i, BARS - 1 - i);
    }
    BarsReversed(sa, sb);
  }

  /** 64 bars, or none for an empty recording. */
  lemma BarCount(samples: seq<Sample>)
    ensures |WaveformOf(samples)| == if |samples| == 0 then 0 else 64
  {
  }

  /** The loudness of a recording is the sum of the magnitudes of its samples. */
  lemma {:induction false} LoudnessAdds(a: seq<Sample>, b: seq<Sample>, x: Sample)
    ensures Loudness(a + b) == Loudness(a) + Loudness(b)
    ensures Loudness([x]) == Abs(x)
  {
    assert [x][..0] == [];
    assert Loudness([]) == 0;
    if |b| == 0 {
      assert a + b == a;
    } else {
      assert (a + b)[..|a + b| - 1] == a + b[..|b| - 1];
      LoudnessAdds(a, b[..|b| - 1], x);
    }
  }

  ghost predicate SilentExcept(samples: seq<Sample>, p: nat)
  {
    p < |samples| && samples[p] != 0 && forall k :: 0 <= k < |samples| && k != p ==> samples[k] == 0
  }

  /** A recording with a single sound shows it in the bar of its place, and nowhere else: each bar
      stands for n / 64 consecutive samples, or for one if there are fewer than 64. */
  lemma LoneSoundShows(samples: seq<Sample>, p: nat, i: nat)
    requires SilentExcept(samples, p) && p < 64 * (if |samples| < 64 then 1 else |samples| / 64) && i < 64
    ensures WaveformOf(samples)[i] == if i == p / (if |samples| < 64 then 1 else |samples| / 64) then 100 else 0
  {
    var b := BlockSize(|samples|);
    var j := p / b;
    BlockOf(p, b, j);
    forall k | 0 <= k < BARS ensures BlockSums(samples)[k] > 0 <==> k == j {
      LoneBlock(samples, p, k, j, b);
    }
    OneLoudBlock(BlockSums(samples), j, i);
  }

  lemma OneLoudBlock(sums: seq<nat>, j: nat, i: nat)
    requires j < |sums| && i < |sums| && forall k :: 0 <= k < |sums| ==> (sums[k] > 0 <==> k == j)
    ensures Bars(sums)[i] == if i == j then 100 else 0
  {
    PeakBounds(sums, j);
    var m := PeakReached(sums);
    BarLaws(0, 0, Peak(sums));
  }

  lemma BlockOf(p: nat, b: nat, j: nat)
    requires b > 0 && p < 64 * b && j == p / b
    ensures j < 64 && j * b <= p < (j + 1) * b
  {
    DivisionBounds(p, b);
    if 64 <= j {
      MulMonotone(64, j, b);
    }
  }

  lemma LoneBlock(samples: seq<Sample>, p: nat, k: nat, j: nat, b: nat)
    requires SilentExcept(samples, p) && k < BARS && b == BlockSize(|samples|) && j * b <= p < (j + 1) * b
    ensures Loudness(Block(samples, k)) > 0 <==> k == j
  {
    var block, start := Block(samples, k), Times(k, b);
    TimesIsProduct(k, b);
    LoudnessZero(block);
    if start < |samples| {
      BlockFits(|samples|, k);
      assert |block| == b && forall q :: 0 <= q < b ==> block[q] == samples[start + q];
      if k == j {
        assert block[p - start] == samples[p];
      } else {
        LoneElsewhere(p, k, j, b);
        forall q | 0 <= q < b ensures block[q] == 0 {
          assert start + q != p;
        }
      }
    } else if k == j {
      assert false;
    }
  }

  lemma LoneElsewhere(p: nat, k: nat, j: nat, b: nat)
    requires k != j && j * b <= p < (j + 1) * b
    ensures p < k * b || (k + 1) * b <= p
  {
    if k < j {
      MulMonotone(k + 1, j, b);
    } else {
      MulMonotone(j + 1, k, b);
    }
  }
}
