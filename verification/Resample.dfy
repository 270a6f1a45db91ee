/** Linear resampling between two sample rates. The method follows the source's `float64`
    arithmetic in exact reals; `Resampled` is its closed form over integers, about which the
    promises are proved. */
module Resample {
  import opened Arithmetic

  /** `sampleAt`: reads past an end repeat the end sample. */
  function SampleAt(samples: seq<Sample>, idx: int): (s: Sample)
    ensures |samples| > 0 ==> s == samples[Min(Max(idx, 0), |samples| - 1)]
  {
    if |samples| == 0 then 0
    else if idx < 0 then samples[0]
    else if idx >= |samples| then samples[|samples| - 1]
    else samples[idx]
  }

  /** The point `r / d` of the way from a to b, truncated. */
  function Mix(a: int, b: int, r: nat, d: nat): (m: int)
    requires r < d
    ensures Min(a, b) <= m <= Max(a, b)
  {
    MixBounds(a, b, r, d);
    TruncDiv((d - r) * a + r * b, d)
  }

  lemma MixBounds(a: int, b: int, r: nat, d: nat)
    requires r < d
    ensures Min(a, b) * d <= (d - r) * a + r * b <= Max(a, b) * d
    ensures Min(a, b) <= TruncDiv((d - r) * a + r * b, d) <= Max(a, b)
  {
    var x, lo, hi := (d - r) * a + r * b, Min(a, b), Max(a, b);
    MulMonotone(lo, a, d - r);
    MulMonotone(lo, b, r);
    MulMonotone(a, hi, d - r);
    MulMonotone(b, hi, r);
    assert lo * (d - r) + lo * r == lo * d && hi * (d - r) + hi * r == hi * d;
    TruncDivMonotone(lo * d, x, d);
    TruncDivMonotone(x, hi * d, d);
    TruncDivOfMultiple(lo, d);
    TruncDivOfMultiple(hi, d);
  }

  function OutLen(n: nat, src: nat, dst: nat): (len: nat)
    requires src > 0
    ensures len >= 1
  {
    Max(1, RoundDiv(n * dst, src))
  }

  /** Whole part and remainder (over `dst`) of the source position of output sample i. */
  function BaseIndex(i: nat, src: nat, dst: nat): nat
    requires dst > 0
  {
    DivisionMonotone(0, i * src, dst);
    i * src / dst
  }

  function Offset(i: nat, src: nat, dst: nat): nat
    requires dst > 0
  {
    i * src % dst
  }

  function Interpolate(samples: seq<Sample>, src: nat, dst: nat, i: nat): Sample
    requires dst > 0
  {
    var j := BaseIndex(i, src, dst);
    Mix(SampleAt(samples, j), SampleAt(samples, j + 1), Offset(i, src, dst), dst)
  }

  function Interpolated(samples: seq<Sample>, src: nat, dst: nat): seq<Sample>
    requires src > 0 && dst > 0
  {
    seq(OutLen(|samples|, src, dst), i requires 0 <= i => Interpolate(samples, src, dst, i))
  }

  function Resampled(samples: seq<Sample>, src: int, dst: int): seq<Sample>
  {
    if src <= 0 || dst <= 0 || |samples| == 0 || src == dst then samples
    else Interpolated(samples, src, dst)
  }

  // ---- the loop of the source

  lemma PositionIsFraction(i: nat, src: nat, dst: nat, ratio: real)
    requires src > 0 && dst > 0 && ratio == dst as real / src as real
    ensures ratio != 0.0 && i as real / ratio == (i * src) as real / dst as real
  {
    QuotientTimesDivisor(dst as real, src as real);
    var exact := (i * src) as real / dst as real;
    QuotientTimesDivisor((i * src) as real, dst as real);
    ProductAsReal(i, src);
    assert exact * ratio * src as real == exact * (ratio * src as real);
    CancelFactor(exact * ratio, i as real, src as real);
    QuotientUnique(i as real, ratio, exact);
  }

  lemma CancelFactor(x: real, y: real, d: real)
    requires d != 0.0 && x * d == y * d
    ensures x == y
  {
    assert (x - y) * d == 0.0;
  }

  /** The position computed with reals, split into its whole part and fraction. */
  lemma PositionSplit(i: nat, src: nat, dst: nat, ratio: real)
    requires src > 0 && dst > 0 && ratio == dst as real / src as real
    ensures ratio != 0.0
    ensures var pos := i as real / ratio;
            && pos.Floor == BaseIndex(i, src, dst)
            && (pos - pos.Floor as real) * dst as real == Offset(i, src, dst) as real
  {
    PositionIsFraction(i, src, dst, ratio);
    FloorOfQuotient(i * src, dst);
    FractionOfQuotient(i * src, dst);
  }

  lemma FractionOfQuotient(p: nat, d: nat)
    requires d > 0
    ensures (p as real / d as real - (p / d) as real) * d as real == (p % d) as real
  {
    var x, j := p as real / d as real, p / d;
    QuotientTimesDivisor(p as real, d as real);
    ProductAsReal(j, d);
    assert (x - j as real) * d as real == x * d as real - j as real * d as real;
  }

  /** The interpolated value computed with reals is the integer fraction that `Mix` truncates. */
  lemma ValueAsFraction(a: int, b: int, r: nat, d: nat, t: real)
    requires d > 0 && t * d as real == r as real && r < d
    ensures (1.0 - t) * a as real + t * b as real == ((d - r) * a + r * b) as real / d as real
  {
    ProductAsReal(d - r, a);
    ProductAsReal(r, b);
    var v := (1.0 - t) * a as real + t * b as real;
    assert (1.0 - t) * d as real == (d - r) as real;
    assert v * d as real == ((1.0 - t) * d as real) * a as real + (t * d as real) * b as real;
    QuotientUnique(((d - r) * a + r * b) as real, d as real, v);
  }

  lemma FractionInRange(x: int, d: nat, lo: int, hi: int)
    requires d > 0 && lo * d <= x <= hi * d
    ensures lo as real <= x as real / d as real <= hi as real
  {
    var v := x as real / d as real;
    QuotientTimesDivisor(x as real, d as real);
    ProductAsReal(lo, d);
    ProductAsReal(hi, d);
    if v < lo as real {
      RealMulStrict(v, lo as real, d as real);
    }
    if v > hi as real {
      RealMulStrict(hi as real, v, d as real);
    }
  }

  /** The value before the clamps lies between the two samples, and truncating it is `Mix`. */
  lemma MixFromReals(a: int, b: int, r: nat, d: nat, t: real)
    requires r < d && t * d as real == r as real
    ensures var v := (1.0 - t) * a as real + t * b as real;
            && Min(a, b) as real <= v <= Max(a, b) as real
            && TruncReal(v) == Mix(a, b, r, d)
  {
    var x := (d - r) * a + r * b;
    ValueAsFraction(a, b, r, d, t);
    MixBounds(a, b, r, d);
    FractionInRange(x, d, Min(a, b), Max(a, b));
    TruncOfQuotient(x, d);
  }

  lemma OutLenFromReals(n: nat, src: nat, dst: nat, ratio: real)
    requires src > 0 && dst > 0 && ratio == dst as real / src as real
    ensures Max(1, RoundReal(n as real * ratio)) == OutLen(n, src, dst)
  {
    QuotientTimesDivisor(dst as real, src as real);
    ProductAsReal(n, dst);
    assert (n as real * ratio) * src as real == n as real * (ratio * src as real);
    QuotientUnique((n * dst) as real, src as real, n as real * ratio);
    RoundOfQuotient(n * dst, src);
  }

  /** The body of the source's loop, with its two clamps. */
  method OutputSample(samples: seq<Sample>, src: nat, dst: nat, ratio: real, i: nat) returns (y: Sample)
    requires src > 0 && dst > 0 && ratio == dst as real / src as real
    ensures y == Interpolate(samples, src, dst, i)
  {
    PositionSplit(i, src, dst, ratio);
    var pos := i as real / ratio;
    var j := pos.Floor;
    var t := pos - j as real;
    var s0 := SampleAt(samples, j);
    var s1 := SampleAt(samples, j + 1);
    MixFromReals(s0, s1, Offset(i, src, dst), dst, t);
    var val := (1.0 - t) * s0 as real + t * s1 as real;
    if val > MAX_INT16 as real {
      val := MAX_INT16 as real;
    }
    if val < MIN_INT16 as real {
      val := MIN_INT16 as real;
    }
    y := TruncReal(val);
  }

  method OutputLength(n: nat, src: nat, dst: nat, ratio: real) returns (outLen: int)
    requires src > 0 && dst > 0 && ratio == dst as real / src as real
    ensures outLen == OutLen(n, src, dst)
  {
    outLen := RoundReal(n as real * ratio);
    if outLen < 1 {
      outLen := 1;
    }
    OutLenFromReals(n, src, dst, ratio);
  }

  method ResampleLinearInt16(samples: seq<Sample>, src: int, dst: int) returns (resampled: seq<Sample>)
    ensures resampled == Resampled(samples, src, dst)
  {
    if src <= 0 || dst <= 0 || |samples| == 0 || src == dst {
      return samples;
    }
    var ratio := dst as real / src as real;
    var outLen := OutputLength(|samples|, src, dst, ratio);
    var out := new Sample[outLen];
    for i := 0 to outLen
      invariant forall k :: 0 <= k < i ==> out[k] == Interpolate(samples, src, dst, k)
    {
      out[i] := OutputSample(samples, src, dst, ratio, i);
    }
    resampled := out[..];
  }

  // ---- promises

  /** The output has the nearest whole number of samples to n * dst / src, or one sample when that
      is nearer to none. */
  lemma OutLenNearest(n: nat, src: nat, dst: nat)
    requires src > 0
    ensures var len := OutLen(n, src, dst);
            || 0 - src <= 2 * (n * dst - len * src) < src
            || (len == 1 && 2 * (n * dst) < src)
  {
    var q := RoundDiv(n * dst, src);
    RoundDivNearest(n * dst, src);
    assert 2 * q * src == 2 * (q * src);
  }

  /** Only the right neighbour of an output sample can fall past the end of the input. */
  lemma BaseIndexInRange(n: nat, src: nat, dst: nat, i: nat)
    requires n > 0 && src > 0 && dst > 0 && i < OutLen(n, src, dst)
    ensures BaseIndex(i, src, dst) < n
  {
    if i == 0 {
      DivisionUnique(0 * src, dst, 0);
    } else {
      OutLenNearest(n, src, dst);
      var len := OutLen(n, src, dst);
      assert i * src + src <= len * src by { MulMonotone(i + 1, len, src); }
      assert i * src < n * dst;
      DivisionBounds(i * src, dst);
      if n <= BaseIndex(i, src, dst) {
        MulMonotone(n, BaseIndex(i, src, dst), dst);
      }
    }
  }

  /** Every output sample lies between two adjacent input samples (or repeats the last one). */
  lemma StaysBetweenNeighbours(samples: seq<Sample>, src: nat, dst: nat, i: nat)
    requires |samples| > 0 && src > 0 && dst > 0 && src != dst
    requires i < |Resampled(samples, src, dst)|
    ensures var j := BaseIndex(i, src, dst);
            var y := Resampled(samples, src, dst)[i];
            && j < |samples|
            && (j + 1 < |samples| ==> Min(samples[j], samples[j + 1]) <= y <= Max(samples[j], samples[j + 1]))
            && (j + 1 == |samples| ==> y == samples[j])
  {
    var j := BaseIndex(i, src, dst);
    BaseIndexInRange(|samples|, src, dst, i);
    var y := Mix(SampleAt(samples, j), SampleAt(samples, j + 1), Offset(i, src, dst), dst);
    assert Resampled(samples, src, dst)[i] == y;
  }

  ghost predicate Nondecreasing(s: seq<Sample>)
  {
    forall i, j :: 0 <= i <= j < |s| ==> s[i] <= s[j]
  }

  lemma MixMonotoneInOffset(a: int, b: int, r: nat, r': nat, d: nat)
    requires a <= b && r <= r' < d
    ensures Mix(a, b, r, d) <= Mix(a, b, r', d)
  {
    assert (d - r') * a + r' * b == (d - r) * a + r * b + (r' - r) * (b - a);
    MulMonotone(0, r' - r, b - a);
    TruncDivMonotone((d - r) * a + r * b, (d - r') * a + r' * b, d);
  }

  /** Order is preserved, within a segment and across segments, for every pair of rates. */
  lemma PreservesOrder(samples: seq<Sample>, src: int, dst: int)
    requires Nondecreasing(samples)
    ensures Nondecreasing(Resampled(samples, src, dst))
  {
    var out := Resampled(samples, src, dst);
    forall i, i' | 0 <= i <= i' < |out| ensures out[i] <= out[i'] {
      if src <= 0 || dst <= 0 || |samples| == 0 || src == dst {
      } else {
        InterpolateMonotone(samples, src, dst, i, i');
      }
    }
  }

  lemma InterpolateMonotone(samples: seq<Sample>, src: nat, dst: nat, i: nat, i': nat)
    requires Nondecreasing(samples) && |samples| > 0 && src > 0 && dst > 0 && i <= i'
    ensures Interpolate(samples, src, dst, i) <= Interpolate(samples, src, dst, i')
  {
    var j, j' := BaseIndex(i, src, dst), BaseIndex(i', src, dst);
    MulMonotone(i, i', src);
    DivisionMonotone(i * src, i' * src, dst);
    if j == j' {
      assert Offset(i, src, dst) <= Offset(i', src, dst);
      MixMonotoneInOffset(SampleAt(samples, j), SampleAt(samples, j + 1),
                          Offset(i, src, dst), Offset(i', src, dst), dst);
    }
  }

  lemma MixMonotoneInSamples(a: int, b: int, a': int, b': int, r: nat, d: nat)
    requires a <= a' && b <= b' && r < d
    ensures Mix(a, b, r, d) <= Mix(a', b', r, d)
  {
    MulMonotone(a, a', d - r);
    MulMonotone(b, b', r);
    TruncDivMonotone((d - r) * a + r * b, (d - r) * a' + r * b', d);
  }

  lemma InterpolateDominated(low: seq<Sample>, high: seq<Sample>, src: nat, dst: nat, i: nat)
    requires dst > 0 && |low| == |high| && forall k :: 0 <= k < |low| ==> low[k] <= high[k]
    ensures Interpolate(low, src, dst, i) <= Interpolate(high, src, dst, i)
  {
    var j := BaseIndex(i, src, dst);
    MixMonotoneInSamples(SampleAt(low, j), SampleAt(low, j + 1), SampleAt(high, j), SampleAt(high, j + 1),
                         Offset(i, src, dst), dst);
  }

  /** A louder input nowhere gives a quieter output: resampling is monotone in the samples. */
  lemma PreservesDominance(low: seq<Sample>, high: seq<Sample>, src: int, dst: int)
    requires |low| == |high| && forall k :: 0 <= k < |low| ==> low[k] <= high[k]
    ensures var a, b := Resampled(low, src, dst), Resampled(high, src, dst);
            |a| == |b| && forall i :: 0 <= i < |a| ==> a[i] <= b[i]
  {
    if src <= 0 || dst <= 0 || |low| == 0 || src == dst {
    } else {
      var a, b := Resampled(low, src, dst), Resampled(high, src, dst);
      forall i | 0 <= i < |a| ensures a[i] <= b[i] {
        InterpolateDominated(low, high, src, dst, i);
      }
    }
  }

  lemma MixNegated(a: int, b: int, r: nat, d: nat)
    requires r < d
    ensures Mix(-a, -b, r, d) == -Mix(a, b, r, d)
  {
    assert (d - r) * -a + r * -b == -((d - r) * a + r * b);
    TruncDivOdd((d - r) * a + r * b, d);
  }

  /** `b` is `a` with its polarity inverted (which -32768 does not allow). */
  ghost predicate Negated(a: seq<Sample>, b: seq<Sample>)
  {
    |a| == |b| && forall k :: 0 <= k < |a| ==> b[k] == -(a[k] as int)
  }

  lemma InterpolateNegated(a: seq<Sample>, b: seq<Sample>, src: nat, dst: nat, i: nat)
    requires dst > 0 && |a| > 0 && Negated(a, b)
    ensures Interpolate(b, src, dst, i) == -(Interpolate(a, src, dst, i) as int)
  {
    var j := BaseIndex(i, src, dst);
    MixNegated(SampleAt(a, j), SampleAt(a, j + 1), Offset(i, src, dst), dst);
  }

  /** Truncation toward zero treats both polarities alike: inverting the input inverts the output. */
  lemma PreservesPolarity(a: seq<Sample>, b: seq<Sample>, src: int, dst: int)
    requires Negated(a, b)
    ensures Negated(Resampled(a, src, dst), Resampled(b, src, dst))
  {
    if src <= 0 || dst <= 0 || |a| == 0 || src == dst {
    } else {
      var x, y := Resampled(a, src, dst), Resampled(b, src, dst);
      forall i | 0 <= i < |x| ensures y[i] == -(x[i] as int) {
        InterpolateNegated(a, b, src, dst, i);
      }
    }
  }

  /** The k-th value of the linear signal that begins at `start` and rises by `slope` per step. */
  function RampAt(slope: int, start: int, k: nat): int
  {
    if k == 0 then start else RampAt(slope, start, k - 1) + slope
  }

  lemma RampClosedForm(slope: int, start: int, k: nat)
    ensures RampAt(slope, start, k) == slope * k + start
  {
    if k > 0 {
      RampClosedForm(slope, start, k - 1);
      assert slope * k == slope * (k - 1) + slope;
    }
  }

  ghost predicate IsRamp(samples: seq<Sample>, slope: int, start: int)
  {
    forall k :: 0 <= k < |samples| ==> samples[k] == RampAt(slope, start, k)
  }

  /** Linear signals are reproduced exactly: the ramp at position p / dst = i * src / dst, truncated (both
      sides of that fraction are scaled by `dst`). */
  lemma ReproducesRamps(samples: seq<Sample>, src: nat, dst: nat, slope: int, start: int, i: nat, p: nat)
    requires src > 0 && dst > 0 && src != dst && p == i * src && IsRamp(samples, slope, start)
    requires i < |Resampled(samples, src, dst)| && BaseIndex(i, src, dst) + 1 < |samples|
    ensures Resampled(samples, src, dst)[i] == TruncDiv(RampAt(slope, start * dst, p), dst)
  {
    InterpolateRamp(samples, src, dst, slope, start, i, BaseIndex(i, src, dst), Offset(i, src, dst), p);
  }

  lemma InterpolateRamp(samples: seq<Sample>, src: nat, dst: nat, slope: int, start: int, i: nat,
                        j: nat, r: nat, p: nat)
    requires src > 0 && dst > 0 && IsRamp(samples, slope, start) && j + 1 < |samples|
    requires j == BaseIndex(i, src, dst) && r == Offset(i, src, dst) && p == i * src
    ensures Interpolate(samples, src, dst, i) == TruncDiv(RampAt(slope, start * dst, p), dst)
  {
    assert p == j * dst + r;
    MixOfRamp(samples, slope, start, j, r, p, dst);
  }

  lemma MixOfRamp(samples: seq<Sample>, slope: int, start: int, j: nat, r: nat, p: nat, d: nat)
    requires IsRamp(samples, slope, start) && j + 1 < |samples| && r < d && p == j * d + r
    ensures Mix(samples[j], samples[j + 1], r, d) == TruncDiv(RampAt(slope, start * d, p), d)
  {
    RampWeights(slope, start, j, r, p, d);
    MixOf(samples[j], samples[j + 1], r, d, RampAt(slope, start * d, p));
  }

  lemma MixOf(a: int, b: int, r: nat, d: nat, x: int)
    requires r < d && (d - r) * a + r * b == x
    ensures Mix(a, b, r, d) == TruncDiv(x, d)
  {
  }

  lemma RampWeights(slope: int, start: int, j: nat, r: nat, p: nat, d: nat)
    requires r <= d && p == j * d + r
    ensures (d - r) * RampAt(slope, start, j) + r * RampAt(slope, start, j + 1) == RampAt(slope, start * d, p)
  {
    var a := RampAt(slope, start, j);
    assert RampAt(slope, start, j + 1) == a + slope;
    RampClosedForm(slope, start, j);
    RampClosedForm(slope, start * d, p);
    SplitWeights(a, slope, r, d);
    RampAtBase(slope, start, j, d, a);
    assert slope * p == slope * (j * d) + slope * r;
  }

  lemma SplitWeights(a: int, slope: int, r: nat, d: nat)
    ensures (d - r) * a + r * (a + slope) == d * a + r * slope
  {
  }

  lemma RampAtBase(slope: int, start: int, j: nat, d: nat, a: int)
    requires a == slope * j + start
    ensures d * a == slope * (j * d) + start * d
  {
    assert d * a == d * (slope * j) + d * start;
    assert d * (slope * j) == slope * (j * d);
  }

  lemma MultiplePosition(i: nat, src: nat, dst: nat, q: nat)
    requires dst > 0 && i * src == q * dst
    ensures BaseIndex(i, src, dst) == q && Offset(i, src, dst) == 0
  {
    DivisionUnique(i * src, dst, q);
  }

  lemma InterpolateAtSample(samples: seq<Sample>, src: nat, dst: nat, i: nat, q: nat)
    requires dst > 0 && q < |samples| && i * src == q * dst
    ensures Interpolate(samples, src, dst, i) == samples[q]
  {
    MultiplePosition(i, src, dst, q);
    assert (dst - 0) * samples[q] + 0 * SampleAt(samples, q + 1) == samples[q] * dst;
    TruncDivOfMultiple(samples[q], dst);
  }

  /** The shortcut for equal rates agrees with the general formula. */
  lemma EqualRatesNeedNoShortcut(samples: seq<Sample>, rate: nat)
    requires rate > 0 && |samples| > 0
    ensures Interpolated(samples, rate, rate) == samples
  {
    var n := |samples|;
    RoundDivUnique(n * rate, rate, n) by { assert 2 * n * rate == 2 * (n * rate); }
    forall i | 0 <= i < n ensures Interpolate(samples, rate, rate, i) == samples[i] {
      InterpolateAtSample(samples, rate, rate, i, i);
    }
  }

  lemma UpsampledLength(n: nat, rate: nat, k: nat)
    requires n > 0 && rate > 0 && k > 0
    ensures k * rate > 0 && OutLen(n, rate, k * rate) == n * k && OutLen(n * k, k * rate, rate) == n
  {
    MulMonotone(1, k, rate);
    MulMonotone(1, n, k);
    var fast := k * rate;
    assert n * fast == (n * k) * rate;
    assert 2 * (n * k) * rate == 2 * ((n * k) * rate) && 2 * n * fast == 2 * (n * fast);
    RoundDivUnique(n * fast, rate, n * k);
    RoundDivUnique((n * k) * rate, fast, n);
  }

  lemma ThereAndBack(samples: seq<Sample>, up: seq<Sample>, rate: nat, k: nat, fast: nat, i: nat)
    requires rate > 0 && k > 0 && fast == k * rate && i < |samples|
    requires |up| == |samples| * k
    requires forall q :: 0 <= q < |up| ==> up[q] == Interpolate(samples, rate, fast, q)
    ensures fast > 0 && Interpolate(up, fast, rate, i) == samples[i]
  {
    MulMonotone(1, k, rate);
    MulMonotone(i + 1, |samples|, k);
    MulMonotone(0, i, k);
    assert i * fast == (i * k) * rate;
    InterpolateAtSample(up, fast, rate, i, i * k);
    InterpolateAtSample(samples, rate, fast, i * k, i);
  }

  /** Raising the rate by a whole factor and lowering it again returns the very same samples. */
  lemma UpsamplingIsInvertible(samples: seq<Sample>, rate: nat, k: nat, fast: nat)
    requires rate > 0 && k > 0 && fast == k * rate
    ensures Resampled(Resampled(samples, rate, fast), fast, rate) == samples
  {
    MulMonotone(1, k, rate);
    if rate != fast && |samples| > 0 {
      UpsampledLength(|samples|, rate, k);
      var up := Resampled(samples, rate, fast);
      var down := Resampled(up, fast, rate);
      assert |down| == |samples|;
      forall i | 0 <= i < |samples| ensures down[i] == samples[i] {
        ThereAndBack(samples, up, rate, k, fast, i);
      }
    }
  }

  /** Rates that are not positive, and equal ones, leave the samples as they are. */
  lemma NothingToResample(samples: seq<Sample>, src: int, dst: int)
    requires src <= 0 || dst <= 0 || src == dst
    ensures Resampled(samples, src, dst) == samples
  {
  }
}
