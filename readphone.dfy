/**
 A model of the AndroSensor log analysis: a log is a table of sensor
 frames; each frame is classified by four threshold tests (low light, close,
 audible, active), the frames are filtered into nested categories, and a
 handful of aggregates (mean illuminance, elapsed time, active time, active
 percentage) and two per-frame series (movement sums, 0/1 activity) are
 derived from the table. Values are exact reals.
 */
module ReadPhone {
  import opened Sequences

  // Column offsets of the measurements in one AndroSensor frame.
  const AccelXIndex: nat := 0
  const AccelYIndex: nat := 1
  const AccelZIndex: nat := 2
  const LatXIndex: nat := 6
  const LatYIndex: nat := 7
  const LatZIndex: nat := 8
  const LuxIndex: nat := 12
  const OrientationXIndex: nat := 16
  const OrientationYIndex: nat := 17
  const OrientationZIndex: nat := 18
  const ProximityIndex: nat := 19
  const DecibelIndex: nat := 20
  const TimeIndex: nat := 29

  /** Every frame of the log is read at the timestamp column, so the table
      is at least this wide. */
  const FrameWidth: nat := TimeIndex + 1

  // Classification thresholds (all comparisons are strict).
  const LowLightLux: real := 200.0
  const CloseProximity: real := 5.0
  const AudibleDecibels: real := 60.0
  const ActiveMovement: real := 1.0

  /** Timestamps are in milliseconds; each frame nominally lasts 500 ms. */
  const MillisPerSecond: real := 1000.0
  const FrameMillis: nat := 500
  const FrameSeconds: real := FrameMillis as real / MillisPerSecond

  /** One row of the log. */
  type Frame = f: seq<real> | |f| >= FrameWidth witness seq(FrameWidth, _ => 0.0)

  // ---------------------------------------------------------------------
  // Column extraction

  /** The `col`-th entry of every row, in row order. */
  function ColumnOf(arr: seq<seq<real>>, col: nat): (r: seq<real>)
    requires forall i :: 0 <= i < |arr| ==> col < |arr[i]|
    ensures |r| == |arr|
    ensures forall i :: 0 <= i < |arr| ==> r[i] == arr[i][col]
  {
    if arr == [] then []
    else ColumnOf(arr[..|arr| - 1], col) + [arr[|arr| - 1][col]]
  }

  /** Builds the list of the `col`-th entries by appending row after row. */
  method Column(arr: seq<seq<real>>, col: nat) returns (ret: seq<real>)
    requires forall i :: 0 <= i < |arr| ==> col < |arr[i]|
    ensures |ret| == |arr|
    ensures forall i :: 0 <= i < |arr| ==> ret[i] == arr[i][col]
    ensures ret == ColumnOf(arr, col)
  {
    ret := [];
    for i := 0 to |arr|
      invariant |ret| == i
      invariant forall j :: 0 <= j < i ==> ret[j] == arr[j][col]
    {
      ret := ret + [arr[i][col]];
    }
  }

  // ---------------------------------------------------------------------
  // Classifying one frame

  function Abs(x: real): (r: real)
    ensures r >= 0.0 && (r == x || r == -x)
  {
    if x < 0.0 then -x else x
  }

  /** Total linear-acceleration magnitude over the three axes. */
  function MovementSum(f: Frame): (r: real)
    ensures r >= 0.0
    ensures r >= Abs(f[LatXIndex]) && r >= Abs(f[LatYIndex]) && r >= Abs(f[LatZIndex])
  {
    Abs(f[LatXIndex]) + Abs(f[LatYIndex]) + Abs(f[LatZIndex])
  }

  /** Dim lighting: strictly below 200 lux. */
  predicate IsLowLight(f: Frame): (r: bool)
    ensures r <==> f[LuxIndex] < 200.0
  {
    f[LuxIndex] < LowLightLux
  }

  /** Something next to the sensor: proximity strictly below 5. */
  predicate IsClose(f: Frame): (r: bool)
    ensures r <==> f[ProximityIndex] < 5.0
  {
    f[ProximityIndex] < CloseProximity
  }

  /** Louder than conversation: strictly above 60 dB. */
  predicate IsAudible(f: Frame): (r: bool)
    ensures r <==> f[DecibelIndex] > 60.0
  {
    f[DecibelIndex] > AudibleDecibels
  }

  /** Moving: the absolute linear accelerations add up to more than 1. */
  predicate IsActive(f: Frame): (r: bool)
    ensures r <==> Abs(f[LatXIndex]) + Abs(f[LatYIndex]) + Abs(f[LatZIndex]) > 1.0
  {
    MovementSum(f) > ActiveMovement
  }

  /** Dim and with something right next to the sensor. */
  predicate IsPocket(f: Frame)
  {
    IsLowLight(f) && IsClose(f)
  }

  /** In the pocket and above conversation level. */
  predicate IsNoisyPocket(f: Frame)
  {
    IsPocket(f) && IsAudible(f)
  }

  /** A reading exactly at a threshold falls on the "not" side of it. */
  lemma ThresholdsAreStrict(f: Frame)
    ensures f[LuxIndex] == 200.0 ==> !IsLowLight(f)
    ensures f[ProximityIndex] == 5.0 ==> !IsClose(f)
    ensures f[DecibelIndex] == 60.0 ==> !IsAudible(f)
    ensures MovementSum(f) == 1.0 ==> !IsActive(f)
  {
  }

  // ---------------------------------------------------------------------
  // The filter chain

  function LowLightFrames(num: seq<Frame>): (r: seq<Frame>)
    ensures |r| <= |num|
    ensures forall k :: 0 <= k < |r| ==> r[k] in num && IsLowLight(r[k])
  {
    Filter(num, IsLowLight)
  }

  function PocketFrames(num: seq<Frame>): (r: seq<Frame>)
    ensures |r| <= |LowLightFrames(num)|
    ensures forall k :: 0 <= k < |r| ==> r[k] in num && IsLowLight(r[k]) && IsClose(r[k])
  {
    Filter(LowLightFrames(num), IsClose)
  }

  function NoisyFrames(num: seq<Frame>): (r: seq<Frame>)
    ensures |r| <= |PocketFrames(num)|
    ensures forall k :: 0 <= k < |r| ==>
      r[k] in num && IsLowLight(r[k]) && IsClose(r[k]) && IsAudible(r[k])
  {
    Filter(PocketFrames(num), IsAudible)
  }

  function ActiveFrames(num: seq<Frame>): (r: seq<Frame>)
    ensures |r| <= |num|
    ensures forall k :: 0 <= k < |r| ==> r[k] in num && IsActive(r[k])
  {
    Filter(num, IsActive)
  }

  /** Each category is an order-preserving subsequence of the one it is
      filtered from, so the counts can only shrink along the chain. */
  lemma FilterChainIsNested(num: seq<Frame>)
    ensures IsSubsequence(LowLightFrames(num), num)
    ensures IsSubsequence(PocketFrames(num), LowLightFrames(num))
    ensures IsSubsequence(NoisyFrames(num), PocketFrames(num))
    ensures IsSubsequence(NoisyFrames(num), num)
    ensures IsSubsequence(ActiveFrames(num), num)
    ensures |NoisyFrames(num)| <= |PocketFrames(num)| <= |LowLightFrames(num)| <= |num|
  {
    FilterIsSubsequence(num, IsLowLight);
    FilterIsSubsequence(LowLightFrames(num), IsClose);
    FilterIsSubsequence(PocketFrames(num), IsAudible);
    SubsequenceTransitive(PocketFrames(num), LowLightFrames(num), num);
    SubsequenceTransitive(NoisyFrames(num), PocketFrames(num), num);
    FilterIsSubsequence(num, IsActive);
  }

  /** The pocket frames are exactly the frames of the log that are both dim
      and close, each kept as often as it occurs. */
  lemma PocketFramesExactly(num: seq<Frame>, f: Frame)
    ensures PocketFrames(num) == Filter(num, IsPocket)
    ensures multiset(PocketFrames(num))[f] == if IsPocket(f) then multiset(num)[f] else 0
    ensures f in PocketFrames(num) <==> f in num && IsLowLight(f) && IsClose(f)
  {
    FilterTwice(num, IsLowLight, IsClose, IsPocket);
    FilterMultiplicity(num, IsPocket, f);
    FilterMembership(num, IsPocket, f);
  }

  /** The noisy frames are exactly the frames of the log that are dim, close
      and audible, each kept as often as it occurs. */
  lemma NoisyFramesExactly(num: seq<Frame>, f: Frame)
    ensures NoisyFrames(num) == Filter(num, IsNoisyPocket)
    ensures multiset(NoisyFrames(num))[f] == if IsNoisyPocket(f) then multiset(num)[f] else 0
    ensures f in NoisyFrames(num) <==> f in num && IsLowLight(f) && IsClose(f) && IsAudible(f)
  {
    PocketFramesExactly(num, f);
    FilterTwice(num, IsPocket, IsAudible, IsNoisyPocket);
    FilterMultiplicity(num, IsNoisyPocket, f);
    FilterMembership(num, IsNoisyPocket, f);
  }

  // ---------------------------------------------------------------------
  // Per-frame series

  /** The movement magnitude of every frame, appended frame by frame. */
  method MovementSums(num: seq<Frame>) returns (sums: seq<real>)
    ensures |sums| == |num|
    ensures forall i :: 0 <= i < |num| ==> sums[i] == MovementSum(num[i])
    ensures forall i :: 0 <= i < |num| ==> sums[i] >= 0.0
    ensures forall i :: 0 <= i < |num| ==> (IsActive(num[i]) <==> sums[i] > ActiveMovement)
  {
    sums := [];
    for i := 0 to |num|
      invariant |sums| == i
      invariant forall j :: 0 <= j < i ==> sums[j] == MovementSum(num[j])
    {
      var frame := num[i];
      sums := sums + [Abs(frame[LatXIndex]) + Abs(frame[LatYIndex]) + Abs(frame[LatZIndex])];
    }
  }

  /** A 0/1 indicator per frame of whether its movement passes the activity
      threshold; it agrees with `IsActive` and counts the active frames. */
  method ActiveIndicators(num: seq<Frame>) returns (active: seq<int>)
    ensures |active| == |num|
    ensures forall i :: 0 <= i < |num| ==> active[i] == 0 || active[i] == 1
    ensures forall i :: 0 <= i < |num| ==> (active[i] == 1 <==> IsActive(num[i]))
    ensures SumInt(active) == |ActiveFrames(num)|
    ensures SumInt(active) as real * FrameSeconds == ActiveTime(num)
  {
    active := [];
    for i := 0 to |num|
      invariant |active| == i
      invariant forall j :: 0 <= j < i ==> active[j] == if IsActive(num[j]) then 1 else 0
    {
      var frame := num[i];
      if Abs(frame[LatXIndex]) + Abs(frame[LatYIndex]) + Abs(frame[LatZIndex]) > ActiveMovement {
        active := active + [1];
      } else {
        active := active + [0];
      }
    }
    IndicatorSum(num, IsActive, active);
  }

  // ---------------------------------------------------------------------
  // Aggregates

  /** Converts a list of millisecond readings to seconds. */
  function MillisToSeconds(ms: seq<real>): (r: seq<real>)
    ensures |r| == |ms|
    ensures forall i :: 0 <= i < |ms| ==> r[i] * MillisPerSecond == ms[i]
  {
    seq(|ms|, i requires 0 <= i < |ms| => ms[i] / MillisPerSecond)
  }

  /** The time axis: every frame's timestamp, in seconds. */
  function FrameTimes(num: seq<Frame>): (r: seq<real>)
    ensures |r| == |num|
    ensures forall i :: 0 <= i < |num| ==> r[i] == num[i][TimeIndex] / MillisPerSecond
  {
    MillisToSeconds(ColumnOf(num, TimeIndex))
  }

  /** Average illuminance over all frames. */
  function MeanLux(num: seq<Frame>): (r: real)
    requires |num| > 0
    ensures r * |num| as real == Sum(ColumnOf(num, LuxIndex))
  {
    DivMul(Sum(ColumnOf(num, LuxIndex)), |num| as real);
    Sum(ColumnOf(num, LuxIndex)) / |num| as real
  }

  /** The mean lies within any bounds that every frame's illuminance lies in. */
  lemma MeanLuxBetween(num: seq<Frame>, lo: real, hi: real)
    requires |num| > 0
    requires forall i :: 0 <= i < |num| ==> lo <= num[i][LuxIndex] <= hi
    ensures lo <= MeanLux(num) <= hi
  {
    var lux := ColumnOf(num, LuxIndex);
    SumBetween(lux, lo, hi);
    QuotientBetween(Sum(lux), |num| as real, lo, hi);
  }

  /** When every frame is low-light, so is the mean illuminance. */
  lemma AllLowLightMeanIsLowLight(num: seq<Frame>)
    requires |num| > 0
    requires |LowLightFrames(num)| == |num|
    ensures MeanLux(num) < LowLightLux
  {
    FilterKeepsAll(num, IsLowLight);
    var lux := ColumnOf(num, LuxIndex);
    assert forall k :: 0 <= k < |lux| ==> lux[k] < LowLightLux by {
      forall k | 0 <= k < |lux| ensures lux[k] < LowLightLux {
        assert IsLowLight(num[k]);
      }
    }
    SumBelow(lux, LowLightLux);
    QuotientBelow(Sum(lux), |num| as real, LowLightLux);
  }

  lemma QuotientBetween(s: real, n: real, lo: real, hi: real)
    requires n > 0.0 && n * lo <= s <= n * hi
    ensures lo <= s / n <= hi
  {
    var m := s / n;
    assert s == m * n;
    assert (m - lo) * n >= 0.0 && (hi - m) * n >= 0.0;
  }

  lemma DivMul(x: real, y: real)
    requires y != 0.0
    ensures (x / y) * y == x
  {
  }

  lemma PositiveFactor(x: real, y: real)
    requires y > 0.0 && x * y > 0.0
    ensures x > 0.0
  {
  }

  lemma ZeroFactor(x: real, y: real)
    requires y != 0.0 && x * y == 0.0
    ensures x == 0.0
  {
  }

  /** `a` out of `n` as a percentage. */
  lemma PercentOf(a: real, n: real)
    requires n > 0.0 && 0.0 <= a <= n
    ensures 0.0 <= a * 100.0 / n <= 100.0
    ensures a * 100.0 / n == 100.0 <==> a == n
    ensures a * 100.0 / n == 0.0 <==> a == 0.0
  {
    var q := a * 100.0 / n;
    DivMul(a * 100.0, n);
    QuotientBetween(a * 100.0, n, 0.0, 100.0);
    assert (q - 100.0) * n == (a - n) * 100.0;
    if a == n {
      ZeroFactor(q - 100.0, n);
    }
  }

  lemma QuotientBelow(s: real, n: real, c: real)
    requires n > 0.0 && s < n * c
    ensures s / n < c
  {
    var m := s / n;
    assert s == m * n;
    assert (c - m) * n > 0.0;
  }

  /** Time between the first and the last frame, in seconds. */
  function TotalTime(num: seq<Frame>): (r: real)
    requires |num| > 0
    ensures r * MillisPerSecond == num[|num| - 1][TimeIndex] - num[0][TimeIndex]
    ensures |num| == 1 ==> r == 0.0
  {
    (num[|num| - 1][TimeIndex] - num[0][TimeIndex]) / MillisPerSecond
  }

  /** The elapsed time is the span of the time axis. */
  lemma TotalTimeSpansTimeAxis(num: seq<Frame>)
    requires |num| > 0
    ensures TotalTime(num) == FrameTimes(num)[|num| - 1] - FrameTimes(num)[0]
  {
  }

  /** Timestamps that never decrease give a non-negative elapsed time (the
      log is never checked for this). */
  lemma {:induction false} TotalTimeNonNegative(num: seq<Frame>)
    requires |num| > 0
    requires forall i :: 0 < i < |num| ==> num[i - 1][TimeIndex] <= num[i][TimeIndex]
    ensures TotalTime(num) >= 0.0
  {
    if |num| > 1 {
      var init := num[..|num| - 1];
      TotalTimeNonNegative(init);
      assert init[|init| - 1] == num[|num| - 2];
    }
  }

  /** Frames `FrameMillis` apart from the first one, as the log format
      nominally promises (the log is never checked for this). */
  ghost predicate NominallySpaced(num: seq<Frame>)
  {
    forall i :: 0 <= i < |num| ==> num[i][TimeIndex] == num[0][TimeIndex] + (FrameMillis * i) as real
  }

  /** With nominal spacing, n frames span n - 1 frame durations. */
  lemma NominalTotalTime(num: seq<Frame>)
    requires |num| > 0 && NominallySpaced(num)
    ensures TotalTime(num) == (|num| - 1) as real * FrameSeconds
  {
    assert num[|num| - 1][TimeIndex] == num[0][TimeIndex] + (FrameMillis * (|num| - 1)) as real;
  }

  /** Seconds of activity: a fixed `FrameMillis` per active frame, whatever
      the timestamps say. */
  function ActiveTime(num: seq<Frame>): (r: real)
    ensures r == |ActiveFrames(num)| as real * FrameSeconds
    ensures 0.0 <= r <= |num| as real * FrameSeconds
  {
    (FrameMillis * |ActiveFrames(num)|) as real / MillisPerSecond
  }

  /** Active time as a percentage of the elapsed time, as the script
      computes it. */
  function ActivePercentage(num: seq<Frame>): (r: real)
    requires |num| > 0 && TotalTime(num) != 0.0
    ensures r == 0.0 <==> forall k :: 0 <= k < |num| ==> !IsActive(num[k])
    ensures TotalTime(num) > 0.0 ==> r >= 0.0
  {
    FilterKeepsNone(num, IsActive);
    (ActiveTime(num) / TotalTime(num)) * 100.0
  }

  /** With nominal spacing the script's percentage overstates the share of
      active frames by a factor n / (n - 1): active time counts n frame
      durations while the elapsed time spans only n - 1 of them. */
  lemma ActivePercentageOverstates(num: seq<Frame>)
    requires |num| >= 2 && NominallySpaced(num)
    ensures TotalTime(num) != 0.0
    ensures ActivePercentage(num) * (|num| - 1) as real == ActivePercentageOfFrames(num) * |num| as real
  {
    NominalTotalTime(num);
    var n, a, t := |num| as real, |ActiveFrames(num)| as real, TotalTime(num);
    assert FrameSeconds == 0.5;
    assert t == (n - 1.0) * 0.5;
    var q := ActiveTime(num) / t;
    DivMul(ActiveTime(num), t);
    assert q * t == a * 0.5;
    assert ActivePercentage(num) == q * 100.0;
    assert ActivePercentage(num) * (n - 1.0) == a * 100.0;
    DivMul(a * 100.0, n);
    assert ActivePercentageOfFrames(num) * n == a * 100.0;
  }

  /** A nominally spaced log in which every frame is active reports more
      than 100 percent. */
  lemma AllActiveExceedsHundredPercent(num: seq<Frame>)
    requires |num| >= 2 && NominallySpaced(num)
    requires forall k :: 0 <= k < |num| ==> IsActive(num[k])
    ensures TotalTime(num) != 0.0
    ensures ActivePercentage(num) > 100.0
  {
    ActivePercentageOverstates(num);
    var n, pct := |num| as real, ActivePercentage(num);
    assert ActivePercentageOfFrames(num) == 100.0;
    assert pct * (n - 1.0) == 100.0 * n;
    assert (pct - 100.0) * (n - 1.0) == 100.0;
    PositiveFactor(pct - 100.0, n - 1.0);
  }

  /** The share of frames that are active, as a percentage. */
  function ActivePercentageOfFrames(num: seq<Frame>): (r: real)
    requires |num| > 0
    ensures 0.0 <= r <= 100.0
    ensures r == 100.0 <==> forall k :: 0 <= k < |num| ==> IsActive(num[k])
    ensures r == 0.0 <==> forall k :: 0 <= k < |num| ==> !IsActive(num[k])
  {
    FilterKeepsAll(num, IsActive);
    FilterKeepsNone(num, IsActive);
    PercentOf(|ActiveFrames(num)| as real, |num| as real);
    |ActiveFrames(num)| as real * 100.0 / |num| as real
  }

  /** With nominal spacing, the share of active frames is the active time
      divided by the time the frames cover, the last frame's duration
      included. */
  lemma ActivePercentageOfFramesIsTimeShare(num: seq<Frame>)
    requires |num| > 0 && NominallySpaced(num)
    ensures ActivePercentageOfFrames(num) == ActiveTime(num) / (TotalTime(num) + FrameSeconds) * 100.0
  {
    NominalTotalTime(num);
    assert FrameSeconds == 0.5;
    TimeShareArithmetic(|ActiveFrames(num)| as real, |num| as real, TotalTime(num), ActiveTime(num));
  }

  lemma TimeShareArithmetic(a: real, n: real, elapsed: real, activeSeconds: real)
    requires n > 0.0 && elapsed == (n - 1.0) * 0.5 && activeSeconds == a * 0.5
    ensures a * 100.0 / n == activeSeconds / (elapsed + 0.5) * 100.0
  {
    var covered := elapsed + 0.5;
    var u := activeSeconds / covered;
    DivMul(activeSeconds, covered);
    assert u * n == a;
    var share := a * 100.0 / n;
    DivMul(a * 100.0, n);
    assert (share - u * 100.0) * n == 0.0;
    ZeroFactor(share - u * 100.0, n);
  }
}
