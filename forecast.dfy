/** The naive forecast: a sliding-window mean of the raw wind samples, padded
    with "no value" up to one entry per hour, and the entry the summary shows
    as the prediction for the next hour. */
module Forecast {
  import opened Series

  /** The number of windows, `len(range(len(wind) - window + 1))`: Python's
      `range` of a negative bound is empty. */
  function WindowCount(n: nat, window: nat): (count: nat)
    ensures count > 0 ==> count - 1 + window <= n
    ensures count + window > n
  {
    if window <= n then n - window + 1 else 0
  }

  /** The comprehension `[sum(wind[i:i+w]) / w for i in range(len(wind)-w+1)]`. */
  function SlidingMeans(wind: seq<real>, window: nat): (preds: seq<real>)
    requires window >= 1
    ensures |preds| == WindowCount(|wind|, window)
  {
    seq(WindowCount(|wind|, window),
        i requires 0 <= i < WindowCount(|wind|, window) =>
          Sum(wind[i..i + window]) / (window as real))
  }

  /** A mean lies between `lo` and `hi` when `k` copies of each bound the total. */
  lemma MeanBetween(k: real, lo: real, hi: real, total: real)
    requires k > 0.0 && k * lo <= total <= k * hi
    ensures lo <= total / k <= hi
  {
    var m := total / k;
    assert k * m == total;
    assert k * (m - lo) == total - k * lo;
    assert k * (hi - m) == k * hi - total;
  }

  /** The mean of a non-empty slice lies between any bounds of its samples. */
  lemma SliceMeanBetween(slice: seq<real>, lo: real, hi: real)
    requires |slice| > 0
    requires forall i :: 0 <= i < |slice| ==> lo <= slice[i] <= hi
    ensures lo <= Sum(slice) / (|slice| as real) <= hi
  {
    SumScaledBounds(slice, lo, hi);
    MeanBetween(|slice| as real, lo, hi, Sum(slice));
  }

  /** Every forecast value lies between the smallest and the largest sample
      of its own window. */
  lemma MeansWithinWindow(wind: seq<real>, window: nat)
    requires window >= 1
    ensures forall i :: 0 <= i < |SlidingMeans(wind, window)| ==>
      Min(wind[i..i + window]) <= SlidingMeans(wind, window)[i] <= Max(wind[i..i + window])
  {
    var preds := SlidingMeans(wind, window);
    forall i | 0 <= i < |preds|
      ensures Min(wind[i..i + window]) <= preds[i] <= Max(wind[i..i + window])
    {
      var slice := wind[i..i + window];
      SliceMeanBetween(slice, Min(slice), Max(slice));
    }
  }

  /** A window of one hour forecasts each hour by its own sample. */
  lemma WindowOneIsIdentity(wind: seq<real>)
    ensures SlidingMeans(wind, 1) == wind
  {
    var preds := SlidingMeans(wind, 1);
    forall i | 0 <= i < |wind| ensures preds[i] == wind[i] {
      assert wind[i..i + 1] == [wind[i]];
      SumSingleton(wind[i]);
    }
  }

  /** `preds += [None] * (size - len(preds))`: the values become present
      entries, followed by as many absent ones as the size asks for. */
  function Pad(preds: seq<real>, size: nat): (padded: seq<Option<real>>)
    ensures |padded| == if |preds| < size then size else |preds|
    ensures forall i :: 0 <= i < |preds| ==> padded[i] == Some(preds[i])
    ensures forall i :: |preds| <= i < |padded| ==> padded[i] == None
  {
    var present := seq(|preds|, i requires 0 <= i < |preds| => Some(preds[i]));
    present + seq(if |preds| < size then size - |preds| else 0, _ => None)
  }

  /** `preds[len(spikes) - 1] if preds and len(preds) >= len(spikes) else None`,
      with Python's index -1 (the last entry) when there are no spikes. A
      value shown is always one of the forecast entries. */
  function NextHour(padded: seq<Option<real>>, hours: nat): (val: Option<real>)
    ensures |padded| < hours ==> val == None
    ensures val.Some? ==> exists i :: 0 <= i < |padded| && padded[i] == val
  {
    if |padded| > 0 && |padded| >= hours then
      if hours >= 1 then padded[hours - 1] else padded[|padded| - 1]
    else None
  }

  /** For a batch of 1 to `Hours` hours padded to `Hours` entries, the next-hour value
      is present exactly when the window is one hour, and is then the last
      sample; every wider window leads to the warning. */
  lemma NextHourIffWindowOne(wind: seq<real>, window: nat)
    requires 1 <= |wind| <= Hours && window >= 1
    ensures var val := NextHour(Pad(SlidingMeans(wind, window), Hours), |wind|);
      (val.Some? <==> window == 1) && (window == 1 ==> val == Some(wind[|wind| - 1]))
  {
    if window == 1 {
      WindowOneIsIdentity(wind);
    }
  }
}
