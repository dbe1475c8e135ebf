/** The first half of the interaction cycle: truncate the fetched hourly wind
    speeds, min-max normalise them and threshold them into a spike train. */
module Signal {
  import opened Series

  /** The slice `[:24]` of the fetched list. */
  function Truncate(fetched: seq<real>): (wind: seq<real>)
    ensures |wind| == if |fetched| < Hours then |fetched| else Hours
    ensures wind <= fetched
  {
    if |fetched| < Hours then fetched else fetched[..Hours]
  }

  /** One sample scaled by the batch minimum `lo` and maximum `hi`. Scaling
      back by the spread recovers the sample's offset from the minimum. */
  function Scale(w: real, lo: real, hi: real): (scaled: real)
    requires lo < hi
    ensures scaled * (hi - lo) == w - lo
  {
    (w - lo) / (hi - lo)
  }

  /** Min-max normalisation of the whole batch. Python evaluates `min` and
      `max` only inside the comprehension, so an empty batch normalises to an
      empty series; a constant batch divides by zero, which is `None` here. */
  function Normalize(wind: seq<real>): (r: Option<seq<real>>)
    ensures r.None? <==> |wind| > 0 && Constant(wind)
    ensures r.Some? ==> |r.value| == |wind|
  {
    if |wind| == 0 then Some([])
    else
      MinMaxEqualIffConstant(wind);
      if Min(wind) == Max(wind) then None
      else Some(seq(|wind|, i requires 0 <= i < |wind| => Scale(wind[i], Min(wind), Max(wind))))
  }

  /** A scaled sample of the batch lies in [0, 1]; it is 0 exactly at the
      minimum and 1 exactly at the maximum. */
  lemma ScaleRange(w: real, lo: real, hi: real)
    requires lo <= w <= hi && lo < hi
    ensures 0.0 <= Scale(w, lo, hi) <= 1.0
    ensures Scale(w, lo, hi) == 0.0 <==> w == lo
    ensures Scale(w, lo, hi) == 1.0 <==> w == hi
  {
    var d := hi - lo;
    var q := Scale(w, lo, hi);
    assert q * d == w - lo;
    assert (q - 1.0) * d == w - hi;
  }

  /** Scaling by a positive spread keeps the order of two samples, both ways. */
  lemma ScaleOrder(u: real, w: real, lo: real, hi: real)
    requires lo < hi
    ensures Scale(u, lo, hi) <= Scale(w, lo, hi) <==> u <= w
  {
    var d := hi - lo;
    assert Scale(u, lo, hi) * d == u - lo;
    assert Scale(w, lo, hi) * d == w - lo;
    if Scale(u, lo, hi) <= Scale(w, lo, hi) {
      assert (Scale(w, lo, hi) - Scale(u, lo, hi)) * d >= 0.0;
    }
    if u <= w {
      assert (Scale(w, lo, hi) - Scale(u, lo, hi)) * d == w - u;
    }
  }

  /** A normalised sample exceeds `t` exactly when the raw sample exceeds
      `lo + t * (hi - lo)`. */
  lemma ScaleAbove(w: real, t: real, lo: real, hi: real)
    requires lo < hi
    ensures Scale(w, lo, hi) > t <==> w > lo + t * (hi - lo)
  {
    var d := hi - lo;
    var q := Scale(w, lo, hi);
    assert q * d == w - lo;
    if q > t {
      assert (q - t) * d > 0.0;
    }
    if w > lo + t * d {
      assert (q - t) * d == w - lo - t * d;
    }
  }

  /** The normalised series of a non-constant batch: every value in [0, 1],
      0 exactly where the sample is the minimum, 1 exactly where it is the
      maximum, and the order of the samples kept. */
  lemma NormalizeRange(wind: seq<real>)
    requires |wind| > 0 && !Constant(wind)
    ensures Normalize(wind).Some?
    ensures var norm := Normalize(wind).value;
      forall i :: 0 <= i < |wind| ==>
        0.0 <= norm[i] <= 1.0 &&
        (norm[i] == 0.0 <==> wind[i] == Min(wind)) &&
        (norm[i] == 1.0 <==> wind[i] == Max(wind))
    ensures var norm := Normalize(wind).value;
      forall i, j :: 0 <= i < |wind| && 0 <= j < |wind| ==>
        (norm[i] <= norm[j] <==> wind[i] <= wind[j])
  {
    MinMaxEqualIffConstant(wind);
    var lo, hi := Min(wind), Max(wind);
    var norm := Normalize(wind).value;
    forall i | 0 <= i < |wind|
      ensures 0.0 <= norm[i] <= 1.0
      ensures norm[i] == 0.0 <==> wind[i] == lo
      ensures norm[i] == 1.0 <==> wind[i] == hi
    {
      ScaleRange(wind[i], lo, hi);
    }
    forall i, j | 0 <= i < |wind| && 0 <= j < |wind|
      ensures norm[i] <= norm[j] <==> wind[i] <= wind[j]
    {
      ScaleOrder(wind[i], wind[j], lo, hi);
    }
  }

  /** The comprehension `[1 if w > threshold else 0 for w in wind_norm]`. */
  function Spikes(norm: seq<real>, threshold: real): (spikes: seq<nat>)
    ensures |spikes| == |norm|
    ensures forall i :: 0 <= i < |norm| ==> spikes[i] <= 1
    ensures forall i :: 0 <= i < |norm| ==> (spikes[i] == 1 <==> norm[i] > threshold)
  {
    seq(|norm|, i requires 0 <= i < |norm| => if norm[i] > threshold then 1 else 0)
  }

  /** The normalised series of a non-empty, non-constant batch, sample by sample. */
  lemma NormalizeAt(wind: seq<real>)
    requires |wind| > 0 && !Constant(wind)
    ensures Min(wind) < Max(wind)
    ensures Normalize(wind).Some?
    ensures |Normalize(wind).value| == |wind|
    ensures forall i :: 0 <= i < |wind| ==> Normalize(wind).value[i] == Scale(wind[i], Min(wind), Max(wind))
  {
    MinMaxEqualIffConstant(wind);
  }

  /** Thresholding a scaled series is thresholding the raw series at the
      level `lo + threshold * (hi - lo)`. */
  lemma SpikesAtLevel(wind: seq<real>, norm: seq<real>, threshold: real, lo: real, hi: real, level: real)
    requires lo < hi && |norm| == |wind| && level == lo + threshold * (hi - lo)
    requires forall i :: 0 <= i < |wind| ==> norm[i] == Scale(wind[i], lo, hi)
    ensures forall i :: 0 <= i < |wind| ==> (Spikes(norm, threshold)[i] == 1 <==> wind[i] > level)
  {
    forall i | 0 <= i < |wind|
      ensures norm[i] > threshold <==> wind[i] > level
    {
      ScaleAbove(wind[i], threshold, lo, hi);
    }
  }

  /** On the normalised series, a spike fires exactly where the raw sample
      exceeds `min + threshold * (max - min)`. */
  lemma SpikeIffRawAbove(wind: seq<real>, norm: seq<real>, threshold: real, lo: real, hi: real)
    requires Normalize(wind) == Some(norm)
    requires |wind| > 0 && lo == Min(wind) && hi == Max(wind)
    ensures forall i :: 0 <= i < |wind| ==> (Spikes(norm, threshold)[i] == 1 <==> wind[i] > lo + threshold * (hi - lo))
  {
    NormalizeAt(wind);
    SpikesAtLevel(wind, norm, threshold, lo, hi, lo + threshold * (hi - lo));
  }

  /** Python `sum(spikes)`: the number of spikes shown in the summary. */
  function SpikeCount(spikes: seq<nat>): (count: nat)
    ensures (forall i :: 0 <= i < |spikes| ==> spikes[i] <= 1) ==> count <= |spikes|
    ensures count == 0 <==> forall i :: 0 <= i < |spikes| ==> spikes[i] == 0
  {
    if spikes == [] then 0 else SpikeCount(spikes[..|spikes| - 1]) + spikes[|spikes| - 1]
  }

  /** The hours whose normalised value exceeds the threshold. */
  function Above(norm: seq<real>, threshold: real): set<nat>
  {
    set i: nat | i < |norm| && norm[i] > threshold
  }

  /** The spike count is the number of hours strictly above the threshold,
      and so lies between 0 and the number of hours. */
  lemma {:induction false} SpikeCountIsAbove(norm: seq<real>, threshold: real)
    ensures SpikeCount(Spikes(norm, threshold)) == |Above(norm, threshold)|
    ensures SpikeCount(Spikes(norm, threshold)) <= |norm|
  {
    var n := |norm|;
    if n == 0 {
      assert Above(norm, threshold) == {};
    } else {
      var init := norm[..n - 1];
      SpikeCountIsAbove(init, threshold);
      var spikes := Spikes(norm, threshold);
      assert spikes[..n - 1] == Spikes(init, threshold);
      var last := if norm[n - 1] > threshold then {n - 1} else {};
      assert Above(norm, threshold) == Above(init, threshold) + last;
      assert (n - 1) !in Above(init, threshold);
    }
  }
}
