/** One interaction cycle of the dashboard, run top to bottom on every widget
    change: truncate the fetched series, normalise it, encode spikes, run the
    neuron, forecast, and derive the summary figures and the alert flag. */
module Dashboard {
  import opened Series
  import opened Signal
  import opened Neuron
  import opened Forecast
  import opened Alert

  /** Why a cycle ends before the alert check. */
  datatype CycleError =
    | ConstantSeries  // `max(wind) - min(wind)` is zero: the handler shows the error and stops the run
    | EmptyOutputs    // `max(outputs)` in the summary on an empty batch: an uncaught exception
    | RaggedTable     // the export table's columns differ in length: an uncaught exception

  datatype Result<+T> = Ok(value: T) | Err(error: CycleError)

  /** Everything one cycle hands to the chart, the summary and the export. */
  datatype View = View(
    wind: seq<real>,
    norm: seq<real>,
    spikes: seq<nat>,
    outputs: seq<real>,
    preds: seq<Option<real>>,
    spikeCount: nat,
    maxOutput: real,
    maxWind: real,
    nextHour: Option<real>,
    alert: bool)

  /** The cycle for one fetched series and the widget values: the spike
      threshold, the forecast window (the slider offers 1 to 5 hours) and
      the alert checkbox. The neuron update is the parameter `step`. */
  method Interact(fetched: seq<real>, threshold: real, window: nat, armed: bool, step: LifStep)
    returns (r: Result<View>)
    requires window >= 1
    ensures var wind := Truncate(fetched);
      && (r == Err(ConstantSeries) <==> |wind| > 0 && Constant(wind))
      && (r == Err(EmptyOutputs) <==> |wind| == 0)
      && (r == Err(RaggedTable) <==> 0 < |wind| < Hours && !Constant(wind))
      && (r.Ok? <==> |wind| == Hours && !Constant(wind))
    ensures r.Ok? ==>
      var v := r.value;
      && v.wind == Truncate(fetched)
      && Normalize(v.wind) == Some(v.norm)
      && v.spikes == Spikes(v.norm, threshold)
      && v.outputs == Trace(step, v.spikes)
      && v.preds == Pad(SlidingMeans(v.wind, window), Hours)
      && v.spikeCount == |Above(v.norm, threshold)|
      && v.maxOutput == Max(v.outputs)
      && v.maxWind == Max(v.wind)
      && v.nextHour == NextHour(v.preds, |v.spikes|)
      && v.alert == Triggered(armed, v.wind)
    ensures r.Ok? ==>
      var v := r.value;
      && |v.wind| == |v.norm| == |v.spikes| == |v.outputs| == |v.preds| == Hours
      && v.spikeCount <= Hours
      && (v.nextHour.Some? <==> window == 1)
  {
    var wind := Truncate(fetched);
    var normalized := Normalize(wind);
    if normalized.None? {
      return Err(ConstantSeries);
    }
    var norm := normalized.value;
    var spikes := Spikes(norm, threshold);

    var outputs, _ := Simulate(step, spikes);

    var preds := Pad(SlidingMeans(wind, window), Hours);

    SpikeCountIsAbove(norm, threshold);
    var spikeCount := SpikeCount(spikes);
    if |outputs| == 0 {
      return Err(EmptyOutputs);
    }
    var maxOutput := Max(outputs);
    var maxWind := Max(wind);
    var nextHour := NextHour(preds, |spikes|);
    NextHourIffWindowOne(wind, window);

    // The export table has a 24-row "Heure" column beside the series.
    if |wind| != Hours || |norm| != Hours || |spikes| != Hours || |outputs| != Hours || |preds| != Hours {
      return Err(RaggedTable);
    }

    var alert := Triggered(armed, wind);
    r := Ok(View(wind, norm, spikes, outputs, preds, spikeCount, maxOutput, maxWind, nextHour, alert));
  }
}
