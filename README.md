# Neuromorphic wind dashboard — signal pipeline model

The dashboard (`main.py`) fetches hourly wind speeds (km/h) for a city in
West Africa and, on every widget change, runs one pass of a signal pipeline
over them:

1. keep the first 24 hourly samples;
2. min-max normalise them with the batch minimum and maximum (a constant
   non-empty batch divides by zero, the exception handler shows the error and
   stops the run; an empty batch never evaluates `min` and normalises to an
   empty list);
3. turn each normalised value into a spike (1) when it is strictly above the
   user's threshold, else 0, and count the spikes;
4. drive one leaky-integrate-and-fire (LIF) neuron with the spike train, one
   library step per hour, starting from the zero state, collecting one output
   per step;
5. forecast with a sliding-window mean of the raw samples, padded with `None`
   up to 24 entries, and show entry `len(spikes) - 1` as the next-hour value
   (or a warning when it is `None`);
6. build the export table, whose hour column always has 24 rows;
7. arm an e-mail alert when the checkbox is ticked and the raw maximum is
   strictly above 30 km/h.

Two inputs end the cycle with an uncaught exception rather than in the
handler: an empty batch fails at `max(outputs)` in the summary, and a batch of
1 to 23 samples fails when the export table is built from columns of
different lengths. Only a full batch of 24 non-constant samples reaches the
alert.

The Dafny model keeps all values as mathematical reals and all series as
sequences. Modules follow the pipeline:

- `series.dfy` — `Series`: Python's `min`, `max` and `sum`, and the `Option`
  type for forecast slots.
- `signal.dfy` — `Signal`: truncation, normalisation with its
  division-by-zero case, spike encoding and the spike count.
- `neuron.dfy` — `Neuron`: the LIF loop over an abstract step function.
- `forecast.dfy` — `Forecast`: sliding means, padding, the next-hour pick.
- `alert.dfy` — `Alert`: the alert condition.
- `dashboard.dfy` — `Dashboard`: one whole interaction cycle, step by step,
  with the three ways it can end early.

The LIF update itself comes from an external library. It is the parameter
`step: (real, LifState) -> (real, LifState)`: from the input current and the
previous state `(z, v, i)` it gives the step's output and the next state. The
fixed identity weights and the neuron parameters are folded into it. The
model proves only how the script threads the state through that step.

## Model

| member | source | states |
|---|---|---|
| Series.Min | main.py:34 | `min(wind)` of a non-empty series is one of its samples and no sample is below it |
| Series.Max | main.py:75 | `max(wind)` of a non-empty series is one of its samples and no sample is above it |
| Series.SumAtLeast | main.py:53 | `sum(s)` is at least `len(s)` copies of any lower bound of the samples |
| Series.SumAtMost | main.py:53 | `sum(s)` is at most `len(s)` copies of any upper bound of the samples |
| Series.SumScaledBounds | main.py:53 | `sum(s)` lies between `len(s) * lo` and `len(s) * hi` for any bounds `lo`, `hi` of the samples |
| Series.SumSingleton | main.py:53 | the sum of a one-sample slice is that sample |
| Series.MinMaxEqualIffConstant | main.py:34 | the divisor `max(wind) - min(wind)` is zero exactly when all samples are equal |
| Signal.Truncate | main.py:33 | `wind` is a prefix of the fetched list of length min(24, n) |
| Signal.Scale | main.py:34 | the scaled sample times the batch range `max - min` is the sample's distance from the minimum |
| Signal.Normalize | main.py:34-39 | fails (division by zero) exactly on a constant non-empty batch; otherwise yields one value per sample, an empty list for an empty batch |
| Signal.ScaleRange | main.py:34 | a sample between the batch extremes scales into [0, 1], to 0 exactly at the minimum and to 1 exactly at the maximum |
| Signal.ScaleOrder | main.py:34 | scaling keeps the order of two samples, in both directions |
| Signal.ScaleAbove | main.py:34-36 | a scaled sample exceeds t exactly when the raw sample exceeds min + t * (max - min) |
| Signal.NormalizeAt | main.py:34 | for a non-constant batch normalisation succeeds and entry i is `(wind[i] - min) / (max - min)` |
| Signal.NormalizeRange | main.py:34 | for a non-constant batch every normalised value is in [0, 1], is 0 iff the sample is the minimum, is 1 iff it is the maximum, and the order of samples is kept |
| Signal.Spikes | main.py:36 | one spike per normalised value; each is 0 or 1, and 1 exactly when the value is strictly above the threshold |
| Signal.SpikesAtLevel | main.py:34-36 | thresholding a min-max scaled series at t is thresholding the raw series at lo + t * (hi - lo) |
| Signal.SpikeIffRawAbove | main.py:34-36 | on the normalised batch a spike fires exactly where the raw sample is strictly above min + threshold * (max - min) |
| Signal.SpikeCount | main.py:73 | `sum(spikes)` of a 0/1 train is at most its length, and is 0 exactly when no spike fires |
| Signal.SpikeCountIsAbove | main.py:73 | `sum(spikes)` equals the number of hours whose normalised value is strictly above the threshold, and is at most the number of hours |
| Neuron.RunSnoc | main.py:46-48 | feeding one more spike to the loop's state is one more application of the step |
| Neuron.StateAfter | main.py:42-48 | the state after a train is the zero state threaded through the step, spike by spike from the front, as the loop does |
| Neuron.Trace | main.py:45-49 | the collected outputs have one entry per spike |
| Neuron.TraceAt | main.py:42-49 | output k is the step applied to spike k and to the state left by steps 0..k-1, starting from the zero state |
| Neuron.TracePrefix | main.py:46-49 | the outputs for the first k hours depend only on the first k spikes |
| Neuron.Simulate | main.py:42-49 | the loop returns exactly the trace (one output per spike, in order) and the state after the last spike |
| Forecast.WindowCount | main.py:53 | the number of windows: every counted window fits in the series, and one more would not |
| Forecast.SlidingMeans | main.py:53 | the forecast has max(0, n - window + 1) entries |
| Forecast.SliceMeanBetween | main.py:53 | the mean of a window lies between any lower and upper bound of its samples |
| Forecast.MeansWithinWindow | main.py:53 | every forecast value lies between the smallest and largest sample of its window |
| Forecast.WindowOneIsIdentity | main.py:53 | a one-hour window forecasts each hour by its own sample |
| Forecast.Pad | main.py:54 | padding to 24 keeps every forecast value in place as a present entry and fills the rest, up to 24 entries, with `None` |
| Forecast.NextHour | main.py:77 | no value when the padded list is shorter than the spike count, and a value shown is always one of the forecast entries |
| Forecast.NextHourIffWindowOne | main.py:77-82 | for 1 to 24 samples the next-hour value is present exactly when the window is 1, and then equals the last sample; otherwise the warning branch is taken |
| Alert.Triggered | main.py:99 | an unarmed alert never fires, whatever the data |
| Alert.TriggeredIffSomeHourAbove | main.py:99 | the alert fires exactly when armed and some raw sample is strictly above 30 km/h |
| Dashboard.Interact | main.py:33-99 | the cycle stops in the handler exactly on a constant non-empty batch, fails at `max(outputs)` exactly on an empty batch, fails at the export table exactly on a non-constant batch of 1 to 23 samples, and reaches the alert exactly on 24 non-constant samples; then every series and summary figure is the one the stages define, all series have 24 entries, the spike count is at most 24 and a next-hour value exists exactly when the window is 1 |

## Left out

- The Streamlit page, widgets and messages (main.py:15-16, 26, 35, 52, 98, 103, 105): the slider values are parameters; the window is only required to be at least 1, the threshold is unconstrained.
- The city table and the HTTP fetch with JSON decoding (main.py:19-32): the fetched hourly list is the input `fetched`; a failed fetch is not modelled.
- The internals of the library's LIF step and the tensors around it (main.py:12, 42-48): the step is the parameter `step`.
- The chart (main.py:57-69), the CSV export (main.py:87-96) and the e-mail sending (main.py:100-117): rendering, serialisation and network I/O. The sending path refers to names the script never imports, so it always ends in its own exception handler; only the condition guarding it is modelled.
- Floating-point rounding: all arithmetic is on exact reals, so `Normalize` divides exactly and the sliding mean is exact.
- A fetch with fewer than 24 samples is not rejected when it is truncated; the shorter series runs through the stages until the export table (main.py:87-94) fails on its 24-row hour column, which `Dashboard.Interact` models as the `RaggedTable` error.
- The chart and the summary lines written before an uncaught failure are page output; `Dashboard.Interact` returns only the error in that case.
- The in-place extension of `preds` (main.py:54) is modelled by `Forecast.Pad` returning the extended sequence; no other reference to the list exists, so nothing can observe the difference.
