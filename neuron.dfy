/** The leaky-integrate-and-fire simulation: one neuron driven by the spike
    train, one step per hour. The update equation itself belongs to an
    external library, so it is a parameter here; what is modelled is how the
    script threads the neuron state through the train. */
module Neuron {

  /** The neuron state threaded through the loop: spike output `z`, membrane
      potential `v` and synaptic current `i`. */
  datatype LifState = LifState(z: real, v: real, i: real)

  /** The state the script builds before the loop: every component zero. */
  const ZeroState: LifState := LifState(0.0, 0.0, 0.0)

  /** One call of the library's update: from the input current and the
      previous state, the step's output and the next state. The input and
      recurrent weights (identity matrices) and the parameters are fixed for
      the whole run, so they are folded into the step. */
  type LifStep = (real, LifState) -> (real, LifState)

  /** The loop's own reading of the state: feed `train` from the front,
      starting in state `from`, keeping only the state. */
  function Run(step: LifStep, from: LifState, train: seq<nat>): LifState
    decreases |train|
  {
    if train == [] then from else Run(step, step(train[0] as real, from).1, train[1..])
  }

  /** Feeding one more spike after a run is one more step. */
  lemma {:induction false} RunSnoc(step: LifStep, from: LifState, train: seq<nat>, x: nat)
    ensures Run(step, from, train + [x]) == step(x as real, Run(step, from, train)).1
    decreases |train|
  {
    if train == [] {
      assert ([] + [x])[1..] == [];
    } else {
      assert (train + [x])[1..] == train[1..] + [x];
      RunSnoc(step, step(train[0] as real, from).1, train[1..], x);
    }
  }

  /** The state after feeding the spikes of `train`, in order, from the zero
      state; it agrees with the front-to-back run of the loop. */
  function StateAfter(step: LifStep, train: seq<nat>): (state: LifState)
    ensures state == Run(step, ZeroState, train)
  {
    if train == [] then ZeroState
    else
      var prefix := train[..|train| - 1];
      var last := train[|train| - 1];
      assert prefix + [last] == train;
      RunSnoc(step, ZeroState, prefix, last);
      step(last as real, StateAfter(step, prefix)).1
  }

  /** The outputs of feeding `train` from the zero state, one per spike. */
  function Trace(step: LifStep, train: seq<nat>): (outputs: seq<real>)
    ensures |outputs| == |train|
  {
    if train == [] then []
    else
      var prefix := train[..|train| - 1];
      Trace(step, prefix) + [step(train[|train| - 1] as real, StateAfter(step, prefix)).0]
  }

  /** Output k of the trace is step k applied to the k-th spike and to the
      state left by steps 0..k-1. */
  lemma {:induction false} TraceAt(step: LifStep, train: seq<nat>)
    ensures forall k :: 0 <= k < |train| ==>
      Trace(step, train)[k] == step(train[k] as real, StateAfter(step, train[..k])).0
  {
    if train != [] {
      var n := |train|;
      var prefix := train[..n - 1];
      TraceAt(step, prefix);
      forall k | 0 <= k < n
        ensures Trace(step, train)[k] == step(train[k] as real, StateAfter(step, train[..k])).0
      {
        if k < n - 1 {
          assert prefix[..k] == train[..k];
        } else {
          assert train[..k] == prefix;
        }
      }
    }
  }

  /** The simulation is causal: the outputs for the first k hours depend only
      on the first k spikes. */
  lemma {:induction false} TracePrefix(step: LifStep, train: seq<nat>, k: nat)
    requires k <= |train|
    ensures Trace(step, train[..k]) == Trace(step, train)[..k]
  {
    TraceAt(step, train);
    TraceAt(step, train[..k]);
    forall j | 0 <= j < k
      ensures Trace(step, train[..k])[j] == Trace(step, train)[j]
    {
      assert train[..k][..j] == train[..j];
    }
  }

  /** The script's loop: start from the zero state, feed each spike as a
      real input, keep the new state and append the step's output. */
  method Simulate(step: LifStep, spikes: seq<nat>) returns (outputs: seq<real>, state: LifState)
    ensures |outputs| == |spikes|
    ensures outputs == Trace(step, spikes)
    ensures state == StateAfter(step, spikes)
  {
    state := ZeroState;
    outputs := [];
    var k := 0;
    while k < |spikes|
      invariant 0 <= k <= |spikes|
      invariant outputs == Trace(step, spikes[..k])
      invariant |outputs| == k
      invariant state == StateAfter(step, spikes[..k])
    {
      var (z, next) := step(spikes[k] as real, state);
      state := next;
      outputs := outputs + [z];
      assert spikes[..k + 1][..k] == spikes[..k];
      k := k + 1;
    }
    assert spikes[..k] == spikes;
  }
}
