/** The periodic lag-spike network scenario as a step machine: wait one interval, then fire
    one lag spike of the configured duration unless the scenario is paused or the duration
    is 0; cancelling ends the loop. Each completed interval wait is one input. */
module LagSpikeScenario {
  import opened NetworkEvents

  /** The scenario's serialized settings, in milliseconds. */
  datatype Settings = Settings(intervalMs: int, durationMs: int)

  /** The scenario between two loop steps. `running` turns false when the loop ends, by a
      cancellation or by a wait the runtime refuses; `intervals` counts the completed waits. */
  datatype State = State(paused: bool, running: bool, intervals: nat)

  /** What the host does: an interval wait completes, the pause flag is set, or the scenario
      is cancelled. */
  datatype Input = IntervalElapsed | SetPaused(paused: bool) | Cancel

  datatype Outcome = Outcome(state: State, calls: seq<ApiCall>)

  /** The state the scenario starts in. */
  function Start(): (s: State)
    ensures s.running && !s.paused && s.intervals == 0
  {
    State(false, true, 0)
  }

  /** `Task.Delay` waits for a non-negative interval; -1 means forever, and anything below
      throws, which ends the loop. */
  predicate WaitCompletes(settings: Settings) {
    settings.intervalMs >= 0
  }

  /** The spike the scenario fires at the end of an interval, if any. */
  function Spike(settings: Settings, s: State): (calls: seq<ApiCall>)
    ensures |calls| <= 1
    ensures calls != [] <==> !s.paused && settings.durationMs != 0
    ensures forall c :: c in calls ==> c == TriggerLagSpikeAsync(settings.durationMs)
  {
    if s.paused || settings.durationMs == 0 then [] else [TriggerLagSpikeAsync(settings.durationMs)]
  }

  /** One input. Once the loop has ended nothing happens. */
  function Step(settings: Settings, s: State, input: Input): (o: Outcome)
    ensures !s.running ==> o == Outcome(s, [])
    ensures s.running && input.Cancel? ==> o == Outcome(s.(running := false), [])
    ensures s.running && input.SetPaused? ==> o == Outcome(s.(paused := input.paused), [])
    ensures s.running && input.IntervalElapsed? && WaitCompletes(settings) ==>
      && o.state == s.(intervals := s.intervals + 1)
      && o.calls == Spike(settings, s)
    ensures s.running && input.IntervalElapsed? && settings.intervalMs < -1 ==>
      o == Outcome(s.(running := false), [])
    ensures s.running && input.IntervalElapsed? && settings.intervalMs == -1 ==> o == Outcome(s, [])
  {
    if !s.running then Outcome(s, [])
    else
      match input
      case Cancel => Outcome(s.(running := false), [])
      case SetPaused(p) => Outcome(s.(paused := p), [])
      case IntervalElapsed =>
        if settings.intervalMs < -1 then Outcome(s.(running := false), [])
        else if settings.intervalMs == -1 then Outcome(s, [])
        else Outcome(s.(intervals := s.intervals + 1), Spike(settings, s))
  }

  datatype Trace = Trace(state: State, calls: seq<ApiCall>)

  function Run(settings: Settings, s: State, inputs: seq<Input>): (t: Trace)
    decreases |inputs|
    ensures !s.running ==> t == Trace(s, [])
    ensures t.state.intervals >= s.intervals
  {
    if |inputs| == 0 then Trace(s, [])
    else
      var o := Step(settings, s, inputs[0]);
      var rest := Run(settings, o.state, inputs[1..]);
      Trace(rest.state, o.calls + rest.calls)
  }

  /** `n` interval waits in a row. */
  function Intervals(n: nat): (inputs: seq<Input>)
    ensures |inputs| == n
    ensures forall i :: 0 <= i < n ==> inputs[i] == IntervalElapsed
  {
    seq(n, _ => IntervalElapsed)
  }

  /** `n` copies of the spike the settings call for. */
  function Spikes(settings: Settings, n: nat): (calls: seq<ApiCall>)
    ensures |calls| == n
    ensures forall i :: 0 <= i < n ==> calls[i] == TriggerLagSpikeAsync(settings.durationMs)
  {
    seq(n, _ => TriggerLagSpikeAsync(settings.durationMs))
  }

  /** Running `a` then `b` is running `a + b`. */
  lemma {:induction false} RunAppend(settings: Settings, s: State, a: seq<Input>, b: seq<Input>)
    ensures var first := Run(settings, s, a);
      var second := Run(settings, first.state, b);
      Run(settings, s, a + b) == Trace(second.state, first.calls + second.calls)
    decreases |a|
  {
    if |a| == 0 {
      assert a + b == b;
    } else {
      assert (a + b)[0] == a[0] && (a + b)[1..] == a[1..] + b;
      var o := Step(settings, s, a[0]);
      RunAppend(settings, o.state, a[1..], b);
      var tail := Run(settings, o.state, a[1..]);
      var second := Run(settings, tail.state, b);
      assert o.calls + (tail.calls + second.calls) == (o.calls + tail.calls) + second.calls;
    }
  }

  /** Every completed interval of a running, unpaused scenario fires exactly one spike of
      exactly the configured duration, when that duration is not 0. */
  lemma {:induction false} EverySpikeFires(settings: Settings, s: State, n: nat)
    requires s.running && !s.paused && WaitCompletes(settings) && settings.durationMs != 0
    ensures Run(settings, s, Intervals(n)) == Trace(s.(intervals := s.intervals + n), Spikes(settings, n))
    decreases n
  {
    if n > 0 {
      var inputs := Intervals(n);
      assert inputs[0] == IntervalElapsed && inputs[1..] == Intervals(n - 1);
      EverySpikeFires(settings, s.(intervals := s.intervals + 1), n - 1);
      assert Spikes(settings, n) == [TriggerLagSpikeAsync(settings.durationMs)] + Spikes(settings, n - 1);
    }
  }

  /** While paused the interval waits still run to completion, but no spike fires. */
  lemma {:induction false} PausedIntervalsStillWait(settings: Settings, s: State, n: nat)
    requires s.running && s.paused && WaitCompletes(settings)
    ensures Run(settings, s, Intervals(n)) == Trace(s.(intervals := s.intervals + n), [])
    decreases n
  {
    if n > 0 {
      var inputs := Intervals(n);
      assert inputs[0] == IntervalElapsed && inputs[1..] == Intervals(n - 1);
      PausedIntervalsStillWait(settings, s.(intervals := s.intervals + 1), n - 1);
    }
  }

  /** With a duration of 0 no spike ever fires, whatever the inputs. */
  lemma {:induction false} ZeroDurationNeverSpikes(settings: Settings, s: State, inputs: seq<Input>)
    requires settings.durationMs == 0
    ensures Run(settings, s, inputs).calls == []
    decreases |inputs|
  {
    if |inputs| > 0 {
      ZeroDurationNeverSpikes(settings, Step(settings, s, inputs[0]).state, inputs[1..]);
    }
  }

  /** The scenario's only effect is a lag spike of the configured duration: it never
      changes the connection preset. Each completed interval fires at most one. */
  lemma {:induction false} OnlyLagSpikes(settings: Settings, s: State, inputs: seq<Input>)
    ensures var t := Run(settings, s, inputs);
      && (forall c :: c in t.calls ==> c == TriggerLagSpikeAsync(settings.durationMs))
      && |t.calls| <= t.state.intervals - s.intervals
    decreases |inputs|
  {
    if |inputs| > 0 {
      var o := Step(settings, s, inputs[0]);
      OnlyLagSpikes(settings, o.state, inputs[1..]);
    }
  }

  /** After a cancellation nothing more is called, whatever follows it. */
  lemma CancelIsFinal(settings: Settings, s: State, before: seq<Input>, after: seq<Input>)
    ensures Run(settings, s, before + [Cancel] + after).calls == Run(settings, s, before).calls
  {
    var first := Run(settings, s, before);
    RunAppend(settings, s, before, [Cancel] + after);
    assert before + [Cancel] + after == before + ([Cancel] + after);
    var ended := Step(settings, first.state, Cancel).state;
    assert !ended.running;
    assert ([Cancel] + after)[0] == Cancel && ([Cancel] + after)[1..] == after;
  }
}
