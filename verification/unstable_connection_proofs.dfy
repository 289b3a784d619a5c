/** Properties of whole runs of the unstable-connection scenario: revert on exit,
    determinism in the random draws, invisibility of a paused span, bounds on every preset
    applied, and the round that fires every active event kind. */
module UnstableConnectionProofs {
  import opened NetworkEvents
  import opened Randomizer
  import opened UnstableConnection

  /** Once a cancellation arrives, the run's last call re-applies the preset captured at
      start, and nothing follows it. */
  lemma {:induction false} CancelRevertsLast(settings: Settings, oracle: Oracle, s: State, inputs: seq<Input>)
    requires settings.Valid()
    requires !s.cancelled
    requires Cancel in inputs
    ensures var t := Run(settings, oracle, s, inputs);
      && t.state.cancelled
      && |t.calls| > 0
      && t.calls[|t.calls| - 1] == ChangeConnectionPreset(s.cache)
    decreases |inputs|
  {
    if inputs[0] == Cancel {
      CancelFirstReverts(settings, oracle, s, inputs);
    } else {
      var o := Step(settings, oracle, s, inputs[0]);
      var rest := Run(settings, oracle, o.state, inputs[1..]);
      var calls := o.calls + rest.calls;
      assert Run(settings, oracle, s, inputs) == Trace(rest.state, calls);
      StepCases(settings, oracle, s, inputs[0]);
      assert Cancel in inputs[1..];
      CancelRevertsLast(settings, oracle, o.state, inputs[1..]);
      assert calls[|calls| - 1] == rest.calls[|rest.calls| - 1];
    }
  }

  /** A run whose first input cancels makes exactly the one call that re-applies the
      captured preset. */
  lemma CancelFirstReverts(settings: Settings, oracle: Oracle, s: State, inputs: seq<Input>)
    requires settings.Valid()
    requires !s.cancelled
    requires |inputs| > 0 && inputs[0] == Cancel
    ensures var t := Run(settings, oracle, s, inputs);
      t.state.cancelled && t.calls == [ChangeConnectionPreset(s.cache)]
  {
    var o := Step(settings, oracle, s, inputs[0]);
    assert o == Outcome(s.(cancelled := true), [ChangeConnectionPreset(s.cache)], false);
    assert Run(settings, oracle, o.state, inputs[1..]) == Trace(o.state, []);
  }

  /** From the start of the scenario, whatever happened before the cancellation, the last
      preset applied is the one that was current when the scenario started. */
  lemma ExitRestoresStartPreset(settings: Settings, oracle: Oracle, current: Preset, inputs: seq<Input>)
    requires settings.Valid()
    requires Cancel in inputs
    ensures var t := Run(settings, oracle, Start(current), inputs);
      |t.calls| > 0 && t.calls[|t.calls| - 1] == ChangeConnectionPreset(current)
  {
    CancelRevertsLast(settings, oracle, Start(current), inputs);
  }

  lemma ActivateDeterministic(e: EventConfiguration, shouldReset: bool, configuration: Preset, cache: Preset,
                              o1: Oracle, o2: Oracle, used: nat)
    requires e.range.Valid()
    requires Agree(o1, o2, used, used + 1)
    ensures Activate(e, shouldReset, configuration, cache, o1, used)
         == Activate(e, shouldReset, configuration, cache, o2, used)
  {
    NextReadsOneDraw(o1, o2, used, e.range.lo, e.range.hi);
  }

  lemma {:induction false} ActivateEventsDeterministic(
    settings: Settings, remaining: seq<EventConfiguration>, eventCount: int, first: bool,
    configuration: Preset, cache: Preset, o1: Oracle, o2: Oracle, used: nat)
    requires eventCount <= |remaining|
    requires ValidRanges(remaining)
    requires Agree(o1, o2, used, used + 2 * (if eventCount <= 0 then 0 else eventCount))
    ensures SameRound(settings, remaining, eventCount, first, configuration, cache, o1, o2, used)
    decreases |remaining|
  {
    if eventCount > 0 {
      var index, a := ActivateEventsHead(settings, remaining, first, configuration, cache, o1, o2, used);
      RemoveKeepsValid(remaining, index.value);
      AgreeOnRest(o1, o2, used, eventCount, a.used);
      ActivateEventsDeterministic(settings, RemoveAt(remaining, index.value), eventCount - 1, false, a.configuration,
                                  cache, o1, o2, a.used);
      ActivateEventsSameTail(settings, remaining, eventCount, first, configuration, cache, o1, o2, used, index, a);
    }
  }

  /** Generators that agree on a round's draws agree on the draws after its first pass. */
  lemma AgreeOnRest(o1: Oracle, o2: Oracle, used: nat, eventCount: int, next: nat)
    requires eventCount > 0 && next == used + 2
    requires Agree(o1, o2, used, used + 2 * eventCount)
    ensures Agree(o1, o2, next, next + 2 * (if eventCount - 1 <= 0 then 0 else eventCount - 1))
  {
  }

  /** `ActivateEvents` gives the same round under both generators. */
  ghost predicate SameRound(settings: Settings, remaining: seq<EventConfiguration>, eventCount: int, first: bool,
                            configuration: Preset, cache: Preset, o1: Oracle, o2: Oracle, used: nat)
    requires eventCount <= |remaining|
    requires ValidRanges(remaining)
  {
    ActivateEvents(settings, remaining, eventCount, first, configuration, cache, o1, used)
      == ActivateEvents(settings, remaining, eventCount, first, configuration, cache, o2, used)
  }

  /** Both generators draw `index` first, and activating the configuration it picks gives
      `a` under both. */
  ghost predicate SameHead(settings: Settings, remaining: seq<EventConfiguration>, first: bool,
                           configuration: Preset, cache: Preset, o1: Oracle, o2: Oracle, used: nat,
                           index: Draw, a: Activation) {
    && index == Next(o1, used, 0, |remaining|) == Next(o2, used, 0, |remaining|)
    && 0 <= index.value < |remaining| && remaining[index.value].range.Valid()
    && a == Activate(remaining[index.value], settings.resetBetweenEvents && first, configuration, cache,
                     o1, index.used)
    && a == Activate(remaining[index.value], settings.resetBetweenEvents && first, configuration, cache,
                     o2, index.used)
    && a.used == used + 2
  }

  /** Two runs of `ActivateEvents` with the same first draw and activation, and the same rest,
      are the same. */
  lemma ActivateEventsSameTail(settings: Settings, remaining: seq<EventConfiguration>, eventCount: int,
                               first: bool, configuration: Preset, cache: Preset, o1: Oracle, o2: Oracle,
                               used: nat, index: Draw, a: Activation)
    requires 0 < eventCount <= |remaining|
    requires ValidRanges(remaining)
    requires SameHead(settings, remaining, first, configuration, cache, o1, o2, used, index, a)
    requires ValidRanges(RemoveAt(remaining, index.value))
    requires SameRound(settings, RemoveAt(remaining, index.value), eventCount - 1, false, a.configuration,
                       cache, o1, o2, a.used)
    ensures SameRound(settings, remaining, eventCount, first, configuration, cache, o1, o2, used)
  {
    ActivateEventsCons(settings, remaining, eventCount, first, configuration, cache, o1, used, index, a);
    ActivateEventsCons(settings, remaining, eventCount, first, configuration, cache, o2, used, index, a);
  }

  /** The first draw and activation of `ActivateEvents` are the same under two generators
      that agree on its first two draws. */
  lemma ActivateEventsHead(settings: Settings, remaining: seq<EventConfiguration>, first: bool,
                           configuration: Preset, cache: Preset, o1: Oracle, o2: Oracle, used: nat)
      returns (index: Draw, a: Activation)
    requires 0 < |remaining|
    requires ValidRanges(remaining)
    requires Agree(o1, o2, used, used + 2)
    ensures SameHead(settings, remaining, first, configuration, cache, o1, o2, used, index, a)
  {
    index := Next(o1, used, 0, |remaining|);
    NextReadsOneDraw(o1, o2, used, 0, |remaining|);
    a := Activate(remaining[index.value], settings.resetBetweenEvents && first, configuration, cache,
                  o1, index.used);
    ActivateDeterministic(remaining[index.value], settings.resetBetweenEvents && first, configuration, cache,
                          o1, o2, index.used);
  }

  /** One pass of `ActivateEvents`, given the draw of the index and the activation it leads to. */
  lemma ActivateEventsCons(settings: Settings, remaining: seq<EventConfiguration>, eventCount: int, first: bool,
                           configuration: Preset, cache: Preset, oracle: Oracle, used: nat,
                           index: Draw, a: Activation)
    requires 0 < eventCount <= |remaining|
    requires ValidRanges(remaining)
    requires index == Next(oracle, used, 0, |remaining|)
    requires remaining[index.value].range.Valid()
    requires a == Activate(remaining[index.value], settings.resetBetweenEvents && first, configuration, cache,
                           oracle, index.used)
    ensures ValidRanges(RemoveAt(remaining, index.value))
    ensures var rest := ActivateEvents(settings, RemoveAt(remaining, index.value), eventCount - 1, false,
                                       a.configuration, cache, oracle, a.used);
      ActivateEvents(settings, remaining, eventCount, first, configuration, cache, oracle, used)
        == Round([remaining[index.value].kind] + rest.picked, rest.configuration, a.calls + rest.calls, rest.used)
  {
    RemoveKeepsValid(remaining, index.value);
  }

  lemma TriggerNetworkEventsDeterministic(settings: Settings, configuration: Preset, cache: Preset,
                                          o1: Oracle, o2: Oracle, used: nat)
    requires settings.Valid()
    requires Agree(o1, o2, used, TriggerNetworkEvents(settings, configuration, cache, o1, used).used)
    ensures TriggerNetworkEvents(settings, configuration, cache, o1, used)
         == TriggerNetworkEvents(settings, configuration, cache, o2, used)
  {
    var active := ActiveOnly(EventConfigurations(settings));
    ActiveConfigurationsMatchSettings(settings);
    if |active| > 0 {
      var eventCount := if settings.eventCount > |active| then |active| else settings.eventCount;
      ActivateEventsDeterministic(settings, active, eventCount, true, configuration, cache, o1, o2, used);
    }
  }

  lemma IterateDeterministic(settings: Settings, o1: Oracle, o2: Oracle, s: State, deltaMs: nat)
    requires settings.Valid()
    requires Agree(o1, o2, s.used, Iterate(settings, o1, s, deltaMs).state.used)
    ensures Iterate(settings, o1, s, deltaMs) == Iterate(settings, o2, s, deltaMs)
  {
    if !s.paused && s.lastTriggerTimeMs > settings.minimumWaitMs {
      NextReadsOneDraw(o1, o2, s.used, 0, 100);
      var draw := Next(o1, s.used, 0, 100);
      if draw.value < settings.eventFrequency || s.lastTriggerTimeMs > settings.maximumWaitMs {
        TriggerNetworkEventsDeterministic(settings, s.configuration, s.cache, o1, o2, draw.used);
      }
    }
  }

  lemma OnFrameDeterministic(settings: Settings, o1: Oracle, o2: Oracle, s: State, deltaMs: nat)
    requires settings.Valid()
    requires Agree(o1, o2, s.used, OnFrame(settings, o1, s, deltaMs).state.used)
    ensures OnFrame(settings, o1, s, deltaMs) == OnFrame(settings, o2, s, deltaMs)
  {
    if s.yielding {
      if settings.minimumWaitMs == 0 {
        IterateDeterministic(settings, o1, o2, Resumed(settings, s), deltaMs);
      }
    } else if s.cooldownMs <= deltaMs {
      var s0 := s.(cooldownMs := 0);
      var it := Iterate(settings, o1, s0, deltaMs);
      if it.triggered && !it.state.yielding && settings.minimumWaitMs == 0 {
        var next := Iterate(settings, o1, it.state, deltaMs);
        assert next.state.used >= it.state.used;
        IterateDeterministic(settings, o1, o2, s0, deltaMs);
        IterateDeterministic(settings, o1, o2, it.state, deltaMs);
      } else {
        IterateDeterministic(settings, o1, o2, s0, deltaMs);
      }
    }
  }

  /** The same settings, the same inputs and the same draws give the same trace of calls
      and the same final state: nothing but the draws actually consumed matters. */
  lemma {:induction false} Deterministic(settings: Settings, o1: Oracle, o2: Oracle, s: State, inputs: seq<Input>)
    requires settings.Valid()
    requires Agree(o1, o2, s.used, Run(settings, o1, s, inputs).state.used)
    ensures Run(settings, o1, s, inputs) == Run(settings, o2, s, inputs)
    decreases |inputs|
  {
    if |inputs| > 0 && !s.cancelled {
      var o := Step(settings, o1, s, inputs[0]);
      var rest := Run(settings, o1, o.state, inputs[1..]);
      assert rest.state.used >= o.state.used;
      if inputs[0].Frame? {
        OnFrameDeterministic(settings, o1, o2, s, inputs[0].deltaMs);
      }
      Deterministic(settings, o1, o2, o.state, inputs[1..]);
    }
  }

  predicate AllFrames(inputs: seq<Input>) {
    forall i :: 0 <= i < |inputs| ==> inputs[i].Frame?
  }

  /** Frames while paused, outside a cooldown and with no yield pending, change nothing: no
      call, no draw, no time. */
  lemma {:induction false} PausedFramesChangeNothing(settings: Settings, oracle: Oracle, s: State, frames: seq<Input>)
    requires settings.Valid()
    requires s.paused && s.cooldownMs == 0 && !s.yielding
    requires AllFrames(frames)
    ensures Run(settings, oracle, s, frames) == Trace(s, [])
    decreases |frames|
  {
    if |frames| > 0 {
      assert frames[0].Frame?;
      PausedFramesChangeNothing(settings, oracle, s, frames[1..]);
    }
  }

  /** Frames while paused, outside a cooldown and with no yield pending, then resuming: the
      run goes on as if the paused span had not happened. */
  lemma {:induction false} PausedSpanThenResume(settings: Settings, oracle: Oracle, s: State,
                                                frames: seq<Input>, rest: seq<Input>)
    requires settings.Valid()
    requires s.paused && s.cooldownMs == 0 && !s.yielding && !s.cancelled
    requires AllFrames(frames)
    ensures Run(settings, oracle, s, frames + [SetPaused(false)] + rest)
         == Run(settings, oracle, s.(paused := false), rest)
    decreases |frames|
  {
    var inputs := frames + [SetPaused(false)] + rest;
    if |frames| == 0 {
      assert inputs == [SetPaused(false)] + rest;
      RunSetPaused(settings, oracle, s, false, rest);
    } else {
      assert inputs[0] == frames[0] && inputs[1..] == frames[1..] + [SetPaused(false)] + rest;
      assert frames[0].Frame?;
      PausedSpanThenResume(settings, oracle, s, frames[1..], rest);
    }
  }

  /** Pausing, letting any number of frames go by and resuming leaves the rest of the run
      exactly as if the pause had never happened, in particular the random draws it makes. */
  lemma PauseIsInvisible(settings: Settings, oracle: Oracle, s: State, frames: seq<Input>, rest: seq<Input>)
    requires settings.Valid()
    requires !s.paused && s.cooldownMs == 0 && !s.yielding
    requires AllFrames(frames)
    ensures Run(settings, oracle, s, [SetPaused(true)] + frames + [SetPaused(false)] + rest)
         == Run(settings, oracle, s, rest)
  {
    var tail := frames + [SetPaused(false)] + rest;
    assert [SetPaused(true)] + frames + [SetPaused(false)] + rest == [SetPaused(true)] + tail;
    if !s.cancelled {
      var held := s.(paused := true);
      assert held.(paused := false) == s;
      RunSetPaused(settings, oracle, s, true, tail);
      PausedSpanThenResume(settings, oracle, held, frames, rest);
    }
  }

  lemma RunSetPaused(settings: Settings, oracle: Oracle, s: State, paused: bool, rest: seq<Input>)
    requires settings.Valid()
    requires !s.cancelled
    ensures Run(settings, oracle, s, [SetPaused(paused)] + rest) == Run(settings, oracle, s.(paused := paused), rest)
  {
    var inputs := [SetPaused(paused)] + rest;
    assert inputs[0] == SetPaused(paused) && inputs[1..] == rest;
  }

  /** The largest value the inspector lets each event range reach. */
  function EditorMaximum(k: EventKind): int {
    match k
    case LagSpike => 5000
    case PacketDelay => 5000
    case PacketJitter => 5000
    case PacketLoss => 100
    case PacketLossInterval => 9999
  }

  /** Every range lies within the inspector's slider bounds. */
  predicate InEditorBounds(settings: Settings) {
    forall k: EventKind :: 0 <= settings.Setting(k).range.lo <= settings.Setting(k).range.hi <= EditorMaximum(k)
  }

  /** No negative parameter, and a loss percentage of at most 100. */
  predicate Clamped(p: Preset) {
    && p.packetDelayMs >= 0
    && p.packetJitterMs >= 0
    && 0 <= p.packetLossPercent <= 100
    && p.packetLossInterval >= 0
  }

  predicate CallInBounds(c: ApiCall) {
    match c
    case ChangeConnectionPreset(p) => Clamped(p)
    case TriggerLagSpike(d) => 0 <= d <= 5000
    case TriggerLagSpikeAsync(d) => d >= 0
  }

  lemma RoundInBounds(settings: Settings, configuration: Preset, cache: Preset, oracle: Oracle, used: nat)
    requires settings.Valid() && InEditorBounds(settings)
    requires Clamped(configuration) && Clamped(cache)
    ensures var r := TriggerNetworkEvents(settings, configuration, cache, oracle, used);
      Clamped(r.configuration) && forall c :: c in r.calls ==> CallInBounds(c)
  {
    var r := TriggerNetworkEvents(settings, configuration, cache, oracle, used);
    if ActiveCount(settings) > 0 {
      var active := ActiveOnly(EventConfigurations(settings));
      ActiveConfigurationsMatchSettings(settings);
      var eventCount := if settings.eventCount > |active| then |active| else settings.eventCount;
      var ae := ActivateEvents(settings, active, eventCount, true, configuration, cache, oracle, used);
      ActivateEventsInBounds(settings, active, eventCount, configuration, cache, oracle, used);
      assert r.configuration == ae.configuration;
      assert r.calls == ae.calls + [ChangeConnectionPreset(ae.configuration)];
    }
  }

  lemma ActivateEventsInBounds(settings: Settings, remaining: seq<EventConfiguration>, eventCount: int,
                               configuration: Preset, cache: Preset, oracle: Oracle, used: nat)
    requires eventCount <= |remaining| && Pickable(settings, remaining)
    requires InEditorBounds(settings)
    requires Clamped(configuration) && Clamped(cache)
    ensures var ae := ActivateEvents(settings, remaining, eventCount, true, configuration, cache, oracle, used);
      Clamped(ae.configuration) && forall c :: c in ae.calls ==> CallInBounds(c)
  {
    var ae := ActivateEvents(settings, remaining, eventCount, true, configuration, cache, oracle, used);
    ActivateEventsRound(settings, remaining, eventCount, true, configuration, cache, oracle, used);
    var base := RoundBase(settings, true, ae.picked, configuration, cache);
    assert Clamped(base);
    FieldInBounds(settings, ae, base, PacketDelay);
    FieldInBounds(settings, ae, base, PacketJitter);
    FieldInBounds(settings, ae, base, PacketLoss);
    FieldInBounds(settings, ae, base, PacketLossInterval);
    assert 0 <= settings.lagSpike.range.lo <= settings.lagSpike.range.hi <= 5000 by {
      assert settings.Setting(LagSpike) == settings.lagSpike;
    }
    LagSpikesInBounds(settings.lagSpike.range, ae.calls);
  }

  lemma LagSpikesInBounds(range: Range, calls: seq<ApiCall>)
    requires 0 <= range.lo <= range.hi <= 5000
    requires forall c :: c in calls ==> c.TriggerLagSpike? && range.Holds(c.durationMs)
    ensures forall c :: c in calls ==> CallInBounds(c)
  {
  }

  lemma FieldInBounds(settings: Settings, r: Round, base: Preset, k: EventKind)
    requires InEditorBounds(settings) && Clamped(base) && k.IsParameter()
    requires k !in r.picked ==> Field(r.configuration, k) == Field(base, k)
    requires k in r.picked ==> settings.Setting(k).range.Holds(Field(r.configuration, k))
    ensures 0 <= Field(r.configuration, k)
    ensures k == PacketLoss ==> Field(r.configuration, k) <= 100
  {
    assert 0 <= settings.Setting(k).range.lo <= settings.Setting(k).range.hi <= EditorMaximum(k);
  }

  lemma IterateInBounds(settings: Settings, oracle: Oracle, s: State, deltaMs: nat)
    requires settings.Valid() && InEditorBounds(settings)
    requires Clamped(s.configuration) && Clamped(s.cache)
    ensures var o := Iterate(settings, oracle, s, deltaMs);
      Clamped(o.state.configuration) && forall c :: c in o.calls ==> CallInBounds(c)
  {
    if !s.paused && s.lastTriggerTimeMs > settings.minimumWaitMs {
      RoundInBounds(settings, s.configuration, s.cache, oracle, s.used + 1);
    }
  }

  lemma StepInBounds(settings: Settings, oracle: Oracle, s: State, input: Input)
    requires settings.Valid() && InEditorBounds(settings)
    requires Clamped(s.configuration) && Clamped(s.cache)
    ensures var o := Step(settings, oracle, s, input);
      Clamped(o.state.configuration) && forall c :: c in o.calls ==> CallInBounds(c)
  {
    if !s.cancelled && input.Frame? && s.yielding {
      IterateInBounds(settings, oracle, Resumed(settings, s), input.deltaMs);
    } else if !s.cancelled && input.Frame? && s.cooldownMs <= input.deltaMs {
      var s0 := s.(cooldownMs := 0);
      IterateInBounds(settings, oracle, s0, input.deltaMs);
      var it := Iterate(settings, oracle, s0, input.deltaMs);
      IterateInBounds(settings, oracle, it.state, input.deltaMs);
    }
  }

  /** Starting from in-bounds presets and ranges within the inspector's bounds, every preset
      the scenario applies keeps its parameters non-negative and its loss percentage at most
      100, and every lag spike lasts between 0 and 5000 ms. */
  lemma {:induction false} CallsStayInBounds(settings: Settings, oracle: Oracle, s: State, inputs: seq<Input>)
    requires settings.Valid() && InEditorBounds(settings)
    requires Clamped(s.configuration) && Clamped(s.cache)
    ensures var t := Run(settings, oracle, s, inputs);
      Clamped(t.state.configuration) && forall c :: c in t.calls ==> CallInBounds(c)
    decreases |inputs|
  {
    if |inputs| > 0 {
      var o := Step(settings, oracle, s, inputs[0]);
      StepInBounds(settings, oracle, s, inputs[0]);
      CallsStayInBounds(settings, oracle, o.state, inputs[1..]);
    }
  }

  lemma {:induction false} DistinctCardinality<T>(s: seq<T>)
    requires Distinct(s)
    ensures |set x | x in s| == |s|
  {
    if |s| > 0 {
      var tail := s[1..];
      assert Distinct(tail) by {
        forall i, j | 0 <= i < j < |tail| ensures tail[i] != tail[j] {
          assert tail[i] == s[i + 1] && tail[j] == s[j + 1];
        }
      }
      DistinctCardinality(tail);
      assert (set x | x in s) == {s[0]} + (set x | x in tail);
      assert s[0] !in tail by {
        forall j | 0 <= j < |tail| ensures tail[j] != s[0] {
          assert tail[j] == s[j + 1];
        }
      }
    }
  }

  /** A trigger round with at least one active kind activates `min(eventCount, active)`
      distinct active kinds, two draws each (the index, then the value). Fields of kinds not
      picked keep the value of the preset the round starts from (the start preset when the
      first kind picked is a parameter kind and resetting is on); fields of kinds picked get
      a value drawn from their range; one lag-spike call is made if a lag spike was picked;
      the configuration is applied last, exactly once. */
  lemma TriggerRound(settings: Settings, configuration: Preset, cache: Preset, oracle: Oracle, used: nat)
    requires settings.Valid()
    requires ActiveCount(settings) > 0
    ensures var r := TriggerNetworkEvents(settings, configuration, cache, oracle, used);
      && |r.picked| == (if settings.eventCount <= 0 then 0
                        else if settings.eventCount > ActiveCount(settings) then ActiveCount(settings)
                        else settings.eventCount)
      && Distinct(r.picked)
      && (forall k :: k in r.picked ==> settings.Setting(k).active)
      && (forall k: EventKind :: k.IsParameter() && k !in r.picked ==>
            Field(r.configuration, k) == Field(RoundBase(settings, true, r.picked, configuration, cache), k))
      && (forall k: EventKind :: k.IsParameter() && k in r.picked ==>
            settings.Setting(k).range.Holds(Field(r.configuration, k)))
      && |r.calls| == (if LagSpike in r.picked then 2 else 1)
      && (forall i :: 0 <= i < |r.calls| - 1 ==>
            r.calls[i].TriggerLagSpike? && settings.lagSpike.range.Holds(r.calls[i].durationMs))
  {
    var active := ActiveOnly(EventConfigurations(settings));
    ActiveConfigurationsMatchSettings(settings);
    var eventCount := if settings.eventCount > |active| then |active| else settings.eventCount;
    var r := ActivateEvents(settings, active, eventCount, true, configuration, cache, oracle, used);
    ActivateEventsRound(settings, active, eventCount, true, configuration, cache, oracle, used);
    assert TriggerNetworkEvents(settings, configuration, cache, oracle, used)
        == r.(calls := r.calls + [ChangeConnectionPreset(r.configuration)]);
    assert forall i :: 0 <= i < |r.calls| ==> r.calls[i] in r.calls;
  }

  /** With an event count of at least the number of active kinds, a round activates every
      active kind, each once. */
  lemma AllActiveKindsFire(settings: Settings, configuration: Preset, cache: Preset, oracle: Oracle, used: nat)
    requires settings.Valid()
    requires settings.eventCount >= ActiveCount(settings)
    ensures var r := TriggerNetworkEvents(settings, configuration, cache, oracle, used);
      forall k :: k in r.picked <==> settings.Setting(k).active
  {
    var active := ActiveOnly(EventConfigurations(settings));
    ActiveConfigurationsMatchSettings(settings);
    if ActiveCount(settings) > 0 {
      PicksEveryKind(settings, active, configuration, cache, oracle, used);
    }
  }

  /** A round asked for as many events as there are configurations picks every kind. */
  lemma PicksEveryKind(settings: Settings, remaining: seq<EventConfiguration>, configuration: Preset,
                       cache: Preset, oracle: Oracle, used: nat)
    requires Pickable(settings, remaining)
    ensures var r := ActivateEvents(settings, remaining, |remaining|, true, configuration, cache, oracle, used);
      forall k :: k in r.picked <==> k in KindSet(remaining)
  {
    var r := ActivateEvents(settings, remaining, |remaining|, true, configuration, cache, oracle, used);
    ActivateEventsRound(settings, remaining, |remaining|, true, configuration, cache, oracle, used);
    DistinctCardinality(r.picked);
    DistinctKindsCardinality(remaining);
    SubsetOfSameSize((set k | k in r.picked), KindSet(remaining));
  }

  lemma SubsetOfSameSize<T>(a: set<T>, b: set<T>)
    requires a <= b && |a| == |b|
    ensures a == b
  {
    assert |b - a| == 0;
  }
}
