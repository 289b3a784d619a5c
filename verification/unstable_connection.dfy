/** The randomized "unstable connection" network scenario as a pure step machine.

    Each frame runs one pass of the scenario loop: a gate decides from the time since the
    last trigger and a frequency draw whether to fire a trigger round; a round activates a
    random choice of distinct active event kinds without replacement and applies the
    resulting configuration; a cooldown of the minimum wait follows. Cancelling the scenario
    ends the loop and re-applies the preset captured at start. */
module UnstableConnection {
  import opened NetworkEvents
  import opened Randomizer

  /** The five event kinds, in the order the scenario lists their configurations. */
  datatype EventKind = LagSpike | PacketDelay | PacketJitter | PacketLoss | PacketLossInterval {

    /** Every kind but the lag spike sets one field of the scenario configuration. */
    predicate IsParameter() {
      !LagSpike?
    }
  }

  /** The bounds of an event's range, after the `(int)` casts of its two `Vector2` ends. */
  datatype Range = Range(lo: int, hi: int) {

    /** `Random.Next(lo, hi)` accepts the range. */
    predicate Valid() {
      lo <= hi
    }

    /** `v` is a value `Random.Next(lo, hi)` may return. */
    predicate Holds(v: int) {
      if lo == hi then v == lo else lo <= v < hi
    }
  }

  /** The inspector settings of one event kind: its toggle and its range. */
  datatype EventSetting = EventSetting(active: bool, range: Range)

  /** One element of the scenario's event configuration array. */
  datatype EventConfiguration = EventConfiguration(kind: EventKind, active: bool, range: Range)

  /** The scenario's serialized settings. */
  datatype Settings = Settings(
    minimumWaitMs: nat,
    maximumWaitMs: int,
    eventFrequency: int,
    eventCount: int,
    resetBetweenEvents: bool,
    lagSpike: EventSetting,
    packetDelay: EventSetting,
    packetJitter: EventSetting,
    packetLoss: EventSetting,
    packetLossInterval: EventSetting)
  {
    function Setting(k: EventKind): EventSetting {
      match k
      case LagSpike => lagSpike
      case PacketDelay => packetDelay
      case PacketJitter => packetJitter
      case PacketLoss => packetLoss
      case PacketLossInterval => packetLossInterval
    }

    function Configuration(k: EventKind): EventConfiguration {
      EventConfiguration(k, Setting(k).active, Setting(k).range)
    }

    /** Every active event has a range `Random.Next` accepts; activating one that does not
        throws in the C# code. */
    predicate Valid() {
      forall k: EventKind :: Setting(k).active ==> Setting(k).range.Valid()
    }
  }

  /** The number of kinds whose toggle is on, read straight off the settings. */
  function ActiveCount(s: Settings): nat {
    (if s.lagSpike.active then 1 else 0)
    + (if s.packetDelay.active then 1 else 0)
    + (if s.packetJitter.active then 1 else 0)
    + (if s.packetLoss.active then 1 else 0)
    + (if s.packetLossInterval.active then 1 else 0)
  }

  /** The configuration array the scenario builds when it starts running. */
  function EventConfigurations(s: Settings): seq<EventConfiguration> {
    [ s.Configuration(LagSpike), s.Configuration(PacketDelay), s.Configuration(PacketJitter),
      s.Configuration(PacketLoss), s.Configuration(PacketLossInterval) ]
  }

  function KindSet(cs: seq<EventConfiguration>): set<EventKind> {
    set c | c in cs :: c.kind
  }

  predicate DistinctKinds(cs: seq<EventConfiguration>) {
    forall i, j :: 0 <= i < j < |cs| ==> cs[i].kind != cs[j].kind
  }

  /** The position of a kind in the configuration array. */
  function KindIndex(k: EventKind): nat {
    match k
    case LagSpike => 0
    case PacketDelay => 1
    case PacketJitter => 2
    case PacketLoss => 3
    case PacketLossInterval => 4
  }

  /** The kinds of `cs` come in the configuration array's order, each at most once. */
  predicate InArrayOrder(cs: seq<EventConfiguration>) {
    forall i, j :: 0 <= i < j < |cs| ==> KindIndex(cs[i].kind) < KindIndex(cs[j].kind)
  }

  predicate Distinct<T(==)>(s: seq<T>) {
    forall i, j :: 0 <= i < j < |s| ==> s[i] != s[j]
  }

  function CountActive(cs: seq<EventConfiguration>): nat {
    if |cs| == 0 then 0 else (if cs[0].active then 1 else 0) + CountActive(cs[1..])
  }

  /** The active elements of `cs`, in order: `Where(...).ToList()`. */
  function ActiveOnly(cs: seq<EventConfiguration>): (r: seq<EventConfiguration>)
    ensures forall c :: c in r <==> c in cs && c.active
    ensures |r| == CountActive(cs)
    ensures DistinctKinds(cs) ==> DistinctKinds(r)
  {
    if |cs| == 0 then []
    else
      var rest := ActiveOnly(cs[1..]);
      assert forall c :: c in cs[1..] ==> c in cs;
      if cs[0].active then
        assert DistinctKinds(cs) ==> forall c :: c in rest ==> c.kind != cs[0].kind by {
          if DistinctKinds(cs) {
            forall c | c in rest ensures c.kind != cs[0].kind {
              var j :| 0 <= j < |cs[1..]| && cs[1..][j] == c;
              assert cs[j + 1] == c;
            }
          }
        }
        [cs[0]] + rest
      else rest
  }

  /** Filtering keeps the array's order: the active kinds come out in the order they went in. */
  lemma {:induction false} ActiveOnlyInOrder(cs: seq<EventConfiguration>)
    requires InArrayOrder(cs)
    ensures InArrayOrder(ActiveOnly(cs))
  {
    if |cs| > 0 {
      var tail := cs[1..];
      assert InArrayOrder(tail) by {
        forall i, j | 0 <= i < j < |tail| ensures KindIndex(tail[i].kind) < KindIndex(tail[j].kind) {
          assert tail[i] == cs[i + 1] && tail[j] == cs[j + 1];
        }
      }
      ActiveOnlyInOrder(tail);
      if cs[0].active {
        var rest := ActiveOnly(tail);
        forall c | c in rest ensures KindIndex(cs[0].kind) < KindIndex(c.kind) {
          var j :| 0 <= j < |tail| && tail[j] == c;
          assert cs[j + 1] == c;
        }
        var r := ActiveOnly(cs);
        assert r[0] == cs[0] && r[1..] == rest;
        forall i, j | 0 <= i < j < |r| ensures KindIndex(r[i].kind) < KindIndex(r[j].kind) {
          assert r[j] == rest[j - 1];
          if i > 0 {
            assert r[i] == rest[i - 1];
          }
        }
      }
    }
  }

  /** `cs` without its element at `i`, as `List.Remove` leaves it. */
  function RemoveAt<T>(cs: seq<T>, i: nat): (r: seq<T>)
    requires i < |cs|
    ensures |r| == |cs| - 1
  {
    cs[..i] + cs[i + 1..]
  }

  function Field(p: Preset, k: EventKind): int
    requires k.IsParameter()
  {
    match k
    case PacketDelay => p.packetDelayMs
    case PacketJitter => p.packetJitterMs
    case PacketLoss => p.packetLossPercent
    case PacketLossInterval => p.packetLossInterval
  }

  /** `p` with the field of parameter kind `k` set to `v`, and every other field kept. */
  function WithField(p: Preset, k: EventKind, v: int): (q: Preset)
    requires k.IsParameter()
    ensures Field(q, k) == v
    ensures forall k': EventKind :: k'.IsParameter() && k' != k ==> Field(q, k') == Field(p, k')
  {
    match k
    case PacketDelay => p.(packetDelayMs := v)
    case PacketJitter => p.(packetJitterMs := v)
    case PacketLoss => p.(packetLossPercent := v)
    case PacketLossInterval => p.(packetLossInterval := v)
  }

  /** The scenario configuration, the calls made, and the draws consumed after one event. */
  datatype Activation = Activation(configuration: Preset, calls: seq<ApiCall>, used: nat)

  /** `EventConfiguration.Activate` of each of the five kinds. `shouldReset` is the
      scenario's `ShouldResetBetweenEvents`; `cache` is the preset captured at start. */
  function Activate(e: EventConfiguration, shouldReset: bool, configuration: Preset, cache: Preset,
                    oracle: Oracle, used: nat): (a: Activation)
    requires e.range.Valid()
    ensures a.used == used + 1
  {
    var d := Next(oracle, used, e.range.lo, e.range.hi);
    if e.kind == LagSpike then
      Activation(configuration, [TriggerLagSpike(d.value)], d.used)
    else
      var base := if shouldReset then cache else configuration;
      Activation(WithField(base, e.kind, d.value), [], d.used)
  }

  /** A lag spike leaves the configuration alone and makes one call with a duration in the
      range; a parameter kind makes no call, draws its field within the range and keeps every
      other field of its base, the captured preset when resetting. */
  lemma ActivateEffect(e: EventConfiguration, shouldReset: bool, configuration: Preset, cache: Preset,
                       oracle: Oracle, used: nat)
    requires e.range.Valid()
    ensures var a := Activate(e, shouldReset, configuration, cache, oracle, used);
      && (e.kind == LagSpike ==>
            && a.configuration == configuration
            && |a.calls| == 1 && a.calls[0].TriggerLagSpike? && e.range.Holds(a.calls[0].durationMs))
      && (e.kind.IsParameter() ==>
            && a.calls == []
            && e.range.Holds(Field(a.configuration, e.kind))
            && forall k: EventKind :: k.IsParameter() && k != e.kind ==>
                 Field(a.configuration, k) == Field(if shouldReset then cache else configuration, k))
  {
  }

  /** The outcome of (part of) a trigger round: the kinds activated in order, the resulting
      scenario configuration, the calls made, and the draws consumed after it. */
  datatype Round = Round(picked: seq<EventKind>, configuration: Preset, calls: seq<ApiCall>, used: nat)

  /** The preset the untouched fields of a round's result come from: the one captured at
      start when resetting is on and the first activated kind is a parameter kind (only that
      first activation resets), else the configuration the round started from. */
  function RoundBase(settings: Settings, first: bool, picked: seq<EventKind>,
                     configuration: Preset, cache: Preset): Preset
  {
    if settings.resetBetweenEvents && first && |picked| > 0 && picked[0].IsParameter()
    then cache else configuration
  }

  /** Every range may be drawn from. */
  predicate ValidRanges(cs: seq<EventConfiguration>) {
    forall i :: 0 <= i < |cs| ==> cs[i].range.Valid()
  }

  /** The configurations the round may still pick from are the scenario's own. */
  ghost predicate Pickable(settings: Settings, remaining: seq<EventConfiguration>) {
    && DistinctKinds(remaining)
    && ValidRanges(remaining)
    && forall c :: c in remaining ==> c == settings.Configuration(c.kind)
  }

  /** The loop of a trigger round: `eventCount` times, draw an index into the remaining
      configurations, activate that one and remove it; only the first pass of a round is
      flagged `first`. */
  function ActivateEvents(settings: Settings, remaining: seq<EventConfiguration>, eventCount: int,
                          first: bool, configuration: Preset, cache: Preset,
                          oracle: Oracle, used: nat): (r: Round)
    requires eventCount <= |remaining|
    requires ValidRanges(remaining)
    decreases |remaining|
    ensures |r.picked| == if eventCount <= 0 then 0 else eventCount
    ensures r.used == used + 2 * |r.picked|
  {
    if eventCount <= 0 then Round([], configuration, [], used)
    else
      var index := Next(oracle, used, 0, |remaining|);
      var chosen := remaining[index.value];
      var a := Activate(chosen, settings.resetBetweenEvents && first, configuration, cache,
                        oracle, index.used);
      var left := RemoveAt(remaining, index.value);
      RemoveKeepsValid(remaining, index.value);
      var rest := ActivateEvents(settings, left, eventCount - 1, false, a.configuration, cache,
                                 oracle, a.used);
      Round([chosen.kind] + rest.picked, rest.configuration, a.calls + rest.calls, rest.used)
  }

  /** What a round of `ActivateEvents` does: it picks distinct kinds among `kinds`; every
      picked parameter lies in its kind's range, every other parameter keeps the value of the
      round's base preset; a lag spike, when picked, is the one call made. */
  ghost predicate RoundFacts(settings: Settings, kinds: set<EventKind>, first: bool,
                             configuration: Preset, cache: Preset, r: Round) {
    && Distinct(r.picked)
    && (forall k :: k in r.picked ==> k in kinds)
    && (forall k: EventKind :: k.IsParameter() && k !in r.picked ==>
          Field(r.configuration, k) == Field(RoundBase(settings, first, r.picked, configuration, cache), k))
    && (forall k: EventKind :: k.IsParameter() && k in r.picked ==>
          settings.Setting(k).range.Holds(Field(r.configuration, k)))
    && |r.calls| == (if LagSpike in r.picked then 1 else 0)
    && (forall c :: c in r.calls ==> c.TriggerLagSpike? && settings.lagSpike.range.Holds(c.durationMs))
  }

  lemma {:induction false} ActivateEventsRound(settings: Settings, remaining: seq<EventConfiguration>,
                                               eventCount: int, first: bool, configuration: Preset,
                                               cache: Preset, oracle: Oracle, used: nat)
    requires eventCount <= |remaining|
    requires Pickable(settings, remaining)
    decreases |remaining|
    ensures RoundFacts(settings, KindSet(remaining), first, configuration, cache,
                       ActivateEvents(settings, remaining, eventCount, first, configuration, cache, oracle, used))
  {
    if eventCount > 0 {
      var index := Next(oracle, used, 0, |remaining|);
      var chosen := remaining[index.value];
      assert chosen in remaining;
      var a := Activate(chosen, settings.resetBetweenEvents && first, configuration, cache, oracle, index.used);
      ActivateEffect(chosen, settings.resetBetweenEvents && first, configuration, cache, oracle, index.used);
      var left := RemoveAt(remaining, index.value);
      RemoveKeepsPickable(settings, remaining, index.value);
      var rest := ActivateEvents(settings, left, eventCount - 1, false, a.configuration, cache, oracle, a.used);
      ActivateEventsRound(settings, left, eventCount - 1, false, a.configuration, cache, oracle, a.used);
      RoundFactsCons(settings, KindSet(remaining), first, configuration, cache, chosen, a, rest);
    }
  }

  /** Activating `chosen` ahead of a round over the other kinds gives a round over all. */
  lemma RoundFactsCons(settings: Settings, kinds: set<EventKind>, first: bool, configuration: Preset,
                       cache: Preset, chosen: EventConfiguration, a: Activation, rest: Round)
    requires chosen == settings.Configuration(chosen.kind) && chosen.range.Valid() && chosen.kind in kinds
    requires chosen.kind == LagSpike ==>
      && a.configuration == configuration
      && |a.calls| == 1 && a.calls[0].TriggerLagSpike? && chosen.range.Holds(a.calls[0].durationMs)
    requires chosen.kind.IsParameter() ==>
      && a.calls == []
      && chosen.range.Holds(Field(a.configuration, chosen.kind))
      && forall k: EventKind :: k.IsParameter() && k != chosen.kind ==>
           Field(a.configuration, k) == Field(if settings.resetBetweenEvents && first then cache else configuration, k)
    requires RoundFacts(settings, kinds - {chosen.kind}, false, a.configuration, cache, rest)
    ensures RoundFacts(settings, kinds, first, configuration, cache,
                       Round([chosen.kind] + rest.picked, rest.configuration, a.calls + rest.calls, rest.used))
  {
    var r := Round([chosen.kind] + rest.picked, rest.configuration, a.calls + rest.calls, rest.used);
    assert chosen.kind !in rest.picked;
    assert RoundBase(settings, false, rest.picked, a.configuration, cache) == a.configuration;
    forall k: EventKind | k.IsParameter() && k !in r.picked
      ensures Field(r.configuration, k) == Field(RoundBase(settings, first, r.picked, configuration, cache), k)
    {
      assert k != chosen.kind && k !in rest.picked;
    }
    forall c | c in r.calls
      ensures c.TriggerLagSpike? && settings.lagSpike.range.Holds(c.durationMs)
    {
      if c in a.calls {
        assert chosen.kind == LagSpike;
      }
    }
  }

  lemma RemoveKeepsValid(cs: seq<EventConfiguration>, i: nat)
    requires i < |cs|
    requires ValidRanges(cs)
    ensures ValidRanges(RemoveAt(cs, i))
  {
    var r := RemoveAt(cs, i);
    forall j | 0 <= j < |r| ensures r[j].range.Valid() {
      assert r[j] == cs[if j < i then j else j + 1];
    }
  }

  lemma RemoveKeepsPickable(settings: Settings, cs: seq<EventConfiguration>, i: nat)
    requires i < |cs|
    requires Pickable(settings, cs)
    ensures Pickable(settings, RemoveAt(cs, i))
    ensures KindSet(RemoveAt(cs, i)) == KindSet(cs) - {cs[i].kind}
  {
    var r := RemoveAt(cs, i);
    RemoveKeepsValid(cs, i);
    forall c | c in r ensures c in cs {
      var j :| 0 <= j < |r| && r[j] == c;
      assert cs[if j < i then j else j + 1] == c;
    }
    assert DistinctKinds(r) by {
      forall a, b | 0 <= a < b < |r| ensures r[a].kind != r[b].kind {
        var a' := if a < i then a else a + 1;
        var b' := if b < i then b else b + 1;
        assert r[a] == cs[a'] && r[b] == cs[b'];
      }
    }
    RemoveKindSet(cs, i);
  }

  lemma RemoveKindSet(cs: seq<EventConfiguration>, i: nat)
    requires i < |cs|
    requires DistinctKinds(cs)
    ensures KindSet(RemoveAt(cs, i)) == KindSet(cs) - {cs[i].kind}
  {
    var r := RemoveAt(cs, i);
    forall k | k in KindSet(cs) - {cs[i].kind} ensures k in KindSet(r) {
      var c :| c in cs && c.kind == k;
      var j :| 0 <= j < |cs| && cs[j] == c;
      assert j != i;
      assert r[if j < i then j else j - 1] == c;
    }
    forall k | k in KindSet(r) ensures k in KindSet(cs) - {cs[i].kind} {
      var c :| c in r && c.kind == k;
      var j :| 0 <= j < |r| && r[j] == c;
      var j' := if j < i then j else j + 1;
      assert cs[j'] == c && j' != i;
    }
  }

  /** `TriggerNetworkEvents`: with no active kind the round does nothing; otherwise it
      activates some kinds (see `UnstableConnectionProofs.TriggerRound`) and then applies the
      scenario configuration, as its last call. */
  function TriggerNetworkEvents(settings: Settings, configuration: Preset, cache: Preset,
                                oracle: Oracle, used: nat): (r: Round)
    requires settings.Valid()
    ensures ActiveCount(settings) == 0 ==> r == Round([], configuration, [], used)
    ensures r.used == used + 2 * |r.picked|
    ensures ActiveCount(settings) > 0 ==>
      |r.calls| > 0 && r.calls[|r.calls| - 1] == ChangeConnectionPreset(r.configuration)
  {
    var active := ActiveOnly(EventConfigurations(settings));
    ActiveConfigurationsMatchSettings(settings);
    if |active| == 0 then Round([], configuration, [], used)
    else
      var eventCount := if settings.eventCount > |active| then |active| else settings.eventCount;
      var r := ActivateEvents(settings, active, eventCount, true, configuration, cache, oracle, used);
      r.(calls := r.calls + [ChangeConnectionPreset(r.configuration)])
  }

  /** The filtered configuration array holds exactly the active kinds, once each, in the
      array's order; so the index drawn from it picks the same kind for the same draw. */
  lemma ActiveConfigurationsMatchSettings(settings: Settings)
    requires settings.Valid()
    ensures var active := ActiveOnly(EventConfigurations(settings));
      && Pickable(settings, active)
      && (forall k :: k in KindSet(active) <==> settings.Setting(k).active)
      && |active| == ActiveCount(settings)
      && InArrayOrder(active)
  {
    var all := EventConfigurations(settings);
    var active := ActiveOnly(all);
    ConfigurationsArePickable(settings);
    ActiveOnlyInOrder(all);
    forall c | c in active ensures c == settings.Configuration(c.kind) {
      assert c in all;
    }
    forall i | 0 <= i < |active| ensures active[i].range.Valid() {
      assert active[i] in all;
    }
    KindSetOfActive(settings);
    assert all[4..][1..] == [];
    assert CountActive(all[4..]) == (if settings.packetLossInterval.active then 1 else 0);
    assert all[3..][1..] == all[4..];
    assert CountActive(all[3..]) == (if settings.packetLoss.active then 1 else 0) + CountActive(all[4..]);
    assert all[2..][1..] == all[3..];
    assert CountActive(all[2..]) == (if settings.packetJitter.active then 1 else 0) + CountActive(all[3..]);
    assert all[1..][1..] == all[2..];
    assert CountActive(all[1..]) == (if settings.packetDelay.active then 1 else 0) + CountActive(all[2..]);
  }

  lemma ConfigurationsArePickable(settings: Settings)
    ensures DistinctKinds(EventConfigurations(settings))
    ensures forall c :: c in EventConfigurations(settings) ==> c == settings.Configuration(c.kind)
  {
  }

  lemma KindSetOfActive(settings: Settings)
    ensures forall k :: k in KindSet(ActiveOnly(EventConfigurations(settings))) <==> settings.Setting(k).active
  {
    var all := EventConfigurations(settings);
    var active := ActiveOnly(all);
    forall k | settings.Setting(k).active ensures k in KindSet(active) {
      assert settings.Configuration(k) in all;
      assert settings.Configuration(k) in active;
    }
    forall k | k in KindSet(active) ensures settings.Setting(k).active {
      var c :| c in active && c.kind == k;
      assert c in all && c.active;
    }
  }

  lemma {:induction false} DistinctKindsCardinality(cs: seq<EventConfiguration>)
    requires DistinctKinds(cs)
    ensures |KindSet(cs)| == |cs|
  {
    if |cs| > 0 {
      KindSetCons(cs);
      DistinctKindsCardinality(cs[1..]);
      AddFresh(cs[0].kind, KindSet(cs[1..]));
    }
  }

  /** The kinds of a non-empty sequence are its first kind and the kinds of the rest, the
      first one not among them when the kinds are distinct. */
  lemma KindSetCons(cs: seq<EventConfiguration>)
    requires |cs| > 0
    ensures KindSet(cs) == {cs[0].kind} + KindSet(cs[1..])
    ensures DistinctKinds(cs) ==> DistinctKinds(cs[1..]) && cs[0].kind !in KindSet(cs[1..])
  {
    var tail := cs[1..];
    forall k | k in KindSet(cs) ensures k == cs[0].kind || k in KindSet(tail) {
      var c :| c in cs && c.kind == k;
      var j :| 0 <= j < |cs| && cs[j] == c;
      if j > 0 {
        assert tail[j - 1] == c;
      }
    }
    forall k | k in KindSet(tail) ensures k in KindSet(cs) {
      var c :| c in tail && c.kind == k;
      var j :| 0 <= j < |tail| && tail[j] == c;
      assert cs[j + 1] == c;
    }
    if DistinctKinds(cs) {
      forall c | c in tail ensures c.kind != cs[0].kind {
        var j :| 0 <= j < |tail| && tail[j] == c;
        assert cs[j + 1] == c;
      }
    }
  }

  lemma AddFresh<T>(x: T, s: set<T>)
    requires x !in s
    ensures |{x} + s| == |s| + 1
  {
  }

  /** The scenario's state between two frames. `cancelled` means the loop has ended;
      `cooldownMs` is what is left of the wait that follows a trigger round; `yielding` means
      a round that found no active kind is waiting out its `Task.Yield`, so the loop resumes
      in the next frame. */
  datatype State = State(
    lastTriggerTimeMs: int,
    paused: bool,
    cancelled: bool,
    configuration: Preset,
    cache: Preset,
    used: nat,
    cooldownMs: nat,
    yielding: bool)

  /** What the host does between two checks of the loop. */
  datatype Input = Frame(deltaMs: nat) | SetPaused(paused: bool) | Cancel

  /** The state after one step, the calls it made, and whether it ran a trigger round. */
  datatype Outcome = Outcome(state: State, calls: seq<ApiCall>, triggered: bool)

  /** The setup before the loop: the current preset is captured, the scenario configuration
      is reset to it, and the time since the last trigger starts at 0. */
  function Start(current: Preset): (s: State)
    ensures s.cache == current && s.configuration == current
    ensures s.lastTriggerTimeMs == 0 && s.used == 0 && s.cooldownMs == 0
    ensures !s.paused && !s.cancelled && !s.yielding
  {
    State(0, false, false, current, current, 0, 0, false)
  }

  /** The frequency draw `Random.Next(0, 100)` made as draw number `used`. */
  function FrequencyDraw(oracle: Oracle, used: nat): int {
    Next(oracle, used, 0, 100).value
  }

  /** One pass of the loop body, which sees the frame's time `deltaMs`. Its gate and its
      effects are stated by `IterateGate` and `IterateTrigger`. A round that finds no active
      kind yields before it returns, so the rest of the pass is left to the next frame. */
  function Iterate(settings: Settings, oracle: Oracle, s: State, deltaMs: nat): (o: Outcome)
    requires settings.Valid()
    ensures o.state.cache == s.cache && o.state.cancelled == s.cancelled && o.state.paused == s.paused
    ensures o.state.used >= s.used
  {
    if s.paused then Outcome(s, [], false)
    else if s.lastTriggerTimeMs > settings.minimumWaitMs then
      var draw := Next(oracle, s.used, 0, 100);
      if draw.value < settings.eventFrequency || s.lastTriggerTimeMs > settings.maximumWaitMs then
        var r := TriggerNetworkEvents(settings, s.configuration, s.cache, oracle, draw.used);
        if ActiveCount(settings) == 0 then
          Outcome(s.(used := r.used, yielding := true), [], true)
        else
          var s' := s.(configuration := r.configuration, used := r.used,
                       lastTriggerTimeMs := settings.minimumWaitMs, cooldownMs := settings.minimumWaitMs);
          Outcome(s', r.calls, true)
      else
        Outcome(s.(lastTriggerTimeMs := s.lastTriggerTimeMs + deltaMs, used := draw.used), [], false)
    else
      Outcome(s.(lastTriggerTimeMs := s.lastTriggerTimeMs + deltaMs), [], false)
  }

  /** When a pass triggers: never while paused, never before the minimum wait; past it, it
      triggers exactly when the frequency draw is below the event frequency or the maximum
      wait has passed, so a frequency of 100 or more always triggers and one of 0 or less
      triggers only on the maximum wait. A pass that does not trigger only lets time pass,
      consuming the frequency draw when it was made. */
  lemma IterateGate(settings: Settings, oracle: Oracle, s: State, deltaMs: nat)
    requires settings.Valid()
    ensures var o := Iterate(settings, oracle, s, deltaMs);
      && (s.paused ==> o == Outcome(s, [], false))
      && (o.triggered ==> !s.paused && s.lastTriggerTimeMs > settings.minimumWaitMs)
      && (!s.paused && s.lastTriggerTimeMs <= settings.minimumWaitMs ==>
            o == Outcome(s.(lastTriggerTimeMs := s.lastTriggerTimeMs + deltaMs), [], false))
      && (!s.paused && s.lastTriggerTimeMs > settings.minimumWaitMs ==>
            o.triggered == (FrequencyDraw(oracle, s.used) < settings.eventFrequency
                            || s.lastTriggerTimeMs > settings.maximumWaitMs))
      && (!s.paused && s.lastTriggerTimeMs > settings.minimumWaitMs && !o.triggered ==>
            o == Outcome(s.(lastTriggerTimeMs := s.lastTriggerTimeMs + deltaMs, used := s.used + 1), [], false))
      && (!s.paused && s.lastTriggerTimeMs > settings.minimumWaitMs && settings.eventFrequency >= 100 ==>
            o.triggered)
      && (settings.eventFrequency <= 0 ==>
            o.triggered == (!s.paused && s.lastTriggerTimeMs > settings.minimumWaitMs
                            && s.lastTriggerTimeMs > settings.maximumWaitMs))
  {
  }

  /** A pass that triggers consumes at least the frequency draw. When some kind is active it
      restarts the wait at the minimum wait, starts the cooldown and ends with applying the
      new configuration. With no active kind it makes no call, consumes only the frequency
      draw and leaves the rest to the frame after its yield. */
  lemma IterateTrigger(settings: Settings, oracle: Oracle, s: State, deltaMs: nat)
    requires settings.Valid()
    ensures var o := Iterate(settings, oracle, s, deltaMs);
      o.triggered ==>
        && o.state.used > s.used
        && (ActiveCount(settings) == 0 ==> o == Outcome(s.(used := s.used + 1, yielding := true), [], true))
        && (ActiveCount(settings) > 0 ==>
              && o.state == s.(lastTriggerTimeMs := settings.minimumWaitMs, cooldownMs := settings.minimumWaitMs,
                               configuration := o.state.configuration, used := o.state.used)
              && |o.calls| > 0 && o.calls[|o.calls| - 1] == ChangeConnectionPreset(o.state.configuration))
  {
  }

  /** The state once a pending yield resumes: the time since the last trigger is set to the
      minimum wait and the cooldown starts. */
  function Resumed(settings: Settings, s: State): State {
    s.(yielding := false, lastTriggerTimeMs := settings.minimumWaitMs, cooldownMs := settings.minimumWaitMs)
  }

  /** One frame. A pending yield resumes first. While the cooldown that follows a trigger
      lasts, the loop does not run whatever the pause flag says; the frame that ends it runs
      the next pass. A cooldown of 0 ms ends at once, so the pass after it runs in the same
      frame. */
  function OnFrame(settings: Settings, oracle: Oracle, s: State, deltaMs: nat): (o: Outcome)
    requires settings.Valid()
    ensures o.state.cache == s.cache && o.state.cancelled == s.cancelled && o.state.paused == s.paused
    ensures o.state.used >= s.used
  {
    if s.yielding then
      var resumed := Resumed(settings, s);
      if settings.minimumWaitMs == 0 then Iterate(settings, oracle, resumed, deltaMs)
      else Outcome(resumed, [], false)
    else if s.cooldownMs > deltaMs then
      Outcome(s.(cooldownMs := s.cooldownMs - deltaMs), [], false)
    else
      var it := Iterate(settings, oracle, s.(cooldownMs := 0), deltaMs);
      if it.triggered && !it.state.yielding && settings.minimumWaitMs == 0 then
        var next := Iterate(settings, oracle, it.state, deltaMs);
        Outcome(next.state, it.calls + next.calls, true)
      else it
  }

  /** A frame inside the cooldown only shortens it; the frame that ends it runs one pass.
      With a minimum wait of 0 a round that applied a configuration is followed by a second
      pass in the same frame, which only lets time pass. A round that found no active kind
      ends its frame yielding; the next frame resumes it, sets the time since the last
      trigger to the minimum wait and starts the cooldown, and with a minimum wait of 0 runs
      the next pass in that frame. */
  lemma OnFrameCooldown(settings: Settings, oracle: Oracle, s: State, deltaMs: nat)
    requires settings.Valid()
    ensures var o := OnFrame(settings, oracle, s, deltaMs);
      && (s.yielding && settings.minimumWaitMs > 0 ==>
            o == Outcome(s.(yielding := false, lastTriggerTimeMs := settings.minimumWaitMs,
                            cooldownMs := settings.minimumWaitMs), [], false))
      && (s.yielding && settings.minimumWaitMs == 0 ==>
            o == Iterate(settings, oracle, s.(yielding := false, lastTriggerTimeMs := 0, cooldownMs := 0), deltaMs))
      && (!s.yielding && s.cooldownMs > deltaMs ==> o == Outcome(s.(cooldownMs := s.cooldownMs - deltaMs), [], false))
      && (!s.yielding && s.cooldownMs <= deltaMs && settings.minimumWaitMs > 0 ==>
            o == Iterate(settings, oracle, s.(cooldownMs := 0), deltaMs))
      && (!s.yielding && o.triggered && ActiveCount(settings) == 0 ==> o.state.yielding && o.calls == [])
      && (!s.yielding && o.triggered && ActiveCount(settings) > 0 && settings.minimumWaitMs == 0 ==>
            o.state.lastTriggerTimeMs == deltaMs && o.state.cooldownMs == 0 && !o.state.yielding)
  {
    if !s.yielding && s.cooldownMs <= deltaMs {
      var it := Iterate(settings, oracle, s.(cooldownMs := 0), deltaMs);
      IterateTrigger(settings, oracle, s.(cooldownMs := 0), deltaMs);
      if it.triggered && !it.state.yielding && settings.minimumWaitMs == 0 {
        IterateGate(settings, oracle, it.state, deltaMs);
        IterateTrigger(settings, oracle, it.state, deltaMs);
      }
    }
  }

  /** One input. Once the loop has ended nothing happens; cancelling ends it and the
      `finally` block re-applies the preset captured at start. */
  function Step(settings: Settings, oracle: Oracle, s: State, input: Input): (o: Outcome)
    requires settings.Valid()
    ensures o.state.cache == s.cache
    ensures o.state.used >= s.used
  {
    if s.cancelled then Outcome(s, [], false)
    else
      match input
      case Cancel => Outcome(s.(cancelled := true), [ChangeConnectionPreset(s.cache)], false)
      case SetPaused(p) => Outcome(s.(paused := p), [], false)
      case Frame(d) => OnFrame(settings, oracle, s, d)
  }

  /** What each input does: nothing once cancelled; a cancellation re-applies the captured
      preset and ends the loop; a pause flag only sets the flag; a frame while paused, out of
      the cooldown and with no yield pending does nothing at all. */
  lemma StepCases(settings: Settings, oracle: Oracle, s: State, input: Input)
    requires settings.Valid()
    ensures var o := Step(settings, oracle, s, input);
      && (s.cancelled ==> o == Outcome(s, [], false))
      && (!s.cancelled && input.Cancel? ==> o.state.cancelled && o.calls == [ChangeConnectionPreset(s.cache)])
      && (!s.cancelled && input.SetPaused? ==> o == Outcome(s.(paused := input.paused), [], false))
      && (!s.cancelled && input.Frame? && s.paused && s.cooldownMs == 0 && !s.yielding ==> o == Outcome(s, [], false))
  {
  }

  /** The final state and every call made over a sequence of inputs. */
  datatype Trace = Trace(state: State, calls: seq<ApiCall>)

  function Run(settings: Settings, oracle: Oracle, s: State, inputs: seq<Input>): (t: Trace)
    requires settings.Valid()
    decreases |inputs|
    ensures t.state.cache == s.cache
    ensures t.state.used >= s.used
    ensures s.cancelled ==> t == Trace(s, [])
  {
    if |inputs| == 0 then Trace(s, [])
    else
      var o := Step(settings, oracle, s, inputs[0]);
      var rest := Run(settings, oracle, o.state, inputs[1..]);
      Trace(rest.state, o.calls + rest.calls)
  }
}
