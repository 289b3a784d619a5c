# Paper3Networking core, modelled in Dafny

This project models the sequential logic of the Paper3Networking Unity sample. The Unity
engine, the networking stack and the editor are not modelled. It covers four parts:

- **The unstable-connection network scenario** (`UnstableConnection`,
  `UnstableConnectionProofs`). This is a pure step machine over the inputs `Frame(deltaMs)`,
  `SetPaused(b)` and `Cancel`.
  - A stream of random draws (`Randomizer.Oracle`) stands in for `System.Random`, and it is
    consumed one draw per `Next(lo, hi)`.
  - Each frame runs one pass of the scenario loop. The pass checks the gate on the minimum
    wait, the frequency draw and the maximum wait. A trigger round then picks
    `min(eventCount, active)` distinct active event kinds without replacement. Each pick is
    activated: a lag spike, or a new value for one field of the 4-field preset.
  - The round then applies the scenario configuration and waits a cooldown of the minimum
    wait.
  - Cancelling re-applies the preset captured at start (the `finally` block).
- **The periodic lag-spike scenario** (`LagSpikeScenario`). Each completed interval wait is
  one input. The spike fires unless the scenario is paused or the duration is 0.
- **The starter-assets package checker** (`Strings`, `VersionCompare`, `PackageChecker`).
  This part covers:
  - `String.Split` and `Convert.ToInt32` as the checker uses them;
  - the dotted version comparison `CompareVersion`;
  - parsing `name@version` lines;
  - filling in a missing version from the recommended compatible package;
  - the install decision against the installed packages, with the user's dialog answers
    given as input;
  - the install request strings.
- **The network object pool** (`ObjectPool`). A map from prefab to a FIFO queue of instance
  ids, plus the active flag of each instance. Registering a prefab prewarms its queue.
  Getting an instance dequeues one or instantiates a fresh id. Returning an instance
  deactivates it and enqueues it. A missing prefab key is an error result.

`Wrappers` holds `Option` and `Result`. `NetworkEvents` holds the preset record and the
calls a scenario makes on the network events API.

In a round that resets between events, the first activation starts from the preset
captured when the scenario started (`UnstableConnection.cs:179`, `:218-225`). It does not
start from the preset in force when the round runs. See `UnstableConnection.RoundBase`.

## Model

| member | source | states |
|---|---|---|
| Randomizer.Next | src/Paper3Networking/Assets/NetworkSimulator/UnstableConnection.cs:243 | `Random.Next(lo, hi)` consumes exactly one draw; its value lies in `[lo, hi)`, and is `lo` when the range is empty |
| Randomizer.NextCoversRange | src/Paper3Networking/Assets/NetworkSimulator/UnstableConnection.cs:175-177 | the draw abstraction loses no behaviour: every value of `[lo, hi)` is returned by some generator |
| Randomizer.NextReadsOneDraw | src/Paper3Networking/Assets/NetworkSimulator/UnstableConnection.cs:195 | `Next` depends on nothing but the one draw it consumes |
| UnstableConnection.WithField | src/Paper3Networking/Assets/NetworkSimulator/UnstableConnection.cs:56-110 | setting one parameter field gives it the new value and keeps the other three fields |
| UnstableConnection.Activate | src/Paper3Networking/Assets/NetworkSimulator/UnstableConnection.cs:35-111 | activating any event kind consumes exactly one draw |
| UnstableConnection.ActivateEffect | src/Paper3Networking/Assets/NetworkSimulator/UnstableConnection.cs:35-111 | a lag spike keeps the configuration and makes one `TriggerLagSpike` call with a duration in its range; a parameter kind makes no call, sets only its own field to a value in its range, and keeps the other fields of its base, which is the captured preset when resetting |
| UnstableConnection.ActiveOnly | src/Paper3Networking/Assets/NetworkSimulator/UnstableConnection.cs:229 | the filtered list holds exactly the active configurations, as many as are active, with kinds still distinct |
| UnstableConnection.ActiveOnlyInOrder | src/Paper3Networking/Assets/NetworkSimulator/UnstableConnection.cs:229 | filtering keeps the array's order: kinds that come in array order still do after the filter |
| UnstableConnection.ActiveConfigurationsMatchSettings | src/Paper3Networking/Assets/NetworkSimulator/UnstableConnection.cs:166-173 | the active list holds each active kind exactly once with its own settings, in the array's order, and its length is the number of toggles on; so the index drawn at `:243` picks a determined kind |
| UnstableConnection.ActivateEvents | src/Paper3Networking/Assets/NetworkSimulator/UnstableConnection.cs:241-249 | a round loop picks exactly `eventCount` kinds (none for a count of 0 or less) and consumes two draws per pick, the index and then the value |
| UnstableConnection.ActivateEventsRound | src/Paper3Networking/Assets/NetworkSimulator/UnstableConnection.cs:240-249 | the picked kinds are distinct and come from the remaining list; unpicked fields keep the round base (the captured preset only when resetting is on and a parameter kind is picked first); picked fields lie in their ranges; the only call is one lag spike, made when a lag spike is picked |
| UnstableConnection.TriggerNetworkEvents | src/Paper3Networking/Assets/NetworkSimulator/UnstableConnection.cs:227-252 | with no active kind the round does nothing and consumes no draw; otherwise its last call applies the resulting configuration; two draws per picked kind |
| UnstableConnection.Iterate | src/Paper3Networking/Assets/NetworkSimulator/UnstableConnection.cs:186-208 | a loop pass never changes the captured preset, the pause flag or the cancellation, and never gives back draws |
| UnstableConnection.IterateGate | src/Paper3Networking/Assets/NetworkSimulator/UnstableConnection.cs:188-196 | a paused pass changes nothing. Up to the minimum wait a pass adds the frame time and consumes no draw. Past it, a pass triggers iff the frequency draw is below the event frequency or the maximum wait has passed; otherwise it adds the frame time and consumes exactly one draw. Frequency 100 always triggers past the gate; frequency 0 triggers only past the maximum wait |
| UnstableConnection.IterateTrigger | src/Paper3Networking/Assets/NetworkSimulator/UnstableConnection.cs:198-236 | a triggering pass consumes draws. When some kind is active it sets the time since the last trigger to the minimum wait (not 0), starts a cooldown of the minimum wait and ends with applying the configuration. With no active kind it makes no call, consumes only the frequency draw, and is left yielding until the next frame |
| UnstableConnection.OnFrame | src/Paper3Networking/Assets/NetworkSimulator/UnstableConnection.cs:198-208 | a frame never changes the captured preset, the pause flag or the cancellation, and never gives back draws |
| UnstableConnection.OnFrameCooldown | src/Paper3Networking/Assets/NetworkSimulator/UnstableConnection.cs:198-236 | a frame inside the cooldown only shortens it. The frame that ends it runs one pass. With a minimum wait of 0, a round that applied a configuration is followed by a pass in the same frame. A round with no active kind ends its frame yielding. The next frame resumes it: it sets the time since the last trigger to the minimum wait and starts the cooldown, and with a minimum wait of 0 it runs the next pass in that frame |
| UnstableConnection.Step | src/Paper3Networking/Assets/NetworkSimulator/UnstableConnection.cs:184-215 | no input changes the captured preset or gives back draws |
| UnstableConnection.StepCases | src/Paper3Networking/Assets/NetworkSimulator/UnstableConnection.cs:186-215 | nothing happens after cancellation. Cancelling ends the loop and re-applies the captured preset. A pause input only sets the flag. A paused frame outside the cooldown, with no yield pending, does nothing |
| UnstableConnection.Run | src/Paper3Networking/Assets/NetworkSimulator/UnstableConnection.cs:164-216 | a run keeps the captured preset, never gives back draws, and does nothing once cancelled |
| UnstableConnectionProofs.CancelRevertsLast | src/Paper3Networking/Assets/NetworkSimulator/UnstableConnection.cs:211-215 | a run that receives a cancellation, in a cooldown or not, ends cancelled, and its last call re-applies the captured preset |
| UnstableConnectionProofs.ExitRestoresStartPreset | src/Paper3Networking/Assets/NetworkSimulator/UnstableConnection.cs:179-215 | from the start state, the last preset applied on exit is the one current when the scenario started |
| UnstableConnectionProofs.TriggerNetworkEventsDeterministic | src/Paper3Networking/Assets/NetworkSimulator/UnstableConnection.cs:227-252 | two generators that agree on the draws a round consumes give the same round |
| UnstableConnectionProofs.Deterministic | src/Paper3Networking/Assets/NetworkSimulator/UnstableConnection.cs:164-216 | the same settings, inputs and draws give the same calls and final state, whatever the generator yields beyond the draws consumed |
| UnstableConnectionProofs.PausedFramesChangeNothing | src/Paper3Networking/Assets/NetworkSimulator/UnstableConnection.cs:188-192 | paused frames outside a cooldown, with no yield pending, change nothing: no call, no draw, no time |
| UnstableConnectionProofs.PauseIsInvisible | src/Paper3Networking/Assets/NetworkSimulator/UnstableConnection.cs:188-192 | pausing outside a cooldown with no yield pending, any number of frames, then resuming leaves the rest of the run exactly as if the pause never happened |
| UnstableConnectionProofs.CallsStayInBounds | src/Paper3Networking/Assets/NetworkSimulator/UnstableConnection.cs:31-111 | with ranges inside the inspector's slider bounds and in-bounds presets, every preset applied has non-negative parameters and a loss of at most 100, and every lag spike lasts 0 to 5000 ms |
| UnstableConnectionProofs.TriggerRound | src/Paper3Networking/Assets/NetworkSimulator/UnstableConnection.cs:227-252 | a round with an active kind picks `min(eventCount, active)` distinct active kinds; unpicked fields keep the round base; picked fields lie in their ranges; every call before the last is a lag spike within its range, at most one; the configuration is applied last, exactly once |
| UnstableConnectionProofs.AllActiveKindsFire | src/Paper3Networking/Assets/NetworkSimulator/UnstableConnection.cs:238-249 | with an event count of at least the number of active kinds, a round picks exactly the active kinds |
| LagSpikeScenario.Spike | src/Paper3Networking/Assets/NetworkSimulator/LagSpikeScenarioWithAsyncTask.cs:29-35 | an interval end fires at most one spike, of the configured duration, exactly when not paused and the duration is not 0 |
| LagSpikeScenario.Step | src/Paper3Networking/Assets/NetworkSimulator/LagSpikeScenarioWithAsyncTask.cs:22-35 | nothing happens once ended. Cancelling ends the loop. A pause input only sets the flag. A completed wait counts one interval and fires the spike. A wait of -1 never completes. A wait below -1 throws and ends the loop |
| LagSpikeScenario.Run | src/Paper3Networking/Assets/NetworkSimulator/LagSpikeScenarioWithAsyncTask.cs:20-37 | a run does nothing once ended and never decreases the interval count |
| LagSpikeScenario.RunAppend | src/Paper3Networking/Assets/NetworkSimulator/LagSpikeScenarioWithAsyncTask.cs:22-36 | running two input sequences one after the other is running their concatenation |
| LagSpikeScenario.EverySpikeFires | src/Paper3Networking/Assets/NetworkSimulator/LagSpikeScenarioWithAsyncTask.cs:24-35 | running and unpaused with a non-zero duration, `n` intervals fire exactly `n` spikes of exactly the configured duration |
| LagSpikeScenario.PausedIntervalsStillWait | src/Paper3Networking/Assets/NetworkSimulator/LagSpikeScenarioWithAsyncTask.cs:26-33 | while paused the interval waits still complete and are counted, but no spike fires |
| LagSpikeScenario.ZeroDurationNeverSpikes | src/Paper3Networking/Assets/NetworkSimulator/LagSpikeScenarioWithAsyncTask.cs:29-33 | with a duration of 0 no spike ever fires, whatever the inputs |
| LagSpikeScenario.OnlyLagSpikes | src/Paper3Networking/Assets/NetworkSimulator/LagSpikeScenarioWithAsyncTask.cs:20-37 | every call is a lag spike of the configured duration (never a preset change), at most one per completed interval |
| LagSpikeScenario.CancelIsFinal | src/Paper3Networking/Assets/NetworkSimulator/LagSpikeScenarioWithAsyncTask.cs:22-24 | after a cancellation no further call is made, whatever inputs follow |
| Strings.IndexOf | src/Paper3Networking/Assets/StarterAssets/Editor/PackageChecker/PackageChecker.cs:54 | the first position of a character, or none exactly when it does not occur |
| Strings.Split | src/Paper3Networking/Assets/StarterAssets/Editor/PackageChecker/PackageChecker.cs:229-230 | `String.Split(c)` gives at least one part, no part holds the separator, and joining the parts gives back the string |
| Strings.SplitJoin | src/Paper3Networking/Assets/StarterAssets/Editor/PackageChecker/PackageChecker.cs:54 | splitting undoes joining parts without separators |
| Strings.TrimStart | src/Paper3Networking/Assets/StarterAssets/Editor/PackageChecker/PackageChecker.cs:241 | the result is a suffix that drops exactly the leading white space |
| Strings.TrimEnd | src/Paper3Networking/Assets/StarterAssets/Editor/PackageChecker/PackageChecker.cs:241 | the result is a prefix that drops exactly the trailing white space |
| Strings.ToInt32 | src/Paper3Networking/Assets/StarterAssets/Editor/PackageChecker/PackageChecker.cs:241 | `Convert.ToInt32` succeeds only with a 32-bit value |
| Strings.ToInt32FormatRoundTrip | src/Paper3Networking/Assets/StarterAssets/Editor/PackageChecker/PackageChecker.cs:246 | every 32-bit number, written in decimal, converts back to itself |
| Strings.StrayCharacterIsFormatError | src/Paper3Networking/Assets/StarterAssets/Editor/PackageChecker/PackageChecker.cs:241 | any character that is not white space, a sign or a digit makes the conversion a format error |
| Strings.LeadingWhiteSpaceIgnored | src/Paper3Networking/Assets/StarterAssets/Editor/PackageChecker/PackageChecker.cs:241 | leading white space does not change the conversion |
| Strings.TrailingWhiteSpaceIgnored | src/Paper3Networking/Assets/StarterAssets/Editor/PackageChecker/PackageChecker.cs:246 | trailing white space does not change the conversion |
| VersionCompare.Components | src/Paper3Networking/Assets/StarterAssets/Editor/PackageChecker/PackageChecker.cs:229-230 | one component per dotted part, each the `Int32` conversion of that part, in order |
| VersionCompare.CompareFrom | src/Paper3Networking/Assets/StarterAssets/Editor/PackageChecker/PackageChecker.cs:234-257 | the comparison loop returns -1, 0 or 1 unless a conversion fails |
| VersionCompare.CompareVersion | src/Paper3Networking/Assets/StarterAssets/Editor/PackageChecker/PackageChecker.cs:227-261 | `CompareVersion` returns only -1, 0 or 1 |
| VersionCompare.FirstDifferenceDecides | src/Paper3Networking/Assets/StarterAssets/Editor/PackageChecker/PackageChecker.cs:249-253 | the first component that differs decides: 1 if the first version's is larger, -1 if smaller, whatever follows |
| VersionCompare.AgreeingVersionsMatch | src/Paper3Networking/Assets/StarterAssets/Editor/PackageChecker/PackageChecker.cs:234-260 | versions agreeing on every component, missing ones read as 0, compare 0 |
| VersionCompare.CompareVersionAntisymmetric | src/Paper3Networking/Assets/StarterAssets/Editor/PackageChecker/PackageChecker.cs:227-261 | swapping the arguments negates the result, and one order fails exactly when the other does |
| VersionCompare.CompareVersionReflexive | src/Paper3Networking/Assets/StarterAssets/Editor/PackageChecker/PackageChecker.cs:260 | a version whose components all convert compares 0 with itself |
| VersionCompare.TrailingZeroIgnored | src/Paper3Networking/Assets/StarterAssets/Editor/PackageChecker/PackageChecker.cs:234-247 | `v` and `v.0` compare 0, in both orders |
| VersionCompare.ShortVersionMatchesLong | src/Paper3Networking/Assets/StarterAssets/Editor/PackageChecker/PackageChecker.cs:234-260 | "1.2" and "1.2.0" compare 0 |
| VersionCompare.PreReleaseIsFormatError | src/Paper3Networking/Assets/StarterAssets/Editor/PackageChecker/PackageChecker.cs:241 | a "0-preview" component stops the comparison with a format error |
| VersionCompare.FirstComponentFails | src/Paper3Networking/Assets/StarterAssets/Editor/PackageChecker/PackageChecker.cs:239-241 | a first component of the first version that does not convert stops the comparison with its exception |
| PackageChecker.ParseLine | src/Paper3Networking/Assets/StarterAssets/Editor/PackageChecker/PackageChecker.cs:54-58 | the name is the text before the first '@'; the version is the text between the first and the second '@'; there is no version exactly when the line has no '@' |
| PackageChecker.InstallRequest | src/Paper3Networking/Assets/StarterAssets/Editor/PackageChecker/PackageChecker.cs:199-207 | the request is the bare name without a version, and `name@version` (of that length) with one |
| PackageChecker.ParseInstallRequest | src/Paper3Networking/Assets/StarterAssets/Editor/PackageChecker/PackageChecker.cs:201-203 | parsing an install request gives back its entry when neither part holds an '@' |
| PackageChecker.FillScan | src/Paper3Networking/Assets/StarterAssets/Editor/PackageChecker/PackageChecker.cs:121-136 | the compatible scan never changes the entry's name |
| PackageChecker.Fill | src/Paper3Networking/Assets/StarterAssets/Editor/PackageChecker/PackageChecker.cs:116-137 | filling never changes the entry's name |
| PackageChecker.FillKeepsGivenVersion | src/Paper3Networking/Assets/StarterAssets/Editor/PackageChecker/PackageChecker.cs:94-119 | an entry with a version is left as it is and unmarked |
| PackageChecker.FillWithoutRecommendation | src/Paper3Networking/Assets/StarterAssets/Editor/PackageChecker/PackageChecker.cs:121-136 | with no compatible package recommending a version, the entry stays version-less and unmarked |
| PackageChecker.FillTakesLastRecommendation | src/Paper3Networking/Assets/StarterAssets/Editor/PackageChecker/PackageChecker.cs:124-131 | a version-less entry takes the version of the last compatible package recommending one, and is marked |
| PackageChecker.Verdict | src/Paper3Networking/Assets/StarterAssets/Editor/PackageChecker/PackageChecker.cs:146-180 | a match clears the mark; an upgrade or a downgrade sets it to the user's answer |
| PackageChecker.InstallScan | src/Paper3Networking/Assets/StarterAssets/Editor/PackageChecker/PackageChecker.cs:141-182 | the installed scan keeps the entry and only sets its mark; it fails only with a conversion error |
| PackageChecker.DecideEntry | src/Paper3Networking/Assets/StarterAssets/Editor/PackageChecker/PackageChecker.cs:116-182 | a decided entry is the filled entry |
| PackageChecker.NotInstalledKeepsFill | src/Paper3Networking/Assets/StarterAssets/Editor/PackageChecker/PackageChecker.cs:139-143 | an entry whose package is not installed keeps what the compatible scan gave it |
| PackageChecker.VersionlessIsNotCompared | src/Paper3Networking/Assets/StarterAssets/Editor/PackageChecker/PackageChecker.cs:141-146 | in the corrected scan, an entry still without a version is not compared and is kept as it is |
| PackageChecker.GivenVersionNotInstalledIsSkipped | src/Paper3Networking/Assets/StarterAssets/Editor/PackageChecker/PackageChecker.cs:94-143 | an entry with an explicit version whose package is not installed is never marked |
| PackageChecker.LastInstalledDecides | src/Paper3Networking/Assets/StarterAssets/Editor/PackageChecker/PackageChecker.cs:141-180 | for an entry with a version, the last installed package of its name decides: a match clears the mark, otherwise the user's answer to that dialog sets it |
| PackageChecker.ComparedStep | src/Paper3Networking/Assets/StarterAssets/Editor/PackageChecker/PackageChecker.cs:146-180 | one converting comparison sets the mark by its verdict and the scan goes on |
| PackageChecker.ComparisonErrorStops | src/Paper3Networking/Assets/StarterAssets/Editor/PackageChecker/PackageChecker.cs:146 | a comparison that does not convert makes the entry's decision fail |
| PackageChecker.DecideFrom | src/Paper3Networking/Assets/StarterAssets/Editor/PackageChecker/PackageChecker.cs:116-183 | the decisions succeed iff every entry's decision does; then there is one decision per entry, in list order |
| PackageChecker.MarkedFrom | src/Paper3Networking/Assets/StarterAssets/Editor/PackageChecker/PackageChecker.cs:187-189 | the marked positions are in range, strictly increasing, and include every marked decision |
| PackageChecker.RequestsFrom | src/Paper3Networking/Assets/StarterAssets/Editor/PackageChecker/PackageChecker.cs:186-192 | one request per marked position, the `m`-th for the `m`-th marked decision |
| PackageChecker.Requests | src/Paper3Networking/Assets/StarterAssets/Editor/PackageChecker/PackageChecker.cs:186-192 | as many requests as marked decisions, never more than the decisions, in list order, each for its decision's entry |
| PackageChecker.RequestsAreMarked | src/Paper3Networking/Assets/StarterAssets/Editor/PackageChecker/PackageChecker.cs:186-192 | a request is made for every marked decision and for nothing else |
| PackageChecker.Entries | src/Paper3Networking/Assets/StarterAssets/Editor/PackageChecker/PackageChecker.cs:52-61 | one parsed entry per line, in order |
| PackageChecker.CheckPackages | src/Paper3Networking/Assets/StarterAssets/Editor/PackageChecker/PackageChecker.cs:52-192 | the corrected check (see Findings): a successful check makes at most one request per line |
| PackageChecker.CheckPackagesSucceeds | src/Paper3Networking/Assets/StarterAssets/Editor/PackageChecker/PackageChecker.cs:116-192 | the check succeeds exactly when no line's decision throws |
| PackageChecker.CheckPackagesRequests | src/Paper3Networking/Assets/StarterAssets/Editor/PackageChecker/PackageChecker.cs:186-192 | a successful check requests an install for every line decided for install, and every request is that of such a line |
| PackageChecker.Decisions | src/Paper3Networking/Assets/StarterAssets/Editor/PackageChecker/PackageChecker.cs:116-183 | a successful check has one decision per line, each the decision of that line |
| PackageChecker.CheckPackagesRequestsInOrder | src/Paper3Networking/Assets/StarterAssets/Editor/PackageChecker/PackageChecker.cs:186-192 | a successful check makes exactly one request per line marked for install, in line order: the `m`-th request is for the `m`-th marked line |
| PackageChecker.InstallScanAsWritten | src/Paper3Networking/Assets/StarterAssets/Editor/PackageChecker/PackageChecker.cs:141-182 | the scan as written also keeps the entry and only sets its mark |
| PackageChecker.DecideEntryAsWritten | src/Paper3Networking/Assets/StarterAssets/Editor/PackageChecker/PackageChecker.cs:116-182 | a decided entry, as written, is the filled entry |
| PackageChecker.AsWrittenDiffersOnlyWhenVersionMissing | src/Paper3Networking/Assets/StarterAssets/Editor/PackageChecker/PackageChecker.cs:119-146 | the code as written throws exactly on a still version-less, installed entry, which the corrected scan keeps as it is; everywhere else the two agree |
| PackageChecker.DecideEntryAsWrittenAgrees | src/Paper3Networking/Assets/StarterAssets/Editor/PackageChecker/PackageChecker.cs:116-182 | deciding one entry as written throws exactly when the compatible scan leaves it version-less and its package is installed; otherwise it decides as the corrected code does |
| PackageChecker.DecideFromAsWrittenAgrees | src/Paper3Networking/Assets/StarterAssets/Editor/PackageChecker/PackageChecker.cs:116-183 | the decisions as written equal the corrected ones when no entry is still version-less and installed, and fail when one is |
| PackageChecker.CheckPackagesAsWrittenAgrees | src/Paper3Networking/Assets/StarterAssets/Editor/PackageChecker/PackageChecker.cs:52-192 | the check as written is the corrected check on a list with no line still version-less and installed, and stops with an exception when there is one |
| PackageChecker.MissingRecommendationCrashes | src/Paper3Networking/Assets/StarterAssets/Editor/PackageChecker/PackageChecker.cs:146 | an installed "com.unity.cinemachine" entry without a version and without a recommendation throws as written, and stays unmarked when corrected |
| ObjectPool.EmptyPool | src/Paper3Networking/Assets/Scripts/NetworkObjectPool.cs:19-21 | the initial pool registers no prefab and is valid |
| ObjectPool.CreateInstance | src/Paper3Networking/Assets/Scripts/NetworkObjectPool.cs:107-110 | instantiating mints an id that no queue holds and that has no active flag, and keeps the pool valid |
| ObjectPool.Return | src/Paper3Networking/Assets/Scripts/NetworkObjectPool.cs:61-69 | fails exactly for an unregistered prefab. Otherwise: the object goes to the back of its prefab's queue and is inactive; other queues, the prefab set, other objects' flags and the id counter are unchanged |
| ObjectPool.Get | src/Paper3Networking/Assets/Scripts/NetworkObjectPool.cs:119-142 | fails exactly for an unregistered prefab. Otherwise the result is active. A non-empty queue hands out and removes its front. An empty queue gives a fresh instance and stays empty. Other queues, the prefab set and other objects' flags are unchanged |
| ObjectPool.RegisterPrefab | src/Paper3Networking/Assets/Scripts/NetworkObjectPool.cs:89-104 | the prefab's queue is replaced by exactly the prewarm count of fresh, inactive instances in creation order. Other queues and other flags are unchanged. Validity is kept, and the new instances are in no earlier queue |
| ObjectPool.AddPrefab | src/Paper3Networking/Assets/Scripts/NetworkObjectPool.cs:76-84 | the assertion fails exactly when the prefab is already registered, and the prefab is registered with its prewarmed queue either way |
| ObjectPool.InitializePool | src/Paper3Networking/Assets/Scripts/NetworkObjectPool.cs:147-153 | every listed prefab becomes registered, each queue is the one its last entry prewarmed (or the old one when unlisted), and one id is minted per prewarmed instance |
| ObjectPool.UnlistedQueueKept | src/Paper3Networking/Assets/Scripts/NetworkObjectPool.cs:147-153 | a prefab no entry names keeps its queue |
| ObjectPool.LastEntryWins | src/Paper3Networking/Assets/Scripts/NetworkObjectPool.cs:93-96 | a prefab listed more than once ends up with only the instances of its last entry, minted after those of every earlier entry |
| ObjectPool.ReturnKeepsValid | src/Paper3Networking/Assets/Scripts/NetworkObjectPool.cs:61-69 | returning an instance the pool minted keeps the pool valid |
| ObjectPool.GetKeepsValid | src/Paper3Networking/Assets/Scripts/NetworkObjectPool.cs:119-131 | getting keeps the pool valid, and an instance created for an empty queue is new to the pool |
| ObjectPool.ReturnAll | src/Paper3Networking/Assets/Scripts/NetworkObjectPool.cs:61-69 | returning several objects fails exactly for an unregistered prefab and keeps the prefab set |
| ObjectPool.GetMany | src/Paper3Networking/Assets/Scripts/NetworkObjectPool.cs:119-142 | getting `n` objects fails exactly for an unregistered prefab, yields `n` objects and keeps the prefab set |
| ObjectPool.ReturnAllQueue | src/Paper3Networking/Assets/Scripts/NetworkObjectPool.cs:68 | returned objects are appended to the queue in order |
| ObjectPool.GetManyQueue | src/Paper3Networking/Assets/Scripts/NetworkObjectPool.cs:124-127 | getting at most as many objects as are queued hands out the front of the queue in order and leaves the rest |
| ObjectPool.ReturnedInOrder | src/Paper3Networking/Assets/Scripts/NetworkObjectPool.cs:61-127 | the pool is first in, first out: after returns, emptying the queue hands out what was queued, then the returned objects in return order |
| ObjectPool.GetThenReturn | src/Paper3Networking/Assets/Scripts/NetworkObjectPool.cs:124-131 | getting from an empty queue creates the next fresh id, and returning it queues exactly that instance |

## Left out

- The `async` machinery of both scenarios (`Task.Yield`, `Task.Delay`, the `CancellationToken`) is not modelled as such. One loop pass is one `Frame` input. The cooldown after a trigger is a count-down over frames. The `Task.Yield` of a round with no active kind (`UnstableConnection.cs:234`) is a flag that the next frame clears. Cancellation is an input checked before each step.
- `Debug.Log` calls (such as `UnstableConnection.cs:233`) are not modelled; logging has no effect on the state.
- `Time.deltaTime` is a float; frame times are whole milliseconds (`nat`). The `Vector2` ranges are the `int`s their `(int)` casts give.
- The `System.Random` algorithm and its seeding (`UnstableConnection.cs:175-177`) are not modelled. An arbitrary draw stream stands in for the generator.
- Randomizer.Next: requires `lo <= hi`. `Random.Next` throws for `lo > hi`, and that exception is not modelled.
- UnstableConnection.Iterate, OnFrame, Step and Run require every active event range to be valid (`Settings.Valid`). Activating an event whose range has `lo > hi` throws in the C# code, and that path is not modelled.
- The minimum wait is a `nat`, as the inspector's `Min(0)` keeps it. The event count is any integer, where the inspector limits it to 1 to 5.
- The preset's diagnostic name and the `NetworkSimulatorPreset.Create` factory are not modelled; a preset is its four parameters.
- `ConnectionParametersWithCurves.cs` is not part of this model. It evaluates Unity animation curves on float time.
- PackageChecker's I/O is not modelled. This covers:
  - finding and reading the package list file;
  - `Client.SearchAll`, `Client.List` and `Client.Add` with their busy-wait loops;
  - the scripting-define marker;
  - `AssetDatabase` reimport;
  - logging.

  The compatible and installed package lists are inputs. The dialog answers are a function of (entry, installed package). An install is its request string.
- Strings.ToInt32: parses under the invariant culture with `NumberStyles.Integer`. Culture-specific signs and digits are not modelled, and neither is a `null` argument (only the missing-version case of that, which is the finding below).
- A version-less entry that no compatible package recommends a version for is never marked for install, in the code and in the model. This is despite the comment at `PackageChecker.cs:123`, which says the latest release would be installed.
- Unity's side of the pool is not modelled. This covers:
  - `Instantiate`, which is modelled as minting a fresh id;
  - `SetActive`, which is modelled as the `active` map;
  - transforms, position and rotation;
  - the `PrefabHandler.AddHandler` registration (`NetworkObjectPool.cs:103`);
  - the `OnValidate` asserts;
  - the `DummyPrefabInstanceHandler` glue;
  - the singleton base class.
- ObjectPool.Return: on an unregistered prefab the C# code deactivates the object before the dictionary lookup throws. The model's failure leaves the pool unchanged.
- ObjectPool.AddPrefab: the `Assert.IsFalse` is a Unity assertion that logs and carries on. The model reports it as the `violated` output rather than stopping. The `Assert.IsNotNull` on the `NetworkObject` component is left out with the rest of Unity's component model.
- Relay networking, gameplay, input, camera and UI scripts are outside this model.

## Findings

| source | as written | input that shows it | evidently intended | confidence | as-written member | corrected member |
|---|---|---|---|---|---|---|
| src/Paper3Networking/Assets/StarterAssets/Editor/PackageChecker/PackageChecker.cs:119-146 | the installed-package scan compares every entry whose package is installed, even one still without a version; `CompareVersion(null, …)` then throws a `NullReferenceException` at its first `Split`, which stops the whole check | the line `com.unity.cinemachine` (no version), no compatible package recommending a version for it, and `com.unity.cinemachine` 2.8.9 installed | a version-less entry has nothing to compare, so it is skipped and left unmarked | high, not executed | PackageChecker.InstallScanAsWritten | PackageChecker.InstallScan |
