# wdd_bridge decision core in Dafny

This project models the sequential decision logic of `wdd_bridge`. That program turns waggle-dance detections from hive cameras into vibration signals on actuators in a honeycomb. The model covers five components, each a module:

- **`DanceDetector`** (`dance_detector.py`) clusters single waggles into dances. It keeps an ordered list of open dances. Each waggle does three things:
  - it purges the dances it is too late (or too early) for;
  - it joins the first remaining dance with a member close enough, or opens a new dance;
  - it reports its position once the dance it joined has `min_waggles` members.
- **`CombConnector`** (`comb_connector.py`) is the actuator message protocol:
  - activation versus deactivation;
  - the `mux` text rendering and its upper-case CRLF frame;
  - the paired deactivation;
  - the per-actuator hold deadline;
  - the serial worker's transmit-or-skip decision. A deactivation never releases an actuator that a newer activation still holds.
- **`ExperimentalControl`** (`experimental_control.py`) loads the experiment timetable and decides whether a message goes out, and with which override keys.
  - Only rules in force at the current moment count.
  - Concrete (angle-specific) rules are matched within a circular tolerance and are consulted before general rules.
  - `no_vibrate` beats `vibrate`.
- **`CombMapper`** (`comb_mapper.py`) loads the actuator positions. It gives the bounding rectangle of the comb's unit corners and finds the nearest actuator to a detection, with ties going to the lowest index.
- **`Bridge`** (`bridge.py`) holds the orchestration decisions:
  - the 16-point compass label of a world angle;
  - validation and grouping of hardwired signals;
  - which activation message a hive side sends;
  - the `use_soundboard` default;
  - which messages the main loop forwards to the comb.

Shared support modules:

- `Wrappers`: `Option`, `Result`, and Python list indexing with negative indices.
- `Angles`: Python's float `%` by 2π as a floor-modulo on reals.
- `Geometry`: points and squared distances, where infinity is an explicit case.
- `Deletion`: deleting list positions one by one in reverse order.
- `Text`: decimal rendering, ASCII upper-casing, and joining and splitting words on single spaces.

Modelling conventions:

- **Time.** Timestamps and durations are integer microseconds, the resolution of Python's `datetime`. A duration in seconds `s` becomes `s * 1_000_000`. "Now" is a parameter wherever the code reads the clock.
- **Angles.** Angles are reals. π is the constant `np.pi` (3.141592653589793) and 2π is twice that.
- **Distances.** Distances are compared squared. `sqrt` is monotone, so every comparison and every minimum the code takes comes out the same.
- **External calls.** These are function-valued parameters:
  - `cv2.findHomography` / `perspectiveTransform`;
  - `datetime.fromisoformat(...).astimezone(UTC)`;
  - the per-camera `HiveSide.process`;
  - the experiment filter.
- **Message constructors.** `message_factory(keys)` is represented by `Some(keys)`. `TriggerMessage` and `ActuatorSignalSelectionMessage` are imported by `bridge.py` but do not exist in `comb_connector.py`. `Bridge.ActivationMessage` records the arguments they are built from.

Every activation sets its actuator's deadline and is always written, even when that actuator is already held (`comb_connector.py:171-188`); `CombConnector.SendSerialMessage` states this.

## Model

| member | source | states |
|---|---|---|
| `Wrappers.PyIndex` | wdd_bridge/bridge.py:74-75 | A Python list index into a list of length n resolves exactly when -n <= i < n, to i itself or i + n; otherwise IndexError |
| `Angles.Mod2Pi` | wdd_bridge/bridge.py:25 | `x % (2π)` lies in [0, 2π) and differs from x by a whole number of turns |
| `Angles.Mod2PiUnique` | wdd_bridge/bridge.py:25 | Any decomposition of x into whole turns plus a remainder in [0, 2π) is the one `%` computes |
| `Angles.Normalize` | wdd_bridge/experimental_control.py:43 | `(a + 2π) % 2π` lands in [0, 2π) and equals `a % 2π` |
| `Angles.NormalizeIdempotentAndPeriodic` | wdd_bridge/experimental_control.py:57 | Normalising twice changes nothing; adding a full turn changes nothing |
| `Geometry.Min` | wdd_bridge/dance_detector.py:29 | `min` of two distances is one of them and no larger than either |
| `DanceDetector.NewDance` | wdd_bridge/dance_detector.py:13-18 | A new dance has no members, three equally long lists and no trigger |
| `DanceDetector.Append` | wdd_bridge/dance_detector.py:33-36 | The waggle becomes the newest member of all three lists; older members keep their place; the dance is now open (non-empty, equal lengths); the trigger count is untouched |
| `DanceDetector.Trigger` | wdd_bridge/dance_detector.py:38-39 | The trigger count grows by exactly one; members unchanged |
| `DanceDetector.MinSqDistance` | wdd_bridge/dance_detector.py:23-31 | Infinite exactly for a dance without members; otherwise some member's squared distance and no larger than any member's |
| `DanceDetector.NearIffSomeMemberWithin` | wdd_bridge/dance_detector.py:74 | The dance is within `min_distance` exactly when some member is |
| `DanceDetector.NewDetector` | wdd_bridge/dance_detector.py:46-52 | A new detector keeps the given thresholds and has no open dance |
| `DanceDetector.DeleteKeepsOpen` | wdd_bridge/dance_detector.py:85-86 | Deleting flagged dances keeps every remaining dance non-empty with equal-length lists |
| `DanceDetector.ScanFrom` | wdd_bridge/dance_detector.py:68-83 | The loop stops at the first dance that is neither stale nor too far; it flags exactly the stale dances before that point, in increasing order |
| `DanceDetector.Grow` | wdd_bridge/dance_detector.py:77-80 | The matched dance gains the waggle and one trigger exactly when its new length reaches `min_waggles` |
| `DanceDetector.Process` | wdd_bridge/dance_detector.py:61-93 | Every open dance stays non-empty with equal-length lists; thresholds are unchanged; at most one position is emitted, and it is the waggle's |
| `DanceDetector.FirstAcceptingUnique` | wdd_bridge/dance_detector.py:68-83 | At most one dance is the first to accept a waggle |
| `DanceDetector.ScanFindsFirstAccepting` | wdd_bridge/dance_detector.py:68-83 | The scan matches the first accepting dance, and matches nothing exactly when no dance accepts |
| `DanceDetector.ScanFlagsStaleBefore` | wdd_bridge/dance_detector.py:69-71 | The flagged indices are exactly the stale dances before the match (or in the whole list) |
| `DanceDetector.ProcessJoinsFirstAccepting` | wdd_bridge/dance_detector.py:68-86 | With a first accepting dance m: the new list is the old list with m grown and the stale dances before m removed, others in order; the position is emitted exactly when m's new length reaches `min_waggles` |
| `DanceDetector.ProcessOpensNewDance` | wdd_bridge/dance_detector.py:85-91 | With no accepting dance: all stale dances are removed, survivors keep their order, one new dance holding only the waggle is appended last, nothing is emitted |
| `DanceDetector.ProcessKeepsDancesAfterMatch` | wdd_bridge/dance_detector.py:82-86 | Dances after the accepting one are not examined: they end the new list unchanged, right after the grown dance |
| `DanceDetector.Zip` | wdd_bridge/dance_detector.py:58 | Each member's position is paired with its angle, one pair per member |
| `DanceDetector.DancePositions` | wdd_bridge/dance_detector.py:55-59 | One non-empty list of (position, angle) pairs per open dance, in order |
| `Deletion.Without` | wdd_bridge/dance_detector.py:85-86 | Removing a set of positions keeps only elements of the list and never lengthens it |
| `Deletion.DeleteInReverseIsWithout` | wdd_bridge/dance_detector.py:85-86 | Deleting increasing indices from the last one down removes exactly the flagged positions and keeps the rest in order |
| `Text.IntToStringRoundTrip` | wdd_bridge/comb_connector.py:28-29 | The decimal text of an integer reads back as that integer |
| `Text.SplitJoinRoundTrip` | wdd_bridge/comb_connector.py:28-29 | Words without spaces joined by single spaces split back into the same words |
| `CombConnector.ClassificationExclusive` | wdd_bridge/comb_connector.py:31-35 | A trigger message is an activation exactly when it is not a deactivation; a base message is neither; an activation has a non-zero signal |
| `CombConnector.Deactivation` | wdd_bridge/comb_connector.py:18-24 | The defaulted trigger message for an index is a deactivation of that index |
| `CombConnector.GetDeactivationMessage` | wdd_bridge/comb_connector.py:37-38 | Returns the message's duration and a deactivation of the same actuator |
| `CombConnector.RenderWords` | wdd_bridge/comb_connector.py:26-29 | The rendering splits into the words `mux`, the actuator index, then `0` for a deactivation or the signal and the side for an activation; the numbers read back as the message's own. Only an activation's side must be one non-empty word |
| `CombConnector.FrameIsUpperLine` | wdd_bridge/comb_connector.py:188 | A frame is the rendering with lower-case letters raised and nothing else changed, followed by CR LF; no lower-case letter remains |
| `CombConnector.FrameRoundTrip` | wdd_bridge/comb_connector.py:26-29 | A trigger message's frame reads back as "release idx" for a deactivation, whatever its side, and "select idx signal SIDE" for an activation whose side is one non-empty word |
| `CombConnector.Writes` | wdd_bridge/comb_connector.py:194-199 | With a character delay, one write per character |
| `CombConnector.WritesSpellFrame` | wdd_bridge/comb_connector.py:194-199 | The writes for a frame concatenate to exactly that frame |
| `CombConnector.NewActuator` | wdd_bridge/comb_connector.py:47-56 | A new actuator is inactive at every time |
| `CombConnector.HoldRunsOut` | wdd_bridge/comb_connector.py:50-56 | `is_active` only runs out: active at a time means active at every earlier time; a set deadline is the first instant of inactivity; a never-set actuator is never active |
| `CombConnector.SetActiveFor` | wdd_bridge/comb_connector.py:58-64 | After `set_active_for(s)` at `now`, the actuator is active at t exactly when t < now + s |
| `CombConnector.NewActuators` | wdd_bridge/comb_connector.py:76 | `actuator_count` actuators, none active |
| `CombConnector.SendSerialMessage` | wdd_bridge/comb_connector.py:164-199 | IndexError exactly for an unknown actuator. An activation holds only its actuator until now + duration, schedules its paired deactivation and is written. A deactivation changes nothing and is written exactly when its actuator is not held. A base message is written without touching state. Writes spell the frame |
| `CombConnector.Run` | wdd_bridge/comb_connector.py:150-159 | The worker keeps one actuator per index; it fails exactly when some queued message names an unknown actuator, with the IndexError of the first such message |
| `CombConnector.RunAppend` | wdd_bridge/comb_connector.py:150-159 | Handling a queue in two parts is handling the first part, then the second from the resulting table, with the writes concatenated |
| `CombConnector.RunKeepsDeadline` | wdd_bridge/comb_connector.py:171-174 | Messages that do not activate an actuator leave its deadline untouched |
| `CombConnector.HeldActuatorIgnoresDeactivation` | wdd_bridge/comb_connector.py:182-186 | A deactivation arriving while the latest activation still holds its actuator writes nothing and changes nothing |
| `CombConnector.ExpiredHoldReleases` | wdd_bridge/comb_connector.py:182-199 | Once the hold has run out, the deactivation is written: exactly its frame is appended |
| `ExperimentalControl.LoadRule` | wdd_bridge/experimental_control.py:21-39 | A slot loads exactly when `from`, `to` and `rule` are present, both times parse, and `angle_deg` is absent, a number or a boolean. The errors come in the source's order: the first missing key of from, to, rule; then an unparsable `from`; then an unparsable `to`; then an angle that is neither a number nor a boolean. The keys are everything except the reserved ones, with their values. The angle is present exactly when `angle_deg` is, and is normalised into [0, 2π) |
| `ExperimentalControl.Degrees` | wdd_bridge/experimental_control.py:25-34 | `angle_deg / 180.0` computes exactly for a number or a boolean (True as 1, False as 0); any other value raises |
| `ExperimentalControl.LoadRules` | wdd_bridge/experimental_control.py:19-39 | Every slot yields its record in order; the loop fails exactly when some slot fails, with the error of the first bad slot |
| `ExperimentalControl.Load` | wdd_bridge/experimental_control.py:15-43 | The tolerance is converted to radians and every slot yields its record in order. Loading fails exactly when the slot list is empty (the `AttributeError` of the column-less frame) or some slot fails, then with the first bad slot's error |
| `ExperimentalControl.SelectKeepsOrder` | wdd_bridge/experimental_control.py:59 | A boolean-mask selection is the rows at increasing positions, exactly those the mask selects: timetable order and duplicates are kept |
| `ExperimentalControl.SelectOfSelect` | wdd_bridge/experimental_control.py:59-70 | Selecting by one mask and then by another equals selecting by both at once |
| `ExperimentalControl.CurrentRules` | wdd_bridge/experimental_control.py:59 | Exactly the rules whose window contains now, both ends included (a selection, so in timetable order by `SelectKeepsOrder`) |
| `ExperimentalControl.MatchingConcrete` | wdd_bridge/experimental_control.py:65-70 | Exactly the concrete rules within the tolerance of the world angle, directly or across 0/2π (a selection, so in order) |
| `ExperimentalControl.GeneralRules` | wdd_bridge/experimental_control.py:106 | Exactly the rules without an angle (a selection, so in order) |
| `ExperimentalControl.MergeKeysLastWins` | wdd_bridge/experimental_control.py:75-83 | The merged keys are those of some rule, each with the value of the last rule carrying it |
| `ExperimentalControl.MergeSelectedLastWins` | wdd_bridge/experimental_control.py:75-83 | Merging the keys of a selection gives the keys of the selected rules, each with the value of the last selected rule in timetable order that carries it |
| `ExperimentalControl.HandleActionSet` | wdd_bridge/experimental_control.py:72-97 | Handled exactly when some rule says vibrate or no_vibrate; a message exactly when handled and no rule says no_vibrate, carrying the merged keys |
| `ExperimentalControl.SomeRuleInForce` | wdd_bridge/experimental_control.py:59-60 | The current rule set is non-empty exactly when some timetable rule is in force |
| `ExperimentalControl.FilterConcreteBranch` | wdd_bridge/experimental_control.py:99-103 | With a rule in force and a matching concrete rule naming an action, a concrete no_vibrate suppresses the message, otherwise the concrete rules' merged keys go out |
| `ExperimentalControl.FilterGeneralBranch` | wdd_bridge/experimental_control.py:105-113 | With a rule in force and no matching concrete rule naming an action, the general rules decide the same way, and without a general action the message is suppressed |
| `ExperimentalControl.FilterKeysFollowTimetable` | wdd_bridge/experimental_control.py:54-113 | The keys of a passed message (`filter_message`) are those of the deciding rules in force, each valued by the last such rule in timetable order |
| `ExperimentalControl.FilterDecision` | wdd_bridge/experimental_control.py:54-113 | The full decision over the timetable. No rule in force lets the message through with no keys. Otherwise matching concrete rules decide first (no_vibrate wins), then general rules, else the message is suppressed |
| `ExperimentalControl.NoVibrateWins` | wdd_bridge/experimental_control.py:85-92 | A matching concrete no_vibrate rule in force always suppresses the message |
| `ExperimentalControl.SuppressedIff` | wdd_bridge/experimental_control.py:99-113 | The message is suppressed exactly when a rule is in force and neither the concrete nor (failing those) the general rules allow it alone |
| `ExperimentalControl.FilterIgnoresFullTurns` | wdd_bridge/experimental_control.py:57 | The decision does not change when the world angle gains a full turn |
| `CombMapper.FromConfig` | wdd_bridge/comb_mapper.py:8-22 | Loading succeeds exactly with four pixel and four unit corners; actuators are the configured points in file order |
| `CombMapper.ActuatorCountIsConfigured` | wdd_bridge/comb_mapper.py:24-25 | `get_actuator_count` of a loaded mapper is the number of configured actuators |
| `CombMapper.GetCombRectangle` | wdd_bridge/comb_mapper.py:27-33 | Each bound is attained by a corner and bounds all four, so x0 <= x1 and y0 <= y1 |
| `CombMapper.NearestIsUnique` | wdd_bridge/comb_mapper.py:48-54 | The nearest actuator (minimal distance, lowest index on ties) is unique |
| `CombMapper.MapToComb` | wdd_bridge/comb_mapper.py:38-56 | The comb point is the homography of the pixel. Without `find_sensor` no sensor is returned. Otherwise it returns the lowest-index actuator nearest to the raw pixel, with its distance, or (None, infinity) with no actuators |
| `Bridge.DirectionIndex` | wdd_bridge/bridge.py:23-26 | The label index is always one of the 16 |
| `Bridge.WorldAngleToDirectionString` | wdd_bridge/bridge.py:16-27 | The result is one of the 16 labels |
| `Bridge.DirectionCentre` | wdd_bridge/bridge.py:23-26 | Angles within half a step (11.25 degrees) of label k's centre get label k |
| `Bridge.DirectionIgnoresFullTurns` | wdd_bridge/bridge.py:25 | A full turn does not change the label |
| `Bridge.CardinalDirections` | wdd_bridge/bridge.py:16-27 | 0 is E, π/2 is N, π is W, 3π/2 is S |
| `Bridge.HardwiredSlots` | wdd_bridge/bridge.py:60-77 | Exactly one field set raises a mismatch. No signal results exactly when neither field is set. With both set, it raises `InvalidValue` exactly when a value is not an integer or the soundboard index lies outside [-2, 2); otherwise the sound sits in the slot `soundboard_index` addresses and the other slot is None. Errors name the actuator |
| `Bridge.CollectSlots` | wdd_bridge/bridge.py:58-83 | Every actuator's slots in order, or the error of the first misconfigured actuator |
| `Bridge.GroupOf` | wdd_bridge/bridge.py:83 | A group lists exactly the actuators sharing the slots, in increasing order |
| `Bridge.SharedGroupIffTwoShare` | wdd_bridge/bridge.py:85-87 | Some group has more than one member exactly when two configured actuators share their slots |
| `Bridge.BuildHardwired` | wdd_bridge/bridge.py:79-92 | One entry per actuator: none exactly for an unconfigured one, else a trigger with its slots and the duration, aimed at itself alone or at a group containing it and only actuators with the same slots |
| `Bridge.HardwiredSignals` | wdd_bridge/bridge.py:58-92 | The table fails exactly when some actuator is misconfigured, with that error; otherwise an actuator has no entry exactly when its soundboard index is unset |
| `Bridge.HardwiredGrouping` | wdd_bridge/bridge.py:79-92 | An actuator has a trigger exactly when configured, carrying its slots and the duration. Once any group is shared, each trigger targets exactly its group. Otherwise it targets its own actuator only |
| `Bridge.AllActuatorSlots` | wdd_bridge/bridge.py:103-107 | Exactly the slots named in `use_soundboard` carry the sound, the others are None; an invalid slot raises |
| `Bridge.GetActivationMessage` | wdd_bridge/bridge.py:98-113 | Hardwired mode first (table entry, or an error for no or an out-of-range actuator), then the all-actuators trigger, then a signal selection for the actuator |
| `Bridge.UseSoundboardDefault` | wdd_bridge/bridge.py:138-139 | A missing or empty soundboard list becomes `(0,)`; any other list is kept |
| `Bridge.DefaultSoundboardUsesSlotZero` | wdd_bridge/bridge.py:138-139 | With the default soundboard list the all-actuators trigger plays on slot 0 only |
| `Bridge.Forward` | wdd_bridge/bridge.py:265-275 | Each (angle, message) pair sends at most one message, so no more go out than pairs came in |
| `Bridge.ForwardAppend` | wdd_bridge/bridge.py:265-275 | Messages are forwarded in order: two batches forward as the first followed by the second |
| `Bridge.ForwardSends` | wdd_bridge/bridge.py:265-275 | A message is sent exactly when some pair carries a message that survives the filter as it |
| `Bridge.NothingForNone` | wdd_bridge/bridge.py:267-273 | A pair without a message, or whose message the filter turns into None, sends nothing |
| `Bridge.RunIterationAsWritten` | wdd_bridge/bridge.py:257-263 | As written, with processing and filtering raising nothing, the loop stops exactly on a waggle from an unknown camera |
| `Bridge.UnknownCameraStopsBridge` | wdd_bridge/bridge.py:259-263 | A waggle for camera "cam1" on a bridge that knows only "cam0" stops the loop |
| `Bridge.RunIteration` | wdd_bridge/bridge.py:257-275 | As intended, the loop never stops on a waggle; it forwards exactly for known cameras and ignores unknown ones |
| `Bridge.RunIterationAgreesOnKnownCameras` | wdd_bridge/bridge.py:257-275 | For known cameras and empty polls, the intended loop behaves as written |

## Left out

- Threads, queues and devices. This covers the serial port, simpleaudio, `run_connector`, `run_local_audio_mode`, `close`, the `schedule_deactivation` timer threads, the WDD socket listener, the UI, and the `run`/`stop` lifecycle. They are concurrency and device I/O. The worker is modelled as handling queued messages in order, each at a given time.
- Character pacing. For a non-negative `character_delay`, the `time.sleep` between characters has no effect on what is written.
- The UTF-8 `encode`. The model works on characters, and `str.upper` is modelled for ASCII letters only. The protocol text is ASCII apart from a caller-chosen `side`.
- Logging and printing. This covers `print_fn`/`log_fn` calls and the conflicting-key warning at `experimental_control.py:79`, which compares against the literal `"v"` and only affects logging. The "valid today" count at `experimental_control.py:45-52` only feeds a print.
- pandas. The timetable is a sequence of records in configuration order.
- Float rounding. Angles, tolerances and distances are exact reals, π is the constant `np.pi`, and `1e1000`/`np.inf` is an explicit infinity.
- `cv2.findHomography` and `cv2.perspectiveTransform`. The homography is an arbitrary function fixed when the configuration is loaded.
- `wdd_listener.py`, `azimuth.py`, `statistics.py` and the command-line script. These are I/O, astronomy and logging outside the decision core, and they are not part of this model.
- The cross-file wiring in `bridge.py`. Examples are `DanceDetector(waggle_max_gap=...)`, the three-value `map_to_comb`, and the `TriggerMessage` / `ActuatorSignalSelectionMessage` classes. This wiring does not match the files it calls. Each component is modelled as its own file defines it.
- `ExperimentalControl.Load`: the tolerance is passed in as a number, so a missing `tolerance_deg` key (a `KeyError` at `experimental_control.py:15`) is not modelled.
- `ExperimentalControl.LoadRule`: JSON values are abstracted to numbers, booleans, strings, null and composites (lists and objects). A boolean `angle_deg` counts as 0 or 1 degrees, and every other non-number raises `BadAngle`. A NaN angle, which pandas would treat as a general rule, is not distinguished from a missing one.
- `ExperimentalControl.HandleActionSet`: a deciding rule set whose `rule` values include a list or an object (`Composite`) makes `set(action_set)` at `experimental_control.py:85` raise `TypeError`, which ends `run()` (`bridge.py:275-279`). The model does not raise: such a rule neither allows nor prevents, so `FilterMessage` falls through to the general rules or suppresses the message.
- `CombConnector.Writes`: a negative `character_delay` makes `time.sleep` at `comb_connector.py:199` raise `ValueError` after the first `con.write`, which ends the worker; the model writes every character. Iterating over the encoded `bytes` hands `con.write` an `int` per byte; the model writes one-character strings.
- `DanceDetector.MinSqDistance`: it compares squared distances instead of `math.sqrt` results. The decisions are the same because `sqrt` is monotone.
- `CombMapper.MapToComb`: the reported distance is squared, for the same reason.
- `Bridge.HardwiredSlots`: `int(...)` of a configuration value is abstracted to "an integer or a value `int` rejects". Python's conversions of floats, booleans and numeric strings are not modelled.
- `Bridge.GetActivationMessage`: the `TriggerMessage` and `ActuatorSignalSelectionMessage` objects themselves are not part of this model. Their constructor arguments are.
- `Bridge.RunIterationAsWritten`: an exception raised by `HiveSide.process` or by the experiment filter inside the `try` at `bridge.py:244-281` also stops the loop as written; the model stops only for an unknown camera.
- `Bridge.RunIteration`: `HiveSide.process` and the experiment filter are parameters. An exception raised while processing (for example by `get_activation_message`) is not modelled as stopping the loop.

## Findings

| source | as written | input that shows it | evidently intended | confidence | as-written member | corrected member |
|---|---|---|---|---|---|---|
| wdd_bridge/bridge.py:259-263 | After reporting "Received waggle for invalid camera ID." the loop still evaluates `self.cameras[waggle_cam_id]`. That raises `KeyError`, which the `except`/`finally` around the loop turn into a stop of the whole bridge | A waggle with `cam_id` "cam1" on a bridge configured only for "cam0" | Report the unknown camera and continue with the next waggle | high; not executed | `Bridge.RunIterationAsWritten` with `Bridge.UnknownCameraStopsBridge` | `Bridge.RunIteration` with `Bridge.RunIterationAgreesOnKnownCameras` |
