/**
 * The orchestration decisions of `bridge.py`: the compass label of a world
 * angle, the hardwired-signal table a hive side builds from its actuator
 * configuration, which activation message a side sends, the soundboard
 * default, and which messages the main loop hands to the comb.
 *
 * `TriggerMessage` and `ActuatorSignalSelectionMessage` are not part of this
 * model; `ActivationMessage` records the arguments `bridge.py` builds them from.
 */
module Bridge {
  import opened Wrappers
  import opened Angles

  /** The 16 compass labels, counter-clockwise from east. */
  const WorldDirections: seq<string> :=
    ["E", "NEE", "NE", "NNE", "N", "NNW", "NW", "NWW", "W", "SWW", "SW", "SSW", "S", "SSE", "SE", "SEE"]

  /** `360.0 / len(world_directions)` degrees per label. */
  const StepDeg: real := 22.5

  /** The label index of a world angle: rotate by half a step, reduce modulo 2*pi, count whole steps. */
  function DirectionIndex(worldAngle: real): (k: nat)
    ensures k < |WorldDirections|
  {
    var angle := Mod2Pi(TwoPi + worldAngle + (StepDeg / 180.0 * Pi) / 2.0);
    ((angle / Pi * 180.0) / StepDeg).Floor as nat
  }

  /** `world_angle_to_direction_string` */
  function WorldAngleToDirectionString(worldAngle: real): (s: string)
    ensures s in WorldDirections
  {
    WorldDirections[DirectionIndex(worldAngle)]
  }

  /** Every angle within half a step (11.25 degrees) of label `k`'s centre `k * 22.5` degrees gets label `k`. */
  lemma {:induction false} DirectionCentre(k: nat, worldAngle: real)
    requires k < 16
    requires k as real * (Pi / 8.0) - Pi / 16.0 <= worldAngle < k as real * (Pi / 8.0) + Pi / 16.0
    ensures DirectionIndex(worldAngle) == k
  {
    var x := TwoPi + worldAngle + (StepDeg / 180.0 * Pi) / 2.0;
    Mod2PiUnique(x, 1, x - TwoPi);
    var angle := x - TwoPi;
    assert k as real <= (angle / Pi * 180.0) / StepDeg < k as real + 1.0;
  }

  /** The label depends only on the direction, not on the number of turns. */
  lemma {:induction false} DirectionIgnoresFullTurns(worldAngle: real)
    ensures DirectionIndex(worldAngle + TwoPi) == DirectionIndex(worldAngle)
  {
    Mod2PiPeriodic(TwoPi + worldAngle + (StepDeg / 180.0 * Pi) / 2.0);
    assert TwoPi + (worldAngle + TwoPi) + (StepDeg / 180.0 * Pi) / 2.0
        == (TwoPi + worldAngle + (StepDeg / 180.0 * Pi) / 2.0) + TwoPi;
  }

  /** The four cardinal directions. */
  lemma {:induction false} CardinalDirections()
    ensures WorldAngleToDirectionString(0.0) == "E"
    ensures WorldAngleToDirectionString(Pi / 2.0) == "N"
    ensures WorldAngleToDirectionString(Pi) == "W"
    ensures WorldAngleToDirectionString(3.0 * Pi / 2.0) == "S"
  {
    DirectionCentre(0, 0.0);
    DirectionCentre(4, Pi / 2.0);
    DirectionCentre(8, Pi);
    DirectionCentre(12, 3.0 * Pi / 2.0);
  }

  /** The two soundboard file slots of a trigger message; `None` leaves a slot unset. */
  datatype Slots = Slots(slot0: Option<int>, slot1: Option<int>)

  /** Which actuators a trigger message is meant for. */
  datatype TriggerTarget = AllActuators | Manual(index: nat) | Grouped(indices: seq<nat>)

  /**
   * `TriggerMessage(slot0, slot1, duration=..., manual_actuator_index=...)`
   * and `ActuatorSignalSelectionMessage(actuator_index, signal_index, duration)`.
   */
  datatype ActivationMessage =
    | Trigger(slots: Slots, duration: int, target: TriggerTarget)
    | SignalSelection(actuatorIndex: Option<nat>, signalIndex: int, duration: int)

  /** A configuration field read with `int(...)`: missing, an integer, or a value `int` rejects. */
  datatype ConfigField = Absent | IntValue(i: int) | NotAnInt

  /** The hardwired-signal part of one actuator's configuration. */
  datatype HardwiredConfig = HardwiredConfig(soundboardIndex: ConfigField, soundIndex: ConfigField)

  /** The `ValueError`s `HiveSide.__init__` raises, with the actuator's index. */
  datatype ConfigError = SoundboardMismatch(actuator: nat) | InvalidValue(actuator: nat)

  /**
   * A value `int(...)` rejects, or a soundboard index outside the two-slot
   * list `[None, None]`.
   */
  predicate Unusable(cfg: HardwiredConfig)
  {
    cfg.soundboardIndex.NotAnInt? || cfg.soundIndex.NotAnInt?
    || (cfg.soundboardIndex.IntValue? && !(-2 <= cfg.soundboardIndex.i < 2))
  }

  /**
   * The trigger slots of actuator `idx`: none when neither field is set, the
   * sound file in the slot `[None, None][soundboard_index]` addresses, and an
   * error when only one field is set or a value is unusable.
   */
  function HardwiredSlots(cfg: HardwiredConfig, idx: nat): (r: Result<Option<Slots>, ConfigError>)
    ensures (cfg.soundboardIndex.Absent? != cfg.soundIndex.Absent?) ==> r == Failure(SoundboardMismatch(idx))
    ensures r == Success(None) <==> cfg.soundboardIndex.Absent? && cfg.soundIndex.Absent?
    ensures r.Success? && r.value.Some? ==>
      && cfg.soundboardIndex.IntValue? && cfg.soundIndex.IntValue?
      && var slot := PyIndex(2, cfg.soundboardIndex.i);
      && slot.Some?
      && (if slot.value == 0 then r.value.value == Slots(Some(cfg.soundIndex.i), None)
          else r.value.value == Slots(None, Some(cfg.soundIndex.i)))
    ensures cfg.soundboardIndex.IntValue? && cfg.soundIndex.IntValue? && -2 <= cfg.soundboardIndex.i < 2 ==>
      r.Success? && r.value.Some?
    ensures r.Failure? ==> r.error.actuator == idx
    ensures !(cfg.soundboardIndex.Absent? != cfg.soundIndex.Absent?) ==>
      (r.Failure? <==> Unusable(cfg))
    ensures !(cfg.soundboardIndex.Absent? != cfg.soundIndex.Absent?) && Unusable(cfg) ==> r == Failure(InvalidValue(idx))
  {
    var soundboardSet := !cfg.soundboardIndex.Absent?;
    var soundSet := !cfg.soundIndex.Absent?;
    if soundboardSet != soundSet then Failure(SoundboardMismatch(idx))
    else if !soundboardSet then Success(Option<Slots>.None)
    else if cfg.soundboardIndex.NotAnInt? || cfg.soundIndex.NotAnInt? then Failure(InvalidValue(idx))
    else
      match PyIndex(2, cfg.soundboardIndex.i)
      case None => Failure(InvalidValue(idx))
      case Some(slot) =>
        var sound := cfg.soundIndex.i;
        Success(Some(if slot == 0 then Slots(Some(sound), None) else Slots(None, Some(sound))))
  }

  /** Every actuator before `i` is configured correctly. */
  predicate FirstFailure(cfgs: seq<HardwiredConfig>, i: nat)
    requires i <= |cfgs|
  {
    forall j :: 0 <= j < i ==> HardwiredSlots(cfgs[j], j).Success?
  }

  /** The loop over the actuator configurations: every actuator's slots, or the error of the first bad one. */
  function CollectSlots(cfgs: seq<HardwiredConfig>): (r: Result<seq<Option<Slots>>, ConfigError>)
    ensures r.Success? ==> |r.value| == |cfgs| && forall i :: 0 <= i < |cfgs| ==> HardwiredSlots(cfgs[i], i) == Success(r.value[i])
    ensures r.Failure? ==>
      exists i :: 0 <= i < |cfgs| && HardwiredSlots(cfgs[i], i) == Failure(r.error) && FirstFailure(cfgs, i)
    decreases |cfgs|
  {
    if |cfgs| == 0 then Success([])
    else
      var n := |cfgs| - 1;
      match CollectSlots(cfgs[..n])
      case Failure(e) => Failure(e)
      case Success(prefix) =>
        match HardwiredSlots(cfgs[n], n)
        case Failure(e) => Failure(e)
        case Success(s) => Success(prefix + [s])
  }

  /** `signal_groups[key]`: the actuators whose slots are `key`, in index order. */
  function GroupOf(slots: seq<Option<Slots>>, key: Slots): (r: seq<nat>)
    ensures forall j :: j in r <==> 0 <= j < |slots| && slots[j] == Some(key)
    ensures forall a, b :: 0 <= a < b < |r| ==> r[a] < r[b]
    decreases |slots|
  {
    if |slots| == 0 then []
    else
      var n := |slots| - 1;
      var prefix := GroupOf(slots[..n], key);
      assert forall a :: 0 <= a < |prefix| ==> prefix[a] in prefix && prefix[a] < n;
      prefix + if slots[n] == Some(key) then [n] else []
  }

  /** `max(len(g) for g in signal_groups.values()) > 1`. */
  predicate SomeGroupShared(slots: seq<Option<Slots>>)
  {
    exists i :: 0 <= i < |slots| && slots[i].Some? && |GroupOf(slots, slots[i].value)| > 1
  }

  /** A group has more than one member exactly when two configured actuators share their slots. */
  lemma {:induction false} SharedGroupIffTwoShare(slots: seq<Option<Slots>>)
    ensures SomeGroupShared(slots) <==>
      exists i, j :: 0 <= i < j < |slots| && slots[i].Some? && slots[i] == slots[j]
  {
    if SomeGroupShared(slots) {
      var i :| 0 <= i < |slots| && slots[i].Some? && |GroupOf(slots, slots[i].value)| > 1;
      var g := GroupOf(slots, slots[i].value);
      assert g[0] in g && g[1] in g;
      assert slots[g[0]] == slots[g[1]];
    }
    if exists i, j :: 0 <= i < j < |slots| && slots[i].Some? && slots[i] == slots[j] {
      var i, j :| 0 <= i < j < |slots| && slots[i].Some? && slots[i] == slots[j];
      var g := GroupOf(slots, slots[i].value);
      assert i in g && j in g;
      var a :| 0 <= a < |g| && g[a] == i;
      var b :| 0 <= b < |g| && g[b] == j;
      assert a != b;
    }
  }

  /**
   * `self.hardwired_signals`: a trigger for every configured actuator, aimed at
   * that actuator, or at its whole group once any group has several members.
   */
  function BuildHardwired(slots: seq<Option<Slots>>, duration: int): (r: seq<Option<ActivationMessage>>)
    ensures |r| == |slots|
    ensures forall i :: 0 <= i < |slots| ==> (r[i].None? <==> slots[i].None?)
    ensures forall i :: 0 <= i < |slots| && r[i].Some? ==>
      r[i].value.Trigger? && Some(r[i].value.slots) == slots[i] && r[i].value.duration == duration
    ensures forall i :: 0 <= i < |slots| && r[i].Some? ==> AimedWithin(slots, i, r[i].value.target)
  {
    var regroup := SomeGroupShared(slots);
    seq(|slots|, i requires 0 <= i < |slots| =>
      match slots[i]
      case None => None
      case Some(key) => Some(Trigger(key, duration, if regroup then Grouped(GroupOf(slots, key)) else Manual(i))))
  }

  /**
   * The trigger is meant for actuator `i` alone, or for a group that contains
   * `i` and only actuators configured with the same slots.
   */
  predicate AimedWithin(slots: seq<Option<Slots>>, i: nat, t: TriggerTarget)
    requires i < |slots|
  {
    || t == Manual(i)
    || (t.Grouped? && i in t.indices && forall j :: j in t.indices ==> j < |slots| && slots[j] == slots[i])
  }

  /** The hardwired table of `HiveSide.__init__`, or the error it raises. */
  function HardwiredSignals(cfgs: seq<HardwiredConfig>, duration: int): (r: Result<seq<Option<ActivationMessage>>, ConfigError>)
    ensures r.Success? ==> |r.value| == |cfgs|
    ensures r.Failure? <==> CollectSlots(cfgs).Failure?
    ensures r.Failure? ==> r.error == CollectSlots(cfgs).error
    ensures r.Success? ==> forall i :: 0 <= i < |cfgs| ==> (r.value[i].None? <==> cfgs[i].soundboardIndex.Absent?)
  {
    match CollectSlots(cfgs)
    case Failure(e) => Failure(e)
    case Success(slots) => Success(BuildHardwired(slots, duration))
  }

  /**
   * Each configured actuator's trigger carries its own slots; an unconfigured
   * actuator has no message. If some group has several members, every
   * trigger is aimed at exactly the actuators sharing its slots (itself
   * included); otherwise each is aimed at its own actuator only.
   */
  lemma {:induction false} HardwiredGrouping(cfgs: seq<HardwiredConfig>, slots: seq<Option<Slots>>, duration: int, i: nat)
    requires CollectSlots(cfgs) == Success(slots) && i < |cfgs|
    ensures HardwiredSignals(cfgs, duration) == Success(BuildHardwired(slots, duration))
    ensures BuildHardwired(slots, duration)[i].None? ==> cfgs[i].soundboardIndex.Absent?
    ensures cfgs[i].soundboardIndex.Absent? ==> BuildHardwired(slots, duration)[i].None?
    ensures BuildHardwired(slots, duration)[i].Some? ==>
      var t := BuildHardwired(slots, duration)[i].value;
      t.Trigger? && t.slots == slots[i].value && t.duration == duration
    ensures BuildHardwired(slots, duration)[i].Some? && SomeGroupShared(slots) ==>
      var t := BuildHardwired(slots, duration)[i].value;
      t.target.Grouped? && i in t.target.indices
      && forall j :: j in t.target.indices <==> 0 <= j < |cfgs| && slots[j] == slots[i]
    ensures BuildHardwired(slots, duration)[i].Some? && !SomeGroupShared(slots) ==>
      BuildHardwired(slots, duration)[i].value.target == Manual(i)
  {
    assert HardwiredSlots(cfgs[i], i) == Success(slots[i]);
  }

  /** The configuration of one hive side that decides its activation messages. */
  datatype HiveSide = HiveSide(
    soundfileIndex: int, signalIndex: int, signalDuration: int,
    useAllActuators: bool, useHardwiredSignals: bool, useSoundboard: seq<int>,
    hardwired: seq<Option<ActivationMessage>>)

  /** What `get_activation_message` raises: no actuator was found, or a list index is out of range. */
  datatype LookupError = NoActuator | HardwiredIndexError(index: nat) | SoundboardIndexError(slot: int)

  /** `indices[i] = sound` for every `i` of `use_soundboard`, starting from `[None, None]`. */
  function AllActuatorSlots(useSoundboard: seq<int>, sound: int): (r: Result<Slots, LookupError>)
    ensures r.Success? <==> forall a :: 0 <= a < |useSoundboard| ==> PyIndex(2, useSoundboard[a]).Some?
    ensures r.Success? ==>
      && (r.value.slot0 == Some(sound) <==> exists a :: 0 <= a < |useSoundboard| && PyIndex(2, useSoundboard[a]) == Some(0))
      && (r.value.slot0.None? <==> !exists a :: 0 <= a < |useSoundboard| && PyIndex(2, useSoundboard[a]) == Some(0))
      && (r.value.slot1 == Some(sound) <==> exists a :: 0 <= a < |useSoundboard| && PyIndex(2, useSoundboard[a]) == Some(1))
      && (r.value.slot1.None? <==> !exists a :: 0 <= a < |useSoundboard| && PyIndex(2, useSoundboard[a]) == Some(1))
    decreases |useSoundboard|
  {
    if |useSoundboard| == 0 then Success(Slots(None, None))
    else
      var n := |useSoundboard| - 1;
      match AllActuatorSlots(useSoundboard[..n], sound)
      case Failure(e) => Failure(e)
      case Success(s) =>
        match PyIndex(2, useSoundboard[n])
        case None => Failure(SoundboardIndexError(useSoundboard[n]))
        case Some(slot) => Success(if slot == 0 then s.(slot0 := Some(sound)) else s.(slot1 := Some(sound)))
  }

  /**
   * `get_activation_message(actuator_index)`: the hardwired table entry in
   * hardwired mode, else one trigger for all actuators, else a signal
   * selection for the given actuator.
   */
  function GetActivationMessage(side: HiveSide, actuatorIndex: Option<nat>): (r: Result<Option<ActivationMessage>, LookupError>)
    ensures side.useHardwiredSignals ==>
      r == (if actuatorIndex.None? then Failure(NoActuator)
            else if actuatorIndex.value < |side.hardwired| then Success(side.hardwired[actuatorIndex.value])
            else Failure(HardwiredIndexError(actuatorIndex.value)))
    ensures !side.useHardwiredSignals && side.useAllActuators ==>
      (r.Success? <==> AllActuatorSlots(side.useSoundboard, side.soundfileIndex).Success?)
    ensures !side.useHardwiredSignals && side.useAllActuators && r.Success? ==>
      r.value.Some? && r.value.value.Trigger? && r.value.value.target == AllActuators
      && r.value.value.duration == side.signalDuration
      && AllActuatorSlots(side.useSoundboard, side.soundfileIndex).Success?
      && r.value.value.slots == AllActuatorSlots(side.useSoundboard, side.soundfileIndex).value
    ensures !side.useHardwiredSignals && !side.useAllActuators ==>
      r == Success(Some(SignalSelection(actuatorIndex, side.signalIndex, side.signalDuration)))
  {
    if side.useHardwiredSignals then
      match actuatorIndex
      case None => Failure(NoActuator)
      case Some(k) => if k < |side.hardwired| then Success(side.hardwired[k]) else Failure(HardwiredIndexError(k))
    else if side.useAllActuators then
      match AllActuatorSlots(side.useSoundboard, side.soundfileIndex)
      case Failure(e) => Failure(e)
      case Success(slots) => Success(Some(Trigger(slots, side.signalDuration, AllActuators)))
    else Success(Some(SignalSelection(actuatorIndex, side.signalIndex, side.signalDuration)))
  }

  /** With the default soundboard `(0,)`, the all-actuators trigger plays the sound on slot 0 only. */
  lemma {:induction false} DefaultSoundboardUsesSlotZero(sound: int)
    ensures AllActuatorSlots(UseSoundboardDefault(None), sound) == Success(Slots(Some(sound), None))
  {
    assert [0][..0] == [];
  }

  /** `Bridge.__init__`: a missing or empty `use_soundboard` becomes `(0,)`. */
  function UseSoundboardDefault(useSoundboard: Option<seq<int>>): (r: seq<int>)
    ensures |r| > 0
    ensures useSoundboard.Some? && |useSoundboard.value| > 0 ==> r == useSoundboard.value
    ensures useSoundboard.None? || |useSoundboard.value| == 0 ==> r == [0]
  {
    if useSoundboard.None? || |useSoundboard.value| == 0 then [0] else useSoundboard.value
  }

  /**
   * The inner loop of `Bridge.run`: of the side's (world angle, message) pairs,
   * skip `None` messages, pass the rest through the experiment filter when
   * there is one, and send whatever is not `None` afterwards, in order.
   */
  function Forward<M>(items: seq<(real, Option<M>)>, filter: Option<(M, real) -> Option<M>>): (sent: seq<M>)
    ensures |sent| <= |items|
    decreases |items|
  {
    if |items| == 0 then []
    else
      var n := |items| - 1;
      Forward(items[..n], filter) + Passed(items[n], filter)
  }

  /** What one pair contributes: its message after the filter, if any remains. */
  function Passed<M>(item: (real, Option<M>), filter: Option<(M, real) -> Option<M>>): (r: seq<M>)
    ensures |r| <= 1
  {
    match item.1
    case None => []
    case Some(m) =>
      match filter
      case None => [m]
      case Some(f) => if f(m, item.0).Some? then [f(m, item.0).value] else []
  }

  /** Forwarding respects order: forwarding two batches is forwarding each in turn. */
  lemma {:induction false} ForwardAppend<M>(a: seq<(real, Option<M>)>, b: seq<(real, Option<M>)>, filter: Option<(M, real) -> Option<M>>)
    ensures Forward(a + b, filter) == Forward(a, filter) + Forward(b, filter)
    decreases |b|
  {
    if |b| == 0 {
      assert a + b == a;
    } else {
      var n := |b| - 1;
      assert (a + b)[..|a + b| - 1] == a + b[..n];
      assert (a + b)[|a + b| - 1] == b[n];
      ForwardAppend(a, b[..n], filter);
      calc {
        Forward(a + b, filter);
        Forward(a + b[..n], filter) + Passed(b[n], filter);
        Forward(a, filter) + (Forward(b[..n], filter) + Passed(b[n], filter));
        Forward(a, filter) + Forward(b, filter);
      }
    }
  }

  /** A message is sent exactly when some pair carries a message that the filter (if any) turns into it. */
  lemma {:induction false} ForwardSends<M>(items: seq<(real, Option<M>)>, filter: Option<(M, real) -> Option<M>>, m: M)
    ensures m in Forward(items, filter) <==> exists i :: 0 <= i < |items| && m in Passed(items[i], filter)
    decreases |items|
  {
    if |items| > 0 {
      var n := |items| - 1;
      ForwardSends(items[..n], filter, m);
      if exists i :: 0 <= i < |items| && m in Passed(items[i], filter) {
        var i :| 0 <= i < |items| && m in Passed(items[i], filter);
        if i < n {
          assert items[..n][i] == items[i];
        }
      }
      if m in Forward(items[..n], filter) {
        var i :| 0 <= i < n && m in Passed(items[..n][i], filter);
        assert items[i] == items[..n][i];
      }
    }
  }

  /** A pair without a message, or whose message the filter suppresses, sends nothing. */
  lemma {:induction false} NothingForNone<M>(item: (real, Option<M>), filter: Option<(M, real) -> Option<M>>)
    requires item.1.None? || (filter.Some? && filter.value(item.1.value, item.0).None?)
    ensures Passed(item, filter) == []
  {
  }

  /** One pass of the main loop: nothing received, messages sent, or the loop stopped by an exception. */
  datatype Iteration<M> = Idle | Sent(messages: seq<M>) | Stopped(unknownCamera: string)

  /**
   * One pass of `Bridge.run` as written: after a poll that returned nothing the
   * loop continues; an unknown camera id is reported and then looked up anyway,
   * which raises `KeyError` and stops the bridge. `process` stands for the
   * camera's `HiveSide.process`.
   */
  function RunIterationAsWritten<M>(cameras: set<string>, waggleCamId: Option<string>,
                                    process: string -> seq<(real, Option<M>)>,
                                    filter: Option<(M, real) -> Option<M>>): (r: Iteration<M>)
    ensures r.Stopped? <==> waggleCamId.Some? && waggleCamId.value !in cameras
  {
    match waggleCamId
    case None => Idle
    case Some(cam) => if cam !in cameras then Stopped(cam) else Sent(Forward(process(cam), filter))
  }

  /** A waggle from a camera the bridge does not know stops the loop as written. */
  lemma {:induction false} UnknownCameraStopsBridge()
    ensures RunIterationAsWritten<int>({"cam0"}, Some("cam1"), _ => [], None) == Stopped("cam1")
  {
  }

  /** One pass of the main loop as intended: a waggle from an unknown camera is reported and ignored. */
  function RunIteration<M>(cameras: set<string>, waggleCamId: Option<string>,
                           process: string -> seq<(real, Option<M>)>,
                           filter: Option<(M, real) -> Option<M>>): (r: Iteration<M>)
    ensures !r.Stopped?
    ensures r.Sent? <==> waggleCamId.Some? && waggleCamId.value in cameras
    ensures r.Sent? ==> r.messages == Forward(process(waggleCamId.value), filter)
  {
    match waggleCamId
    case None => Idle
    case Some(cam) => if cam !in cameras then Idle else Sent(Forward(process(cam), filter))
  }

  /** For known cameras the intended loop does exactly what the written one does. */
  lemma {:induction false} RunIterationAgreesOnKnownCameras<M>(cameras: set<string>, waggleCamId: Option<string>,
                                            process: string -> seq<(real, Option<M>)>,
                                            filter: Option<(M, real) -> Option<M>>)
    requires waggleCamId.None? || waggleCamId.value in cameras
    ensures RunIteration(cameras, waggleCamId, process, filter) == RunIterationAsWritten(cameras, waggleCamId, process, filter)
  {
  }
}
