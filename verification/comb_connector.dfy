/**
 * The actuator message protocol and the per-message decision of the serial
 * worker (`comb_connector.py`): how a message is classified, rendered and
 * framed, the per-actuator hold deadline, and whether a message is written.
 *
 * Times and durations are integer microseconds; "now" is a parameter where the
 * Python code reads the clock. The deactivation timer thread is represented by
 * the (delay, message) pair it would sleep on and enqueue.
 */
module CombConnector {
  import opened Wrappers
  import opened Text

  /** `signal_duration=1.0` seconds. */
  const DefaultSignalDuration: int := 1_000_000
  /** `side=None`, as `str` renders it. */
  const DefaultSide: string := "None"
  /** `character_delay=0.001` seconds. */
  const DefaultCharacterDelay: real := 0.001

  /**
   * A message for the comb.
   * `Plain` is a bare `CombActuatorMessage`: neither activation nor deactivation;
   * `text` stands for Python's default `str()` of such an object.
   * `TriggerActuator` is a `CombTriggerActuatorMessage`; `side` is the text
   * `str(side)` produces.
   */
  datatype Message =
    | Plain(text: string)
    | TriggerActuator(actuatorIndex: int, signalDuration: int, signalIndex: Option<int>, side: string)

  /** `is_deactivation_message`: a trigger message whose `signal_index` is falsy (None or 0). */
  predicate IsDeactivation(m: Message)
  {
    match m
    case Plain(_) => false
    case TriggerActuator(_, _, signal, _) => signal == None || signal == Some(0)
  }

  /** `is_activation_message`: a trigger message that is not a deactivation. */
  predicate IsActivation(m: Message)
  {
    match m
    case Plain(_) => false
    case TriggerActuator(_, _, _, _) => !IsDeactivation(m)
  }

  /** Every trigger message is exactly one of activation and deactivation; a plain message is neither. */
  lemma {:induction false} ClassificationExclusive(m: Message)
    ensures m.TriggerActuator? ==> (IsActivation(m) <==> !IsDeactivation(m))
    ensures m.Plain? ==> !IsActivation(m) && !IsDeactivation(m)
    ensures IsActivation(m) ==> m.signalIndex.Some? && m.signalIndex.value != 0
  {
  }

  /** `CombTriggerActuatorMessage(actuator_index)` with all other arguments defaulted. */
  function Deactivation(actuatorIndex: int): (m: Message)
    ensures IsDeactivation(m) && !IsActivation(m)
    ensures m.TriggerActuator? && m.actuatorIndex == actuatorIndex
  {
    TriggerActuator(actuatorIndex, DefaultSignalDuration, None, DefaultSide)
  }

  /** `get_deactivation_message`: how long to wait, and the message that switches the same actuator off. */
  function GetDeactivationMessage(m: Message): (r: (int, Message))
    requires m.TriggerActuator?
    ensures r.0 == m.signalDuration
    ensures IsDeactivation(r.1) && r.1.TriggerActuator? && r.1.actuatorIndex == m.actuatorIndex
  {
    (m.signalDuration, Deactivation(m.actuatorIndex))
  }

  /** `__str__`: `"mux {idx} 0"` for a deactivation, `"mux {idx} {signal} {side}"` for an activation. */
  function Render(m: Message): string
  {
    match m
    case Plain(text) => text
    case TriggerActuator(idx, _, signal, side) =>
      if IsDeactivation(m) then JoinWords(["mux", IntToString(idx), "0"])
      else JoinWords(["mux", IntToString(idx), IntToString(signal.value), side])
  }

  /** The bytes put on the serial line: the upper-cased rendering and CRLF. */
  function Frame(m: Message): string
  {
    Upper(Render(m)) + "\r\n"
  }

  /** What a receiver reads from a frame: select a signal on an actuator, or release it. */
  datatype Command = Select(actuator: int, signal: int, side: string) | Release(actuator: int)

  predicate IsIntText(s: string)
  {
    |s| > 0 && (AllDigits(s) || (s[0] == '-' && AllDigits(s[1..])))
  }

  /** Reads a command line without its line end. */
  function DecodeLine(line: string): Option<Command>
  {
    var ws := SplitWords(line);
    if |ws| == 3 && ws[0] == "MUX" && IsIntText(ws[1]) && ws[2] == "0" then
      Some(Release(ParseInt(ws[1])))
    else if |ws| == 4 && ws[0] == "MUX" && IsIntText(ws[1]) && IsIntText(ws[2]) then
      Some(Select(ParseInt(ws[1]), ParseInt(ws[2]), ws[3]))
    else None
  }

  /** Reads one CRLF-terminated frame. */
  function DecodeFrame(frame: string): Option<Command>
  {
    if |frame| >= 2 && frame[|frame| - 2..] == "\r\n" then DecodeLine(frame[..|frame| - 2]) else None
  }

  /** The keyword of the protocol, upper-cased. */
  lemma {:induction false} UpperKeyword()
    ensures Upper("mux") == "MUX" && Upper("0") == "0"
  {
    var u := Upper("mux");
    assert u[0] == 'M' && u[1] == 'U' && u[2] == 'X';
    var z := Upper("0");
    assert z[0] == '0';
  }

  /** Upper-casing a joined line upper-cases each word. */
  lemma {:induction false} UpperJoinWords(ws: seq<string>)
    ensures Upper(JoinWords(ws)) == JoinWords(seq(|ws|, i requires 0 <= i < |ws| => Upper(ws[i])))
    decreases |ws|
  {
    var us := seq(|ws|, i requires 0 <= i < |ws| => Upper(ws[i]));
    if |ws| > 1 {
      UpperJoinWords(ws[1..]);
      assert us[1..] == seq(|ws[1..]|, i requires 0 <= i < |ws[1..]| => Upper(ws[1..][i]));
      UpperConcat(ws[0] + " ", JoinWords(ws[1..]));
      UpperConcat(ws[0], " ");
    }
  }

  /** Integer text is unchanged by upper-casing and has no spaces. */
  lemma {:induction false} IntTextIsUpper(i: int)
    ensures Upper(IntToString(i)) == IntToString(i) && NoSpace(IntToString(i))
    ensures IsIntText(IntToString(i)) && ParseInt(IntToString(i)) == i
  {
    IntToStringRoundTrip(i);
    UpperKeepsNonLetters(IntToString(i));
  }

  /**
   * The rendering of a trigger message reads as the `"mux {} {} {}"` format
   * promises: the keyword, the actuator index, then `0` for a deactivation or
   * the signal and the side for an activation.
   */
  lemma {:induction false} RenderWords(m: Message)
    requires m.TriggerActuator? && (IsActivation(m) ==> |m.side| > 0 && NoSpace(m.side))
    ensures |SplitWords(Render(m))| == (if IsDeactivation(m) then 3 else 4)
    ensures SplitWords(Render(m))[0] == "mux"
    ensures IsIntText(SplitWords(Render(m))[1]) && ParseInt(SplitWords(Render(m))[1]) == m.actuatorIndex
    ensures IsDeactivation(m) ==> SplitWords(Render(m))[2] == "0"
    ensures IsActivation(m) ==>
      && IsIntText(SplitWords(Render(m))[2]) && ParseInt(SplitWords(Render(m))[2]) == m.signalIndex.value
      && SplitWords(Render(m))[3] == m.side
  {
    IntTextIsUpper(m.actuatorIndex);
    assert NoSpace("mux") && NoSpace("0");
    if IsDeactivation(m) {
      SplitJoinRoundTrip(["mux", IntToString(m.actuatorIndex), "0"]);
    } else {
      IntTextIsUpper(m.signalIndex.value);
      SplitJoinRoundTrip(["mux", IntToString(m.actuatorIndex), IntToString(m.signalIndex.value), m.side]);
    }
  }

  /**
   * A frame is the rendering with every lower-case letter raised and nothing
   * else changed, followed by CR LF.
   */
  lemma {:induction false} FrameIsUpperLine(m: Message)
    ensures |Frame(m)| == |Render(m)| + 2 && Frame(m)[|Render(m)|..] == "\r\n"
    ensures forall i :: 0 <= i < |Render(m)| ==> !('a' <= Frame(m)[i] <= 'z')
    ensures forall i :: 0 <= i < |Render(m)| && !('a' <= Render(m)[i] <= 'z') ==> Frame(m)[i] == Render(m)[i]
  {
    var line := Upper(Render(m));
    assert Frame(m) == line + "\r\n";
    assert Frame(m)[..|line|] == line;
  }

  /** A frame decodes as the upper-cased line it carries. */
  lemma {:induction false} FrameHoldsLine(m: Message)
    ensures DecodeFrame(Frame(m)) == DecodeLine(Upper(Render(m)))
  {
    var f := Frame(m);
    assert f[..|f| - 2] == Upper(Render(m));
    assert f[|f| - 2..] == "\r\n";
  }

  /**
   * The frame of a trigger message reads back as the command it encodes: the
   * actuator index, and for an activation the signal and the upper-cased side.
   * An activation's side must be a single non-empty word for the line to stay
   * readable; a deactivation's frame does not carry the side.
   */
  lemma {:induction false} FrameRoundTrip(m: Message)
    requires m.TriggerActuator? && (IsActivation(m) ==> |m.side| > 0 && NoSpace(m.side))
    ensures DecodeFrame(Frame(m)) == Some(
      if IsDeactivation(m) then Release(m.actuatorIndex)
      else Select(m.actuatorIndex, m.signalIndex.value, Upper(m.side)))
  {
    FrameHoldsLine(m);
    if IsDeactivation(m) {
      ReleaseLineRoundTrip(m);
    } else {
      SelectLineRoundTrip(m);
    }
  }

  /** The upper-cased line of a deactivation reads back as the release of its actuator. */
  lemma {:induction false} ReleaseLineRoundTrip(m: Message)
    requires m.TriggerActuator? && IsDeactivation(m)
    ensures DecodeLine(Upper(Render(m))) == Some(Release(m.actuatorIndex))
  {
    var idx := m.actuatorIndex;
    IntTextIsUpper(idx);
    UpperKeyword();
    var ws := ["mux", IntToString(idx), "0"];
    UpperJoinWords(ws);
    var us := seq(|ws|, i requires 0 <= i < |ws| => Upper(ws[i]));
    assert us == ["MUX", IntToString(idx), "0"];
    SplitJoinRoundTrip(us);
  }

  /** The upper-cased line of an activation reads back as its actuator, signal and upper-cased side. */
  lemma {:induction false} SelectLineRoundTrip(m: Message)
    requires IsActivation(m) && |m.side| > 0 && NoSpace(m.side)
    ensures DecodeLine(Upper(Render(m))) == Some(Select(m.actuatorIndex, m.signalIndex.value, Upper(m.side)))
  {
    var idx := m.actuatorIndex;
    var sig := m.signalIndex.value;
    IntTextIsUpper(idx);
    IntTextIsUpper(sig);
    UpperKeyword();
    var ws := ["mux", IntToString(idx), IntToString(sig), m.side];
    UpperJoinWords(ws);
    var us := seq(|ws|, i requires 0 <= i < |ws| => Upper(ws[i]));
    assert us[0] == "MUX" && us[1] == IntToString(idx) && us[2] == IntToString(sig);
    assert us == ["MUX", IntToString(idx), IntToString(sig), Upper(m.side)];
    SplitJoinRoundTrip(us);
  }

  /** Concatenation of the successive writes. */
  function Flatten(writes: seq<string>): string
  {
    if |writes| == 0 then "" else Flatten(writes[..|writes| - 1]) + writes[|writes| - 1]
  }

  /** The `con.write` calls for one frame: all at once without a character delay, else one character each. */
  function Writes(frame: string, characterDelay: real): (ws: seq<string>)
    ensures characterDelay != 0.0 ==> |ws| == |frame| && forall i :: 0 <= i < |ws| ==> |ws[i]| == 1
  {
    if characterDelay == 0.0 then [frame]
    else seq(|frame|, i requires 0 <= i < |frame| => [frame[i]])
  }

  /** The writes for a frame put exactly that frame on the line, in order. */
  lemma {:induction false} WritesSpellFrame(frame: string, characterDelay: real)
    ensures Flatten(Writes(frame, characterDelay)) == frame
    decreases |frame|
  {
    if characterDelay != 0.0 && |frame| > 0 {
      var init := frame[..|frame| - 1];
      WritesSpellFrame(init, characterDelay);
      assert Writes(frame, characterDelay)[..|frame| - 1] == Writes(init, characterDelay);
    } else if characterDelay == 0.0 {
      assert Flatten([frame]) == Flatten([]) + frame;
    }
  }

  /** `Actuator`: the time until which the actuator is held active, if any. */
  datatype Actuator = Actuator(activeUntil: Option<int>)

  /** `Actuator()`: never activated. */
  function NewActuator(): (a: Actuator)
    ensures forall t :: !IsActive(a, t)
  {
    Actuator(None)
  }

  /** `is_active(dt)`: held active strictly beyond `t`. */
  predicate IsActive(a: Actuator, t: int)
  {
    match a.activeUntil
    case None => false
    case Some(until) => until - t > 0
  }

  /**
   * A hold only runs out: an actuator active at some time was active at every
   * earlier time, and a set deadline is the first instant it is no longer active.
   */
  lemma {:induction false} HoldRunsOut(a: Actuator, t: int, u: int)
    requires t <= u
    ensures IsActive(a, u) ==> IsActive(a, t)
    ensures a.activeUntil.Some? ==> IsActive(a, a.activeUntil.value - 1) && !IsActive(a, a.activeUntil.value)
    ensures a.activeUntil.None? ==> !IsActive(a, t)
  {
  }

  /** `set_active_for(seconds)` called at time `now`. */
  function SetActiveFor(now: int, seconds: int): (a: Actuator)
    ensures forall t :: IsActive(a, t) <==> t < now + seconds
  {
    Actuator(Some(now + seconds))
  }

  /** The connector's initial actuator table: `actuator_count` inactive actuators. */
  function NewActuators(actuatorCount: nat): (r: seq<Actuator>)
    ensures |r| == actuatorCount && forall i, t :: 0 <= i < |r| ==> !IsActive(r[i], t)
  {
    seq(actuatorCount, _ => NewActuator())
  }

  /** `self.actuators[message.get_actuator_index()]` raised `IndexError`. */
  datatype SendError = ActuatorIndexError(index: int)

  /**
   * What handling one message did: the new actuator table, the `con.write`
   * arguments in order (none when skipped), and the deactivation that was
   * scheduled with its delay, if any.
   */
  datatype Outcome = Outcome(actuators: seq<Actuator>, writes: seq<string>, scheduled: Option<(int, Message)>)

  /** The actuator a trigger message addresses, after Python's negative-index wrap-around. */
  function Target(actuators: seq<Actuator>, m: Message): Option<nat>
    requires m.TriggerActuator?
  {
    PyIndex(|actuators|, m.actuatorIndex)
  }

  /** The writes of a transmitted message, the rest unchanged. */
  function Transmit(actuators: seq<Actuator>, m: Message, characterDelay: real, scheduled: Option<(int, Message)>): Outcome
  {
    Outcome(actuators, Writes(Frame(m), characterDelay), scheduled)
  }

  /** `_send_serial_message` handling message `m` at time `now`. */
  function SendSerialMessage(actuators: seq<Actuator>, m: Message, now: int, characterDelay: real): (r: Result<Outcome, SendError>)
    ensures r.Failure? <==> m.TriggerActuator? && Target(actuators, m).None?
    ensures r.Success? ==> |r.value.actuators| == |actuators|
    ensures r.Success? && r.value.writes != [] ==> Flatten(r.value.writes) == Frame(m)
    // An activation holds its own actuator until now + duration, touches no
    // other actuator, schedules its paired deactivation and is always written.
    ensures r.Success? && IsActivation(m) ==>
      var k := Target(actuators, m).value;
      && IsActive(r.value.actuators[k], now) == (m.signalDuration > 0)
      && r.value.actuators[k].activeUntil == Some(now + m.signalDuration)
      && (forall j :: 0 <= j < |actuators| && j != k ==> r.value.actuators[j] == actuators[j])
      && r.value.scheduled == Some(GetDeactivationMessage(m))
      && r.value.writes != []
    // A deactivation never changes the table and is written exactly when its
    // actuator is not held by a newer activation.
    ensures r.Success? && IsDeactivation(m) ==>
      && r.value.actuators == actuators && r.value.scheduled == None
      && (r.value.writes == [] <==> IsActive(actuators[Target(actuators, m).value], now))
    // A plain message is written as is and touches no state.
    ensures m.Plain? ==> r.Success? && r.value.actuators == actuators && r.value.scheduled == None && r.value.writes != []
  {
    WritesSpellFrame(Frame(m), characterDelay);
    match m
    case Plain(_) => Success(Transmit(actuators, m, characterDelay, None))
    case TriggerActuator(_, _, _, _) =>
      if IsActivation(m) then
        var (delay, deactivation) := GetDeactivationMessage(m);
        match Target(actuators, m)
        case None => Failure(ActuatorIndexError(m.actuatorIndex))
        case Some(k) =>
          Success(Transmit(actuators[k := SetActiveFor(now, delay)], m, characterDelay, Some((delay, deactivation))))
      else
        match Target(actuators, m)
        case None => Failure(ActuatorIndexError(m.actuatorIndex))
        case Some(k) =>
          if IsActive(actuators[k], now) then Success(Outcome(actuators, [], None))
          else Success(Transmit(actuators, m, characterDelay, None))
  }

  /** A message as the worker takes it from the queue, with the time it is handled. */
  datatype Timed = Timed(now: int, message: Message)

  /** The worker's state between messages: the actuator table and everything written so far. */
  type WorkerState = (seq<Actuator>, seq<string>)

  /** The worker handling one more message. */
  function Step(st: WorkerState, x: Timed, characterDelay: real): (r: Result<WorkerState, SendError>)
    ensures r.Success? ==> |r.value.0| == |st.0|
  {
    var o := SendSerialMessage(st.0, x.message, x.now, characterDelay);
    if o.Failure? then Failure(o.error) else Success((o.value.actuators, st.1 + o.value.writes))
  }

  /** What was written before does not influence a step, which only appends to it. */
  lemma {:induction false} StepAppendsWrites(table: seq<Actuator>, before: seq<string>, writes: seq<string>, x: Timed, characterDelay: real)
    ensures Step((table, before + writes), x, characterDelay).Success? == Step((table, writes), x, characterDelay).Success?
    ensures Step((table, writes), x, characterDelay).Success? ==>
      Step((table, before + writes), x, characterDelay).value
        == (Step((table, writes), x, characterDelay).value.0, before + Step((table, writes), x, characterDelay).value.1)
  {
    var o := SendSerialMessage(table, x.message, x.now, characterDelay);
    if o.Success? {
      assert before + writes + o.value.writes == before + (writes + o.value.writes);
    }
  }

  /**
   * The worker handling a queue of messages in order: the final actuator table
   * and every write. The first error ends the worker.
   */
  function Run(actuators: seq<Actuator>, trace: seq<Timed>, characterDelay: real): (r: Result<WorkerState, SendError>)
    ensures r.Success? ==> |r.value.0| == |actuators|
    ensures r.Failure? <==> exists i :: 0 <= i < |trace| && Unknown(|actuators|, trace[i].message)
    ensures r.Failure? ==> FirstUnknown(|actuators|, trace, r.error)
    decreases |trace|
  {
    if |trace| == 0 then Success((actuators, []))
    else
      var init := trace[..|trace| - 1];
      var prev := Run(actuators, init, characterDelay);
      assert forall i :: 0 <= i < |init| ==> init[i] == trace[i];
      if prev.Failure? then prev else Step(prev.value, trace[|trace| - 1], characterDelay)
  }

  /** `e` is the `IndexError` of the first message naming an actuator outside a table of `n`. */
  predicate FirstUnknown(n: nat, trace: seq<Timed>, e: SendError)
  {
    exists i :: 0 <= i < |trace| && Unknown(n, trace[i].message)
      && e == ActuatorIndexError(trace[i].message.actuatorIndex)
      && forall j :: 0 <= j < i ==> !Unknown(n, trace[j].message)
  }

  /** A trigger message for an actuator index outside a table of `n`. */
  predicate Unknown(n: nat, m: Message)
  {
    m.TriggerActuator? && PyIndex(n, m.actuatorIndex).None?
  }

  /** The message activates the actuator at index `k` of a table of `n`. */
  predicate ActivatesIndex(n: nat, m: Message, k: nat)
  {
    IsActivation(m) && PyIndex(n, m.actuatorIndex) == Some(k)
  }

  /** Handling one more message at the end of a trace. */
  lemma {:induction false} RunSnoc(actuators: seq<Actuator>, trace: seq<Timed>, x: Timed, characterDelay: real)
    ensures Run(actuators, trace + [x], characterDelay)
         == if Run(actuators, trace, characterDelay).Failure? then Run(actuators, trace, characterDelay)
            else Step(Run(actuators, trace, characterDelay).value, x, characterDelay)
  {
    var tx := trace + [x];
    assert tx[..|tx| - 1] == trace;
    assert tx[|tx| - 1] == x;
  }

  /** Handling a trace in two parts is handling the first part, then the second from where it left off. */
  lemma {:induction false} RunAppend(actuators: seq<Actuator>, s: seq<Timed>, t: seq<Timed>, characterDelay: real)
    requires Run(actuators, s, characterDelay).Success?
    ensures var first := Run(actuators, s, characterDelay).value;
      var second := Run(first.0, t, characterDelay);
      && (Run(actuators, s + t, characterDelay).Success? <==> second.Success?)
      && (second.Success? ==> Run(actuators, s + t, characterDelay).value == (second.value.0, first.1 + second.value.1))
    decreases |t|
  {
    var first := Run(actuators, s, characterDelay).value;
    if |t| == 0 {
      assert s + t == s;
      assert first.1 + [] == first.1;
    } else {
      var init := t[..|t| - 1];
      var last := t[|t| - 1];
      assert s + t == (s + init) + [last];
      assert t == init + [last];
      RunAppend(actuators, s, init, characterDelay);
      RunSnoc(actuators, s + init, last, characterDelay);
      RunSnoc(first.0, init, last, characterDelay);
      var rest := Run(first.0, init, characterDelay);
      if rest.Success? {
        StepAppendsWrites(rest.value.0, first.1, rest.value.1, last, characterDelay);
      }
    }
  }

  /** Messages that do not activate actuator `k` leave its deadline alone. */
  lemma {:induction false} RunKeepsDeadline(actuators: seq<Actuator>, trace: seq<Timed>, characterDelay: real, k: nat)
    requires k < |actuators|
    requires forall i :: 0 <= i < |trace| ==> !ActivatesIndex(|actuators|, trace[i].message, k)
    requires Run(actuators, trace, characterDelay).Success?
    ensures Run(actuators, trace, characterDelay).value.0[k] == actuators[k]
    decreases |trace|
  {
    if |trace| > 0 {
      RunKeepsDeadline(actuators, trace[..|trace| - 1], characterDelay, k);
      var table := Run(actuators, trace[..|trace| - 1], characterDelay).value.0;
      var last := trace[|trace| - 1];
      assert !ActivatesIndex(|actuators|, last.message, k);
      var o := SendSerialMessage(table, last.message, last.now, characterDelay);
      if IsActivation(last.message) {
        assert Target(table, last.message) != Some(k);
      }
    }
  }

  /**
   * A deactivation of an actuator that the latest activation still holds is
   * dropped: handling it writes nothing and changes nothing. `mid` are the
   * messages handled in between, none of which activates that actuator.
   */
  lemma {:induction false} HeldActuatorIgnoresDeactivation(actuators: seq<Actuator>, a: Timed, mid: seq<Timed>, d: Timed, characterDelay: real, k: nat)
    requires ActivatesIndex(|actuators|, a.message, k)
    requires IsDeactivation(d.message) && PyIndex(|actuators|, d.message.actuatorIndex) == Some(k)
    requires forall i :: 0 <= i < |mid| ==> !ActivatesIndex(|actuators|, mid[i].message, k)
    requires d.now < a.now + a.message.signalDuration
    requires Run(actuators, [a] + mid, characterDelay).Success?
    ensures Run(actuators, [a] + mid + [d], characterDelay) == Run(actuators, [a] + mid, characterDelay)
  {
    var held := Run(actuators, [a], characterDelay);
    assert [a][..0] == [];
    assert Run(actuators, [], characterDelay) == Success((actuators, []));
    assert SendSerialMessage(actuators, a.message, a.now, characterDelay).Success?;
    assert held.Success?;
    RunAppend(actuators, [a], mid, characterDelay);
    RunKeepsDeadline(held.value.0, mid, characterDelay, k);
    var trace := [a] + mid + [d];
    assert trace[..|trace| - 1] == [a] + mid;
    assert trace[|trace| - 1] == d;
    var before := Run(actuators, [a] + mid, characterDelay).value;
    assert before.0[k] == held.value.0[k];
    assert IsActive(before.0[k], d.now);
    assert before.1 + [] == before.1;
  }

  /**
   * Once the latest activation's hold has run out, the deactivation of that
   * actuator is written: exactly its frame is appended to the line.
   */
  lemma {:induction false} ExpiredHoldReleases(actuators: seq<Actuator>, a: Timed, mid: seq<Timed>, d: Timed, characterDelay: real, k: nat)
    requires ActivatesIndex(|actuators|, a.message, k)
    requires IsDeactivation(d.message) && PyIndex(|actuators|, d.message.actuatorIndex) == Some(k)
    requires forall i :: 0 <= i < |mid| ==> !ActivatesIndex(|actuators|, mid[i].message, k)
    requires d.now >= a.now + a.message.signalDuration
    requires Run(actuators, [a] + mid, characterDelay).Success?
    ensures Run(actuators, [a] + mid + [d], characterDelay) == Success((
      Run(actuators, [a] + mid, characterDelay).value.0,
      Run(actuators, [a] + mid, characterDelay).value.1 + Writes(Frame(d.message), characterDelay)))
  {
    var held := Run(actuators, [a], characterDelay);
    assert [a][..0] == [];
    assert Run(actuators, [], characterDelay) == Success((actuators, []));
    assert SendSerialMessage(actuators, a.message, a.now, characterDelay).Success?;
    assert held.Success?;
    RunAppend(actuators, [a], mid, characterDelay);
    RunKeepsDeadline(held.value.0, mid, characterDelay, k);
    var trace := [a] + mid + [d];
    assert trace[..|trace| - 1] == [a] + mid;
    assert trace[|trace| - 1] == d;
    var before := Run(actuators, [a] + mid, characterDelay).value;
    assert before.0[k] == held.value.0[k];
    assert !IsActive(before.0[k], d.now);
  }
}
