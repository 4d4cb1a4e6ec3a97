/**
 * Time-windowed experiment rules (`experimental_control.py`): loading the
 * timetable and deciding, for a world angle at a moment, whether a message
 * goes out and with which override keys.
 *
 * Timestamps are integer microseconds in UTC. The message factory is not
 * modelled: a result `Some(keys)` stands for `message_factory(keys)`, `None`
 * for the suppressed message.
 */
module ExperimentalControl {
  import opened Wrappers
  import opened Angles
  import Deletion

  /** A value of the JSON configuration; `Composite` is a list or an object, which Python cannot hash. */
  datatype Value = Number(n: real) | Bool(b: bool) | Text(s: string) | Null | Composite

  /** The number `angle_deg / 180.0` computes with: a boolean counts as 0 or 1, anything else but a number raises. */
  function Degrees(v: Value): (r: Option<real>)
    ensures r.Some? <==> v.Number? || v.Bool?
    ensures v.Bool? ==> r == Some(if v.b then 1.0 else 0.0)
  {
    match v
    case Number(n) => Some(n)
    case Bool(b) => Some(if b then 1.0 else 0.0)
    case _ => None
  }

  /** One entry of `config["timeslots"]`. */
  type Slot = map<string, Value>

  /**
   * A timetable record: the target angle in [0, 2*pi) for a concrete rule or
   * `None` for a general one, the inclusive UTC window, the action and the
   * remaining keys that parameterise the message.
   */
  datatype Rule = Rule(angleRad: Option<real>, tsFrom: int, tsTo: int, action: Value, allKeys: map<string, Value>)

  /** The loaded policy: the tolerance in radians and the timetable in configuration order. */
  datatype Policy = Policy(toleranceRad: real, timetable: seq<Rule>)

  /**
   * What loading raises: `KeyError` for a missing key, `ValueError`/`TypeError`
   * for a bad time or angle, and `AttributeError` when `timeslots` is empty
   * (the `DataFrame` of no records has no `angle_rad` column).
   */
  datatype LoadError = MissingKey(key: string) | BadTimestamp(key: string) | BadAngle | NoTimeslots

  const ReservedKeys: set<string> := {"from", "to", "rule", "angle_deg"}

  function DegToRad(deg: real): real
  {
    deg / 180.0 * Pi
  }

  /** The slot carries every key `__init__` deletes unconditionally. */
  predicate HasRequiredKeys(slot: Slot)
  {
    "from" in slot && "to" in slot && "rule" in slot
  }

  /** The slot has its required keys and both of its times parse. */
  predicate TimesParse(slot: Slot, parseTime: Value -> Option<int>)
  {
    HasRequiredKeys(slot) && parseTime(slot["from"]).Some? && parseTime(slot["to"]).Some?
  }

  /**
   * One timeslot as `__init__` turns it into a record. `parseTime` stands for
   * `datetime.fromisoformat(...).astimezone(pytz.UTC)`, `None` when it raises.
   */
  function LoadRule(slot: Slot, parseTime: Value -> Option<int>): (r: Result<Rule, LoadError>)
    ensures r.Success? ==> "from" in slot && "to" in slot && "rule" in slot
    ensures r.Success? ==> r.value.action == slot["rule"]
    ensures r.Success? ==> Some(r.value.tsFrom) == parseTime(slot["from"]) && Some(r.value.tsTo) == parseTime(slot["to"])
    ensures r.Success? ==> r.value.allKeys.Keys == slot.Keys - ReservedKeys
    ensures r.Success? ==> forall k :: k in r.value.allKeys ==> r.value.allKeys[k] == slot[k]
    ensures r.Success? ==> (r.value.angleRad.Some? <==> "angle_deg" in slot)
    ensures r.Success? && r.value.angleRad.Some? ==>
      0.0 <= r.value.angleRad.value < TwoPi && Degrees(slot["angle_deg"]).Some?
      && r.value.angleRad.value == Normalize(DegToRad(Degrees(slot["angle_deg"]).value))
    ensures r.Failure? && ("from" !in slot || "to" !in slot || "rule" !in slot) ==>
      r.error == MissingKey(if "from" !in slot then "from" else if "to" !in slot then "to" else "rule")
    ensures HasRequiredKeys(slot) && parseTime(slot["from"]).None? ==> r == Failure(BadTimestamp("from"))
    ensures HasRequiredKeys(slot) && parseTime(slot["from"]).Some? && parseTime(slot["to"]).None? ==>
      r == Failure(BadTimestamp("to"))
    ensures TimesParse(slot, parseTime) ==> (r.Success? <==> "angle_deg" !in slot || Degrees(slot["angle_deg"]).Some?)
    ensures TimesParse(slot, parseTime) && "angle_deg" in slot && Degrees(slot["angle_deg"]).None? ==> r == Failure(BadAngle)
  {
    if "from" !in slot then Failure(MissingKey("from"))
    else if "to" !in slot then Failure(MissingKey("to"))
    else if "rule" !in slot then Failure(MissingKey("rule"))
    else
      var allKeys := map k | k in slot && k !in ReservedKeys :: slot[k];
      match parseTime(slot["from"])
      case None => Failure(BadTimestamp("from"))
      case Some(tsFrom) =>
        match parseTime(slot["to"])
        case None => Failure(BadTimestamp("to"))
        case Some(tsTo) =>
          if "angle_deg" !in slot then Success(Rule(None, tsFrom, tsTo, slot["rule"], allKeys))
          else
            match Degrees(slot["angle_deg"])
            case None => Failure(BadAngle)
            case Some(deg) => Success(Rule(Some(Normalize(DegToRad(deg))), tsFrom, tsTo, slot["rule"], allKeys))
  }

  /** The `for slot_info in config["timeslots"]` loop: every slot loaded in order; the first bad slot raises. */
  function LoadRules(slots: seq<Slot>, parseTime: Value -> Option<int>): (r: Result<seq<Rule>, LoadError>)
    ensures r.Success? ==> |r.value| == |slots|
    ensures r.Success? ==> forall i :: 0 <= i < |slots| ==> LoadRule(slots[i], parseTime) == Success(r.value[i])
    ensures r.Failure? <==> exists i :: 0 <= i < |slots| && LoadRule(slots[i], parseTime).Failure?
    ensures r.Failure? ==> FirstBadSlot(slots, parseTime, r.error)
    decreases |slots|
  {
    if |slots| == 0 then Success([])
    else
      var init := slots[..|slots| - 1];
      match LoadRules(init, parseTime)
      case Failure(e) =>
        assert forall i :: 0 <= i < |init| ==> init[i] == slots[i];
        Failure(e)
      case Success(rules) =>
        assert forall i :: 0 <= i < |init| ==> init[i] == slots[i];
        match LoadRule(slots[|slots| - 1], parseTime)
        case Failure(e) =>
          assert LoadRule(slots[|slots| - 1], parseTime) == Failure(e);
          Failure(e)
        case Success(rule) => Success(rules + [rule])
  }

  /** `e` is the error of the first slot that does not load. */
  predicate FirstBadSlot(slots: seq<Slot>, parseTime: Value -> Option<int>, e: LoadError)
  {
    exists i :: 0 <= i < |slots| && LoadRule(slots[i], parseTime) == Failure(e)
      && forall j :: 0 <= j < i ==> LoadRule(slots[j], parseTime).Success?
  }

  /**
   * `ExperimentalControl.__init__`: the tolerance in radians and every slot
   * loaded in order; the first bad slot raises, and so does an empty list.
   */
  function Load(toleranceDeg: real, slots: seq<Slot>, parseTime: Value -> Option<int>): (r: Result<Policy, LoadError>)
    ensures r.Success? ==> r.value.toleranceRad == DegToRad(toleranceDeg) && |r.value.timetable| == |slots|
    ensures r.Success? ==> forall i :: 0 <= i < |slots| ==> LoadRule(slots[i], parseTime) == Success(r.value.timetable[i])
    ensures r.Failure? <==> |slots| == 0 || exists i :: 0 <= i < |slots| && LoadRule(slots[i], parseTime).Failure?
    ensures |slots| == 0 ==> r == Failure(NoTimeslots)
    ensures r.Failure? && |slots| > 0 ==> FirstBadSlot(slots, parseTime, r.error)
  {
    match LoadRules(slots, parseTime)
    case Failure(e) => Failure(e)
    case Success(rules) =>
      if |rules| == 0 then Failure(NoTimeslots) else Success(Policy(DegToRad(toleranceDeg), rules))
  }

  function Abs(x: real): real
  {
    if x < 0.0 then -x else x
  }

  /** The rule's window contains `now`, both ends included. */
  predicate InWindow(r: Rule, now: int)
  {
    r.tsFrom <= now <= r.tsTo
  }

  /** Rule angle `a` is within `tol` of world angle `w`, directly or across the 0 / 2*pi seam. */
  predicate AngleMatches(a: real, w: real, tol: real)
  {
    Abs(a - w) < tol || TwoPi - Abs(a - w) < tol
  }

  /**
   * The rows for which `keep` holds, in timetable order: pandas' boolean-mask
   * selection `frame[mask]`.
   */
  function Select(rules: seq<Rule>, keep: Rule -> bool): (r: seq<Rule>)
    ensures forall x :: x in r <==> x in rules && keep(x)
    ensures |r| <= |rules|
    decreases |rules|
  {
    if |rules| == 0 then []
    else Select(rules[..|rules| - 1], keep) + if keep(rules[|rules| - 1]) then [rules[|rules| - 1]] else []
  }

  /**
   * `r` consists of the rules of `rules` at the increasing positions `idx`, and
   * `idx` holds exactly the positions whose rule `keep` selects.
   */
  predicate SelectedAt(rules: seq<Rule>, keep: Rule -> bool, r: seq<Rule>, idx: seq<nat>)
  {
    && |idx| == |r|
    && Deletion.StrictlyIncreasing(idx)
    && (forall a :: 0 <= a < |idx| ==> idx[a] < |rules| && r[a] == rules[idx[a]])
    && (forall i :: 0 <= i < |rules| ==> (keep(rules[i]) <==> i in idx))
  }

  /** A selection keeps the selected rules in timetable order, duplicates included, and drops no selected row. */
  lemma {:induction false} SelectKeepsOrder(rules: seq<Rule>, keep: Rule -> bool)
    ensures exists idx :: SelectedAt(rules, keep, Select(rules, keep), idx)
    decreases |rules|
  {
    if |rules| == 0 {
      assert SelectedAt(rules, keep, Select(rules, keep), []);
    } else {
      var n := |rules| - 1;
      var init := rules[..n];
      SelectKeepsOrder(init, keep);
      var idx0: seq<nat> :| SelectedAt(init, keep, Select(init, keep), idx0);
      if keep(rules[n]) {
        SelectedAtSnoc(rules, keep, idx0);
        assert SelectedAt(rules, keep, Select(rules, keep), idx0 + [n]);
      } else {
        SelectedAtSkip(rules, keep, idx0);
        assert SelectedAt(rules, keep, Select(rules, keep), idx0);
      }
    }
  }

  /** Selecting one more, dropped rule keeps the witness. */
  lemma {:induction false} SelectedAtSkip(rules: seq<Rule>, keep: Rule -> bool, idx0: seq<nat>)
    requires |rules| > 0 && !keep(rules[|rules| - 1])
    requires SelectedAt(rules[..|rules| - 1], keep, Select(rules[..|rules| - 1], keep), idx0)
    ensures SelectedAt(rules, keep, Select(rules, keep), idx0)
  {
    var n := |rules| - 1;
    var init := rules[..n];
    assert Select(rules, keep) == Select(init, keep) + [];
    assert forall a :: 0 <= a < |idx0| ==> idx0[a] < n;
    forall a | 0 <= a < |idx0|
      ensures rules[idx0[a]] == init[idx0[a]]
    {
    }
    forall i | 0 <= i < |rules|
      ensures keep(rules[i]) <==> i in idx0
    {
      if i < n {
        assert rules[i] == init[i];
      }
    }
  }

  /** Selecting one more, kept rule appends its position to the witness. */
  lemma {:induction false} SelectedAtSnoc(rules: seq<Rule>, keep: Rule -> bool, idx0: seq<nat>)
    requires |rules| > 0 && keep(rules[|rules| - 1])
    requires SelectedAt(rules[..|rules| - 1], keep, Select(rules[..|rules| - 1], keep), idx0)
    ensures SelectedAt(rules, keep, Select(rules, keep), idx0 + [|rules| - 1])
  {
    var n := |rules| - 1;
    var init := rules[..n];
    var r0 := Select(init, keep);
    assert Select(rules, keep) == r0 + [rules[n]];
    Deletion.IncreasingSnoc(idx0, n);
    SnocPositions(rules, r0, idx0, Select(rules, keep), idx0 + [n]);
    SnocMask(rules, keep, idx0);
  }

  /** The rules at the positions of `idx0`, then the last rule at the last position. */
  lemma {:induction false} SnocPositions(rules: seq<Rule>, r0: seq<Rule>, idx0: seq<nat>, r: seq<Rule>, idx: seq<nat>)
    requires |rules| > 0 && |idx0| == |r0|
    requires forall a :: 0 <= a < |idx0| ==> idx0[a] < |rules| - 1 && r0[a] == rules[..|rules| - 1][idx0[a]]
    requires idx == idx0 + [|rules| - 1] && r == r0 + [rules[|rules| - 1]]
    ensures forall a :: 0 <= a < |idx| ==> idx[a] < |rules| && r[a] == rules[idx[a]]
  {
    forall a | 0 <= a < |idx|
      ensures idx[a] < |rules| && r[a] == rules[idx[a]]
    {
      if a < |idx0| {
        assert idx[a] == idx0[a] && r[a] == r0[a];
      }
    }
  }

  /** The selected positions of `rules` are those of its prefix and, when kept, the last one. */
  lemma {:induction false} SnocMask(rules: seq<Rule>, keep: Rule -> bool, idx0: seq<nat>)
    requires |rules| > 0 && keep(rules[|rules| - 1])
    requires forall a :: 0 <= a < |idx0| ==> idx0[a] < |rules| - 1
    requires forall i :: 0 <= i < |rules| - 1 ==> (keep(rules[..|rules| - 1][i]) <==> i in idx0)
    ensures forall i :: 0 <= i < |rules| ==> (keep(rules[i]) <==> i in idx0 + [|rules| - 1])
  {
    var n := |rules| - 1;
    forall i | 0 <= i < |rules|
      ensures keep(rules[i]) <==> i in idx0 + [n]
    {
      if i < n {
        assert rules[i] == rules[..n][i];
        assert i in idx0 + [n] <==> i in idx0;
      }
    }
  }

  /** Both masks combined with `&`. */
  function Both(p: Rule -> bool, q: Rule -> bool): Rule -> bool
  {
    (x: Rule) => p(x) && q(x)
  }

  /** Selecting by one mask and then another is selecting by both at once. */
  lemma {:induction false} SelectOfSelect(rules: seq<Rule>, p: Rule -> bool, q: Rule -> bool)
    ensures Select(Select(rules, p), q) == Select(rules, Both(p, q))
    decreases |rules|
  {
    if |rules| > 0 {
      var n := |rules| - 1;
      var x := rules[n];
      var s0 := Select(rules[..n], p);
      SelectOfSelect(rules[..n], p, q);
      if p(x) {
        assert Select(rules, p) == s0 + [x];
        assert (s0 + [x])[..|s0|] == s0;
      } else {
        calc {
          Select(Select(rules, p), q);
          { assert Select(rules, p) == s0; }
          Select(s0, q);
          Select(rules[..n], Both(p, q));
          { assert !Both(p, q)(x); }
          Select(rules, Both(p, q));
        }
      }
    }
  }

  /** The mask `(ts_from <= now) & (ts_to >= now)`. */
  function InForce(now: int): Rule -> bool
  {
    (x: Rule) => InWindow(x, now)
  }

  /** The mask of concrete rules within `tol` of world angle `w`. */
  function Matches(w: real, tol: real): Rule -> bool
  {
    (x: Rule) => x.angleRad.Some? && AngleMatches(x.angleRad.value, w, tol)
  }

  /** The mask `isnull(angle_rad)` of general rules. */
  function IsGeneral(): Rule -> bool
  {
    (x: Rule) => x.angleRad.None?
  }

  /** The rules whose window contains `now`, in timetable order. */
  function CurrentRules(rules: seq<Rule>, now: int): (r: seq<Rule>)
    ensures forall x :: x in r <==> x in rules && InWindow(x, now)
    ensures |r| <= |rules|
  {
    Select(rules, InForce(now))
  }

  /** The concrete rules whose angle matches world angle `w`, in order. */
  function MatchingConcrete(rules: seq<Rule>, w: real, tol: real): (r: seq<Rule>)
    ensures forall x :: x in r <==> x in rules && x.angleRad.Some? && AngleMatches(x.angleRad.value, w, tol)
  {
    Select(rules, Matches(w, tol))
  }

  /** The general rules (without an angle), in order. */
  function GeneralRules(rules: seq<Rule>): (r: seq<Rule>)
    ensures forall x :: x in r <==> x in rules && x.angleRad.None?
  {
    Select(rules, IsGeneral())
  }

  /** `{**mapping_keys, **keys}` over the rules in order. */
  function MergeKeys(rules: seq<Rule>): (m: map<string, Value>)
  {
    if |rules| == 0 then map[] else MergeKeys(rules[..|rules| - 1]) + rules[|rules| - 1].allKeys
  }

  /** A key's merged value is the one of the last rule that carries the key; no other key appears. */
  lemma {:induction false} MergeKeysLastWins(rules: seq<Rule>)
    ensures forall k :: k in MergeKeys(rules) <==> exists i :: 0 <= i < |rules| && k in rules[i].allKeys
    ensures forall k, i :: 0 <= i < |rules| && k in rules[i].allKeys && LastWithKey(rules, k, i) ==>
              k in MergeKeys(rules) && MergeKeys(rules)[k] == rules[i].allKeys[k]
    decreases |rules|
  {
    if |rules| > 0 {
      var init := rules[..|rules| - 1];
      var last := rules[|rules| - 1];
      MergeKeysLastWins(init);
      assert MergeKeys(rules) == MergeKeys(init) + last.allKeys;
      forall k
        ensures k in MergeKeys(rules) <==> exists i :: 0 <= i < |rules| && k in rules[i].allKeys
      {
        if k in MergeKeys(rules) && k !in last.allKeys {
          var i :| 0 <= i < |init| && k in init[i].allKeys;
          assert rules[i] == init[i];
        }
        if exists i :: 0 <= i < |rules| && k in rules[i].allKeys {
          var i :| 0 <= i < |rules| && k in rules[i].allKeys;
          if i < |init| {
            assert init[i] == rules[i];
          }
        }
      }
      forall k, i | 0 <= i < |rules| && k in rules[i].allKeys && LastWithKey(rules, k, i)
        ensures k in MergeKeys(rules) && MergeKeys(rules)[k] == rules[i].allKeys[k]
      {
        if i < |rules| - 1 {
          assert init[i] == rules[i];
          assert k !in last.allKeys;
          assert LastWithKey(init, k, i);
        }
      }
    }
  }

  /** No rule after the `i`-th carries key `k`. */
  predicate LastWithKey(rules: seq<Rule>, k: string, i: nat)
  {
    forall j :: i < j < |rules| ==> k !in rules[j].allKeys
  }

  /** Rule `i` is selected, carries key `k`, and no later selected rule carries it. */
  predicate CarriesLast(rules: seq<Rule>, keep: Rule -> bool, k: string, i: nat)
  {
    i < |rules| && keep(rules[i]) && k in rules[i].allKeys
    && forall j :: i < j < |rules| && keep(rules[j]) ==> k !in rules[j].allKeys
  }

  /**
   * `m` is what the `dict` merge over the selected rules of `rules` in
   * timetable order produces: the keys of the selected rules, each with the
   * value of the last selected rule that carries it.
   */
  ghost predicate MergedFrom(m: map<string, Value>, rules: seq<Rule>, keep: Rule -> bool)
  {
    && (forall k :: k in m <==> exists i :: 0 <= i < |rules| && keep(rules[i]) && k in rules[i].allKeys)
    && (forall k, i: nat :: CarriesLast(rules, keep, k, i) ==> k in m && m[k] == rules[i].allKeys[k])
  }

  /** Merging the keys of a selection gives each key the value of the last selected rule, in timetable order. */
  lemma {:induction false} MergeSelectedLastWins(rules: seq<Rule>, keep: Rule -> bool)
    ensures MergedFrom(MergeKeys(Select(rules, keep)), rules, keep)
    decreases |rules|
  {
    if |rules| > 0 {
      var n := |rules| - 1;
      var init := rules[..n];
      var x := rules[n];
      var s0 := Select(init, keep);
      var m0 := MergeKeys(s0);
      MergeSelectedLastWins(init, keep);
      if keep(x) {
        MergeKeysSnoc(s0, x);
        MergeSnocKept(rules, keep, m0);
      } else {
        assert Select(rules, keep) == s0 + [] == s0;
        MergeSnocSkipped(rules, keep, m0);
      }
    }
  }

  /** Merging one more rule lets its keys override the earlier ones. */
  lemma {:induction false} MergeKeysSnoc(s0: seq<Rule>, x: Rule)
    ensures MergeKeys(s0 + [x]) == MergeKeys(s0) + x.allKeys
  {
    assert (s0 + [x])[..|s0|] == s0;
  }

  /** The step of `MergeSelectedLastWins` for a last rule that is not selected. */
  lemma {:induction false} MergeSnocSkipped(rules: seq<Rule>, keep: Rule -> bool, m0: map<string, Value>)
    requires |rules| > 0 && !keep(rules[|rules| - 1])
    requires MergedFrom(m0, rules[..|rules| - 1], keep)
    ensures MergedFrom(m0, rules, keep)
  {
    var n := |rules| - 1;
    var init := rules[..n];
    assert forall i :: 0 <= i < n ==> rules[i] == init[i];
    forall k
      ensures k in m0 <==> exists i :: 0 <= i < |rules| && keep(rules[i]) && k in rules[i].allKeys
    {
      if k in m0 {
        var i :| 0 <= i < n && keep(init[i]) && k in init[i].allKeys;
        assert rules[i] == init[i];
      }
      if exists i :: 0 <= i < |rules| && keep(rules[i]) && k in rules[i].allKeys {
        var i :| 0 <= i < |rules| && keep(rules[i]) && k in rules[i].allKeys;
        assert i < n && init[i] == rules[i];
      }
    }
    forall k, i: nat | CarriesLast(rules, keep, k, i)
      ensures CarriesLast(init, keep, k, i)
    {
    }
  }

  /** The step of `MergeSelectedLastWins` for a selected last rule. */
  lemma {:induction false} MergeSnocKept(rules: seq<Rule>, keep: Rule -> bool, m0: map<string, Value>)
    requires |rules| > 0 && keep(rules[|rules| - 1])
    requires MergedFrom(m0, rules[..|rules| - 1], keep)
    ensures MergedFrom(m0 + rules[|rules| - 1].allKeys, rules, keep)
  {
    var n := |rules| - 1;
    var init := rules[..n];
    var x := rules[n];
    var m := m0 + x.allKeys;
    assert forall i :: 0 <= i < n ==> rules[i] == init[i];
    forall k
      ensures k in m <==> exists i :: 0 <= i < |rules| && keep(rules[i]) && k in rules[i].allKeys
    {
      if k in m0 {
        var i :| 0 <= i < n && keep(init[i]) && k in init[i].allKeys;
        assert rules[i] == init[i];
      }
      if k in x.allKeys {
        assert keep(rules[n]) && k in rules[n].allKeys;
      }
    }
    forall k, i: nat | CarriesLast(rules, keep, k, i)
      ensures k in m && m[k] == rules[i].allKeys[k]
    {
      if i < n {
        assert k !in x.allKeys;
        assert CarriesLast(init, keep, k, i);
      }
    }
  }

  predicate Says(r: Rule, action: string)
  {
    r.action == Text(action)
  }

  /** `handle_action_set`: whether the rules decide, and the decision. */
  function HandleActionSet(rules: seq<Rule>): (r: (bool, Option<map<string, Value>>))
    ensures r.0 <==> exists x :: x in rules && (Says(x, "vibrate") || Says(x, "no_vibrate"))
    ensures r.1.Some? <==> r.0 && !exists x :: x in rules && Says(x, "no_vibrate")
    ensures r.1.Some? ==> r.1.value == MergeKeys(rules)
  {
    var allow := exists x :: x in rules && Says(x, "vibrate");
    var prevent := exists x :: x in rules && Says(x, "no_vibrate");
    if prevent then (true, None)
    else if allow then (true, Some(MergeKeys(rules)))
    else (false, None)
  }

  /** `filter_message` at time `now` for the dance's world angle. */
  function FilterMessage(p: Policy, worldAngle: real, now: int): Option<map<string, Value>>
  {
    var w := Normalize(worldAngle);
    var current := CurrentRules(p.timetable, now);
    if |current| == 0 then Some(map[])
    else
      var concrete := MatchingConcrete(current, w, p.toleranceRad);
      var fromConcrete := if |concrete| > 0 then HandleActionSet(concrete) else (false, None);
      if fromConcrete.0 then fromConcrete.1
      else
        var general := GeneralRules(current);
        var fromGeneral := if |general| > 0 then HandleActionSet(general) else (false, None);
        if fromGeneral.0 then fromGeneral.1 else None
  }

  /** A rule of the timetable in force at `now` whose angle matches the world angle. */
  predicate ConcreteApplies(p: Policy, r: Rule, worldAngle: real, now: int)
  {
    r in p.timetable && InWindow(r, now) && r.angleRad.Some?
    && AngleMatches(r.angleRad.value, Normalize(worldAngle), p.toleranceRad)
  }

  /** A general rule of the timetable in force at `now`. */
  predicate GeneralApplies(p: Policy, r: Rule, now: int)
  {
    r in p.timetable && InWindow(r, now) && r.angleRad.None?
  }

  /** A matching concrete rule in force says `action` exactly when one of the filtered concrete rules does. */
  lemma {:induction false} ConcreteSays(p: Policy, worldAngle: real, now: int, action: string)
    ensures (exists r :: ConcreteApplies(p, r, worldAngle, now) && Says(r, action))
        <==> (exists x :: x in MatchingConcrete(CurrentRules(p.timetable, now), Normalize(worldAngle), p.toleranceRad) && Says(x, action))
  {
  }

  /** A general rule in force says `action` exactly when one of the filtered general rules does. */
  lemma {:induction false} GeneralSays(p: Policy, now: int, action: string)
    ensures (exists r :: GeneralApplies(p, r, now) && Says(r, action))
        <==> (exists x :: x in GeneralRules(CurrentRules(p.timetable, now)) && Says(x, action))
  {
  }

  /** Some rule is in force exactly when the filtered list of current rules is non-empty. */
  lemma {:induction false} SomeRuleInForce(p: Policy, now: int)
    ensures (exists r :: r in p.timetable && InWindow(r, now)) <==> |CurrentRules(p.timetable, now)| > 0
  {
    var current := CurrentRules(p.timetable, now);
    if |current| > 0 {
      assert current[0] in current;
    }
  }

  /** Some matching concrete rule in force says `vibrate` or `no_vibrate`, so the concrete rules decide. */
  ghost predicate ConcreteDecides(p: Policy, worldAngle: real, now: int)
  {
    exists r :: ConcreteApplies(p, r, worldAngle, now) && (Says(r, "vibrate") || Says(r, "no_vibrate"))
  }

  /**
   * When the concrete rules decide, `no_vibrate` among them suppresses the
   * message and otherwise their merged keys go out.
   */
  lemma {:induction false} FilterConcreteBranch(p: Policy, worldAngle: real, now: int)
    ensures (exists r :: r in p.timetable && InWindow(r, now)) && ConcreteDecides(p, worldAngle, now) ==>
      FilterMessage(p, worldAngle, now) ==
        if exists r :: ConcreteApplies(p, r, worldAngle, now) && Says(r, "no_vibrate") then None
        else Some(MergeKeys(MatchingConcrete(CurrentRules(p.timetable, now), Normalize(worldAngle), p.toleranceRad)))
  {
    if (exists r :: r in p.timetable && InWindow(r, now)) && ConcreteDecides(p, worldAngle, now) {
      ConcreteSpeaks(p, worldAngle, now);
      ConcreteSays(p, worldAngle, now, "vibrate");
      ConcreteSays(p, worldAngle, now, "no_vibrate");
    }
  }

  /** When the concrete rules decide, `filter_message` returns what `handle_action_set` makes of them. */
  lemma {:induction false} ConcreteSpeaks(p: Policy, worldAngle: real, now: int)
    requires SomeInForce(p, now) && ConcreteDecides(p, worldAngle, now)
    ensures FilterMessage(p, worldAngle, now) ==
      HandleActionSet(MatchingConcrete(CurrentRules(p.timetable, now), Normalize(worldAngle), p.toleranceRad)).1
  {
    SomeRuleInForce(p, now);
    ConcreteSays(p, worldAngle, now, "vibrate");
    ConcreteSays(p, worldAngle, now, "no_vibrate");
    var concrete := MatchingConcrete(CurrentRules(p.timetable, now), Normalize(worldAngle), p.toleranceRad);
    var x :| x in concrete && (Says(x, "vibrate") || Says(x, "no_vibrate"));
    assert |concrete| > 0 && HandleActionSet(concrete).0;
  }

  /**
   * When no matching concrete rule names an action, the general rules decide
   * in the same way, and with no general rule naming one the message is
   * suppressed.
   */
  lemma {:induction false} FilterGeneralBranch(p: Policy, worldAngle: real, now: int)
    ensures (exists r :: r in p.timetable && InWindow(r, now)) && !ConcreteDecides(p, worldAngle, now) ==>
      FilterMessage(p, worldAngle, now) ==
        if exists r :: GeneralApplies(p, r, now) && Says(r, "no_vibrate") then None
        else if exists r :: GeneralApplies(p, r, now) && Says(r, "vibrate") then
          Some(MergeKeys(GeneralRules(CurrentRules(p.timetable, now))))
        else None
  {
    if (exists r :: r in p.timetable && InWindow(r, now)) && !ConcreteDecides(p, worldAngle, now) {
      ConcreteSilent(p, worldAngle, now);
      GeneralSays(p, now, "vibrate");
      GeneralSays(p, now, "no_vibrate");
    }
  }

  /** When the concrete rules do not decide, `filter_message` returns what `handle_action_set` makes of the general rules. */
  lemma {:induction false} ConcreteSilent(p: Policy, worldAngle: real, now: int)
    requires SomeInForce(p, now) && !ConcreteDecides(p, worldAngle, now)
    ensures FilterMessage(p, worldAngle, now) ==
      var g := HandleActionSet(GeneralRules(CurrentRules(p.timetable, now)));
      if g.0 then g.1 else None
  {
    SomeRuleInForce(p, now);
    var current := CurrentRules(p.timetable, now);
    var concrete := MatchingConcrete(current, Normalize(worldAngle), p.toleranceRad);
    ConcreteSays(p, worldAngle, now, "vibrate");
    ConcreteSays(p, worldAngle, now, "no_vibrate");
    assert !HandleActionSet(concrete).0;
    assert |GeneralRules(current)| == 0 ==> !HandleActionSet(GeneralRules(current)).0;
  }

  /**
   * The decision table of `filter_message`, stated over the timetable:
   * no rule in force lets the message through unchanged; otherwise a matching
   * concrete rule decides first, `no_vibrate` winning over `vibrate`; only when
   * no matching concrete rule names an action do the general rules decide,
   * in the same way; when nothing decides, the message is suppressed.
   */
  lemma {:induction false} FilterDecision(p: Policy, worldAngle: real, now: int)
    ensures (forall r :: r in p.timetable ==> !InWindow(r, now)) ==> FilterMessage(p, worldAngle, now) == Some(map[])
    ensures (exists r :: r in p.timetable && InWindow(r, now)) ==>
      FilterMessage(p, worldAngle, now) ==
        if exists r :: ConcreteApplies(p, r, worldAngle, now) && Says(r, "no_vibrate") then None
        else if exists r :: ConcreteApplies(p, r, worldAngle, now) && Says(r, "vibrate") then
          Some(MergeKeys(MatchingConcrete(CurrentRules(p.timetable, now), Normalize(worldAngle), p.toleranceRad)))
        else if exists r :: GeneralApplies(p, r, now) && Says(r, "no_vibrate") then None
        else if exists r :: GeneralApplies(p, r, now) && Says(r, "vibrate") then
          Some(MergeKeys(GeneralRules(CurrentRules(p.timetable, now))))
        else None
  {
    SomeRuleInForce(p, now);
    FilterConcreteBranch(p, worldAngle, now);
    FilterGeneralBranch(p, worldAngle, now);
  }

  /** Some rule of the timetable is in force at `now`. */
  ghost predicate SomeInForce(p: Policy, now: int)
  {
    exists r :: r in p.timetable && InWindow(r, now)
  }

  /**
   * The keys a passed message carries follow the timetable order: with a rule
   * in force, they are the keys of the deciding rules (the matching concrete
   * rules in force when those decide, else the general rules in force), each
   * with the value of the last such rule in the timetable that carries it.
   */
  lemma {:induction false} FilterKeysFollowTimetable(p: Policy, worldAngle: real, now: int)
    ensures FilterMessage(p, worldAngle, now).Some? && SomeInForce(p, now) && ConcreteDecides(p, worldAngle, now) ==>
      MergedFrom(FilterMessage(p, worldAngle, now).value, p.timetable,
        Both(InForce(now), Matches(Normalize(worldAngle), p.toleranceRad)))
    ensures FilterMessage(p, worldAngle, now).Some? && SomeInForce(p, now) && !ConcreteDecides(p, worldAngle, now) ==>
      MergedFrom(FilterMessage(p, worldAngle, now).value, p.timetable, Both(InForce(now), IsGeneral()))
  {
    FilterConcreteBranch(p, worldAngle, now);
    FilterGeneralBranch(p, worldAngle, now);
    var concreteMask := Matches(Normalize(worldAngle), p.toleranceRad);
    SelectOfSelect(p.timetable, InForce(now), concreteMask);
    SelectOfSelect(p.timetable, InForce(now), IsGeneral());
    MergeSelectedLastWins(p.timetable, Both(InForce(now), concreteMask));
    MergeSelectedLastWins(p.timetable, Both(InForce(now), IsGeneral()));
  }

  /** A matching concrete `no_vibrate` rule in force always suppresses the message, whatever else applies. */
  lemma {:induction false} NoVibrateWins(p: Policy, worldAngle: real, now: int, r: Rule)
    requires ConcreteApplies(p, r, worldAngle, now) && Says(r, "no_vibrate")
    ensures FilterMessage(p, worldAngle, now) == None
  {
    FilterDecision(p, worldAngle, now);
  }

  /** The message is suppressed exactly when a rule is in force and none of the deciding rules says `vibrate` alone. */
  lemma {:induction false} SuppressedIff(p: Policy, worldAngle: real, now: int)
    ensures FilterMessage(p, worldAngle, now).None? <==>
      (exists r :: r in p.timetable && InWindow(r, now))
      && !(
        ((exists r :: ConcreteApplies(p, r, worldAngle, now) && Says(r, "vibrate"))
          && !(exists r :: ConcreteApplies(p, r, worldAngle, now) && Says(r, "no_vibrate")))
        || ((forall r :: ConcreteApplies(p, r, worldAngle, now) ==> !Says(r, "vibrate") && !Says(r, "no_vibrate"))
          && (exists r :: GeneralApplies(p, r, now) && Says(r, "vibrate"))
          && !(exists r :: GeneralApplies(p, r, now) && Says(r, "no_vibrate"))))
  {
    FilterDecision(p, worldAngle, now);
  }

  /** The decision depends only on the direction of the world angle, not on how many turns it carries. */
  lemma {:induction false} FilterIgnoresFullTurns(p: Policy, worldAngle: real, now: int)
    ensures FilterMessage(p, worldAngle + TwoPi, now) == FilterMessage(p, worldAngle, now)
  {
    NormalizeIdempotentAndPeriodic(worldAngle);
  }
}
