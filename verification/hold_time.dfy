// When the trigger fires: the hold time, over checks in a row and over whole runs with arming,
// disarming, forced triggers and unreadable operands.
module HoldTime {
  import opened Words
  import opened Timebase
  import opened Wrappers
  import opened RawEncoder
  import opened Acquisition

  // ----- A run of checks -----

  /** The trigger data after the checks of `history`. */
  function Watch(k: Setup, t: Trigger, history: seq<Input>): Trigger
    decreases |history|
  {
    if history == [] then t
    else CheckTrigger(k, Watch(k, t, history[..|history| - 1]), history[|history| - 1]).0
  }

  predicate Readable(history: seq<Input>) { forall i | 0 <= i < |history| :: history[i].condition.Some? }

  /** The condition holds from call `i` to the end of `history`, and did not before. */
  predicate TrueSince(history: seq<Input>, i: nat) {
    && i < |history|
    && (forall j | i <= j < |history| :: history[j].condition == Some(true))
    && (i == 0 || history[i - 1].condition == Some(false))
  }

  /** The rising edge is the first call of the unbroken stretch in which the condition holds. */
  lemma {:induction false} EdgeIsTracked(k: Setup, history: seq<Input>) returns (since: nat)
    requires Readable(history)
    ensures
      var t := Watch(k, IDLE_TRIGGER, history);
      && !t.manual && (t.previous ==> TrueSince(history, since) && t.risingEdge == history[since].now)
      && (!t.previous ==> history == [] || history[|history| - 1].condition == Some(false))
    decreases |history|
  {
    since := 0;
    if history != [] {
      var before := history[..|history| - 1];
      var previous := EdgeIsTracked(k, before);
      since := if Watch(k, IDLE_TRIGGER, before).previous then previous else |history| - 1;
    }
  }

  /** The trigger fires in a check exactly when its condition has been true in every check since
      one that lies the hold time back. */
  lemma FiresAfterHold(k: Setup, history: seq<Input>, input: Input)
    requires Readable(history + [input])
    ensures
      CheckTrigger(k, Watch(k, IDLE_TRIGGER, history), input).1 <==>
      exists i: nat :: TrueSince(history + [input], i) && HasExpired(input.now, (history + [input])[i].now, k.holdTime)
  {
    hide HasExpired;
    var all, n := history + [input], |history|;
    assert history == all[..n] && all[n] == input;
    var since := EdgeIsTracked(k, history);
    var t := Watch(k, IDLE_TRIGGER, history);
    assert !CheckTrigger(k, t, input).1 || input.condition == Some(true);
    if input.condition == Some(true) {
      var first := if t.previous then since else n;
      assert TrueSince(all, first) by {
        StretchGrows(history, input, first);
      }
      forall i: nat | TrueSince(all, i)
        ensures i == first
      {
        SameStretch(all, i, first);
      }
    }
  }

  lemma StretchGrows(history: seq<Input>, input: Input, i: nat)
    requires input.condition == Some(true)
    requires if i < |history| then TrueSince(history, i)
             else i == |history| && (history == [] || history[i - 1].condition == Some(false))
    ensures TrueSince(history + [input], i)
  {}

  lemma SameStretch(history: seq<Input>, i: nat, j: nat)
    requires TrueSince(history, i) && TrueSince(history, j)
    ensures i == j
  {}

  predicate FiresIn(k: Setup, v: View, input: Input)
    requires k.modulus > 0
  {
    v.state == Armed && Acquisition.Process(k, v, input).state !in {Armed, Failed}
  }

  lemma FiringIsLeavingArmed(k: Setup, v: View, input: Input)
    requires k.modulus > 0 && v.state == Armed && !v.encoderError
    ensures FiresIn(k, v, input) <==> CheckTrigger(k, v.trigger, input).1
    ensures
      var t, c := Acquisition.Process(k, v, input).trigger, CheckTrigger(k, v.trigger, input).0;
      t.previous == c.previous && t.risingEdge == c.risingEdge && t.manual == c.manual
  {}

  // ----- A whole run -----

  datatype Event = Call(input: Input) | ArmTrigger | DisarmTrigger | ForceTrigger

  function Happen(k: Setup, v: View, e: Event): View
    requires k.modulus > 0
  {
    match e
    case Call(input) => Acquisition.Process(k, v, input)
    case ArmTrigger => v.(state := ArmedFrom(v.state))
    case DisarmTrigger => v.(state := DisarmedFrom(v.state))
    case ForceTrigger => if v.state == Armed then v.(trigger := v.trigger.(manual := true)) else v
  }

  function After(k: Setup, v: View, events: seq<Event>): View
    requires k.modulus > 0
    decreases |events|
  {
    if events == [] then v else Happen(k, After(k, v, events[..|events| - 1]), events[|events| - 1])
  }

  /** What a check of the trigger went by. */
  datatype Check = Sampled(now: u32, condition: Option<bool>) | Forced(now: u32)

  /** The checks made in a run: one per process call of an armed logger. */
  function Checks(k: Setup, v: View, events: seq<Event>): seq<Check>
    requires k.modulus > 0
    decreases |events|
  {
    if events == [] then []
    else
      var before, e := After(k, v, events[..|events| - 1]), events[|events| - 1];
      Checks(k, v, events[..|events| - 1])
      + if e.Call? && before.state == Armed && !before.encoderError then
          [if before.trigger.manual then Forced(e.input.now) else Sampled(e.input.now, e.input.condition)]
        else []
  }

  /** The last condition that could be read; a forced trigger counts as true. */
  function Known(checks: seq<Check>): bool
    decreases |checks|
  {
    if checks == [] then false
    else
      match checks[|checks| - 1]
      case Forced(_) => true
      case Sampled(_, Some(b)) => b
      case Sampled(_, None) => Known(checks[..|checks| - 1])
  }

  /** A check at which the condition is seen to become true. */
  predicate IsEdge(checks: seq<Check>, i: nat) {
    i < |checks| && checks[i].Sampled? && checks[i].condition == Some(true) && !Known(checks[..i])
  }

  ghost predicate LastEdge(checks: seq<Check>, i: nat) {
    i < |checks| && IsEdge(checks, i) && forall j: nat | j > i :: !IsEdge(checks, j)
  }

  function EdgeTime(checks: seq<Check>): u32
    decreases |checks|
  {
    if checks == [] then 0
    else if IsEdge(checks, |checks| - 1) then checks[|checks| - 1].now
    else EdgeTime(checks[..|checks| - 1])
  }

  lemma EdgesOfShorter(checks: seq<Check>, n: nat)
    requires n <= |checks|
    ensures forall i: nat | i < n :: IsEdge(checks, i) <==> IsEdge(checks[..n], i)
    ensures forall i: nat | i >= n :: !IsEdge(checks[..n], i)
  {
    hide Known;
    forall i: nat | i < n
      ensures IsEdge(checks, i) <==> IsEdge(checks[..n], i)
    {
      assert checks[..n][..i] == checks[..i];
    }
  }

  lemma EdgeTimeOfShorter(checks: seq<Check>)
    requires checks != []
    ensures
      var n := |checks| - 1;
      EdgeTime(checks) == if IsEdge(checks, n) then checks[n].now else EdgeTime(checks[..n])
  {
    hide IsEdge;
  }

  /** It is the time of the last edge, or 0 if there was none. */
  lemma {:induction false} EdgeTimeIsLast(checks: seq<Check>)
    ensures
      || (EdgeTime(checks) == 0 && forall i: nat :: !IsEdge(checks, i))
      || exists i: nat :: LastEdge(checks, i) && EdgeTime(checks) == checks[i].now
    decreases |checks|
  {
    if checks != [] {
      var n := |checks| - 1;
      EdgeTimeIsLast(checks[..n]);
      EdgesOfShorter(checks, n);
      EdgesOfShorter(checks, n + 1);
      EdgeTimeOfShorter(checks);
      assert checks[..n + 1] == checks;
      hide IsEdge, EdgeTime;
      if IsEdge(checks, n) {
        assert LastEdge(checks, n);
      } else if exists i: nat :: LastEdge(checks[..n], i) && EdgeTime(checks[..n]) == checks[i].now {
        var i: nat :| LastEdge(checks[..n], i) && EdgeTime(checks[..n]) == checks[i].now;
        assert LastEdge(checks, i);
      }
    }
  }

  /** The trigger data agree with what the checks say. */
  predicate Agrees(t: Trigger, checks: seq<Check>) {
    t.previous == Known(checks) && t.risingEdge == EdgeTime(checks)
  }

  lemma CheckAgrees(k: Setup, v: View, input: Input, checks: seq<Check>)
    requires k.modulus > 0 && v.state == Armed && !v.encoderError && Agrees(v.trigger, checks)
    ensures
      var made := if v.trigger.manual then Forced(input.now) else Sampled(input.now, input.condition);
      Agrees(Acquisition.Process(k, v, input).trigger, checks + [made])
  {
    hide HasExpired, Acquisition.Process;
    FiringIsLeavingArmed(k, v, input);
    var made := if v.trigger.manual then Forced(input.now) else Sampled(input.now, input.condition);
    assert (checks + [made])[..|checks|] == checks;
  }

  /** What is not a check leaves previous value and edge alone. */
  lemma OthersAgree(k: Setup, v: View, e: Event)
    requires k.modulus > 0 && !(e.Call? && v.state == Armed && !v.encoderError)
    ensures Happen(k, v, e).trigger.(manual := v.trigger.manual) == v.trigger
  {}

  /** Between two configures the trigger data depend on the checks alone; process calls in
      other states leave them as they are. */
  lemma {:induction false} TriggerIsChecks(k: Setup, v: View, events: seq<Event>)
    requires k.modulus > 0 && v.trigger == IDLE_TRIGGER
    ensures Agrees(After(k, v, events).trigger, Checks(k, v, events))
    decreases |events|
  {
    if events != [] {
      hide Acquisition.Process;
      var n := |events| - 1;
      var before, e := After(k, v, events[..n]), events[n];
      TriggerIsChecks(k, v, events[..n]);
      if e.Call? && before.state == Armed && !before.encoderError {
        CheckAgrees(k, before, e.input, Checks(k, v, events[..n]));
      } else {
        OthersAgree(k, before, e);
        assert Checks(k, v, events) == Checks(k, v, events[..n]);
      }
    }
  }

  predicate IsCheck(v: View, e: Event) { e.Call? && v.state == Armed && !v.encoderError }

  /** The trigger was forced while the logger was armed, and no check was made since. */
  predicate Pending(k: Setup, v: View, events: seq<Event>, i: nat)
    requires k.modulus > 0
  {
    && i < |events| && events[i].ForceTrigger? && After(k, v, events[..i]).state == Armed
    && forall j | i < j < |events| :: !IsCheck(After(k, v, events[..j]), events[j])
  }

  lemma PendingBefore(k: Setup, v: View, events: seq<Event>, i: nat)
    requires k.modulus > 0 && i < |events| - 1
    ensures
      var n := |events| - 1;
      Pending(k, v, events, i) <==> Pending(k, v, events[..n], i) && !IsCheck(After(k, v, events[..n]), events[n])
  {
    hide After, IsCheck;
    var n := |events| - 1;
    assert forall j | 0 <= j < n :: events[..n][..j] == events[..j] && events[..n][j] == events[j];
  }

  lemma StepForces(k: Setup, v: View, e: Event)
    requires k.modulus > 0
    ensures Happen(k, v, e).trigger.manual <==>
            (e.ForceTrigger? && v.state == Armed) || (v.trigger.manual && !IsCheck(v, e))
  {
    hide HasExpired;
  }

  /** The manual flag says exactly that a forced trigger is pending. */
  lemma {:induction false} ForcedIff(k: Setup, v: View, events: seq<Event>)
    requires k.modulus > 0 && !v.trigger.manual
    ensures After(k, v, events).trigger.manual <==> exists i: nat :: Pending(k, v, events, i)
    decreases |events|
  {
    if events != [] {
      hide Happen, IsCheck, Pending;
      var n := |events| - 1;
      var before, e := After(k, v, events[..n]), events[n];
      ForcedIff(k, v, events[..n]);
      StepForces(k, before, e);
      LastPending(k, v, events);
      forall i: nat | i < n
        ensures Pending(k, v, events, i) <==> Pending(k, v, events[..n], i) && !IsCheck(before, e)
      {
        PendingBefore(k, v, events, i);
      }
      if before.trigger.manual && !IsCheck(before, e) {
        var i: nat :| Pending(k, v, events[..n], i);
        PendingIsInside(k, v, events[..n], i);
        assert Pending(k, v, events, i);
      }
    }
  }

  lemma PendingIsInside(k: Setup, v: View, events: seq<Event>, i: nat)
    requires k.modulus > 0 && Pending(k, v, events, i)
    ensures i < |events|
  {}

  lemma LastPending(k: Setup, v: View, events: seq<Event>)
    requires k.modulus > 0 && events != []
    ensures
      var n := |events| - 1;
      Pending(k, v, events, n) <==> events[n].ForceTrigger? && After(k, v, events[..n]).state == Armed
    ensures forall i: nat | i >= |events| :: !Pending(k, v, events, i)
  {}

  /** The last edge, or time 0 if there was none, lies the hold time back. */
  ghost predicate Held(checks: seq<Check>, now: u32, holdTime: u32) {
    if forall i: nat :: !IsEdge(checks, i) then HasExpired(now, 0, holdTime)
    else exists i: nat :: LastEdge(checks, i) && HasExpired(now, checks[i].now, holdTime)
  }

  /** In any run after a configure, the trigger fires in a process call of an armed logger exactly
      when it was forced since the last check, or when its condition is true and the last check
      that saw it become true, or time 0 if no check did, lies the hold time back. */
  lemma FiresExactly(k: Setup, v: View, events: seq<Event>, input: Input)
    requires k.modulus > 0 && v.trigger == IDLE_TRIGGER
    requires After(k, v, events).state == Armed && !After(k, v, events).encoderError
    ensures
      var checks := Checks(k, v, events + [Call(input)]);
      FiresIn(k, After(k, v, events), input) <==>
      || (exists i: nat :: Pending(k, v, events, i))
      || (input.condition == Some(true) && Held(checks, input.now, k.holdTime))
  {
    hide HasExpired, Acquisition.Process, Pending, Held;
    var before, all := After(k, v, events), events + [Call(input)];
    assert all[..|events|] == events;
    TriggerIsChecks(k, v, events);
    ForcedIff(k, v, events);
    FiringIsLeavingArmed(k, before, input);
    var checks := Checks(k, v, all);
    assert checks[..|checks| - 1] == Checks(k, v, events);
    HeldSinceEdge(checks, input.now, k.holdTime);
  }

  lemma HeldSinceEdge(checks: seq<Check>, now: u32, holdTime: u32)
    ensures HasExpired(now, EdgeTime(checks), holdTime) <==> Held(checks, now, holdTime)
  {
    hide HasExpired, IsEdge, EdgeTime;
    EdgeTimeIsLast(checks);
    if exists i: nat :: IsEdge(checks, i) {
      var i: nat :| LastEdge(checks, i) && EdgeTime(checks) == checks[i].now;
      assert forall j: nat | LastEdge(checks, j) :: j == i;
    }
  }

  function Calls(inputs: seq<Input>): (events: seq<Event>)
    ensures |events| == |inputs|
  {
    seq(|inputs|, i requires 0 <= i < |inputs| => Call(inputs[i]))
  }

  /** Process calls alone never arm a logger again, and while it is armed they only check. */
  lemma {:induction false} ArmedAllAlong(k: Setup, v: View, inputs: seq<Input>)
    requires k.modulus > 0 && v.state == Armed && !v.encoderError && v.trigger == IDLE_TRIGGER
    requires After(k, v, Calls(inputs)).state == Armed && Readable(inputs)
    ensures !After(k, v, Calls(inputs)).encoderError
    ensures After(k, v, Calls(inputs)).trigger == Watch(k, IDLE_TRIGGER, inputs)
    decreases |inputs|
  {
    hide HasExpired;
    if inputs != [] {
      var n := |inputs| - 1;
      assert Calls(inputs)[..n] == Calls(inputs[..n]);
      var before := After(k, v, Calls(inputs[..n]));
      assert before.state == Armed;
      ArmedAllAlong(k, v, inputs[..n]);
    }
  }

  /** While the logger stays armed and every operand can be read, the trigger fires exactly when
      its condition has been true in every process call since one that lies the hold time back. */
  lemma HoldsInEveryCall(k: Setup, v: View, inputs: seq<Input>, input: Input)
    requires k.modulus > 0 && v.state == Armed && !v.encoderError && v.trigger == IDLE_TRIGGER
    requires After(k, v, Calls(inputs)).state == Armed && Readable(inputs + [input])
    ensures
      var all := inputs + [input];
      FiresIn(k, After(k, v, Calls(inputs)), input) <==>
      exists i: nat :: TrueSince(all, i) && HasExpired(input.now, all[i].now, k.holdTime)
  {
    hide HasExpired, After, Acquisition.Process, CheckTrigger, Watch;
    assert inputs == (inputs + [input])[..|inputs|];
    ArmedAllAlong(k, v, inputs);
    FiringIsLeavingArmed(k, After(k, v, Calls(inputs)), input);
    FiresAfterHold(k, inputs, input);
  }

  /** Conditions that are seen false only while the logger is disarmed do not end a stretch: here
      the trigger fires on a condition that has just become true, with a hold time of 100. */
  lemma HeldWhileDisarmed()
    ensures
      var k := Setup(1, 0, 0, 100, 100, 0x1_0000);
      var v := View(Configured, IDLE_TRIGGER, Window(0, 0, 0, 0), Ring(4, 25, 0, 0, false), 0, false);
      var events := [ArmTrigger, Call(Input(0, Some(true))), DisarmTrigger, Call(Input(50, Some(false))), ArmTrigger];
      FiresIn(k, After(k, v, events), Input(100, Some(true)))
  {
    var k := Setup(1, 0, 0, 100, 100, 0x1_0000);
    var v := View(Configured, IDLE_TRIGGER, Window(0, 0, 0, 0), Ring(4, 25, 0, 0, false), 0, false);
    var events := [ArmTrigger, Call(Input(0, Some(true))), DisarmTrigger, Call(Input(50, Some(false))), ArmTrigger];
    var v1 := Happen(k, v, events[0]);
    var v2 := Happen(k, v1, events[1]);
    var v3 := Happen(k, v2, events[2]);
    var v4 := Happen(k, v3, events[3]);
    var v5 := Happen(k, v4, events[4]);
    assert v5.state == Armed && v5.trigger.previous && v5.trigger.risingEdge == 0 && !v5.trigger.manual;
    assert events[..4][..3] == events[..3] && events[..3][..2] == events[..2] && events[..2][..1] == events[..1] && events[..1][..0] == [];
    assert After(k, v, events[..1]) == v1;
    assert After(k, v, events[..2]) == v2;
    assert After(k, v, events[..3]) == v3;
    assert After(k, v, events[..4]) == v4;
    assert After(k, v, events) == v5;
    hide After;
    FiringIsLeavingArmed(k, v5, Input(100, Some(true)));
  }

  /** A forced trigger counts as a true condition: after arming again the trigger fires on a
      condition that no check has seen become true, with a hold time of 100. */
  lemma HeldAfterForced()
    ensures
      var k := Setup(1, 0, 0, 100, 100, 0x1_0000);
      var v := View(Configured, IDLE_TRIGGER, Window(0, 0, 0, 0), Ring(4, 25, 0, 0, false), 0, false);
      var events := [ArmTrigger, ForceTrigger, Call(Input(99, Some(false))), ArmTrigger];
      FiresIn(k, After(k, v, events), Input(100, Some(true))) && forall i: nat :: !Pending(k, v, events, i)
  {
    var k := Setup(1, 0, 0, 100, 100, 0x1_0000);
    var v := View(Configured, IDLE_TRIGGER, Window(0, 0, 0, 0), Ring(4, 25, 0, 0, false), 0, false);
    var events := [ArmTrigger, ForceTrigger, Call(Input(99, Some(false))), ArmTrigger];
    var v1 := Happen(k, v, events[0]);
    var v2 := Happen(k, v1, events[1]);
    var v3 := Happen(k, v2, events[2]);
    var v4 := Happen(k, v3, events[3]);
    assert v4.state == Armed && v4.trigger.previous && v4.trigger.risingEdge == 0 && !v4.trigger.manual && !v4.encoderError;
    assert events[..3][..2] == events[..2] && events[..2][..1] == events[..1] && events[..1][..0] == [];
    assert After(k, v, events[..1]) == v1;
    assert After(k, v, events[..2]) == v2;
    assert After(k, v, events[..3]) == v3;
    assert After(k, v, events) == v4;
    hide After, Pending;
    ForcedIff(k, v, events);
    FiringIsLeavingArmed(k, v4, Input(100, Some(true)));
  }
}
