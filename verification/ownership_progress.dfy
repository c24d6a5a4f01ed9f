// How a held-back request gets the logger when the steps of main and of all loops interleave
// anyhow, and how it can be held back forever.
module OwnershipProgress {
  import opened Wrappers
  import opened Acquisition
  import opened Ownership
  import opened OwnershipCalls
  import opened OwnershipHandover
  import opened OwnershipRuns

  /** Main wants the logger back from loop `i`. */
  predicate Releasing(m: Moment, i: nat) {
    Inv(m.s, m.h) && m.s.main.owner == Some(i) && i < |m.s.loops| && (m.s.main.release || m.s.main.pending)
  }

  /** A request that is held back sees to it. */
  lemma HoldingBackReleases(m: Moment, i: nat, r: Request)
    requires Inv(m.s, m.h) && m.s.main.owner == Some(i) && NeedsLogger(r) && Possible(m, Serve(r)) && QuietTake(m.h, Serve(r))
    ensures HeldBack(m.s.main, r) && Releasing(Go(m, Serve(r)), i)
  {
    GoKeeps(m, Serve(r));
  }

  /** The stages still ahead: the owner takes the message that is in the way, main sends RELEASE,
      the owner takes it, main reads RELEASED. */
  function Ahead(s: Sys, i: nat): nat
    requires i < |s.loops|
  {
    if s.logger.owner.None? then 1
    else if s.main.pending then 2
    else if s.loops[i].inbox.None? then 3
    else 4
  }

  /** The owner takes its message: it has room to answer. */
  predicate Takes(s: Sys, i: nat, step: Step)
    requires i < |s.loops|
  {
    step == LoopTakesMessage(i) && s.loops[i].outbox.None?
  }

  /** The one step that gets to the next stage. */
  predicate Awaited(s: Sys, i: nat, step: Step)
    requires i < |s.loops|
  {
    match Ahead(s, i)
    case 1 => step == Pop(i)
    case 3 => step == RunLogic
    case _ => Takes(s, i, step)
  }

  /** Nothing but the awaited step gets on, and nothing sets back. */
  lemma StepGetsOn(m: Moment, i: nat, step: Step)
    requires Releasing(m, i) && Possible(m, step) && QuietTake(m.h, step)
    ensures
      var e := Go(m, step);
      if Awaited(m.s, i, step) && Ahead(m.s, i) == 1 then e.s.main.owner.None?
      else
        Releasing(e, i) && Ahead(e.s, i) == Ahead(m.s, i) - if Awaited(m.s, i, step) then 1 else 0
  {
    GoKeeps(m, step);
  }

  /** At some point of the run main no longer records the owner. */
  ghost predicate Released(m: Moment, i: nat, steps: seq<Step>)
    requires QuietRun(m, steps)
    decreases |steps|
  {
    m.s.main.owner != Some(i) || (steps != [] && Released(Go(m, steps[0]), i, steps[1..]))
  }

  /** How many steps get on to the next stage, until then. */
  ghost function GotOn(m: Moment, i: nat, steps: seq<Step>): nat
    requires QuietRun(m, steps)
    decreases |steps|
  {
    if steps == [] || i >= |m.s.loops| || m.s.main.owner != Some(i) then 0
    else (if Awaited(m.s, i, steps[0]) then 1 else 0) + GotOn(Go(m, steps[0]), i, steps[1..])
  }

  /** In every interleaving, the logger is given up if and only if each stage ahead is got over;
      otherwise so many fewer are ahead. */
  lemma {:induction false} ReleasedIff(m: Moment, i: nat, steps: seq<Step>)
    requires Releasing(m, i) && QuietRun(m, steps)
    ensures Released(m, i, steps) <==> GotOn(m, i, steps) == Ahead(m.s, i)
    ensures !Released(m, i, steps) ==>
      Releasing(Play(m, steps), i) && Ahead(Play(m, steps).s, i) == Ahead(m.s, i) - GotOn(m, i, steps)
    decreases |steps|
  {
    hide Inv, Go, Awaited, Ahead, Possible, QuietTake;
    if steps == [] {
      AheadIsPositive(m.s, i);
    } else {
      var e := Go(m, steps[0]);
      StepGetsOn(m, i, steps[0]);
      if e.s.main.owner == Some(i) {
        ReleasedIff(e, i, steps[1..]);
      } else {
        assert Released(e, i, steps[1..]) && GotOn(e, i, steps[1..]) == 0;
      }
    }
  }

  lemma AheadIsPositive(s: Sys, i: nat)
    requires i < |s.loops|
    ensures 1 <= Ahead(s, i) <= 4
  {}

  /** What comes after a step of a run that does not release. */
  lemma Passes(m: Moment, i: nat, step: Step, rest: seq<Step>)
    requires Releasing(m, i) && QuietRun(m, [step] + rest) && !Released(m, i, [step] + rest)
    ensures
      var e := Play(m, [step] + rest);
      && Releasing(e, i) && Ahead(e.s, i) <= Ahead(m.s, i) - if Awaited(m.s, i, step) then 1 else 0
  {
    hide Inv, Go, Awaited, Ahead, Possible, QuietTake;
    assert ([step] + rest)[1..] == rest;
    ReleasedIff(m, i, [step] + rest);
  }

  /** Two messages taken by the owner, main's logic between, and main's reading afterwards are
      enough, wherever they fall and whatever happens in between. */
  lemma TwoTakesRelease(m: Moment, i: nat, a: seq<Step>, b: seq<Step>, c: seq<Step>, d: seq<Step>)
    requires Releasing(m, i)
    requires QuietRun(m, a) && i < |Play(m, a).s.loops|
    requires
      var take := LoopTakesMessage(i);
      var m1 := Play(m, a);
      && Takes(m1.s, i, take) && QuietRun(m1, [take] + b)
      && var m2 := Play(m1, [take] + b);
         && QuietRun(m2, [RunLogic] + c)
         && var m3 := Play(m2, [RunLogic] + c);
            && i < |m3.s.loops| && Takes(m3.s, i, take) && QuietRun(m3, [take] + d)
            && QuietRun(Play(m3, [take] + d), [Pop(i)] + [])
    ensures
      var take := LoopTakesMessage(i);
      var m1 := Play(m, a);
      var m2 := Play(m1, [take] + b);
      var m3 := Play(m2, [RunLogic] + c);
      || Released(m, i, a) || Released(m1, i, [take] + b) || Released(m2, i, [RunLogic] + c)
      || Released(m3, i, [take] + d) || Released(Play(m3, [take] + d), i, [Pop(i)] + [])
  {
    hide Inv, Go, Possible, QuietTake, QuietRun, Play, Released, GotOn, Takes;
    var take := LoopTakesMessage(i);
    ReleasedIff(m, i, a);
    if !Released(m, i, a) {
      var m1 := Play(m, a);
      var m2 := Play(m1, [take] + b);
      var m3 := Play(m2, [RunLogic] + c);
      var m4 := Play(m3, [take] + d);
      if !Released(m1, i, [take] + b) {
        Passes(m1, i, take, b);
        if !Released(m2, i, [RunLogic] + c) {
          Passes(m2, i, RunLogic, c);
          if !Released(m3, i, [take] + d) {
            Passes(m3, i, take, d);
            if !Released(m4, i, [Pop(i)] + []) {
              Passes(m4, i, Pop(i), []);
            }
          }
        }
      }
    }
  }

  // ----- Held back forever -----

  const RESET := Request.ResetDatalogger

  /** The owner starts its call before main reads its mailbox, and runs the logger after. */
  const CROSSED_READING: seq<Step> := [LoopTakesMessage(0), Pop(0), LoopRuns(0, CONFIGURED), RunLogic]

  /** A call of main that serves a Reset, and two calls of the owner. */
  const ROUND: seq<Step> := CROSSED_READING + ([Serve(RESET)] + CROSSED_READING)

  function Rounds(n: nat): seq<Step> { if n == 0 then [] else ROUND + Rounds(n - 1) }

  /** The arm message is sent while a report is on its way. */
  const TO_BLOCKED: seq<Step> := READING + ([Serve(Request.ArmTrigger)] + CROSSED_READING)

  const AT_BLOCKED := Moment(
    Sys(AT_OWNED.s.main, Logger(Some(0), Configured, true), [IDLE_LOOP.(inbox := Some(Arm), outbox := Some(StatusUpdate(CONFIGURED)))]),
    ARM_SENT.h)

  const AT_STARVED := AT_BLOCKED.(s := AT_BLOCKED.s.(main := AT_BLOCKED.s.main.(release := true)))

  lemma CrossedTravels(m: Moment, served: bool)
    requires OneLoop(m)
    requires
      var m1 := Go(m, LoopTakesMessage(0));
      && OneLoop(m1) && OneLoop(Go(m1, Pop(0))) && Possible(Go(m1, Pop(0)), LoopRuns(0, CONFIGURED))
      && OneLoop(Go(Go(m1, Pop(0)), LoopRuns(0, CONFIGURED)))
    ensures
      var m3 := Go(Go(Go(m, LoopTakesMessage(0)), Pop(0)), LoopRuns(0, CONFIGURED));
      Travel(m, At(Reads(0, served), {}), CROSSED_READING) ==
      Some((Go(m3, RunLogic), At(if served then Reads(0, false) else Serves, {})))
  {
    hide Go, Travel;
    var at := At(Reads(0, served), {});
    var m1 := Go(m, LoopTakesMessage(0));
    var m2 := Go(m1, Pop(0));
    var m3 := Go(m2, LoopRuns(0, CONFIGURED));
    assert {} + {0} == {0} && {0} - {0} == {};
    Arrives(Go(m3, RunLogic), At(if served then Reads(0, false) else Serves, {}));
    TravelOn(m3, At(Reads(1, served), {}), RunLogic, []);
    TravelOn(m2, At(Reads(1, served), {0}), LoopRuns(0, CONFIGURED), [RunLogic] + []);
    TravelOn(m1, At(Reads(0, served), {0}), Pop(0), [LoopRuns(0, CONFIGURED)] + ([RunLogic] + []));
    TravelOn(m, at, LoopTakesMessage(0), [Pop(0)] + ([LoopRuns(0, CONFIGURED)] + ([RunLogic] + [])));
    assert [LoopTakesMessage(0)] + ([Pop(0)] + ([LoopRuns(0, CONFIGURED)] + ([RunLogic] + []))) == CROSSED_READING;
  }

  lemma OwnedTravelsToBlocked()
    ensures Travel(AT_OWNED, BETWEEN, TO_BLOCKED) == Some((AT_BLOCKED, BETWEEN))
  {
    hide Travel;
    ReadingTravels(AT_OWNED, false, {});
    assert AfterReading(AT_OWNED) == AT_OWNED;
    var m := Go(AT_OWNED, Serve(Request.ArmTrigger));
    var m1 := Go(m, LoopTakesMessage(0));
    var m2 := Go(m1, Pop(0));
    var m3 := Go(m2, LoopRuns(0, CONFIGURED));
    assert m1 == m && m2 == m && Go(m3, RunLogic) == AT_BLOCKED;
    CrossedTravels(m, true);
    TravelOn(AT_OWNED, At(Serves, {}), Serve(Request.ArmTrigger), CROSSED_READING);
    TravelThrough(AT_OWNED, BETWEEN, READING, [Serve(Request.ArmTrigger)] + CROSSED_READING);
  }

  /** A round leads from either state to the second one. */
  lemma RoundTravels(m: Moment)
    requires m in {AT_BLOCKED, AT_STARVED}
    ensures Travel(m, BETWEEN, ROUND) == Some((AT_STARVED, BETWEEN))
  {
    hide Travel;
    CrossedStays(m);
    CrossedTravels(m, false);
    assert Go(m, Serve(RESET)) == AT_STARVED;
    CrossedStays(AT_STARVED);
    CrossedTravels(AT_STARVED, true);
    TravelOn(m, At(Serves, {}), Serve(RESET), CROSSED_READING);
    TravelThrough(m, BETWEEN, CROSSED_READING, [Serve(RESET)] + CROSSED_READING);
  }

  /** The take is blocked by the report, which main then reads, and the next one is sent. */
  lemma CrossedStays(m: Moment)
    requires m in {AT_BLOCKED, AT_STARVED}
    ensures
      var m2 := Go(m, Pop(0));
      && OneLoop(m) && Go(m, LoopTakesMessage(0)) == m && OneLoop(m2) && Possible(m2, LoopRuns(0, CONFIGURED))
      && Go(m2, LoopRuns(0, CONFIGURED)) == m && Go(m, RunLogic) == m
  {}

  /** From the start, and for any number of rounds: a Reset is served once in every round and held
      back each time, although the owner makes two process calls in every round. */
  lemma HeldBackForever(n: nat)
    ensures
      var there := Travel(AT_START, BETWEEN, TO_OWNED + TO_BLOCKED + ROUND + Rounds(n));
      && Start(AT_START) && there == Some((AT_STARVED, BETWEEN))
      && HeldBack(AT_STARVED.s.main, RESET) && Releasing(AT_STARVED, 0) && Ahead(AT_STARVED.s, 0) == 4
  {
    hide Travel;
    StartTravelsToOwned();
    OwnedTravelsToBlocked();
    RoundTravels(AT_BLOCKED);
    RoundsTravel(n);
    TravelThrough(AT_START, BETWEEN, TO_OWNED, TO_BLOCKED);
    TravelThrough(AT_START, BETWEEN, TO_OWNED + TO_BLOCKED, ROUND);
    TravelThrough(AT_START, BETWEEN, TO_OWNED + TO_BLOCKED + ROUND, Rounds(n));
  }

  lemma {:induction false} RoundsTravel(n: nat)
    ensures Travel(AT_STARVED, BETWEEN, Rounds(n)) == Some((AT_STARVED, BETWEEN))
  {
    hide Travel;
    if n == 0 {
      Arrives(AT_STARVED, BETWEEN);
    } else {
      RoundTravels(AT_STARVED);
      RoundsTravel(n - 1);
      TravelThrough(AT_STARVED, BETWEEN, ROUND, Rounds(n - 1));
    }
  }
}
