// What arm and disarm requests come to: which messages main sends for them, and the state the
// logger is in after the owner obeyed them.
module OwnershipArming {
  import opened Wrappers
  import opened Protocol
  import opened Acquisition
  import opened Ownership
  import opened OwnershipCalls
  import opened OwnershipRuns
  import opened OwnershipHandover

  // ----- From message to state -----

  /** The last ARM or DISARM that an owner obeyed since the last accepted Configure, and whether
      the owner ran the logger since. */
  datatype Obeyed = Obeyed(last: Option<ToLoop>, ran: bool)

  const NOTHING := Obeyed(None, false)

  function Recall(o: Obeyed, s: Sys, step: Step): Obeyed
    requires Enabled(s, step)
  {
    match step
    case Serve(r) => if r.Configure? && Handle(s.main, s.logger, s.loops, r).2 == Ok then NOTHING else o
    case LoopTakesMessage(i) =>
      if s.logger.owner == Some(i) && (Obeys(s, i, Arm) || Obeys(s, i, Disarm)) then Obeyed(s.loops[i].inbox, false) else o
    case LoopRuns(i, _) => o.(ran := o.ran || s.logger.owner == Some(i))
    case _ => o
  }

  function RecallAll(o: Obeyed, m: Moment, steps: seq<Step>): Obeyed
    requires QuietRun(m, steps)
    decreases |steps|
  {
    if steps == [] then o else RecallAll(Recall(o, m.s, steps[0]), Go(m, steps[0]), steps[1..])
  }

  /** The states a logger can be in, by what its owners obeyed. */
  predicate StateFits(o: Obeyed, d: Logger) {
    if !d.valid then d.state == Idle
    else if o.last != Some(Arm) then d.state in {Configured, Failed}
    else if !o.ran then d.state in {Armed, Failed}
    else d.state in {Armed, Triggered, Completed, Failed}
  }

  lemma StepFits(s: Sys, step: Step, o: Obeyed)
    requires Enabled(s, step) && StateFits(o, s.logger)
    ensures StateFits(Recall(o, s, step), Next(s, step).logger)
  {
    hide Verdict, Logic;
  }

  lemma {:induction false} RunFits(m: Moment, steps: seq<Step>, o: Obeyed)
    requires QuietRun(m, steps) && StateFits(o, m.s.logger)
    ensures StateFits(RecallAll(o, m, steps), Play(m, steps).s.logger)
    decreases |steps|
  {
    hide Next, Track, Enabled, QuietTake, Recall, StateFits;
    if steps != [] {
      StepFits(m.s, steps[0], o);
      RunFits(Go(m, steps[0]), steps[1..], Recall(o, m.s, steps[0]));
    }
  }

  /** In every quiet run: a logger without a configuration is idle. A configured one whose owners,
      since the Configure, obeyed no ARM or a DISARM last is configured or failed. One whose owner
      obeyed an ARM last is armed or failed, and triggered or completed only if the owner ran it
      since. */
  lemma StateIsAsObeyed(m: Moment, steps: seq<Step>)
    requires Start(m) && QuietRun(m, steps)
    ensures
      var d, o := Play(m, steps).s.logger, RecallAll(NOTHING, m, steps);
      && (!d.valid ==> d.state == Idle)
      && (d.valid && o.last in {None, Some(Disarm)} ==> d.state in {Configured, Failed})
      && (d.valid && o.last == Some(Arm) ==> d.state in {Armed, Triggered, Completed, Failed})
      && (d.valid && o.last == Some(Arm) && !o.ran ==> d.state in {Armed, Failed})
      && o.last in {None, Some(Arm), Some(Disarm)}
  {
    hide Play, QuietRun, RecallAll;
    RunFits(m, steps, NOTHING);
    OnlyToggles(m, steps, NOTHING);
  }

  lemma {:induction false} OnlyToggles(m: Moment, steps: seq<Step>, o: Obeyed)
    requires QuietRun(m, steps) && o.last in {None, Some(Arm), Some(Disarm)}
    ensures RecallAll(o, m, steps).last in {None, Some(Arm), Some(Disarm)}
    decreases |steps|
  {
    hide Next, Track, Handle, QuietTake;
    if steps != [] {
      OnlyToggles(Go(m, steps[0]), steps[1..], Recall(o, m.s, steps[0]));
    }
  }

  /** Main reads a RELEASED, or serves a Configure or a Reset. */
  predicate StartsOver(s: Sys, step: Step) {
    || (step.Serve? && NeedsLogger(step.request) && !HeldBack(s.main, step.request))
    || (step.Pop? && step.loop < |s.loops| && s.loops[step.loop].outbox == Some(Released))
  }

  ghost predicate NeverStartsOver(m: Moment, steps: seq<Step>)
    requires QuietRun(m, steps)
    decreases |steps|
  {
    steps == [] || (!StartsOver(m.s, steps[0]) && NeverStartsOver(Go(m, steps[0]), steps[1..]))
  }

  /** An idle or failed logger stays so, whatever its owner obeys, until it is configured or reset. */
  lemma {:induction false} IdleAndFailedStay(m: Moment, steps: seq<Step>)
    requires QuietRun(m, steps) && NeverStartsOver(m, steps) && m.s.logger.state in {Idle, Failed}
    ensures Play(m, steps).s.logger.state == m.s.logger.state
    decreases |steps|
  {
    hide Next, Track, Enabled, QuietTake, StartsOver;
    if steps != [] {
      StepStays(m.s, steps[0]);
      IdleAndFailedStay(Go(m, steps[0]), steps[1..]);
    }
  }

  lemma StepStays(s: Sys, step: Step)
    requires Enabled(s, step) && !StartsOver(s, step) && s.logger.state in {Idle, Failed}
    ensures Next(s, step).logger.state == s.logger.state
  {
    hide Verdict, Logic;
  }

  // ----- From request to message -----

  /** The accepted requests for which no message was sent yet. */
  datatype Wanted = Wanted(arm: bool, disarm: bool)

  const UNWANTED := Wanted(false, false)

  /** Main's logic puts `message` into the inbox of loop `j`. */
  predicate Sent(s: Sys, message: ToLoop, j: nat) {
    && j < |s.loops| == |Next(s, RunLogic).loops|
    && s.loops[j].inbox.None? && Next(s, RunLogic).loops[j].inbox == Some(message)
  }

  predicate SentToAny(s: Sys, message: ToLoop) { exists j | 0 <= j < |s.loops| :: Sent(s, message, j) }

  /** A request waits from its acceptance until its message is sent, or until main's logic finds
      that nobody owns the logger. */
  function Want(w: Wanted, s: Sys, step: Step): Wanted {
    if step == RunLogic then
      if s.main.owner.None? then UNWANTED
      else Wanted(w.arm && !SentToAny(s, Arm), w.disarm && !SentToAny(s, Disarm))
    else if s.main.owner.None? || s.main.pending then w
    else if step == Serve(Request.ArmTrigger) then w.(arm := true)
    else if step == Serve(Request.DisarmTrigger) then w.(disarm := true)
    else w
  }

  function WantAll(w: Wanted, m: Moment, steps: seq<Step>): Wanted
    requires QuietRun(m, steps)
    decreases |steps|
  {
    if steps == [] then w else WantAll(Want(w, m.s, steps[0]), Go(m, steps[0]), steps[1..])
  }

  predicate FlagsAre(w: Wanted, s: Sys) { s.main.arm == w.arm && s.main.disarm == w.disarm }

  lemma LogicSends(s: Sys, h: Tags, j: nat)
    requires Inv(s, h) && j < |s.loops|
    ensures
      var free := s.main.owner == Some(j) && s.loops[j].inbox.None? && !s.main.release;
      && (Sent(s, Arm, j) <==> free && s.main.arm)
      && (Sent(s, Disarm, j) <==> free && !s.main.arm && s.main.disarm)
  {}

  lemma LogicSendsToOwner(s: Sys, h: Tags)
    requires Inv(s, h) && s.main.owner.Some?
    ensures
      var i := s.main.owner.value;
      && i < |s.loops|
      && (SentToAny(s, Arm) <==> Sent(s, Arm, i)) && (SentToAny(s, Disarm) <==> Sent(s, Disarm, i))
  {
    hide Next, Sent;
    var i := s.main.owner.value;
    forall j | 0 <= j < |s.loops|
      ensures Sent(s, Arm, j) ==> j == i
      ensures Sent(s, Disarm, j) ==> j == i
    {
      LogicSends(s, h, j);
    }
  }

  lemma LogicFlags(s: Sys, h: Tags)
    requires Inv(s, h)
    ensures
      var e := Next(s, RunLogic).main;
      if s.main.owner.None? then !e.arm && !e.disarm
      else
        var i := s.main.owner.value;
        i < |s.loops| && e.arm == (s.main.arm && !Sent(s, Arm, i)) && e.disarm == (s.main.disarm && !Sent(s, Disarm, i))
  {}

  lemma StepWants(s: Sys, h: Tags, step: Step, w: Wanted)
    requires Inv(s, h) && Enabled(s, step) && FlagsAre(w, s)
    ensures FlagsAre(Want(w, s, step), Next(s, step))
  {
    if step.RunLogic? {
      hide Inv, Next, Sent;
      LogicFlags(s, h);
      if s.main.owner.Some? {
        LogicSendsToOwner(s, h);
      }
    } else if step.Serve? {
      hide Inv, Verdict, Logic;
    } else {
      hide Inv, Handle, Logic;
    }
  }

  lemma {:induction false} RunWants(m: Moment, steps: seq<Step>, w: Wanted)
    requires Inv(m.s, m.h) && QuietRun(m, steps) && FlagsAre(w, m.s)
    ensures Inv(Play(m, steps).s, Play(m, steps).h)
    ensures FlagsAre(WantAll(w, m, steps), Play(m, steps).s)
    decreases |steps|
  {
    hide Inv, Next, Track, Enabled, QuietTake, Want, FlagsAre;
    if steps != [] {
      GoKeeps(m, steps[0]);
      StepWants(m.s, m.h, steps[0], w);
      RunWants(Go(m, steps[0]), steps[1..], Want(w, m.s, steps[0]));
    }
  }

  /** In every quiet run: an arm or a disarm request is accepted exactly if main records an owner
      and no release is under way. Main's logic sends ARM exactly to the owner, if its mailbox is
      empty, no release is wanted and an arm request waits; DISARM exactly then if only a disarm
      request waits. */
  lemma AcceptedIsSent(m: Moment, steps: seq<Step>, j: nat)
    requires Start(m) && QuietRun(m, steps) && j < |Play(m, steps).s.loops|
    ensures
      var s, w := Play(m, steps).s, WantAll(UNWANTED, m, steps);
      var free := s.main.owner == Some(j) && s.loops[j].inbox.None? && !s.main.release;
      && (Handle(s.main, s.logger, s.loops, Request.ArmTrigger).2 == Ok <==> s.main.owner.Some? && !s.main.pending)
      && (Handle(s.main, s.logger, s.loops, Request.DisarmTrigger).2 == Ok <==> s.main.owner.Some? && !s.main.pending)
      && (Sent(s, Arm, j) <==> free && w.arm)
      && (Sent(s, Disarm, j) <==> free && !w.arm && w.disarm)
  {
    hide Play, QuietRun, WantAll, Inv, Sent;
    InitInv(m.s, m.h);
    RunWants(m, steps, UNWANTED);
    LogicSends(Play(m, steps).s, Play(m, steps).h, j);
  }

  // ----- Requests out of order -----

  const DISARM_WAITS := Moment(ARM_SENT.s.(main := ARM_SENT.s.main.(disarm := true)), ARM_SENT.h.(disarm := 1))

  /** A disarm request waits, and behind it an arm request. */
  const BOTH_WAIT := DISARM_WAITS.(s := DISARM_WAITS.s.(main := DISARM_WAITS.s.main.(arm := true)))
  const ONE_OBEYED := BOTH_WAIT.(s := BOTH_WAIT.s.(
    logger := Logger(Some(0), Armed, true), loops := [IDLE_LOOP.(outbox := Some(StatusUpdate(ARMED)))]))
  const ARM_OVERTAKES := ONE_OBEYED.(s := ONE_OBEYED.s.(
    main := DISARM_WAITS.s.main.(seen := ARMED), loops := [IDLE_LOOP.(inbox := Some(Arm))]))
  const TWO_OBEYED := ARM_OVERTAKES.(s := ARM_OVERTAKES.s.(loops := ONE_OBEYED.s.loops))
  const DISARM_SENT := TWO_OBEYED.(s := TWO_OBEYED.s.(
    main := ARM_SENT.s.main.(seen := ARMED), loops := [IDLE_LOOP.(inbox := Some(Disarm))]))
  const DISARMED := DISARM_SENT.(s := DISARM_SENT.s.(
    logger := Logger(Some(0), Configured, true), loops := [IDLE_LOOP.(outbox := Some(StatusUpdate(CONFIGURED)))]))

  const TO_BOTH: seq<Step> :=
    WholeCall(Request.ArmTrigger) + WholeCall(Request.DisarmTrigger) + WholeCall(Request.ArmTrigger)
  const TO_DISARMED: seq<Step> :=
    LoopCall(ARMED) + IDLE_CALL + LoopCall(ARMED) + IDLE_CALL + LoopCall(CONFIGURED)

  lemma OwnedTravelsToBoth()
    ensures Travel(AT_OWNED, BETWEEN, TO_BOTH) == Some((BOTH_WAIT, BETWEEN))
  {
    hide Travel;
    var arm, disarm := WholeCall(Request.ArmTrigger), WholeCall(Request.DisarmTrigger);
    CallTravels(AT_OWNED, Request.ArmTrigger, {});
    assert AfterServing(AfterReading(AT_OWNED), Request.ArmTrigger) == ARM_SENT;
    CallTravels(ARM_SENT, Request.DisarmTrigger, {});
    assert AfterServing(AfterReading(ARM_SENT), Request.DisarmTrigger) == DISARM_WAITS;
    CallTravels(DISARM_WAITS, Request.ArmTrigger, {});
    assert AfterServing(AfterReading(DISARM_WAITS), Request.ArmTrigger) == BOTH_WAIT;
    TravelThrough(AT_OWNED, BETWEEN, arm, disarm);
    TravelThrough(AT_OWNED, BETWEEN, arm + disarm, arm);
  }

  lemma BothTravelToDisarmed()
    ensures Travel(BOTH_WAIT, BETWEEN, TO_DISARMED) == Some((DISARMED, BETWEEN))
  {
    hide Travel;
    var armed, a, b := LoopCall(ARMED), LoopCall(ARMED) + IDLE_CALL, LoopCall(ARMED) + IDLE_CALL + LoopCall(ARMED);
    LoopTravels(BOTH_WAIT, Reads(0, false), ARMED);
    assert AfterLoop(BOTH_WAIT, ARMED) == ONE_OBEYED;
    IdleTravels(ONE_OBEYED, {});
    assert AfterReading(AfterReading(ONE_OBEYED)) == ARM_OVERTAKES;
    LoopTravels(ARM_OVERTAKES, Reads(0, false), ARMED);
    assert AfterLoop(ARM_OVERTAKES, ARMED) == TWO_OBEYED;
    IdleTravels(TWO_OBEYED, {});
    assert AfterReading(AfterReading(TWO_OBEYED)) == DISARM_SENT;
    LoopTravels(DISARM_SENT, Reads(0, false), CONFIGURED);
    assert AfterLoop(DISARM_SENT, CONFIGURED) == DISARMED;
    TravelThrough(BOTH_WAIT, BETWEEN, armed, IDLE_CALL);
    TravelThrough(BOTH_WAIT, BETWEEN, a, armed);
    TravelThrough(BOTH_WAIT, BETWEEN, b, IDLE_CALL);
    TravelThrough(BOTH_WAIT, BETWEEN, b + IDLE_CALL, LoopCall(CONFIGURED));
  }

  /** Accepted requests can be obeyed out of order: process calls of main and of one loop, in which
      arm, disarm and arm requests are accepted in this order, leave the logger disarmed with no
      message and no request waiting. */
  lemma LastArmIsLost()
    ensures Start(AT_START) && Travel(AT_START, BETWEEN, TO_OWNED + TO_BOTH + TO_DISARMED) == Some((DISARMED, BETWEEN))
    ensures DISARMED.s.logger == Logger(Some(0), Configured, true)
    ensures !DISARMED.s.main.arm && !DISARMED.s.main.disarm && DISARMED.s.loops[0].inbox.None?
  {
    hide Travel;
    StartTravelsToOwned();
    OwnedTravelsToBoth();
    BothTravelToDisarmed();
    TravelThrough(AT_START, BETWEEN, TO_OWNED, TO_BOTH);
    TravelThrough(AT_START, BETWEEN, TO_OWNED + TO_BOTH, TO_DISARMED);
  }
}
