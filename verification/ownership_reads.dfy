// What main reads of a logger that a loop may own: its state, in the datalogging logic, and its
// log, for an acquisition transfer or its metadata.
module OwnershipReads {
  import opened Wrappers
  import opened Protocol
  import opened Acquisition
  import opened Ownership
  import opened OwnershipCalls
  import opened OwnershipRuns
  import opened OwnershipHandover

  // ----- The state -----

  /** The logic reads the logger state itself when it records no owner. */
  predicate ReadsState(s: Sys, step: Step) { step.RunLogic? && s.main.fault == NoFault && s.main.owner.None? }

  /** In no other step does main learn the state but from a message. */
  lemma StateReadIsAll(s: Sys, step: Step)
    requires Enabled(s, step)
    ensures ReadsState(s, step) ==> Next(s, step).main.seen == s.main.seen.(state := s.logger.state)
    ensures !ReadsState(s, step) && !step.Pop? ==> Next(s, step).main.seen == s.main.seen
  {}

  /** The read finds the logger unowned if and only if no loop has a TAKEN waiting to be read. */
  lemma StateReadAloneIff(s: Sys, h: Tags)
    requires Inv(s, h) && ReadsState(s, RunLogic)
    ensures s.logger.owner.None? <==> forall i | 0 <= i < |s.loops| :: s.loops[i].outbox != Some(Taken)
  {}

  /** The loop takes the logger between main's reading of its mailbox and main's logic. */
  const TO_STATE_READ: seq<Step> := WholeCall(CONFIGURE) + [Pop(0)] + LoopCall(CONFIGURED)

  /** A run of process calls from the start in which main reads the state of an owned logger. */
  lemma StateReadWhileOwned()
    ensures Start(AT_START)
    ensures
      var there := Travel(AT_START, BETWEEN, TO_STATE_READ);
      && there == Some((AT_TAKEN, At(Reads(1, false), {}))) && Follows(AT_TAKEN, there.value.1, RunLogic)
      && ReadsState(AT_TAKEN.s, RunLogic) && AT_TAKEN.s.logger.owner == Some(0)
  {
    hide Travel;
    var mid := At(Reads(1, false), {});
    CallTravels(AT_START, CONFIGURE, {});
    assert AfterServing(AfterReading(AT_START), CONFIGURE) == AT_TAKE && Go(AT_TAKE, Pop(0)) == AT_TAKE;
    Arrives(AT_TAKE, mid);
    TravelOn(AT_TAKE, BETWEEN, Pop(0), []);
    TravelThrough(AT_START, BETWEEN, WholeCall(CONFIGURE), [Pop(0)] + []);
    assert [Pop(0)] + [] == [Pop(0)];
    LoopTravels(AT_TAKE, Reads(1, false), CONFIGURED);
    assert AfterLoop(AT_TAKE, CONFIGURED) == AT_TAKEN;
    TravelThrough(AT_START, BETWEEN, WholeCall(CONFIGURE) + [Pop(0)], LoopCall(CONFIGURED));
  }

  // ----- The log -----

  /** `obeyed` counts the arms and disarms obeyed by an owner; `sentAt` and `knownAt` are that
      count when the last report was sent, and when the report that main has now was made; the
      flags say that the logger was completed in that report and at every moment since. */
  datatype Watching = Watching(obeyed: nat, sentAt: nat, knownAt: nat, sentStill: bool, knownStill: bool)

  const NOT_YET := Watching(0, 0, 0, false, false)

  predicate ObeysToggle(s: Sys, step: Step)
    requires Enabled(s, step)
  {
    step.LoopTakesMessage? && s.logger.owner == Some(step.loop) && (Obeys(s, step.loop, Arm) || Obeys(s, step.loop, Disarm))
  }

  predicate SendsReport(s: Sys, step: Step)
    requires Enabled(s, step)
  {
    && step.LoopRuns? && s.loops[step.loop].outbox.None?
    && var out := Next(s, step).loops[step.loop].outbox;
       out.Some? && out.value.StatusUpdate?
  }

  function Observe(w: Watching, s: Sys, step: Step): Watching
    requires Enabled(s, step)
  {
    var still := Next(s, step).logger.state == Completed;
    if ReadsState(s, step) then w.(knownAt := w.obeyed, knownStill := still)
    else if step.Pop? && s.loops[step.loop].outbox.Some? && s.loops[step.loop].outbox.value.StatusUpdate? then
      w.(knownAt := w.sentAt, knownStill := w.sentStill)
    else if SendsReport(s, step) then
      w.(sentAt := w.obeyed, sentStill := still, knownStill := w.knownStill && still)
    else
      w.(obeyed := w.obeyed + (if ObeysToggle(s, step) then 1 else 0),
         sentStill := w.sentStill && still, knownStill := w.knownStill && still)
  }

  function ObserveAll(w: Watching, m: Moment, steps: seq<Step>): Watching
    requires QuietRun(m, steps)
    decreases |steps|
  {
    if steps == [] then w else ObserveAll(Observe(w, m.s, steps[0]), Go(m, steps[0]), steps[1..])
  }

  predicate Reported(l: Loop) {
    l.outbox.Some? && l.outbox.value.StatusUpdate? && l.outbox.value.report.state == Completed
  }

  /** The loop that owns the logger or is about to. */
  function Busy(s: Sys, h: Tags): Option<nat> { if s.main.owner.Some? then s.main.owner else h.take }

  predicate WatchOk(s: Sys, h: Tags, w: Watching) {
    && w.sentAt <= w.obeyed && w.knownAt <= w.obeyed
    && (w.sentStill || w.knownStill ==> s.logger.state == Completed)
    && (Busy(s, h).Some? && Busy(s, h).value < |s.loops| ==>
        && (s.main.seen.state == Completed ==> (w.knownStill <==> w.knownAt == w.obeyed))
        && (Reported(s.loops[Busy(s, h).value]) ==> (w.sentStill <==> w.sentAt == w.obeyed)))
  }

  lemma PopWatched(s: Sys, h: Tags, step: Step, w: Watching)
    requires step.Pop?
    requires Inv(s, h) && Enabled(s, step) && QuietTake(h, step) && WatchOk(s, h, w)
    ensures WatchOk(Next(s, step), Track(h, s, step), Observe(w, s, step))
  {}

  lemma LogicWatched(s: Sys, h: Tags, step: Step, w: Watching)
    requires step.RunLogic?
    requires Inv(s, h) && Enabled(s, step) && QuietTake(h, step) && WatchOk(s, h, w)
    ensures WatchOk(Next(s, step), Track(h, s, step), Observe(w, s, step))
  {}

  lemma ServeWatched(s: Sys, h: Tags, step: Step, w: Watching)
    requires step.Serve?
    requires Inv(s, h) && Enabled(s, step) && QuietTake(h, step) && WatchOk(s, h, w)
    ensures WatchOk(Next(s, step), Track(h, s, step), Observe(w, s, step))
  {}

  lemma MessageWatched(s: Sys, h: Tags, step: Step, w: Watching)
    requires step.LoopTakesMessage?
    requires Inv(s, h) && Enabled(s, step) && QuietTake(h, step) && WatchOk(s, h, w)
    ensures WatchOk(Next(s, step), Track(h, s, step), Observe(w, s, step))
  {}

  lemma ReportWatched(s: Sys, h: Tags, step: Step, w: Watching)
    requires step.LoopRuns?
    requires Inv(s, h) && Enabled(s, step) && QuietTake(h, step) && WatchOk(s, h, w)
    ensures WatchOk(Next(s, step), Track(h, s, step), Observe(w, s, step))
  {}

  lemma {:induction false} RunWatched(m: Moment, steps: seq<Step>, w: Watching)
    requires Inv(m.s, m.h) && QuietRun(m, steps) && WatchOk(m.s, m.h, w)
    ensures Inv(Play(m, steps).s, Play(m, steps).h)
    ensures WatchOk(Play(m, steps).s, Play(m, steps).h, ObserveAll(w, m, steps))
    decreases |steps|
  {
    hide Inv, Next, Track, Enabled, QuietTake, WatchOk, Observe;
    if steps != [] {
      var step := steps[0];
      GoKeeps(m, step);
      match step {
        case Pop(_) => PopWatched(m.s, m.h, step, w);
        case RunLogic => LogicWatched(m.s, m.h, step, w);
        case Serve(_) => ServeWatched(m.s, m.h, step, w);
        case LoopTakesMessage(_) => MessageWatched(m.s, m.h, step, w);
        case LoopRuns(_, _) => ReportWatched(m.s, m.h, step, w);
      }
      RunWatched(Go(m, step), steps[1..], Observe(w, m.s, step));
    }
  }

  /** Main reads the log that it believes to be complete: for a transfer if it records an owner,
      for the metadata in any case. */
  predicate ReadsLog(s: Sys, r: Request) {
    s.main.seen.state == Completed && (r.GetMetadata? || (r.ReadAcquisition? && s.main.owner.Some?))
  }

  /** Only then is such a request answered. */
  lemma LogReadIsAll(s: Sys, r: Request)
    requires r.ReadAcquisition? || r.GetMetadata?
    ensures Handle(s.main, s.logger, s.loops, r).2 == Ok <==> ReadsLog(s, r)
  {}

  // ----- Why the metadata need no owner check -----

  predicate AtRest(state: LoggerState) { state !in {Armed, Triggered, Completed} }

  /** A logger that main gives nobody is at rest, and so is what main believes when it serves. */
  predicate Resting(s: Sys, at: At) {
    s.main.owner.None? ==> AtRest(s.logger.state) && (at.main.Serves? ==> AtRest(s.main.seen.state))
  }

  lemma StepRests(m: Moment, at: At, step: Step)
    requires Inv(m.s, m.h) && Follows(m, at, step) && Resting(m.s, at)
    ensures Resting(Go(m, step).s, Follow(at, |m.s.loops|, step).value)
  {
    hide Verdict;
  }

  lemma {:induction false} TravelRests(m: Moment, at: At, steps: seq<Step>)
    requires Inv(m.s, m.h) && Resting(m.s, at) && Travel(m, at, steps).Some?
    ensures var (e, there) := Travel(m, at, steps).value; Inv(e.s, e.h) && Resting(e.s, there)
    decreases |steps|
  {
    hide Inv, Resting, Go, Possible, QuietTake, Follow;
    if steps != [] {
      GoKeeps(m, steps[0]);
      StepRests(m, at, steps[0]);
      TravelRests(Go(m, steps[0]), Follow(at, |m.s.loops|, steps[0]).value, steps[1..]);
    }
  }

  /** The steps lead from the start, in whole process calls, to a request. */
  predicate ToRequest(m: Moment, steps: seq<Step>) {
    Start(m) && Travel(m, BETWEEN, steps).Some? && Travel(m, BETWEEN, steps).value.1.main.Serves?
  }

  /** In every quiet run of process calls, for any number of loops, main records an owner whenever
      it serves a request while it believes an acquisition to be complete. */
  lemma CompletedIsOwned(m: Moment, steps: seq<Step>)
    requires ToRequest(m, steps)
    ensures
      var e := Travel(m, BETWEEN, steps).value.0;
      && QuietRun(m, steps) && Play(m, steps) == e
      && (e.s.main.owner.None? ==> AtRest(e.s.main.seen.state) && AtRest(e.s.logger.state))
  {
    hide Inv, Travel, Play, QuietRun;
    InitInv(m.s, m.h);
    TravelRests(m, BETWEEN, steps);
    TravelIsQuiet(m, BETWEEN, steps);
  }

  // ----- Whether the log stands still -----

  /** In every quiet run, a log that main reads has stood still since the completion was reported
      if and only if the owner has obeyed no arm and no disarm since; the logger is completed
      then, so that no process call of the owner writes. */
  lemma LogStandsStillIff(m: Moment, steps: seq<Step>, r: Request)
    requires Start(m) && QuietRun(m, steps) && ReadsLog(Play(m, steps).s, r)
    requires r.GetMetadata? ==> ToRequest(m, steps)
    ensures
      var e, w := Play(m, steps), ObserveAll(NOT_YET, m, steps);
      && e.s.main.owner.Some? && (w.knownStill <==> w.knownAt == w.obeyed)
      && (w.knownStill ==> e.s.logger.state == Completed)
  {
    hide Play, QuietRun, ObserveAll, ToRequest;
    InitInv(m.s, m.h);
    RunWatched(m, steps, NOT_YET);
    if r.GetMetadata? {
      CompletedIsOwned(m, steps);
    }
  }

  // ----- A log that moves -----

  const DONE := Report(Completed, 0, 0)

  /** The loop has told main that data was acquired, or the state, or main has read all that. */
  const AT_ACQUIRED := Moment(
    AT_OWNED.s.(logger := Logger(Some(0), Completed, true), loops := [Loop(None, Some(DataAcquired), true, true)]), ARM_SENT.h)
  const AT_TOLD := AT_ACQUIRED.(s := AT_ACQUIRED.s.(loops := [Loop(None, None, true, true)]))
  const AT_REPORTED := AT_ACQUIRED.(s := AT_ACQUIRED.s.(loops := [Loop(None, Some(StatusUpdate(DONE)), true, true)]))
  const AT_COMPLETED := AT_TOLD.(s := AT_TOLD.s.(main := AT_TOLD.s.main.(seen := DONE)))
  const ARM_AGAIN := AT_COMPLETED.(s := AT_COMPLETED.s.(loops := [Loop(Some(Arm), None, true, true)]))

  /** Armed again, while main still believes the acquisition to be complete. */
  const AT_MOVING := ARM_AGAIN.(s := ARM_AGAIN.s.(
    logger := Logger(Some(0), Armed, true), loops := [Loop(None, Some(StatusUpdate(ARMED)), true, true)]))

  const TO_COMPLETED: seq<Step> :=
    WholeCall(Request.ArmTrigger) + LoopCall(DONE) + IDLE_CALL + LoopCall(DONE) + IDLE_CALL
  const TO_MOVING: seq<Step> := WholeCall(Request.ArmTrigger) + READING + LoopCall(ARMED)

  lemma OwnedTravelsToCompleted()
    ensures Travel(AT_OWNED, BETWEEN, TO_COMPLETED) == Some((AT_COMPLETED, BETWEEN))
  {
    hide Travel;
    var arm := WholeCall(Request.ArmTrigger);
    CallTravels(AT_OWNED, Request.ArmTrigger, {});
    assert AfterServing(AfterReading(AT_OWNED), Request.ArmTrigger) == ARM_SENT;
    LoopTravels(ARM_SENT, Reads(0, false), DONE);
    assert AfterLoop(ARM_SENT, DONE) == AT_ACQUIRED;
    IdleTravels(AT_ACQUIRED, {});
    assert AfterReading(AfterReading(AT_ACQUIRED)) == AT_TOLD;
    LoopTravels(AT_TOLD, Reads(0, false), DONE);
    assert AfterLoop(AT_TOLD, DONE) == AT_REPORTED;
    IdleTravels(AT_REPORTED, {});
    assert AfterReading(AfterReading(AT_REPORTED)) == AT_COMPLETED;
    TravelThrough(AT_OWNED, BETWEEN, arm, LoopCall(DONE));
    TravelThrough(AT_OWNED, BETWEEN, arm + LoopCall(DONE), IDLE_CALL);
    TravelThrough(AT_OWNED, BETWEEN, arm + LoopCall(DONE) + IDLE_CALL, LoopCall(DONE));
    TravelThrough(AT_OWNED, BETWEEN, arm + LoopCall(DONE) + IDLE_CALL + LoopCall(DONE), IDLE_CALL);
  }

  lemma CompletedTravelsToMoving()
    ensures Travel(AT_COMPLETED, BETWEEN, TO_MOVING) == Some((AT_MOVING, At(Serves, {})))
  {
    hide Travel;
    var arm := WholeCall(Request.ArmTrigger);
    CallTravels(AT_COMPLETED, Request.ArmTrigger, {});
    assert AfterServing(AfterReading(AT_COMPLETED), Request.ArmTrigger) == ARM_AGAIN;
    ReadingTravels(ARM_AGAIN, false, {});
    assert AfterReading(ARM_AGAIN) == ARM_AGAIN;
    LoopTravels(ARM_AGAIN, Serves, ARMED);
    assert AfterLoop(ARM_AGAIN, ARMED) == AT_MOVING;
    TravelThrough(AT_COMPLETED, BETWEEN, arm, READING);
    TravelThrough(AT_COMPLETED, BETWEEN, arm + READING, LoopCall(ARMED));
  }

  /** Process calls from the start reach a completed acquisition that is armed again: main still
      answers requests for the log and its metadata, although the owner may write the log. */
  lemma MovingLogIsRead(r: Request)
    requires r.ReadAcquisition? || r.GetMetadata?
    ensures ToRequest(AT_START, TO_OWNED + TO_COMPLETED + TO_MOVING)
    ensures Travel(AT_START, BETWEEN, TO_OWNED + TO_COMPLETED + TO_MOVING) == Some((AT_MOVING, At(Serves, {})))
    ensures
      && AT_MOVING.s.logger == Logger(Some(0), Armed, true)
      && Handle(AT_MOVING.s.main, AT_MOVING.s.logger, AT_MOVING.s.loops, r).2 == Ok
  {
    hide Travel;
    StartTravelsToOwned();
    OwnedTravelsToCompleted();
    CompletedTravelsToMoving();
    TravelThrough(AT_START, BETWEEN, TO_OWNED, TO_COMPLETED);
    TravelThrough(AT_START, BETWEEN, TO_OWNED + TO_COMPLETED, TO_MOVING);
  }
}
