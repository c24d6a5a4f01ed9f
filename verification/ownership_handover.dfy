// Whether the logger that a loop takes over is configured.
module OwnershipHandover {
  import opened Wrappers
  import opened Protocol
  import opened Acquisition
  import opened Ownership
  import opened OwnershipCalls
  import opened OwnershipRuns

  /** The last Configure or Reset that main served rather than held back. */
  function Remember(last: Option<Request>, s: Sys, step: Step): Option<Request> {
    if step.Serve? && NeedsLogger(step.request) && !HeldBack(s.main, step.request) then Some(step.request) else last
  }

  function LastServed(m: Moment, steps: seq<Step>, last: Option<Request>): Option<Request>
    requires QuietRun(m, steps)
    decreases |steps|
  {
    if steps == [] then last else LastServed(Go(m, steps[0]), steps[1..], Remember(last, m.s, steps[0]))
  }

  /** A Configure that main accepts. */
  predicate Configures(loops: seq<Loop>, r: Option<Request>) {
    r.Some? && r.value.Configure? && Verdict(loops, r.value) == Ok
  }

  /** From the accepted Configure until the owner gives up the logger. */
  predicate HandedOver(s: Sys, h: Tags) { s.main.newOwner.Some? || h.take.Some? || s.logger.owner.Some? }

  predicate ConfiguredAsServed(s: Sys, h: Tags, last: Option<Request>) {
    HandedOver(s, h) ==> (s.logger.valid <==> Configures(s.loops, last))
  }

  /** Which loops may log never changes. */
  lemma SameVerdicts(s: Sys, step: Step, r: Option<Request>)
    requires Enabled(s, step)
    ensures Configures(Next(s, step).loops, r) <==> Configures(s.loops, r)
  {
    var after := Next(s, step).loops;
    assert |after| == |s.loops| && forall i | 0 <= i < |s.loops| :: after[i].allowed == s.loops[i].allowed;
  }

  lemma StepStaysConfigured(s: Sys, h: Tags, step: Step, last: Option<Request>)
    requires Inv(s, h) && Enabled(s, step) && QuietTake(h, step) && ConfiguredAsServed(s, h, last)
    ensures ConfiguredAsServed(Next(s, step), Track(h, s, step), Remember(last, s, step))
  {
    SameVerdicts(s, step, last);
    if step.Serve? {
      SameVerdicts(s, step, Some(step.request));
    }
    hide Verdict;
  }

  lemma {:induction false} RunStaysConfigured(m: Moment, steps: seq<Step>, last: Option<Request>)
    requires Inv(m.s, m.h) && QuietRun(m, steps) && ConfiguredAsServed(m.s, m.h, last)
    ensures ConfiguredAsServed(Play(m, steps).s, Play(m, steps).h, LastServed(m, steps, last))
    decreases |steps|
  {
    hide Inv, Next, Track, Enabled, QuietTake, ConfiguredAsServed, Remember;
    if steps != [] {
      GoKeeps(m, steps[0]);
      StepStaysConfigured(m.s, m.h, steps[0], last);
      RunStaysConfigured(Go(m, steps[0]), steps[1..], Remember(last, m.s, steps[0]));
    }
  }

  /** In every quiet run, the logger that a loop takes or owns is configured if and only if
      the last Configure or Reset that main served was an accepted Configure. */
  lemma OwnedLoggerIsConfigured(m: Moment, steps: seq<Step>)
    requires Start(m) && QuietRun(m, steps)
    ensures
      var e := Play(m, steps);
      HandedOver(e.s, e.h) ==> (e.s.logger.valid <==> Configures(e.s.loops, LastServed(m, steps, None)))
  {
    hide Inv, Play, QuietRun, LastServed;
    InitInv(m.s, m.h);
    RunStaysConfigured(m, steps, None);
  }

  /** A request spoils or renews a hand-over that waits for room in the mailbox of `j`; the
      hand-over goes on in any case. */
  lemma WaitingHandOver(s: Sys, h: Tags, j: nat, r: Request)
    requires Inv(s, h) && s.main.owner.None? && s.main.newOwner == Some(j) && h.take.None? && s.logger.valid
    requires Servable(r)
    ensures
      var s1 := Next(s, Serve(r));
      && (s1.logger.valid <==> !r.ResetDatalogger? && (r.Configure? ==> Verdict(s.loops, r) == Ok))
      && s1.main.newOwner.Some? && (s1.main.newOwner == Some(j) || (r.Configure? && s1.main.newOwner == Some(r.loop)))
      && (!s1.logger.valid ==>
          var s2 := Next(Next(s1, LoopTakesMessage(j)), RunLogic);
          s2.loops[j].inbox == Some(Take) && s2.logger == Logger(None, Idle, false))
  {}

  // ----- A run of process calls to an owner without a configuration -----

  const CONFIGURE := Configure(0, Ok, Ok, true)
  const CONFIGURED := Report(Configured, 0, 0)
  const ARMED := Report(Armed, 0, 0)
  const NO_MAIN := Main(None, None, NoFault, false, false, false, false, NOTHING_SEEN, false)

  /** One loop, nothing done yet. */
  const AT_START := Moment(Sys(NO_MAIN, Logger(None, Idle, false), [IDLE_LOOP]), Tags(None, 0, 0, 0, 0, [0]))

  /** TAKE is sent. */
  const AT_TAKE := Moment(
    Sys(NO_MAIN.(seen := CONFIGURED), Logger(None, Configured, true), [IDLE_LOOP.(inbox := Some(Take))]),
    Tags(Some(0), 0, 0, 0, 0, [0]))

  const AT_TAKEN := Moment(
    Sys(NO_MAIN.(seen := CONFIGURED), Logger(Some(0), Configured, true), [IDLE_LOOP.(outbox := Some(Taken))]),
    Tags(Some(0), 0, 1, 0, 0, [0]))

  /** The loop owns the logger, and main knows. */
  const AT_OWNED := Moment(
    Sys(NO_MAIN.(owner := Some(0), seen := CONFIGURED), Logger(Some(0), Configured, true), [IDLE_LOOP]),
    Tags(None, 1, 1, 0, 0, [0]))

  const ARM_SENT := Moment(AT_OWNED.s.(loops := [IDLE_LOOP.(inbox := Some(Arm))]), AT_OWNED.h.(arm := 1, message := [1]))

  /** A second arm request waits for room in the mailbox. */
  const ARM_WAITS := ARM_SENT.(s := ARM_SENT.s.(main := ARM_SENT.s.main.(arm := true)))

  /** And so does a release. */
  const RELEASE_WAITS := ARM_WAITS.(s := ARM_WAITS.s.(main := ARM_WAITS.s.main.(release := true)))

  const ARM_OBEYED := Moment(
    Sys(RELEASE_WAITS.s.main, Logger(Some(0), Armed, true), [IDLE_LOOP.(outbox := Some(StatusUpdate(ARMED)))]), RELEASE_WAITS.h)

  /** RELEASE is sent, and a Reset held back again. */
  const ASKED := Moment(
    Sys(NO_MAIN.(owner := Some(0), arm := true, pending := true, seen := ARMED), Logger(Some(0), Armed, true),
        [IDLE_LOOP.(inbox := Some(Release))]),
    RELEASE_WAITS.h)

  /** RELEASED is on its way, and the second arm message is sent all the same. */
  const CROSSED := Moment(
    Sys(ASKED.s.main.(arm := false), Logger(None, Armed, true), [IDLE_LOOP.(inbox := Some(Arm), outbox := Some(Released))]),
    RELEASE_WAITS.h)

  /** Nobody owns the logger; the arm message is still there. */
  const AT_STALE := Moment(Sys(NO_MAIN, Logger(None, Idle, false), [IDLE_LOOP.(inbox := Some(Arm))]), CROSSED.h)

  /** A hand-over waits behind it. */
  const AT_WAITING := Moment(
    Sys(NO_MAIN.(newOwner := Some(0), seen := CONFIGURED), Logger(None, Configured, true), AT_STALE.s.loops), CROSSED.h)

  const TO_TAKEN: seq<Step> := WholeCall(CONFIGURE) + LoopCall(CONFIGURED)
  const TO_OWNED: seq<Step> := TO_TAKEN + IDLE_CALL
  const TO_WAITING_RELEASE: seq<Step> :=
    WholeCall(Request.ArmTrigger) + WholeCall(Request.ArmTrigger) + WholeCall(Request.ResetDatalogger)
  /** The loop answers RELEASE between the last reading of its mailbox and the logic. */
  const CROSSING: seq<Step> := HalfCall(Request.ResetDatalogger) + LoopCall(ARMED) + [RunLogic]
  const TO_STALE: seq<Step> := TO_WAITING_RELEASE + LoopCall(ARMED) + CROSSING + WholeCall(Request.ResetDatalogger)

  lemma StartTravelsToTaken()
    ensures Travel(AT_START, BETWEEN, TO_TAKEN) == Some((AT_TAKEN, BETWEEN))
  {
    hide Travel;
    CallTravels(AT_START, CONFIGURE, {});
    assert AfterServing(AfterReading(AT_START), CONFIGURE) == AT_TAKE;
    LoopTravels(AT_TAKE, Reads(0, false), CONFIGURED);
    assert AfterLoop(AT_TAKE, CONFIGURED) == AT_TAKEN;
    TravelThrough(AT_START, BETWEEN, WholeCall(CONFIGURE), LoopCall(CONFIGURED));
  }

  lemma StartTravelsToOwned()
    ensures Travel(AT_START, BETWEEN, TO_OWNED) == Some((AT_OWNED, BETWEEN))
  {
    hide Travel;
    StartTravelsToTaken();
    IdleTravels(AT_TAKEN, {});
    assert AfterReading(AfterReading(AT_TAKEN)) == AT_OWNED;
    TravelThrough(AT_START, BETWEEN, TO_TAKEN, IDLE_CALL);
  }

  lemma OwnedTravelsToWaitingRelease()
    ensures Travel(AT_OWNED, BETWEEN, TO_WAITING_RELEASE) == Some((RELEASE_WAITS, BETWEEN))
  {
    hide Travel;
    var arm, reset := WholeCall(Request.ArmTrigger), WholeCall(Request.ResetDatalogger);
    CallTravels(AT_OWNED, Request.ArmTrigger, {});
    assert AfterServing(AfterReading(AT_OWNED), Request.ArmTrigger) == ARM_SENT;
    CallTravels(ARM_SENT, Request.ArmTrigger, {});
    assert AfterServing(AfterReading(ARM_SENT), Request.ArmTrigger) == ARM_WAITS;
    CallTravels(ARM_WAITS, Request.ResetDatalogger, {});
    assert AfterServing(AfterReading(ARM_WAITS), Request.ResetDatalogger) == RELEASE_WAITS;
    TravelThrough(AT_OWNED, BETWEEN, arm, arm);
    TravelThrough(AT_OWNED, BETWEEN, arm + arm, reset);
  }

  lemma CrossingTravels()
    ensures Travel(ARM_OBEYED, BETWEEN, CROSSING) == Some((CROSSED, BETWEEN))
  {
    hide Travel, HalfCall;
    var served, half := At(Reads(1, true), {}), HalfCall(Request.ResetDatalogger);
    assert Go(AfterReading(ARM_OBEYED), Serve(Request.ResetDatalogger)) == ASKED && Go(ASKED, Pop(0)) == ASKED;
    HalfCallTravels(ARM_OBEYED, Request.ResetDatalogger);
    LoopTravels(ASKED, Reads(1, true), ARMED);
    TravelThrough(ARM_OBEYED, BETWEEN, half, LoopCall(ARMED));
    var m6 := AfterLoop(ASKED, ARMED);
    assert Go(m6, RunLogic) == CROSSED;
    LogicTravels(m6);
    TravelThrough(ARM_OBEYED, BETWEEN, half + LoopCall(ARMED), [RunLogic]);
  }

  lemma OwnedTravelsToStale()
    ensures Travel(AT_OWNED, BETWEEN, TO_STALE) == Some((AT_STALE, BETWEEN))
  {
    hide Travel;
    OwnedTravelsToWaitingRelease();
    LoopTravels(RELEASE_WAITS, Reads(0, false), ARMED);
    assert AfterLoop(RELEASE_WAITS, ARMED) == ARM_OBEYED;
    CrossingTravels();
    CallTravels(CROSSED, Request.ResetDatalogger, {});
    assert AfterServing(AfterReading(CROSSED), Request.ResetDatalogger) == AT_STALE;
    TravelThrough(AT_OWNED, BETWEEN, TO_WAITING_RELEASE, LoopCall(ARMED));
    TravelThrough(AT_OWNED, BETWEEN, TO_WAITING_RELEASE + LoopCall(ARMED), CROSSING);
    TravelThrough(AT_OWNED, BETWEEN, TO_WAITING_RELEASE + LoopCall(ARMED) + CROSSING, WholeCall(Request.ResetDatalogger));
  }

  lemma StaleTravelsToWaiting()
    ensures Travel(AT_STALE, BETWEEN, WholeCall(CONFIGURE)) == Some((AT_WAITING, BETWEEN))
  {
    hide Travel;
    CallTravels(AT_STALE, CONFIGURE, {});
    assert AfterServing(AfterReading(AT_STALE), CONFIGURE) == AT_WAITING;
  }

  /** The loop takes the stale message in time for main's logic to send TAKE. */
  function SpoiledCall(r: Request): seq<Step> {
    HalfCall(r) + LoopCall(NOTHING_SEEN) + [RunLogic] + LoopCall(NOTHING_SEEN)
  }

  const SPOILED := Moment(AT_WAITING.s.(logger := Logger(None, Idle, false)), CROSSED.h)

  const UNCONFIGURED := Moment(
    Sys(NO_MAIN, Logger(Some(0), Idle, false), [IDLE_LOOP.(outbox := Some(Taken))]),
    CROSSED.h.(take := Some(0), loopPeriod := 2))

  predicate Spoils(r: Request) {
    Servable(r) && (r.ResetDatalogger? || (r.Configure? && Verdict(AT_WAITING.s.loops, r) != Ok))
  }

  lemma WaitingTravelsToSpoiled(r: Request)
    requires Spoils(r)
    ensures Travel(AT_WAITING, BETWEEN, HalfCall(r)) == Some((SPOILED, At(Reads(1, true), {})))
  {
    assert r.Configure? ==> Verdict(AT_WAITING.s.loops, r) != ProcessAgain;
    hide Travel, Verdict, HalfCall;
    assert AfterReading(AT_WAITING) == AT_WAITING;
    assert Go(AT_WAITING, Serve(r)) == SPOILED && Go(SPOILED, Pop(0)) == SPOILED;
    HalfCallTravels(AT_WAITING, r);
  }

  lemma SpoiledTravels(r: Request)
    requires Spoils(r)
    ensures Travel(AT_WAITING, BETWEEN, SpoiledCall(r)) == Some((UNCONFIGURED, BETWEEN))
  {
    hide Travel, Spoils, HalfCall;
    WaitingTravelsToSpoiled(r);
    LoopTravels(SPOILED, Reads(1, true), NOTHING_SEEN);
    var m5 := AfterLoop(SPOILED, NOTHING_SEEN);
    assert m5 == SPOILED.(s := SPOILED.s.(loops := [IDLE_LOOP]));
    TravelThrough(AT_WAITING, BETWEEN, HalfCall(r), LoopCall(NOTHING_SEEN));
    LogicTravels(m5);
    TravelThrough(AT_WAITING, BETWEEN, HalfCall(r) + LoopCall(NOTHING_SEEN), [RunLogic]);
    var m6 := Go(m5, RunLogic);
    LoopTravels(m6, Reads(0, false), NOTHING_SEEN);
    assert AfterLoop(m6, NOTHING_SEEN) == UNCONFIGURED;
    TravelThrough(AT_WAITING, BETWEEN, HalfCall(r) + LoopCall(NOTHING_SEEN) + [RunLogic], LoopCall(NOTHING_SEEN));
  }

  /** Process calls of main and of one loop, quiet and from the start, reach a hand-over that
      waits behind a stale arm message. A Reset served then, or any Configure that main turns
      down, makes the loop own a logger that is not configured. */
  lemma UnconfiguredOwnerIsReachable(r: Request)
    requires Spoils(r)
    ensures
      var steps := TO_OWNED + TO_STALE + WholeCall(CONFIGURE) + SpoiledCall(r);
      && Start(AT_START) && Travel(AT_START, BETWEEN, steps) == Some((UNCONFIGURED, BETWEEN))
      && QuietRun(AT_START, steps) && Play(AT_START, steps) == UNCONFIGURED
      && UNCONFIGURED.s.logger == Logger(Some(0), Idle, false)
  {
    hide Travel, Spoils, QuietRun, Play;
    StartTravelsToOwned();
    OwnedTravelsToStale();
    StaleTravelsToWaiting();
    SpoiledTravels(r);
    TravelThrough(AT_START, BETWEEN, TO_OWNED, TO_STALE);
    TravelThrough(AT_START, BETWEEN, TO_OWNED + TO_STALE, WholeCall(CONFIGURE));
    TravelThrough(AT_START, BETWEEN, TO_OWNED + TO_STALE + WholeCall(CONFIGURE), SpoiledCall(r));
    TravelIsQuiet(AT_START, BETWEEN, TO_OWNED + TO_STALE + WholeCall(CONFIGURE) + SpoiledCall(r));
  }
}
