// Safety of every run of the ownership protocol, why the quiet-take assumption is needed, and
// how soon a held-back request gets the logger.
module OwnershipRuns {
  import opened Wrappers
  import opened Protocol
  import opened Acquisition
  import opened Ownership

  datatype Moment = Moment(s: Sys, h: Tags)

  predicate Start(m: Moment) {
    Init(m.s) && |m.h.message| == |m.s.loops| && m.h.take.None? && m.h.mainPeriod == m.h.loopPeriod
  }

  predicate Possible(m: Moment, step: Step) { Enabled(m.s, step) && |m.h.message| == |m.s.loops| }

  function Go(m: Moment, step: Step): Moment
    requires Possible(m, step)
  {
    Moment(Next(m.s, step), Track(m.h, m.s, step))
  }

  /** A run in which no Configure and no Reset interrupts a hand-over. */
  ghost predicate QuietRun(m: Moment, steps: seq<Step>)
    decreases |steps|
  {
    steps == [] || (Possible(m, steps[0]) && QuietTake(m.h, steps[0]) && QuietRun(Go(m, steps[0]), steps[1..]))
  }

  function Play(m: Moment, steps: seq<Step>): Moment
    requires QuietRun(m, steps)
    decreases |steps|
  {
    if steps == [] then m else Play(Go(m, steps[0]), steps[1..])
  }

  lemma GoKeeps(m: Moment, step: Step)
    requires Inv(m.s, m.h) && Possible(m, step) && QuietTake(m.h, step)
    ensures Inv(Go(m, step).s, Go(m, step).h)
  {
    hide Inv, Next, Track;
    match step
    case Pop(i) => PopKeeps(m.s, m.h, i);
    case RunLogic => LogicKeeps(m.s, m.h);
    case Serve(r) => ServeKeeps(m.s, m.h, r);
    case LoopTakesMessage(i) => TakeMessageKeeps(m.s, m.h, i);
    case LoopRuns(i, next) => LoopRunsKeeps(m.s, m.h, i, next);
  }

  lemma {:induction false} PlayKeeps(m: Moment, steps: seq<Step>)
    requires Inv(m.s, m.h) && QuietRun(m, steps)
    ensures Inv(Play(m, steps).s, Play(m, steps).h)
    decreases |steps|
  {
    hide Inv, Next, Track, Enabled, QuietTake;
    if steps != [] {
      GoKeeps(m, steps[0]);
      PlayKeeps(Go(m, steps[0]), steps[1..]);
    }
  }

  // ----- What safety means -----

  predicate InFlight(l: Loop) { l.inbox in {Some(Take), Some(Release)} || l.outbox in {Some(Taken), Some(Released)} }

  /** Main's owner and the logger's own differ only while the one hand-over message that will
      make them equal, TAKEN or RELEASED of the loop concerned, is in flight. */
  predicate OwnersAgree(s: Sys) {
    || s.main.owner == s.logger.owner
    || exists i: nat ::
         && i < |s.loops| && s.loops[i].inbox !in {Some(Take), Some(Release)}
         && (forall j | 0 <= j < |s.loops| && j != i :: !InFlight(s.loops[j]))
         && ((s.main.owner == None && s.logger.owner == Some(i) && s.loops[i].outbox == Some(Taken))
             || (s.main.owner == Some(i) && s.logger.owner == None && s.loops[i].outbox == Some(Released)))
  }

  /** A full slot keeps its message until its reader takes it. */
  predicate NothingOverwritten(s: Sys, step: Step)
    requires Enabled(s, step)
  {
    var after := Next(s, step).loops;
    |after| == |s.loops| &&
    forall i: nat | i < |s.loops| ::
      && (s.loops[i].inbox.Some? && step != LoopTakesMessage(i) ==> after[i].inbox == s.loops[i].inbox)
      && (s.loops[i].outbox.Some? && step != Pop(i) ==> after[i].outbox == s.loops[i].outbox)
  }

  /** Steps in which the main handler writes the configuration, configures or resets. */
  predicate MainTouches(s: Sys, step: Step)
    requires Enabled(s, step)
  {
    match step
    case Serve(r) => (r.Configure? || r.ResetDatalogger?) && !HeldBack(s.main, r)
    case Pop(i) => s.loops[i].outbox == Some(Released)
    case _ => false
  }

  /** Nobody owns the logger, nor is about to. */
  predicate Unowned(s: Sys) {
    s.logger.owner.None? && forall j | 0 <= j < |s.loops| :: s.loops[j].inbox != Some(Take) && s.loops[j].outbox != Some(Taken)
  }

  predicate Obeys(s: Sys, i: nat, message: ToLoop)
    requires i < |s.loops|
  {
    s.loops[i].inbox == Some(message) && s.loops[i].outbox.None?
  }

  predicate SafeStep(s: Sys, h: Tags, step: Step)
    requires Enabled(s, step) && |h.message| == |s.loops|
  {
    && s.main.fault == NoFault && OwnersAgree(s) && NothingOverwritten(s, step)
    && (MainTouches(s, step) ==> Unowned(s))
    && match step
       case Pop(i) =>
         // reports come from the recorded owner only
         s.loops[i].outbox.Some? && (s.loops[i].outbox.value.StatusUpdate? || s.loops[i].outbox.value.DataAcquired?)
         ==> s.main.owner == Some(i)
       case LoopTakesMessage(i) =>
         && (Next(s, step).logger != s.logger ==> s.logger.owner == Some(i) || (s.logger.owner.None? && Obeys(s, i, Take)))
         // a release is always honoured
         && (Obeys(s, i, Release) ==> s.logger.owner == Some(i) && Next(s, step).loops[i].outbox == Some(Released))
         // an arm or disarm only takes effect in the period in which it was accepted
         && ((Obeys(s, i, Arm) || Obeys(s, i, Disarm)) && s.logger.owner == Some(i) ==> h.message[i] == h.loopPeriod)
       case LoopRuns(i, _) => Next(s, step).logger != s.logger ==> s.logger.owner == Some(i)
       case _ => true
  }

  lemma InvMeansAgree(s: Sys, h: Tags)
    requires Inv(s, h)
    ensures OwnersAgree(s)
  {
    if s.main.owner.Some? && s.logger.owner.None? {
      assert s.loops[s.main.owner.value].outbox == Some(Released);
    } else if s.main.owner.None? && s.logger.owner.Some? {
      assert s.loops[s.logger.owner.value].outbox == Some(Taken);
    }
  }

  lemma SlotsKept(s: Sys, step: Step)
    requires Enabled(s, step)
    ensures NothingOverwritten(s, step)
  {}

  lemma InvMeansSafe(s: Sys, h: Tags, step: Step)
    requires Inv(s, h) && Enabled(s, step) && QuietTake(h, step)
    ensures SafeStep(s, h, step)
  {
    hide OwnersAgree, NothingOverwritten;
    InvMeansAgree(s, h);
    SlotsKept(s, step);
  }

  /** Any number of loops, any interleaving: every step of every quiet run is safe. */
  lemma RunsAreSafe(m: Moment, steps: seq<Step>, step: Step)
    requires Start(m) && QuietRun(m, steps)
    requires Possible(Play(m, steps), step) && QuietTake(Play(m, steps).h, step)
    ensures SafeStep(Play(m, steps).s, Play(m, steps).h, step)
  {
    hide Inv, SafeStep, Init, Next, Track, Enabled, QuietTake, QuietRun, Play;
    InitInv(m.s, m.h);
    PlayKeeps(m, steps);
    InvMeansSafe(Play(m, steps).s, Play(m, steps).h, step);
  }

  /** Apart from the steps that count as touching it, the main handler never changes the logger. */
  lemma MainTouchesIsAll(s: Sys, step: Step)
    requires Enabled(s, step) && (step.Pop? || step.RunLogic? || step.Serve?)
    requires !MainTouches(s, step)
    ensures Next(s, step).logger == s.logger
  {}

  // ----- Why takes must be quiet -----

  /** Serving a Configure or Reset that is not held back finds the logger unowned exactly when
      no hand-over is under way. */
  lemma QuietTakeIsNeeded(s: Sys, h: Tags, r: Request)
    requires Inv(s, h) && (r.Configure? || r.ResetDatalogger?) && !HeldBack(s.main, r)
    ensures Unowned(s) <==> QuietTake(h, Serve(r))
  {}

  function Accepted(i: nat): Step { Serve(Configure(i, Ok, Ok, true)) }

  function Then(s: Sys, step: Step): Sys
    requires Enabled(s, step)
  {
    Next(s, step)
  }

  /** Loop `i` still has its TAKE when a Configure gives the logger to `j`: both loops take it,
      and reading both TAKENs is a fault. */
  lemma LoudTakeFaults(s: Sys, h: Tags, i: nat, j: nat)
    requires Inv(s, h) && h.take == Some(i) && s.logger.owner.None?
    requires j < |s.loops| && j != i && s.loops[j].inbox.None? && s.loops[j].allowed
    ensures
      var s1 := Then(s, Accepted(j));
      var s2 := Then(s1, RunLogic);
      var s3 := Then(s2, LoopTakesMessage(i));
      var s4 := Then(s3, LoopTakesMessage(j));
      var s5 := Then(s4, Pop(i));
      var s6 := Then(s5, Pop(j));
      && s3.logger.owner == Some(i) && s4.logger.owner == Some(j)
      && s6.main.fault == UnexpectedClaim
  {}

  /** Such a state is two steps from the start: two loops, two Configures in a row. */
  lemma FaultIsReachable()
    ensures
      var s := Sys(Main(None, None, NoFault, false, false, false, false, NOTHING_SEEN, false),
                   Logger(None, Idle, false), [IDLE_LOOP, IDLE_LOOP]);
      && Init(s)
      && var s1 := Then(s, Accepted(0));
         var s2 := Then(s1, RunLogic);
         var s3 := Then(s2, Accepted(1));
         var s4 := Then(s3, RunLogic);
         var s5 := Then(s4, LoopTakesMessage(0));
         var s6 := Then(s5, LoopTakesMessage(1));
         var s7 := Then(s6, Pop(0));
         var s8 := Then(s7, Pop(1));
         s8.main.fault == UnexpectedClaim
  {}

  predicate CanPlay(s: Sys, steps: seq<Step>)
    decreases |steps|
  {
    steps == [] || (Enabled(s, steps[0]) && CanPlay(Next(s, steps[0]), steps[1..]))
  }

  function Outcome(s: Sys, steps: seq<Step>): Sys
    requires CanPlay(s, steps)
    decreases |steps|
  {
    if steps == [] then s else Outcome(Next(s, steps[0]), steps[1..])
  }

  lemma FaultStep(s: Sys, step: Step)
    requires s.main.fault != NoFault && Enabled(s, step)
    ensures
      var e := Next(s, step);
      && e.main.fault != NoFault && |e.loops| == |s.loops|
      && forall i | 0 <= i < |s.loops| && s.loops[i].inbox.None? :: e.loops[i].inbox.None?
  {
    hide Outgoing, AfterSending, Handle, ArmedFrom, DisarmedFrom;
    if step.Serve? {
      FaultServed(s, step);
    }
  }

  lemma FaultServed(s: Sys, step: Step)
    requires Enabled(s, step) && step.Serve?
    ensures Next(s, step).main.fault == s.main.fault && Next(s, step).loops == s.loops
  {}

  /** A fault is final: whatever happens next, it stays and no loop gets another message. */
  lemma {:induction false} FaultIsForever(s: Sys, steps: seq<Step>)
    requires s.main.fault != NoFault && CanPlay(s, steps)
    ensures
      var end := Outcome(s, steps);
      && end.main.fault != NoFault && |end.loops| == |s.loops|
      && forall i | 0 <= i < |s.loops| && s.loops[i].inbox.None? :: end.loops[i].inbox.None?
    decreases |steps|
  {
    hide Next, Enabled;
    if steps != [] {
      FaultStep(s, steps[0]);
      FaultIsForever(Next(s, steps[0]), steps[1..]);
    }
  }

  // ----- Progress of a release -----

  /** Reads one message of each of the first `count` loops, in order. */
  function PopAll(s: Sys, count: nat): (r: Sys)
    requires count <= |s.loops|
    ensures |r.loops| == |s.loops|
  {
    if count == 0 then s else Next(PopAll(s, count - 1), Pop(count - 1))
  }

  /** A process call of the main handler up to the request. */
  function BeforeRequest(s: Sys): (r: Sys)
    ensures |r.loops| == |s.loops|
  {
    Next(PopAll(s, |s.loops|), RunLogic)
  }

  /** The request and the rest of the process call. */
  function AfterRequest(s: Sys, r: Request): (e: Sys)
    requires Servable(r)
    ensures |e.loops| == |s.loops|
  {
    BeforeRequest(Next(s, Serve(r)))
  }

  /** A process call of loop `i`: its message, then the logger. */
  function LoopProcess(s: Sys, i: nat, next: Report): (e: Sys)
    requires i < |s.loops| && Enabled(Next(s, LoopTakesMessage(i)), LoopRuns(i, next))
    ensures |e.loops| == |s.loops|
  {
    Next(Next(s, LoopTakesMessage(i)), LoopRuns(i, next))
  }

  /** Only loop `i` can have something to say, so reading all loops reads loop `i`. */
  lemma {:induction false} PopAllIsPop(s: Sys, i: nat, count: nat)
    requires i < |s.loops| && OthersQuiet(s.loops, Some(i)) && count <= |s.loops|
    ensures PopAll(s, count) == if i < count then Next(s, Pop(i)) else s
  {
    if count > 0 {
      PopAllIsPop(s, i, count - 1);
      if i < count - 1 {
        assert Next(s, Pop(i)).loops[count - 1] == s.loops[count - 1];
      }
    }
  }

  /** Loop `i` owns, and main recorded it so. */
  predicate Holds(s: Sys, i: nat) {
    && s.main.owner == Some(i) && s.main.fault == NoFault && i < |s.loops| && OthersQuiet(s.loops, Some(i))
    && s.logger.owner == Some(i)
  }

  /** The release has to wait for room in the mailbox. */
  predicate Waiting(s: Sys, i: nat) {
    && Holds(s, i) && s.main.release && !s.main.pending
    && s.loops[i].inbox.Some? && Toggles(s.loops[i].inbox.value) && s.loops[i].outbox.None?
  }

  predicate Reported(s: Sys, i: nat) {
    && Holds(s, i) && s.main.release && !s.main.pending && s.loops[i].inbox.None?
    && s.loops[i].outbox.Some? && !s.loops[i].outbox.value.Taken? && !s.loops[i].outbox.value.Released?
  }

  predicate Asked(s: Sys, i: nat) {
    Holds(s, i) && s.main.pending && !s.main.release && s.loops[i].inbox == Some(Release) && s.loops[i].outbox.None?
  }

  predicate Freed(s: Sys, i: nat) {
    && s.main.owner == Some(i) && i < |s.loops| && OthersQuiet(s.loops, Some(i))
    && s.loops[i].outbox == Some(Released)
  }

  /** Loop `i` holds and main has read all it said. */
  predicate Settled(s: Sys, i: nat) {
    && Holds(s, i) && s.loops[i].outbox.None? && s.loops[i].inbox != Some(Take)
    && (s.main.pending <==> s.loops[i].inbox == Some(Release)) && !(s.main.release && s.main.pending)
  }

  /** Loop `i` has the logger, or will be recorded as its owner when main reads its TAKEN. */
  predicate Involved(s: Sys, h: Tags, i: nat) {
    s.main.owner == Some(i) || (s.main.owner.None? && h.take == Some(i))
  }

  lemma ReadingSettles(s: Sys, h: Tags, i: nat)
    requires Inv(s, h) && Involved(s, h, i)
    ensures i < |s.loops| && OthersQuiet(s.loops, Some(i))
    ensures
      var p := Next(s, Pop(i));
      if p.main.owner.None? then p.main.newOwner.None? else Settled(p, i)
  {}

  /** Main records an owner only of a loop that is involved. */
  lemma OwnerIsInvolved(s: Sys, h: Tags)
    requires Inv(s, h) && BeforeRequest(s).main.owner.Some?
    ensures Involved(s, h, BeforeRequest(s).main.owner.value)
  {
    if s.main.owner.None? && h.take.None? {
      if |s.loops| > 0 {
        PopAllIsPop(s, 0, |s.loops|);
      }
    } else {
      var i := if s.main.owner.Some? then s.main.owner.value else h.take.value;
      ReadingSettles(s, h, i);
      PopAllIsPop(s, i, |s.loops|);
    }
  }

  lemma LogicOfOwned(s: Sys, i: nat)
    requires Settled(s, i)
    ensures
      var e := Next(s, RunLogic);
      && Settled(e, i)
      && (s.main.release || s.main.pending ==> Waiting(e, i) || Asked(e, i))
      && (s.main.pending || (s.main.release && s.loops[i].inbox.None?) ==> Asked(e, i))
  {}

  lemma ServeOfOwned(s: Sys, i: nat, r: Request)
    requires Settled(s, i) && NeedsLogger(r) && Servable(r)
    ensures
      var e := Next(s, Serve(r));
      && Settled(e, i) && (e.main.release || e.main.pending)
      && e.main.pending == s.main.pending && e.loops == s.loops
  {}

  lemma BeforeRequestOf(s: Sys, i: nat)
    requires i < |s.loops| && OthersQuiet(s.loops, Some(i))
    ensures BeforeRequest(s) == Next(Next(s, Pop(i)), RunLogic)
  {
    PopAllIsPop(s, i, |s.loops|);
  }

  lemma NothingToRead(s: Sys, i: nat)
    requires i < |s.loops| && s.loops[i].outbox.None?
    ensures Next(s, Pop(i)) == s
  {}

  lemma HoldsIsQuiet(s: Sys, h: Tags, i: nat)
    requires Settled(s, i)
    ensures i < |s.loops| && OthersQuiet(s.loops, Some(i))
    ensures Settled(s, i) ==> s.loops[i].outbox.None?
  {}

  lemma NoOwnerStaysSo(s: Sys)
    requires s.main.owner.None?
    ensures Next(s, RunLogic).main.owner.None?
  {}

  lemma FirstMainCall(s: Sys, h: Tags, i: nat, r: Request)
    requires Inv(s, h) && BeforeRequest(s).main.owner == Some(i) && NeedsLogger(r) && Servable(r)
    ensures
      var e := AfterRequest(BeforeRequest(s), r);
      Waiting(e, i) || Asked(e, i)
  {
    hide Inv, Next, Settled, OthersQuiet, Waiting, Asked, BeforeRequest;
    OwnerIsInvolved(s, h);
    ReadingSettles(s, h, i);
    BeforeRequestOf(s, i);
    var p := Next(s, Pop(i));
    if p.main.owner.None? {
      NoOwnerStaysSo(p);
    }
    LogicOfOwned(p, i);
    SettledServed(BeforeRequest(s), h, i, r);
  }

  lemma SettledServed(s: Sys, h: Tags, i: nat, r: Request)
    requires Settled(s, i) && NeedsLogger(r) && Servable(r)
    ensures
      var e := AfterRequest(s, r);
      (Waiting(e, i) || Asked(e, i)) && (s.main.pending ==> Asked(e, i))
  {
    hide Inv, Next, Settled, OthersQuiet, Waiting, Asked, BeforeRequest;
    var q := Next(s, Serve(r));
    ServeOfOwned(s, i, r);
    HoldsIsQuiet(q, h, i);
    BeforeRequestOf(q, i);
    NothingToRead(q, i);
    LogicOfOwned(q, i);
  }

  lemma LoopWaiting(s: Sys, i: nat, next: Report)
    requires Waiting(s, i) && Enabled(Next(s, LoopTakesMessage(i)), LoopRuns(i, next))
    ensures Reported(LoopProcess(s, i, next), i)
  {}

  lemma ReportRead(s: Sys, i: nat)
    requires Reported(s, i)
    ensures
      var p := Next(s, Pop(i));
      OthersQuiet(s.loops, Some(i)) && i < |s.loops| && Settled(p, i) && p.main.release && p.loops[i].inbox.None?
  {}

  lemma AskedIsSettled(s: Sys, i: nat)
    requires Asked(s, i)
    ensures Settled(s, i) && s.main.pending
  {}

  lemma SecondMainCall(s: Sys, h: Tags, i: nat, r: Request)
    requires Reported(s, i) && NeedsLogger(r) && Servable(r)
    ensures Asked(AfterRequest(BeforeRequest(s), r), i)
  {
    hide Inv, Next, Settled, OthersQuiet, Waiting, Asked, Reported, BeforeRequest, AfterRequest;
    ReportRead(s, i);
    BeforeRequestOf(s, i);
    LogicOfOwned(Next(s, Pop(i)), i);
    AskedIsSettled(BeforeRequest(s), i);
    SettledServed(BeforeRequest(s), h, i, r);
  }

  lemma LoopAsked(s: Sys, i: nat, next: Report)
    requires Asked(s, i) && Enabled(Next(s, LoopTakesMessage(i)), LoopRuns(i, next))
    ensures Freed(LoopProcess(s, i, next), i)
  {}

  lemma FreedAtNextCall(s: Sys, i: nat, r: Request)
    requires Freed(s, i)
    ensures !HeldBack(BeforeRequest(s).main, r)
  {
    PopAllIsPop(s, i, |s.loops|);
  }

  predicate ByOthers(steps: seq<Step>, i: nat) {
    forall k | 0 <= k < |steps| ::
      (steps[k].LoopTakesMessage? || steps[k].LoopRuns?) && steps[k].loop != i
  }

  /** Other loops, whatever they do, stay out of it. */
  lemma {:induction false} OthersStayOut(s: Sys, i: nat, steps: seq<Step>)
    requires i < |s.loops| && OthersQuiet(s.loops, Some(i)) && CanPlay(s, steps) && ByOthers(steps, i)
    requires s.logger.owner in {None, Some(i)}
    ensures
      var e := Outcome(s, steps);
      && e.main == s.main && e.logger == s.logger && |e.loops| == |s.loops| && e.loops[i] == s.loops[i]
      && OthersQuiet(e.loops, Some(i))
    decreases |steps|
  {
    if steps != [] {
      OthersStayOut(Next(s, steps[0]), i, steps[1..]);
    }
  }

  /** Process calls of main and of the owner alternate, other loops run freely in between: a
      request that needs the logger and was held back twice is not held back again. The first
      of these calls may be the one that learns of the owner. */
  lemma ThirdCallPasses(s: Sys, h: Tags, i: nat, r: Request, a: seq<Step>, n: Report, b: seq<Step>, o: Report)
    requires Inv(s, h) && BeforeRequest(s).main.owner == Some(i) && NeedsLogger(r) && Servable(r)
    requires ByOthers(a, i) && ByOthers(b, i)
    requires CanPlay(AfterRequest(BeforeRequest(s), r), a)
    requires
      var s1 := Outcome(AfterRequest(BeforeRequest(s), r), a);
      && i < |s1.loops| && Enabled(Next(s1, LoopTakesMessage(i)), LoopRuns(i, n))
      && var s2 := LoopProcess(s1, i, n);
         && HeldBack(BeforeRequest(s2).main, r)
         && CanPlay(AfterRequest(BeforeRequest(s2), r), b)
         && var s3 := Outcome(AfterRequest(BeforeRequest(s2), r), b);
            i < |s3.loops| && Enabled(Next(s3, LoopTakesMessage(i)), LoopRuns(i, o))
    ensures
      var s1 := Outcome(AfterRequest(BeforeRequest(s), r), a);
      var s2 := LoopProcess(s1, i, n);
      var s3 := Outcome(AfterRequest(BeforeRequest(s2), r), b);
      !HeldBack(BeforeRequest(LoopProcess(s3, i, o)).main, r)
  {
    hide BeforeRequest, AfterRequest, LoopProcess, Next, Outcome, Inv, HeldBack, CanPlay, Enabled, ByOthers;
    FirstMainCall(s, h, i, r);
    var e1 := AfterRequest(BeforeRequest(s), r);
    OthersStayOut(e1, i, a);
    var s1 := Outcome(e1, a);
    var s2 := LoopProcess(s1, i, n);
    if Asked(s1, i) {
      LoopAsked(s1, i, n);
      FreedAtNextCall(s2, i, r);
    } else {
      LoopWaiting(s1, i, n);
      SecondMainCall(s2, h, i, r);
      var e2 := AfterRequest(BeforeRequest(s2), r);
      OthersStayOut(e2, i, b);
      var s3 := Outcome(e2, b);
      LoopAsked(s3, i, o);
      FreedAtNextCall(LoopProcess(s3, i, o), i, r);
    }
  }
}
