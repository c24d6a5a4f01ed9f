// Who owns the datalogger. The main handler hands it to a loop and takes it back through two
// single-slot mailboxes per loop; every interleaving of their steps is a run of this machine.
module Ownership {
  import opened Wrappers
  import opened Protocol
  import opened Acquisition
  import opened Datalogging

  datatype ToLoop = Take | Arm | Disarm | Release
  datatype ToMain = Taken | Released | DataAcquired | StatusUpdate(report: Report)

  /** Logger state with the bytes to log from trigger to completion and those logged so far. */
  datatype Report = Report(state: LoggerState, needed: nat, logged: nat)

  /** Outside a triggered acquisition the byte counts are reported as zero. */
  function Visible(r: Report): Report { if r.state == Triggered then r else Report(r.state, 0, 0) }

  datatype Fault = NoFault | UnexpectedClaim | UnexpectedRelease

  /** A loop's two mailboxes and its own flags. */
  datatype Loop = Loop(inbox: Option<ToLoop>, outbox: Option<ToMain>, dataAcquired: bool, allowed: bool)

  /** The logger as far as ownership goes. */
  datatype Logger = Logger(owner: Option<nat>, state: LoggerState, valid: bool)

  /** The datalogging members of the main handler. */
  datatype Main = Main(
    owner: Option<nat>, newOwner: Option<nat>, fault: Fault,
    arm: bool, disarm: bool, release: bool, pending: bool,
    seen: Report, reading: bool)

  /** A configuration request carries the verdicts of its decoding, of the region and published
      value checks, and of the logger itself. */
  datatype Request =
    | Configure(loop: nat, decoding: Code, checks: Code, acceptable: bool)
    | ArmTrigger | DisarmTrigger | ResetDatalogger | GetStatus | GetMetadata | ReadAcquisition(last: bool)

  // ----- One side at a time -----

  function ResetLogger(d: Logger): Logger { d.(state := Idle, valid := false) }

  /** The loop answers one message, if it has one and room to answer. */
  function TakeMessage(l: Loop, d: Logger, self: nat): (Loop, Logger) {
    if l.inbox.None? || l.outbox.Some? then (l, d)
    else
      var popped := l.(inbox := None);
      match l.inbox.value
      case Take => (popped.(dataAcquired := false, outbox := Some(Taken)), d.(owner := Some(self)))
      case Arm => (popped, if d.owner == Some(self) then d.(state := ArmedFrom(d.state)) else d)
      case Disarm => (popped, if d.owner == Some(self) then d.(state := DisarmedFrom(d.state)) else d)
      case Release =>
        if d.owner == Some(self) then (popped.(outbox := Some(Released)), d.(owner := None)) else (popped, d)
  }

  /** The owner runs the logger, which ends up in `next`, and reports. */
  function RunLogger(l: Loop, d: Logger, self: nat, next: Report): (Loop, Logger) {
    if d.owner != Some(self) then (l, d)
    else
      (if l.outbox.Some? then l
       else if next.state == Completed && !l.dataAcquired then l.(outbox := Some(DataAcquired), dataAcquired := true)
       else l.(outbox := Some(StatusUpdate(Visible(next)))),
       d.(state := next.state))
  }

  /** The main handler reads one message of loop `sender`. */
  function ReadMessage(m: Main, d: Logger, sender: nat, message: ToMain): (Main, Logger) {
    match message
    case Taken => (m.(owner := Some(sender), fault := if m.owner.Some? then UnexpectedClaim else m.fault), d)
    case Released =>
      (m.(owner := None, pending := false, fault := if m.owner != Some(sender) then UnexpectedRelease else m.fault),
       ResetLogger(d))
    case DataAcquired => (m, d)
    case StatusUpdate(report) => (m.(seen := report, reading := m.reading && report.state == Completed), d)
  }

  /** What the main handler's logic would send, and to whom. */
  function Outgoing(m: Main): Option<(nat, ToLoop)> {
    match m.owner
    case None => if m.newOwner.Some? then Some((m.newOwner.value, Take)) else None
    case Some(i) =>
      if m.release then Some((i, Release))
      else if m.arm then Some((i, Arm))
      else if m.disarm then Some((i, Disarm))
      else None
  }

  function AfterSending(m: Main, message: ToLoop): Main {
    match message
    case Take => m.(newOwner := None)
    case Release => m.(release := false, pending := true)
    case Arm => m.(arm := false)
    case Disarm => m.(disarm := false)
  }

  predicate Sends(m: Main, loops: seq<Loop>) {
    && m.fault == NoFault
    && var out := Outgoing(m);
       out.Some? && out.value.0 < |loops| && loops[out.value.0].inbox.None?
  }

  function Logic(m: Main, d: Logger, loops: seq<Loop>): (Main, seq<Loop>) {
    if m.fault != NoFault then (m, loops)
    else
      var seen := if m.owner.None? then m.(seen := m.seen.(state := d.state), arm := false, disarm := false) else m;
      if !Sends(m, loops) then (seen, loops)
      else
        var (i, message) := Outgoing(m).value;
        (AfterSending(seen, message), loops[i := loops[i].(inbox := Some(message))])
  }

  /** Requests that need the logger back wait until it is. */
  predicate NeedsLogger(r: Request) { r.Configure? || r.ResetDatalogger? }

  predicate HeldBack(m: Main, r: Request) { NeedsLogger(r) && m.owner.Some? }

  function Verdict(loops: seq<Loop>, r: Request): Code
    requires r.Configure?
  {
    if r.decoding != Ok then r.decoding
    else if r.loop >= |loops| then FailureToProceed
    else if !loops[r.loop].allowed then Forbidden
    else if r.checks != Ok then r.checks
    else if !r.acceptable then InvalidRequest
    else Ok
  }

  function Handle(m: Main, d: Logger, loops: seq<Loop>, r: Request): (Main, Logger, Code) {
    match r
    case Configure(i, _, _, _) =>
      var stopped := m.(reading := false);
      if HeldBack(m, r) then (stopped.(release := m.release || !m.pending), d, ProcessAgain)
      else if Verdict(loops, r) == Ok then (stopped.(newOwner := Some(i)), d.(state := Configured, valid := true), Ok)
      else (stopped, if Verdict(loops, r) == ProcessAgain then d else ResetLogger(d), Verdict(loops, r))
    case ResetDatalogger =>
      if HeldBack(m, r) then (m.(release := m.release || !m.pending), d, ProcessAgain)
      else (m, ResetLogger(d), Ok)
    case ArmTrigger => if m.owner.None? || m.pending then (m, d, FailureToProceed) else (m.(arm := true), d, Ok)
    case DisarmTrigger => if m.owner.None? || m.pending then (m, d, FailureToProceed) else (m.(disarm := true), d, Ok)
    case GetStatus => (m, d, Ok)
    case GetMetadata => (m, d, if m.seen.state == Completed then Ok else FailureToProceed)
    case ReadAcquisition(last) =>
      if m.owner.None? then (m, d, FailureToProceed)
      else if m.seen.state == Completed then (m.(reading := !last), d, Ok)
      else (m.(reading := false), d, FailureToProceed)
  }

  // ----- The whole system -----

  datatype Sys = Sys(main: Main, logger: Logger, loops: seq<Loop>)

  datatype Step =
    | Pop(loop: nat) | RunLogic | Serve(request: Request)
    | LoopTakesMessage(loop: nat) | LoopRuns(loop: nat, next: Report)

  /** A decoding or a check never asks to be processed again. */
  predicate Servable(r: Request) { r.Configure? ==> ProcessAgain !in {r.decoding, r.checks} }

  predicate Enabled(s: Sys, step: Step) {
    match step
    case Pop(i) => i < |s.loops|
    case RunLogic => true
    case Serve(r) => Servable(r)
    case LoopTakesMessage(i) => i < |s.loops|
    case LoopRuns(i, next) => i < |s.loops| && ProcessMoves(s.logger.state, next.state)
  }

  function Next(s: Sys, step: Step): Sys
    requires Enabled(s, step)
  {
    match step
    case Pop(i) =>
      var l := s.loops[i];
      if l.outbox.None? then s
      else
        var (m, d) := ReadMessage(s.main, s.logger, i, l.outbox.value);
        Sys(m, d, s.loops[i := l.(outbox := None)])
    case RunLogic =>
      var (m, loops) := Logic(s.main, s.logger, s.loops);
      s.(main := m, loops := loops)
    case Serve(r) =>
      var (m, d, _) := Handle(s.main, s.logger, s.loops, r);
      s.(main := m, logger := d)
    case LoopTakesMessage(i) =>
      var (l, d) := TakeMessage(s.loops[i], s.logger, i);
      s.(loops := s.loops[i := l], logger := d)
    case LoopRuns(i, next) =>
      var (l, d) := RunLogger(s.loops[i], s.logger, i, next);
      s.(loops := s.loops[i := l], logger := d)
  }

  const NOTHING_SEEN := Report(Idle, 0, 0)
  const IDLE_LOOP := Loop(None, None, false, true)

  predicate Init(s: Sys) {
    && s.main == Main(None, None, NoFault, false, false, false, false, NOTHING_SEEN, false)
    && s.logger == Logger(None, Idle, false)
    && forall i | 0 <= i < |s.loops| :: s.loops[i].(allowed := true) == IDLE_LOOP
  }

  // ----- History: the hand-over under way and the ownership periods -----

  /** `take`: the loop that was sent TAKE and whose TAKEN was not read yet. Periods count the
      TAKENs read by main and the TAKEs obeyed by loops; `arm`, `disarm` and `message` give
      the period in which the standing request, or the message in an inbox, was accepted. */
  datatype Tags = Tags(
    take: Option<nat>, mainPeriod: nat, loopPeriod: nat, arm: nat, disarm: nat, message: seq<nat>)

  function Track(h: Tags, s: Sys, step: Step): Tags
    requires Enabled(s, step) && |h.message| == |s.loops|
  {
    match step
    case Pop(i) =>
      if s.loops[i].outbox == Some(Taken) then h.(take := None, mainPeriod := h.mainPeriod + 1) else h
    case RunLogic =>
      if !Sends(s.main, s.loops) then h
      else
        var (i, message) := Outgoing(s.main).value;
        if message.Take? then h.(take := Some(i))
        else if message.Release? then h
        else h.(message := h.message[i := if message.Arm? then h.arm else h.disarm])
    case Serve(r) =>
      if Handle(s.main, s.logger, s.loops, r).2 != Ok then h
      else if r.ArmTrigger? then h.(arm := h.mainPeriod)
      else if r.DisarmTrigger? then h.(disarm := h.mainPeriod)
      else h
    case LoopTakesMessage(i) =>
      if s.loops[i].inbox == Some(Take) && s.loops[i].outbox.None? then h.(loopPeriod := h.loopPeriod + 1) else h
    case LoopRuns(_, _) => h
  }

  /** No Configure and no Reset is handled while a hand-over is under way. */
  predicate QuietTake(h: Tags, step: Step) {
    step.Serve? && NeedsLogger(step.request) ==> h.take.None?
  }

  // ----- The invariant -----

  /** A loop out of the hand-over: nothing to say, at most a stale arm or disarm to hear. */
  predicate Quiet(l: Loop) { l.outbox.None? && (l.inbox.None? || Toggles(l.inbox.value)) }

  predicate Toggles(message: ToLoop) { message.Arm? || message.Disarm? }

  predicate OthersQuiet(loops: seq<Loop>, busy: Option<nat>) {
    forall j | 0 <= j < |loops| && busy != Some(j) :: Quiet(loops[j])
  }

  /** Nobody owns the logger and no hand-over is under way. */
  predicate Free(s: Sys, h: Tags) {
    && s.main.owner.None? && s.logger.owner.None? && h.take.None? && h.mainPeriod == h.loopPeriod
    && !s.main.pending && !s.main.release
    && (s.main.newOwner.Some? ==> s.main.newOwner.value < |s.loops|)
    && OthersQuiet(s.loops, None)
  }

  /** Loop `i` was sent TAKE, and either has it still or has answered TAKEN. */
  predicate Taking(s: Sys, h: Tags, i: nat) {
    && s.main.owner.None? && h.take == Some(i) && i < |s.loops|
    && !s.main.pending && !s.main.release && !s.main.arm && !s.main.disarm && s.main.newOwner.None?
    && OthersQuiet(s.loops, h.take)
    && if s.logger.owner.None? then
         s.loops[i].inbox == Some(Take) && s.loops[i].outbox.None? && h.mainPeriod == h.loopPeriod
       else
         && s.logger.owner == Some(i) && s.loops[i].inbox.None? && s.loops[i].outbox == Some(Taken)
         && h.mainPeriod + 1 == h.loopPeriod
  }

  /** Main and logger agree that loop `i` owns, or its RELEASED is on the way. */
  predicate Owned(s: Sys, h: Tags, i: nat) {
    && s.main.owner == Some(i) && i < |s.loops| == |h.message| && h.take.None? && h.mainPeriod == h.loopPeriod
    && s.main.newOwner.None? && !(s.main.release && s.main.pending)
    && OthersQuiet(s.loops, s.main.owner)
    && (s.main.arm ==> h.arm == h.mainPeriod) && (s.main.disarm ==> h.disarm == h.mainPeriod)
    && (s.loops[i].inbox.Some? && Toggles(s.loops[i].inbox.value) ==> h.message[i] == h.mainPeriod)
    && s.loops[i].inbox != Some(Take) && s.loops[i].outbox != Some(Taken)
    && if s.logger.owner.Some? then
         s.logger.owner == Some(i) && s.loops[i].outbox != Some(Released)
         && (s.main.pending <==> s.loops[i].inbox == Some(Release))
       else
         s.main.pending && s.loops[i].outbox == Some(Released) && s.loops[i].inbox != Some(Release)
  }

  predicate Inv(s: Sys, h: Tags) {
    && |h.message| == |s.loops| && s.main.fault == NoFault
    && match s.main.owner
       case Some(i) => Owned(s, h, i)
       case None => if h.take.None? then Free(s, h) else Taking(s, h, h.take.value)
  }

  lemma InitInv(s: Sys, h: Tags)
    requires Init(s) && |h.message| == |s.loops| && h.take.None? && h.mainPeriod == h.loopPeriod
    ensures Inv(s, h)
  {
    forall j | 0 <= j < |s.loops|
      ensures Quiet(s.loops[j])
    {
      assert s.loops[j].(allowed := true) == IDLE_LOOP;
    }
  }

  lemma PopKeeps(s: Sys, h: Tags, i: nat)
    requires Inv(s, h) && i < |s.loops|
    ensures Inv(Next(s, Pop(i)), Track(h, s, Pop(i)))
  {}

  lemma LogicKeeps(s: Sys, h: Tags)
    requires Inv(s, h)
    ensures Inv(Next(s, RunLogic), Track(h, s, RunLogic))
  {}

  lemma ServeKeeps(s: Sys, h: Tags, r: Request)
    requires Inv(s, h) && Enabled(s, Serve(r)) && QuietTake(h, Serve(r))
    ensures Inv(Next(s, Serve(r)), Track(h, s, Serve(r)))
  {}

  lemma TakeMessageKeeps(s: Sys, h: Tags, i: nat)
    requires Inv(s, h) && i < |s.loops|
    ensures Inv(Next(s, LoopTakesMessage(i)), Track(h, s, LoopTakesMessage(i)))
  {}

  lemma LoopRunsKeeps(s: Sys, h: Tags, i: nat, next: Report)
    requires Inv(s, h) && Enabled(s, LoopRuns(i, next))
    ensures Inv(Next(s, LoopRuns(i, next)), Track(h, s, LoopRuns(i, next)))
  {}
}
