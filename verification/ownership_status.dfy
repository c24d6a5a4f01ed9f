// What main knows of an acquisition: the status it holds, the one announcement of new data per
// ownership period, and whether a transfer goes on.
module OwnershipStatus {
  import opened Wrappers
  import opened Acquisition
  import opened Ownership
  import opened OwnershipRuns

  /** `sent` is the status that the owner saw when it made its last report, `known` the one that
      main last read, or saw itself; `told`: the owner said, since it took the logger, that data
      were acquired; `transfer`: some of the log was sent, the rest was not, and nothing came
      between. */
  datatype News = News(sent: Report, known: Report, told: bool, transfer: bool)

  const NO_NEWS := News(NOTHING_SEEN, NOTHING_SEEN, false, false)

  /** The status of a logger in that state, with byte counts only while triggered. */
  function Status(state: LoggerState, next: Report): Report {
    if state == Triggered then Report(Triggered, next.needed, next.logged) else Report(state, 0, 0)
  }

  predicate Says(s: Sys, step: Step, i: nat, message: ToMain)
    requires Enabled(s, step)
  {
    && i < |s.loops| == |Next(s, step).loops|
    && s.loops[i].outbox.None? && Next(s, step).loops[i].outbox == Some(message)
  }

  /** A Configure, a status other than completed, or a transfer request that is answered with the
      end of the log or refused. */
  predicate EndsTransfer(s: Sys, step: Step) {
    match step
    case Serve(Configure(_, _, _, _)) => true
    case Serve(ReadAcquisition(last)) => s.main.owner.Some? && (last || s.main.seen.state != Completed)
    case Pop(i) =>
      && i < |s.loops| && s.loops[i].outbox.Some? && s.loops[i].outbox.value.StatusUpdate?
      && s.loops[i].outbox.value.report.state != Completed
    case _ => false
  }

  /** A transfer request that is answered with more to come. */
  predicate GoesOn(s: Sys, step: Step) {
    step == Serve(ReadAcquisition(false)) && s.main.owner.Some? && s.main.seen.state == Completed
  }

  function Learn(n: News, s: Sys, step: Step): News
    requires Enabled(s, step)
  {
    var transfer := if EndsTransfer(s, step) then false else GoesOn(s, step) || n.transfer;
    match step
    case Pop(i) =>
      var read := s.loops[i].outbox;
      if read.Some? && read.value.StatusUpdate? then n.(known := n.sent, transfer := transfer) else n.(transfer := transfer)
    case RunLogic => if s.main.owner.None? then n.(known := n.known.(state := s.logger.state)) else n
    case Serve(_) => n.(transfer := transfer)
    case LoopTakesMessage(i) => if Obeys(s, i, Take) then n.(told := false) else n
    case LoopRuns(i, next) =>
      if s.logger.owner != Some(i) then n
      else if Says(s, step, i, DataAcquired) then n.(told := true)
      else if s.loops[i].outbox.None? then n.(sent := Status(Next(s, step).logger.state, next))
      else n
  }

  function LearnAll(n: News, m: Moment, steps: seq<Step>): News
    requires QuietRun(m, steps)
    decreases |steps|
  {
    if steps == [] then n else LearnAll(Learn(n, m.s, steps[0]), Go(m, steps[0]), steps[1..])
  }

  /** What main and the loops hold is the news. */
  predicate Current(s: Sys, n: News) {
    && s.main.seen == n.known && s.main.reading == n.transfer
    && (forall i | 0 <= i < |s.loops| && s.loops[i].outbox.Some? && s.loops[i].outbox.value.StatusUpdate? ::
          s.loops[i].outbox.value.report == n.sent)
    && (s.logger.owner.Some? && s.logger.owner.value < |s.loops| ==> s.loops[s.logger.owner.value].dataAcquired == n.told)
  }

  lemma PopNews(s: Sys, h: Tags, i: nat, n: News)
    requires Inv(s, h) && i < |s.loops| && Current(s, n)
    ensures Current(Next(s, Pop(i)), Learn(n, s, Pop(i)))
  {}

  lemma LogicNews(s: Sys, h: Tags, n: News)
    requires Inv(s, h) && Current(s, n)
    ensures Current(Next(s, RunLogic), Learn(n, s, RunLogic))
  {}

  lemma ServeNews(s: Sys, h: Tags, r: Request, n: News)
    requires Inv(s, h) && Servable(r) && Current(s, n)
    ensures Current(Next(s, Serve(r)), Learn(n, s, Serve(r)))
  {
    hide Verdict;
  }

  lemma TakeNews(s: Sys, h: Tags, i: nat, n: News)
    requires Inv(s, h) && i < |s.loops| && Current(s, n)
    ensures Current(Next(s, LoopTakesMessage(i)), Learn(n, s, LoopTakesMessage(i)))
  {}

  lemma LoopNews(s: Sys, h: Tags, i: nat, next: Report, n: News)
    requires Inv(s, h) && Enabled(s, LoopRuns(i, next)) && Current(s, n)
    ensures Current(Next(s, LoopRuns(i, next)), Learn(n, s, LoopRuns(i, next)))
  {}

  lemma {:induction false} RunNews(m: Moment, steps: seq<Step>, n: News)
    requires Inv(m.s, m.h) && QuietRun(m, steps) && Current(m.s, n)
    ensures Inv(Play(m, steps).s, Play(m, steps).h) && Current(Play(m, steps).s, LearnAll(n, m, steps))
    decreases |steps|
  {
    hide Inv, Next, Track, Enabled, QuietTake, Learn, Current;
    if steps != [] {
      GoKeeps(m, steps[0]);
      StepNews(m, steps[0], n);
      RunNews(Go(m, steps[0]), steps[1..], Learn(n, m.s, steps[0]));
    }
  }

  lemma StepNews(m: Moment, step: Step, n: News)
    requires Inv(m.s, m.h) && Possible(m, step) && Current(m.s, n)
    ensures Current(Next(m.s, step), Learn(n, m.s, step))
  {
    hide Inv, Next, Learn, Current;
    match step
    case Pop(i) => PopNews(m.s, m.h, i, n);
    case RunLogic => LogicNews(m.s, m.h, n);
    case Serve(r) => ServeNews(m.s, m.h, r, n);
    case LoopTakesMessage(i) => TakeNews(m.s, m.h, i, n);
    case LoopRuns(i, next) => LoopNews(m.s, m.h, i, next, n);
  }

  /** In every quiet run, the status that main holds is the one that the logger had when the last
      report that main read was made, or when main last saw it itself; and main takes a transfer
      to go on exactly if some response left more to come and nothing ended the transfer since. */
  lemma StatusWasTrue(m: Moment, steps: seq<Step>)
    requires Start(m) && QuietRun(m, steps)
    ensures
      var e, n := Play(m, steps).s, LearnAll(NO_NEWS, m, steps);
      e.main.seen == n.known && (e.main.reading <==> n.transfer)
  {
    hide Play, QuietRun, LearnAll, Inv;
    StartNews(m);
    RunNews(m, steps, NO_NEWS);
  }

  lemma StartNews(m: Moment)
    requires Start(m)
    ensures Inv(m.s, m.h) && Current(m.s, NO_NEWS)
  {
    InitInv(m.s, m.h);
    hide Inv;
    forall i | 0 <= i < |m.s.loops|
      ensures m.s.loops[i].outbox.None? && !m.s.loops[i].dataAcquired
    {
      assert m.s.loops[i].(allowed := true) == IDLE_LOOP;
    }
  }

  /** In every quiet run, an owner with room to speak says that data were acquired exactly if the
      logger is completed and it has not said so since it took the logger; so a completed status
      is never the first that main hears. Otherwise it reports the status. */
  lemma AnnouncedOnce(m: Moment, steps: seq<Step>, i: nat, next: Report)
    requires Start(m) && QuietRun(m, steps) && Enabled(Play(m, steps).s, LoopRuns(i, next))
    requires Play(m, steps).s.logger.owner == Some(i) && Play(m, steps).s.loops[i].outbox.None?
    ensures
      var e, n := Play(m, steps).s, LearnAll(NO_NEWS, m, steps);
      if next.state == Completed && !n.told then Says(e, LoopRuns(i, next), i, DataAcquired)
      else Says(e, LoopRuns(i, next), i, StatusUpdate(Status(next.state, next)))
  {
    hide Play, QuietRun, LearnAll, Inv;
    StartNews(m);
    RunNews(m, steps, NO_NEWS);
  }
}
