// Runs of the ownership machine as the program makes them: whole process calls of main and of
// every loop, with their steps interleaved anyhow.
module OwnershipCalls {
  import opened Wrappers
  import opened Ownership
  import opened OwnershipRuns

  /** Main is about to read the mailbox of loop `next`, or to run its logic when all are read,
      before or after it served a request; or it is about to serve one. */
  datatype MainAt = Reads(next: nat, served: bool) | Serves

  /** `taken`: the loops that have taken their message and not run the logger yet. */
  datatype At = At(main: MainAt, taken: set<nat>)

  const BETWEEN := At(Reads(0, false), {})

  /** A process call may come without a request to serve. */
  function Reading(at: MainAt): MainAt { if at.Serves? then Reads(0, true) else at }

  /** The next step, if the calls under way allow it. */
  function Follow(at: At, loops: nat, step: Step): Option<At> {
    match step
    case Pop(i) =>
      if Reading(at.main).next == i < loops then Some(at.(main := Reads(i + 1, Reading(at.main).served))) else None
    case RunLogic =>
      if Reading(at.main).next == loops
      then Some(at.(main := if Reading(at.main).served then Reads(0, false) else Serves))
      else None
    case Serve(_) => if at.main.Serves? then Some(at.(main := Reads(0, true))) else None
    case LoopTakesMessage(i) => if i !in at.taken then Some(at.(taken := at.taken + {i})) else None
    case LoopRuns(i, _) => if i in at.taken then Some(at.(taken := at.taken - {i})) else None
  }

  predicate Follows(m: Moment, at: At, step: Step) {
    Possible(m, step) && QuietTake(m.h, step) && Follow(at, |m.s.loops|, step).Some?
  }

  /** Where a quiet run that consists of process calls leads to. */
  function Travel(m: Moment, at: At, steps: seq<Step>): Option<(Moment, At)>
    decreases |steps|
  {
    if steps == [] then Some((m, at))
    else if !Follows(m, at, steps[0]) then None
    else Travel(Go(m, steps[0]), Follow(at, |m.s.loops|, steps[0]).value, steps[1..])
  }

  lemma {:induction false} TravelIsQuiet(m: Moment, at: At, steps: seq<Step>)
    requires Travel(m, at, steps).Some?
    ensures QuietRun(m, steps) && Play(m, steps) == Travel(m, at, steps).value.0
    decreases |steps|
  {
    hide Go, QuietTake, Possible, Follow;
    if steps != [] {
      TravelIsQuiet(Go(m, steps[0]), Follow(at, |m.s.loops|, steps[0]).value, steps[1..]);
    }
  }

  lemma Arrives(m: Moment, at: At)
    ensures Travel(m, at, []) == Some((m, at))
  {}

  lemma TravelOn(m: Moment, at: At, step: Step, rest: seq<Step>)
    requires Follows(m, at, step)
    ensures Travel(m, at, [step] + rest) == Travel(Go(m, step), Follow(at, |m.s.loops|, step).value, rest)
  {
    hide Go, Follows, Follow;
    assert ([step] + rest)[1..] == rest;
  }

  lemma {:induction false} TravelThrough(m: Moment, at: At, a: seq<Step>, b: seq<Step>)
    requires Travel(m, at, a).Some?
    ensures
      var (mid, there) := Travel(m, at, a).value;
      Travel(m, at, a + b) == Travel(mid, there, b)
    decreases |a|
  {
    hide Go, Possible, QuietTake, Follow;
    if a == [] {
      assert a + b == b;
    } else {
      TravelThrough(Go(m, a[0]), Follow(at, |m.s.loops|, a[0]).value, a[1..], b);
      assert (a + b)[1..] == a[1..] + b;
    }
  }

  // ----- Calls at a system of one loop -----

  predicate OneLoop(m: Moment) { |m.s.loops| == |m.h.message| == 1 }

  /** What main does before a request, and after it. */
  const READING: seq<Step> := [Pop(0), RunLogic]

  const IDLE_CALL: seq<Step> := READING + READING

  function WholeCall(r: Request): seq<Step> { READING + ([Serve(r)] + READING) }

  /** All of it but the last run of the logic. */
  function HalfCall(r: Request): seq<Step> { READING + ([Serve(r)] + [Pop(0)]) }

  function LoopCall(next: Report): seq<Step> { [LoopTakesMessage(0), LoopRuns(0, next)] }

  lemma GoKeepsShape(m: Moment, step: Step)
    requires OneLoop(m) && Possible(m, step)
    ensures OneLoop(Go(m, step))
  {
    hide Logic, Handle, TakeMessage, RunLogger, ReadMessage, Outgoing;
    LogicKeepsShape(m.s);
  }

  lemma LogicKeepsShape(s: Sys)
    ensures |Logic(s.main, s.logger, s.loops).1| == |s.loops|
  {}

  function AfterReading(m: Moment): (e: Moment)
    requires OneLoop(m)
    ensures OneLoop(e)
  {
    GoKeepsShape(m, Pop(0));
    GoKeepsShape(Go(m, Pop(0)), RunLogic);
    Go(Go(m, Pop(0)), RunLogic)
  }

  function AfterServing(m: Moment, r: Request): (e: Moment)
    requires OneLoop(m) && Servable(r)
    ensures OneLoop(e)
  {
    GoKeepsShape(m, Serve(r));
    AfterReading(Go(m, Serve(r)))
  }

  lemma ServingTravels(m: Moment, r: Request, taken: set<nat>)
    requires OneLoop(m) && Servable(r) && QuietTake(m.h, Serve(r))
    ensures Travel(m, At(Serves, taken), [Serve(r)] + READING) == Some((AfterServing(m, r), At(Reads(0, false), taken)))
  {
    hide Go, AfterReading, Travel;
    GoKeepsShape(m, Serve(r));
    ReadingTravels(Go(m, Serve(r)), true, taken);
    TravelOn(m, At(Serves, taken), Serve(r), READING);
  }

  /** A process call that nothing interrupts. */
  lemma CallTravels(m: Moment, r: Request, taken: set<nat>)
    requires OneLoop(m) && Servable(r) && QuietTake(AfterReading(m).h, Serve(r))
    ensures Travel(m, At(Reads(0, false), taken), WholeCall(r)) ==
            Some((AfterServing(AfterReading(m), r), At(Reads(0, false), taken)))
  {
    hide Go, AfterReading, AfterServing, Travel;
    ReadingTravels(m, false, taken);
    ServingTravels(AfterReading(m), r, taken);
    TravelThrough(m, At(Reads(0, false), taken), READING, [Serve(r)] + READING);
  }

  /** A process call up to its last run of the logic, if no loop has anything to say. */
  lemma HalfCallTravels(m: Moment, r: Request)
    requires OneLoop(m) && Servable(r) && QuietTake(AfterReading(m).h, Serve(r))
    requires Go(Go(AfterReading(m), Serve(r)), Pop(0)) == Go(AfterReading(m), Serve(r))
    ensures Travel(m, BETWEEN, HalfCall(r)) == Some((Go(AfterReading(m), Serve(r)), At(Reads(1, true), {})))
  {
    hide Go, AfterReading;
    ReadingTravels(m, false, {});
    var m2 := AfterReading(m);
    GoKeepsShape(m2, Serve(r));
    var m3 := Go(m2, Serve(r));
    TravelOn(m3, At(Reads(0, true), {}), Pop(0), []);
    TravelOn(m2, At(Serves, {}), Serve(r), [Pop(0)] + []);
    assert [Pop(0)] + [] == [Pop(0)];
    TravelThrough(m, BETWEEN, READING, [Serve(r)] + [Pop(0)]);
  }

  /** The last step of a process call. */
  lemma LogicTravels(m: Moment)
    requires OneLoop(m)
    ensures Travel(m, At(Reads(1, true), {}), [RunLogic]) == Some((Go(m, RunLogic), BETWEEN))
  {
    hide Go;
    TravelOn(m, At(Reads(1, true), {}), RunLogic, []);
    assert [RunLogic] + [] == [RunLogic];
  }

  lemma ReadingTravels(m: Moment, served: bool, taken: set<nat>)
    requires OneLoop(m)
    ensures Travel(m, At(Reads(0, served), taken), READING) ==
            Some((AfterReading(m), At(if served then Reads(0, false) else Serves, taken)))
  {
    hide Go;
    var at := At(Reads(0, served), taken);
    var m1 := Go(m, Pop(0));
    GoKeepsShape(m, Pop(0));
    var at1 := At(Reads(1, served), taken);
    TravelOn(m1, at1, RunLogic, []);
    TravelOn(m, at, Pop(0), [RunLogic] + []);
    assert [Pop(0)] + ([RunLogic] + []) == READING;
  }

  /** A process call without a request. */
  lemma IdleTravels(m: Moment, taken: set<nat>)
    requires OneLoop(m)
    ensures Travel(m, At(Reads(0, false), taken), IDLE_CALL) ==
            Some((AfterReading(AfterReading(m)), At(Reads(0, false), taken)))
  {
    hide Go;
    ReadingTravels(m, false, taken);
    var m2, at2 := AfterReading(m), At(Serves, taken);
    ReadingTravels(m2, true, taken);
    IdleIsReading(m2, taken);
    TravelThrough(m, At(Reads(0, false), taken), READING, READING);
  }

  lemma IdleIsReading(m: Moment, taken: set<nat>)
    requires OneLoop(m)
    ensures Travel(m, At(Serves, taken), READING) == Travel(m, At(Reads(0, true), taken), READING)
  {}

  predicate CanReport(m: Moment, next: Report)
    requires OneLoop(m)
  {
    GoKeepsShape(m, LoopTakesMessage(0));
    Possible(Go(m, LoopTakesMessage(0)), LoopRuns(0, next))
  }

  function AfterLoop(m: Moment, next: Report): (e: Moment)
    requires OneLoop(m) && CanReport(m, next)
    ensures OneLoop(e)
  {
    GoKeepsShape(m, LoopTakesMessage(0));
    GoKeepsShape(Go(m, LoopTakesMessage(0)), LoopRuns(0, next));
    Go(Go(m, LoopTakesMessage(0)), LoopRuns(0, next))
  }

  /** A process call of the loop that nothing interrupts. */
  lemma LoopTravels(m: Moment, main: MainAt, next: Report)
    requires OneLoop(m) && CanReport(m, next)
    ensures Travel(m, At(main, {}), LoopCall(next)) == Some((AfterLoop(m, next), At(main, {})))
  {
    hide Go;
    var m1 := Go(m, LoopTakesMessage(0));
    GoKeepsShape(m, LoopTakesMessage(0));
    assert {} + {0} == {0} && {0} - {0} == {};
    TravelOn(m1, At(main, {0}), LoopRuns(0, next), []);
    TravelOn(m, At(main, {}), LoopTakesMessage(0), [LoopRuns(0, next)] + []);
    assert LoopCall(next) == [LoopTakesMessage(0)] + ([LoopRuns(0, next)] + []);
  }
}
