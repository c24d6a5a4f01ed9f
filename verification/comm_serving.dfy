// What the main handler does with a stored request: serving it, asking for it again, answering
// it, and getting ready for the next one.
module CommServing {
  import opened Words
  import opened Wrappers
  import opened Timebase
  import opened CommReceive
  import opened CommLink
  import opened CommLine
  import S = CommSession

  /** SCRUTINY_REQUEST_MAX_PROCESS_TIME_US in steps of 100 ns. */
  const MAX_PROCESS_TIME_100NS := 1_000_000

  const HEARTBEAT: byte := 2
  const DISCONNECT: byte := 5
  const DATALOG_CONTROL: byte := 5
  const RESET_DATALOGGER: byte := 8

  /** The line with the session, and the main handler's flags: a request is being answered, a
      disconnect is to follow the answer, and when a request was first asked for again. */
  datatype Port = Port(line: Line, session: S.Session, counter: u32, answering: bool, disconnect: bool, again: Option<u32>)

  /** What serving a request comes to. */
  datatype Outcome = TryAgain | NoResponse | Reply(length: nat)

  /** Buffer sizes. */
  datatype Sizes = Sizes(rx: nat, tx: nat)

  function Config(k: Sizes, p: Port): RxConfig { RxConfig(k.rx, p.session.active) }

  /** Only a datalogging request is ever asked for again, and a CommControl request is always
      answered. */
  predicate Legal(rx: Rx, o: Outcome) {
    (o.TryAgain? ==> rx.command == DATALOG_CONTROL) && (rx.command == COMM_CONTROL ==> o.Reply?)
  }

  // ----- One process call -----

  predicate Opens(p: Port) {
    && p.line.rx.command == COMM_CONTROL && p.line.rx.subfunction == CONNECT
    && |p.line.rx.payload| == 4 && !p.session.active
  }

  predicate Names(p: Port, length: nat) {
    && p.line.rx.command == COMM_CONTROL && |p.line.rx.payload| == length >= 4
    && Word32(p.line.rx.payload[..4]) == p.session.id
  }

  /** What the stored request does to session and line. */
  function Execute(p: Port, now: u32): Port {
    if Opens(p) then
      p.(session := S.Opened(p.session, p.counter, now), counter := (p.counter + 1) % 0x1_0000_0000,
         line := Restarted(p.line, now))
    else if p.line.rx.subfunction == HEARTBEAT && Names(p, 6) then
      p.(session := S.Beat(p.session, Word16(p.line.rx.payload[4..]), now))
    else if p.line.rx.subfunction == DISCONNECT && Names(p, 4) && p.session.active then p.(disconnect := true)
    else p
  }

  /** The request was asked for again for too long. */
  predicate GivesUp(p: Port, now: u32) { p.again.Some? && HasExpired(now, p.again.value, MAX_PROCESS_TIME_100NS) }

  /** The length of the response to send, if there is one. */
  function Due(p: Port, o: Outcome, now: u32): Option<nat> {
    match o
    case TryAgain => if GivesUp(p, now) then Some(0) else None
    case NoResponse => None
    case Reply(length) => Some(length)
  }

  function Send(k: Sizes, p: Port, length: nat): Port {
    if SendVerdict(true, p.line.link, length, k.tx) == NoTxError then p.(line := p.line.(link := Transmitting)) else p
  }

  function Answer(k: Sizes, p: Port, o: Outcome, now: u32): Port {
    var q := Execute(p, now);
    if Due(p, o, now).Some? then Send(k, q, Due(p, o, now).value).(answering := true)
    else if o.NoResponse? then q.(answering := true)
    else if q.again.None? then q.(again := Some(now))
    else q
  }

  function CheckFinished(p: Port, now: u32): Port {
    if !p.answering || p.line.link == Transmitting then p
    else
      var q := p.(line := Restarted(p.line, now), answering := false, again := None);
      if q.disconnect then q.(session := S.Closed(q.session), line := Line(FRESH, Idle, now), disconnect := false) else q
  }

  function Tick(p: Port, now: u32): Port {
    if S.TimedOut(p.session, now) then p.(session := S.Fresh(now), line := Line(FRESH, Idle, now)) else p
  }

  function Call(k: Sizes, p: Port, o: Outcome, now: u32): Port {
    var t := Tick(p, now);
    CheckFinished(if t.line.rx.requestReceived && !t.answering then Answer(k, t, o, now) else t, now)
  }

  // ----- Runs -----

  /** A chunk arrives, a process call comes, or the last byte of a response leaves. */
  datatype Event = Comes(arrival: Arrival) | Process(outcome: Outcome, now: u32) | Sent(now: u32)

  predicate Possible(p: Port, e: Event) {
    match e
    case Comes(_) => true
    case Process(o, _) => Legal(p.line.rx, o)
    case Sent(_) => p.line.link == Transmitting
  }

  function After(k: Sizes, p: Port, e: Event): Port {
    match e
    case Comes(a) => p.(line := Arrive(Config(k, p), p.line, a))
    case Process(o, now) => Call(k, p, o, now)
    case Sent(now) => CheckFinished(p.(line := Line(FRESH, Idle, now)), now)
  }

  predicate CanRun(k: Sizes, p: Port, events: seq<Event>)
    decreases |events|
  {
    events == [] || (Possible(p, events[0]) && CanRun(k, After(k, p, events[0]), events[1..]))
  }

  function AfterAll(k: Sizes, p: Port, events: seq<Event>): Port
    decreases |events|
  {
    if events == [] then p else AfterAll(k, After(k, p, events[0]), events[1..])
  }

  /** A response is on its way exactly while one is being answered. */
  predicate Settled(p: Port) {
    (p.answering <==> p.line.link == Transmitting) && (p.disconnect ==> p.answering)
  }

  lemma AfterSettles(k: Sizes, p: Port, e: Event)
    requires Settled(p) && Possible(p, e)
    ensures Settled(After(k, p, e))
  {
    hide Feed, CompletesFrame, HasExpired, S.Beat, Word32, Word16;
  }

  lemma {:induction false} RunSettles(k: Sizes, p: Port, events: seq<Event>)
    requires Settled(p) && CanRun(k, p, events)
    ensures Settled(AfterAll(k, p, events))
    decreases |events|
  {
    hide After, Possible;
    if events != [] {
      AfterSettles(k, p, events[0]);
      RunSettles(k, After(k, p, events[0]), events[1..]);
    }
  }

  lemma SentIdles(k: Sizes, p: Port, now: u32)
    ensures After(k, p, Sent(now)).line == Line(FRESH, Idle, now)
  {}

  /** In any run, the last byte of a response leaves a handler that is ready for a request. */
  lemma SentMeansReady(k: Sizes, p: Port, events: seq<Event>, now: u32)
    requires Settled(p) && CanRun(k, p, events) && AfterAll(k, p, events).line.link == Transmitting
    ensures
      var e := After(k, AfterAll(k, p, events), Sent(now));
      && e.line == Line(FRESH, Idle, now) && !e.answering && !e.disconnect && e.again.None?
      && (e.session.active <==> AfterAll(k, p, events).session.active && !AfterAll(k, p, events).disconnect)
  {
    RunSettles(k, p, events);
  }

  // ----- Whether a stored request is answered -----

  /** A stored request waits: chunks come in time, and process calls ask for it again. */
  predicate Waits(k: Sizes, p: Port, events: seq<Event>)
    decreases |events|
  {
    events == [] ||
    ((match events[0]
      case Comes(a) => !TooLate(p.line.last, a)
      case Process(o, now) =>
        o.TryAgain? && Legal(p.line.rx, o) && !S.TimedOut(p.session, now) && !GivesUp(p, now)
      case Sent(_) => false)
     && Waits(k, After(k, p, events[0]), events[1..]))
  }

  /** No byte comes. */
  predicate NothingComes(events: seq<Event>) {
    forall i | 0 <= i < |events| && events[i].Comes? :: events[i].arrival.data == []
  }

  /** When a process call first asked for the request again. */
  function FirstAgain(again: Option<u32>, events: seq<Event>): Option<u32>
    decreases |events|
  {
    if again.Some? || events == [] then again
    else FirstAgain(if events[0].Process? then Some(events[0].now) else None, events[1..])
  }

  /** What waits stays: the request, the session, and the link until a byte comes. */
  lemma {:induction false} WaitingStays(k: Sizes, p: Port, events: seq<Event>)
    requires p.line.rx.requestReceived && !p.answering && p.line.link != Transmitting && Waits(k, p, events)
    ensures
      var e := AfterAll(k, p, events);
      && e == p.(line := Line(p.line.rx, if NothingComes(events) then p.line.link else Receiving, e.line.last),
                 again := FirstAgain(p.again, events))
    decreases |events|
  {
    hide Feed, CompletesFrame, HasExpired, Arrive, Word16, Word32;
    if events != [] {
      var next, rest := After(k, p, events[0]), events[1..];
      WaitingStep(k, p, events[0]);
      WaitingStays(k, next, rest);
      assert forall i | 0 < i < |events| :: events[i] == rest[i - 1];
      assert forall i | 0 <= i < |rest| :: rest[i] == events[i + 1];
    }
  }

  lemma WaitingStep(k: Sizes, p: Port, e: Event)
    requires p.line.rx.requestReceived && !p.answering && p.line.link != Transmitting && Waits(k, p, [e])
    ensures
      var next := After(k, p, e);
      && next.line.rx == p.line.rx && next.session == p.session && next.counter == p.counter
      && !next.answering && next.disconnect == p.disconnect
      && next.line.link == (if e.Comes? && e.arrival.data != [] then Receiving else p.line.link)
      && next.again == if e.Process? && p.again.None? then Some(e.now) else p.again
  {
    hide Feed, CompletesFrame, HasExpired, Word16, Word32;
    if e.Comes? {
      RestIgnored(Config(k, p), p.line.rx, e.arrival.data);
    }
  }

  /** A request is stored with the link idle, chunks come in time and process calls ask for it
      again. The next process call sends a response if and only if the session has not timed out,
      there is a response and it fits, and no byte came since or the request is the Connect that
      opens a session. Otherwise the request is kept if it is asked for again, and dropped if not. */
  lemma AnsweredIff(k: Sizes, p: Port, waits: seq<Event>, o: Outcome, now: u32)
    requires p.line.rx.requestReceived && !p.answering && p.line.link == Idle && Waits(k, p, waits)
    requires Legal(p.line.rx, o)
    ensures
      var q := AfterAll(k, p, waits);
      var due, e := Due(q, o, now), Call(k, q, o, now);
      && q.again == FirstAgain(p.again, waits)
      && (e.line.link == Transmitting <==>
          !S.TimedOut(p.session, now) && due.Some? && due.value <= k.tx && (NothingComes(waits) || Opens(p)))
      && (e.line.link != Transmitting ==>
          if !S.TimedOut(p.session, now) && o.TryAgain? && due.None? then e.line == q.line && e.again.Some?
          else e.line == Line(FRESH, Idle, now) && !e.answering)
  {
    hide Feed, CompletesFrame, HasExpired, S.Beat, Word16, Word32, AfterAll, Waits, NothingComes, FirstAgain;
    WaitingStays(k, p, waits);
  }

  // ----- Whole exchanges -----

  function Chunks(arrivals: seq<Arrival>): (events: seq<Event>)
    ensures |events| == |arrivals|
  {
    seq(|arrivals|, i requires 0 <= i < |arrivals| => Comes(arrivals[i]))
  }

  lemma {:induction false} ChunksArrive(k: Sizes, p: Port, arrivals: seq<Arrival>)
    ensures AfterAll(k, p, Chunks(arrivals)) == p.(line := ArriveAll(Config(k, p), p.line, arrivals))
    ensures CanRun(k, p, Chunks(arrivals))
    decreases |arrivals|
  {
    hide Arrive;
    if arrivals != [] {
      ChunksArrive(k, After(k, p, Comes(arrivals[0])), arrivals[1..]);
      assert Chunks(arrivals)[1..] == Chunks(arrivals[1..]);
    }
  }

  /** A client sends a request in chunks, it is served with a response of some length, and the
      client has read the response. */
  datatype Exchange = Exchange(
    command: byte, subfunction: byte, payload: seq<byte>, arrivals: seq<Arrival>, served: u32, length: nat, sent: u32)

  function Events(x: Exchange): seq<Event> { Chunks(x.arrivals) + [Process(Reply(x.length), x.served), Sent(x.sent)] }

  /** The request is let through, its chunks are its frame without gaps, the response fits, and
      the session lasts. */
  predicate Orderly(k: Sizes, p: Port, x: Exchange) {
    && x.command < 0x80 && |x.payload| < 0x1_0000 && |x.payload| <= k.rx
    && Admitted(Config(k, p), x.command, x.subfunction, x.payload)
    && Bytes(x.arrivals) == RequestFrame(x.command, x.subfunction, x.payload) && Unbroken(x.arrivals)
    && !S.TimedOut(p.session, x.served) && x.length <= k.tx
  }

  predicate Ready(p: Port) { p.line.rx == FRESH && p.line.link == Idle && !p.answering && !p.disconnect }

  /** The state in which a process call finds the request of an exchange. */
  function Requested(k: Sizes, p: Port, x: Exchange): Port { p.(line := ArriveAll(Config(k, p), p.line, x.arrivals)) }

  lemma RequestIsStored(k: Sizes, p: Port, x: Exchange)
    requires Ready(p) && Orderly(k, p, x)
    ensures
      var rx := Requested(k, p, x).line.rx;
      && rx.requestReceived && rx.command == x.command && rx.subfunction == x.subfunction && rx.payload == x.payload
      && Requested(k, p, x).line.link == Idle
  {
    hide RequestFrame, Admitted, Bytes, Unbroken, ArriveAll;
    FrameArrives(Config(k, p), p.line.last, x.arrivals, x.command, x.subfunction, x.payload);
  }

  /** A request whose frame came without gaps, and nothing after it, is answered. */
  lemma RequestIsAnswered(k: Sizes, p: Port, x: Exchange)
    requires Ready(p) && Orderly(k, p, x)
    ensures
      var q := Call(k, Requested(k, p, x), Reply(x.length), x.served);
      q.line.link == Transmitting && q.answering && Ready(After(k, q, Sent(x.sent)))
  {
    hide RequestFrame, Admitted, Bytes, Unbroken, ArriveAll, HasExpired, S.Beat, Word16, Word32;
    RequestIsStored(k, p, x);
    AnsweredIff(k, Requested(k, p, x), [], Reply(x.length), x.served);
  }

  predicate AllOrderly(k: Sizes, p: Port, xs: seq<Exchange>)
    decreases |xs|
  {
    xs == [] || (Orderly(k, p, xs[0]) && AllOrderly(k, AfterAll(k, p, Events(xs[0])), xs[1..]))
  }

  function AllEvents(xs: seq<Exchange>): seq<Event> {
    if xs == [] then [] else Events(xs[0]) + AllEvents(xs[1..])
  }

  lemma {:induction false} RunsConcat(k: Sizes, p: Port, a: seq<Event>, b: seq<Event>)
    ensures AfterAll(k, p, a + b) == AfterAll(k, AfterAll(k, p, a), b)
    ensures CanRun(k, p, a + b) <==> CanRun(k, p, a) && CanRun(k, AfterAll(k, p, a), b)
    decreases |a|
  {
    hide After, Possible;
    if a == [] {
      assert a + b == b;
    } else {
      RunsConcat(k, After(k, p, a[0]), a[1..], b);
      assert (a + b)[1..] == a[1..] + b;
    }
  }

  lemma ExchangeRuns(k: Sizes, p: Port, x: Exchange)
    requires Ready(p) && Orderly(k, p, x)
    ensures CanRun(k, p, Events(x)) && Ready(AfterAll(k, p, Events(x)))
  {
    hide Orderly, ArriveAll, Call, Ready, CheckFinished;
    RequestIsAnswered(k, p, x);
    ChunksArrive(k, p, x.arrivals);
    var e1, e2 := Process(Reply(x.length), x.served), Sent(x.sent);
    RunsConcat(k, p, Chunks(x.arrivals), [e1, e2]);
    RequestIsStored(k, p, x);
    var q := Requested(k, p, x);
    assert [e1, e2][1..] == [e2] && [e2][1..] == [];
    assert After(k, q, e1) == Call(k, q, Reply(x.length), x.served);
    var q1 := After(k, q, e1);
    assert Possible(q, e1) && Possible(q1, e2);
    assert AfterAll(k, q, [e1, e2]) == AfterAll(k, q1, [e2]) && AfterAll(k, q1, [e2]) == After(k, q1, e2);
    assert CanRun(k, q1, [e2]);
  }

  /** In every dialogue of such exchanges each response is sent, whatever was opened, closed or
      refused before. */
  lemma {:induction false} DialogueRuns(k: Sizes, p: Port, xs: seq<Exchange>)
    requires Ready(p) && AllOrderly(k, p, xs)
    ensures CanRun(k, p, AllEvents(xs)) && Ready(AfterAll(k, p, AllEvents(xs)))
    decreases |xs|
  {
    hide Orderly, Events, Ready, After, Possible;
    if xs != [] {
      ExchangeRuns(k, p, xs[0]);
      DialogueRuns(k, AfterAll(k, p, Events(xs[0])), xs[1..]);
      RunsConcat(k, p, Events(xs[0]), AllEvents(xs[1..]));
    }
  }

  // ----- Bytes after a request -----

  /** Bytes that follow a request before it is served: a Connect that opens a session is answered
      all the same, any other request is dropped without an answer. */
  lemma LateBytes(k: Sizes, p: Port, x: Exchange, a: Arrival)
    requires Ready(p) && Orderly(k, p, x)
    requires a.data != [] && !TooLate(Requested(k, p, x).line.last, a)
    ensures
      var q := After(k, Requested(k, p, x), Comes(a));
      var e := Call(k, q, Reply(x.length), x.served);
      && q.line.rx == Requested(k, p, x).line.rx && q.line.link == Receiving
      && if Opens(q) then e.line.link == Transmitting && e.session == S.Opened(p.session, p.counter, x.served)
         else e.line == Line(FRESH, Idle, x.served) && !e.answering
  {
    hide RequestFrame, Admitted, Bytes, Unbroken, ArriveAll, HasExpired, S.Beat, Word16, Word32, Feed, CompletesFrame;
    RequestIsStored(k, p, x);
    var r := Requested(k, p, x);
    RestIgnored(Config(k, r), r.line.rx, a.data);
  }

  /** The first request to a handler without a session, whole in one chunk. */
  function First(command: byte, subfunction: byte, payload: seq<byte>, length: nat, now: u32): Exchange
    requires |payload| < 0x1_0000
  {
    Exchange(command, subfunction, payload, [Arrival(RequestFrame(command, subfunction, payload), now)], now, length, now)
  }

  lemma FirstIsOrderly(k: Sizes, p: Port, x: Exchange, now: u32)
    requires k.rx >= 32 && k.tx >= 32 && x.command < 0x80 && |x.payload| == 4 && x.length <= 32
    requires x == First(x.command, x.subfunction, x.payload, x.length, now)
    requires Ready(p) && !p.session.active && Admitted(Config(k, p), x.command, x.subfunction, x.payload)
    ensures Orderly(k, p, x) && Requested(k, p, x).line.last == now
  {
    hide RequestFrame, Admitted, Feed, CompletesFrame, HasExpired;
    assert x.arrivals[1..] == [];
    assert Bytes(x.arrivals) == x.arrivals[0].data;
    assert ArriveAll(Config(k, p), p.line, x.arrivals) == Arrive(Config(k, p), p.line, x.arrivals[0]);
  }

  /** A Connect of the right length and any byte: the session is opened and the response sent. */
  lemma ConnectThenByte(k: Sizes, p: Port, magic: seq<byte>, b: byte, now: u32)
    requires k.rx >= 32 && k.tx >= 32 && |magic| == 4 && Ready(p) && !p.session.active
    ensures
      var q := After(k, Requested(k, p, First(COMM_CONTROL, CONNECT, magic, 8, now)), Comes(Arrival([b], now)));
      q.line.link == Receiving && Call(k, q, Reply(8), now).line.link == Transmitting
  {
    hide Orderly, Requested, After, Call;
    var x := First(COMM_CONTROL, CONNECT, magic, 8, now);
    FirstIsOrderly(k, p, x, now);
    RequestIsStored(k, p, x);
    LateBytes(k, p, x, Arrival([b], now));
    SessionStays(k, p, x, Arrival([b], now));
  }

  lemma SessionStays(k: Sizes, p: Port, x: Exchange, a: Arrival)
    ensures After(k, Requested(k, p, x), Comes(a)).session == p.session
  {}

  /** A Discover and any byte: stored, and dropped without a response. */
  lemma DiscoverThenByte(k: Sizes, p: Port, b: byte, now: u32)
    requires k.rx >= 32 && k.tx >= 32 && Ready(p) && !p.session.active
    ensures
      var q := After(k, Requested(k, p, First(COMM_CONTROL, DISCOVER, DISCOVER_MAGIC, 32, now)), Comes(Arrival([b], now)));
      && q.line.rx.requestReceived && q.line.rx.subfunction == DISCOVER
      && Call(k, q, Reply(32), now).line == Line(FRESH, Idle, now)
  {
    hide Orderly, Requested, After, Call;
    var x := First(COMM_CONTROL, DISCOVER, DISCOVER_MAGIC, 32, now);
    FirstIsOrderly(k, p, x, now);
    RequestIsStored(k, p, x);
    LateBytes(k, p, x, Arrival([b], now));
  }

  // ----- The time a held-back request has -----

  /** A late chunk that replaces a request which is being asked for again leaves the time of the
      old one: the new request is given up at its first process call exactly when the old one
      would be, while without that time it would wait. */
  lemma OldTimeCounts(k: Sizes, p: Port, subfunction: byte, payload: seq<byte>, a: Arrival, now: u32)
    requires p.line.rx.requestReceived && !p.answering && p.line.link != Transmitting && p.again.Some?
    requires p.session.active && !S.TimedOut(p.session, now)
    requires |payload| < 0x1_0000 && |payload| <= k.rx
    requires TooLate(p.line.last, a) && a.data == RequestFrame(DATALOG_CONTROL, subfunction, payload)
    ensures
      var q := After(k, p, Comes(a));
      && q.line.rx.requestReceived && q.line.rx.subfunction == subfunction && q.line.rx.payload == payload
      && (Call(k, q, TryAgain, now).line.link == Transmitting <==> HasExpired(now, p.again.value, MAX_PROCESS_TIME_100NS))
      && Call(k, q.(again := None), TryAgain, now).line == q.line
  {
    hide RequestFrame, Feed, CompletesFrame, HasExpired, S.Beat, Word16, Word32;
    RequestArrives(Config(k, p), DATALOG_CONTROL, subfunction, payload);
    StoringCompletes(Config(k, p), FRESH, a.data);
  }

  /** A Reset, asked for again at time 0, is sent again after 60 ms of silence; it is given up
      40 ms later. */
  lemma GivenUpEarly(k: Sizes, p: Port, frame: seq<byte>)
    requires Ready(p) && p.session.active && p.session.lastSign == 0 && p.line.last == 0 && p.again.None?
    requires frame == RequestFrame(DATALOG_CONTROL, RESET_DATALOGGER, [])
    ensures
      var p1 := After(k, p, Comes(Arrival(frame, 0)));
      var p2 := After(k, p1, Process(TryAgain, 0));
      var p3 := After(k, p2, Comes(Arrival(frame, 600_000)));
      var p4 := After(k, p3, Process(TryAgain, 1_000_000));
      && Possible(p1, Process(TryAgain, 0)) && Possible(p3, Process(TryAgain, 1_000_000))
      && p2.line.rx == p1.line.rx && p3.line.rx.requestReceived && p3.line.last == 600_000 && p4.line.link == Transmitting
  {
    hide RequestFrame, Feed, CompletesFrame, S.Beat, Word16, Word32;
    RequestArrives(Config(k, p), DATALOG_CONTROL, RESET_DATALOGGER, []);
    StoringCompletes(Config(k, p), FRESH, frame);
  }
}
