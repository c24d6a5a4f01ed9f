// How long a session lasts under the requests that main serves: heartbeats keep it, a Disconnect
// ends it with its answer, silence ends it.
module CommKeeping {
  import opened Words
  import opened CommReceive
  import opened CommLink
  import opened Timebase
  import opened CommServing
  import S = CommSession

  /** A process call at `now` serves the stored request. */
  predicate Serves(p: Port, now: u32) { p.line.rx.requestReceived && !p.answering && !S.TimedOut(p.session, now) }

  /** A CommControl request with `length` bytes that begin with the identifier of the session. */
  predicate Asks(p: Port, subfunction: byte, length: nat) {
    && p.line.rx.command == 2 && p.line.rx.subfunction == subfunction
    && |p.line.rx.payload| == length >= 4 && DecodeBe(p.line.rx.payload[..4]) == p.session.id
  }

  /** What an event is to the session: each process call, and each heartbeat request served. */
  function SignsOf(p: Port, e: Event): seq<S.Event> {
    if !e.Process? then []
    else
      [S.Process(e.now)]
      + if Serves(p, e.now) && Asks(p, 2, 6) then [S.Heartbeat(Word16(p.line.rx.payload[4..]), e.now)] else []
  }

  function Signs(k: Sizes, p: Port, events: seq<Event>): seq<S.Event>
    decreases |events|
  {
    if events == [] then [] else SignsOf(p, events[0]) + Signs(k, After(k, p, events[0]), events[1..])
  }

  /** A Disconnect request is done with: its answer has left, or it cannot be sent. */
  predicate Disconnects(k: Sizes, p: Port, e: Event) {
    match e
    case Comes(_) => false
    case Sent(_) => p.disconnect
    case Process(o, now) =>
      && Serves(p, now) && Asks(p, 5, 4)
      && !(p.line.link == Idle && o.Reply? && o.length <= k.tx)
  }

  predicate NeverDisconnects(k: Sizes, p: Port, events: seq<Event>)
    decreases |events|
  {
    events == [] || (!Disconnects(k, p, events[0]) && NeverDisconnects(k, After(k, p, events[0]), events[1..]))
  }

  predicate OpenThroughout(k: Sizes, p: Port, events: seq<Event>)
    decreases |events|
  {
    p.session.active && (events == [] || OpenThroughout(k, After(k, p, events[0]), events[1..]))
  }

  /** While a session is open, an event that does not end it by a Disconnect acts on it as its
      signs do. */
  lemma EventSigns(k: Sizes, p: Port, e: Event)
    requires p.session.active && Settled(p) && Possible(p, e)
    ensures
      var after := After(k, p, e).session;
      if Disconnects(k, p, e) then !after.active else after == S.After(p.session, SignsOf(p, e))
  {
    hide Feed, CompletesFrame, HasExpired;
    if e.Process? {
      SignsAct(p.session, e.now, Word16Of(p));
    } else {
      NoSigns(p.session);
    }
  }

  function Word16Of(p: Port): u16 {
    if |p.line.rx.payload| == 6 then Word16(p.line.rx.payload[4..]) else 0
  }

  lemma NoSigns(s: S.Session)
    ensures S.After(s, []) == s
  {}

  lemma SignsAct(s: S.Session, now: u32, challenge: u16)
    ensures S.After(s, [S.Process(now)]) == S.Tick(s, now)
    ensures S.After(s, [S.Process(now), S.Heartbeat(challenge, now)]) == S.Beat(S.Tick(s, now), challenge, now)
  {
    var both := [S.Process(now), S.Heartbeat(challenge, now)];
    assert both[..1] == [S.Process(now)] && [S.Process(now)][..0] == [];
  }

  lemma {:induction false} SignsInTurn(s: S.Session, a: seq<S.Event>, b: seq<S.Event>)
    ensures S.After(s, a + b) == S.After(S.After(s, a), b)
    decreases |b|
  {
    if b == [] {
      assert a + b == a;
    } else {
      SignsInTurn(s, a, b[..|b| - 1]);
      assert (a + b)[..|a + b| - 1] == a + b[..|b| - 1];
    }
  }

  lemma InTimeBefore(start: u32, a: seq<S.Event>, b: seq<S.Event>)
    requires S.InTime(start, a + b)
    ensures S.InTime(start, a)
  {
    assert forall i | 0 <= i < |a| :: (a + b)[i] == a[i] && (a + b)[..i] == a[..i];
  }

  lemma {:induction false} OpenFrom(k: Sizes, p: Port, events: seq<Event>, s: S.Session, before: seq<S.Event>)
    requires s.active && !s.firstBeat && p.session == S.After(s, before) && p.session.active
    requires Settled(p) && CanRun(k, p, events)
    ensures OpenThroughout(k, p, events) <==>
            S.InTime(s.lastSign, before + Signs(k, p, events)) && NeverDisconnects(k, p, events)
    ensures OpenThroughout(k, p, events) ==> AfterAll(k, p, events).session == S.After(s, before + Signs(k, p, events))
    decreases |events|
  {
    hide After, Possible, Settled, S.After, S.InTime, Disconnects, SignsOf;
    S.StaysOpenIff(s, before);
    if events == [] {
      assert before + [] == before;
    } else {
      var e, rest, next, signs := events[0], events[1..], After(k, p, events[0]), SignsOf(p, events[0]);
      EventSigns(k, p, e);
      AfterSettles(k, p, e);
      SignsInTurn(s, before, signs);
      var later := Signs(k, next, rest);
      assert before + (signs + later) == (before + signs) + later;
      if !Disconnects(k, p, e) {
        if next.session.active {
          OpenFrom(k, next, rest, s, before + signs);
        } else {
          S.StaysOpenIff(s, before + signs);
          if S.InTime(s.lastSign, (before + signs) + later) {
            InTimeBefore(s.lastSign, before + signs, later);
          }
        }
      }
    }
  }

  /** A session that was just opened is open throughout a run of chunks, process calls and
      transmissions if and only if every process call comes within the timeout of the opening or of
      the last served heartbeat with a new challenge, and no Disconnect was answered. */
  lemma SessionLastsIff(k: Sizes, p: Port, events: seq<Event>)
    requires p.session.active && !p.session.firstBeat && Settled(p) && CanRun(k, p, events)
    ensures OpenThroughout(k, p, events) <==>
            S.InTime(p.session.lastSign, Signs(k, p, events)) && NeverDisconnects(k, p, events)
    ensures OpenThroughout(k, p, events) ==> AfterAll(k, p, events).session.id == p.session.id
  {
    hide OpenThroughout, S.InTime, Signs, NeverDisconnects, AfterAll, CanRun, Settled;
    NoSigns(p.session);
    assert [] + Signs(k, p, events) == Signs(k, p, events);
    OpenFrom(k, p, events, p.session, []);
    S.StaysOpenIff(p.session, Signs(k, p, events));
    hide S.After;
    if OpenThroughout(k, p, events) {
      OpenAtEnd(k, p, events);
    }
  }

  lemma {:induction false} OpenAtEnd(k: Sizes, p: Port, events: seq<Event>)
    requires OpenThroughout(k, p, events)
    ensures AfterAll(k, p, events).session.active
    decreases |events|
  {
    hide After;
    if events != [] {
      OpenAtEnd(k, After(k, p, events[0]), events[1..]);
    }
  }

  // ----- How a session begins -----

  /** Without a session, an event opens one exactly if it is a process call that serves a Connect
      of the right length. The session counts from that call, has seen no heartbeat, and takes the
      next number. */
  lemma OpenedIff(k: Sizes, p: Port, e: Event)
    requires !p.session.active && Settled(p) && Possible(p, e)
    ensures
      var after := After(k, p, e);
      && (after.session.active <==>
          e.Process? && Serves(p, e.now)
          && p.line.rx.command == 2 && p.line.rx.subfunction == 4 && |p.line.rx.payload| == 4)
      && (after.session.active ==>
          && after.session.lastSign == e.now && !after.session.firstBeat && !after.disconnect
          && after.session.id == p.counter && after.counter == (p.counter + 1) % 0x1_0000_0000)
      && (!after.session.active ==> after.counter == p.counter)
  {
    hide Feed, CompletesFrame, HasExpired, Word16, Word32;
  }

  /** From its Connect on, a session is open throughout a run if and only if every process call
      comes within the timeout of that Connect or of the last served heartbeat with a new
      challenge, and no Disconnect was answered. */
  lemma SessionFromConnect(k: Sizes, p: Port, connect: Event, events: seq<Event>)
    requires !p.session.active && Settled(p) && CanRun(k, p, [connect] + events) && After(k, p, connect).session.active
    ensures connect.Process?
    ensures
      var q := After(k, p, connect);
      OpenThroughout(k, q, events) <==> S.InTime(connect.now, Signs(k, q, events)) && NeverDisconnects(k, q, events)
  {
    hide OpenThroughout, S.InTime, Signs, NeverDisconnects, After, Possible, Settled;
    assert ([connect] + events)[1..] == events;
    OpenedIff(k, p, connect);
    AfterSettles(k, p, connect);
    SessionLastsIff(k, After(k, p, connect), events);
  }

  /** How often a session is opened in a run. */
  function Openings(k: Sizes, p: Port, events: seq<Event>): nat
    decreases |events|
  {
    if events == [] then 0
    else
      var next := After(k, p, events[0]);
      (if !p.session.active && next.session.active then 1 else 0) + Openings(k, next, events[1..])
  }

  lemma StillOpen(k: Sizes, p: Port, e: Event)
    requires p.session.active && Settled(p) && Possible(p, e)
    ensures
      var after := After(k, p, e);
      after.counter == p.counter && (after.session.active ==> after.session.id == p.session.id)
  {
    hide Feed, CompletesFrame, HasExpired, Word16, Word32;
  }

  lemma NothingOpened(k: Sizes, p: Port)
    ensures Openings(k, p, []) == 0 && AfterAll(k, p, []) == p
  {}

  lemma FirstOpening(k: Sizes, p: Port, events: seq<Event>)
    requires events != [] && CanRun(k, p, events)
    ensures
      var next, rest := After(k, p, events[0]), events[1..];
      && Possible(p, events[0]) && CanRun(k, next, rest) && AfterAll(k, p, events) == AfterAll(k, next, rest)
      && Openings(k, p, events) == Openings(k, next, rest) + if !p.session.active && next.session.active then 1 else 0
  {
    hide After, Possible;
  }

  /** Sessions are numbered in turn: the n-th session opened in a run has the number of the counter
      at its start plus n - 1, modulo 2 to the 32nd. */
  lemma {:induction false} SessionsAreNumbered(k: Sizes, p: Port, events: seq<Event>)
    requires Settled(p) && CanRun(k, p, events)
    ensures
      var e, n := AfterAll(k, p, events), Openings(k, p, events);
      && e.counter == (p.counter + n) % 0x1_0000_0000
      && (e.session.active ==>
          e.session.id == if n == 0 then p.session.id else (p.counter + n - 1) % 0x1_0000_0000)
      && (e.session.active && n == 0 ==> p.session.active)
    decreases |events|
  {
    hide After, Possible, Settled, CanRun, AfterAll, Openings, Serves;
    if events == [] {
      NothingOpened(k, p);
    } else {
      var e, next := events[0], After(k, p, events[0]);
      FirstOpening(k, p, events);
      AfterSettles(k, p, e);
      SessionsAreNumbered(k, next, events[1..]);
      if p.session.active {
        StillOpen(k, p, e);
      } else {
        OpenedIff(k, p, e);
      }
    }
  }

  /** So a client that comes back never finds its old number on another session, unless 2 to the
      32nd sessions were opened between. */
  lemma OldNumberIsNotReused(k: Sizes, p: Port, events: seq<Event>)
    requires Settled(p) && CanRun(k, p, events) && p.session.active && (p.session.id + 1) % 0x1_0000_0000 == p.counter
    requires AfterAll(k, p, events).session.active && 0 < Openings(k, p, events) < 0x1_0000_0000
    ensures AfterAll(k, p, events).session.id != p.session.id
  {
    SessionsAreNumbered(k, p, events);
  }
}
