// The session of a CommHandler and the heartbeats that keep it open.
module CommSession {
  import opened Words
  import opened Timebase
  import opened Wrappers

  datatype Session = Session(active: bool, id: u32, firstBeat: bool, challenge: u16, lastSign: u32)

  /** SCRUTINY_COMM_HEARTBEAT_TIMEOUT_US in steps of 100 ns. */
  const HEARTBEAT_TIMEOUT_100NS := 50_000_000

  function Fresh(now: u32): Session { Session(false, 0, false, 0, now) }

  function Opened(s: Session, id: u32, now: u32): Session {
    s.(active := true, id := id, firstBeat := false, lastSign := now)
  }

  function Closed(s: Session): Session { s.(active := false, id := 0, firstBeat := false) }

  predicate Accepts(s: Session, challenge: u16) { s.active && (challenge != s.challenge || !s.firstBeat) }

  function Beat(s: Session, challenge: u16, now: u32): Session {
    if Accepts(s, challenge) then s.(firstBeat := true, challenge := challenge, lastSign := now) else s
  }

  predicate TimedOut(s: Session, now: u32) { s.active && HasExpired(now, s.lastSign, HEARTBEAT_TIMEOUT_100NS) }

  function Tick(s: Session, now: u32): Session { if TimedOut(s, now) then Fresh(now) else s }

  /** A heartbeat request, or a periodic process call. */
  datatype Event = Heartbeat(challenge: u16, now: u32) | Process(now: u32)

  function After(s: Session, events: seq<Event>): Session
    decreases |events|
  {
    if events == [] then s
    else
      var before := After(s, events[..|events| - 1]);
      match events[|events| - 1]
      case Heartbeat(challenge, now) => Beat(before, challenge, now)
      case Process(now) => Tick(before, now)
  }

  /** The challenge of the last heartbeat, if there was one. */
  function LastChallenge(events: seq<Event>): Option<u16>
    decreases |events|
  {
    if events == [] then None
    else if events[|events| - 1].Heartbeat? then Some(events[|events| - 1].challenge)
    else LastChallenge(events[..|events| - 1])
  }

  /** When the session was opened, or the last heartbeat that differs from the one before it. */
  function LastSign(start: u32, events: seq<Event>): u32
    decreases |events|
  {
    if events == [] then start
    else
      var before, e := events[..|events| - 1], events[|events| - 1];
      if e.Heartbeat? && LastChallenge(before) != Some(e.challenge) then e.now else LastSign(start, before)
  }

  /** Every process call so far came in time. */
  predicate InTime(start: u32, events: seq<Event>) {
    forall i | 0 <= i < |events| && events[i].Process? ::
      !HasExpired(events[i].now, LastSign(start, events[..i]), HEARTBEAT_TIMEOUT_100NS)
  }

  /** A session that was just opened stays open if and only if every process call comes within
      the timeout of the opening or of the last heartbeat with a new challenge; repeating a
      challenge does not count. */
  lemma {:induction false} StaysOpenIff(s: Session, events: seq<Event>)
    requires s.active && !s.firstBeat
    ensures
      var e := After(s, events);
      && (e.active <==> InTime(s.lastSign, events))
      && (e.active ==> e.id == s.id && e.lastSign == LastSign(s.lastSign, events)
                       && (e.firstBeat <==> LastChallenge(events).Some?)
                       && (e.firstBeat ==> LastChallenge(events) == Some(e.challenge)))
    decreases |events|
  {
    hide HasExpired;
    if events != [] {
      var n := |events| - 1;
      StaysOpenIff(s, events[..n]);
      assert forall i | 0 <= i < n :: events[i] == events[..n][i] && events[..i] == events[..n][..i];
      assert InTime(s.lastSign, events) <==>
             InTime(s.lastSign, events[..n])
             && (events[n].Process? ==> !HasExpired(events[n].now, LastSign(s.lastSign, events[..n]), HEARTBEAT_TIMEOUT_100NS));
    }
  }
}
