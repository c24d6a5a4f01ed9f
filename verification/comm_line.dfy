// Chunks arriving over time at a CommHandler, and whether a stored request can be answered.
module CommLine {
  import opened Words
  import opened Timebase
  import opened Checksum
  import opened CommReceive
  import opened CommLink

  /** SCRUTINY_COMM_RX_TIMEOUT_US in steps of 100 ns. */
  const RX_TIMEOUT_100NS := 500_000

  /** Receiver, link and the time of the last byte. */
  datatype Line = Line(rx: Rx, link: LinkState, last: u32)

  datatype Arrival = Arrival(data: seq<byte>, now: u32)

  /** The receiver starts over; a link that was receiving is idle again. */
  function Restarted(line: Line, now: u32): Line { Line(FRESH, if line.link == Receiving then Idle else line.link, now) }

  predicate TooLate(last: u32, a: Arrival) { a.data != [] && HasExpired(a.now, last, RX_TIMEOUT_100NS) }

  /** One chunk, at an enabled handler: after a silence reception starts over; the link is idle
      again only if a CRC field was completed. */
  function Arrive(cfg: RxConfig, line: Line, a: Arrival): Line {
    if line.link == Transmitting || a.data == [] then line
    else
      var start := if TooLate(line.last, a) then FRESH else line.rx;
      Line(Feed(cfg, start, a.data), if CompletesFrame(cfg, start, a.data) then Idle else Receiving, a.now)
  }

  function ArriveAll(cfg: RxConfig, line: Line, arrivals: seq<Arrival>): Line
    decreases |arrivals|
  {
    if arrivals == [] then line else ArriveAll(cfg, Arrive(cfg, line, arrivals[0]), arrivals[1..])
  }

  /** No chunk comes so late that reception starts over. */
  predicate InTime(last: u32, arrivals: seq<Arrival>)
    decreases |arrivals|
  {
    arrivals == [] ||
    (!TooLate(last, arrivals[0])
     && InTime(if arrivals[0].data == [] then last else arrivals[0].now, arrivals[1..]))
  }

  /** Bytes that follow a stored request are not read, but mark the link as receiving. */
  lemma {:induction false} StoredRequestStays(cfg: RxConfig, line: Line, arrivals: seq<Arrival>)
    requires line.rx.requestReceived && line.link != Transmitting && InTime(line.last, arrivals)
    ensures
      var e := ArriveAll(cfg, line, arrivals);
      && e.rx == line.rx
      && e.link == if forall i | 0 <= i < |arrivals| :: arrivals[i].data == [] then line.link else Receiving
    decreases |arrivals|
  {
    hide Feed, CompletesFrame, HasExpired;
    if arrivals != [] {
      var a, rest := arrivals[0], arrivals[1..];
      RestIgnored(cfg, line.rx, a.data);
      StoredRequestStays(cfg, Arrive(cfg, line, a), rest);
      assert forall i | 0 < i < |arrivals| :: arrivals[i] == rest[i - 1];
      assert forall i | 0 <= i < |rest| :: rest[i] == arrivals[i + 1];
    }
  }

  /** A chunk that comes too late drops the stored request: what is stored then depends on the
      chunk alone. */
  lemma LateChunkDropsRequest(cfg: RxConfig, line: Line, a: Arrival)
    requires line.rx.requestReceived && line.link != Transmitting && TooLate(line.last, a)
    ensures
      var rx, p := Arrive(cfg, line, a).rx, Parse(cfg, a.data);
      && rx == Feed(cfg, FRESH, a.data) && (rx.requestReceived <==> p.Accepted?)
      && (p.Accepted? ==> rx.command == p.command && rx.subfunction == p.subfunction && rx.payload == p.payload)
  {
    hide Feed, Parse;
    FeedIsParse(cfg, a.data);
  }

  /** A request is stored only when a CRC field is completed. */
  lemma {:induction false} StoringCompletes(cfg: RxConfig, rx: Rx, data: seq<byte>)
    requires !rx.requestReceived && Feed(cfg, rx, data).requestReceived
    requires rx.state.WaitForCrc? ==> rx.state.crcBytes < 4
    ensures CompletesFrame(cfg, rx, data)
    decreases |data|
  {
    hide Crc32, Glue, MustProcess;
    if data != [] && rx.state != WaitForCrc(3) {
      assert !Step(cfg, rx, data[0]).requestReceived;
      StoringCompletes(cfg, Step(cfg, rx, data[0]), data[1..]);
    }
  }

  lemma {:induction false} CrcCountBelowFour(cfg: RxConfig, rx: Rx, data: seq<byte>)
    requires rx.state.WaitForCrc? ==> rx.state.crcBytes < 4
    ensures var e := Feed(cfg, rx, data); e.state.WaitForCrc? ==> e.state.crcBytes < 4
    decreases |data|
  {
    if data != [] {
      CrcCountBelowFour(cfg, Step(cfg, rx, data[0]), data[1..]);
    }
  }

  function Bytes(arrivals: seq<Arrival>): seq<byte> {
    if arrivals == [] then [] else arrivals[0].data + Bytes(arrivals[1..])
  }

  /** Before its last byte a request frame is not stored. */
  lemma PrefixIsNotStored(cfg: RxConfig, command: byte, subfunction: byte, payload: seq<byte>, n: nat)
    requires command < 0x80 && |payload| < 0x1_0000 && |payload| <= cfg.bufferSize && n < 8 + |payload|
    ensures !Stopped(Feed(cfg, FRESH, RequestFrame(command, subfunction, payload)[..n]))
  {
    hide Crc32, CrcBytes, Feed;
    var frame := RequestFrame(command, subfunction, payload);
    TwoBytes(|payload|);
    assert LengthOf(frame) == |payload|;
    FeedPrefix(cfg, frame[..n]);
  }

  /** The rest of a request frame comes in time: it is stored, and the link is idle. */
  lemma {:induction false} RestOfFrameArrives(cfg: RxConfig, line: Line, n: nat, arrivals: seq<Arrival>,
                                              command: byte, subfunction: byte, payload: seq<byte>)
    requires command < 0x80 && |payload| < 0x1_0000 && |payload| <= cfg.bufferSize && n <= 8 + |payload|
    requires Admitted(cfg, command, subfunction, payload)
    requires
      var frame := RequestFrame(command, subfunction, payload);
      && line.rx == Feed(cfg, FRESH, frame[..n]) && Bytes(arrivals) == frame[n..]
      && line.link != Transmitting && (n == |frame| ==> line.link == Idle)
    requires InTime(line.last, arrivals)
    ensures
      var e := ArriveAll(cfg, line, arrivals);
      && e.rx == Feed(cfg, FRESH, RequestFrame(command, subfunction, payload)) && e.link == Idle
    decreases |arrivals|
  {
    hide RequestFrame, Feed, CompletesFrame, HasExpired, Admitted;
    var frame := RequestFrame(command, subfunction, payload);
    if arrivals == [] {
      assert frame[..n] == frame;
    } else {
      var a := arrivals[0];
      var m := n + |a.data|;
      var next := Arrive(cfg, line, a);
      assert frame[n..] == a.data + Bytes(arrivals[1..]);
      assert frame[..m] == frame[..n] + a.data && frame[m..] == Bytes(arrivals[1..]);
      if a.data != [] {
        FeedConcat(cfg, FRESH, frame[..n], a.data);
        if m == |frame| {
          assert frame[..m] == frame;
          RequestArrives(cfg, command, subfunction, payload);
          PrefixIsNotStored(cfg, command, subfunction, payload, n);
          CrcCountBelowFour(cfg, FRESH, frame[..n]);
          StoringCompletes(cfg, line.rx, a.data);
        }
      } else {
        assert m == n;
      }
      RestOfFrameArrives(cfg, next, m, arrivals[1..], command, subfunction, payload);
    }
  }

  /** No gap between two chunks is so long that reception starts over. */
  predicate Unbroken(arrivals: seq<Arrival>)
    decreases |arrivals|
  {
    arrivals == [] ||
    if arrivals[0].data == [] then Unbroken(arrivals[1..]) else InTime(arrivals[0].now, arrivals[1..])
  }

  /** A request frame without gaps, cut into chunks anywhere, is stored as it was sent and leaves
      the link idle. */
  lemma {:induction false} FrameArrives(cfg: RxConfig, last: u32, arrivals: seq<Arrival>,
                                        command: byte, subfunction: byte, payload: seq<byte>)
    requires command < 0x80 && |payload| < 0x1_0000 && |payload| <= cfg.bufferSize
    requires Admitted(cfg, command, subfunction, payload)
    requires Bytes(arrivals) == RequestFrame(command, subfunction, payload) && Unbroken(arrivals)
    ensures
      var e := ArriveAll(cfg, Line(FRESH, Idle, last), arrivals);
      && e.rx.requestReceived && e.rx.command == command && e.rx.subfunction == subfunction && e.rx.payload == payload
      && e.link == Idle
    decreases |arrivals|
  {
    hide RequestFrame, CompletesFrame, Admitted, Feed;
    var frame := RequestFrame(command, subfunction, payload);
    var a := arrivals[0];
    if a.data == [] {
      assert Bytes(arrivals) == Bytes(arrivals[1..]);
      FrameArrives(cfg, last, arrivals[1..], command, subfunction, payload);
    } else {
      assert frame[..0] == [] && frame[0..] == frame && Feed(cfg, FRESH, []) == FRESH by {
        RestIgnored(cfg, FRESH, []);
      }
      assert Arrive(cfg, Line(FRESH, Idle, last), a) == Arrive(cfg, Line(FRESH, Idle, a.now), a);
      RestOfFrameArrives(cfg, Line(FRESH, Idle, a.now), 0, arrivals, command, subfunction, payload);
      RequestArrives(cfg, command, subfunction, payload);
    }
  }
}
