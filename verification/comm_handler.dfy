// The CommHandler: reception and transmission over caller-provided buffers, half duplex.
module Comm {
  import opened Words
  import opened Timebase
  import opened Checksum
  import opened CommReceive
  import opened CommSession
  import opened CommLine
  import opened CommLink
  import opened CommTransmit
  import opened Chunks

  /** The reception members: FSM state with its per-state counter, the request header
      received so far, the running CRC, the request flag and the last error. */
  datatype Reception = Reception(
    state: RxState, command: byte, subfunction: byte, length: nat, sentCrc: Crc,
    crc: Crc, requestReceived: bool, error: RxError)
  {
    predicate Ok(bufferSize: nat) {
      && length < 0x1_0000
      && (requestReceived <==> state == WaitForProcess)
      && match state
         case WaitForLength(n) => n == 0 || (n == 1 && length % 256 == 0)
         case WaitForData(n) => n < length && (n > 0 ==> length <= bufferSize)
         case WaitForCrc(n) => n < 4 && length <= bufferSize
         case WaitForProcess => length <= bufferSize
         case _ => true
    }

    /** With the payload that the buffer holds for this state. */
    function View(buffer: seq<byte>): Rx
      requires Ok(|buffer|)
    {
      var payload := match state
        case WaitForData(n) => buffer[..n]
        case WaitForCrc(_) => buffer[..length]
        case WaitForProcess => buffer[..length]
        case _ => [];
      Rx(state, command, subfunction, length, sentCrc, crc, payload, requestReceived, error)
    }
  }

  const RESET := Reception(WaitForCommand, 0, 0, 0, ZERO, ZERO, false, NoRxError)

  datatype Response = Response(
    command: byte, subfunction: byte, code: byte, length: u16, data: array<byte>, crc: Crc)

  const MINIMUM_BUFFER_SIZE := 32
  const MAXIMUM_BUFFER_SIZE := 0xFFFF - 16
  class CommHandler {
    const rxBuffer: array<byte>
    const txBufferSize: nat
    var enabled: bool
    var session: Session
    /** The next session identifier; shared by all handlers in the source. */
    var sessionCounter: u32
    var link: LinkState
    var rx: Reception
    var lastRxTimestamp: u32

    var response: Response
    var bytesToSend: u16
    var bytesSent: u16
    var txError: TxError

    ghost predicate TxValid()
      reads this
    {
      && response.data != rxBuffer
      && if link == Transmitting then
           && response.length <= response.data.Length
           && bytesToSend == 9 + response.length
           && bytesSent < bytesToSend
         else bytesSent == 0
    }

    ghost predicate Valid()
      reads this
    {
      && rx.Ok(rxBuffer.Length) && TxValid() && (!enabled ==> link == Idle)
      && (enabled ==> MINIMUM_BUFFER_SIZE <= rxBuffer.Length <= MAXIMUM_BUFFER_SIZE)
      && (enabled ==> MINIMUM_BUFFER_SIZE <= txBufferSize <= MAXIMUM_BUFFER_SIZE)
    }

    ghost function Config(): RxConfig
      reads this
    {
      RxConfig(rxBuffer.Length, session.active)
    }

    ghost function RxView(): Rx
      requires rx.Ok(rxBuffer.Length)
      reads this, rxBuffer
    {
      rx.View(rxBuffer[..])
    }

    constructor (rxBuffer: array<byte>, txBuffer: array<byte>, seed: u32, now: u32)
      requires rxBuffer != txBuffer
      ensures Valid() && this.rxBuffer == rxBuffer && txBufferSize == txBuffer.Length
      ensures RxView() == FRESH && link == Idle && session == Fresh(now) && sessionCounter == seed && lastRxTimestamp == now
      ensures enabled <==> MINIMUM_BUFFER_SIZE <= rxBuffer.Length <= MAXIMUM_BUFFER_SIZE
                           && MINIMUM_BUFFER_SIZE <= txBuffer.Length <= MAXIMUM_BUFFER_SIZE
    {
      this.rxBuffer, txBufferSize := rxBuffer, txBuffer.Length;
      enabled := MINIMUM_BUFFER_SIZE <= rxBuffer.Length <= MAXIMUM_BUFFER_SIZE
                 && MINIMUM_BUFFER_SIZE <= txBuffer.Length <= MAXIMUM_BUFFER_SIZE;
      response := Response(0, 0, 0, 0, txBuffer, ZERO);
      rx, lastRxTimestamp, link, session, sessionCounter := RESET, now, Idle, Fresh(now), seed;
      bytesToSend, bytesSent, txError := 0, 0, NoTxError;
    }

    /** Opens a session; the receiver starts over. */
    method Connect(now: u32) returns (ok: bool)
      requires Valid()
      modifies `session, `sessionCounter, `rx, `lastRxTimestamp, `link
      ensures Valid() && (ok <==> enabled && !old(session.active))
      ensures ok ==>
        && session == Opened(old(session), old(sessionCounter), now)
        && sessionCounter == (old(sessionCounter) + 1) % 0x1_0000_0000
        && LineOf() == Restarted(old(LineOf()), now)
      ensures !ok ==> session == old(session) && sessionCounter == old(sessionCounter) && LineOf() == old(LineOf())
    {
      if !enabled || session.active {
        return false;
      }
      session := session.(id := sessionCounter, active := true, firstBeat := false, lastSign := now);
      sessionCounter := if sessionCounter == 0xFFFF_FFFF then 0 else sessionCounter + 1;
      ResetRx(now);
      ok := true;
    }

    /** Ends the session and drops what is received or sent. */
    method Disconnect(now: u32)
      requires Valid()
      modifies `session, `response, `bytesToSend, `bytesSent, `txError, `rx, `lastRxTimestamp, `link
      ensures response.data == old(response.data)
      ensures Valid() && session == Closed(old(session)) && LineOf() == Line(FRESH, Idle, now) && DataToSend() == 0
    {
      session := session.(id := 0, active := false, firstBeat := false);
      ResetRx(now);
      ResetTx();
    }

    method Heartbeat(challenge: u16, now: u32) returns (ok: bool)
      modifies `session
      ensures ok <==> enabled && Accepts(old(session), challenge)
      ensures session == if enabled then Beat(old(session), challenge, now) else old(session)
    {
      ok := false;
      if !session.active || !enabled {
        return;
      }
      if challenge != session.challenge || !session.firstBeat {
        session := session.(firstBeat := true, lastSign := now, challenge := challenge);
        ok := true;
      }
    }

    /** The periodic call: a session without a sign of life is closed and everything starts over. */
    method Process(now: u32)
      requires Valid()
      modifies `session, `response, `bytesToSend, `bytesSent, `txError, `rx, `lastRxTimestamp, `link
      ensures Valid()
      ensures enabled ==> session == Tick(old(session), now)
      ensures enabled && TimedOut(old(session), now) ==> LineOf() == Line(FRESH, Idle, now) && DataToSend() == 0
      ensures !TimedOut(old(session), now) ==>
        session == old(session) && LineOf() == old(LineOf()) && response == old(response) && bytesSent == old(bytesSent)
    {
      if session.active {
        if HasExpired(now, session.lastSign, HEARTBEAT_TIMEOUT_100NS) {
          Reset(now);
        }
      }
    }

    method Reset(now: u32)
      requires Valid()
      modifies `session, `response, `bytesToSend, `bytesSent, `txError, `rx, `lastRxTimestamp, `link
      ensures Valid()
      ensures link == Idle && DataToSend() == 0
      ensures enabled ==> session == Fresh(now) && LineOf() == Line(FRESH, Idle, now)
    {
      link := Idle;
      session := session.(challenge := 0, firstBeat := false, id := 0, active := false);
      if enabled {
        session := session.(lastSign := now);
        ResetRx(now);
        ResetTx();
      }
    }

    method ResetRx(now: u32)
      modifies `rx, `lastRxTimestamp, `link
      ensures (old(Valid()) ==> Valid()) && rx == RESET && rx.Ok(rxBuffer.Length) && RxView() == FRESH && lastRxTimestamp == now
      ensures link == if old(link) == Receiving then Idle else old(link)
    {
      rx := RESET;
      lastRxTimestamp := now;
      if link == Receiving {
        link := Idle;
      }
    }

    method ReceiveLength(data: seq<byte>, i: nat) returns (next: nat)
      requires rx.Ok(rxBuffer.Length) && rx.state.WaitForLength? && i < |data|
      modifies `rx
      ensures rx.Ok(rxBuffer.Length) && i < next <= |data|
      ensures RxView() == Feed(Config(), old(RxView()), data[i..next])
      ensures !CompletesFrame(Config(), old(RxView()), data[i..next])
    {
      hide Crc32, Feed, CompletesFrame;
      ghost var before := RxView();
      var nextState := true;
      if rx.state.lengthBytes == 0 && |data| - i >= 2 {
        next := i + 2;
        rx := rx.(length := 256 * (data[i] as nat) + data[i + 1]);
        FeedTwoLengthBytes(Config(), before, data[i..next]);
      } else {
        next := i + 1;
        assert data[i..next] == [data[i]];
        OneByte(Config(), before, data[i]);
        if rx.state.lengthBytes == 0 {
          rx := rx.(length := 256 * (data[i] as nat), state := WaitForLength(1));
          nextState := false;
        } else {
          rx := rx.(length := rx.length + data[i]);
        }
      }
      var crc := ComputeCrc32(data[i..next], rx.crc);
      rx := rx.(crc := crc);
      if nextState {
        rx := rx.(state := if rx.length == 0 then WaitForCrc(0) else WaitForData(0));
      }
    }

    method ReceivePayload(data: seq<byte>, i: nat) returns (next: nat)
      requires rx.Ok(rxBuffer.Length) && rx.state.WaitForData? && i < |data|
      modifies `rx, rxBuffer
      ensures rx.Ok(rxBuffer.Length) && i <= next <= |data|
      ensures if rx.state == RxFailed then next == i && old(rx.length > rxBuffer.Length) && rx == old(rx).(state := RxFailed, error := RxOverflow)
        else i < next && RxView() == Feed(Config(), old(RxView()), data[i..next]) && !CompletesFrame(Config(), old(RxView()), data[i..next])
    {
      hide Crc32, Feed, CompletesFrame;
      ghost var before := RxView();
      if rx.length > rxBuffer.Length {
        rx := rx.(error := RxOverflow, state := RxFailed);
        next := i;
        return;
      }
      var had := rx.state.dataBytes;
      var count := Min(|data| - i, rx.length - had);
      next := i + count;
      ghost var chunk := data[i..next];
      forall k | 0 <= k < count {
        rxBuffer[had + k] := data[i + k];
      }
      var crc := ComputeCrc32(data[i..next], rx.crc);
      rx := rx.(crc := crc, state := if had + count >= rx.length then WaitForCrc(0) else WaitForData(had + count));
      assert rxBuffer[..had + count] == before.payload + chunk;
      FeedData(Config(), before, chunk);
      DataCompletesNothing(Config(), before, chunk);
    }

    method MustProcessRequest() returns (r: bool)
      requires rx.Ok(rxBuffer.Length) && rx.state.WaitForCrc?
      ensures r == MustProcess(Config(), rx.command, rx.subfunction, RxView().payload)
    {
      if session.active {
        return true;
      }
      var discover := rx.command == COMM_CONTROL && rx.subfunction == DISCOVER;
      if discover && rx.length >= |DISCOVER_MAGIC| {
        discover := rxBuffer[..|DISCOVER_MAGIC|] == DISCOVER_MAGIC;
        assert RxView().payload[..|DISCOVER_MAGIC|] == rxBuffer[..|DISCOVER_MAGIC|];
      } else {
        discover := false;
      }
      r := discover || (rx.command == COMM_CONTROL && rx.subfunction == CONNECT);
    }

    method ProcessActiveRequest(now: u32)
      requires Valid() && rx.state.WaitForCrc? && link == Idle
      modifies `rx, `lastRxTimestamp, `link
      ensures Valid() && link == Idle && lastRxTimestamp in {old(lastRxTimestamp), now}
      ensures
        var v := old(RxView());
        RxView() == if MustProcess(Config(), v.command, v.subfunction, v.payload)
                    then v.(state := WaitForProcess, requestReceived := true) else FRESH
    {
      var mustProcess := MustProcessRequest();
      if mustProcess {
        rx := rx.(state := WaitForProcess, requestReceived := true);
      } else {
        ResetRx(now);
      }
    }

    method ReceiveCrcByte(b: byte, now: u32)
      requires Valid() && rx.state.WaitForCrc? && link != Transmitting
      modifies `rx, `lastRxTimestamp, `link
      ensures Valid() && lastRxTimestamp in {old(lastRxTimestamp), now}
      ensures RxView() == Step(Config(), old(RxView()), b)
      ensures link == if old(rx.state) == WaitForCrc(3) then Idle else old(link)
    {
      hide Glue, MustProcess;
      rx := rx.(sentCrc := Glue(rx.sentCrc, b));
      if rx.state.crcBytes + 1 < 4 {
        rx := rx.(state := WaitForCrc(rx.state.crcBytes + 1));
      } else {
        link := Idle;
        if rx.crc == rx.sentCrc {
          ProcessActiveRequest(now);
        } else {
          ResetRx(now);
        }
      }
    }

    /** One turn of the reception loop. */
    method ReceiveTurn(data: seq<byte>, i: nat, now: u32) returns (next: nat)
      requires Valid() && i < |data| && !rx.requestReceived && rx.state != RxFailed && link != Transmitting
      modifies `rx, `lastRxTimestamp, `link, rxBuffer
      ensures Valid() && lastRxTimestamp in {old(lastRxTimestamp), now}
      ensures i <= next <= |data|
      ensures Turn(Config(), old(RxView()), RxView(), data, i, next)
      ensures link == if old(rx.state) == WaitForCrc(3) then Idle else old(link)
    {
      hide Crc32, Feed, CompletesFrame, Glue, MustProcess;
      ghost var before := RxView();
      OneByte(Config(), before, data[i]);
      assert data[i..i + 1] == [data[i]];
      next := i + 1;
      match rx.state
      case WaitForCommand =>
        rx := rx.(crc := ZERO);
        if data[i] >= 0x80 {
          rx := rx.(error := InvalidCommand, state := RxFailed);
          next := i;
        } else {
          var crc := ComputeCrc32(data[i..i + 1], rx.crc);
          rx := rx.(command := data[i], crc := crc, state := WaitForSubfunction);
        }
      case WaitForSubfunction =>
        var crc := ComputeCrc32(data[i..i + 1], rx.crc);
        rx := rx.(subfunction := data[i], crc := crc, state := WaitForLength(0));
      case WaitForLength(_) =>
        next := ReceiveLength(data, i);
      case WaitForData(_) =>
        next := ReceivePayload(data, i);
      case WaitForCrc(_) =>
        ReceiveCrcByte(data[i], now);
    }

    ghost function LineOf(): Line
      requires rx.Ok(rxBuffer.Length)
      reads this, rxBuffer
    {
      Line(RxView(), link, lastRxTimestamp)
    }

    method ReceiveData(data: seq<byte>, now: u32)
      requires Valid()
      modifies `rx, `lastRxTimestamp, `link, rxBuffer
      ensures Valid()
      ensures !enabled ==> LineOf() == old(LineOf()).(rx := old(RxView()).(error := RxDisabled))
      ensures enabled ==> LineOf() == Arrive(Config(), old(LineOf()), Arrival(data, now))
    {
      hide Feed, CompletesFrame, Step;
      if !enabled {
        rx := rx.(error := RxDisabled);
        return;
      }
      if link == Transmitting {
        return;
      }
      if |data| != 0 {
        if HasExpired(now, lastRxTimestamp, RX_TIMEOUT_100NS) {
          ResetRx(now);
          link := Idle;
        }
        lastRxTimestamp := now;
        if link == Idle {
          link := Receiving;
        }
      }
      ghost var start, waiting := RxView(), link;
      assert start == if TooLate(old(lastRxTimestamp), Arrival(data, now)) then FRESH else old(RxView());
      ghost var completed := false;
      var i := 0;
      assert data[0..] == data;
      while i < |data| && !rx.requestReceived && rx.state != RxFailed
        invariant 0 <= i <= |data| && Valid()
        invariant Feed(Config(), RxView(), data[i..]) == Feed(Config(), start, data)
        invariant completed || CompletesFrame(Config(), RxView(), data[i..]) <==> CompletesFrame(Config(), start, data)
        invariant waiting != Transmitting && link == if completed then Idle else waiting
        invariant lastRxTimestamp == if data == [] then old(lastRxTimestamp) else now
        invariant data == [] ==> waiting == old(link) && !completed
        invariant data != [] ==> waiting == Receiving
        decreases |data| - i, rx.state != RxFailed
      {
        ghost var before, at := RxView(), i;
        completed := completed || rx.state == WaitForCrc(3);
        i := ReceiveTurn(data, i, now);
        TurnThenRest(Config(), before, RxView(), data, at, i);
      }
      RestIgnored(Config(), RxView(), data[i..]);
      assert RxView() == Feed(Config(), start, data);
      if data == [] {
        RestIgnored(Config(), start, data);
      }
    }

    /** The frame that the stored response stands for. */
    ghost function Frame(): (f: seq<byte>)
      requires response.length <= response.data.Length
      reads `response, response.data
      ensures |f| == 9 + response.length
    {
      Header(response.command, response.subfunction, response.code, response.length)
      + response.data[..response.length] + CrcBytes(response.crc)
    }

    method ResetTx()
      requires response.data != rxBuffer
      modifies `response, `bytesToSend, `bytesSent, `txError, `link
      ensures TxValid() && bytesToSend == 0 && bytesSent == 0 && txError == NoTxError
      ensures response == old(response).(command := 0, subfunction := 0, code := 0, length := 0)
      ensures link == if old(link) == Transmitting then Idle else old(link)
    {
      response := response.(command := 0, subfunction := 0, code := 0, length := 0);
      bytesToSend, bytesSent := 0, 0;
      txError := NoTxError;
      if link == Transmitting {
        link := Idle;
      }
    }

    method SendResponse(r: Response) returns (ok: bool)
      requires Valid() && r.data != rxBuffer && r.length <= r.data.Length
      modifies `response, `bytesToSend, `bytesSent, `txError, `link
      ensures Valid()
      ensures ok <==> SendVerdict(enabled, old(link), r.length, txBufferSize) == NoTxError
      ensures ok ==>
        && link == Transmitting && bytesSent == 0
        && Frame() == ResponseFrame(r.command as int % 0x80 + 0x80, r.subfunction, r.code, r.data[..r.length])
      ensures !ok ==> link == old(link) && bytesSent == old(bytesSent)
      ensures txError == SendVerdict(enabled, old(link), r.length, txBufferSize)
    {
      hide Crc32, CrcBytes;
      txError := NoTxError;
      if !enabled {
        txError := TxDisabled;
        return false;
      }
      if link != Idle {
        txError := TxBusy;
        return false;
      }
      if r.length > txBufferSize {
        ResetTx();
        txError := TxOverflow;
        return false;
      }
      var command := if r.command < 0x80 then r.command + 0x80 else r.command;
      response := Response(command, r.subfunction, r.code, r.length, r.data, response.crc);
      AddCrc();
      bytesToSend := 1 + 1 + 1 + 2 + response.length + 4;
      link := Transmitting;
      ok := true;
    }

    method AddCrc()
      requires response.length <= response.data.Length && response.length <= txBufferSize
      modifies `response
      ensures
        var o := old(response);
        response == o.(crc := Crc32(Header(o.command, o.subfunction, o.code, o.length) + o.data[..o.length], ZERO))
    {
      hide Crc32;
      var header := Header(response.command, response.subfunction, response.code, response.length);
      var crc := ComputeCrc32(header, ZERO);
      Crc32Concat(header, response.data[..response.length], ZERO);
      crc := ComputeCrc32(response.data[..response.length], crc);
      response := response.(crc := crc);
    }

    function DataToSend(): nat
      requires TxValid()
      reads this
    {
      if link != Transmitting then 0 else bytesToSend - bytesSent
    }

    /** Copies the next bytes of the frame to `buffer[..count]`. */
    method PopData(buffer: array<byte>, len: u16, now: u32) returns (count: u16)
      requires Valid() && len <= buffer.Length && buffer != rxBuffer && buffer != response.data
      modifies `response, `bytesToSend, `bytesSent, `txError, `link, `rx, `lastRxTimestamp, buffer
      ensures Valid() && count <= len && buffer[count..] == old(buffer[count..])
      ensures response.data == old(response.data)
      ensures old(link) != Transmitting ==> count == 0 && LineOf() == old(LineOf())
      ensures old(link) == Transmitting ==>
        && buffer[..count] == Piece(old(Frame()), old(bytesSent), len)
        && DataToSend() + count == old(DataToSend())
        && if count == old(DataToSend()) then LineOf() == Line(FRESH, Idle, now) && bytesSent == 0
           else LineOf() == old(LineOf()) && Frame() == old(Frame()) && bytesSent == old(bytesSent) + count
    {
      hide Frame;
      if link != Transmitting {
        return 0;
      }
      ghost var frame, start := Frame(), bytesSent;
      count := if len > bytesToSend - bytesSent then bytesToSend - bytesSent else len;
      CopyFrame(buffer, count);
      assert buffer[..count] == frame[start..start + count];
      if bytesSent >= bytesToSend {
        ResetTx();
        ResetRx(now);
      }
    }

    method CopyFrame(buffer: array<byte>, limit: u16)
      requires Sending() && limit <= buffer.Length && limit <= bytesToSend - bytesSent && buffer != response.data
      modifies `bytesSent, buffer
      ensures Popped(buffer, 0, limit)
    {
      hide Frame;
      ghost var frame, start := Frame(), bytesSent;
      var i := PopHeader(buffer, 0, limit);
      if bytesSent >= 5 && i < limit {
        i := PopPayload(buffer, i, limit);
        i := PopCrc(buffer, i, limit);
      }
      assert forall k | 0 <= k < i :: buffer[k] == frame[start + k];
    }

    /** Transmitting, with possibly nothing left to send. */
    ghost predicate Sending()
      reads this
    {
      && link == Transmitting && response.length <= response.data.Length
      && bytesToSend == 9 + response.length && bytesSent <= bytesToSend
    }

    /** `buffer[i..next]` now holds the frame from byte `start` on. */
    twostate predicate Popped(buffer: array<byte>, i: int, next: int)
      requires old(Sending())
      reads this, buffer, response.data
    {
      && 0 <= i <= next <= buffer.Length && bytesSent == old(bytesSent) + next - i <= old(bytesToSend)
      && (forall k | 0 <= k < i || next <= k < buffer.Length :: buffer[k] == old(buffer[k]))
      && (forall k | i <= k < next :: buffer[k] == old(Frame())[old(bytesSent) + k - i])
    }

    method PopHeader(buffer: array<byte>, from: u16, limit: u16) returns (i: u16)
      requires Sending() && from <= limit <= buffer.Length && limit - from <= bytesToSend - bytesSent
      requires buffer != response.data
      modifies `bytesSent, buffer
      ensures i <= limit && (i == limit || bytesSent >= 5) && Popped(buffer, from, i)
    {
      hide CrcBytes;
      ghost var frame, start := Frame(), bytesSent;
      i := from;
      while bytesSent < 5 && i < limit
        invariant from <= i <= limit && bytesSent == start + i - from <= bytesToSend
        invariant forall k | 0 <= k < from || i <= k < buffer.Length :: buffer[k] == old(buffer[k])
        invariant forall k | from <= k < i :: buffer[k] == frame[start + k - from]
        decreases limit - i
      {
        if bytesSent == 0 {
          buffer[i] := response.command;
        } else if bytesSent == 1 {
          buffer[i] := response.subfunction;
        } else if bytesSent == 2 {
          buffer[i] := response.code;
        } else if bytesSent == 3 {
          buffer[i] := response.length / 256;
        } else {
          buffer[i] := response.length % 256;
        }
        assert buffer[i] == frame[bytesSent];
        i := i + 1;
        bytesSent := bytesSent + 1;
      }
    }

    method PopPayload(buffer: array<byte>, i: u16, limit: u16) returns (next: u16)
      requires Sending() && i <= limit <= buffer.Length && limit - i <= bytesToSend - bytesSent
      requires buffer != response.data && bytesSent >= 5
      modifies `bytesSent, buffer
      ensures i <= next <= limit && (next == limit || bytesSent >= 5 + response.length) && Popped(buffer, i, next)
    {
      hide CrcBytes;
      next := i;
      var sent := bytesSent - 5;
      if sent < response.length {
        var count := Min(limit - i, response.length - sent);
        forall k | 0 <= k < count {
          buffer[i + k] := response.data[sent + k];
        }
        next := i + count;
        bytesSent := bytesSent + count;
      }
    }

    method PopCrc(buffer: array<byte>, i: u16, limit: u16) returns (next: u16)
      requires Sending() && i <= limit <= buffer.Length && limit - i <= bytesToSend - bytesSent
      requires buffer != response.data && (i == limit || bytesSent >= 5 + response.length)
      modifies `bytesSent, buffer
      ensures next == limit && Popped(buffer, i, next)
    {
      hide CrcBytes;
      ghost var frame, start := Frame(), bytesSent;
      var crcBytes := CrcBytes(response.crc);
      var crcPosition := response.length + 5;
      next := i;
      while next < limit
        invariant i <= next <= limit && bytesSent == start + next - i <= bytesToSend
        invariant forall k | 0 <= k < i || next <= k < buffer.Length :: buffer[k] == old(buffer[k])
        invariant forall k | i <= k < next :: buffer[k] == frame[start + k - i]
      {
        buffer[next] := crcBytes[bytesSent - crcPosition];
        assert buffer[next] == frame[bytesSent];
        next := next + 1;
        bytesSent := bytesSent + 1;
      }
    }
  }

  /** Reading `data[i..next]` leads from `a` to `b`; a refused byte may be left unread. */
  ghost predicate Turn(cfg: RxConfig, a: Rx, b: Rx, data: seq<byte>, i: nat, next: nat)
    requires i <= next <= |data|
  {
    if next == i then i < |data| && b == Step(cfg, a, data[i]) && b.state == RxFailed && a.state != WaitForCrc(3)
    else b == Feed(cfg, a, data[i..next]) && (CompletesFrame(cfg, a, data[i..next]) <==> a.state == WaitForCrc(3))
  }

  lemma TurnThenRest(cfg: RxConfig, a: Rx, b: Rx, data: seq<byte>, i: nat, next: nat)
    requires i <= next <= |data| && Turn(cfg, a, b, data, i, next) && !a.requestReceived
    ensures Feed(cfg, b, data[next..]) == Feed(cfg, a, data[i..])
    ensures CompletesFrame(cfg, a, data[i..]) <==> a.state == WaitForCrc(3) || CompletesFrame(cfg, b, data[next..])
  {
    hide Feed, CompletesFrame, Step;
    if next == i {
      FirstByte(cfg, a, data, i);
      FailedStays(cfg, b, data, i);
    } else {
      assert data[i..] == data[i..next] + data[next..];
      FeedConcat(cfg, a, data[i..next], data[next..]);
      CompletesConcat(cfg, a, data[i..next], data[next..]);
    }
  }
}
