// The communication part of the main handler: it owns a CommHandler and the flags of the request
// being served.
module CommServer {
  import opened Words
  import opened Wrappers
  import opened Timebase
  import opened CommReceive
  import opened CommSession
  import opened CommLink
  import opened CommLine
  import opened CommTransmit
  import opened Chunks
  import opened Comm
  import V = CommServing

  const FAILURE_TO_PROCEED: byte := 5

  class Server {
    const comm: CommHandler
    var enabled: bool
    var answering: bool
    var disconnect: bool
    var again: Option<u32>

    constructor (comm: CommHandler)
      ensures this.comm == comm && enabled == comm.enabled && !answering && !disconnect && again.None?
    {
      this.comm, enabled, answering, disconnect, again := comm, comm.enabled, false, false, None;
    }

    ghost predicate Valid()
      reads this, comm
    {
      comm.Valid() && (enabled ==> comm.enabled)
    }

    ghost function Sizes(): V.Sizes
      reads comm
    {
      V.Sizes(comm.rxBuffer.Length, comm.txBufferSize)
    }

    ghost function PortOf(): V.Port
      requires comm.rx.Ok(comm.rxBuffer.Length)
      reads this, comm, comm.rxBuffer
    {
      V.Port(comm.LineOf(), comm.session, comm.sessionCounter, answering, disconnect, again)
    }

    method ReceiveData(data: seq<byte>, now: u32)
      requires Valid() && enabled
      modifies comm`rx, comm`lastRxTimestamp, comm`link, comm.rxBuffer
      ensures Valid() && PortOf() == V.After(Sizes(), old(PortOf()), V.Comes(Arrival(data, now)))
    {
      hide Arrive;
      comm.ReceiveData(data, now);
    }

    /** Connect, Heartbeat and Disconnect; other requests leave the CommHandler alone. */
    method Execute(now: u32)
      requires Valid() && enabled && comm.rx.requestReceived
      modifies `disconnect, comm`session, comm`sessionCounter, comm`rx, comm`lastRxTimestamp, comm`link
      ensures Valid() && PortOf() == V.Execute(old(PortOf()), now)
      ensures old(comm.link) != Transmitting ==> comm.link != Transmitting
    {
      hide Word32, Word16;
      ghost var rx := comm.RxView();
      assert rx.payload == comm.rxBuffer[..comm.rx.length];
      if comm.rx.command != COMM_CONTROL {
        return;
      }
      if comm.rx.subfunction == CONNECT {
        if comm.rx.length == 4 && !comm.session.active {
          var ok := comm.Connect(now);
        }
      } else if comm.rx.subfunction == V.HEARTBEAT {
        if comm.rx.length == 6 {
          assert rx.payload[..4] == comm.rxBuffer[..4] && rx.payload[4..] == comm.rxBuffer[4..6];
          if Word32(comm.rxBuffer[..4]) == comm.session.id {
            var ok := comm.Heartbeat(Word16(comm.rxBuffer[4..6]), now);
          }
        }
      } else if comm.rx.subfunction == V.DISCONNECT {
        if comm.rx.length == 4 && comm.session.active {
          assert rx.payload[..4] == comm.rxBuffer[..4];
          if Word32(comm.rxBuffer[..4]) == comm.session.id {
            disconnect := true;
          }
        }
      }
    }

    method CheckFinished(now: u32)
      requires Valid()
      modifies `answering, `disconnect, `again
      modifies comm`session, comm`response, comm`bytesToSend, comm`bytesSent, comm`txError, comm`rx, comm`lastRxTimestamp, comm`link
      ensures Valid() && PortOf() == V.CheckFinished(old(PortOf()), now)
      ensures (comm.link == Transmitting <==> old(comm.link) == Transmitting) && comm.response.data == old(comm.response.data)
      ensures comm.link == Transmitting ==> comm.response == old(comm.response) && comm.bytesSent == old(comm.bytesSent)
    {
      if answering && comm.link != Transmitting {
        comm.ResetRx(now);
        answering, again := false, None;
        if disconnect {
          comm.Disconnect(now);
          disconnect := false;
        }
      }
    }

    /** The response that is sent for the stored request. */
    ghost function Response(rx: Rx, o: V.Outcome, code: byte): seq<byte>
      requires o.Reply? ==> o.length <= comm.response.data.Length && o.length < 0x1_0000
      reads comm, comm.response.data
    {
      var command := rx.command as int % 0x80 + 0x80;
      match o
      case Reply(length) => ResponseFrame(command, rx.subfunction, code, comm.response.data[..length])
      case _ => ResponseFrame(command, rx.subfunction, FAILURE_TO_PROCEED, [])
    }

    /** Serves the stored request; `o` and `code` are what serving it comes to. */
    method Answer(o: V.Outcome, code: byte, now: u32)
      requires Valid() && enabled && comm.rx.requestReceived && comm.link != Transmitting
      requires o.Reply? ==> o.length <= comm.response.data.Length && o.length < 0x1_0000
      modifies `answering, `disconnect, `again
      modifies comm`session, comm`sessionCounter, comm`response, comm`bytesToSend, comm`bytesSent, comm`txError, comm`rx, comm`lastRxTimestamp, comm`link
      ensures Valid() && PortOf() == V.Answer(Sizes(), old(PortOf()), o, now)
      ensures comm.link == Transmitting ==> comm.Frame() == old(Response(comm.RxView(), o, code)) && comm.bytesSent == 0
    {
      hide ResponseFrame, V.Execute, Comm.CommHandler.Frame;
      var command, subfunction := comm.rx.command, comm.rx.subfunction;
      Execute(now);
      match o {
        case TryAgain =>
          if again.None? {
            again := Some(now);
          } else if HasExpired(now, again.value, V.MAX_PROCESS_TIME_100NS) {
            var sent := comm.SendResponse(Comm.Response(command, subfunction, FAILURE_TO_PROCEED, 0, comm.response.data, comm.response.crc));
            answering := true;
          }
        case NoResponse =>
          answering := true;
        case Reply(length) =>
          var sent := comm.SendResponse(Comm.Response(command, subfunction, code, length, comm.response.data, comm.response.crc));
          answering := true;
      }
    }

    /** The communication part of a process call. */
    method Process(o: V.Outcome, code: byte, now: u32)
      requires Valid() && V.Settled(PortOf()) && (enabled ==> V.Legal(PortOf().line.rx, o))
      requires o.Reply? ==> o.length <= comm.response.data.Length && o.length < 0x1_0000
      modifies this
      modifies comm`session, comm`sessionCounter, comm`response, comm`bytesToSend, comm`bytesSent, comm`txError, comm`rx, comm`lastRxTimestamp, comm`link
      ensures Valid() && enabled == old(enabled) && V.Settled(PortOf())
      ensures !enabled ==> !answering && !disconnect && comm.link == Idle
      ensures enabled ==> PortOf() == V.Call(Sizes(), old(PortOf()), o, now)
      ensures enabled && comm.link == Transmitting && old(comm.link) != Transmitting ==>
        comm.Frame() == old(Response(comm.RxView(), o, code)) && comm.bytesSent == 0
    {
      hide ResponseFrame, V.Answer, V.CheckFinished, Comm.CommHandler.Frame, TimedOut;
      if !enabled {
        answering, disconnect := false, false;
        comm.Reset(now);
        return;
      }
      V.AfterSettles(Sizes(), PortOf(), V.Process(o, now));
      ghost var frame := Response(comm.RxView(), o, code);
      comm.Process(now);
      assert PortOf() == V.Tick(old(PortOf()), now);
      if comm.rx.requestReceived && !answering {
        assert Response(comm.RxView(), o, code) == frame;
        Answer(o, code, now);
      }
      CheckFinished(now);
    }

    /** Copies the next bytes of the response; when the last one leaves, the next request may come. */
    method PopData(buffer: array<byte>, len: u16, now: u32) returns (count: u16)
      requires Valid() && V.Settled(PortOf())
      requires len <= buffer.Length && buffer != comm.rxBuffer && buffer != comm.response.data
      modifies `answering, `disconnect, `again, buffer
      modifies comm`session, comm`response, comm`bytesToSend, comm`bytesSent, comm`txError, comm`rx, comm`lastRxTimestamp, comm`link
      ensures Valid() && V.Settled(PortOf()) && count <= len && buffer[count..] == old(buffer[count..])
      ensures comm.response.data == old(comm.response.data)
      ensures old(comm.link) != Transmitting ==> count == 0 && PortOf() == old(PortOf())
      ensures old(comm.link) == Transmitting ==>
        && buffer[..count] == Piece(old(comm.Frame()), old(comm.bytesSent), len)
        && if count == old(comm.DataToSend()) then PortOf() == V.After(Sizes(), old(PortOf()), V.Sent(now))
           else PortOf() == old(PortOf()) && comm.Frame() == old(comm.Frame()) && comm.bytesSent == old(comm.bytesSent) + count
    {
      hide Comm.CommHandler.Frame;
      count := comm.PopData(buffer, len, now);
      CheckFinished(now);
    }
  }

  /** A response with `pos` of its bytes gone. */
  ghost predicate Sending(server: Server, port: V.Port, frame: seq<byte>, pos: nat, now: u32)
    reads server, server.comm, server.comm.rxBuffer, server.comm.response.data
  {
    && server.Valid() && V.Settled(server.PortOf()) && pos <= |frame|
    && if pos < |frame| then
         && server.comm.link == Transmitting && server.PortOf() == port
         && server.comm.Frame() == frame && server.comm.bytesSent == pos
       else server.comm.link != Transmitting && server.PortOf() == V.After(server.Sizes(), port, V.Sent(now))
  }

  method PopPiece(server: Server, ghost port: V.Port, ghost frame: seq<byte>, ghost pos: nat, size: u16, now: u32)
    returns (piece: seq<byte>)
    requires Sending(server, port, frame, pos, now) && pos <= |frame|
    modifies server, server.comm
    ensures piece == Piece(frame, pos, size) && Sending(server, port, frame, pos + |piece|, now)
    ensures server.comm.response.data == old(server.comm.response.data)
  {
    hide Comm.CommHandler.Frame, V.Call, Arrive, V.CheckFinished;
    var buffer := new byte[size];
    V.SentIdles(server.Sizes(), port, now);
    var count := server.PopData(buffer, size, now);
    piece := buffer[..count];
  }

  method PopPieces(server: Server, ghost port: V.Port, ghost frame: seq<byte>, ghost start: nat, sizes: seq<nat>, now: u32)
    returns (out: seq<byte>)
    requires start <= |frame| && Sending(server, port, frame, start, now)
    requires forall i | 0 <= i < |sizes| :: sizes[i] < 0x1_0000
    modifies server, server.comm
    ensures out == Drain(frame, start, sizes) && start + |out| <= |frame|
    ensures Sending(server, port, frame, start + |out|, now)
    ensures server.comm.response.data == old(server.comm.response.data)
  {
    hide Sending, Piece, Drain;
    out := [];
    assert sizes[0..] == sizes;
    for k := 0 to |sizes|
      invariant start + |out| <= |frame| && Sending(server, port, frame, start + |out|, now)
      invariant out + Drain(frame, start + |out|, sizes[k..]) == Drain(frame, start, sizes)
      invariant server.comm.response.data == old(server.comm.response.data)
    {
      var piece := PopPiece(server, port, frame, start + |out|, sizes[k], now);
      OnePieceMore(frame, start + |out|, out, piece, sizes, k);
      out := out + piece;
    }
    DrainNothing(frame, start + |out|, sizes[|sizes|..]);
  }

  /** Pops a response in pieces of any sizes; `out` is what the client gets. */
  method PopAll(server: Server, sizes: seq<nat>, now: u32) returns (out: seq<byte>)
    requires server.Valid() && V.Settled(server.PortOf()) && server.comm.link == Transmitting
    requires forall i | 0 <= i < |sizes| :: sizes[i] < 0x1_0000
    modifies server, server.comm
    ensures server.Valid() && V.Settled(server.PortOf())
    ensures out == Drain(old(server.comm.Frame()), old(server.comm.bytesSent), sizes)
    ensures server.PortOf() == if |out| < old(server.comm.DataToSend()) then old(server.PortOf())
                               else V.After(server.Sizes(), old(server.PortOf()), V.Sent(now))
  {
    hide Comm.CommHandler.Frame, V.After, Drain;
    out := PopPieces(server, server.PortOf(), server.comm.Frame(), server.comm.bytesSent, sizes, now);
  }
}
