// The objects of the ownership protocol: mailboxes, loop handlers and the datalogging part of
// the main handler. Each method does one step of the machine in module Ownership.
module Handlers {
  import opened Words
  import opened Checksum
  import opened LoggerTypes
  import opened Wrappers
  import opened Protocol
  import opened RawEncoder
  import opened Acquisition
  import opened Datalogging
  import opened Download
  import opened MemoryRead
  import opened ConfigCodec
  import opened ConfigureRequests
  import opened Chunks
  import O = Ownership
  import Runs = OwnershipRuns

  /** A single-slot mailbox: one writer, one reader. */
  class IpcMessage<T> {
    var data: T
    var written: bool

    constructor (blank: T)
      ensures View() == None
    {
      data, written := blank, false;
    }

    function View(): Option<T>
      reads this
    {
      if written then Some(data) else None
    }

    predicate HasContent()
      reads this
      ensures HasContent() <==> View().Some?
    {
      written
    }

    method Send(message: T)
      modifies this
      ensures View() == Some(message)
    {
      data := message;
      written := true;
    }

    method Pop() returns (message: T)
      modifies this
      ensures View() == None && message == old(data)
    {
      message := data;
      written := false;
    }
  }

  class LoopHandler {
    const self: nat
    const datalogger: DataLogger
    const inbox: IpcMessage<O.ToLoop>
    const outbox: IpcMessage<O.ToMain>
    const allowed: bool
    var dataAcquired: bool

    constructor (self: nat, datalogger: DataLogger, allowed: bool)
      ensures View() == O.Loop(None, None, false, allowed)
      ensures this.self == self && this.datalogger == datalogger && fresh(inbox) && fresh(outbox)
    {
      this.self, this.datalogger, this.allowed := self, datalogger, allowed;
      var i := new IpcMessage(O.Take);
      var o := new IpcMessage(O.Taken);
      inbox, outbox, dataAcquired := i, o, false;
    }

    function View(): O.Loop
      reads this, inbox, outbox
    {
      O.Loop(inbox.View(), outbox.View(), dataAcquired, allowed)
    }

    predicate OwnsDatalogger()
      reads datalogger
    {
      datalogger.owner == Some(self)
    }

    method TakeMessage()
      requires datalogger.Valid()
      modifies this, inbox, outbox, datalogger`owner, datalogger`state
      ensures datalogger.Valid()
      ensures (View(), LoggerOf(datalogger)) == O.TakeMessage(old(View()), old(LoggerOf(datalogger)), self)
    {
      hide DataLogger.Valid;
      if inbox.HasContent() && !outbox.HasContent() {
        var message := inbox.Pop();
        match message
        case Take =>
          datalogger.SetOwner(Some(self));
          dataAcquired := false;
          outbox.Send(O.Taken);
        case Arm =>
          if OwnsDatalogger() {
            datalogger.ArmTrigger();
          }
        case Disarm =>
          if OwnsDatalogger() {
            datalogger.DisarmTrigger();
          }
        case Release =>
          if OwnsDatalogger() {
            datalogger.SetOwner(None);
            outbox.Send(O.Released);
          }
      }
    }

    method RunLogger(now: u32, condition: Option<bool>, sample: seq<seq<byte>>)
      requires datalogger.Valid() && (!datalogger.encoder.error ==> Matches(sample, datalogger.encoder.items))
      modifies this, outbox, datalogger, datalogger.encoder, datalogger.encoder.buffer
      ensures datalogger.Valid() && ProcessMoves(old(datalogger.state), datalogger.state)
      ensures (View(), LoggerOf(datalogger)) ==
              O.RunLogger(old(View()), old(LoggerOf(datalogger)), self, ReportOf(datalogger))
    {
      assert datalogger.encoder.modulus > 0;
      hide DataLogger.Valid, Acquisition.Process, Matches;
      if OwnsDatalogger() {
        datalogger.Process(now, condition, sample);
        if !outbox.HasContent() {
          if datalogger.state == Completed && !dataAcquired {
            outbox.Send(O.DataAcquired);
            dataAcquired := true;
          } else {
            var report := O.Report(datalogger.state, 0, 0);
            if datalogger.state == Triggered {
              report := O.Report(datalogger.state, datalogger.window.remaining, datalogger.encoder.GetDataWriteCounter());
            }
            outbox.Send(O.StatusUpdate(report));
          }
        }
      }
    }
  }

  /** State and byte counts, as the owner sees them. */
  function ReportOf(d: DataLogger): O.Report
    requires d.encoder.modulus > 0
    reads d, d.encoder
  {
    O.Report(d.state, d.window.remaining, d.encoder.GetDataWriteCounter())
  }

  function LoggerOf(d: DataLogger): O.Logger
    reads d
  {
    O.Logger(d.owner, d.state, d.configValid)
  }

  class MainHandler {
    const loops: seq<LoopHandler>
    const datalogger: DataLogger
    const forbidden: seq<Range>
    const published: Published
    /** The loops' mailboxes, by side. */
    const inboxes: seq<IpcMessage<O.ToLoop>>
    const outboxes: seq<IpcMessage<O.ToMain>>
    var datalogging: O.Main
    var readCounter: byte
    var readCrc: Crc

    constructor (loops: seq<LoopHandler>, datalogger: DataLogger, forbidden: seq<Range>, published: Published)
      requires forall i | 0 <= i < |loops| :: loops[i].self == i && loops[i].datalogger == datalogger
      requires forall i, j | 0 <= i < j < |loops| :: loops[i].inbox != loops[j].inbox && loops[i].outbox != loops[j].outbox
      ensures Wired() && KnownLoops()
      ensures this.loops == loops && this.datalogger == datalogger
      ensures this.forbidden == forbidden && this.published == published
      ensures datalogging == O.Main(None, None, O.NoFault, false, false, false, false, O.Report(datalogger.state, 0, 0), false)
    {
      this.loops, this.datalogger, this.forbidden, this.published := loops, datalogger, forbidden, published;
      inboxes := seq(|loops|, i requires 0 <= i < |loops| => loops[i].inbox);
      outboxes := seq(|loops|, i requires 0 <= i < |loops| => loops[i].outbox);
      datalogging := O.Main(None, None, O.NoFault, false, false, false, false, O.Report(datalogger.state, 0, 0), false);
      readCounter, readCrc := 0, ZERO;
    }

    /** Every loop has its own pair of mailboxes and shares the one logger. */
    predicate Wired() {
      && |inboxes| == |outboxes| == |loops|
      && (forall i | 0 <= i < |loops| ::
            loops[i].self == i && loops[i].datalogger == datalogger
            && loops[i].inbox == inboxes[i] && loops[i].outbox == outboxes[i])
      && (forall i, j | 0 <= i < j < |loops| :: inboxes[i] != inboxes[j] && outboxes[i] != outboxes[j])
    }

    function LoopViews(): (r: seq<O.Loop>)
      reads loops, inboxes, outboxes
      requires Wired()
      ensures |r| == |loops| && forall i | 0 <= i < |loops| :: r[i] == loops[i].View()
    {
      seq(|loops|, i requires 0 <= i < |loops| reads loops, inboxes, outboxes => loops[i].View())
    }

    ghost function System(): (s: O.Sys)
      requires Wired()
      reads this, datalogger, loops, inboxes, outboxes
      ensures |s.loops| == |loops|
    {
      O.Sys(datalogging, LoggerOf(datalogger), LoopViews())
    }

    method ProcessDataloggingLoopMessage(sender: nat, message: O.ToMain)
      requires datalogger.Valid()
      modifies `datalogging, datalogger`state, datalogger`trigger, datalogger`window, datalogger`configValid
      ensures datalogger.Valid()
      ensures (datalogging, LoggerOf(datalogger)) ==
              O.ReadMessage(old(datalogging), old(LoggerOf(datalogger)), sender, message)
      ensures datalogging.owner in {None, Some(sender), old(datalogging.owner)} && datalogging.newOwner == old(datalogging.newOwner)
    {
      hide DataLogger.Valid;
      match message
      case Taken =>
        if datalogging.owner.Some? {
          datalogging := datalogging.(fault := O.UnexpectedClaim);
        }
        datalogging := datalogging.(owner := Some(sender));
      case Released =>
        if datalogging.owner != Some(sender) {
          datalogging := datalogging.(fault := O.UnexpectedRelease);
        }
        datalogging := datalogging.(owner := None);
        datalogger.ResetValid();
        datalogging := datalogging.(pending := false);
      case StatusUpdate(report) =>
        datalogging := datalogging.(seen := report);
        if report.state != Completed {
          datalogging := datalogging.(reading := false);
        }
      case DataAcquired =>
    }

    lemma WiredLoop(i: nat)
      requires Wired() && i < |loops|
      ensures |inboxes| == |outboxes| == |loops| && loops[i].inbox == inboxes[i] && loops[i].outbox == outboxes[i]
    {}

    method SendTo(i: nat, message: O.ToLoop)
      requires Wired() && i < |loops|
      modifies inboxes[i]
      ensures LoopViews() == old(LoopViews())[i := old(loops[i].View()).(inbox := Some(message))]
    {
      inboxes[i].Send(message);
    }

    /** Reads the message of loop `i`, if there is one. */
    method ProcessLoop(i: nat)
      requires Wired() && KnownLoops() && datalogger.Valid() && i < |loops|
      modifies `datalogging, datalogger`state, datalogger`trigger, datalogger`window, datalogger`configValid, outboxes[i]
      ensures datalogger.Valid() && KnownLoops()
      ensures System() == O.Next(old(System()), O.Pop(i))
    {
      hide DataLogger.Valid, O.ReadMessage;
      if outboxes[i].HasContent() {
        ghost var before := LoopViews();
        var message := outboxes[i].Pop();
        ProcessDataloggingLoopMessage(i, message);
        assert LoopViews() == before[i := before[i].(outbox := None)];
      }
    }

    method ProcessLoops()
      requires Wired() && KnownLoops() && datalogger.Valid()
      modifies `datalogging, datalogger`state, datalogger`trigger, datalogger`window, datalogger`configValid, outboxes
      ensures datalogger.Valid() && KnownLoops()
      ensures System() == Runs.PopAll(old(System()), |loops|)
    {
      hide DataLogger.Valid, System, O.Next;
      for i := 0 to |loops|
        invariant datalogger.Valid() && KnownLoops()
        invariant System() == Runs.PopAll(old(System()), i)
      {
        ProcessLoop(i);
      }
    }

    /** Main only ever addresses loops it has. */
    predicate KnownLoops()
      reads this
    {
      && (datalogging.owner.Some? ==> datalogging.owner.value < |loops|)
      && (datalogging.newOwner.Some? ==> datalogging.newOwner.value < |loops|)
    }

    method ProcessDataloggingLogic()
      requires Wired() && KnownLoops()
      modifies `datalogging, inboxes
      ensures KnownLoops() && System() == O.Next(old(System()), O.RunLogic)
    {
      if datalogging.fault != O.NoFault {
        return;
      }
      if datalogging.owner.None? {
        GiveOwnership();
      } else {
        InstructOwner();
      }
    }

    method GiveOwnership()
      requires Wired() && KnownLoops() && datalogging.fault == O.NoFault && datalogging.owner.None?
      modifies `datalogging, inboxes
      ensures KnownLoops() && System() == O.Next(old(System()), O.RunLogic)
    {
      hide LoopViews, Wired, O.Logic;
      LogicUnowned(datalogging, LoggerOf(datalogger), LoopViews());
      var m := datalogging.(seen := datalogging.seen.(state := datalogger.state));
      if m.newOwner.Some? {
        var i := m.newOwner.value;
        WiredLoop(i);
        if !inboxes[i].HasContent() {
          SendTo(i, O.Take);
          m := m.(newOwner := None);
        }
      }
      datalogging := m.(arm := false, disarm := false);
    }

    method InstructOwner()
      requires Wired() && KnownLoops() && datalogging.fault == O.NoFault && datalogging.owner.Some?
      modifies `datalogging, inboxes
      ensures KnownLoops() && System() == O.Next(old(System()), O.RunLogic)
    {
      hide LoopViews, Wired, O.Logic;
      WiredLoop(datalogging.owner.value);
      LogicOwned(datalogging, LoggerOf(datalogger), LoopViews());
      var i := datalogging.owner.value;
      if !inboxes[i].HasContent() {
        if datalogging.release {
          SendTo(i, O.Release);
          datalogging := datalogging.(release := false, pending := true);
        } else if datalogging.arm {
          SendTo(i, O.Arm);
          datalogging := datalogging.(arm := false);
        } else if datalogging.disarm {
          SendTo(i, O.Disarm);
          datalogging := datalogging.(disarm := false);
        }
      }
    }

    /** What a process call does before and after it serves a request. */
    method ProcessLoopsAndLogic()
      requires Wired() && KnownLoops() && datalogger.Valid()
      modifies `datalogging, datalogger`state, datalogger`trigger, datalogger`window, datalogger`configValid, inboxes, outboxes
      ensures datalogger.Valid() && KnownLoops()
      ensures System() == Runs.BeforeRequest(old(System()))
    {
      hide DataLogger.Valid, System, O.Next, Runs.PopAll;
      ProcessLoops();
      ProcessDataloggingLogic();
    }

    /** `leftover` is what a decoding that fails leaves in the configuration object. */
    method ConfigureDatalog(data: seq<byte>, leftover: Configuration) returns (code: Code)
      requires Wired() && KnownLoops() && datalogger.Valid()
      modifies `datalogging, datalogger, datalogger.encoder, datalogger.reader
      ensures datalogger.Valid() && KnownLoops()
      ensures (datalogging, LoggerOf(datalogger), code) ==
              O.Handle(old(datalogging), old(LoggerOf(datalogger)), old(LoopViews()), RequestOf(data, forbidden, published))
      ensures code == ProcessAgain ==> datalogger.config == old(datalogger.config)
      ensures code == Ok ==>
        && ConfigCodec.Decode(data).Success? && datalogger.config == ConfigCodec.Decode(data).value.config
        && datalogger.configId == ConfigCodec.Decode(data).value.id && datalogger.encoder.log == []
    {
      hide Acceptable, DataLogger.Valid, RawFormatEncoder.Valid, Wired, LoopViews, ConfigCodec.Decode, Checks, O.Verdict;
      RequestIsServable(data, forbidden, published);
      datalogging := datalogging.(reading := false);
      if datalogging.owner.Some? {
        if !datalogging.pending {
          datalogging := datalogging.(release := true);
        }
        code := ProcessAgain;
      } else {
        code := Reconfigure(data, leftover);
      }
    }

    /** Nobody owns the logger. */
    method Reconfigure(data: seq<byte>, leftover: Configuration) returns (code: Code)
      requires Wired() && datalogger.Valid()
      modifies `datalogging, datalogger, datalogger.encoder, datalogger.reader
      ensures datalogger.Valid()
      ensures code == O.Verdict(old(LoopViews()), RequestOf(data, forbidden, published)) && code != ProcessAgain
      ensures code == Ok ==>
        && datalogging == old(datalogging).(newOwner := Some(RequestOf(data, forbidden, published).loop))
        && datalogging.newOwner.value < |loops|
        && LoggerOf(datalogger) == old(LoggerOf(datalogger)).(state := Configured, valid := true)
        && ConfigCodec.Decode(data).Success? && datalogger.config == ConfigCodec.Decode(data).value.config
        && datalogger.configId == ConfigCodec.Decode(data).value.id && datalogger.encoder.log == []
      ensures code != Ok ==>
        && datalogging == old(datalogging) && LoggerOf(datalogger) == O.ResetLogger(old(LoggerOf(datalogger)))
    {
      hide Acceptable, RawFormatEncoder.Valid, Wired, LoopViews, RawFormatReader.Valid, ConfigCodec.Decode, Checks;
      RequestIsServable(data, forbidden, published);
      var decoded := DecodeConfigureRequest(data);
      datalogger.config := if decoded.Success? then decoded.value.config else leftover;
      if decoded.Failure? {
        code := decoded.code;
      } else {
        code := CheckConfigure(decoded.value);
        if code == Ok {
          datalogger.Configure(published, decoded.value.id);
          if datalogger.configValid {
            datalogging := datalogging.(newOwner := Some(decoded.value.loop));
          } else {
            code := InvalidRequest;
          }
        }
      }
      if code != Ok {
        datalogger.Reset();
      }
    }

    method CheckConfigure(r: ConfigureRequest) returns (code: Code)
      requires Wired()
      ensures code == O.Verdict(LoopViews(), O.Configure(r.loop, Ok, Checks(r.config, forbidden, published), true))
      ensures code == Ok ==> r.loop as nat < |loops|
      ensures code in {Ok, Forbidden, FailureToProceed}
    {
      hide Checks;
      ChecksOkIff(r.config, forbidden, published);
      if r.loop as nat >= |loops| {
        return FailureToProceed;
      }
      if !loops[r.loop].allowed {
        return Forbidden;
      }
      code := CheckAddresses(r.config, forbidden, published);
    }

    method ArmTrigger() returns (code: Code)
      requires Wired()
      modifies `datalogging
      ensures (datalogging, LoggerOf(datalogger), code) ==
              O.Handle(old(datalogging), LoggerOf(datalogger), LoopViews(), O.ArmTrigger)
    {
      if datalogging.owner.None? || datalogging.pending {
        return FailureToProceed;
      }
      datalogging := datalogging.(arm := true);
      code := Ok;
    }

    method DisarmTrigger() returns (code: Code)
      requires Wired()
      modifies `datalogging
      ensures (datalogging, LoggerOf(datalogger), code) ==
              O.Handle(old(datalogging), LoggerOf(datalogger), LoopViews(), O.DisarmTrigger)
    {
      if datalogging.owner.None? || datalogging.pending {
        return FailureToProceed;
      }
      datalogging := datalogging.(disarm := true);
      code := Ok;
    }

    method ResetDatalogger() returns (code: Code)
      requires Wired() && datalogger.Valid()
      modifies `datalogging, datalogger`state, datalogger`trigger, datalogger`window, datalogger`configValid
      ensures datalogger.Valid()
      ensures (datalogging, LoggerOf(datalogger), code) ==
              O.Handle(old(datalogging), old(LoggerOf(datalogger)), LoopViews(), O.ResetDatalogger)
    {
      hide DataLogger.Valid;
      if datalogging.owner.Some? {
        if !datalogging.pending {
          datalogging := datalogging.(release := true);
        }
        code := ProcessAgain;
      } else {
        datalogger.ResetValid();
        code := Ok;
      }
    }

    /** What is still to be sent; the whole log if no transfer is under way. */
    ghost function ToSend(): seq<byte>
      requires datalogger.Valid() && !datalogger.encoder.error && (datalogging.reading ==> datalogger.reader.Valid())
      reads this, datalogger, datalogger.reader, datalogger.encoder, datalogger.encoder.buffer
    {
      if datalogging.reading then datalogger.reader.Rest()
      else datalogger.encoder.ring.Stream(datalogger.encoder.buffer[..])
    }

    /** The next response to a ReadAcquisition request that is answered. */
    ghost function Expected(room: nat): Packet
      requires datalogger.Valid() && (datalogging.reading ==> datalogger.reader.Valid()) && room >= 32
      reads this, datalogger, datalogger.reader, datalogger.encoder, datalogger.encoder.buffer
    {
      var (counter, crc) := if datalogging.reading then (readCounter, readCrc) else (0, ZERO);
      var (data, done) :=
        if datalogging.reading then Upcoming(datalogger.reader, room - 4)
        else if datalogger.encoder.error then ([], false)
        else (Piece(ToSend(), 0, room - 4), |ToSend()| <= room - 4);
      Packet(done && 4 + |data| <= room - 4, counter, datalogger.window.id, data, Crc32(data, crc))
    }

    method ReadAcquisition(response: array<byte>) returns (code: Code, length: nat)
      requires Wired() && datalogger.Valid() && response != datalogger.encoder.buffer && response.Length >= 32
      requires datalogging.reading ==> datalogger.reader.Valid()
      modifies this, datalogger.reader, response
      ensures datalogger.Valid() && (datalogging.reading ==> datalogger.reader.Valid())
      ensures
        var p := old(Expected(response.Length));
        && (datalogging, LoggerOf(datalogger), code) ==
           O.Handle(old(datalogging), old(LoggerOf(datalogger)), old(LoopViews()), O.ReadAcquisition(p.finished))
        && (code == Ok ==>
            && length <= response.Length && response[..length] == Download.Encode(p)
            && readCounter == Rolled(p.counter, 1) && readCrc == p.crc
            && (!datalogger.encoder.error && datalogging.reading ==>
                && ToSend() == old(ToSend())[|p.data|..]
                && (datalogger.reader.finishedFlag <==>
                    (old(datalogging.reading) && old(datalogger.reader.finishedFlag)) || ToSend() == [])))
    {
      hide DataLogger.Valid, RawFormatReader.Valid, Expected, ToSend, Wired, LoopViews, Download.Encode;
      length := 0;
      if datalogging.owner.None? {
        return FailureToProceed, 0;
      }
      if datalogging.seen.state != Completed {
        datalogging := datalogging.(reading := false);
        return FailureToProceed, 0;
      }
      if !datalogging.reading {
        StartReading(response.Length);
      }
      length := NextResponse(response);
      code := Ok;
    }

    /** Of a log that can be read: the first packet of the log, with counter and CRC at zero, or the
        next packet of what the reader has ahead, with counter and CRC so far. */
    lemma ExpectedIs(room: nat)
      requires datalogger.Valid() && (datalogging.reading ==> datalogger.reader.Valid()) && room >= 32
      requires !datalogger.encoder.error
      ensures Expected(room) ==
        if datalogging.reading then
          NextPacket(datalogger.reader.Rest(), datalogger.reader.finishedFlag, room, readCounter, datalogger.window.id, readCrc)
        else
          NextPacket(datalogger.encoder.ring.Stream(datalogger.encoder.buffer[..]), false, room, 0, datalogger.window.id, ZERO)
    {
      hide Crc32, RawFormatReader.Valid, RawFormatReader.Rest, Ring.Stream;
    }

    /** The reader at the start of the log, counter and CRC at zero. */
    method StartReading(ghost room: nat)
      requires datalogger.Valid() && !datalogging.reading && room >= 32
      modifies this, datalogger.reader
      ensures datalogger.Valid() && datalogger.reader.Valid() && !datalogger.reader.finishedFlag
      ensures readCounter == 0 && readCrc == Crc(0)
      ensures !datalogger.encoder.error ==> datalogger.reader.Rest() == datalogger.encoder.ring.Stream(datalogger.encoder.buffer[..])
      ensures datalogging == old(datalogging).(reading := true)
      ensures Expected(room) == old(Expected(room))
      ensures !datalogger.encoder.error ==> ToSend() == old(ToSend())
    {
      hide Crc32;
      datalogger.ResetReader();
      datalogging := datalogging.(reading := true);
      readCounter, readCrc := 0, ZERO;
    }

    method NextResponse(response: array<byte>) returns (length: nat)
      requires datalogger.Valid() && datalogger.reader.Valid() && datalogging.reading
      requires response != datalogger.encoder.buffer && response.Length >= 32
      modifies this, datalogger.reader, response
      ensures datalogger.Valid() && datalogger.reader.Valid() && length <= response.Length
      ensures
        var p := old(Expected(response.Length));
        && response[..length] == Download.Encode(p) && readCounter == Rolled(p.counter, 1) && readCrc == p.crc
        && datalogging == old(datalogging).(reading := !p.finished)
        && (!datalogger.encoder.error && datalogging.reading ==>
            && ToSend() == old(ToSend())[|p.data|..]
            && (datalogger.reader.finishedFlag <==> old(datalogger.reader.finishedFlag) || ToSend() == []))
    {
      assert datalogger.reader.encoder == datalogger.encoder;
      hide DataLogger.Valid, RawFormatReader.Valid, RawFormatReader.Rest, Upcoming, NextPacket, Download.Encode, Crc32;
      var finished;
      length, finished, readCrc :=
        EncodeReadAcquisition(datalogger.reader, response, readCounter, datalogger.window.id, readCrc);
      readCounter := Rolled(readCounter, 1);
      if finished {
        datalogging := datalogging.(reading := false);
      }
    }

    /** The announced size is that of the transfer, unless the log is empty. */
    method GetAcquisitionMetadata() returns (code: Code, metadata: Metadata)
      requires Wired() && datalogger.Valid()
      ensures (datalogging, LoggerOf(datalogger), code) ==
              O.Handle(datalogging, LoggerOf(datalogger), LoopViews(), O.GetMetadata)
      ensures code == Ok && !datalogger.encoder.error ==>
        var log := datalogger.encoder.log;
        && metadata.acquisition == datalogger.window.id && metadata.config == datalogger.configId
        && metadata.points == |Last(log, datalogger.encoder.ring.capacity)|
        && metadata.pointsAfterTrigger == datalogger.window.pointsAfter
        && var download := Packets(datalogger.encoder.ring.Stream(datalogger.encoder.buffer[..]), 32, 0, 0, ZERO);
           (log != [] <==> metadata.dataSize == |Reassemble(download)|)
    {
      hide Crc32, Packets, Reassemble;
      metadata := Metadata(0, 0, 0, 0, 0);
      if datalogging.seen.state != Completed {
        return FailureToProceed, metadata;
      }
      code := Ok;
      metadata := Metadata(datalogger.window.id, datalogger.configId, datalogger.encoder.GetEntryCount(),
                           datalogger.reader.GetTotalSize(), datalogger.window.pointsAfter);
      if !datalogger.encoder.error {
        PacketsDeliver(datalogger.encoder.ring.Stream(datalogger.encoder.buffer[..]), 32, 0, 0, ZERO);
      }
    }
  }

  /** A log with entries is what a transfer starts with. */
  lemma LogIsStream(d: DataLogger)
    requires d.Valid() && !d.encoder.error && d.encoder.log != []
    ensures d.encoder.ring.Ok(d.encoder.buffer[..])
    ensures d.encoder.ring.Stream(d.encoder.buffer[..]) == Flatten(Last(d.encoder.log, d.encoder.ring.capacity))
  {
    d.encoder.ring.StreamIsLog(d.encoder.buffer[..], d.encoder.log);
  }

  /** What a transfer still has to answer. */
  ghost function ToCome(m: MainHandler, room: nat): seq<Packet>
    requires m.datalogger.Valid() && (m.datalogging.reading ==> m.datalogger.reader.Valid())
    requires !m.datalogger.encoder.error && room >= 32
    reads m, m.datalogger, m.datalogger.reader, m.datalogger.encoder, m.datalogger.encoder.buffer
  {
    if m.datalogging.reading then
      Packets(m.datalogger.reader.Rest(), room, m.readCounter, m.datalogger.window.id, m.readCrc)
    else
      Packets(m.datalogger.encoder.ring.Stream(m.datalogger.encoder.buffer[..]), room, 0, m.datalogger.window.id, ZERO)
  }

  /** The next packet, and what is still to come after it. */
  lemma NextToCome(m: MainHandler, room: nat)
    requires m.datalogger.Valid() && (m.datalogging.reading ==> m.datalogger.reader.Valid())
    requires !m.datalogger.encoder.error && room >= 32
    requires m.datalogging.reading && m.datalogger.reader.finishedFlag ==> m.ToSend() == []
    ensures
      var p := m.Expected(room);
      && |p.data| <= |m.ToSend()| && (!p.finished ==> p.data != [])
      && ToCome(m, room) ==
         [p] + (if p.finished then []
                else Packets(m.ToSend()[|p.data|..], room, Rolled(p.counter, 1), p.acquisition, p.crc))
      && p.acquisition == m.datalogger.window.id
  {
    m.ExpectedIs(room);
    hide DataLogger.Valid, RawFormatReader.Valid, RawFormatReader.Rest, Crc32, Ring.Stream, Download.Encode, MainHandler.Expected;
    var rest := m.ToSend();
    var (counter, crc) := if m.datalogging.reading then (m.readCounter, m.readCrc) else (0, ZERO);
    NextPacketIs(rest, room, counter, m.datalogger.window.id, crc);
  }

  /** A transfer can be read on, or started. */
  ghost predicate Readable(m: MainHandler)
    reads m, m.datalogger, m.datalogger.reader, m.datalogger.encoder, m.datalogger.encoder.buffer
  {
    && m.datalogger.Valid() && !m.datalogger.encoder.error
    && m.datalogging.owner.Some? && m.datalogging.seen.state == Completed
    && (m.datalogging.reading ==>
        && m.datalogger.reader.Valid()
        && (m.datalogger.reader.finishedFlag ==> m.ToSend() == []))
  }

  lemma AfterRequest(m: O.Main, d: O.Logger, loops: seq<O.Loop>, last: bool)
    requires m.owner.Some? && m.seen.state == Completed
    ensures O.Handle(m, d, loops, O.ReadAcquisition(last)) == (m.(reading := !last), d, Ok)
  {}

  /** One request of a transfer. */
  method RequestPacket(m: MainHandler, response: array<byte>) returns (bytes: seq<byte>, finished: bool)
    requires m.Wired() && Readable(m) && response != m.datalogger.encoder.buffer && response.Length >= 32
    modifies m, m.datalogger.reader, response
    ensures Readable(m) && m.datalogging == old(m.datalogging).(reading := !finished)
    ensures old(EncodeAll(ToCome(m, response.Length))) ==
            [bytes] + if finished then [] else EncodeAll(ToCome(m, response.Length))
    ensures !finished ==> |m.ToSend()| < old(|m.ToSend()|)
  {
    hide MainHandler.LoopViews, MainHandler.Wired, O.Handle, MainHandler.Expected, DataLogger.Valid, RawFormatReader.Valid,
      Download.Encode, Packets, NextPacket, Crc32, EncodeAll, Ring.Stream, RawFormatReader.Rest;
    NextToCome(m, response.Length);
    ghost var p, sent, packets := m.Expected(response.Length), m.ToSend(), ToCome(m, response.Length);
    ghost var rest := if p.finished then [] else Packets(sent[|p.data|..], response.Length, Rolled(p.counter, 1), p.acquisition, p.crc);
    FirstEncoded(p, rest);
    AfterRequest(m.datalogging, LoggerOf(m.datalogger), m.LoopViews(), p.finished);
    var code, length := m.ReadAcquisition(response);
    bytes, finished := response[..length], !m.datalogging.reading;
  }

  /** ReadAcquisition requests, one after the other, up to the finished response. Whatever is left
      of transfers before, they deliver the log, oldest entry first. */
  method DownloadAcquisition(m: MainHandler, response: array<byte>) returns (responses: seq<seq<byte>>)
    requires m.Wired() && m.datalogger.Valid() && !m.datalogging.reading
    requires m.datalogging.owner.Some? && m.datalogging.seen.state == Completed
    requires !m.datalogger.encoder.error && m.datalogger.encoder.log != []
    requires response != m.datalogger.encoder.buffer && response.Length >= 32
    modifies m, m.datalogger.reader, response
    ensures m.datalogger.Valid() && m.datalogging == old(m.datalogging)
    ensures
      var encoder := m.datalogger.encoder;
      Delivers(responses, Flatten(Last(encoder.log, encoder.ring.capacity)), response.Length, m.datalogger.window.id)
  {
    hide DataLogger.Valid, MainHandler.Wired, MainHandler.ToSend, Packets, Delivers, EncodeAll, Ring.Stream, Flatten, Last;
    LogIsStream(m.datalogger);
    PacketsAreDelivered(m.datalogger.encoder.ring.Stream(m.datalogger.encoder.buffer[..]), response.Length, m.datalogger.window.id);
    responses := RequestPackets(m, response);
  }

  method RequestPackets(m: MainHandler, response: array<byte>) returns (responses: seq<seq<byte>>)
    requires m.Wired() && Readable(m) && response != m.datalogger.encoder.buffer && response.Length >= 32
    modifies m, m.datalogger.reader, response
    ensures Readable(m) && m.datalogging == old(m.datalogging).(reading := false)
    ensures responses == old(EncodeAll(ToCome(m, response.Length)))
  {
    hide *;
    ReadableMeans(m);
    ghost var packets := EncodeAll(ToCome(m, response.Length));
    responses := [];
    var finished := false;
    while !finished
      invariant Readable(m) && m.datalogger.Valid() && (m.datalogging.reading ==> m.datalogger.reader.Valid())
      invariant m.datalogging == old(m.datalogging).(reading := m.datalogging.reading)
      invariant packets == responses + if finished then [] else EncodeAll(ToCome(m, response.Length))
      invariant finished ==> !m.datalogging.reading
      decreases if finished then 0 else 1 + |m.ToSend()|
    {
      var bytes;
      bytes, finished := RequestPacket(m, response);
      ReadableMeans(m);
      Regroup(responses, [bytes], if finished then [] else EncodeAll(ToCome(m, response.Length)));
      responses := responses + [bytes];
    }
  }

  lemma ReadableMeans(m: MainHandler)
    requires Readable(m)
    ensures m.datalogger.Valid() && !m.datalogger.encoder.error && (m.datalogging.reading ==> m.datalogger.reader.Valid())
  {}

  datatype Metadata = Metadata(acquisition: u16, config: u16, points: nat, dataSize: nat, pointsAfterTrigger: nat)

  lemma LogicOwned(m: O.Main, d: O.Logger, loops: seq<O.Loop>)
    requires m.fault == O.NoFault && m.owner.Some? && m.owner.value < |loops|
    ensures
      var i := m.owner.value;
      O.Logic(m, d, loops) ==
        if loops[i].inbox.Some? then (m, loops)
        else if m.release then (m.(release := false, pending := true), loops[i := loops[i].(inbox := Some(O.Release))])
        else if m.arm then (m.(arm := false), loops[i := loops[i].(inbox := Some(O.Arm))])
        else if m.disarm then (m.(disarm := false), loops[i := loops[i].(inbox := Some(O.Disarm))])
        else (m, loops)
  {}

  lemma LogicUnowned(m: O.Main, d: O.Logger, loops: seq<O.Loop>)
    requires m.fault == O.NoFault && m.owner.None? && (m.newOwner.Some? ==> m.newOwner.value < |loops|)
    ensures
      var after := m.(seen := m.seen.(state := d.state), arm := false, disarm := false);
      O.Logic(m, d, loops) ==
        if m.newOwner.Some? && loops[m.newOwner.value].inbox.None? then
          (after.(newOwner := None), loops[m.newOwner.value := loops[m.newOwner.value].(inbox := Some(O.Take))])
        else (after, loops)
  {}
}
