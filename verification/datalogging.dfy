// The DataLogger: configuration, arming, and the periodic process call that fills the ring.
module Datalogging {
  import opened Words
  import opened Timebase
  import opened LoggerTypes
  import opened Wrappers
  import opened RawEncoder
  import opened Acquisition

  function SizeOf(item: Loggable, p: Published): ItemSize {
    match item
    case Memory(_, size) => Known(size)
    case RpvItem(id) => if id in p.types then Known(TypeSize(p.types[id])) else Unknown
    case Time => Known(4)
  }

  function Sizes(items: seq<Loggable>, p: Published): seq<ItemSize> {
    seq(|items|, i requires 0 <= i < |items| => SizeOf(items[i], p))
  }

  method CheckOperands(operands: seq<Operand>, p: Published) returns (ok: bool)
    ensures ok <==> forall i | 0 <= i < |operands| :: OperandValid(operands[i], p)
  {
    ok := true;
    for i := 0 to |operands|
      invariant ok <==> forall j | 0 <= j < i :: OperandValid(operands[j], p)
    {
      match operands[i]
      case Literal(bits) =>
        if !Finite(bits) { ok := false; }
      case Rpv(id) =>
        if !p.configured { ok := false; }
        if id !in p.types { ok := false; }
      case Var(_, code) =>
        if !Supported(code) { ok := false; }
      case VarBit(_, code, offset, size) =>
        if offset > 63 || size > 64 { ok := false; }
        if !Supported(code) { ok := false; }
        if offset + size > TypeSize(code) * 8 { ok := false; }
    }
  }

  method CheckItems(items: seq<Loggable>, p: Published) returns (ok: bool)
    ensures ok <==> forall i | 0 <= i < |items| :: ItemValid(items[i], p)
  {
    ok := true;
    for i := 0 to |items|
      invariant ok <==> forall j | 0 <= j < i :: ItemValid(items[j], p)
    {
      if items[i].RpvItem? {
        if !p.configured { ok := false; }
        if items[i].id !in p.types { ok := false; }
      }
    }
  }

  class DataLogger {
    const encoder: RawFormatEncoder
    const reader: RawFormatReader
    /** The loop that owns the logger; none if the main handler does. */
    var owner: Option<nat>
    var config: Configuration
    var configId: u16
    var configValid: bool
    var state: LoggerState
    var trigger: Trigger
    var window: Window

    ghost predicate Valid()
      reads this, encoder, encoder.buffer
    {
      && encoder.Valid() && reader.encoder == encoder
      && (state !in {Idle, Failed} ==> window.decimationCounter < config.decimation)
    }

    function SetupOf(): Setup
      reads this
    {
      Setup(config.decimation, config.probeLocation, config.timeout, config.holdTime,
            encoder.buffer.Length, encoder.modulus)
    }

    function ViewOf(): View
      reads this, encoder
    {
      View(state, trigger, window, encoder.ring, encoder.writeCounter, encoder.error)
    }

    constructor (buffer: array<byte>, modulus: nat)
      requires (modulus == 0x1_0000 || modulus == 0x1_0000_0000) && buffer.Length < modulus
      ensures Valid() && state == Idle && owner == None && encoder.buffer == buffer && encoder.modulus == modulus
    {
      var e := new RawFormatEncoder(buffer, modulus, []);
      var r := new RawFormatReader(e);
      encoder, reader := e, r;
      owner, config := None, Configuration(0, 0, 0, 0, 0, [], []);
      configId, configValid, state, trigger := 0, false, Idle, IDLE_TRIGGER;
      window := Window(0, 0, 0, 0);
    }

    method SetOwner(o: Option<nat>)
      requires Valid()
      modifies `owner
      ensures Valid() && owner == o
    {
      owner := o;
    }

    method Reset()
      requires encoder.Valid() && reader.encoder == encoder
      modifies `state, `trigger, `window, `configValid
      ensures Valid() && state == Idle && !configValid
      ensures trigger == IDLE_TRIGGER && window == Window(0, 0, 0, old(window.id))
    {
      state := Idle;
      trigger := IDLE_TRIGGER;
      window := Window(0, 0, 0, window.id);
      configValid := false;
    }

    method ResetReader()
      requires Valid()
      modifies reader
      ensures Valid() && reader.Valid() && !reader.finishedFlag
      ensures !encoder.error ==> reader.Rest() == encoder.ring.Stream(encoder.buffer[..])
    {
      reader.Reset();
    }

    /** Reset of a logger that is in good order. */
    method ResetValid()
      requires Valid()
      modifies `state, `trigger, `window, `configValid
      ensures Valid() && state == Idle && !configValid
    {
      Reset();
    }

    method Configure(p: Published, id: u16)
      requires encoder.Valid() && reader.encoder == encoder
      modifies this, encoder, reader
      ensures Valid() && owner == old(owner) && config == old(config) && configId == id
      ensures configValid <==> Acceptable(config, p)
      ensures state == if configValid then Configured else Failed
      ensures trigger == IDLE_TRIGGER && window == Window(0, 0, 0, old(window.id))
      ensures configValid ==> encoder.log == [] && encoder.items == Sizes(config.items, p) && reader.Valid()
      ensures !configValid ==> encoder.log == old(encoder.log) && encoder.items == old(encoder.items)
    {
      hide Acceptable, RingOk, EntrySize, SizeUsable;
      Reset();
      configId := id;
      configValid := CheckConfiguration(p);
      if configValid {
        encoder.Reset(Sizes(config.items, p));
        reader.Reset();
        state := Configured;
      } else {
        state := Failed;
      }
    }

    method CheckConfiguration(p: Published) returns (ok: bool)
      ensures ok <==> Acceptable(config, p)
      ensures ok ==> |config.items| <= MAX_SIGNAL && config.decimation > 0
    {
      hide OperandValid, ItemValid;
      ok := true;
      if |config.items| > MAX_SIGNAL || |config.items| == 0 {
        ok := false;
      }
      if |config.operands| > MAX_OPERANDS {
        ok := false;
      }
      var operandCount := 0;
      if config.condition as nat < |OPERAND_COUNT| {
        operandCount := OPERAND_COUNT[config.condition];
      } else {
        ok := false;
      }
      if |config.operands| != operandCount {
        ok := false;
      }
      if config.decimation == 0 {
        ok := false;
      }
      if ok {
        var operandsOk := CheckOperands(config.operands, p);
        var itemsOk := CheckItems(config.items, p);
        ok := operandsOk && itemsOk;
      }
    }

    method ArmTrigger()
      requires Valid()
      modifies `state
      ensures Valid()
      ensures state == ArmedFrom(old(state))
    {
      if state == Configured || state == Completed || state == Triggered {
        state := Armed;
      }
    }

    method DisarmTrigger()
      requires Valid()
      modifies `state
      ensures Valid()
      ensures state == DisarmedFrom(old(state))
    {
      if state == Armed || state == Completed || state == Triggered {
        state := Configured;
      }
    }

    method ForceTrigger()
      modifies `trigger
      ensures trigger == if state == Armed then old(trigger).(manual := true) else old(trigger)
    {
      if state == Armed {
        trigger := trigger.(manual := true);
      }
    }

    /** One periodic call: the time, the value of the trigger condition if it can be read, and
        a snapshot of the logged items. */
    method Process(now: u32, condition: Option<bool>, sample: seq<seq<byte>>)
      requires Valid() && (!encoder.error ==> Matches(sample, encoder.items))
      modifies `state, `trigger, `window, encoder, encoder.buffer
      ensures Valid() && encoder.items == old(encoder.items)
      ensures ViewOf() == Acquisition.Process(SetupOf(), old(ViewOf()), Input(now, condition))
      ensures ProcessMoves(old(state), state)
      ensures encoder.log == old(encoder.log) +
        if Running(old(state)) && !encoder.error && Acquires(SetupOf(), old(ViewOf())) then [Flatten(sample)] else []
    {
      hide RawFormatEncoder.WidthOk, RingOk, EntrySize, Ring.Advance, Matches, Flatten, Share;
      if Running(state) {
        if encoder.error {
          state := Failed;
        } else {
          ProcessAcquisition(sample);
          if state == Armed {
            var fires := CheckTrigger(now, condition);
            if fires {
              StampTriggerPoint(now);
              state := Triggered;
            }
          }
          if state == Triggered {
            if AcquisitionCompleted(now) {
              state := Completed;
              window := window.(id := Increment(window.id, 0x1_0000), pointsAfter := encoder.writeCounter);
            }
          }
        }
      }
    }

    method ProcessAcquisition(sample: seq<seq<byte>>)
      requires Valid() && Running(state) && !encoder.error && Matches(sample, encoder.items)
      modifies `window, encoder, encoder.buffer
      ensures Valid() && encoder.items == old(encoder.items)
      ensures ViewOf() == Acquire(SetupOf(), old(ViewOf()))
      ensures encoder.log == old(encoder.log) + if Acquires(SetupOf(), old(ViewOf())) then [Flatten(sample)] else []
    {
      window := window.(decimationCounter := window.decimationCounter + 1);
      if window.decimationCounter >= config.decimation {
        encoder.EncodeNextEntry(sample);
        window := window.(decimationCounter := 0);
      }
    }

    method CheckTrigger(now: u32, condition: Option<bool>) returns (fires: bool)
      modifies `trigger
      ensures (trigger, fires) == Acquisition.CheckTrigger(SetupOf(), old(trigger), Input(now, condition))
    {
      fires := false;
      if trigger.manual {
        trigger := trigger.(manual := false, previous := true);
        fires := true;
      } else {
        if condition.None? {
          return;
        }
        if condition.value {
          if !trigger.previous {
            trigger := trigger.(risingEdge := now);
          }
          if HasExpired(now, trigger.risingEdge, config.holdTime) {
            fires := true;
          }
        }
        trigger := trigger.(previous := condition.value);
      }
    }

    method StampTriggerPoint(now: u32)
      requires Valid() && !encoder.error
      modifies `trigger, `window, encoder
      ensures Valid() && encoder.log == old(encoder.log) && encoder.items == old(encoder.items)
      ensures ViewOf() == Stamp(SetupOf(), old(ViewOf()), now).(state := state)
    {
      trigger := trigger.(cursor := encoder.GetWriteCursor(), timestamp := now);
      encoder.ResetWriteCounter();
      var remaining := Share(encoder.buffer.Length, 255 - config.probeLocation);
      if !encoder.ring.full {
        var toFull := encoder.RemainingBytesToFull();
        remaining := if remaining < toFull then toFull else remaining;
      }
      if remaining > encoder.buffer.Length {
        remaining := encoder.buffer.Length;
      }
      window := window.(remaining := remaining);
    }

    function AcquisitionCompleted(now: u32): bool
      requires Valid()
      reads this, encoder, encoder.buffer
    {
      || state == Completed
      || (state == Triggered
          && (|| (config.timeout > 0 && HasExpired(now, trigger.timestamp, config.timeout))
              || encoder.GetDataWriteCounter() >= window.remaining))
    }
  }

  lemma ProcessKeepsRingShape(k: Setup, v: View, input: Input)
    requires k.modulus > 0
    ensures
      var w := Acquisition.Process(k, v, input);
      w.ring.size == v.ring.size && w.ring.capacity == v.ring.capacity && w.encoderError == v.encoderError
  {}

  /** A transfer can go on after a process call, whatever the call logged. */
  twostate lemma ReaderStaysValid(d: DataLogger, input: Input)
    requires old(d.Valid()) && d.Valid() && old(d.reader.Valid()) && unchanged(d.reader)
    requires d.ViewOf() == Acquisition.Process(d.SetupOf(), old(d.ViewOf()), input)
    ensures d.reader.Valid()
  {
    hide Acquisition.Process;
    ProcessKeepsRingShape(d.SetupOf(), old(d.ViewOf()), input);
  }

  /** Where a process call can lead. */
  predicate ProcessMoves(from: LoggerState, to: LoggerState) {
    match from
    case Configured => to in {Configured, Failed}
    case Armed => to in {Armed, Triggered, Completed, Failed}
    case Triggered => to in {Triggered, Completed, Failed}
    case _ => to == from
  }

  lemma ProcessMovesHold(k: Setup, v: View, input: Input)
    requires k.modulus > 0
    ensures ProcessMoves(v.state, Acquisition.Process(k, v, input).state)
  {}
}
