// When a triggered acquisition ends: the DataLogger as a step function, one step per process
// call, over the ring it fills.
module Acquisition {
  import opened Words
  import opened Timebase
  import opened Wrappers
  import opened RawEncoder

  datatype LoggerState = Idle | Configured | Armed | Triggered | Completed | Failed

  /** Trigger condition of the previous call, since when it holds, and the trigger point. */
  datatype Trigger = Trigger(previous: bool, risingEdge: u32, timestamp: u32, cursor: nat, manual: bool)

  datatype Window = Window(remaining: nat, decimationCounter: u16, pointsAfter: nat, id: u16)

  /** What a process call depends on and changes. */
  datatype View = View(
    state: LoggerState, trigger: Trigger, window: Window, ring: Ring, writeCounter: nat, encoderError: bool)

  /** Configuration and buffer, fixed between two configure calls. */
  datatype Setup = Setup(
    decimation: u16, probeLocation: byte, timeout: u32, holdTime: u32, bufferSize: nat, modulus: nat)

  /** The time and the trigger condition in one process call; None if an operand could not be read. */
  datatype Input = Input(now: u32, condition: Option<bool>)

  function ArmedFrom(s: LoggerState): LoggerState { if s in {Configured, Completed, Triggered} then Armed else s }

  function DisarmedFrom(s: LoggerState): LoggerState { if s in {Armed, Completed, Triggered} then Configured else s }

  const IDLE_TRIGGER := Trigger(false, 0, 0, 0, false)

  // ----- One process call -----

  predicate Acquires(k: Setup, v: View) { v.window.decimationCounter + 1 >= k.decimation }

  function Acquire(k: Setup, v: View): View {
    if !Acquires(k, v) then v.(window := v.window.(decimationCounter := v.window.decimationCounter + 1))
    else
      v.(window := v.window.(decimationCounter := 0), ring := v.ring.Advance(),
         writeCounter := Increment(v.writeCounter, k.modulus))
  }

  /** The trigger fires once its condition has held for the hold time. */
  function CheckTrigger(k: Setup, t: Trigger, input: Input): (Trigger, bool) {
    if t.manual then (t.(manual := false, previous := true), true)
    else if input.condition.None? then (t, false)
    else
      var edge := if input.condition.value && !t.previous then input.now else t.risingEdge;
      (t.(risingEdge := edge, previous := input.condition.value),
       input.condition.value && HasExpired(input.now, edge, k.holdTime))
  }

  /** The part of the buffer right of the probe location. */
  function Share(bufferSize: nat, right: nat): nat { bufferSize * right / 256 }

  /** Bytes to log from the trigger point on. */
  function Remaining(k: Setup, ring: Ring): (r: nat)
    ensures r <= k.bufferSize
    ensures !ring.full && ring.End() <= k.bufferSize ==> r >= ring.End() - ring.WriteCursor()
  {
    var right := Share(k.bufferSize, 255 - k.probeLocation);
    var toFull := if ring.full then 0 else ring.End() - ring.WriteCursor();
    var most := if right < toFull then toFull else right;
    if most > k.bufferSize then k.bufferSize else most
  }

  function Stamp(k: Setup, v: View, now: u32): View {
    v.(trigger := v.trigger.(cursor := v.ring.WriteCursor(), timestamp := now),
       writeCounter := 0, window := v.window.(remaining := Remaining(k, v.ring)), state := Triggered)
  }

  /** Bytes logged since the trigger, in the width of the buffer size. */
  function DataCounter(k: Setup, v: View): nat
    requires k.modulus > 0
  {
    v.writeCounter * v.ring.size % k.modulus
  }

  predicate Ends(k: Setup, v: View, now: u32)
    requires k.modulus > 0
  {
    || (k.timeout > 0 && HasExpired(now, v.trigger.timestamp, k.timeout))
    || DataCounter(k, v) >= v.window.remaining
  }

  function AfterTriggerCheck(k: Setup, v: View, input: Input): View {
    if v.state != Armed then v
    else
      var (t, fires) := CheckTrigger(k, v.trigger, input);
      var checked := v.(trigger := t);
      if fires then Stamp(k, checked, input.now) else checked
  }

  function Finish(k: Setup, v: View, now: u32): View
    requires k.modulus > 0
  {
    if v.state == Triggered && Ends(k, v, now) then
      v.(state := Completed, window := v.window.(id := Increment(v.window.id, 0x1_0000), pointsAfter := v.writeCounter))
    else v
  }

  predicate Running(state: LoggerState) { state in {Configured, Armed, Triggered} }

  function Process(k: Setup, v: View, input: Input): View
    requires k.modulus > 0
  {
    if !Running(v.state) then v
    else if v.encoderError then v.(state := Failed)
    else Finish(k, AfterTriggerCheck(k, Acquire(k, v), input), input.now)
  }

  function Run(k: Setup, v: View, inputs: seq<Input>): View
    requires k.modulus > 0
    decreases |inputs|
  {
    if inputs == [] then v else Run(k, Process(k, v, inputs[0]), inputs[1..])
  }

  // ----- How many entries and how many calls -----

  /** The fewest entries of `size` bytes that hold `bytes` bytes. */
  function EntriesFor(bytes: nat, size: nat): nat
    requires size > 0
  {
    if bytes == 0 then 0 else if bytes <= size then 1 else 1 + EntriesFor(bytes - size, size)
  }

  lemma {:induction false} EntriesForCovers(bytes: nat, size: nat, n: nat)
    requires size > 0
    ensures Offset(n, size) >= bytes <==> n >= EntriesFor(bytes, size)
  {
    if bytes > size && n > 0 {
      EntriesForCovers(bytes - size, size, n - 1);
    } else if n > 0 {
      OffsetGrows(1, n, size);
      assert Offset(1, size) == Offset(0, size) + size;
    }
  }

  /** Process calls until `entries` more entries are logged. */
  function CallsFor(entries: nat, decimation: nat, counter: nat): int {
    if entries == 0 then 0 else Offset(entries, decimation) - counter
  }

  /** A triggered acquisition with `done` entries logged and more to come. */
  predicate Counting(k: Setup, v: View, done: nat) {
    && v.state == Triggered && !v.encoderError && k.timeout == 0 && k.decimation > 0
    && v.ring.size > 0 && v.writeCounter == done
    && v.window.remaining <= k.bufferSize < k.modulus
    && done < EntriesFor(v.window.remaining, v.ring.size)
    && v.window.decimationCounter < k.decimation
  }

  lemma ModSmall(x: nat, modulus: nat)
    requires modulus > 0
    ensures x < modulus ==> x % modulus == x
    ensures modulus <= x < 2 * modulus ==> x % modulus == x - modulus
  {
    if modulus <= x < 2 * modulus {
      assert x == modulus * 1 + (x - modulus);
    }
  }

  lemma NoWrap(n: nat, size: nat, modulus: nat)
    requires modulus > 0
    ensures Offset(n, size) < modulus ==> n * size % modulus == Offset(n, size)
    ensures modulus <= Offset(n, size) < 2 * modulus ==> n * size % modulus == Offset(n, size) - modulus
  {
    OffsetIsProduct(n, size);
    var bytes := Offset(n, size);
    ModSmall(bytes, modulus);
    hide Offset;
  }

  lemma {:induction false} OffsetAtLeast(n: nat, size: nat)
    requires size > 0
    ensures Offset(n, size) >= n
  {
    if n > 0 {
      OffsetAtLeast(n - 1, size);
    }
  }

  /** One more entry completes the acquisition exactly when it is the last one needed and the
      byte count still fits its word. */
  lemma EntryCounted(k: Setup, remaining: nat, size: nat, done: nat)
    requires size > 0 && remaining <= k.bufferSize < k.modulus && size <= k.bufferSize
    requires done < EntriesFor(remaining, size)
    ensures
      var n := Increment(done, k.modulus);
      && n == done + 1
      && (n * size % k.modulus >= remaining <==>
          n == EntriesFor(remaining, size) && Offset(EntriesFor(remaining, size), size) < k.modulus)
  {
    var more := done + 1;
    EntriesForCovers(remaining, size, done);
    EntriesForCovers(remaining, size, more);
    OffsetAtLeast(done, size);
    NoWrap(more, size, k.modulus);
    assert Offset(more, size) == Offset(done, size) + size;
    hide Offset, EntriesFor;
  }

  /** The decimation skips this call: nothing is logged and nothing ends. */
  lemma SkippedCall(k: Setup, v: View, done: nat, input: Input)
    requires Counting(k, v, done) && !Acquires(k, v)
    ensures Process(k, v, input) == v.(window := v.window.(decimationCounter := v.window.decimationCounter + 1))
  {
    hide EntriesFor, Offset;
    EntriesForCovers(v.window.remaining, v.ring.size, done);
    NoWrap(done, v.ring.size, k.modulus);
  }

  lemma LoggingCall(k: Setup, v: View, done: nat, input: Input)
    requires Counting(k, v, done) && Acquires(k, v) && v.ring.size <= k.bufferSize
    ensures
      var w, needed := Process(k, v, input), EntriesFor(v.window.remaining, v.ring.size);
      && w.ring == v.ring.Advance() && w.window.decimationCounter == 0 && w.window.remaining == v.window.remaining
      && (w.state == Completed <==> done + 1 == needed && Offset(needed, v.ring.size) < k.modulus)
      && (w.state == Completed ==> w.window.pointsAfter == needed)
      && (w.state != Completed ==> w.state == Triggered)
      && (done + 1 < needed ==> Counting(k, w, done + 1))
  {
    hide EntriesFor, Offset;
    EntryCounted(k, v.window.remaining, v.ring.size, done);
  }

  function AdvanceMany(ring: Ring, n: nat): Ring
    decreases n
  {
    if n == 0 then ring else AdvanceMany(ring.Advance(), n - 1)
  }

  lemma {:induction false} CompletedStays(k: Setup, v: View, inputs: seq<Input>)
    requires k.modulus > 0 && !Running(v.state)
    ensures Run(k, v, inputs) == v
    decreases |inputs|
  {
    if inputs != [] {
      CompletedStays(k, v, inputs[1..]);
    }
  }

  /** The run of a triggered acquisition, whatever the inputs. */
  lemma {:induction false} RunCounts(k: Setup, v: View, done: nat, inputs: seq<Input>)
    requires Counting(k, v, done) && v.ring.size <= k.bufferSize
    requires Offset(EntriesFor(v.window.remaining, v.ring.size), v.ring.size) < k.modulus
    ensures
      var needed := EntriesFor(v.window.remaining, v.ring.size);
      var end := Run(k, v, inputs);
      if |inputs| < CallsFor(needed - done, k.decimation, v.window.decimationCounter) then end.state == Triggered
      else end.state == Completed && end.window.pointsAfter == needed && end.ring == AdvanceMany(v.ring, needed - done)
    decreases |inputs|
  {
    hide Process, EntriesFor;
    var needed := EntriesFor(v.window.remaining, v.ring.size);
    if inputs != [] {
      var w := Process(k, v, inputs[0]);
      if Acquires(k, v) {
        LoggingCall(k, v, done, inputs[0]);
        if done + 1 == needed {
          assert AdvanceMany(w.ring, 0) == w.ring && Offset(1, k.decimation) == Offset(0, k.decimation) + k.decimation;
          CompletedStays(k, w, inputs[1..]);
        } else {
          RunCounts(k, w, done + 1, inputs[1..]);
        }
      } else {
        SkippedCall(k, v, done, inputs[0]);
        RunCounts(k, w, done, inputs[1..]);
      }
    }
  }

  lemma {:induction false} AdvanceFills(ring: Ring, n: nat)
    requires ring.next < ring.capacity
    ensures
      var r := AdvanceMany(ring, n);
      && r.size == ring.size && r.capacity == ring.capacity && r.next < r.capacity
      && (r.full <==> ring.full || ring.next + n >= ring.capacity)
    decreases n
  {
    if n > 0 {
      AdvanceFills(ring.Advance(), n - 1);
    }
  }

  lemma {:induction false} OffsetAdds(a: nat, b: nat, size: nat)
    ensures Offset(a + b, size) == Offset(a, size) + Offset(b, size)
  {
    if b > 0 {
      OffsetAdds(a, b - 1, size);
    }
  }

  /** Enough entries are asked for to fill the ring. */
  lemma RemainingFills(k: Setup, ring: Ring)
    requires ring.size > 0 && ring.next < ring.capacity && ring.End() <= k.bufferSize
    ensures ring.full || ring.next + EntriesFor(Remaining(k, ring), ring.size) >= ring.capacity
  {
    hide Share, EntriesFor, Offset;
    var needed := EntriesFor(Remaining(k, ring), ring.size);
    EntriesForCovers(Remaining(k, ring), ring.size, needed);
    OffsetAdds(ring.next, needed, ring.size);
    if ring.next + needed < ring.capacity {
      OffsetGrows(ring.next + needed, ring.capacity, ring.size);
    }
  }

  predicate Ready(k: Setup, v: View) {
    && v.state == Armed && !v.encoderError && k.timeout == 0 && v.window.decimationCounter < k.decimation
    && v.ring.size > 0 && v.ring.next < v.ring.capacity && v.ring.End() <= k.bufferSize < k.modulus
  }

  predicate Fires(k: Setup, v: View, input: Input) { CheckTrigger(k, v.trigger, input).1 }

  /** The process call in which the trigger fires. */
  lemma Firing(k: Setup, v: View, input: Input)
    requires Ready(k, v) && Fires(k, v, input)
    ensures
      var t := Process(k, v, input);
      && t.ring == Acquire(k, v).ring && t.ring.next < t.ring.capacity && t.ring.size == v.ring.size
      && t.ring.capacity == v.ring.capacity
      && t.window.remaining == Remaining(k, t.ring) && t.window.decimationCounter < k.decimation
      && if t.window.remaining == 0 then t.state == Completed && t.window.pointsAfter == 0
         else Counting(k, t, 0)
  {
    NoWrap(0, v.ring.size, k.modulus);
    assert Offset(0, v.ring.size) == 0;
    hide CheckTrigger, HasExpired, Share, Offset;
  }

  lemma SizeFits(ring: Ring)
    requires ring.next < ring.capacity
    ensures ring.size <= ring.End()
  {
    OffsetGrows(0, ring.capacity, ring.size);
  }

  /** With no timeout and as long as the byte count fits its word, a triggered acquisition
      ends after exactly the entries it needs, in exactly so many process calls; the ring is
      full then, and the trigger point lies inside the log exactly when the bytes asked for
      fit the used part of the buffer. */
  lemma AcquisitionEnds(k: Setup, v: View, first: Input, rest: seq<Input>)
    requires Ready(k, v) && Fires(k, v, first)
    requires
      var t := Process(k, v, first);
      Offset(EntriesFor(t.window.remaining, v.ring.size), v.ring.size) < k.modulus
    ensures
      var t := Process(k, v, first);
      var needed := EntriesFor(t.window.remaining, v.ring.size);
      var calls := CallsFor(needed, k.decimation, t.window.decimationCounter);
      var end := Run(k, t, rest);
      && calls <= needed * k.decimation
      && if |rest| < calls then end.state == Triggered
         else
           && end.state == Completed && end.window.pointsAfter == needed
           && end.ring.full && end.ring.Count() == v.ring.capacity
           && (needed <= end.ring.Count() <==> t.window.remaining <= v.ring.End())
  {
    hide Process, EntriesFor, Remaining, Acquire, Fires, Offset, Run;
    var t := Process(k, v, first);
    Firing(k, v, first);
    var needed := EntriesFor(t.window.remaining, v.ring.size);
    SizeFits(v.ring);
    OffsetIsProduct(needed, k.decimation);
    RemainingFills(k, t.ring);
    AdvanceFills(t.ring, needed);
    EntriesForCovers(t.window.remaining, t.ring.size, v.ring.capacity);
    if t.window.remaining == 0 {
      NothingRemains(t.ring.size);
      CompletedStays(k, t, rest);
      assert AdvanceMany(t.ring, 0) == t.ring;
    } else {
      RunCounts(k, t, 0, rest);
    }
  }

  lemma NothingRemains(size: nat)
    requires size > 0
    ensures EntriesFor(0, size) == 0
  {}

  /** If the byte count wraps at the last entry, the acquisition is still running then. */
  lemma {:induction false} RunMisses(k: Setup, v: View, done: nat, inputs: seq<Input>)
    requires Counting(k, v, done) && v.ring.size <= k.bufferSize
    requires Offset(EntriesFor(v.window.remaining, v.ring.size), v.ring.size) >= k.modulus
    requires |inputs| <= CallsFor(EntriesFor(v.window.remaining, v.ring.size) - done, k.decimation, v.window.decimationCounter)
    ensures Run(k, v, inputs).state == Triggered
    decreases |inputs|
  {
    hide Process, EntriesFor;
    var needed := EntriesFor(v.window.remaining, v.ring.size);
    if inputs != [] {
      var w := Process(k, v, inputs[0]);
      if Acquires(k, v) {
        LoggingCall(k, v, done, inputs[0]);
        if done + 1 == needed {
          assert Offset(1, k.decimation) == Offset(0, k.decimation) + k.decimation;
          assert inputs[1..] == [];
        } else {
          RunMisses(k, w, done + 1, inputs[1..]);
        }
      } else {
        SkippedCall(k, v, done, inputs[0]);
        RunMisses(k, w, done, inputs[1..]);
      }
    }
  }

  /** The acquisition is over after the calls it needs if and only if the bytes of its last
      needed entry can still be counted in the width of the buffer size. */
  lemma EndsOnTimeIff(k: Setup, v: View, first: Input, rest: seq<Input>)
    requires Ready(k, v) && Fires(k, v, first)
    requires
      var t := Process(k, v, first);
      |rest| == CallsFor(EntriesFor(t.window.remaining, v.ring.size), k.decimation, t.window.decimationCounter)
    ensures
      var t := Process(k, v, first);
      Run(k, t, rest).state == Completed <==> EntriesFor(t.window.remaining, v.ring.size) * v.ring.size < k.modulus
  {
    hide Process, EntriesFor, Acquire, Fires, Offset, Run;
    Firing(k, v, first);
    SizeFits(v.ring);
    var t := Process(k, v, first);
    var needed := EntriesFor(t.window.remaining, v.ring.size);
    OffsetIsProduct(needed, v.ring.size);
    if t.window.remaining == 0 {
      NothingRemains(v.ring.size);
    }
    if Offset(needed, v.ring.size) < k.modulus {
      AcquisitionEnds(k, v, first, rest);
    } else {
      RunMisses(k, t, 0, rest);
    }
  }

  /** A buffer that leaves room for one more entry in its size type is always on time. */
  lemma RoomForOneMoreEntry(k: Setup, ring: Ring)
    requires ring.size > 0 && k.bufferSize + ring.size <= k.modulus
    ensures EntriesFor(Remaining(k, ring), ring.size) * ring.size < k.modulus
  {
    hide Share, EntriesFor;
    var remaining := Remaining(k, ring);
    var needed := EntriesFor(remaining, ring.size);
    OffsetIsProduct(needed, ring.size);
    if needed > 0 {
      EntriesForCovers(remaining, ring.size, needed - 1);
    }
  }

  const FIRE := Input(0, Some(true))

  function FullAndArmed(size: nat, capacity: nat): View {
    View(Armed, IDLE_TRIGGER, Window(0, 0, 0, 0), Ring(size, capacity, 0, 0, true), 0, false)
  }

  /** A 16-bit buffer of 65535 bytes, entries of 1000 bytes, trigger at the left edge: 66
      entries are needed, their 66000 bytes wrap, and the acquisition misses its end. */
  lemma MissedEnd(rest: seq<Input>)
    requires |rest| == 66
    ensures
      var k := Setup(1, 0, 0, 0, 0xFFFF, 0x1_0000);
      var t := Process(k, FullAndArmed(1000, 65), FIRE);
      t.state == Triggered && Run(k, t, rest).state == Triggered
  {
    hide Offset;
    var k, v := Setup(1, 0, 0, 0, 0xFFFF, 0x1_0000), FullAndArmed(1000, 65);
    OffsetIsProduct(65, 1000);
    OffsetIsProduct(66, 1000);
    Firing(k, v, FIRE);
    EntriesForCovers(65279, 1000, 65);
    EntriesForCovers(65279, 1000, 66);
    OffsetIsProduct(66, 1);
    EndsOnTimeIff(k, v, FIRE, rest);
    RunStopped(k, Process(k, v, FIRE), rest);
  }

  /** Once triggered, a logger without encoder error only stays triggered or completes. */
  lemma {:induction false} RunStopped(k: Setup, v: View, inputs: seq<Input>)
    requires k.modulus > 0 && v.state in {Triggered, Completed} && !v.encoderError
    ensures Run(k, v, inputs).state in {Triggered, Completed}
    decreases |inputs|
  {
    if inputs != [] {
      RunStopped(k, Process(k, v, inputs[0]), inputs[1..]);
    }
  }

  /** A 1000-byte buffer holds one entry of 600 bytes, but 996 bytes are asked for: two points
      are reported after the trigger in a log of one entry. */
  lemma TriggerOutsideLog(rest: seq<Input>)
    requires |rest| == 2
    ensures
      var k := Setup(1, 0, 0, 0, 1000, 0x1_0000);
      var end := Run(k, Process(k, FullAndArmed(600, 1), FIRE), rest);
      end.state == Completed && end.window.pointsAfter == 2 && end.ring.Count() == 1
  {
    hide Offset;
    var k, v := Setup(1, 0, 0, 0, 1000, 0x1_0000), FullAndArmed(600, 1);
    OffsetIsProduct(1, 600);
    OffsetIsProduct(2, 600);
    Firing(k, v, FIRE);
    EntriesForCovers(996, 600, 1);
    EntriesForCovers(996, 600, 2);
    OffsetIsProduct(2, 1);
    AcquisitionEnds(k, v, FIRE, rest);
  }

  /** Decimation 1000 and a timeout of one step: the acquisition completes on its second call
      without a single entry. */
  lemma CompletedEmpty()
    ensures
      var k := Setup(1000, 0, 1, 0, 100, 0x1_0000);
      var v := View(Armed, IDLE_TRIGGER, Window(0, 0, 0, 0), Ring(4, 25, 0, 0, false), 0, false);
      var end := Run(k, v, [Input(0, Some(true)), Input(1, Some(true))]);
      end.state == Completed && end.ring == v.ring && end.ring.Count() == 0
  {
    var k := Setup(1000, 0, 1, 0, 100, 0x1_0000);
    var v := View(Armed, IDLE_TRIGGER, Window(0, 0, 0, 0), Ring(4, 25, 0, 0, false), 0, false);
    var inputs := [Input(0, Some(true)), Input(1, Some(true))];
    OffsetIsProduct(25, 4);
    var t := Process(k, v, inputs[0]);
    assert t.state == Triggered && t.window.remaining == 100;
    assert inputs[1..] == [inputs[1]] && inputs[1..][1..] == [];
    assert Run(k, v, inputs) == Run(k, t, inputs[1..]);
  }
}
