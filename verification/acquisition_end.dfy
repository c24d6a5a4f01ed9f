// What the end of an acquisition leaves: where the trigger is in the log, when a timeout ends it,
// and the number it gets.
module AcquisitionEnd {
  import opened Words
  import opened Timebase
  import opened RawEncoder
  import opened Acquisition
  import opened HoldTime

  // ----- The place of the trigger -----

  predicate RingFits(k: Setup, ring: Ring) {
    ring.size > 0 && ring.next < ring.capacity && ring.End() <= k.bufferSize < k.modulus
  }

  /** The bytes that the ring lacks until it is full. */
  function Lacking(ring: Ring): nat
    requires ring.next < ring.capacity
  {
    if ring.full then 0 else (ring.capacity - ring.next) * ring.size
  }

  lemma LackingIs(ring: Ring)
    requires ring.next < ring.capacity && !ring.full
    ensures ring.End() - ring.WriteCursor() == Lacking(ring)
  {
    OffsetIsProduct(ring.capacity - ring.next, ring.size);
    OffsetAdds(ring.next, ring.capacity - ring.next, ring.size);
  }

  /** `n` is the largest number of bytes within the share of the buffer right of the probe
      location. */
  predicate LargestShare(k: Setup, n: nat) {
    256 * n <= k.bufferSize * (255 - k.probeLocation) < 256 * (n + 1)
  }

  lemma ShareIsLargest(k: Setup)
    ensures LargestShare(k, Share(k.bufferSize, 255 - k.probeLocation))
  {
    var all := k.bufferSize * (255 - k.probeLocation);
    assert Share(k.bufferSize, 255 - k.probeLocation) == all / 256;
  }

  lemma ShareWithin(k: Setup, n: nat)
    requires LargestShare(k, n)
    ensures n <= k.bufferSize
  {
    assert k.bufferSize * (255 - k.probeLocation) <= k.bufferSize * 255;
  }

  lemma OneLargest(k: Setup, m: nat, n: nat)
    requires LargestShare(k, m) && LargestShare(k, n)
    ensures m == n
  {}

  /** When the trigger fires, the logger asks for the larger of what the ring lacks and the share
      of the buffer right of the probe location. */
  lemma BytesAsked(k: Setup, v: View, input: Input, n: nat)
    requires v.state == Armed && !v.encoderError && RingFits(k, v.ring) && Fires(k, v, input) && LargestShare(k, n)
    ensures
      var t := Process(k, v, input);
      && t.ring.next < t.ring.capacity
      && t.window.remaining == if n < Lacking(t.ring) then Lacking(t.ring) else n
  {
    var t := Process(k, v, input);
    FiredWindow(k, v, input);
    hide Process, Share, LargestShare, Offset;
    ShareIsLargest(k);
    OneLargest(k, n, Share(k.bufferSize, 255 - k.probeLocation));
    ShareWithin(k, n);
    if !t.ring.full {
      LackingIs(t.ring);
    }
  }

  lemma FiredWindow(k: Setup, v: View, input: Input)
    requires v.state == Armed && !v.encoderError && RingFits(k, v.ring) && Fires(k, v, input)
    ensures
      var t := Process(k, v, input);
      && t.ring.size == v.ring.size && t.ring.capacity == v.ring.capacity && t.ring.next < t.ring.capacity
      && t.window.remaining == Remaining(k, t.ring) && t.trigger.timestamp == input.now && t.state in {Triggered, Completed}
  {
    hide CheckTrigger, HasExpired, Share, Offset, Remaining;
  }

  /** So, with no timeout and a byte count that fits its word, the points after the trigger are the
      fewest entries that hold the bytes asked for; in a ring that is full when the trigger fires
      those are the entries of the share right of the probe location. */
  lemma TriggerIsPlaced(k: Setup, v: View, first: Input, rest: seq<Input>, n: nat)
    requires Ready(k, v) && Fires(k, v, first) && LargestShare(k, n)
    requires
      var t := Process(k, v, first);
      var needed := EntriesFor(t.window.remaining, v.ring.size);
      Offset(needed, v.ring.size) < k.modulus && |rest| >= CallsFor(needed, k.decimation, t.window.decimationCounter)
    ensures
      var t, end := Process(k, v, first), Run(k, Process(k, v, first), rest);
      var asked := if n < Lacking(t.ring) then Lacking(t.ring) else n;
      && end.state == Completed
      && (end.window.pointsAfter - 1) * v.ring.size < asked <= end.window.pointsAfter * v.ring.size
      && (v.ring.full ==> asked == n)
  {
    hide Process, EntriesFor, Fires, Offset, Run, LargestShare, Lacking, CallsFor;
    var t := Process(k, v, first);
    FiredFull(k, v, first);
    BytesAsked(k, v, first, n);
    AcquisitionEnds(k, v, first, rest);
    FewestHold(t.window.remaining, v.ring.size);
    if v.ring.full {
      FullLacksNothing(t.ring);
    }
  }

  lemma FullLacksNothing(ring: Ring)
    requires ring.next < ring.capacity && ring.full
    ensures Lacking(ring) == 0
  {}

  lemma FiredFull(k: Setup, v: View, first: Input)
    requires Ready(k, v) && Fires(k, v, first)
    ensures var t := Process(k, v, first); t.ring.next < t.ring.capacity && (v.ring.full ==> t.ring.full)
  {
    Firing(k, v, first);
    hide Process, Fires, Offset;
  }

  lemma FewestHold(bytes: nat, size: nat)
    requires size > 0
    ensures var n := EntriesFor(bytes, size); (n - 1) * size < bytes <= n * size || (bytes == 0 && n == 0)
  {
    hide Offset;
    var n := EntriesFor(bytes, size);
    EntriesForCovers(bytes, size, n);
    OffsetIsProduct(n, size);
    if n > 0 {
      EntriesForCovers(bytes, size, n - 1);
      OffsetIsProduct(n - 1, size);
    }
  }

  // ----- The timeout -----

  /** A call comes a timeout after `start`, on the clock that wraps. */
  predicate Late(input: Input, start: u32, timeout: u32) { (input.now - start) % 0x1_0000_0000 >= timeout }

  predicate SomeLate(inputs: seq<Input>, start: u32, timeout: u32) {
    exists i | 0 <= i < |inputs| :: Late(inputs[i], start, timeout)
  }

  lemma LateOrLater(inputs: seq<Input>, start: u32, timeout: u32)
    requires inputs != []
    ensures SomeLate(inputs, start, timeout) <==> Late(inputs[0], start, timeout) || SomeLate(inputs[1..], start, timeout)
  {
    hide Late;
    var rest := inputs[1..];
    assert forall i | 0 <= i < |rest| :: rest[i] == inputs[i + 1];
    assert forall i | 0 < i < |inputs| :: inputs[i] == rest[i - 1];
  }

  /** A triggered call that is not late is one without a timeout; a late one is the last. */
  lemma LateCall(k: Setup, v: View, input: Input)
    requires v.state == Triggered && !v.encoderError && k.timeout > 0 && k.modulus > 0
    ensures
      var w := Process(k, v, input);
      if Late(input, v.trigger.timestamp, k.timeout) then w.state == Completed
      else w == Process(k.(timeout := 0), v, input) && w.trigger == v.trigger
  {
    assert Late(input, v.trigger.timestamp, k.timeout) <==> HasExpired(input.now, v.trigger.timestamp, k.timeout);
    hide Late, HasExpired;
  }

  /** A triggered acquisition with a timeout is completed after some calls if and only if it has the
      entries it needs, or one of the calls came a timeout after the trigger. */
  lemma {:induction false} RunWithTimeout(k: Setup, v: View, done: nat, inputs: seq<Input>)
    requires Counting(k.(timeout := 0), v, done) && v.ring.size <= k.bufferSize && k.timeout > 0
    requires Offset(EntriesFor(v.window.remaining, v.ring.size), v.ring.size) < k.modulus
    ensures
      var calls := CallsFor(EntriesFor(v.window.remaining, v.ring.size) - done, k.decimation, v.window.decimationCounter);
      Run(k, v, inputs).state ==
        if |inputs| >= calls || SomeLate(inputs, v.trigger.timestamp, k.timeout) then Completed else Triggered
    decreases |inputs|
  {
    hide Process, EntriesFor, SomeLate, Late;
    var needed, k0 := EntriesFor(v.window.remaining, v.ring.size), k.(timeout := 0);
    if inputs == [] {
      NoneLate(v.trigger.timestamp, k.timeout);
      OffsetGrows(1, needed - done, k.decimation);
      assert Offset(1, k.decimation) == Offset(0, k.decimation) + k.decimation;
    } else {
      var w, rest := Process(k, v, inputs[0]), inputs[1..];
      LateCall(k, v, inputs[0]);
      LateOrLater(inputs, v.trigger.timestamp, k.timeout);
      if Late(inputs[0], v.trigger.timestamp, k.timeout) {
        CompletedStays(k, w, rest);
      } else if Acquires(k, v) {
        LoggingCall(k0, v, done, inputs[0]);
        if done + 1 == needed {
          assert Offset(1, k.decimation) == Offset(0, k.decimation) + k.decimation;
          CompletedStays(k, w, rest);
        } else {
          RunWithTimeout(k, w, done + 1, rest);
        }
      } else {
        SkippedCall(k0, v, done, inputs[0]);
        RunWithTimeout(k, w, done, rest);
      }
    }
  }

  lemma NoneLate(start: u32, timeout: u32)
    ensures !SomeLate([], start, timeout)
  {}

  /** Over the whole run from the call in which the trigger fires: the timeout counts from there. */
  lemma TimeoutEndsIff(k: Setup, v: View, first: Input, rest: seq<Input>)
    requires Ready(k.(timeout := 0), v) && Fires(k, v, first) && k.timeout > 0
    requires
      var t := Process(k, v, first);
      Offset(EntriesFor(t.window.remaining, v.ring.size), v.ring.size) < k.modulus
    ensures
      var t := Process(k, v, first);
      var calls := CallsFor(EntriesFor(t.window.remaining, v.ring.size), k.decimation, t.window.decimationCounter);
      Run(k, t, rest).state ==
        if |rest| >= calls || SomeLate(rest, first.now, k.timeout) then Completed else Triggered
  {
    hide Process, EntriesFor, Offset, Run, SomeLate;
    var t, k0 := Process(k, v, first), k.(timeout := 0);
    FiringInTime(k, v, first);
    Firing(k0, v, first);
    SizeFits(v.ring);
    FiredWindow(k, v, first);
    if t.window.remaining == 0 {
      NothingRemains(v.ring.size);
      CompletedStays(k, t, rest);
    } else {
      RunWithTimeout(k, t, 0, rest);
    }
  }

  /** The trigger is never late in the call in which it fires. */
  lemma FiringInTime(k: Setup, v: View, first: Input)
    requires v.state == Armed && !v.encoderError && k.timeout > 0 && k.modulus > 0 && Fires(k, v, first)
    ensures Process(k, v, first) == Process(k.(timeout := 0), v, first)
    ensures Fires(k.(timeout := 0), v, first)
  {}

  // ----- The number of an acquisition -----

  /** How often the logger becomes completed in a run. */
  function Completions(k: Setup, v: View, events: seq<Event>): nat
    requires k.modulus > 0
    decreases |events|
  {
    if events == [] then 0
    else
      var before := After(k, v, events[..|events| - 1]);
      Completions(k, v, events[..|events| - 1])
      + if before.state != Completed && After(k, v, events).state == Completed then 1 else 0
  }

  lemma StepNumbers(k: Setup, v: View, e: Event)
    requires k.modulus > 0 && v.window.id < 0x1_0000
    ensures Happen(k, v, e).window.id ==
      if v.state != Completed && Happen(k, v, e).state == Completed then (v.window.id + 1) % 0x1_0000 else v.window.id
  {
    hide CheckTrigger, HasExpired, Remaining, Ends;
  }

  /** Over any run of process calls, arms, disarms and forced triggers, the acquisition number counts
      the completions, modulo 2 to the 16th. */
  lemma {:induction false} NumberCounts(k: Setup, v: View, events: seq<Event>)
    requires k.modulus > 0
    ensures After(k, v, events).window.id == (v.window.id + Completions(k, v, events)) % 0x1_0000
    decreases |events|
  {
    hide Happen;
    if events != [] {
      var n := |events| - 1;
      NumberCounts(k, v, events[..n]);
      StepNumbers(k, After(k, v, events[..n]), events[n]);
    }
  }

  // ----- What is logged -----

  /** The process calls made while the logger runs, before the trigger and after it. */
  function RunningCalls(k: Setup, v: View, events: seq<Event>): nat
    requires k.modulus > 0
    decreases |events|
  {
    if events == [] then 0
    else
      var before, e := After(k, v, events[..|events| - 1]), events[|events| - 1];
      RunningCalls(k, v, events[..|events| - 1])
      + if e.Call? && before.state in {Configured, Armed, Triggered} then 1 else 0
  }

  lemma {:induction false} AdvanceOnce(ring: Ring, n: nat)
    ensures AdvanceMany(ring, n + 1) == AdvanceMany(ring, n).Advance()
    decreases n
  {
    if n > 0 {
      AdvanceOnce(ring.Advance(), n - 1);
    }
  }

  lemma StepLogs(k: Setup, v: View, e: Event)
    requires k.modulus > 0 && !v.encoderError && v.window.decimationCounter < k.decimation
    ensures
      var w, counter := Happen(k, v, e), v.window.decimationCounter;
      && !w.encoderError
      && if !(e.Call? && v.state in {Configured, Armed, Triggered}) then w.ring == v.ring && w.window.decimationCounter == counter
         else if counter + 1 < k.decimation then w.ring == v.ring && w.window.decimationCounter == counter + 1
         else w.ring == v.ring.Advance() && w.window.decimationCounter == 0
  {
    hide CheckTrigger, HasExpired, Remaining, Ends, Ring.Advance;
  }

  /** In any run, every decimation-th process call of a running logger logs an entry, in whatever
      state, across arms, disarms and the trigger. */
  lemma {:induction false} LogsEveryNth(k: Setup, v: View, events: seq<Event>) returns (n: nat)
    requires k.modulus > 0 && !v.encoderError && v.window.decimationCounter < k.decimation
    ensures
      var e := After(k, v, events);
      && e.ring == AdvanceMany(v.ring, n) && !e.encoderError && e.window.decimationCounter < k.decimation
      && Offset(n, k.decimation) + e.window.decimationCounter == v.window.decimationCounter + RunningCalls(k, v, events)
    decreases |events|
  {
    n := 0;
    hide Happen, AdvanceMany, Offset, After, RunningCalls, Ring.Advance;
    NoCallYet(k, v);
    if events == [] {
      NothingLogged(v.ring, k.decimation);
    } else {
      var m := |events| - 1;
      LastCall(k, v, events);
      n := LogsEveryNth(k, v, events[..m]);
      var before, e := After(k, v, events[..m]), events[m];
      StepLogs(k, before, e);
      if e.Call? && before.state in {Configured, Armed, Triggered} && before.window.decimationCounter + 1 >= k.decimation {
        AdvanceOnce(v.ring, n);
        OneOffsetMore(n, k.decimation);
        n := n + 1;
      }
    }
  }

  lemma NoCallYet(k: Setup, v: View)
    requires k.modulus > 0
    ensures After(k, v, []) == v && RunningCalls(k, v, []) == 0
  {}

  lemma LastCall(k: Setup, v: View, events: seq<Event>)
    requires k.modulus > 0 && events != []
    ensures
      var before, e := After(k, v, events[..|events| - 1]), events[|events| - 1];
      && After(k, v, events) == Happen(k, before, e)
      && RunningCalls(k, v, events) ==
         RunningCalls(k, v, events[..|events| - 1]) + if e.Call? && before.state in {Configured, Armed, Triggered} then 1 else 0
  {
    hide Happen;
  }

  lemma NothingLogged(ring: Ring, decimation: nat)
    ensures AdvanceMany(ring, 0) == ring && Offset(0, decimation) == 0
  {}

  lemma OneOffsetMore(n: nat, size: nat)
    ensures Offset(n + 1, size) == Offset(n, size) + size
  {}

  // ----- From Configure to the trigger -----

  /** Whatever happens after an accepted Configure with a usable encoder, a logger that is armed is
      ready for the trigger: what the results on the end of an acquisition ask for holds. */
  lemma {:induction false} ArmedIsReady(k: Setup, v: View, events: seq<Event>)
    requires v.state == Configured && !v.encoderError && v.window.decimationCounter < k.decimation && RingFits(k, v.ring)
    ensures
      var e := After(k, v, events);
      && (e.state == Armed ==> Ready(k.(timeout := 0), e))
      && e.state !in {Idle, Failed} && RingFits(k, e.ring) && !e.encoderError && e.window.decimationCounter < k.decimation
    decreases |events|
  {
    hide Happen, Offset;
    if events != [] {
      var n := |events| - 1;
      ArmedIsReady(k, v, events[..n]);
      var before := After(k, v, events[..n]);
      StepLogs(k, before, events[n]);
      StepRuns(k, before, events[n]);
    }
  }

  lemma StepRuns(k: Setup, v: View, e: Event)
    requires k.modulus > 0 && v.state !in {Idle, Failed} && !v.encoderError
    ensures Happen(k, v, e).state !in {Idle, Failed}
  {
    hide CheckTrigger, HasExpired, Remaining, Ends, Ring.Advance;
  }

  // ----- A logger that cannot log -----

  /** With an encoder that has no usable entry, the first call of a running logger fails it, and it
      stays so whatever follows. */
  lemma {:induction false} UnusableEncoderFails(k: Setup, v: View, events: seq<Event>)
    requires k.modulus > 0 && v.encoderError && v.state in {Configured, Armed, Triggered}
    requires exists i :: 0 <= i < |events| && events[i].Call?
    ensures After(k, v, events).state == Failed && After(k, v, events).ring == v.ring
  {
    var i :| 0 <= i < |events| && events[i].Call?;
    UnusableStays(k, v, events, i);
  }

  lemma {:induction false} UnusableStays(k: Setup, v: View, events: seq<Event>, i: nat)
    requires k.modulus > 0 && v.encoderError && v.state in {Configured, Armed, Triggered}
    ensures
      var e := After(k, v, events);
      && e.encoderError && e.ring == v.ring && e.state in {Configured, Armed, Triggered, Failed}
      && (i < |events| && events[i].Call? ==> e.state == Failed)
    decreases |events|
  {
    if events != [] {
      var n := |events| - 1;
      UnusableStays(k, v, events[..n], i);
      UnusableStep(k, After(k, v, events[..n]), events[n]);
      hide Happen;
    }
  }

  lemma UnusableStep(k: Setup, v: View, e: Event)
    requires k.modulus > 0 && v.encoderError && v.state in {Configured, Armed, Triggered, Failed}
    ensures
      var w := Happen(k, v, e);
      && w.encoderError && w.ring == v.ring && w.state in {Configured, Armed, Triggered, Failed}
      && (e.Call? || v.state == Failed ==> w.state == Failed)
  {}
}
