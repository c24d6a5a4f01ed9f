// The ring that the datalogger fills (RawFormatEncoder) and the chunked reader that drains
// it (RawFormatReader).
module RawEncoder {
  import opened Words
  import opened Chunks

  function Flatten(entries: seq<seq<byte>>): seq<byte> {
    if entries == [] then [] else entries[0] + Flatten(entries[1..])
  }

  lemma {:induction false} FlattenConcat(a: seq<seq<byte>>, b: seq<seq<byte>>)
    ensures Flatten(a + b) == Flatten(a) + Flatten(b)
  {
    if a == [] {
      assert a + b == b;
    } else {
      FlattenConcat(a[1..], b);
      assert (a + b)[1..] == a[1..] + b;
      assert a[0] + (Flatten(a[1..]) + Flatten(b)) == (a[0] + Flatten(a[1..])) + Flatten(b);
    }
  }

  /** The most recent `count` entries, oldest first. */
  function Last<T>(log: seq<T>, count: nat): seq<T> {
    log[|log| - Min(count, |log|)..]
  }

  /** Where entry `j` starts: `j * size`, in a form that needs no multiplication. */
  function Offset(j: nat, size: nat): nat {
    if j == 0 then 0 else Offset(j - 1, size) + size
  }

  lemma {:induction false} OffsetIsProduct(j: nat, size: nat)
    ensures Offset(j, size) == j * size
  {
    if j > 0 {
      OffsetIsProduct(j - 1, size);
    }
  }

  lemma {:induction false} OffsetGrows(i: nat, j: nat, size: nat)
    requires i <= j
    ensures Offset(i, size) + (if i < j then size else 0) <= Offset(j, size)
  {
    if i < j {
      OffsetGrows(i, j - 1, size);
    }
  }

  /** A byte region as `count` entries side by side. */
  function Slots(bytes: seq<byte>, count: nat, size: nat): (slots: seq<seq<byte>>)
    ensures |slots| == count
  {
    if count == 0 then []
    else
      var at := Offset(count - 1, size);
      Slots(bytes, count - 1, size) + [if at + size <= |bytes| then bytes[at..at + size] else []]
  }

  lemma {:induction false} SlotsPrefix(bytes: seq<byte>, k: nat, count: nat, size: nat)
    requires k <= count
    ensures Slots(bytes, count, size)[..k] == Slots(bytes, k, size)
  {
    if k < count {
      SlotsPrefix(bytes, k, count - 1, size);
    }
  }

  lemma {:induction false} SlotsAreBytes(bytes: seq<byte>, count: nat, size: nat)
    requires Offset(count, size) <= |bytes|
    ensures Flatten(Slots(bytes, count, size)) == bytes[..Offset(count, size)]
  {
    if count > 0 {
      var at := Offset(count - 1, size);
      SlotsAreBytes(bytes, count - 1, size);
      FlattenConcat(Slots(bytes, count - 1, size), [bytes[at..at + size]]);
      FlattenOne(bytes[at..at + size]);
    }
  }

  /** A run of whole entries is a run of bytes. */
  lemma RunOfSlots(bytes: seq<byte>, from: nat, to: nat, count: nat, size: nat)
    requires from <= to <= count && Offset(count, size) <= |bytes|
    ensures Offset(from, size) <= Offset(to, size) <= |bytes|
    ensures Flatten(Slots(bytes, count, size)[from..to]) == bytes[Offset(from, size)..Offset(to, size)]
  {
    hide Offset, Flatten, Slots;
    OffsetGrows(from, to, size);
    OffsetGrows(to, count, size);
    SlotsPrefix(bytes, to, count, size);
    SlotsPrefix(bytes, from, to, size);
    SlotsAreBytes(bytes, to, size);
    SlotsAreBytes(bytes, from, size);
    var slots := Slots(bytes, to, size);
    FlattenConcat(slots[..from], slots[from..]);
    assert slots == slots[..from] + slots[from..];
    assert Slots(bytes, count, size)[from..to] == slots[from..];
    RestOfRun(Flatten(slots[from..]), bytes, Offset(from, size), Offset(to, size));
  }

  lemma RestOfRun(rest: seq<byte>, bytes: seq<byte>, from: nat, to: nat)
    requires from <= to <= |bytes| && bytes[..to] == bytes[..from] + rest
    ensures rest == bytes[from..to]
  {
    assert rest == bytes[..to][from..];
  }

  /** Overwriting one stretch leaves a disjoint one alone. */
  lemma StretchWritten(before: seq<byte>, start: nat, entry: seq<byte>, at: nat)
    requires start + |entry| <= |before| && at + |entry| <= |before|
    requires at + |entry| <= start || start + |entry| <= at || at == start
    ensures (before[..start] + entry + before[start + |entry|..])[at..at + |entry|] ==
            if at == start then entry else before[at..at + |entry|]
  {}

  lemma LastSlot(bytes: seq<byte>, count: nat, size: nat)
    requires count > 0 && Offset(count, size) <= |bytes|
    ensures Offset(count, size) == Offset(count - 1, size) + size
    ensures
      var at := Offset(count - 1, size);
      Slots(bytes, count, size) == Slots(bytes, count - 1, size) + [bytes[at..at + size]]
  {}

  lemma {:induction false} WriteSlot(before: seq<byte>, after: seq<byte>, next: nat, count: nat, size: nat, entry: seq<byte>)
    requires Offset(count, size) <= |before| && |entry| == size && Offset(next, size) + size <= |before|
    requires after == before[..Offset(next, size)] + entry + before[Offset(next, size) + size..]
    ensures Slots(after, count, size) ==
      if next < count then Slots(before, count, size)[next := entry] else Slots(before, count, size)
  {
    if count == 0 {
      assert Slots(after, 0, size) == Slots(before, 0, size) == [];
    } else {
      hide Slots, Offset;
      var at := Offset(count - 1, size);
      LastSlot(before, count, size);
      LastSlot(after, count, size);
      WriteSlot(before, after, next, count - 1, size, entry);
      if next < count - 1 {
        OffsetGrows(next, count - 1, size);
      } else if next > count - 1 {
        OffsetGrows(count - 1, next, size);
      }
      StretchWritten(before, Offset(next, size), entry, at);
      assert after[at..at + size] == if next == count - 1 then entry else before[at..at + size];
    }
  }

  lemma FlattenOne(e: seq<byte>)
    ensures Flatten([e]) == e
  {
    assert [e][1..] == [];
  }

  /** Shape of the ring: entry size and capacity, oldest and next entry, wrapped or not. */
  datatype Ring = Ring(size: nat, capacity: nat, first: nat, next: nat, full: bool)
  {
    function Count(): nat { if full then capacity else next }

    predicate Ok(bytes: seq<byte>) {
      && size > 0 && next < capacity && Offset(capacity, size) <= |bytes|
      && first == if full then next else 0
    }

    /** The entries in the ring, oldest first. */
    function Held(slots: seq<seq<byte>>): seq<seq<byte>>
      requires |slots| == capacity && next < capacity && first <= capacity
    {
      if full then slots[first..] + slots[..first] else slots[..next]
    }

    /** The ring holds the most recent entries of `log`. */
    predicate Keeps(slots: seq<seq<byte>>, log: seq<seq<byte>>)
      requires |slots| == capacity && next < capacity && first <= capacity
    {
      && Held(slots) == Last(log, capacity)
      && (full <==> |log| >= capacity)
    }

    function Advance(): Ring {
      Ring(size, capacity,
           if !full then first else if first + 1 >= capacity then 0 else first + 1,
           if next + 1 >= capacity then 0 else next + 1,
           full || next + 1 >= capacity)
    }

    lemma AdvanceKeeps(slots: seq<seq<byte>>, log: seq<seq<byte>>, entry: seq<byte>)
      requires |slots| == capacity && next < capacity && first == (if full then next else 0) && Keeps(slots, log)
      ensures Advance().Keeps(slots[next := entry], log + [entry])
    {
      var r, after := Advance(), slots[next := entry];
      if full {
        assert r.Held(after) == Held(slots)[1..] + [entry];
      } else if next + 1 == capacity {
        assert r.Held(after) == after == log + [entry];
      }
    }

    function ReadFrom(): nat { Offset(first, size) }
    function WriteCursor(): nat { Offset(next, size) }
    function End(): nat { Offset(capacity, size) }

    /** Both cursors are inside the used part, which is inside the buffer. */
    lemma CursorsInside(bytes: seq<byte>)
      requires Ok(bytes)
      ensures ReadFrom() < End() && WriteCursor() < End() <= |bytes|
    {
      OffsetGrows(first, capacity, size);
      OffsetGrows(next, capacity, size);
    }

    /** The bytes from a cursor around to the write cursor. If the two meet, that is nothing for
        a reader that has started, and a whole lap for one that has not. */
    function Ahead(bytes: seq<byte>, cursor: nat, started: bool): seq<byte>
      requires Ok(bytes) && cursor < End()
    {
      CursorsInside(bytes);
      if cursor == WriteCursor() && started then []
      else if WriteCursor() > cursor then bytes[cursor..WriteCursor()]
      else bytes[cursor..End()] + bytes[..WriteCursor()]
    }

    /** What a reader delivers that starts at the oldest entry. */
    function Stream(bytes: seq<byte>): seq<byte>
      requires Ok(bytes)
    {
      CursorsInside(bytes);
      Ahead(bytes, ReadFrom(), false)
    }

    lemma StreamIsLog(bytes: seq<byte>, log: seq<seq<byte>>)
      requires Ok(bytes) && Keeps(Slots(bytes, capacity, size), log) && log != []
      ensures Stream(bytes) == Flatten(Last(log, capacity))
      ensures |Stream(bytes)| == Offset(Count(), size)
    {
      var slots := Slots(bytes, capacity, size);
      if full {
        RunOfSlots(bytes, first, capacity, capacity, size);
        RunOfSlots(bytes, 0, first, capacity, size);
        assert slots[first..capacity] == slots[first..] && slots[0..first] == slots[..first];
        FlattenConcat(slots[first..], slots[..first]);
      } else {
        RunOfSlots(bytes, 0, next, capacity, size);
        OffsetGrows(0, next, size);
      }
    }

    /** Whatever the chunk sizes, reading yields the most recent entries, oldest first, and
        stops at their total size. */
    lemma ChunksAreLog(bytes: seq<byte>, log: seq<seq<byte>>, sizes: seq<nat>)
      requires Ok(bytes) && Keeps(Slots(bytes, capacity, size), log) && log != []
      requires forall k | 0 <= k < |sizes| :: sizes[k] > 0
      ensures Drain(Stream(bytes), 0, sizes) <= Flatten(Last(log, capacity))
      ensures |sizes| >= Count() * size ==> Drain(Stream(bytes), 0, sizes) == Flatten(Last(log, capacity))
      ensures |Flatten(Last(log, capacity))| == Count() * size
    {
      hide Ring.Stream, Slots, Flatten, Last, Ring.Keeps, Ring.Ok;
      StreamIsLog(bytes, log);
      OffsetIsProduct(Count(), size);
      DrainIsPrefix(Stream(bytes), 0, sizes);
      if |sizes| >= Count() * size {
        DrainsWhole(Stream(bytes), sizes);
      }
    }

    /** The reader delivers the announced total size exactly when there is an entry: on an
        empty log it hands out the whole used part of the buffer, announced as no bytes. */
    lemma TotalSizeIsStream(bytes: seq<byte>, log: seq<seq<byte>>)
      requires Ok(bytes) && Keeps(Slots(bytes, capacity, size), log)
      ensures |Stream(bytes)| == Count() * size <==> log != []
      ensures log == [] ==> Stream(bytes) == bytes[..End()] && Count() * size == 0
    {
      OffsetIsProduct(Count(), size);
      OffsetIsProduct(capacity, size);
      if log == [] {
        OffsetGrows(0, capacity, size);
        assert Count() == 0;
      } else {
        StreamIsLog(bytes, log);
      }
    }
  }

  /** What one loggable item takes in an entry: nothing is known about an unknown RPV. */
  datatype ItemSize = Known(size: byte) | Unknown

  predicate SizeUsable(s: ItemSize) { s.Known? && s.size > 0 }

  function EntrySize(sizes: seq<ItemSize>): (r: nat)
    ensures (forall i | 0 <= i < |sizes| :: SizeUsable(sizes[i])) ==> r >= |sizes|
    ensures r <= 255 * |sizes|
  {
    if sizes == [] then 0
    else EntrySize(sizes[..|sizes| - 1]) + (if sizes[|sizes| - 1].Known? then sizes[|sizes| - 1].size else 0)
  }

  /** One snapshot of the logged items: each item's bytes. */
  predicate Matches(sample: seq<seq<byte>>, sizes: seq<ItemSize>) {
    |sample| == |sizes| && forall i | 0 <= i < |sizes| :: sizes[i].Known? && sizes[i].size == |sample[i]|
  }

  lemma {:induction false} SampleSize(sample: seq<seq<byte>>, sizes: seq<ItemSize>, k: nat)
    requires Matches(sample, sizes) && k <= |sample|
    ensures |Flatten(sample[..k])| == EntrySize(sizes[..k])
  {
    if k > 0 {
      SampleSize(sample, sizes, k - 1);
      assert sample[..k] == sample[..k - 1] + [sample[k - 1]];
      FlattenConcat(sample[..k - 1], [sample[k - 1]]);
      assert sizes[..k][..k - 1] == sizes[..k - 1];
    }
  }

  lemma {:induction false} EntrySizeGrows(sizes: seq<ItemSize>, k: nat)
    requires k <= |sizes|
    ensures EntrySize(sizes[..k]) <= EntrySize(sizes)
    decreases |sizes| - k
  {
    if k < |sizes| {
      EntrySizeGrows(sizes, k + 1);
      assert sizes[..k + 1][..k] == sizes[..k];
    } else {
      assert sizes[..k] == sizes;
    }
  }

  lemma QuotientFits(a: nat, b: nat)
    requires b > 0
    ensures Offset(a / b, b) <= a && (a / b == 0 <==> a < b)
  {
    OffsetIsProduct(a / b, b);
  }

  /** Unsigned increment of a word with `modulus` values. */
  function Increment(n: nat, modulus: nat): nat { if n + 1 >= modulus then 0 else n + 1 }

  class RawFormatEncoder {
    const buffer: array<byte>
    /** One more than the biggest buffer_size_t. */
    const modulus: nat
    var items: seq<ItemSize>
    /** Entry size, capacity in entries, oldest and next entry index, full flag. */
    var ring: Ring
    var writeCounter: nat
    var error: bool
    /** Every entry encoded since the last reset. */
    ghost var log: seq<seq<byte>>

    ghost predicate WidthOk() {
      (modulus == 0x1_0000 || modulus == 0x1_0000_0000) && buffer.Length < modulus
    }

    ghost predicate Valid()
      reads this, buffer
    {
      && WidthOk() && writeCounter < modulus
      && (!error ==> ring.size == EntrySize(items) && RingOk(ring, buffer[..], log))
    }

    constructor (buffer: array<byte>, modulus: nat, sizes: seq<ItemSize>)
      requires |sizes| <= 255 && (modulus == 0x1_0000 || modulus == 0x1_0000_0000) && buffer.Length < modulus
      ensures Valid() && log == [] && items == sizes && this.buffer == buffer && this.modulus == modulus
    {
      this.buffer, this.modulus := buffer, modulus;
      ring := Ring(0, 0, 0, 0, false);
      new;
      Reset(sizes);
    }

    method ResetWriteCounter()
      requires Valid()
      modifies `writeCounter
      ensures Valid() && writeCounter == 0
    {
      writeCounter := 0;
    }

    method Reset(sizes: seq<ItemSize>)
      requires |sizes| <= 255 && WidthOk()
      modifies this
      ensures Valid() && log == [] && writeCounter == 0 && items == sizes
      ensures error <==> buffer.Length < EntrySize(sizes) || sizes == [] || exists i | 0 <= i < |sizes| :: !SizeUsable(sizes[i])
      ensures !error ==> ring == Ring(EntrySize(sizes), buffer.Length / EntrySize(sizes), 0, 0, false)
    {
      hide SizeUsable, RingOk, EntrySize;
      items := sizes;
      writeCounter := 0;
      log := [];
      var size, failed := MeasureEntry(sizes, buffer.Length == 0);
      error := failed;
      ring := Ring(size, 0, 0, 0, false);
      if size > 0 {
        ring := ring.(capacity := buffer.Length / size);
        FreshRingOk(buffer[..], size);
      } else {
        error := true;
      }
      if ring.capacity == 0 {
        error := true;
      }
    }

    /** Takes a snapshot: one byte string per item, as read from the target. */
    method EncodeNextEntry(sample: seq<seq<byte>>)
      requires Valid() && Matches(sample, items)
      modifies `ring, `writeCounter, `log, buffer
      ensures Valid()
      ensures error ==> log == old(log) && buffer[..] == old(buffer[..]) && writeCounter == old(writeCounter) && ring == old(ring)
      ensures !error ==> log == old(log) + [Flatten(sample)] && ring == old(ring).Advance()
                         && writeCounter == Increment(old(writeCounter), modulus)
    {
      hide Slots, Flatten, EntrySize, Offset, Ring.Keeps, Matches;
      if error {
        return;
      }
      ghost var slots, entry := Slots(buffer[..], ring.capacity, ring.size), Flatten(sample);
      ring.AdvanceKeeps(slots, log, entry);
      if ring.next == ring.first && ring.full {
        ring := ring.(first := ring.first + 1);
        if ring.first >= ring.capacity {
          ring := ring.(first := 0);
        }
      }
      WriteEntry(sample);
      ring := ring.(next := ring.next + 1);
      if ring.next >= ring.capacity {
        ring := ring.(full := true, next := 0);
      }
      writeCounter := Increment(writeCounter, modulus);
      log := log + [entry];
    }

    method WriteEntry(sample: seq<seq<byte>>)
      requires Matches(sample, items) && ring.size == EntrySize(items)
      requires ring.next < ring.capacity && Offset(ring.capacity, ring.size) <= buffer.Length
      modifies buffer
      ensures
        Slots(buffer[..], ring.capacity, ring.size) ==
        old(Slots(buffer[..], ring.capacity, ring.size))[ring.next := Flatten(sample)]
    {
      hide Slots, Flatten, EntrySize;
      ghost var before := buffer[..];
      OffsetGrows(ring.next, ring.capacity, ring.size);
      OffsetIsProduct(ring.next, ring.size);
      var cursor := ring.next * ring.size;
      CopyItems(sample, cursor);
      WriteSlot(before, buffer[..], ring.next, ring.capacity, ring.size, Flatten(sample));
    }

    method CopyItems(sample: seq<seq<byte>>, start: nat)
      requires Matches(sample, items) && start + EntrySize(items) <= buffer.Length
      modifies buffer
      ensures |Flatten(sample)| == EntrySize(items)
      ensures buffer[..] == old(buffer[..start]) + Flatten(sample) + old(buffer[start + EntrySize(items)..])
    {
      hide Flatten, EntrySize;
      var cursor := start;
      assert sample[..0] == [];
      SampleSize(sample, items, 0);
      for i := 0 to |items|
        invariant cursor == start + EntrySize(items[..i]) <= start + EntrySize(items)
        invariant |Flatten(sample[..i])| == EntrySize(items[..i])
        invariant buffer[..] == old(buffer[..start]) + Flatten(sample[..i]) + old(buffer[cursor..])
      {
        SampleSize(sample, items, i + 1);
        EntrySizeGrows(items, i + 1);
        assert sample[..i + 1] == sample[..i] + [sample[i]];
        FlattenConcat(sample[..i], [sample[i]]);
        FlattenOne(sample[i]);
        WriteItem(cursor, sample[i]);
        cursor := cursor + |sample[i]|;
      }
      assert items[..|items|] == items && sample[..|items|] == sample;
    }

    method WriteItem(cursor: nat, bytes: seq<byte>)
      requires cursor + |bytes| <= buffer.Length
      modifies buffer
      ensures buffer[..] == old(buffer[..cursor]) + bytes + old(buffer[cursor + |bytes|..])
    {
      forall k | 0 <= k < |bytes| {
        buffer[cursor + k] := bytes[k];
      }
    }

    function GetReadCursor(): (r: nat)
      reads this
      ensures r == ring.ReadFrom()
    {
      OffsetIsProduct(ring.first, ring.size);
      ring.first * ring.size
    }

    function GetWriteCursor(): (r: nat)
      reads this
      ensures r == ring.WriteCursor()
    {
      OffsetIsProduct(ring.next, ring.size);
      ring.next * ring.size
    }

    function GetBufferEffectiveSize(): (r: nat)
      reads this
      ensures r == ring.End()
    {
      OffsetIsProduct(ring.capacity, ring.size);
      ring.size * ring.capacity
    }

    function GetEntryCount(): (r: nat)
      reads this
      ensures r == ring.Count()
    {
      if ring.full then ring.capacity else ring.next
    }

    function GetDataWriteCounter(): nat
      requires modulus > 0
      reads this
    {
      writeCounter * ring.size % modulus
    }

    function RemainingBytesToFull(): int
      reads this
    {
      if ring.full then 0 else GetBufferEffectiveSize() - GetWriteCursor()
    }
  }

  lemma FreshRingOk(bytes: seq<byte>, size: nat)
    requires size > 0
    ensures |bytes| / size == 0 <==> |bytes| < size
    ensures |bytes| / size > 0 ==> RingOk(Ring(size, |bytes| / size, 0, 0, false), bytes, [])
  {
    QuotientFits(|bytes|, size);
  }

  class RawFormatReader {
    const encoder: RawFormatEncoder
    var readCursor: nat
    var finishedFlag: bool
    var readStarted: bool

    constructor (encoder: RawFormatEncoder)
      ensures this.encoder == encoder && readCursor == 0 && !finishedFlag && !readStarted
    {
      this.encoder := encoder;
      readCursor, finishedFlag, readStarted := 0, false, false;
    }

    /** The cursor is inside the used part of the buffer, whatever was logged since. */
    ghost predicate Valid()
      reads `readCursor, encoder, encoder.buffer
    {
      encoder.Valid() && (!encoder.error ==> readCursor < encoder.ring.End())
    }

    /** What is still to be read. */
    ghost function Rest(): seq<byte>
      requires Valid() && !encoder.error
      reads `readCursor, `readStarted, encoder, encoder.buffer
    {
      encoder.ring.Ahead(encoder.buffer[..], readCursor, readStarted)
    }

    method Reset()
      requires encoder.Valid()
      modifies this
      ensures Valid() && !finishedFlag
      ensures !encoder.error ==> Rest() == encoder.ring.Stream(encoder.buffer[..])
    {
      readStarted := false;
      finishedFlag := false;
      readCursor := encoder.GetReadCursor();
      if !encoder.error {
        encoder.ring.CursorsInside(encoder.buffer[..]);
      }
    }

    /** The announced size is what a reset reader delivers, unless the log is empty. */
    function GetTotalSize(): (r: nat)
      requires encoder.Valid()
      reads this, encoder, encoder.buffer
      ensures encoder.error || encoder.log == [] ==> r == 0
      ensures !encoder.error ==> (r == |encoder.ring.Stream(encoder.buffer[..])| <==> encoder.log != [])
    {
      if encoder.error then 0
      else
        encoder.ring.TotalSizeIsStream(encoder.buffer[..], encoder.log);
        encoder.GetEntryCount() * encoder.ring.size
    }

    /** Copies the next chunk, at most `maxSize` bytes, to `out[at..at + count]`. */
    method Read(out: array<byte>, at: nat, maxSize: nat) returns (count: nat, ghost passes: nat)
      requires Valid() && at + maxSize <= out.Length && out != encoder.buffer
      modifies this, out
      ensures Valid() && count <= maxSize && passes <= 2
      ensures out[..at] == old(out[..at]) && out[at + count..] == old(out[at + count..])
      ensures encoder.error ==> count == 0 && finishedFlag == old(finishedFlag)
      ensures !encoder.error ==>
        && out[at..at + count] == Piece(old(Rest()), 0, maxSize) && Rest() == old(Rest())[count..]
        && (finishedFlag <==> old(finishedFlag) || Rest() == [])
    {
      hide Valid, Rest, RawFormatEncoder.Valid, Ring.WriteCursor, Ring.Ok, Ring.Keeps, RingOk, EntrySize;
      count, passes := 0, 0;
      if encoder.error {
        return;
      }
      ghost var rest := Rest();
      var writeCursor := encoder.GetWriteCursor();
      NothingLeftIff();
      assert rest[0..] == rest;
      if readCursor == writeCursor && readStarted {
        finishedFlag := true;
        return;
      }
      while count < maxSize
        invariant count <= maxSize && count <= |rest| && Valid() && Rest() == rest[count..] && count < |rest|
        invariant forall k | 0 <= k < at || at + count <= k < out.Length :: out[k] == old(out[k])
        invariant forall k | at <= k < at + count :: out[k] == rest[k - at]
        invariant finishedFlag == old(finishedFlag)
        invariant passes <= 2 && (passes >= 1 && count < maxSize ==> readCursor < writeCursor)
        invariant passes == 2 ==> count == maxSize
        decreases maxSize - count
      {
        var transferred := Pass(out, at + count, maxSize - count);
        assert rest[count..][transferred..] == rest[count + transferred..];
        count := count + transferred;
        passes := passes + 1;
        if readCursor == writeCursor {
          finishedFlag := true;
          break;
        }
      }
      assert out[at..at + count] == rest[..count];
    }

    method CopyOut(out: array<byte>, at: nat, count: nat)
      requires at + count <= out.Length && readCursor + count <= encoder.buffer.Length && out != encoder.buffer
      modifies out
      ensures forall k | 0 <= k < at || at + count <= k < out.Length :: out[k] == old(out[k])
      ensures forall k | at <= k < at + count :: out[k] == encoder.buffer[readCursor + (k - at)]
    {
      forall k | 0 <= k < count {
        out[at + k] := encoder.buffer[readCursor + k];
      }
    }

    lemma NothingLeftIff()
      requires Valid() && !encoder.error
      ensures Rest() == [] <==> readCursor == encoder.ring.WriteCursor() && readStarted
    {
      encoder.ring.CursorsInside(encoder.buffer[..]);
    }

    /** How far one copy can go. */
    function Stop(): (r: nat)
      reads this, encoder
      ensures r == if encoder.ring.WriteCursor() > readCursor then encoder.ring.WriteCursor() else encoder.ring.End()
    {
      if encoder.GetWriteCursor() > readCursor then encoder.GetWriteCursor() else encoder.GetBufferEffectiveSize()
    }

    /** One turn of the copy loop: up to the write cursor or to the end of the used part. */
    method Pass(out: array<byte>, at: nat, room: nat) returns (count: nat)
      requires Valid() && at + room <= out.Length && out != encoder.buffer
      requires !encoder.error && Rest() != [] && room > 0
      modifies `readCursor, `readStarted, out
      ensures Valid() && readStarted && 0 < count <= room && count <= |old(Rest())| && Rest() == old(Rest())[count..]
      ensures forall k | 0 <= k < at || at + count <= k < out.Length :: out[k] == old(out[k])
      ensures forall k | at <= k < at + count :: out[k] == old(Rest())[k - at]
      ensures Rest() == [] <==> readCursor == encoder.ring.WriteCursor()
      ensures count < room ==> readCursor <= encoder.ring.WriteCursor()
      ensures old(readCursor) < encoder.ring.WriteCursor() && count < room ==> readCursor == encoder.ring.WriteCursor()
    {
      CopyIsAhead();
      hide Valid, Rest, RawFormatEncoder.Valid, Ring.WriteCursor, Ring.End;
      ghost var rest := Rest();
      count := Min(Stop() - readCursor, room);
      CopyOut(out, at, count);
      assert forall k | at <= k < at + count :: out[k] == rest[k - at];
      Advance(count);
    }

    /** What lies between the cursor and the stop is what comes next. */
    lemma CopyIsAhead()
      requires Valid() && !encoder.error && Rest() != []
      ensures readCursor < Stop() <= encoder.buffer.Length && Stop() - readCursor <= |Rest()|
      ensures forall k | readCursor <= k < Stop() :: Rest()[k - readCursor] == encoder.buffer[k]
    {
      encoder.ring.CursorsInside(encoder.buffer[..]);
    }

    method Advance(count: nat)
      requires Valid() && !encoder.error && Rest() != [] && 0 < count && readCursor + count <= Stop()
      modifies `readCursor, `readStarted
      ensures Valid() && readStarted && count <= |old(Rest())| && Rest() == old(Rest())[count..]
      ensures Rest() == [] <==> readCursor == encoder.ring.WriteCursor()
      ensures old(readCursor + count == Stop()) ==> readCursor <= encoder.ring.WriteCursor()
      ensures old(readCursor < encoder.ring.WriteCursor() && readCursor + count == Stop()) ==>
              readCursor == encoder.ring.WriteCursor()
    {
      assert encoder.ring.Ok(encoder.buffer[..]);
      hide RawFormatEncoder.Valid, Ring.Ok, Ring.Ahead, Ring.WriteCursor, Ring.End;
      var writeCursor := encoder.GetWriteCursor();
      var bufferEnd := encoder.GetBufferEffectiveSize();
      AheadMoves(encoder.ring, encoder.buffer[..], readCursor, readStarted, count);
      readCursor := readCursor + count;
      readStarted := true;
      if readCursor > writeCursor {
        if readCursor >= bufferEnd {
          readCursor := readCursor - bufferEnd;
        }
      }
    }
  }

  method ReadPiece(reader: RawFormatReader, size: nat) returns (piece: seq<byte>)
    requires reader.Valid() && !reader.encoder.error
    modifies reader
    ensures reader.Valid() && piece == Piece(old(reader.Rest()), 0, size) && reader.Rest() == old(reader.Rest())[|piece|..]
    ensures reader.finishedFlag <==> old(reader.finishedFlag) || reader.Rest() == []
  {
    hide RawFormatReader.Valid, RawFormatReader.Rest, RawFormatEncoder.Valid;
    var buffer := new byte[size];
    var count, passes := reader.Read(buffer, 0, size);
    piece := buffer[..count];
    assert buffer[0..0 + count] == piece;
  }

  /** Reads what is ahead in chunks of any sizes; `out` is what they are together. */
  method ReadPieces(reader: RawFormatReader, sizes: seq<nat>) returns (out: seq<byte>)
    requires reader.Valid() && !reader.encoder.error
    modifies reader
    ensures reader.Valid() && out == Drain(old(reader.Rest()), 0, sizes)
    ensures |out| <= |old(reader.Rest())| && reader.Rest() == old(reader.Rest())[|out|..]
    ensures reader.finishedFlag <==> old(reader.finishedFlag) || (sizes != [] && reader.Rest() == [])
  {
    hide RawFormatReader.Valid, RawFormatReader.Rest, RawFormatEncoder.Valid, Piece, Drain;
    ghost var rest := reader.Rest();
    ghost var finished := reader.finishedFlag;
    out := [];
    assert sizes[0..] == sizes && rest[0..] == rest;
    for k := 0 to |sizes|
      invariant reader.Valid() && |out| <= |rest| && reader.Rest() == rest[|out|..]
      invariant out + Drain(rest, |out|, sizes[k..]) == Drain(rest, 0, sizes)
      invariant reader.finishedFlag <==> finished || (k > 0 && reader.Rest() == [])
    {
      var piece := ReadPiece(reader, sizes[k]);
      PieceOfRest(rest, |out|, sizes[k]);
      OnePieceMore(rest, |out|, out, piece, sizes, k);
      assert rest[|out|..][|piece|..] == rest[|out + piece|..];
      out := out + piece;
    }
    DrainNothing(rest, |out|, sizes[|sizes|..]);
  }

  /** Reads the log from its start. */
  method ReadLog(reader: RawFormatReader, sizes: seq<nat>) returns (out: seq<byte>)
    requires reader.encoder.Valid() && !reader.encoder.error
    modifies reader
    ensures reader.Valid() && out == Drain(reader.encoder.ring.Stream(reader.encoder.buffer[..]), 0, sizes)
    ensures reader.finishedFlag <==> sizes != [] && |out| == |reader.encoder.ring.Stream(reader.encoder.buffer[..])|
  {
    reader.Reset();
    out := ReadPieces(reader, sizes);
  }

  /** One pass of the copy loop delivers the first bytes of what is ahead and leaves the others
      ahead; a pass that was not cut short by its size turns around at most once. */
  lemma AheadMoves(ring: Ring, bytes: seq<byte>, cursor: nat, started: bool, size: nat)
    requires ring.Ok(bytes) && cursor < ring.End() && ring.Ahead(bytes, cursor, started) != [] && size > 0
    requires cursor + size <= if ring.WriteCursor() > cursor then ring.WriteCursor() else ring.End()
    ensures
      var c, w, ahead := cursor + size, ring.WriteCursor(), ring.Ahead(bytes, cursor, started);
      var d := if c > w && c >= ring.End() then c - ring.End() else c;
      && size <= |ahead| && c <= |bytes| && d < ring.End()
      && ring.Ahead(bytes, d, true) == ahead[size..] && (ahead[size..] == [] <==> d == w)
      && (c == (if w > cursor then w else ring.End()) ==> d <= w)
  {
    ring.CursorsInside(bytes);
  }

  ghost predicate RingOk(ring: Ring, bytes: seq<byte>, log: seq<seq<byte>>) {
    ring.Ok(bytes) && ring.Keeps(Slots(bytes, ring.capacity, ring.size), log)
  }

  /** Adds up the item sizes; stops at the first item that has none. */
  method MeasureEntry(sizes: seq<ItemSize>, noBuffer: bool) returns (total: u16, error: bool)
    requires |sizes| <= 255
    ensures !error ==> total == EntrySize(sizes)
    ensures error <==> noBuffer || exists j | 0 <= j < |sizes| :: !SizeUsable(sizes[j])
  {
    total, error := 0, noBuffer;
    var i := 0;
    while i < |sizes| && !error
      invariant i <= |sizes| && total <= 255 * i
      invariant !error ==> total == EntrySize(sizes[..i]) && forall j | 0 <= j < i :: SizeUsable(sizes[j])
      invariant error ==> noBuffer || exists j | 0 <= j < i :: !SizeUsable(sizes[j])
      invariant noBuffer ==> error
    {
      assert sizes[..i + 1][..i] == sizes[..i];
      var size := if sizes[i].Known? then sizes[i].size else 0;
      if size == 0 {
        error := true;
        assert !SizeUsable(sizes[i]);
      } else {
        total := total + size;
      }
      i := i + 1;
    }
    assert !error ==> sizes[..i] == sizes;
  }
}
