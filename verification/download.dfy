// The download of an acquisition: one response per ReadAcquisition request, each with the next
// piece of the log, the last one with the CRC of all pieces.
module Download {
  import opened Words
  import opened Checksum
  import opened Chunks
  import opened Wrappers
  import opened RawEncoder
  import opened Acquisition

  datatype Packet = Packet(finished: bool, counter: byte, acquisition: u16, data: seq<byte>, crc: Crc)

  /** On the wire: flag, rolling counter, acquisition, data, and the CRC in the last one. */
  function Encode(p: Packet): seq<byte> {
    [if p.finished then 1 else 0, p.counter] + EncodeBe(p.acquisition, 2) + p.data
    + if p.finished then CrcBytes(p.crc) else []
  }

  /** What a client makes of a response, given the CRC of the data before it. */
  function Decode(bytes: seq<byte>, crc: Crc): Option<Packet>
  {
    if |bytes| < 4 || (bytes[0] != 0 && |bytes| < 8) then None
    else
      var finished := bytes[0] != 0;
      var end := if finished then |bytes| - 4 else |bytes|;
      var data := bytes[4..end];
      if finished && GlueAll(ZERO, bytes[end..]) != Crc32(data, crc) then None
      else Some(Packet(finished, bytes[1], Word16(bytes[2..4]), data, Crc32(data, crc)))
  }

  /** The response to the next request, when `rest` is still to be read: as many bytes as fit,
      and the CRC if the reader is finished by then (or was before) and there is room. */
  function NextPacket(rest: seq<byte>, done: bool, room: nat, counter: byte, acquisition: u16, crc: Crc): (p: Packet)
    requires room >= 32
    ensures |Encode(p)| <= room && p.data <= rest
  {
    var data := Piece(rest, 0, room - 4);
    Packet((done || |data| == |rest|) && 4 + |data| <= room - 4, counter, acquisition, data, Crc32(data, crc))
  }

  function Rolled(counter: byte, i: nat): byte { (counter + i) % 256 }

  /** All responses of a transfer with `rest` to go, up to the finished one. */
  function Packets(rest: seq<byte>, room: nat, counter: byte, acquisition: u16, crc: Crc): seq<Packet>
    requires room >= 32
    decreases |rest|, if rest == [] then 0 else 1
  {
    var p := NextPacket(rest, false, room, counter, acquisition, crc);
    if p.finished then [p]
    else [p] + Packets(rest[|p.data|..], room, Rolled(counter, 1), acquisition, p.crc)
  }

  /** The data parts, in order. */
  function Reassemble(packets: seq<Packet>): seq<byte> {
    if packets == [] then [] else packets[0].data + Reassemble(packets[1..])
  }

  lemma RolledOn(counter: byte, i: nat)
    ensures Rolled(Rolled(counter, 1), i) == Rolled(counter, i + 1)
  {}

  /** Numbered from `counter`, all of one acquisition, only the last one finished. */
  ghost predicate WellNumbered(ps: seq<Packet>, counter: byte, acquisition: u16) {
    && (forall i | 0 <= i < |ps| :: ps[i].counter == Rolled(counter, i) && ps[i].acquisition == acquisition)
    && (forall i | 0 <= i < |ps| :: ps[i].finished <==> i == |ps| - 1)
  }

  lemma NumberedOn(p: Packet, rest: seq<Packet>, counter: byte, acquisition: u16)
    requires p.counter == counter && p.acquisition == acquisition && !p.finished && rest != []
    requires WellNumbered(rest, Rolled(counter, 1), acquisition)
    ensures WellNumbered([p] + rest, counter, acquisition)
  {
    var ps := [p] + rest;
    forall i | 0 <= i < |ps|
      ensures ps[i].counter == Rolled(counter, i)
    {
      if i > 0 {
        RolledOn(counter, i - 1);
        assert ps[i] == rest[i - 1];
      }
    }
  }

  /** A transfer with `rest` to go: how many responses it still takes and what they hold. */
  lemma {:induction false} PacketsDeliver(rest: seq<byte>, room: nat, counter: byte, acquisition: u16, crc: Crc)
    requires room >= 32
    ensures
      var ps := Packets(rest, room, counter, acquisition, crc);
      && |ps| == EntriesFor(|rest| + 4, room - 4) > 0
      && Reassemble(ps) == rest && WellNumbered(ps, counter, acquisition)
      && ps[|ps| - 1].crc == Crc32(rest, crc)
    decreases |rest|, if rest == [] then 0 else 1
  {
    hide Crc32, EntriesFor, WellNumbered, NextPacket, Rolled, Encode, Reassemble;
    var p := NextPacket(rest, false, room, counter, acquisition, crc);
    NextPacketIs(rest, room, counter, acquisition, crc);
    if p.finished {
      OnePacketLeft(p, |rest|, room - 4);
    } else {
      var next := rest[|p.data|..];
      PacketsDeliver(next, room, Rolled(counter, 1), acquisition, p.crc);
      var others := Packets(next, room, Rolled(counter, 1), acquisition, p.crc);
      PacketBefore(p, others);
      assert rest == p.data + next;
      Crc32Concat(p.data, next, crc);
      CountOneMore(|rest|, room - 4);
      NumberedOn(p, others, counter, acquisition);
    }
  }

  lemma PacketBefore(p: Packet, rest: seq<Packet>)
    requires rest != []
    ensures Reassemble([p] + rest) == p.data + Reassemble(rest)
    ensures ([p] + rest)[|rest|] == rest[|rest| - 1]
  {
    assert ([p] + rest)[1..] == rest;
  }

  lemma NextPacketIs(rest: seq<byte>, room: nat, counter: byte, acquisition: u16, crc: Crc)
    requires room >= 32
    ensures
      var p := NextPacket(rest, false, room, counter, acquisition, crc);
      && p.data == rest[..|p.data|] && |p.data| == Min(room - 4, |rest|)
      && (p.finished <==> |rest| + 4 <= room - 4) && (p.finished ==> p.data == rest)
      && p.crc == Crc32(p.data, crc) && p.counter == counter && p.acquisition == acquisition
  {
    hide Encode, Crc32;
  }

  lemma OnePacketLeft(p: Packet, left: nat, q: nat)
    requires p.finished && left + 4 <= q
    ensures EntriesFor(left + 4, q) == 1 && WellNumbered([p], p.counter, p.acquisition) && Reassemble([p]) == p.data
  {
    assert [p][1..] == [];
  }

  lemma CountOneMore(left: nat, q: nat)
    requires q >= 28 && left + 4 > q
    ensures EntriesFor(left + 4, q) == 1 + EntriesFor((if left <= q then 0 else left - q) + 4, q)
  {
    assert EntriesFor(4, q) == 1;
  }

  /** The whole download of a log: the fewest responses that hold it and its CRC, rolling
      counters from 0 modulo 256, the log itself, and in the last response its CRC. */
  lemma DownloadIsLog(log: seq<byte>, room: nat, acquisition: u16)
    requires room >= 32
    ensures
      var ps := Packets(log, room, 0, acquisition, ZERO);
      && (|ps| - 1) * (room - 4) < |log| + 4 <= |ps| * (room - 4)
      && Reassemble(ps) == log
      && (forall i | 0 <= i < |ps| :: ps[i].counter == i % 256)
      && (forall i | 0 <= i < |ps| :: ps[i].finished <==> i == |ps| - 1)
      && |ps| > 0 && ps[|ps| - 1].crc == Crc32(log, ZERO)
  {
    hide Crc32, EntriesFor, Packets, Reassemble, Offset;
    PacketsDeliver(log, room, 0, acquisition, ZERO);
    var n := EntriesFor(|log| + 4, room - 4);
    EntriesForCovers(|log| + 4, room - 4, n);
    EntriesForCovers(|log| + 4, room - 4, n - 1);
    OffsetIsProduct(n, room - 4);
    OffsetIsProduct(n - 1, room - 4);
  }

  /** So the download of a ring with at least one entry yields its most recent entries, oldest
      first, and the CRC of all their bytes. */
  lemma DownloadIsRecentEntries(ring: Ring, bytes: seq<byte>, log: seq<seq<byte>>, room: nat, acquisition: u16)
    requires room >= 32 && ring.Ok(bytes) && ring.Keeps(Slots(bytes, ring.capacity, ring.size), log) && log != []
    ensures
      var ps := Packets(ring.Stream(bytes), room, 0, acquisition, ZERO);
      var recent := Flatten(Last(log, ring.capacity));
      && Reassemble(ps) == recent && |recent| == ring.Count() * ring.size
      && (|ps| - 1) * (room - 4) < |recent| + 4 <= |ps| * (room - 4)
      && |ps| > 0 && ps[|ps| - 1].finished && ps[|ps| - 1].crc == Crc32(recent, ZERO)
  {
    hide Ring.Ok, Ring.Keeps, Ring.Stream, Flatten, Last, Crc32, Packets, Reassemble, Slots, Offset;
    ring.StreamIsLog(bytes, log);
    OffsetIsProduct(ring.Count(), ring.size);
    DownloadIsLog(ring.Stream(bytes), room, acquisition);
  }

  /** A client that knows the CRC of what it has so far gets back what was sent. */
  lemma ResponseDecodes(p: Packet, crc: Crc)
    requires p.crc == Crc32(p.data, crc)
    ensures Decode(Encode(p), crc) == Some(p)
  {
    hide Crc32, CrcBytes, GlueAll;
    var bytes := Encode(p);
    var end := 4 + |p.data|;
    Spans();
    DecodeEncode(p.acquisition, 2);
    assert bytes[2..4] == EncodeBe(p.acquisition, 2) && bytes[4..end] == p.data;
    if p.finished {
      assert bytes[end..] == CrcBytes(p.crc);
      GlueCrcBytes(p.crc);
    }
  }

  // ----- The bytes of a whole transfer -----

  function EncodeAll(packets: seq<Packet>): (responses: seq<seq<byte>>)
    ensures |responses| == |packets|
  {
    seq(|packets|, i requires 0 <= i < |packets| => Encode(packets[i]))
  }

  /** The data in a response: behind four bytes of header, and before the CRC in a finished one. */
  function DataIn(response: seq<byte>): seq<byte> {
    if |response| < 4 || (response[0] != 0 && |response| < 8) then []
    else if response[0] != 0 then response[4..|response| - 4]
    else response[4..]
  }

  function AllData(responses: seq<seq<byte>>): seq<byte> {
    if responses == [] then [] else DataIn(responses[0]) + AllData(responses[1..])
  }

  /** What a client gets for a log of these bytes: the fewest responses that hold them and a CRC,
      numbered from 0 modulo 256, the acquisition number in each, the data together the log, and
      the CRC of the log at the end of the last one, which alone is marked. */
  ghost predicate Delivers(responses: seq<seq<byte>>, log: seq<byte>, room: nat, acquisition: u16) {
    && |responses| > 0 && (|responses| - 1) * (room - 4) < |log| + 4 <= |responses| * (room - 4)
    && (forall i | 0 <= i < |responses| ::
          && 4 <= |responses[i]| <= room
          && responses[i][0] == (if i == |responses| - 1 then 1 else 0)
          && responses[i][1] == i % 256 && DecodeBe(responses[i][2..4]) == acquisition)
    && AllData(responses) == log
    && var last := responses[|responses| - 1];
       |last| >= 8 && last[|last| - 4..] == CrcBytes(Crc32(log, ZERO))
  }

  lemma EncodedBytes(p: Packet)
    ensures
      var r := Encode(p);
      && |r| >= 4 && r[0] == (if p.finished then 1 else 0) && r[1] == p.counter && DecodeBe(r[2..4]) == p.acquisition
      && DataIn(r) == p.data && (p.finished ==> |r| >= 8 && r[|r| - 4..] == CrcBytes(p.crc))
  {
    hide CrcBytes;
    var r := Encode(p);
    Spans();
    DecodeEncode(p.acquisition, 2);
    assert r[2..4] == EncodeBe(p.acquisition, 2);
    assert r[4..4 + |p.data|] == p.data;
  }

  lemma {:induction false} EncodedData(packets: seq<Packet>)
    ensures AllData(EncodeAll(packets)) == Reassemble(packets)
  {
    hide Encode, DataIn;
    if packets != [] {
      EncodedBytes(packets[0]);
      EncodedData(packets[1..]);
      assert EncodeAll(packets)[1..] == EncodeAll(packets[1..]);
    }
  }

  lemma {:induction false} PacketsFit(rest: seq<byte>, room: nat, counter: byte, acquisition: u16, crc: Crc)
    requires room >= 32
    ensures forall p | p in Packets(rest, room, counter, acquisition, crc) :: |Encode(p)| <= room
    decreases |rest|, if rest == [] then 0 else 1
  {
    hide Encode, Crc32;
    var p := NextPacket(rest, false, room, counter, acquisition, crc);
    if !p.finished {
      PacketsFit(rest[|p.data|..], room, Rolled(counter, 1), acquisition, p.crc);
    }
  }

  lemma PacketsAreDelivered(log: seq<byte>, room: nat, acquisition: u16)
    requires room >= 32
    ensures Delivers(EncodeAll(Packets(log, room, 0, acquisition, ZERO)), log, room, acquisition)
  {
    hide Crc32, CrcBytes, Packets, Encode, Reassemble, AllData, DataIn, EntriesFor, WellNumbered;
    var ps := Packets(log, room, 0, acquisition, ZERO);
    DownloadIsLog(log, room, acquisition);
    PacketsAreNumbered(log, room, acquisition);
    PacketsFit(log, room, 0, acquisition, ZERO);
    EncodedData(ps);
    forall i | 0 <= i < |ps|
      ensures
        var r := Encode(ps[i]);
        && 4 <= |r| <= room && r[0] == (if i == |ps| - 1 then 1 else 0) && r[1] == i % 256 && DecodeBe(r[2..4]) == acquisition
    {
      EncodedBytes(ps[i]);
      assert ps[i] in ps;
    }
    EncodedBytes(ps[|ps| - 1]);
  }

  lemma PacketsAreNumbered(log: seq<byte>, room: nat, acquisition: u16)
    requires room >= 32
    ensures
      var ps := Packets(log, room, 0, acquisition, ZERO);
      forall i | 0 <= i < |ps| :: ps[i].acquisition == acquisition
  {
    hide Crc32, Packets, EntriesFor, Reassemble;
    PacketsDeliver(log, room, 0, acquisition, ZERO);
  }

  lemma FirstEncoded(p: Packet, rest: seq<Packet>)
    ensures EncodeAll([p] + rest) == [Encode(p)] + EncodeAll(rest)
  {
    hide Encode;
  }

  method WriteCrc(response: array<byte>, at: nat, crc: Crc)
    requires at + 4 <= response.Length
    modifies response
    ensures response[..at] == old(response[..at]) && response[at..at + 4] == CrcBytes(crc)
  {
    hide CrcBytes;
    var bytes := CrcBytes(crc);
    response[at], response[at + 1], response[at + 2], response[at + 3] := bytes[0], bytes[1], bytes[2], bytes[3];
  }

  method WriteHeader(response: array<byte>, counter: byte, acquisition: u16)
    requires 4 <= response.Length
    modifies response
    ensures response[1..4] == [counter] + EncodeBe(acquisition, 2)
  {
    TwoBytes(acquisition);
    response[1], response[2], response[3] := counter, acquisition / 256, acquisition % 256;
  }

  /** What the reader delivers next, at most `size` bytes, and whether it is finished then. */
  ghost function Upcoming(reader: RawFormatReader, size: nat): (seq<byte>, bool)
    requires reader.Valid()
    reads reader, reader.encoder, reader.encoder.buffer
  {
    if reader.encoder.error then ([], reader.finishedFlag)
    else (Piece(reader.Rest(), 0, size), reader.finishedFlag || |reader.Rest()| <= size)
  }

  /** Fills `response` with the next packet; its first byte is set at the end. */
  method EncodeReadAcquisition(reader: RawFormatReader, response: array<byte>, counter: byte, acquisition: u16, crc: Crc)
    returns (length: nat, finished: bool, newCrc: Crc)
    requires reader.Valid() && response != reader.encoder.buffer && response.Length >= 32
    modifies reader, response
    ensures reader.Valid() && length <= response.Length
    ensures
      var (data, done) := old(Upcoming(reader, response.Length - 4));
      var p := Packet(finished, counter, acquisition, data, newCrc);
      && response[..length] == Encode(p) && newCrc == Crc32(data, crc)
      && (finished <==> done && 4 + |data| <= response.Length - 4)
      && (!reader.encoder.error ==>
          && p == NextPacket(old(reader.Rest()), old(reader.finishedFlag), response.Length, counter, acquisition, crc)
          && reader.Rest() == old(reader.Rest())[|data|..]
          && (reader.finishedFlag <==> old(reader.finishedFlag) || reader.Rest() == []))
  {
    hide RawFormatReader.Valid, RawFormatReader.Rest, Encode, Crc32, CrcBytes;
    ghost var (data, done) := Upcoming(reader, response.Length - 4);
    WriteHeader(response, counter, acquisition);
    ghost var header := response[..4][1..];
    assert header == response[1..4];
    var count, _ := reader.Read(response, 4, response.Length - 4);
    assert response[1..4] == response[..4][1..];
    assert response[4..4 + count] == data;
    length, finished, newCrc := CompleteResponse(response, count, reader.finishedFlag, crc);
    EncodeIs(Packet(finished, counter, acquisition, data, newCrc), header, if finished then CrcBytes(newCrc) else []);
  }

  /** Given header and data: the CRC so far, at the end if this is the last piece and it fits. */
  method CompleteResponse(response: array<byte>, count: nat, readerFinished: bool, crc: Crc)
    returns (length: nat, finished: bool, newCrc: Crc)
    requires 4 + count <= response.Length
    modifies response
    ensures length <= response.Length && finished == (readerFinished && 4 + count <= response.Length - 4)
    ensures newCrc == Crc32(old(response[4..4 + count]), crc)
    ensures response[..length] ==
      [if finished then 1 else 0] + old(response[1..4]) + old(response[4..4 + count])
      + (if finished then CrcBytes(newCrc) else [])
  {
    hide Crc32, CrcBytes;
    length := count + 4;
    newCrc := ComputeCrc32(response[4..length], crc);
    finished := false;
    ghost var before := response[..length];
    assert before[1..4] == response[1..4] && before[4..] == response[4..length];
    if readerFinished && length <= response.Length - 4 {
      WriteCrc(response, length, newCrc);
      length := length + 4;
      finished := true;
    }
    response[0] := if finished then 1 else 0;
    assert response[..4 + count] == [response[0]] + before[1..4] + before[4..];
  }

  lemma EncodeIs(p: Packet, header: seq<byte>, tail: seq<byte>)
    requires header == [p.counter] + EncodeBe(p.acquisition, 2) && tail == if p.finished then CrcBytes(p.crc) else []
    ensures Encode(p) == [if p.finished then 1 else 0] + header + p.data + tail
  {
    hide CrcBytes;
  }
}
