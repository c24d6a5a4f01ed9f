// Reading target memory: the two-pass parser of block lists, the protected regions, and the
// encoder that echoes each block with its bytes.
module MemoryRead {
  import opened Words
  import opened Wrappers
  import opened Protocol

  datatype Block = Block(start: u64, length: u16)

  /** An address range, both ends included. */
  datatype Range = Range(start: u64, end: u64)

  const ADDRESS_SIZE := 8
  const HEADER := ADDRESS_SIZE + 2
  const MAXIMUM_BUFFER := 65519
  const ADDRESSES := 0x1_0000_0000_0000_0000

  // ----- Regions -----

  /** The check as computed, with the end of the block in address arithmetic. */
  predicate Touches(start: u64, length: nat, r: Range) {
    start <= r.end && (start + length - 1) % ADDRESSES >= r.start
  }

  predicate TouchesAny(start: u64, length: nat, ranges: seq<Range>) {
    exists i | 0 <= i < |ranges| :: Touches(start, length, ranges[i])
  }

  predicate Inside(address: nat, r: Range) { r.start <= address <= r.end }

  /** A block that has bytes and does not wrap touches a range exactly when one of its bytes
      lies in it. */
  lemma TouchesIsOverlap(start: u64, length: nat, r: Range)
    requires 1 <= length && start + length <= ADDRESSES && r.start <= r.end
    ensures Touches(start, length, r) <==> exists a :: start <= a < start + length && Inside(a, r)
  {
    var last := start + length - 1;
    Unwrapped(last);
    if Touches(start, length, r) {
      var a := if start < r.start then r.start else start;
      assert start <= a < start + length && Inside(a, r);
    }
  }

  predicate Overlaps(start: u64, length: nat, r: Range) { exists i | 0 <= i < length :: Inside(AddressOf(start, i), r) }

  lemma AddressIs(start: u64, i: nat)
    ensures start + i < ADDRESSES ==> AddressOf(start, i) == start + i
    ensures ADDRESSES <= start + i < 2 * ADDRESSES ==> AddressOf(start, i) == start + i - ADDRESSES
  {}

  lemma PlainOverlap(start: u64, length: nat, r: Range)
    requires 1 <= length && start + length <= ADDRESSES && r.start <= r.end
    ensures Overlaps(start, length, r) <==> start <= r.end && start + length - 1 >= r.start
  {
    forall i: nat | i < length
      ensures AddressOf(start, i) == start + i
    {
      AddressIs(start, i);
    }
    if start <= r.end && start + length - 1 >= r.start {
      var a := if start < r.start then r.start else start;
      assert Inside(AddressOf(start, a - start), r);
    }
  }

  lemma WrappedOverlap(start: u64, length: nat, r: Range)
    requires 1 <= length <= ADDRESSES < start + length && r.start <= r.end
    ensures Overlaps(start, length, r) <==> start <= r.end || start + length - 1 - ADDRESSES >= r.start
  {
    forall i: nat | i < length
      ensures AddressOf(start, i) == if start + i < ADDRESSES then start + i else start + i - ADDRESSES
    {
      AddressIs(start, i);
    }
    if start <= r.end {
      var a := if start < r.start then r.start else start;
      assert Inside(AddressOf(start, a - start), r);
    } else if start + length - 1 - ADDRESSES >= r.start {
      assert Inside(AddressOf(start, ADDRESSES - start + r.start), r);
    }
  }

  /** For any nonempty block, one that wraps included, the check tells byte overlap exactly when
      the block does not wrap, or its parts before and after the wrap agree about the range. */
  lemma TouchesIsOverlapIff(start: u64, length: nat, r: Range)
    requires 1 <= length <= ADDRESSES && r.start <= r.end
    ensures
      (Touches(start, length, r) <==> Overlaps(start, length, r))
      <==> start + length <= ADDRESSES || (start <= r.end <==> AddressOf(start, length - 1) >= r.start)
  {
    hide Overlaps, Inside;
    AddressIs(start, length - 1);
    assert Touches(start, length, r) <==> start <= r.end && AddressOf(start, length - 1) >= r.start;
    if start + length <= ADDRESSES {
      PlainOverlap(start, length, r);
    } else {
      WrappedOverlap(start, length, r);
    }
  }

  lemma Unwrapped(a: nat)
    ensures a < ADDRESSES ==> a % ADDRESSES == a
  {}

  /** An empty block, which has no bytes, touches a range that it starts in, unless it starts
      with it; at address 0 its end wraps and it touches every range. */
  lemma EmptyBlockTouches(start: u64, r: Range)
    ensures Touches(start, 0, r) <==> if start == 0 then true else r.start < start <= r.end
  {
    if start > 0 {
      Unwrapped(start - 1);
    } else {
      assert (-1) % ADDRESSES == ADDRESSES - 1;
    }
  }

  method TouchesRegion(start: u64, length: nat, ranges: seq<Range>) returns (touches: bool)
    ensures touches <==> TouchesAny(start, length, ranges)
  {
    if |ranges| == 0 {
      return false;
    }
    var end := (start + length - 1) % ADDRESSES;
    for i := 0 to |ranges|
      invariant forall j | 0 <= j < i :: !Touches(start, length, ranges[j])
    {
      if start <= ranges[i].end && end >= ranges[i].start {
        assert Touches(start, length, ranges[i]);
        return true;
      }
    }
    touches := false;
  }

  // ----- Block lists -----

  function Size(b: Block): nat { HEADER + b.length }

  function First(data: seq<byte>): Block
    requires |data| >= HEADER
  {
    Block(Word64(data[..8]), Word16(data[8..10]))
  }

  /** The blocks of a request made of whole blocks. */
  function Blocks(data: seq<byte>): seq<Block>
    requires |data| % HEADER == 0
  {
    if data == [] then [] else [First(data)] + Blocks(data[HEADER..])
  }

  function Total(blocks: seq<Block>): nat {
    if blocks == [] then 0 else Size(blocks[0]) + Total(blocks[1..])
  }

  /** One parsing pass with a running total: the total before the last block, or None if
      the request is invalid. */
  function Scan(data: seq<byte>, total: nat): Option<nat> {
    if |data| < HEADER || total > MAXIMUM_BUFFER || Size(First(data)) > MAXIMUM_BUFFER - total then None
    else if |data| == HEADER then Some(total)
    else Scan(data[HEADER..], total + Size(First(data)))
  }

  predicate WholeBlocks(data: seq<byte>) { data != [] && |data| % HEADER == 0 }

  /** The validating pass accepts exactly the nonempty lists of whole blocks whose echo fits
      the largest buffer; the total it leaves misses the last block. */
  lemma {:induction false} ScanAccepts(data: seq<byte>, total: nat)
    ensures Scan(data, total).Some? <==> WholeBlocks(data) && total + Total(Blocks(data)) <= MAXIMUM_BUFFER
    ensures Scan(data, total).Some? ==>
      var blocks := Blocks(data);
      blocks != [] && Scan(data, total).value == total + Total(blocks) - Size(blocks[|blocks| - 1])
  {
    if |data| >= HEADER {
      WholeBlocksRest(data);
      if |data| > HEADER {
        ScanAccepts(data[HEADER..], total + Size(First(data)));
      }
      if |data| % HEADER == 0 {
        assert Blocks(data)[1..] == Blocks(data[HEADER..]);
      }
    }
  }

  lemma WholeBlocksRest(data: seq<byte>)
    requires |data| >= HEADER
    ensures |data| % HEADER == |data[HEADER..]| % HEADER
  {}

  /** The parser of a read request. */
  class ReadParser {
    const data: seq<byte>
    var bytesRead: u16
    var required: u16
    var invalid: bool
    var finished: bool

    ghost predicate Valid()
      reads this
    {
      |data| < 0x1_0000 && bytesRead <= |data| && required <= MAXIMUM_BUFFER && (finished ==> invalid || bytesRead == |data|)
    }

    constructor (data: seq<byte>)
      requires |data| < 0x1_0000
      ensures Valid() && this.data == data && bytesRead == 0 && !finished
      ensures invalid <==> Scan(data, 0).None?
      ensures !invalid ==> required == Scan(data, 0).value
    {
      this.data := data;
      bytesRead, required, invalid, finished := 0, 0, false, false;
      new;
      Validate();
    }

    /** The validating pass, then back to the start. */
    method Validate()
      requires Valid() && bytesRead == 0 && required == 0 && !invalid && !finished
      modifies this
      ensures Valid() && bytesRead == 0 && !finished
      ensures invalid <==> Scan(data, 0).None?
      ensures !invalid ==> required == Scan(data, 0).value
    {
      hide First;
      assert data[0..] == data;
      var block := Next();
      while !invalid && !finished
        invariant Valid()
        invariant invalid ==> Scan(data, 0).None?
        invariant !invalid && finished ==> Scan(data, 0) == Some(required)
        invariant !invalid && !finished ==>
          required + Size(block) <= MAXIMUM_BUFFER && Scan(data[bytesRead..], required + Size(block)) == Scan(data, 0)
        decreases |data| - bytesRead, !finished && !invalid
      {
        required := required + HEADER + block.length;
        block := Next();
      }
      bytesRead, finished := 0, false;
    }

    method Next() returns (block: Block)
      requires Valid() && !finished && !invalid
      modifies this
      ensures Valid() && required == old(required) && bytesRead >= old(bytesRead)
      ensures
        var rest := data[old(bytesRead)..];
        if |rest| < HEADER || Size(First(rest)) > MAXIMUM_BUFFER - required then invalid && finished
        else !invalid && block == First(rest) && bytesRead == old(bytesRead) + HEADER
             && data[bytesRead..] == rest[HEADER..] && (finished <==> bytesRead == |data|)
    {
      block := Block(0, 0);
      ghost var rest := data[bytesRead..];
      if HEADER > |data| - bytesRead {
        finished, invalid := true, true;
        return;
      }
      var read := First(data[bytesRead..]);
      bytesRead := bytesRead + ADDRESS_SIZE;
      if ADDRESS_SIZE + 2 + read.length > MAXIMUM_BUFFER - required {
        invalid, finished := true, true;
        return;
      }
      bytesRead := bytesRead + 2;
      block := read;
      if bytesRead == |data| {
        finished := true;
      }
    }
  }

  // ----- The answer -----

  type Memory = map<nat, byte>

  function Peek(m: Memory, address: nat): byte { if address in m then m[address] else 0 }

  /** Address of byte `i` of a block, in address arithmetic. */
  function AddressOf(start: u64, i: nat): nat { (start + i) % ADDRESSES }

  function BytesAt(m: Memory, start: u64, length: nat): (bytes: seq<byte>)
    ensures |bytes| == length
  {
    seq(length, i requires 0 <= i < length => Peek(m, AddressOf(start, i)))
  }

  /** A block with the bytes it names. */
  function Echo(m: Memory, b: Block): (bytes: seq<byte>)
    ensures |bytes| == Size(b)
  {
    EncodeBe(b.start, 8) + EncodeBe(b.length, 2) + BytesAt(m, b.start, b.length)
  }

  function EchoAll(m: Memory, blocks: seq<Block>): (bytes: seq<byte>)
    ensures |bytes| == Total(blocks)
  {
    if blocks == [] then [] else Echo(m, blocks[0]) + EchoAll(m, blocks[1..])
  }

  /** The echo of a block: its address and its length, most significant byte first, and then the
      bytes in memory from its address on. */
  lemma EchoIs(m: Memory, b: Block, i: nat)
    ensures
      var e, a := Echo(m, b), (b.start + i) % 0x1_0000_0000_0000_0000;
      && |e| == 10 + b.length && DecodeBe(e[..8]) == b.start && DecodeBe(e[8..10]) == b.length
      && (i < b.length ==> e[10 + i] == if a in m then m[a] else 0)
  {
    hide EncodeBe, DecodeBe;
    var e := Echo(m, b);
    Spans();
    DecodeEncode(b.start, 8);
    DecodeEncode(b.length, 2);
    assert e[..8] == EncodeBe(b.start, 8) && e[8..10] == EncodeBe(b.length, 2) && e[10..] == BytesAt(m, b.start, b.length);
    if i < b.length {
      assert e[10 + i] == e[10..][i];
    }
  }

  lemma EchoFirst(m: Memory, blocks: seq<Block>)
    requires blocks != []
    ensures EchoAll(m, blocks) == Echo(m, blocks[0]) + EchoAll(m, blocks[1..])
    ensures Total(blocks) == Size(blocks[0]) + Total(blocks[1..])
  {}

  lemma TotalOfPrefix(blocks: seq<Block>, j: nat)
    requires 0 < j <= |blocks|
    ensures Total(blocks[..j]) == Size(blocks[0]) + Total(blocks[1..][..j - 1])
  {
    assert blocks[..j][1..] == blocks[1..][..j - 1];
  }

  lemma BehindFirst(first: seq<byte>, rest: seq<byte>, at: nat, end: nat)
    requires at <= end <= |rest|
    ensures (first + rest)[|first| + at..|first| + end] == rest[at..end]
  {}

  /** The part of block `j` in the answer starts behind the parts of the blocks before it. */
  lemma {:induction false} EchoAllAt(m: Memory, blocks: seq<Block>, j: nat)
    requires j < |blocks|
    ensures
      var at := Total(blocks[..j]);
      at + Size(blocks[j]) <= |EchoAll(m, blocks)| && EchoAll(m, blocks)[at..at + Size(blocks[j])] == Echo(m, blocks[j])
  {
    hide Echo, Size, EchoAll, Total;
    EchoFirst(m, blocks);
    var rest := EchoAll(m, blocks[1..]);
    if j > 0 {
      EchoAllAt(m, blocks[1..], j - 1);
      TotalOfPrefix(blocks, j);
      var at := Total(blocks[1..][..j - 1]);
      BehindFirst(Echo(m, blocks[0]), rest, at, at + Size(blocks[j]));
    } else {
      NothingBefore(blocks);
    }
  }

  lemma NothingBefore(blocks: seq<Block>)
    ensures Total(blocks[..0]) == 0
  {}

  /** What is wrong with the first block, given the total that the validating pass left, the
      room in the response, and what is already in it. */
  function Trouble(b: Block, required: nat, limit: nat, cursor: nat, forbidden: seq<Range>): Code {
    if Size(b) + required > MAXIMUM_BUFFER then InvalidRequest
    else if TouchesAny(b.start, b.length, forbidden) then Forbidden
    else if Size(b) + cursor > limit then Overflow
    else Ok
  }

  /** The serving pass. */
  function Reply(m: Memory, blocks: seq<Block>, required: nat, limit: nat, cursor: nat, forbidden: seq<Range>): (Code, seq<byte>) {
    if blocks == [] then (Ok, [])
    else
      var trouble := Trouble(blocks[0], required, limit, cursor, forbidden);
      if trouble != Ok then (trouble, [])
      else
        var (code, rest) := Reply(m, blocks[1..], required, limit, cursor + Size(blocks[0]), forbidden);
        (code, Echo(m, blocks[0]) + rest)
  }

  /** The answer to a whole request. */
  function Answer(m: Memory, data: seq<byte>, limit: nat, forbidden: seq<Range>): (Code, seq<byte>) {
    if Scan(data, 0).None? then (InvalidRequest, [])
    else if Scan(data, 0).value > limit then (Overflow, [])
    else
      ScanAccepts(data, 0);
      Reply(m, Blocks(data), Scan(data, 0).value, limit, 0, forbidden)
  }

  predicate Allowed(blocks: seq<Block>, forbidden: seq<Range>) {
    forall i | 0 <= i < |blocks| :: !TouchesAny(blocks[i].start, blocks[i].length, forbidden)
  }

  /** Every block fits beside the total that misses the last one. */
  predicate FitsBeside(blocks: seq<Block>, required: nat) {
    forall i | 0 <= i < |blocks| :: Size(blocks[i]) + required <= MAXIMUM_BUFFER
  }

  lemma {:induction false} ReplyIsEcho(m: Memory, blocks: seq<Block>, required: nat, limit: nat, cursor: nat, forbidden: seq<Range>)
    ensures
      var (code, bytes) := Reply(m, blocks, required, limit, cursor, forbidden);
      && (code == Ok <==> FitsBeside(blocks, required) && Allowed(blocks, forbidden)
                          && (blocks == [] || cursor + Total(blocks) <= limit))
      && (code == Ok ==> bytes == EchoAll(m, blocks))
  {
    hide TouchesAny, Echo;
    if blocks != [] {
      ReplyIsEcho(m, blocks[1..], required, limit, cursor + Size(blocks[0]), forbidden);
      ReplyConditions(blocks, required, forbidden);
    }
  }

  lemma ReplyConditions(blocks: seq<Block>, required: nat, forbidden: seq<Range>)
    requires blocks != []
    ensures FitsBeside(blocks, required) <==> Size(blocks[0]) + required <= MAXIMUM_BUFFER && FitsBeside(blocks[1..], required)
    ensures Allowed(blocks, forbidden) <==>
            !TouchesAny(blocks[0].start, blocks[0].length, forbidden) && Allowed(blocks[1..], forbidden)
  {
    hide TouchesAny;
    var rest := blocks[1..];
    assert forall i | 0 < i < |blocks| :: blocks[i] == rest[i - 1];
  }

  lemma {:induction false} TotalSplits(blocks: seq<Block>, i: nat)
    requires i < |blocks|
    ensures Size(blocks[i]) <= Total(blocks)
    ensures i < |blocks| - 1 ==> Size(blocks[i]) <= Total(blocks) - Size(blocks[|blocks| - 1])
  {
    if i > 0 {
      TotalSplits(blocks[1..], i - 1);
    } else if |blocks| > 1 {
      TotalSplits(blocks[1..], |blocks| - 2);
    }
  }

  /** The answer is OK exactly when the request is a nonempty list of whole blocks, the echo
      fits the response, no block is forbidden, and every block fits the largest buffer
      beside the total of all blocks but the last; the payload is the echo then. */
  lemma AnswerIsExact(m: Memory, data: seq<byte>, limit: nat, forbidden: seq<Range>)
    requires limit <= MAXIMUM_BUFFER
    ensures
      var (code, bytes) := Answer(m, data, limit, forbidden);
      && (code == Ok <==>
          && WholeBlocks(data)
          && var blocks := Blocks(data);
             Total(blocks) <= limit && Allowed(blocks, forbidden)
             && FitsBeside(blocks, Total(blocks[..|blocks| - 1])))
      && (code == Ok ==> bytes == EchoAll(m, Blocks(data)))
  {
    hide TouchesAny, EchoAll, Scan, Allowed, FitsBeside, Reply;
    ScanAccepts(data, 0);
    if WholeBlocks(data) {
      var blocks := Blocks(data);
      if blocks != [] {
        TotalOfFront(blocks);
        if Total(blocks) <= MAXIMUM_BUFFER {
          ReplyIsEcho(m, blocks, Scan(data, 0).value, limit, 0, forbidden);
        }
      }
    }
  }

  /** The verdict on a request whose blocks are whole: in turn, before the first block with a
      problem every block fits, is allowed and has room; that block decides. */
  lemma {:induction false} FirstTroubleDecides(m: Memory, blocks: seq<Block>, required: nat, limit: nat, cursor: nat,
                                               forbidden: seq<Range>) returns (n: nat)
    ensures n <= |blocks| && FitsBeside(blocks[..n], required) && Allowed(blocks[..n], forbidden)
    ensures n > 0 ==> cursor + Total(blocks[..n]) <= limit
    ensures
      var code := Reply(m, blocks, required, limit, cursor, forbidden).0;
      if n == |blocks| then code == Ok
      else
        var b := blocks[n];
        if 10 + b.length + required > MAXIMUM_BUFFER then code == InvalidRequest
        else if TouchesAny(b.start, b.length, forbidden) then code == Forbidden
        else cursor + Total(blocks[..n]) + 10 + b.length > limit && code == Overflow
    decreases |blocks|
  {
    hide TouchesAny, Echo;
    n := 0;
    NothingBefore(blocks);
    if blocks != [] && Trouble(blocks[0], required, limit, cursor, forbidden) == Ok {
      n := FirstTroubleDecides(m, blocks[1..], required, limit, cursor + Size(blocks[0]), forbidden);
      n := n + 1;
      TotalOfPrefix(blocks, n);
      assert blocks[..n][1..] == blocks[1..][..n - 1];
      ReplyConditions(blocks[..n], required, forbidden);
    }
  }

  /** What a refusal says: InvalidRequest for anything but a nonempty list of whole blocks within
      the largest buffer; then Overflow if the blocks but for the last do not fit the response;
      then what is wrong with the first block that has a problem. */
  lemma RefusalIsExact(m: Memory, data: seq<byte>, limit: nat, forbidden: seq<Range>) returns (n: nat)
    ensures
      var code := Answer(m, data, limit, forbidden).0;
      if !WholeBlocks(data) || Total(Blocks(data)) > MAXIMUM_BUFFER then code == InvalidRequest
      else
        var blocks := Blocks(data);
        && n <= |blocks| && blocks != []
        && var required := Total(blocks[..|blocks| - 1]);
           if required > limit then code == Overflow
           else if n == |blocks| then code == Ok
           else
             && FitsBeside(blocks[..n], required) && Allowed(blocks[..n], forbidden)
             && var b := blocks[n];
                if 10 + b.length + required > MAXIMUM_BUFFER then code == InvalidRequest
                else if TouchesAny(b.start, b.length, forbidden) then code == Forbidden
                else Total(blocks[..n]) + 10 + b.length > limit && code == Overflow
  {
    hide TouchesAny, Scan, Allowed, FitsBeside, Reply, Blocks;
    n := 0;
    ScanAccepts(data, 0);
    if Scan(data, 0).Some? {
      var blocks := Blocks(data);
      TotalOfFront(blocks);
      n := FirstTroubleDecides(m, blocks, Scan(data, 0).value, limit, 0, forbidden);
    }
  }

  lemma {:induction false} TotalOfFront(blocks: seq<Block>)
    requires blocks != []
    ensures Total(blocks) == Total(blocks[..|blocks| - 1]) + Size(blocks[|blocks| - 1])
  {
    if |blocks| > 1 {
      TotalOfFront(blocks[1..]);
      assert blocks[..|blocks| - 1][1..] == blocks[1..][..|blocks| - 2];
    } else {
      assert blocks[1..] == [] && blocks[..0] == [];
    }
  }

  /** Up to responses of 32769 bytes the second check never bites: a request for whole blocks
      outside the forbidden ranges is answered exactly when its echo fits. */
  lemma SmallBuffersAnswerAll(m: Memory, data: seq<byte>, limit: nat, forbidden: seq<Range>)
    requires limit <= 32769
    ensures Answer(m, data, limit, forbidden).0 == Ok <==>
            WholeBlocks(data) && Total(Blocks(data)) <= limit && Allowed(Blocks(data), forbidden)
  {
    hide TouchesAny, EchoAll, Scan, Allowed, Reply, Answer;
    AnswerIsExact(m, data, limit, forbidden);
    if WholeBlocks(data) && Total(Blocks(data)) <= limit {
      var blocks := Blocks(data);
      TotalOfFront(blocks);
      forall i | 0 <= i < |blocks|
        ensures Size(blocks[i]) + Total(blocks[..|blocks| - 1]) <= MAXIMUM_BUFFER
      {
        TotalSplits(blocks, i);
      }
    }
  }

  /** How a client asks for blocks. */
  function RequestFor(blocks: seq<Block>): (data: seq<byte>)
    ensures |data| == HEADER * |blocks|
  {
    if blocks == [] then []
    else EncodeBe(blocks[0].start, 8) + EncodeBe(blocks[0].length, 2) + RequestFor(blocks[1..])
  }

  /** The server sees the blocks the client asked for. */
  lemma {:induction false} RequestParses(blocks: seq<Block>)
    ensures Blocks(RequestFor(blocks)) == blocks
  {
    if blocks != [] {
      var data, b := RequestFor(blocks), blocks[0];
      assert data[HEADER..] == RequestFor(blocks[1..]);
      assert data[..8] == EncodeBe(b.start, 8) && data[8..10] == EncodeBe(b.length, 2);
      Spans();
      DecodeEncode(b.start, 8);
      DecodeEncode(b.length, 2);
      RequestParses(blocks[1..]);
    }
  }

  /** One byte more, and a first block of 32760 bytes followed by an empty one fits the
      response, yet is refused by the second check. */
  lemma LargeBuffersRefuse(m: Memory, limit: nat)
    requires 32770 <= limit <= MAXIMUM_BUFFER
    ensures
      var blocks := [Block(0x1000, 32750), Block(0x1000, 0)];
      Total(blocks) <= limit && Answer(m, RequestFor(blocks), limit, []).0 == InvalidRequest
  {
    var blocks := [Block(0x1000, 32750), Block(0x1000, 0)];
    var data := RequestFor(blocks);
    RequestParses(blocks);
    ScanAccepts(data, 0);
    assert blocks[1..] == [blocks[1]];
    hide RequestFor, Scan, Echo;
  }

  // ----- The response encoder and the service -----

  class BlockEncoder {
    const buffer: array<byte>
    const limit: nat
    var cursor: nat
    var overflow: bool

    constructor (buffer: array<byte>, limit: nat)
      requires limit <= buffer.Length
      ensures this.buffer == buffer && this.limit == limit && cursor == 0 && !overflow
    {
      this.buffer, this.limit := buffer, limit;
      cursor, overflow := 0, false;
    }

    method Put(bytes: seq<byte>)
      requires cursor + |bytes| <= buffer.Length
      modifies `cursor, buffer
      ensures cursor == old(cursor) + |bytes| && buffer[..cursor] == old(buffer[..cursor]) + bytes
    {
      forall k | 0 <= k < |bytes| {
        buffer[cursor + k] := bytes[k];
      }
      cursor := cursor + |bytes|;
    }

    /** The receipt of a written block, if there is room. */
    method WriteReceipt(start: u64, length: u16)
      requires cursor <= limit <= buffer.Length
      modifies this, buffer
      ensures cursor <= limit && (overflow <==> old(overflow) || HEADER + old(cursor) > limit)
      ensures buffer[..cursor] ==
        old(buffer[..cursor]) + if HEADER + old(cursor) > limit then [] else EncodeBe(start, 8) + EncodeBe(length, 2)
    {
      if HEADER > limit - cursor {
        overflow := true;
        return;
      }
      Put(EncodeBe(start, 8));
      Put(EncodeBe(length, 2));
    }

    /** A block with its bytes. */
    method Write(b: Block, m: Memory)
      requires cursor <= limit <= MAXIMUM_BUFFER && limit <= buffer.Length && !overflow
      modifies this, buffer
      ensures cursor <= limit && (overflow <==> Size(b) + old(cursor) > limit)
      ensures buffer[..cursor] == old(buffer[..cursor]) + if overflow then [] else Echo(m, b)
    {
      hide BytesAt;
      if b.length > MAXIMUM_BUFFER - ADDRESS_SIZE - 2 {
        overflow := true;
        return;
      }
      if ADDRESS_SIZE + 2 + b.length > limit - cursor {
        overflow := true;
        return;
      }
      Put(EncodeBe(b.start, 8));
      Put(EncodeBe(b.length, 2));
      Put(BytesAt(m, b.start, b.length));
    }
  }

  /** Serves a read request; `response` has the size of the transmit buffer. */
  method ProcessRead(m: Memory, data: seq<byte>, forbidden: seq<Range>, response: array<byte>) returns (code: Code, length: nat)
    requires response.Length <= MAXIMUM_BUFFER && |data| < 0x1_0000
    modifies response
    ensures length <= response.Length && (code, response[..length]) == Answer(m, data, response.Length, forbidden)
  {
    code, length := Ok, 0;
    var parser := new ReadParser(data);
    var encoder := new BlockEncoder(response, response.Length);
    if parser.invalid {
      return InvalidRequest, 0;
    }
    if parser.required > response.Length {
      return Overflow, 0;
    }
    ScanAccepts(data, 0);
    code := ServeRead(m, parser, encoder, forbidden);
    length := encoder.cursor;
  }

  method ServeRead(m: Memory, parser: ReadParser, encoder: BlockEncoder, forbidden: seq<Range>) returns (code: Code)
    requires parser.Valid() && parser.bytesRead == 0 && !parser.finished && !parser.invalid && WholeBlocks(parser.data)
    requires encoder.cursor == 0 && !encoder.overflow && encoder.limit == encoder.buffer.Length <= MAXIMUM_BUFFER
    modifies parser, encoder, encoder.buffer
    ensures encoder.cursor <= encoder.buffer.Length
    ensures (code, encoder.buffer[..encoder.cursor]) ==
            Reply(m, Blocks(parser.data), old(parser.required), encoder.limit, 0, forbidden)
  {
    hide Echo, First, TouchesAny;
    code := Ok;
    ghost var required := parser.required;
    ghost var all := Reply(m, Blocks(parser.data), required, encoder.limit, 0, forbidden);
    assert parser.data[0..] == parser.data && encoder.buffer[..0] == [];
    EmptyBefore(all);
    while !parser.finished
      invariant parser.Valid() && !parser.invalid && parser.required == required && |parser.data[parser.bytesRead..]| % HEADER == 0
      invariant parser.finished <==> parser.bytesRead == |parser.data|
      invariant encoder.cursor <= encoder.limit && !encoder.overflow && code == Ok
      invariant all == Before(encoder.buffer[..encoder.cursor],
        Reply(m, Blocks(parser.data[parser.bytesRead..]), required, encoder.limit, encoder.cursor, forbidden))
      decreases |parser.data| - parser.bytesRead
    {
      ghost var rest, done, at := parser.data[parser.bytesRead..], encoder.buffer[..encoder.cursor], encoder.cursor;
      WholeBlocksRest(rest);
      var block := parser.Next();
      NextReply(m, rest, required, encoder.limit, at, forbidden, done);
      if parser.invalid {
        return InvalidRequest;
      }
      var forbids := TouchesRegion(block.start, block.length, forbidden);
      if forbids {
        return Forbidden;
      }
      encoder.Write(block, m);
      if encoder.overflow {
        assert done + [] == done;
        return Overflow;
      }
    }
    assert parser.data[parser.bytesRead..] == [];
    assert encoder.buffer[..encoder.cursor] + [] == encoder.buffer[..encoder.cursor];
  }

  /** A reply with bytes already written before it. */
  function Before(done: seq<byte>, reply: (Code, seq<byte>)): (Code, seq<byte>) { (reply.0, done + reply.1) }

  lemma EmptyBefore(reply: (Code, seq<byte>))
    ensures Before([], reply) == reply
  {
    assert [] + reply.1 == reply.1;
  }

  lemma NextReply(m: Memory, rest: seq<byte>, required: nat, limit: nat, cursor: nat, forbidden: seq<Range>, done: seq<byte>)
    requires |rest| >= HEADER && |rest| % HEADER == 0 && |rest[HEADER..]| % HEADER == 0
    ensures
      var b := First(rest);
      var trouble := Trouble(b, required, limit, cursor, forbidden);
      Before(done, Reply(m, Blocks(rest), required, limit, cursor, forbidden)) ==
        if trouble != Ok then (trouble, done)
        else Before(done + Echo(m, b), Reply(m, Blocks(rest[HEADER..]), required, limit, cursor + Size(b), forbidden))
  {
    hide First, Echo, Trouble;
    assert Blocks(rest)[1..] == Blocks(rest[HEADER..]);
    var tail := Reply(m, Blocks(rest[HEADER..]), required, limit, cursor + Size(First(rest)), forbidden).1;
    assert done + (Echo(m, First(rest)) + tail) == (done + Echo(m, First(rest))) + tail;
    assert done + [] == done;
  }
}
