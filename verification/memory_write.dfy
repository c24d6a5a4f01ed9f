// Writing target memory, with and without bit masks: the block parser, what an accepted
// request does to memory, and what no request can do.
module MemoryWrite {
  import opened Words
  import opened Wrappers
  import opened Protocol
  import opened MemoryRead

  /** One block to write; `mask` is as long as `source`, or absent. */
  datatype WriteBlock = WriteBlock(start: u64, source: seq<byte>, mask: Option<seq<byte>>)

  // ----- Bits -----

  /** The bits of `mask` come from `source`, the others stay. */
  function Merge(current: bv8, source: bv8, mask: bv8): bv8 { (current & !mask) | (source & mask) }

  /** As computed: first the ones, then the zeros. */
  function OnesThenZeros(current: bv8, source: bv8, mask: bv8): bv8 { (current | (source & mask)) & (source | !mask) }

  lemma OnesThenZerosMerges(current: bv8, source: bv8, mask: bv8)
    ensures OnesThenZeros(current, source, mask) == Merge(current, source, mask)
  {}

  function MaskedByte(current: byte, source: byte, mask: byte): byte {
    Merge(current as bv8, source as bv8, mask as bv8) as byte
  }

  // ----- Effect on memory -----

  function NewByte(m: Memory, b: WriteBlock, i: nat): byte
    requires i < |b.source| && (b.mask.Some? ==> |b.mask.value| == |b.source|)
  {
    if b.mask.None? then b.source[i] else MaskedByte(Peek(m, AddressOf(b.start, i)), b.source[i], b.mask.value[i])
  }

  predicate Consistent(b: WriteBlock) {
    |b.source| < 0x1_0000 && (b.mask.Some? ==> |b.mask.value| == |b.source|)
  }

  /** The first `count` bytes of a block written. */
  function ApplyBytes(m: Memory, b: WriteBlock, count: nat): Memory
    requires Consistent(b) && count <= |b.source|
  {
    if count == 0 then m
    else ApplyBytes(m, b, count - 1)[AddressOf(b.start, count - 1) := NewByte(m, b, count - 1)]
  }

  function Apply(m: Memory, b: WriteBlock): Memory
    requires Consistent(b)
  {
    ApplyBytes(m, b, |b.source|)
  }

  predicate AllConsistent(blocks: seq<WriteBlock>) { forall i | 0 <= i < |blocks| :: Consistent(blocks[i]) }

  function ApplyAll(m: Memory, blocks: seq<WriteBlock>): Memory
    requires AllConsistent(blocks)
    decreases |blocks|
  {
    if blocks == [] then m else ApplyAll(Apply(m, blocks[0]), blocks[1..])
  }

  predicate DoesNotWrap(b: WriteBlock) { b.start + |b.source| <= ADDRESSES }

  /** What a block writes, address by address. */
  lemma {:induction false} ApplyBytesAt(m: Memory, b: WriteBlock, count: nat, a: nat)
    requires Consistent(b) && DoesNotWrap(b) && count <= |b.source|
    ensures Peek(ApplyBytes(m, b, count), a) ==
      if b.start <= a < b.start + count then NewByte(m, b, a - b.start) else Peek(m, a)
  {
    hide MaskedByte;
    if count > 0 {
      ApplyBytesAt(m, b, count - 1, a);
      Unwrapped(b.start + count - 1);
    }
  }

  /** The loop reads each byte just before it writes it; nothing it wrote before is there. */
  lemma {:induction false} NotYetWritten(m: Memory, b: WriteBlock, count: nat, i: nat)
    requires Consistent(b) && count <= i < |b.source|
    ensures Peek(ApplyBytes(m, b, count), AddressOf(b.start, i)) == Peek(m, AddressOf(b.start, i))
  {
    hide MaskedByte;
    if count > 0 {
      NotYetWritten(m, b, count - 1, i);
      assert AddressOf(b.start, count - 1) != AddressOf(b.start, i);
    }
  }

  /** Bit `j` of a byte, the lowest being bit 0. */
  predicate Bit(b: byte, j: nat) { if j == 0 then b % 2 == 1 else Bit(b / 2, j - 1) }

  predicate LowBit(w: bv8) { w & 1 == 1 }

  function Half(w: bv8): bv8 { w >> 1 }

  predicate BitOf(w: bv8, j: nat)
    decreases j
  {
    if j == 0 then LowBit(w) else BitOf(Half(w), j - 1)
  }

  lemma LowBitIs(w: bv8)
    ensures LowBit(w) <==> (w as int) % 2 == 1
  {}

  lemma HalfIs(w: bv8)
    ensures Half(w) as int == (w as int) / 2
  {}

  lemma {:induction false} BitIsBitOf(w: bv8, j: nat)
    ensures Bit(w as int, j) <==> BitOf(w, j)
    decreases j
  {
    hide LowBit, Half;
    LowBitIs(w);
    if j > 0 {
      HalfIs(w);
      BitIsBitOf(Half(w), j - 1);
    }
  }

  lemma MergeHalves(current: bv8, source: bv8, mask: bv8)
    ensures Half(Merge(current, source, mask)) == Merge(Half(current), Half(source), Half(mask))
    ensures LowBit(Merge(current, source, mask)) <==> if LowBit(mask) then LowBit(source) else LowBit(current)
  {}

  lemma {:induction false} MergeBit(current: bv8, source: bv8, mask: bv8, j: nat)
    ensures BitOf(Merge(current, source, mask), j) <==> if BitOf(mask, j) then BitOf(source, j) else BitOf(current, j)
    decreases j
  {
    hide LowBit, Half, Merge;
    MergeHalves(current, source, mask);
    if j > 0 {
      MergeBit(Half(current), Half(source), Half(mask), j - 1);
    }
  }

  lemma MaskedBit(current: byte, source: byte, mask: byte, j: nat)
    ensures Bit(MaskedByte(current, source, mask), j) <==> if Bit(mask, j) then Bit(source, j) else Bit(current, j)
  {
    hide Bit, BitOf, Merge;
    var c, s, m := current as bv8, source as bv8, mask as bv8;
    MergeBit(c, s, m, j);
    ByteBit(current, j);
    ByteBit(source, j);
    ByteBit(mask, j);
    BitIsBitOf(Merge(c, s, m), j);
  }

  lemma ByteBit(b: byte, j: nat)
    ensures Bit(b, j) <==> BitOf(b as bv8, j)
  {
    hide Bit, BitOf;
    ByteRoundTrip(b);
    BitIsBitOf(b as bv8, j);
  }

  function Join(w: bv8, bit: bool): bv8 { (w << 1) | (if bit then 1 else 0) }

  /** A number as a word, built bit by bit. */
  function Built(n: nat): bv8 { if n == 0 then 0 else Join(Built(n / 2), n % 2 == 1) }

  lemma JoinIs(w: bv8, bit: bool)
    requires w as int <= 0x7F
    ensures Join(w, bit) as int == 2 * (w as int) + (if bit then 1 else 0)
  {}

  lemma BuiltIs(n: nat)
    ensures if n == 0 then Built(n) as int == 0 else Built(n) == Join(Built(n / 2), n % 2 == 1)
  {}

  lemma {:induction false} BuiltValue(n: nat)
    requires n < 0x100
    ensures Built(n) as int == n
  {
    hide *;
    BuiltIs(n);
    if n > 0 {
      var half := Built(n / 2);
      BuiltValue(n / 2);
      JoinIs(half, n % 2 == 1);
    }
  }

  lemma WordRoundTrip(w: bv8)
    ensures (w as int) as bv8 == w
  {}

  lemma ByteRoundTrip(b: byte)
    ensures (b as bv8) as int == b
  {
    hide *;
    BuiltValue(b);
    WordRoundTrip(Built(b));
  }

  /** After a masked write, each bit of each byte of the block is the bit of the source if the
      mask has it, and the bit that was there if not. */
  lemma MaskedBits(m: Memory, b: WriteBlock, i: nat, j: nat)
    requires Consistent(b) && DoesNotWrap(b) && b.mask.Some? && i < |b.source|
    ensures
      var after, before := Peek(Apply(m, b), b.start + i), Peek(m, b.start + i);
      Bit(after, j) <==> if Bit(b.mask.value[i], j) then Bit(b.source[i], j) else Bit(before, j)
  {
    hide Bit, MaskedByte;
    ApplyBytesAt(m, b, |b.source|, b.start + i);
    Unwrapped(b.start + i);
    MaskedBit(Peek(m, b.start + i), b.source[i], b.mask.value[i], j);
  }

  class TargetMemory {
    var bytes: Memory

    constructor (bytes: Memory)
      ensures this.bytes == bytes
    {
      this.bytes := bytes;
    }

    method Write(b: WriteBlock)
      requires Consistent(b)
      modifies this
      ensures bytes == Apply(old(bytes), b)
    {
      hide NewByte, Peek, AddressOf;
      ghost var before := bytes;
      for i := 0 to |b.source|
        invariant bytes == ApplyBytes(before, b, i)
      {
        NotYetWritten(before, b, i, i);
        var value := ByteToWrite(Peek(bytes, AddressOf(b.start, i)), b, i);
        NewByteIs(before, b, i);
        bytes := bytes[AddressOf(b.start, i) := value];
      }
    }
  }

  lemma NewByteIs(m: Memory, b: WriteBlock, i: nat)
    requires i < |b.source| && Consistent(b)
    ensures NewByte(m, b, i) ==
      if b.mask.None? then b.source[i] else MaskedByte(Peek(m, AddressOf(b.start, i)), b.source[i], b.mask.value[i])
  {}

  method ByteToWrite(current: byte, b: WriteBlock, i: nat) returns (value: byte)
    requires i < |b.source| && Consistent(b)
    ensures value == if b.mask.None? then b.source[i] else MaskedByte(current, b.source[i], b.mask.value[i])
  {
    if b.mask.None? {
      value := b.source[i];
    } else {
      var temp := current as bv8;
      var source, mask := b.source[i] as bv8, b.mask.value[i] as bv8;
      OnesThenZerosMerges(temp, source, mask);
      temp := temp | (source & mask);
      temp := temp & (source | !mask);
      value := temp as byte;
    }
  }

  // ----- Block lists -----

  function Width(length: nat, masked: bool): nat { if masked then 2 * length else length }

  predicate FirstFits(data: seq<byte>, masked: bool) {
    |data| >= HEADER && HEADER + Width(First(data).length, masked) <= |data|
  }

  function FirstEnd(data: seq<byte>, masked: bool): (end: nat)
    requires FirstFits(data, masked)
    ensures HEADER <= end <= |data|
  {
    HEADER + Width(First(data).length, masked)
  }

  function FirstWrite(data: seq<byte>, masked: bool): (b: WriteBlock)
    requires FirstFits(data, masked)
    ensures Consistent(b)
  {
    var n := First(data).length;
    WriteBlock(First(data).start, data[HEADER..HEADER + n],
               if masked then Some(data[HEADER + n..HEADER + 2 * n]) else None)
  }

  /** A nonempty list of whole blocks. */
  predicate WellFormed(data: seq<byte>, masked: bool): (r: bool)
    ensures r ==> data != []
    decreases |data|
  {
    FirstFits(data, masked) &&
    (FirstEnd(data, masked) == |data| || WellFormed(data[FirstEnd(data, masked)..], masked))
  }

  function WriteBlocks(data: seq<byte>, masked: bool): (blocks: seq<WriteBlock>)
    requires data == [] || WellFormed(data, masked)
    ensures AllConsistent(blocks) && (data == [] <==> blocks == [])
    decreases |data|
  {
    if data == [] then [] else [FirstWrite(data, masked)] + WriteBlocks(data[FirstEnd(data, masked)..], masked)
  }

  function WriteRequest(blocks: seq<WriteBlock>): seq<byte>
    requires AllConsistent(blocks)
  {
    if blocks == [] then []
    else
      var b := blocks[0];
      EncodeBe(b.start, 8) + EncodeBe(|b.source|, 2) + b.source + (if b.mask.Some? then b.mask.value else [])
      + WriteRequest(blocks[1..])
  }

  predicate SameKind(blocks: seq<WriteBlock>, masked: bool) {
    AllConsistent(blocks) && forall i | 0 <= i < |blocks| :: blocks[i].mask.Some? <==> masked
  }

  lemma FirstOfRequest(b: WriteBlock, rest: seq<byte>, masked: bool)
    requires Consistent(b) && (b.mask.Some? <==> masked)
    ensures
      var data := EncodeBe(b.start, 8) + EncodeBe(|b.source|, 2) + b.source + (if b.mask.Some? then b.mask.value else []) + rest;
      && FirstFits(data, masked) && FirstWrite(data, masked) == b
      && data[FirstEnd(data, masked)..] == rest
  {
    hide EncodeBe, DecodeBe, Span;
    var n := |b.source|;
    var data := EncodeBe(b.start, 8) + EncodeBe(n, 2) + b.source + (if b.mask.Some? then b.mask.value else []) + rest;
    assert data[..8] == EncodeBe(b.start, 8) && data[8..10] == EncodeBe(n, 2);
    Spans();
    DecodeEncode(b.start, 8);
    DecodeEncode(n, 2);
    assert data[HEADER..HEADER + n] == b.source;
    if masked {
      assert data[HEADER + n..HEADER + 2 * n] == b.mask.value;
    }
  }

  /** The server reads the blocks the client wrote... */
  lemma {:induction false} WriteRequestParses(blocks: seq<WriteBlock>, masked: bool)
    requires SameKind(blocks, masked)
    ensures
      var data := WriteRequest(blocks);
      && (data == [] <==> blocks == []) && (blocks != [] ==> WellFormed(data, masked))
      && WriteBlocks(data, masked) == blocks
  {
    hide FirstWrite, FirstFits, FirstEnd;
    if blocks != [] {
      WriteRequestParses(blocks[1..], masked);
      FirstOfRequest(blocks[0], WriteRequest(blocks[1..]), masked);
    }
  }

  lemma FirstReencodes(data: seq<byte>, masked: bool)
    requires FirstFits(data, masked)
    ensures
      var b := FirstWrite(data, masked);
      && data == EncodeBe(b.start, 8) + EncodeBe(|b.source|, 2) + b.source
         + (if b.mask.Some? then b.mask.value else []) + data[FirstEnd(data, masked)..]
      && (b.mask.Some? <==> masked)
  {
    EncodeDecode(data[..8]);
    EncodeDecode(data[8..10]);
  }

  /** ...and accepts nothing else: what it accepts re-encodes to itself. */
  lemma {:induction false} AcceptedReencodes(data: seq<byte>, masked: bool)
    requires WellFormed(data, masked)
    ensures SameKind(WriteBlocks(data, masked), masked) && WriteRequest(WriteBlocks(data, masked)) == data
    decreases |data|
  {
    hide FirstWrite, FirstFits, FirstEnd;
    FirstReencodes(data, masked);
    var rest := data[FirstEnd(data, masked)..];
    if rest != [] {
      AcceptedReencodes(rest, masked);
    }
    assert WriteBlocks(data, masked)[1..] == WriteBlocks(rest, masked);
  }

  // ----- The answer -----

  predicate Protected(b: WriteBlock, forbidden: seq<Range>, readonly: seq<Range>) {
    TouchesAny(b.start, |b.source|, forbidden) || TouchesAny(b.start, |b.source|, readonly)
  }

  /** How many blocks there are before the first protected one. */
  function Served(blocks: seq<WriteBlock>, forbidden: seq<Range>, readonly: seq<Range>): (n: nat)
    ensures n <= |blocks| && (forall i | 0 <= i < n :: !Protected(blocks[i], forbidden, readonly))
    ensures n < |blocks| ==> Protected(blocks[n], forbidden, readonly)
  {
    if blocks == [] || Protected(blocks[0], forbidden, readonly) then 0
    else 1 + Served(blocks[1..], forbidden, readonly)
  }

  /** Where a block went and how much of it: the echo of a write. */
  function Receipt(b: WriteBlock): (bytes: seq<byte>)
    requires Consistent(b)
    ensures |bytes| == HEADER
  {
    EncodeBe(b.start, 8) + EncodeBe(|b.source|, 2)
  }

  function Receipts(blocks: seq<WriteBlock>): (bytes: seq<byte>)
    requires AllConsistent(blocks)
    ensures |bytes| == HEADER * |blocks|
  {
    if blocks == [] then [] else Receipt(blocks[0]) + Receipts(blocks[1..])
  }

  /** A receipt names address and length, most significant byte first. */
  lemma ReceiptLayout(b: WriteBlock)
    requires Consistent(b)
    ensures DecodeBe(Receipt(b)[..8]) == b.start && DecodeBe(Receipt(b)[8..]) == |b.source|
  {
    hide EncodeBe, DecodeBe;
    Spans();
    DecodeEncode(b.start, 8);
    DecodeEncode(|b.source|, 2);
    assert Receipt(b)[..8] == EncodeBe(b.start, 8) && Receipt(b)[8..] == EncodeBe(|b.source|, 2);
  }

  /** A block on the wire: address, length, the bytes to write, and behind them the mask. */
  lemma RequestLayout(b: WriteBlock)
    requires Consistent(b)
    ensures
      var d, n := WriteRequest([b]), |b.source|;
      && |d| == 10 + n + (if b.mask.Some? then n else 0)
      && DecodeBe(d[..8]) == b.start && DecodeBe(d[8..10]) == n && d[10..10 + n] == b.source
      && (b.mask.Some? ==> d[10 + n..] == b.mask.value)
  {
    hide EncodeBe, DecodeBe;
    Spans();
    DecodeEncode(b.start, 8);
    DecodeEncode(|b.source|, 2);
    var d := WriteRequest([b]);
    assert [b][1..] == [];
    assert d[..8] == EncodeBe(b.start, 8) && d[8..10] == EncodeBe(|b.source|, 2);
  }

  /** The serving pass: each block is checked, acknowledged if there is room, and written. */
  function Commit(m: Memory, blocks: seq<WriteBlock>, limit: nat, cursor: nat, forbidden: seq<Range>, readonly: seq<Range>):
    (Code, Memory, seq<byte>)
    requires AllConsistent(blocks)
    decreases |blocks|
  {
    if blocks == [] then (Ok, m, [])
    else if Protected(blocks[0], forbidden, readonly) then (Code.Forbidden, m, [])
    else
      var receipt := if HEADER + cursor > limit then [] else Receipt(blocks[0]);
      var (code, after, rest) := Commit(Apply(m, blocks[0]), blocks[1..], limit, cursor + |receipt|, forbidden, readonly);
      (code, after, receipt + rest)
  }

  datatype Setup = Setup(writeEnabled: bool, forbidden: seq<Range>, readonly: seq<Range>)

  /** The answer to a whole request, with the memory it leaves. */
  function Answer(m: Memory, data: seq<byte>, masked: bool, limit: nat, k: Setup): (Code, Memory, seq<byte>) {
    if !k.writeEnabled then (Code.Forbidden, m, [])
    else if !WellFormed(data, masked) then (InvalidRequest, m, [])
    else
      var blocks := WriteBlocks(data, masked);
      if HEADER * (|blocks| - 1) > limit then (Overflow, m, [])
      else Commit(m, blocks, limit, 0, k.forbidden, k.readonly)
  }

  lemma {:induction false} CommitWritesPrefix(m: Memory, blocks: seq<WriteBlock>, limit: nat, cursor: nat, forbidden: seq<Range>, readonly: seq<Range>)
    requires AllConsistent(blocks)
    ensures
      var (code, after, bytes) := Commit(m, blocks, limit, cursor, forbidden, readonly);
      var n := Served(blocks, forbidden, readonly);
      && code == (if n == |blocks| then Ok else Code.Forbidden)
      && after == ApplyAll(m, blocks[..n])
    decreases |blocks|
  {
    hide Protected, Apply, Receipt;
    if blocks != [] && !Protected(blocks[0], forbidden, readonly) {
      var receipt := if HEADER + cursor > limit then [] else Receipt(blocks[0]);
      CommitWritesPrefix(Apply(m, blocks[0]), blocks[1..], limit, cursor + |receipt|, forbidden, readonly);
      var n := Served(blocks, forbidden, readonly);
      assert blocks[..n][1..] == blocks[1..][..n - 1];
    }
  }

  lemma {:induction false} CommitAcknowledges(m: Memory, blocks: seq<WriteBlock>, limit: nat, cursor: nat, forbidden: seq<Range>, readonly: seq<Range>)
    requires AllConsistent(blocks) && blocks != [] && cursor + HEADER * (|blocks| - 1) <= limit
    requires Served(blocks, forbidden, readonly) == |blocks|
    ensures Commit(m, blocks, limit, cursor, forbidden, readonly).2 ==
            if cursor + HEADER * |blocks| <= limit then Receipts(blocks) else Receipts(blocks[..|blocks| - 1])
    decreases |blocks|
  {
    hide Protected, Apply, Receipt;
    var rest := blocks[1..];
    if rest != [] {
      CommitAcknowledges(Apply(m, blocks[0]), rest, limit, cursor + HEADER, forbidden, readonly);
      assert blocks[..|blocks| - 1][1..] == rest[..|rest| - 1];
    } else {
      assert blocks[..0] == [];
    }
  }

  /** The answer is OK exactly for an enabled, well-formed request without protected blocks
      whose receipts, the last one aside, fit; then every block is written, in order. The
      receipt of the last block is dropped if there is no room for it. A refused request
      leaves the blocks before the first protected one written, if it got that far. */
  lemma AnswerIsExact(m: Memory, data: seq<byte>, masked: bool, limit: nat, k: Setup)
    ensures
      var (code, after, bytes) := Answer(m, data, masked, limit, k);
      && (code == Ok <==>
          && k.writeEnabled && WellFormed(data, masked)
          && var blocks := WriteBlocks(data, masked);
             HEADER * (|blocks| - 1) <= limit && Served(blocks, k.forbidden, k.readonly) == |blocks|)
      && (code == Ok ==>
          var blocks := WriteBlocks(data, masked);
          && after == ApplyAll(m, blocks)
          && bytes == if HEADER * |blocks| <= limit then Receipts(blocks) else Receipts(blocks[..|blocks| - 1]))
      && (code == InvalidRequest <==> k.writeEnabled && !WellFormed(data, masked))
      && (code == Overflow <==> k.writeEnabled && WellFormed(data, masked) && HEADER * (|WriteBlocks(data, masked)| - 1) > limit)
      && (code in {InvalidRequest, Overflow} ==> after == m)
      && code in {Ok, InvalidRequest, Overflow, Code.Forbidden}
      && (code == Code.Forbidden && k.writeEnabled ==>
          && WellFormed(data, masked)
          && after == ApplyAll(m, WriteBlocks(data, masked)[..Served(WriteBlocks(data, masked), k.forbidden, k.readonly)]))
      && (!k.writeEnabled ==> code == Code.Forbidden && after == m)
  {
    hide Commit, Served, ApplyAll, Receipts, WellFormed;
    if k.writeEnabled && WellFormed(data, masked) {
      var blocks := WriteBlocks(data, masked);
      if HEADER * (|blocks| - 1) <= limit {
        CommitWritesPrefix(m, blocks, limit, 0, k.forbidden, k.readonly);
        assert blocks[..|blocks|] == blocks;
        if Served(blocks, k.forbidden, k.readonly) == |blocks| {
          CommitAcknowledges(m, blocks, limit, 0, k.forbidden, k.readonly);
        }
      }
    }
  }

  /** Four empty blocks against a 32-byte response: accepted, with three receipts. */
  lemma LastReceiptDropped(m: Memory)
    ensures
      var b := WriteBlock(0x1000, [], None);
      var (code, _, bytes) := Answer(m, WriteRequest([b, b, b, b]), false, 32, Setup(true, [], []));
      code == Ok && bytes == Receipt(b) + Receipt(b) + Receipt(b)
  {
    hide Commit, WriteRequest, WellFormed, WriteBlocks, Apply, Receipt;
    var b, k := WriteBlock(0x1000, [], None), Setup(true, [], []);
    var blocks := [b, b, b, b];
    WriteRequestParses(blocks, false);
    NoneProtected(blocks);
    AnswerIsExact(m, WriteRequest(blocks), false, 32, k);
    assert blocks[..3] == [b, b, b] && [b, b, b][1..] == [b, b] && [b, b][1..] == [b] && [b][1..] == [];
    assert Receipts([b]) == Receipt(b) + [] == Receipt(b);
    assert Receipts([b, b]) == Receipt(b) + Receipt(b);
    assert Receipts([b, b, b]) == Receipt(b) + (Receipt(b) + Receipt(b)) == Receipt(b) + Receipt(b) + Receipt(b);
  }

  /** Without ranges nothing is protected. */
  lemma {:induction false} NoneProtected(blocks: seq<WriteBlock>)
    ensures Served(blocks, [], []) == |blocks|
  {
    if blocks != [] {
      NoneProtected(blocks[1..]);
    }
  }

  // ----- What no request can do -----

  predicate NoneWraps(blocks: seq<WriteBlock>) { forall i | 0 <= i < |blocks| :: DoesNotWrap(blocks[i]) }

  predicate ProtectedAddress(a: nat, k: Setup) {
    || (exists i | 0 <= i < |k.forbidden| :: Inside(a, k.forbidden[i]))
    || (exists i | 0 <= i < |k.readonly| :: Inside(a, k.readonly[i]))
  }

  predicate ProperRanges(k: Setup) {
    && (forall i | 0 <= i < |k.forbidden| :: k.forbidden[i].start <= k.forbidden[i].end)
    && (forall i | 0 <= i < |k.readonly| :: k.readonly[i].start <= k.readonly[i].end)
  }

  /** A block that is not protected has no byte at a protected address. */
  lemma OutsideProtected(b: WriteBlock, k: Setup, a: nat)
    requires DoesNotWrap(b) && ProperRanges(k) && !Protected(b, k.forbidden, k.readonly) && ProtectedAddress(a, k)
    ensures !(b.start <= a < b.start + |b.source|)
  {
    if b.start <= a < b.start + |b.source| {
      forall i | 0 <= i < |k.forbidden|
        ensures !Inside(a, k.forbidden[i])
      {
        TouchesIsOverlap(b.start, |b.source|, k.forbidden[i]);
      }
      forall i | 0 <= i < |k.readonly|
        ensures !Inside(a, k.readonly[i])
      {
        TouchesIsOverlap(b.start, |b.source|, k.readonly[i]);
      }
      assert false;
    }
  }

  lemma {:induction false} CommitKeepsProtected(m: Memory, blocks: seq<WriteBlock>, limit: nat, cursor: nat, k: Setup, a: nat)
    requires AllConsistent(blocks) && NoneWraps(blocks) && ProperRanges(k) && ProtectedAddress(a, k)
    ensures Peek(Commit(m, blocks, limit, cursor, k.forbidden, k.readonly).1, a) == Peek(m, a)
    decreases |blocks|
  {
    hide Protected, Receipt, ProperRanges, ProtectedAddress, Peek, ApplyBytes;
    if blocks != [] && !Protected(blocks[0], k.forbidden, k.readonly) {
      var b := blocks[0];
      OutsideProtected(b, k, a);
      ApplyBytesAt(m, b, |b.source|, a);
      var receipt := if HEADER + cursor > limit then [] else Receipt(b);
      CommitKeepsProtected(Apply(m, b), blocks[1..], limit, cursor + |receipt|, k, a);
    }
  }

  /** A write request as received. */
  datatype Write = Write(data: seq<byte>, masked: bool)

  predicate Tame(w: Write) { WellFormed(w.data, w.masked) ==> NoneWraps(WriteBlocks(w.data, w.masked)) }

  lemma AnswerKeepsProtected(m: Memory, w: Write, limit: nat, k: Setup, a: nat)
    requires Tame(w) && ProperRanges(k) && ProtectedAddress(a, k)
    ensures Peek(Answer(m, w.data, w.masked, limit, k).1, a) == Peek(m, a)
  {
    hide Commit, WellFormed, Peek, ProperRanges, ProtectedAddress, NoneWraps;
    if k.writeEnabled && WellFormed(w.data, w.masked) {
      CommitKeepsProtected(m, WriteBlocks(w.data, w.masked), limit, 0, k, a);
    }
  }

  /** Memory after a run of write requests. */
  function AfterRun(m: Memory, run: seq<Write>, limit: nat, k: Setup): Memory
    decreases |run|
  {
    if run == [] then m else AfterRun(Answer(m, run[0].data, run[0].masked, limit, k).1, run[1..], limit, k)
  }

  /** Whatever is written and however it is answered, as long as no block wraps the address
      space, no byte of a forbidden or read-only range ever changes. */
  lemma {:induction false} RunKeepsProtected(m: Memory, run: seq<Write>, limit: nat, k: Setup, a: nat)
    requires (forall i | 0 <= i < |run| :: Tame(run[i])) && ProperRanges(k) && ProtectedAddress(a, k)
    ensures Peek(AfterRun(m, run, limit, k), a) == Peek(m, a)
    decreases |run|
  {
    hide Answer, Tame, Peek, ProperRanges, ProtectedAddress;
    if run != [] {
      AnswerKeepsProtected(m, run[0], limit, k, a);
      RunKeepsProtected(Answer(m, run[0].data, run[0].masked, limit, k).1, run[1..], limit, k, a);
    }
  }

  // ----- The service -----

  /** One parsing pass with a running total of receipts: the total before the last block, or
      None if the request is invalid. */
  function Pass(data: seq<byte>, masked: bool, total: nat): Option<nat>
    decreases |data|
  {
    if !FirstFits(data, masked) then None
    else if FirstEnd(data, masked) == |data| then Some(total)
    else Pass(data[FirstEnd(data, masked)..], masked, total + HEADER)
  }

  lemma {:induction false} PassAccepts(data: seq<byte>, masked: bool, total: nat)
    ensures Pass(data, masked, total).Some? <==> WellFormed(data, masked)
    ensures WellFormed(data, masked) ==>
      Pass(data, masked, total).value == total + HEADER * (|WriteBlocks(data, masked)| - 1)
    decreases |data|
  {
    hide FirstWrite, FirstFits, FirstEnd;
    if FirstFits(data, masked) && FirstEnd(data, masked) != |data| {
      PassAccepts(data[FirstEnd(data, masked)..], masked, total + HEADER);
    }
  }

  class WriteParser {
    const data: seq<byte>
    const masked: bool
    var bytesRead: u16
    var required: u16
    var invalid: bool
    var finished: bool

    ghost predicate Valid()
      reads this
    {
      |data| < 0x1_0000 && bytesRead <= |data| && (finished ==> invalid || bytesRead == |data|)
    }

    constructor (data: seq<byte>, masked: bool)
      requires |data| < 0x1_0000
      ensures Valid() && this.data == data && this.masked == masked && bytesRead == 0 && !finished
      ensures invalid <==> !WellFormed(data, masked)
      ensures !invalid ==> required == HEADER * (|WriteBlocks(data, masked)| - 1)
    {
      this.data, this.masked := data, masked;
      bytesRead, required, invalid, finished := 0, 0, false, false;
      new;
      Validate();
    }

    /** The validating pass, then back to the start. */
    method Validate()
      requires Valid() && bytesRead == 0 && required == 0 && !invalid && !finished
      modifies this
      ensures Valid() && bytesRead == 0 && !finished
      ensures invalid <==> !WellFormed(data, masked)
      ensures !invalid ==> required == HEADER * (|WriteBlocks(data, masked)| - 1)
    {
      hide FirstWrite, FirstFits, FirstEnd;
      assert data[0..] == data;
      PassAccepts(data, masked, 0);
      var block := Next();
      while !invalid && !finished
        invariant Valid()
        invariant invalid ==> Pass(data, masked, 0).None?
        invariant !invalid && finished ==> Pass(data, masked, 0) == Some(required)
        invariant !invalid && !finished ==> Pass(data[bytesRead..], masked, required + HEADER) == Pass(data, masked, 0)
        invariant required + (if finished || invalid then 0 else HEADER) <= bytesRead
        decreases |data| - bytesRead, !finished && !invalid
      {
        required := required + HEADER;
        block := Next();
      }
      bytesRead, finished := 0, false;
    }

    method Next() returns (block: WriteBlock)
      requires Valid() && !finished && !invalid
      modifies this
      ensures Valid() && required == old(required) && bytesRead >= old(bytesRead)
      ensures
        var rest := data[old(bytesRead)..];
        if !FirstFits(rest, masked) then invalid && finished
        else !invalid && block == FirstWrite(rest, masked) && bytesRead == old(bytesRead) + FirstEnd(rest, masked)
             && data[bytesRead..] == rest[FirstEnd(rest, masked)..] && (finished <==> bytesRead == |data|)
    {
      block := WriteBlock(0, [], None);
      ghost var rest := data[bytesRead..];
      if HEADER > |data| - bytesRead {
        finished, invalid := true, true;
        return;
      }
      var header := First(data[bytesRead..]);
      var length := header.length;
      bytesRead := bytesRead + HEADER;
      if length > |data| - bytesRead || (masked && length > (|data| - bytesRead) / 2) {
        invalid, finished := true, true;
        return;
      }
      var source := data[bytesRead..bytesRead + length];
      assert source == rest[HEADER..HEADER + length];
      bytesRead := bytesRead + length;
      var mask := None;
      if masked {
        mask := Some(data[bytesRead..bytesRead + length]);
        assert mask.value == rest[HEADER + length..HEADER + 2 * length];
        bytesRead := bytesRead + length;
      }
      block := WriteBlock(header.start, source, mask);
      if bytesRead == |data| {
        finished := true;
      }
    }
  }

  /** Serves a write request; `response` has the size of the transmit buffer. */
  method ProcessWrite(target: TargetMemory, data: seq<byte>, masked: bool, k: Setup, response: array<byte>)
    returns (code: Code, length: nat)
    requires |data| < 0x1_0000
    modifies target, response
    ensures length <= response.Length
    ensures (code, target.bytes, response[..length]) == Answer(old(target.bytes), data, masked, response.Length, k)
  {
    code, length := Ok, 0;
    if !k.writeEnabled {
      return Code.Forbidden, 0;
    }
    var parser := new WriteParser(data, masked);
    var encoder := new BlockEncoder(response, response.Length);
    if parser.invalid {
      return InvalidRequest, 0;
    }
    if parser.required > response.Length {
      return Overflow, 0;
    }
    code := ServeWrite(target, parser, encoder, k);
    length := encoder.cursor;
  }

  method ServeWrite(target: TargetMemory, parser: WriteParser, encoder: BlockEncoder, k: Setup) returns (code: Code)
    requires parser.Valid() && parser.bytesRead == 0 && !parser.finished && !parser.invalid
    requires WellFormed(parser.data, parser.masked)
    requires encoder.cursor == 0 && encoder.limit == encoder.buffer.Length
    modifies target, parser, encoder, encoder.buffer
    ensures encoder.cursor <= encoder.buffer.Length
    ensures (code, target.bytes, encoder.buffer[..encoder.cursor]) ==
            Commit(old(target.bytes), WriteBlocks(parser.data, parser.masked), encoder.limit, 0, k.forbidden, k.readonly)
  {
    hide FirstWrite, FirstFits, FirstEnd, Apply, TouchesAny, Commit, Receipt;
    code := Ok;
    ghost var all := Commit(target.bytes, WriteBlocks(parser.data, parser.masked), encoder.limit, 0, k.forbidden, k.readonly);
    assert parser.data[0..] == parser.data && encoder.buffer[..0] == [];
    EmptyBefore(all);
    while !parser.finished
      invariant parser.Valid() && !parser.invalid && code == Ok && encoder.cursor <= encoder.limit
      invariant parser.data[parser.bytesRead..] == [] || WellFormed(parser.data[parser.bytesRead..], parser.masked)
      invariant parser.finished <==> parser.bytesRead == |parser.data|
      invariant all == Before(encoder.buffer[..encoder.cursor],
        Commit(target.bytes, WriteBlocks(parser.data[parser.bytesRead..], parser.masked), encoder.limit, encoder.cursor,
               k.forbidden, k.readonly))
      decreases |parser.data| - parser.bytesRead
    {
      ghost var rest, done, at := parser.data[parser.bytesRead..], encoder.buffer[..encoder.cursor], encoder.cursor;
      NextCommit(target.bytes, rest, parser.masked, encoder.limit, at, k, done);
      var block := parser.Next();
      if parser.invalid {
        return InvalidRequest;
      }
      var forbidden := TouchesRegion(block.start, |block.source|, k.forbidden);
      if forbidden {
        return Code.Forbidden;
      }
      var readonly := TouchesRegion(block.start, |block.source|, k.readonly);
      if readonly {
        return Code.Forbidden;
      }
      ReceiptIs(block);
      encoder.WriteReceipt(block.start, |block.source|);
      target.Write(block);
    }
    assert parser.data[parser.bytesRead..] == [];
    NothingLeft(all, target.bytes, encoder.limit, encoder.cursor, k, encoder.buffer[..encoder.cursor]);
  }

  /** An answer with bytes already written before it. */
  function Before(done: seq<byte>, answer: (Code, Memory, seq<byte>)): (Code, Memory, seq<byte>) {
    (answer.0, answer.1, done + answer.2)
  }

  lemma EmptyBefore(answer: (Code, Memory, seq<byte>))
    ensures Before([], answer) == answer
  {
    assert [] + answer.2 == answer.2;
  }

  lemma NothingLeft(all: (Code, Memory, seq<byte>), m: Memory, limit: nat, cursor: nat, k: Setup, done: seq<byte>)
    requires all == Before(done, Commit(m, [], limit, cursor, k.forbidden, k.readonly))
    ensures all == (Ok, m, done)
  {
    assert done + [] == done;
  }

  lemma ReceiptIs(b: WriteBlock)
    requires Consistent(b)
    ensures Receipt(b) == EncodeBe(b.start, 8) + EncodeBe(|b.source|, 2)
  {}

  lemma NextCommit(m: Memory, rest: seq<byte>, masked: bool, limit: nat, cursor: nat, k: Setup, done: seq<byte>)
    requires WellFormed(rest, masked)
    ensures FirstFits(rest, masked)
    ensures
      var b, after := FirstWrite(rest, masked), rest[FirstEnd(rest, masked)..];
      && (after == [] || WellFormed(after, masked))
      && Before(done, Commit(m, WriteBlocks(rest, masked), limit, cursor, k.forbidden, k.readonly)) ==
         if Protected(b, k.forbidden, k.readonly) then (Code.Forbidden, m, done)
         else
           var receipt := if HEADER + cursor > limit then [] else Receipt(b);
           Before(done + receipt,
                  Commit(Apply(m, b), WriteBlocks(after, masked), limit, cursor + |receipt|, k.forbidden, k.readonly))
  {
    hide FirstWrite, FirstFits, FirstEnd, Receipt, Apply, Protected;
    var b, after := FirstWrite(rest, masked), rest[FirstEnd(rest, masked)..];
    var blocks := WriteBlocks(rest, masked);
    assert blocks[0] == b && blocks[1..] == WriteBlocks(after, masked);
    var receipt := if HEADER + cursor > limit then [] else Receipt(b);
    var tail := Commit(Apply(m, b), WriteBlocks(after, masked), limit, cursor + |receipt|, k.forbidden, k.readonly).2;
    assert done + (receipt + tail) == (done + receipt) + tail;
    assert done + [] == done;
  }
}
