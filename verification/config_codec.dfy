// The datalogger configuration on the wire: the decoder of the Configure request and the
// encoder of the client.
module ConfigCodec {
  import opened Words
  import opened LoggerTypes
  import opened Wrappers
  import opened Protocol

  /** A Configure request: for which loop, under which id, what to log. */
  datatype ConfigureRequest = ConfigureRequest(loop: byte, id: u16, config: Configuration)

  datatype Result<T> = Success(value: T) | Failure(code: Code)

  /** A value and the bytes after it. */
  datatype Taken<T> = Taken(value: T, rest: seq<byte>)

  // ----- One operand, one item -----

  function EncodeOperand(o: Operand): seq<byte> {
    match o
    case Literal(bits) => [0] + EncodeBe(bits, 4)
    case Var(address, code) => [1, code] + EncodeBe(address, 8)
    case VarBit(address, code, offset, size) => [2, code] + EncodeBe(address, 8) + [offset, size]
    case Rpv(id) => [3] + EncodeBe(id, 2)
  }

  function TakeOperand(d: seq<byte>): Option<Taken<Operand>> {
    if d == [] then None
    else
      match d[0]
      case 0 => if |d| < 5 then None else Some(Taken(Literal(Word32(d[1..5])), d[5..]))
      case 1 => if |d| < 10 then None else Some(Taken(Var(Word64(d[2..10]), d[1]), d[10..]))
      case 2 => if |d| < 12 then None else Some(Taken(VarBit(Word64(d[2..10]), d[1], d[10], d[11]), d[12..]))
      case 3 => if |d| < 3 then None else Some(Taken(Rpv(Word16(d[1..3])), d[3..]))
      case _ => None
  }

  function EncodeItem(i: Loggable): seq<byte> {
    match i
    case Memory(start, size) => [0] + EncodeBe(start, 8) + [size]
    case RpvItem(id) => [1] + EncodeBe(id, 2)
    case Time => [2]
  }

  function TakeItem(d: seq<byte>): Option<Taken<Loggable>> {
    if d == [] then None
    else
      match d[0]
      case 0 => if |d| < 10 then None else Some(Taken(Memory(Word64(d[1..9]), d[9]), d[10..]))
      case 1 => if |d| < 3 then None else Some(Taken(RpvItem(Word16(d[1..3])), d[3..]))
      case 2 => Some(Taken(Time, d[1..]))
      case _ => None
  }

  lemma OperandTaken(o: Operand, rest: seq<byte>)
    ensures TakeOperand(EncodeOperand(o) + rest) == Some(Taken(o, rest))
  {
    var d := EncodeOperand(o) + rest;
    Spans();
    match o
    case Literal(bits) =>
      DecodeEncode(bits, 4);
      assert d[1..5] == EncodeBe(bits, 4);
    case Var(address, _) =>
      DecodeEncode(address, 8);
      assert d[2..10] == EncodeBe(address, 8);
    case VarBit(address, _, _, _) =>
      DecodeEncode(address, 8);
      assert d[2..10] == EncodeBe(address, 8);
    case Rpv(id) =>
      DecodeEncode(id, 2);
      assert d[1..3] == EncodeBe(id, 2);
  }

  lemma OperandReencodes(d: seq<byte>)
    requires TakeOperand(d).Some?
    ensures EncodeOperand(TakeOperand(d).value.value) + TakeOperand(d).value.rest == d
  {
    match d[0]
    case 0 => EncodeDecode(d[1..5]);
    case 1 => EncodeDecode(d[2..10]);
    case 2 => EncodeDecode(d[2..10]);
    case 3 => EncodeDecode(d[1..3]);
  }

  lemma ItemTaken(i: Loggable, rest: seq<byte>)
    ensures TakeItem(EncodeItem(i) + rest) == Some(Taken(i, rest))
  {
    var d := EncodeItem(i) + rest;
    Spans();
    match i
    case Memory(start, _) =>
      DecodeEncode(start, 8);
      assert d[1..9] == EncodeBe(start, 8);
    case RpvItem(id) =>
      DecodeEncode(id, 2);
      assert d[1..3] == EncodeBe(id, 2);
    case Time =>
  }

  lemma ItemReencodes(d: seq<byte>)
    requires TakeItem(d).Some?
    ensures EncodeItem(TakeItem(d).value.value) + TakeItem(d).value.rest == d
  {
    match d[0]
    case 0 => EncodeDecode(d[1..9]);
    case 1 => EncodeDecode(d[1..3]);
    case 2 =>
  }

  // ----- Lists -----

  function EncodeOperands(os: seq<Operand>): seq<byte> {
    if os == [] then [] else EncodeOperand(os[0]) + EncodeOperands(os[1..])
  }

  function TakeOperands(d: seq<byte>, count: nat): (r: Option<Taken<seq<Operand>>>)
    ensures r.Some? ==> |r.value.value| == count
    decreases count
  {
    if count == 0 then Some(Taken([], d))
    else
      var first := TakeOperand(d);
      if first.None? then None
      else
        var others := TakeOperands(first.value.rest, count - 1);
        if others.None? then None
        else Some(Taken([first.value.value] + others.value.value, others.value.rest))
  }

  function EncodeItems(xs: seq<Loggable>): seq<byte> {
    if xs == [] then [] else EncodeItem(xs[0]) + EncodeItems(xs[1..])
  }

  function TakeItems(d: seq<byte>, count: nat): (r: Option<Taken<seq<Loggable>>>)
    ensures r.Some? ==> |r.value.value| == count
    decreases count
  {
    if count == 0 then Some(Taken([], d))
    else
      var first := TakeItem(d);
      if first.None? then None
      else
        var others := TakeItems(first.value.rest, count - 1);
        if others.None? then None
        else Some(Taken([first.value.value] + others.value.value, others.value.rest))
  }

  lemma {:induction false} OperandsTaken(os: seq<Operand>, rest: seq<byte>)
    ensures TakeOperands(EncodeOperands(os) + rest, |os|) == Some(Taken(os, rest))
  {
    hide EncodeOperand, TakeOperand;
    if os == [] {
      assert [] + rest == rest;
    } else {
      var tail := EncodeOperands(os[1..]) + rest;
      assert EncodeOperands(os) + rest == EncodeOperand(os[0]) + tail;
      OperandTaken(os[0], tail);
      OperandsTaken(os[1..], rest);
      assert [os[0]] + os[1..] == os;
    }
  }

  lemma {:induction false} OperandsReencode(d: seq<byte>, count: nat)
    requires TakeOperands(d, count).Some?
    ensures EncodeOperands(TakeOperands(d, count).value.value) + TakeOperands(d, count).value.rest == d
    decreases count
  {
    hide EncodeOperand, TakeOperand;
    if count > 0 {
      OperandReencodes(d);
      var first := TakeOperand(d).value;
      OperandsReencode(first.rest, count - 1);
      var all, others := TakeOperands(d, count).value, TakeOperands(first.rest, count - 1).value;
      assert all.value[1..] == others.value;
      assert EncodeOperand(first.value) + (EncodeOperands(others.value) + others.rest)
          == (EncodeOperand(first.value) + EncodeOperands(others.value)) + others.rest;
    } else {
      assert [] + d == d;
    }
  }

  lemma {:induction false} ItemsTaken(xs: seq<Loggable>, rest: seq<byte>)
    ensures TakeItems(EncodeItems(xs) + rest, |xs|) == Some(Taken(xs, rest))
  {
    hide EncodeItem, TakeItem;
    if xs == [] {
      assert [] + rest == rest;
    } else {
      var tail := EncodeItems(xs[1..]) + rest;
      assert EncodeItems(xs) + rest == EncodeItem(xs[0]) + tail;
      ItemTaken(xs[0], tail);
      ItemsTaken(xs[1..], rest);
      assert [xs[0]] + xs[1..] == xs;
    }
  }

  lemma {:induction false} ItemsReencode(d: seq<byte>, count: nat)
    requires TakeItems(d, count).Some?
    ensures EncodeItems(TakeItems(d, count).value.value) + TakeItems(d, count).value.rest == d
    decreases count
  {
    hide EncodeItem, TakeItem;
    if count > 0 {
      ItemReencodes(d);
      var first := TakeItem(d).value;
      ItemsReencode(first.rest, count - 1);
      var all, others := TakeItems(d, count).value, TakeItems(first.rest, count - 1).value;
      assert all.value[1..] == others.value;
      assert EncodeItem(first.value) + (EncodeItems(others.value) + others.rest)
          == (EncodeItem(first.value) + EncodeItems(others.value)) + others.rest;
    } else {
      assert [] + d == d;
    }
  }

  // ----- The whole request -----

  predicate WithinLimits(c: Configuration) { |c.operands| <= MAX_OPERANDS && |c.items| <= MAX_SIGNAL }

  const FIXED_PART := 16

  function EncodeHead(r: ConfigureRequest): (head: seq<byte>)
    requires WithinLimits(r.config)
    ensures |head| == FIXED_PART
  {
    var c := r.config;
    [r.loop] + EncodeBe(r.id, 2) + EncodeBe(c.decimation, 2) + [c.probeLocation] + EncodeBe(c.timeout, 4)
    + [c.condition] + EncodeBe(c.holdTime, 4) + [|c.operands|]
  }

  /** The client's encoding. */
  function Encode(r: ConfigureRequest): seq<byte>
    requires WithinLimits(r.config)
  {
    EncodeHead(r) + EncodeOperands(r.config.operands) + [|r.config.items|] + EncodeItems(r.config.items)
  }

  /** Field by field, all numbers most significant byte first; the operands and the items follow
      their counts. */
  lemma Layout(r: ConfigureRequest)
    requires WithinLimits(r.config)
    ensures
      var e, c := Encode(r), r.config;
      var operands, items := EncodeOperands(c.operands), EncodeItems(c.items);
      && |e| == 17 + |operands| + |items|
      && e[0] == r.loop && DecodeBe(e[1..3]) == r.id
      && DecodeBe(e[3..5]) == c.decimation && e[5] == c.probeLocation && DecodeBe(e[6..10]) == c.timeout
      && e[10] == c.condition && DecodeBe(e[11..15]) == c.holdTime
      && e[15] == |c.operands| && e[16..16 + |operands|] == operands
      && e[16 + |operands|] == |c.items| && e[17 + |operands|..] == items
  {
    hide EncodeBe, DecodeBe, EncodeOperands, EncodeItems;
    var e, c := Encode(r), r.config;
    Spans();
    DecodeEncode(r.id, 2);
    DecodeEncode(c.decimation, 2);
    DecodeEncode(c.timeout, 4);
    DecodeEncode(c.holdTime, 4);
    assert e[1..3] == EncodeBe(r.id, 2) && e[3..5] == EncodeBe(c.decimation, 2);
    assert e[6..10] == EncodeBe(c.timeout, 4) && e[11..15] == EncodeBe(c.holdTime, 4);
  }

  lemma OperandLayout(o: Operand)
    ensures
      var e := EncodeOperand(o);
      match o
      case Literal(bits) => |e| == 5 && e[0] == 0 && DecodeBe(e[1..]) == bits
      case Var(address, code) => |e| == 10 && e[0] == 1 && e[1] == code && DecodeBe(e[2..]) == address
      case VarBit(address, code, offset, size) =>
        |e| == 12 && e[0] == 2 && e[1] == code && DecodeBe(e[2..10]) == address && e[10] == offset && e[11] == size
      case Rpv(id) => |e| == 3 && e[0] == 3 && DecodeBe(e[1..]) == id
  {
    OperandTaken(o, []);
    assert EncodeOperand(o) + [] == EncodeOperand(o);
  }

  lemma ItemLayout(i: Loggable)
    ensures
      var e := EncodeItem(i);
      match i
      case Memory(start, size) => |e| == 10 && e[0] == 0 && DecodeBe(e[1..9]) == start && e[9] == size
      case RpvItem(id) => |e| == 3 && e[0] == 1 && DecodeBe(e[1..]) == id
      case Time => e == [2]
  {
    ItemTaken(i, []);
    assert EncodeItem(i) + [] == EncodeItem(i);
  }

  function Assemble(data: seq<byte>, operands: seq<Operand>, items: seq<Loggable>): ConfigureRequest
    requires |data| >= FIXED_PART
  {
    ConfigureRequest(data[0], Word16(data[1..3]),
      Configuration(Word16(data[3..5]), data[5], Word32(data[6..10]), data[10], Word32(data[11..15]), operands, items))
  }

  /** The decoder: the verdict on any byte string. */
  function Decode(data: seq<byte>): Result<ConfigureRequest> {
    if |data| < FIXED_PART then Failure(InvalidRequest)
    else if data[15] as nat > MAX_OPERANDS then Failure(Overflow)
    else
      var operands := TakeOperands(data[FIXED_PART..], data[15]);
      if operands.None? || operands.value.rest == [] then Failure(InvalidRequest)
      else
        var rest := operands.value.rest;
        if rest[0] as nat > MAX_SIGNAL then Failure(Overflow)
        else
          var items := TakeItems(rest[1..], rest[0]);
          if items.None? || items.value.rest != [] then Failure(InvalidRequest)
          else Success(Assemble(data, operands.value.value, items.value.value))
  }

  lemma HeadReads(r: ConfigureRequest, tail: seq<byte>)
    requires WithinLimits(r.config)
    ensures
      var data := EncodeHead(r) + tail;
      data[15] == |r.config.operands| && Assemble(data, r.config.operands, r.config.items) == r
  {
    var data, c := EncodeHead(r) + tail, r.config;
    Spans();
    DecodeEncode(r.id, 2);
    DecodeEncode(c.decimation, 2);
    DecodeEncode(c.timeout, 4);
    DecodeEncode(c.holdTime, 4);
    assert data[1..3] == EncodeBe(r.id, 2);
    assert data[3..5] == EncodeBe(c.decimation, 2);
    assert data[6..10] == EncodeBe(c.timeout, 4);
    assert data[11..15] == EncodeBe(c.holdTime, 4);
  }

  /** Every configuration within the limits survives the trip. */
  lemma DecodeOfEncode(r: ConfigureRequest)
    requires WithinLimits(r.config)
    ensures Decode(Encode(r)) == Success(r)
  {
    hide EncodeHead, EncodeOperands, EncodeItems, TakeOperands, TakeItems, Assemble;
    var c := r.config;
    var itemPart := [|c.items|] + EncodeItems(c.items);
    var tail := EncodeOperands(c.operands) + itemPart;
    assert Encode(r) == EncodeHead(r) + tail;
    HeadReads(r, tail);
    OperandsTaken(c.operands, itemPart);
    assert itemPart[1..] == EncodeItems(c.items) == EncodeItems(c.items) + [];
    ItemsTaken(c.items, []);
  }

  lemma HeadReencodes(data: seq<byte>, operands: seq<Operand>, items: seq<Loggable>)
    requires |data| >= FIXED_PART && |operands| == data[15] && |operands| <= MAX_OPERANDS && |items| <= MAX_SIGNAL
    ensures EncodeHead(Assemble(data, operands, items)) == data[..FIXED_PART]
  {
    EncodeDecode(data[1..3]);
    EncodeDecode(data[3..5]);
    EncodeDecode(data[6..10]);
    EncodeDecode(data[11..15]);
    hide EncodeBe, DecodeBe;
    var head := data[..FIXED_PART];
    assert head == [data[0]] + data[1..3] + data[3..5] + [data[5]] + data[6..10] + [data[10]] + data[11..15] + [data[15]];
  }

  /** And every payload that the decoder accepts is the encoding of what it decodes. */
  lemma EncodeOfDecode(data: seq<byte>)
    requires Decode(data).Success?
    ensures WithinLimits(Decode(data).value.config) && Encode(Decode(data).value) == data
  {
    hide EncodeHead, EncodeOperands, EncodeItems, TakeOperands, TakeItems;
    var operands := TakeOperands(data[FIXED_PART..], data[15]).value;
    var rest := operands.rest;
    var items := TakeItems(rest[1..], rest[0]).value;
    OperandsReencode(data[FIXED_PART..], data[15]);
    ItemsReencode(rest[1..], rest[0]);
    HeadReencodes(data, operands.value, items.value);
    assert items.rest == [] && EncodeItems(items.value) + [] == EncodeItems(items.value);
    assert rest == [rest[0]] + rest[1..];
    assert data == data[..FIXED_PART] + data[FIXED_PART..];
  }

  /** When it refuses, the reason is a count over its limit, or anything else. */
  lemma OverflowMeansTooMany(data: seq<byte>)
    requires Decode(data).Failure?
    ensures Decode(data).code in {InvalidRequest, Overflow}
    ensures Decode(data).code == Overflow <==>
      && |data| >= FIXED_PART
      && (data[15] as nat > MAX_OPERANDS
          || exists os: seq<Operand>, n: byte, more: seq<byte> ::
               && |os| == data[15] as nat && n as nat > MAX_SIGNAL
               && data[FIXED_PART..] == EncodeOperands(os) + ([n] + more))
  {
    hide EncodeOperands, EncodeItems, TakeOperands, TakeItems, Assemble;
    if |data| >= FIXED_PART && data[15] as nat <= MAX_OPERANDS {
      var d := data[FIXED_PART..];
      var operands := TakeOperands(d, data[15]);
      if operands.Some? {
        OperandsReencode(d, data[15]);
        var os, rest := operands.value.value, operands.value.rest;
        if rest != [] {
          assert rest == [rest[0]] + rest[1..];
        }
      }
      forall os: seq<Operand>, n: byte, more: seq<byte> | |os| == data[15] as nat && d == EncodeOperands(os) + ([n] + more)
        ensures operands == Some(Taken(os, [n] + more))
      {
        OperandsTaken(os, [n] + more);
      }
    }
  }

  // ----- The decoder with its cursor -----

  /** A list result with the values already read put in front. */
  function Prepend<T>(done: seq<T>, more: Option<Taken<seq<T>>>): Option<Taken<seq<T>>> {
    if more.None? then None else Some(Taken(done + more.value.value, more.value.rest))
  }

  method DecodeOperand(data: seq<byte>, at: nat) returns (o: Option<Operand>, next: nat)
    requires at <= |data|
    ensures at <= next <= |data|
    ensures
      var t := TakeOperand(data[at..]);
      if t.None? then o.None? else o == Some(t.value.value) && data[next..] == t.value.rest
  {
    o, next := None, at;
    if |data| < at + 1 {
      return;
    }
    var kind := data[at];
    var cursor := at + 1;
    match kind
    case 0 =>
      if |data| < cursor + 4 {
        return;
      }
      o, next := Some(Literal(Word32(data[cursor..cursor + 4]))), cursor + 4;
      assert data[at..][1..5] == data[cursor..cursor + 4];
    case 3 =>
      if |data| < cursor + 2 {
        return;
      }
      o, next := Some(Rpv(Word16(data[cursor..cursor + 2]))), cursor + 2;
      assert data[at..][1..3] == data[cursor..cursor + 2];
    case 1 =>
      if |data| < cursor + 1 + 8 {
        return;
      }
      o, next := Some(Var(Word64(data[cursor + 1..cursor + 9]), data[cursor])), cursor + 9;
      assert data[at..][2..10] == data[cursor + 1..cursor + 9];
    case 2 =>
      if |data| < cursor + 3 + 8 {
        return;
      }
      o, next :=
        Some(VarBit(Word64(data[cursor + 1..cursor + 9]), data[cursor], data[cursor + 9], data[cursor + 10])), cursor + 11;
      assert data[at..][2..10] == data[cursor + 1..cursor + 9];
    case _ =>
  }

  method DecodeItem(data: seq<byte>, at: nat) returns (i: Option<Loggable>, next: nat)
    requires at <= |data|
    ensures at <= next <= |data|
    ensures
      var t := TakeItem(data[at..]);
      if t.None? then i.None? else i == Some(t.value.value) && data[next..] == t.value.rest
  {
    i, next := None, at;
    if |data| < at + 1 {
      return;
    }
    var kind := data[at];
    var cursor := at + 1;
    match kind
    case 0 =>
      if |data| < cursor + 8 + 1 {
        return;
      }
      i, next := Some(Memory(Word64(data[cursor..cursor + 8]), data[cursor + 8])), cursor + 9;
      assert data[at..][1..9] == data[cursor..cursor + 8];
    case 1 =>
      if |data| < cursor + 2 {
        return;
      }
      i, next := Some(RpvItem(Word16(data[cursor..cursor + 2]))), cursor + 2;
      assert data[at..][1..3] == data[cursor..cursor + 2];
    case 2 =>
      i, next := Some(Time), cursor;
    case _ =>
  }

  method DecodeOperands(data: seq<byte>, at: nat, count: nat) returns (r: Option<seq<Operand>>, next: nat)
    requires at <= |data|
    ensures at <= next <= |data|
    ensures
      var t := TakeOperands(data[at..], count);
      if t.None? then r.None? else r == Some(t.value.value) && data[next..] == t.value.rest
  {
    hide TakeOperand;
    var done: seq<Operand> := [];
    next := at;
    ghost var all := TakeOperands(data[at..], count);
    assert all.Some? ==> [] + all.value.value == all.value.value;
    for i := 0 to count
      invariant at <= next <= |data|
      invariant Prepend(done, TakeOperands(data[next..], count - i)) == all
    {
      var o, after := DecodeOperand(data, next);
      if o.None? {
        return None, next;
      }
      ghost var others := TakeOperands(data[after..], count - i - 1);
      assert others.Some? ==> (done + [o.value]) + others.value.value == done + ([o.value] + others.value.value);
      done := done + [o.value];
      next := after;
    }
    assert done + [] == done;
    r := Some(done);
  }

  method DecodeItems(data: seq<byte>, at: nat, count: nat) returns (r: Option<seq<Loggable>>, next: nat)
    requires at <= |data|
    ensures at <= next <= |data|
    ensures
      var t := TakeItems(data[at..], count);
      if t.None? then r.None? else r == Some(t.value.value) && data[next..] == t.value.rest
  {
    hide TakeItem;
    var done: seq<Loggable> := [];
    next := at;
    ghost var all := TakeItems(data[at..], count);
    assert all.Some? ==> [] + all.value.value == all.value.value;
    for i := 0 to count
      invariant at <= next <= |data|
      invariant Prepend(done, TakeItems(data[next..], count - i)) == all
    {
      var x, after := DecodeItem(data, next);
      if x.None? {
        return None, next;
      }
      ghost var others := TakeItems(data[after..], count - i - 1);
      assert others.Some? ==> (done + [x.value]) + others.value.value == done + ([x.value] + others.value.value);
      done := done + [x.value];
      next := after;
    }
    assert done + [] == done;
    r := Some(done);
  }

  method DecodeConfigureRequest(data: seq<byte>) returns (r: Result<ConfigureRequest>)
    ensures r == Decode(data)
  {
    hide TakeOperands, TakeItems;
    if |data| < FIXED_PART {
      return Failure(InvalidRequest);
    }
    if data[15] as nat > MAX_OPERANDS {
      return Failure(Overflow);
    }
    var operands, cursor := DecodeOperands(data, FIXED_PART, data[15]);
    if operands.None? {
      return Failure(InvalidRequest);
    }
    if |data| < cursor + 1 {
      return Failure(InvalidRequest);
    }
    var count := data[cursor];
    cursor := cursor + 1;
    if count as nat > MAX_SIGNAL {
      return Failure(Overflow);
    }
    var items;
    items, cursor := DecodeItems(data, cursor, count);
    if items.None? || cursor != |data| {
      return Failure(InvalidRequest);
    }
    r := Success(Assemble(data, operands.value, items.value));
  }
}
