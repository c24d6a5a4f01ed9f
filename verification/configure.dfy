// What main checks before it configures the datalogger: decoding, loop, regions, published
// values, and what the logger itself accepts.
module ConfigureRequests {
  import opened Words
  import opened LoggerTypes
  import opened Protocol
  import opened MemoryRead
  import opened ConfigCodec
  import opened TriggerOperands
  import O = Ownership

  /** Whole variables are read, even for a bitfield. */
  function OperandCheck(o: Operand, forbidden: seq<Range>, p: Published): Code {
    match o
    case Literal(_) => Ok
    case Var(address, code) => if TouchesAny(address, TypeSize(code), forbidden) then Forbidden else Ok
    case VarBit(address, code, _, _) => if TouchesAny(address, TypeSize(code), forbidden) then Forbidden else Ok
    case Rpv(id) => if p.configured && id in p.types then Ok else FailureToProceed
  }

  function ItemCheck(i: Loggable, forbidden: seq<Range>, p: Published): Code {
    match i
    case Memory(start, size) => if TouchesAny(start, size, forbidden) then Forbidden else Ok
    case RpvItem(id) => if p.configured && id in p.types then Ok else FailureToProceed
    case Time => Ok
  }

  /** The verdict on the first operand that has a problem. */
  function OperandChecks(os: seq<Operand>, forbidden: seq<Range>, p: Published): Code {
    if os == [] then Ok
    else if OperandCheck(os[0], forbidden, p) != Ok then OperandCheck(os[0], forbidden, p)
    else OperandChecks(os[1..], forbidden, p)
  }

  function ItemChecks(items: seq<Loggable>, forbidden: seq<Range>, p: Published): Code {
    if items == [] then Ok
    else if ItemCheck(items[0], forbidden, p) != Ok then ItemCheck(items[0], forbidden, p)
    else ItemChecks(items[1..], forbidden, p)
  }

  /** A problem with an item hides one with an operand. */
  function Checks(c: Configuration, forbidden: seq<Range>, p: Published): Code {
    var items := ItemChecks(c.items, forbidden, p);
    if items != Ok then items else OperandChecks(c.operands, forbidden, p)
  }

  lemma {:induction false} OperandsOkIff(os: seq<Operand>, forbidden: seq<Range>, p: Published)
    ensures OperandChecks(os, forbidden, p) in {Ok, Forbidden, FailureToProceed}
    ensures OperandChecks(os, forbidden, p) == Ok <==> forall i | 0 <= i < |os| :: OperandCheck(os[i], forbidden, p) == Ok
  {
    hide TouchesAny;
    if os != [] {
      OperandsOkIff(os[1..], forbidden, p);
      assert forall i | 0 < i < |os| :: os[i] == os[1..][i - 1];
    }
  }

  lemma {:induction false} ItemsOkIff(items: seq<Loggable>, forbidden: seq<Range>, p: Published)
    ensures ItemChecks(items, forbidden, p) in {Ok, Forbidden, FailureToProceed}
    ensures ItemChecks(items, forbidden, p) == Ok <==> forall i | 0 <= i < |items| :: ItemCheck(items[i], forbidden, p) == Ok
  {
    hide TouchesAny;
    if items != [] {
      ItemsOkIff(items[1..], forbidden, p);
      assert forall i | 0 < i < |items| :: items[i] == items[1..][i - 1];
    }
  }

  /** The request as the ownership machine sees it. */
  function RequestOf(data: seq<byte>, forbidden: seq<Range>, p: Published): O.Request {
    match Decode(data)
    case Failure(code) => O.Configure(0, code, Ok, false)
    case Success(r) => O.Configure(r.loop, Ok, Checks(r.config, forbidden, p), Acceptable(r.config, p))
  }

  lemma RequestIsServable(data: seq<byte>, forbidden: seq<Range>, p: Published)
    ensures O.Servable(RequestOf(data, forbidden, p))
    ensures Decode(data).Failure? ==> Decode(data).code != Ok
  {
    hide Decode, Checks;
    if Decode(data).Failure? {
      OverflowMeansTooMany(data);
    } else {
      var c := Decode(data).value.config;
      ChecksOkIff(c, forbidden, p);
    }
  }

  predicate Unproblematic(c: Configuration, forbidden: seq<Range>, p: Published) {
    && (forall i | 0 <= i < |c.operands| :: OperandCheck(c.operands[i], forbidden, p) == Ok)
    && (forall i | 0 <= i < |c.items| :: ItemCheck(c.items[i], forbidden, p) == Ok)
  }

  lemma ChecksOkIff(c: Configuration, forbidden: seq<Range>, p: Published)
    ensures Checks(c, forbidden, p) in {Ok, Forbidden, FailureToProceed}
    ensures Checks(c, forbidden, p) == Ok <==> Unproblematic(c, forbidden, p)
  {
    hide OperandCheck, ItemCheck;
    OperandsOkIff(c.operands, forbidden, p);
    ItemsOkIff(c.items, forbidden, p);
  }

  /** A payload configures the logger, if nobody owns it, exactly when it is the encoding of a
      request for a loop that exists and may log, whose operands and items stay clear of the
      forbidden ranges and name existing published values, and which the logger accepts. */
  lemma ConfiguresIff(data: seq<byte>, loops: seq<O.Loop>, forbidden: seq<Range>, p: Published)
    ensures O.Verdict(loops, RequestOf(data, forbidden, p)) == Ok <==>
      exists r: ConfigureRequest ::
        && WithinLimits(r.config) && data == Encode(r)
        && r.loop as nat < |loops| && loops[r.loop].allowed
        && Unproblematic(r.config, forbidden, p) && Acceptable(r.config, p)
  {
    hide Decode, Encode, Checks, Acceptable, Unproblematic;
    RequestIsServable(data, forbidden, p);
    if Decode(data).Success? {
      EncodeOfDecode(data);
      ChecksOkIff(Decode(data).value.config, forbidden, p);
    }
    forall r: ConfigureRequest | WithinLimits(r.config) && data == Encode(r)
      ensures Decode(data) == Success(r)
    {
      DecodeOfEncode(r);
    }
  }

  lemma {:induction false} FirstOperandDecides(os: seq<Operand>, forbidden: seq<Range>, p: Published) returns (n: nat)
    ensures n <= |os| && forall i | 0 <= i < n :: OperandCheck(os[i], forbidden, p) == Ok
    ensures n < |os| ==> OperandCheck(os[n], forbidden, p) == OperandChecks(os, forbidden, p) != Ok
    ensures n == |os| ==> OperandChecks(os, forbidden, p) == Ok
  {
    hide OperandCheck;
    n := 0;
    if os != [] && OperandCheck(os[0], forbidden, p) == Ok {
      n := FirstOperandDecides(os[1..], forbidden, p);
      n := n + 1;
      assert forall i | 0 < i < n :: os[i] == os[1..][i - 1];
    }
  }

  lemma {:induction false} FirstItemDecides(items: seq<Loggable>, forbidden: seq<Range>, p: Published) returns (n: nat)
    ensures n <= |items| && forall i | 0 <= i < n :: ItemCheck(items[i], forbidden, p) == Ok
    ensures n < |items| ==> ItemCheck(items[n], forbidden, p) == ItemChecks(items, forbidden, p) != Ok
    ensures n == |items| ==> ItemChecks(items, forbidden, p) == Ok
  {
    hide ItemCheck;
    n := 0;
    if items != [] && ItemCheck(items[0], forbidden, p) == Ok {
      n := FirstItemDecides(items[1..], forbidden, p);
      n := n + 1;
      assert forall i | 0 < i < n :: items[i] == items[1..][i - 1];
    }
  }

  /** What the answer to a payload that nobody owns the logger for is: why it cannot be decoded; or
      FailureToProceed for a loop that does not exist, Forbidden for one that may not log, the
      problem of the first item that has one, that of the first operand that has one, or
      InvalidRequest if the logger does not accept it. */
  lemma RefusalIsExact(r: ConfigureRequest, loops: seq<O.Loop>, forbidden: seq<Range>, p: Published) returns (item: nat, operand: nat)
    requires WithinLimits(r.config)
    ensures
      var code, c := O.Verdict(loops, RequestOf(Encode(r), forbidden, p)), r.config;
      && item <= |c.items| && operand <= |c.operands|
      && (forall i | 0 <= i < item :: ItemCheck(c.items[i], forbidden, p) == Ok)
      && (forall i | 0 <= i < operand :: OperandCheck(c.operands[i], forbidden, p) == Ok)
      && if r.loop as nat >= |loops| then code == FailureToProceed
         else if !loops[r.loop].allowed then code == Forbidden
         else if item < |c.items| then code == ItemCheck(c.items[item], forbidden, p) != Ok
         else if operand < |c.operands| then code == OperandCheck(c.operands[operand], forbidden, p) != Ok
         else code == if Acceptable(c, p) then Ok else InvalidRequest
  {
    hide Decode, Encode, Acceptable, OperandCheck, ItemCheck;
    DecodeOfEncode(r);
    item := FirstItemDecides(r.config.items, forbidden, p);
    operand := FirstOperandDecides(r.config.operands, forbidden, p);
  }

  /** The bytes fetched for an accepted bitfield with at least one bit lie within its variable,
      whose whole type was checked. */
  lemma FieldIsInVariable(o: Operand, p: Published)
    requires o.VarBit? && OperandValid(o, p) && o.bitSize > 0
    ensures
      var fetched := RequiredTypeSize(BytesFor(o.bitOffset + o.bitSize));
      fetched.Some? && fetched.value <= TypeSize(o.typeCode) <= 8 && o.bitOffset + o.bitSize <= 8 * fetched.value
  {}

  // ----- What is clear of the forbidden ranges -----

  predicate ProperRanges(ranges: seq<Range>) { forall i | 0 <= i < |ranges| :: ranges[i].start <= ranges[i].end }

  /** None of `length` bytes from `start` lies in a range. */
  ghost predicate NoByteIn(start: u64, length: nat, ranges: seq<Range>) {
    forall a: nat, i | start <= a < start + length && 0 <= i < |ranges| :: !Inside(a, ranges[i])
  }

  lemma UntouchedIffClear(start: u64, length: nat, ranges: seq<Range>)
    requires ProperRanges(ranges) && 1 <= length && start + length <= ADDRESSES
    ensures !TouchesAny(start, length, ranges) <==> NoByteIn(start, length, ranges)
  {
    hide Touches, Inside;
    forall i | 0 <= i < |ranges|
      ensures Touches(start, length, ranges[i]) <==> exists a :: start <= a < start + length && Inside(a, ranges[i])
    {
      TouchesIsOverlap(start, length, ranges[i]);
    }
  }

  /** The variable that a memory operand reads, a bitfield's whole type included. */
  predicate Reads(o: Operand, start: u64, length: nat) {
    (o.Var? || o.VarBit?) && o.address == start && TypeSize(o.typeCode) == length > 0
  }

  /** An operand passes exactly if the bytes of its variable are clear of the forbidden ranges, or
      its published value exists. */
  lemma OperandPassesIff(o: Operand, forbidden: seq<Range>, p: Published, start: u64, length: nat)
    requires ProperRanges(forbidden)
    ensures Reads(o, start, length) && start + length <= ADDRESSES ==>
      (OperandCheck(o, forbidden, p) == Ok <==> NoByteIn(start, length, forbidden))
    ensures o.Rpv? ==> (OperandCheck(o, forbidden, p) == Ok <==> p.configured && o.id in p.types)
    ensures OperandCheck(o, forbidden, p) in (if o.Rpv? then {Ok, FailureToProceed} else {Ok, Forbidden})
    ensures o.Literal? ==> OperandCheck(o, forbidden, p) == Ok
  {
    hide NoByteIn, TouchesAny;
    if Reads(o, start, length) && start + length <= ADDRESSES {
      UntouchedIffClear(start, length, forbidden);
    }
  }

  lemma ItemPassesIff(item: Loggable, forbidden: seq<Range>, p: Published)
    requires ProperRanges(forbidden)
    ensures item.Memory? && item.size > 0 && item.start + item.size <= ADDRESSES ==>
      (ItemCheck(item, forbidden, p) == Ok <==> NoByteIn(item.start, item.size, forbidden))
    ensures item.RpvItem? ==> (ItemCheck(item, forbidden, p) == Ok <==> p.configured && item.id in p.types)
    ensures ItemCheck(item, forbidden, p) in (if item.RpvItem? then {Ok, FailureToProceed} else {Ok, Forbidden})
    ensures item.Time? ==> ItemCheck(item, forbidden, p) == Ok
  {
    hide NoByteIn, TouchesAny;
    if item.Memory? && item.size > 0 && item.start + item.size <= ADDRESSES {
      UntouchedIffClear(item.start, item.size, forbidden);
    }
  }

  /** A Configure that main accepts makes the logger read and log no byte of a forbidden range,
      as far as its variables and items do not wrap the address space. */
  lemma AcceptedIsClear(data: seq<byte>, loops: seq<O.Loop>, forbidden: seq<Range>, p: Published)
    requires ProperRanges(forbidden) && O.Verdict(loops, RequestOf(data, forbidden, p)) == Ok
    ensures Decode(data).Success?
    ensures
      var c := Decode(data).value.config;
      && (forall i, start: u64, length: nat | 0 <= i < |c.operands| && Reads(c.operands[i], start, length) && start + length <= ADDRESSES ::
            NoByteIn(start, length, forbidden))
      && (forall i | 0 <= i < |c.items| && c.items[i].Memory? && c.items[i].start + c.items[i].size <= ADDRESSES ::
            NoByteIn(c.items[i].start, c.items[i].size, forbidden))
  {
    hide Decode, Checks, Acceptable, NoByteIn, OperandCheck, ItemCheck, Reads;
    RequestIsServable(data, forbidden, p);
    var c := Decode(data).value.config;
    ChecksOkIff(c, forbidden, p);
    forall i, start: u64, length: nat | 0 <= i < |c.operands| && Reads(c.operands[i], start, length) && start + length <= ADDRESSES
      ensures NoByteIn(start, length, forbidden)
    {
      OperandPassesIff(c.operands[i], forbidden, p, start, length);
    }
    forall i | 0 <= i < |c.items| && c.items[i].Memory? && c.items[i].start + c.items[i].size <= ADDRESSES
      ensures NoByteIn(c.items[i].start, c.items[i].size, forbidden)
    {
      ItemPassesIff(c.items[i], forbidden, p);
      NothingInEmpty(c.items[i].start, forbidden);
    }
  }

  lemma NothingInEmpty(start: u64, ranges: seq<Range>)
    ensures NoByteIn(start, 0, ranges)
  {}

  method CheckAddresses(c: Configuration, forbidden: seq<Range>, p: Published) returns (code: Code)
    ensures code == Checks(c, forbidden, p)
  {
    hide TouchesAny;
    code := Ok;
    for i := 0 to |c.operands|
      invariant code == Ok && OperandChecks(c.operands[i..], forbidden, p) == OperandChecks(c.operands, forbidden, p)
    {
      assert c.operands[i..][1..] == c.operands[i + 1..];
      code := CheckOperand(c.operands[i], forbidden, p);
      if code != Ok {
        break;
      }
    }
    ghost var operands := code;
    assert operands == OperandChecks(c.operands, forbidden, p);
    for i := 0 to |c.items|
      invariant code == operands && ItemChecks(c.items[i..], forbidden, p) == ItemChecks(c.items, forbidden, p)
    {
      assert c.items[i..][1..] == c.items[i + 1..];
      var problem := CheckItem(c.items[i], forbidden, p);
      if problem != Ok {
        code := problem;
        break;
      }
    }
  }

  method CheckOperand(o: Operand, forbidden: seq<Range>, p: Published) returns (code: Code)
    ensures code == OperandCheck(o, forbidden, p)
  {
    code := Ok;
    match o
    case Var(address, typeCode) =>
      var touches := TouchesRegion(address, TypeSize(typeCode), forbidden);
      if touches {
        code := Forbidden;
      }
    case VarBit(address, typeCode, _, _) =>
      var touches := TouchesRegion(address, TypeSize(typeCode), forbidden);
      if touches {
        code := Forbidden;
      }
    case Rpv(id) =>
      if !p.configured || id !in p.types {
        code := FailureToProceed;
      }
    case Literal(_) =>
  }

  method CheckItem(i: Loggable, forbidden: seq<Range>, p: Published) returns (code: Code)
    ensures code == ItemCheck(i, forbidden, p)
  {
    code := Ok;
    match i
    case Memory(start, size) =>
      var touches := TouchesRegion(start, size, forbidden);
      if touches {
        code := Forbidden;
      }
    case RpvItem(id) =>
      if !p.configured || id !in p.types {
        code := FailureToProceed;
      }
    case Time =>
  }
}
