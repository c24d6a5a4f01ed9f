// The datalogger configuration, as the protocol carries it and as the logger keeps it.
module LoggerTypes {
  import opened Words

  /** A float literal is carried as its 32-bit pattern. */
  datatype Operand =
    | Literal(bits: u32)
    | Var(address: u64, typeCode: byte)
    | VarBit(address: u64, typeCode: byte, bitOffset: byte, bitSize: byte)
    | Rpv(id: u16)

  datatype Loggable = Memory(start: u64, size: byte) | RpvItem(id: u16) | Time

  datatype Configuration = Configuration(
    decimation: u16, probeLocation: byte, timeout: u32, condition: byte, holdTime: u32,
    operands: seq<Operand>, items: seq<Loggable>)

  const MAX_OPERANDS := 3
  const MAX_SIGNAL := 16

  /** How many operands each trigger condition takes, by condition code. */
  const OPERAND_COUNT: seq<nat> := [0, 2, 2, 2, 2, 2, 2, 2, 3]

  // Type codes: the kind in the high nibble, the base-two logarithm of the size in the low one.
  const SINT := 0
  const UINT := 1
  const FLOAT := 2
  const BOOLEAN := 3
  const NATIVE_BOOLEAN: byte := 0x3F
  const UNKNOWN: byte := 0xFF

  function Kind(code: byte): nat { code / 16 }

  /** Size in bytes; sizes past 128 are cut off by the 8-bit result. */
  function TypeSize(code: byte): nat {
    if code == UNKNOWN then 0
    else if code == NATIVE_BOOLEAN then 1
    else if code % 16 < 8 then [1, 2, 4, 8, 16, 32, 64, 128][code % 16]
    else 0
  }

  predicate Supported(code: byte) {
    || code == NATIVE_BOOLEAN
    || (0 < TypeSize(code) <= 8
        && if Kind(code) == BOOLEAN then TypeSize(code) == 1
           else if Kind(code) == FLOAT then TypeSize(code) >= 4
           else Kind(code) in {SINT, UINT})
  }

  /** The published values that exist, with their types; none if they are not configured. */
  datatype Published = Published(configured: bool, types: map<u16, byte>)

  predicate Finite(bits: u32) { bits / 0x80_0000 % 0x100 != 0xFF }

  predicate OperandValid(o: Operand, p: Published) {
    match o
    case Literal(bits) => Finite(bits)
    case Rpv(id) => p.configured && id in p.types
    case Var(_, code) => Supported(code)
    case VarBit(_, code, offset, size) => Supported(code) && offset + size <= TypeSize(code) * 8 && offset <= 63
  }

  predicate ItemValid(item: Loggable, p: Published) {
    item.RpvItem? ==> p.configured && item.id in p.types
  }

  /** What the logger accepts. */
  predicate Acceptable(c: Configuration, p: Published) {
    && 1 <= |c.items| <= MAX_SIGNAL && |c.operands| <= MAX_OPERANDS
    && c.condition as nat < |OPERAND_COUNT| && |c.operands| == OPERAND_COUNT[c.condition] && c.decimation != 0
    && (forall i | 0 <= i < |c.operands| :: OperandValid(c.operands[i], p))
    && (forall i | 0 <= i < |c.items| :: ItemValid(c.items[i], p))
  }
}
