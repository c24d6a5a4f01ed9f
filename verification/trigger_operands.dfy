// Trigger operands: fetching a bitfield out of target memory, widening it for comparison, and
// comparing signed with unsigned. Bit operations are defined bit by bit on naturals.
module TriggerOperands {
  import opened Words
  import opened Wrappers

  // ----- Bits of naturals -----

  function Pow2(k: nat): (r: nat)
    ensures r > 0
  {
    if k == 0 then 1 else 2 * Pow2(k - 1)
  }

  function Shr(x: nat, k: nat): nat
    decreases k
  {
    if k == 0 then x else Shr(x / 2, k - 1)
  }

  /** The lowest `k` bits. */
  function Low(x: nat, k: nat): (r: nat)
    ensures r < Pow2(k)
    decreases k
  {
    if k == 0 then 0 else x % 2 + 2 * Low(x / 2, k - 1)
  }

  function And(x: nat, y: nat): nat {
    if x == 0 || y == 0 then 0 else (if x % 2 == 1 && y % 2 == 1 then 1 else 0) + 2 * And(x / 2, y / 2)
  }

  function Or(x: nat, y: nat): nat {
    if x == 0 then y else if y == 0 then x
    else (if x % 2 == 1 || y % 2 == 1 then 1 else 0) + 2 * Or(x / 2, y / 2)
  }

  /** Complement in a word of `width` bits. */
  function Not(x: nat, width: nat): nat
    decreases width
  {
    if width == 0 then 0 else (1 - x % 2) + 2 * Not(x / 2, width - 1)
  }

  function Ones(k: nat): nat { Pow2(k) - 1 }

  /** Shr and Low are quotient and remainder by a power of two. */
  lemma {:induction false} SplitAt(x: nat, k: nat)
    ensures x == Pow2(k) * Shr(x, k) + Low(x, k)
    decreases k
  {
    if k > 0 {
      SplitAt(x / 2, k - 1);
      Doubled(Pow2(k - 1), Shr(x, k));
    }
  }

  lemma Doubled(p: nat, w: nat)
    ensures 2 * (p * w) == (2 * p) * w
  {}

  lemma {:induction false} MaskKeepsLow(x: nat, k: nat)
    ensures And(x, Ones(k)) == Low(x, k)
    decreases k
  {
    if k > 0 {
      MaskKeepsLow(x / 2, k - 1);
      assert Ones(k) == 1 + 2 * Ones(k - 1);
      if x == 0 {
        LowOfZero(k);
      }
    }
  }

  lemma {:induction false} LowOfZero(k: nat)
    ensures Low(0, k) == 0
  {
    if k > 0 {
      LowOfZero(k - 1);
    }
  }

  lemma {:induction false} LowOfSmall(x: nat, k: nat)
    requires x < Pow2(k)
    ensures Low(x, k) == x
    decreases k
  {
    if k > 0 {
      LowOfSmall(x / 2, k - 1);
    }
  }

  lemma {:induction false} Pow2Grows(a: nat, b: nat)
    requires a <= b
    ensures Pow2(a) <= Pow2(b)
    decreases b - a
  {
    if a < b {
      Pow2Grows(a, b - 1);
    }
  }

  /** Setting all bits of a word above the lowest `k`. */
  lemma {:induction false} FillAbove(x: nat, k: nat, width: nat)
    requires k <= width && x < Pow2(k)
    ensures Or(x, Not(Ones(k), width)) == x + Pow2(width) - Pow2(k)
    decreases width
  {
    if k == 0 {
      NotZero(width);
    } else {
      assert Ones(k) == 1 + 2 * Ones(k - 1);
      FillAbove(x / 2, k - 1, width - 1);
      var y, y' := Not(Ones(k), width), Not(Ones(k - 1), width - 1);
      assert y == 2 * y';
      if y' == 0 {
        OrZero(x / 2);
      }
    }
  }

  lemma OrZero(x: nat)
    ensures Or(x, 0) == x
  {}

  lemma {:induction false} NotZero(width: nat)
    ensures Not(0, width) == Ones(width)
  {
    if width > 0 {
      NotZero(width - 1);
    }
  }

  /** A field that lies in the lowest `a` bits does not depend on the bits above. */
  lemma {:induction false} FieldOfLow(x: nat, a: nat, offset: nat, size: nat)
    requires offset + size <= a
    ensures Low(Shr(Low(x, a), offset), size) == Low(Shr(x, offset), size)
    decreases a
  {
    if offset > 0 {
      FieldOfLow(x / 2, a - 1, offset - 1, size);
      assert Low(x, a) / 2 == Low(x / 2, a - 1);
    } else {
      LowOfLow(x, a, size);
    }
  }

  lemma {:induction false} LowOfLow(x: nat, a: nat, k: nat)
    requires k <= a
    ensures Low(Low(x, a), k) == Low(x, k)
    decreases k
  {
    if k > 0 {
      LowOfLow(x / 2, a - 1, k - 1);
      assert Low(x, a) / 2 == Low(x / 2, a - 1) && Low(x, a) % 2 == x % 2;
    }
  }

  /** The top bit of a `size`-bit value. */
  lemma {:induction false} TopBit(x: nat, size: nat)
    requires size > 0 && x < Pow2(size)
    ensures Shr(x, size - 1) != 0 <==> x >= Pow2(size - 1)
    decreases size
  {
    if size > 1 {
      TopBit(x / 2, size - 1);
    }
  }

  // ----- Memory words -----

  /** The number held in bytes, least significant first. */
  function Word(bytes: seq<byte>): nat {
    if bytes == [] then 0 else bytes[0] + 256 * Word(bytes[1..])
  }

  lemma NoBits(x: nat)
    ensures Low(x, 0) == 0
  {}

  /** The first bytes of a word are its low bits. */
  lemma {:induction false} WordPrefix(bytes: seq<byte>, n: nat)
    requires n <= |bytes|
    ensures Word(bytes[..n]) == Low(Word(bytes), 8 * n)
  {
    hide Low;
    if n == 0 {
      NoBits(Word(bytes));
    } else {
      WordPrefix(bytes[1..], n - 1);
      assert bytes[..n][1..] == bytes[1..][..n - 1];
      EightBits(Word(bytes[1..]), bytes[0], 8 * (n - 1));
    }
  }

  /** The lowest `j` bits of `b`, with `w` above them. */
  function Join(b: nat, j: nat, w: nat): nat
    decreases j
  {
    if j == 0 then w else b % 2 + 2 * Join(b / 2, j - 1, w)
  }

  lemma {:induction false} JoinIs(b: nat, j: nat, w: nat)
    requires b < Pow2(j)
    ensures Join(b, j, w) == b + Pow2(j) * w
    decreases j
  {
    if j > 0 {
      JoinIs(b / 2, j - 1, w);
      Doubled(Pow2(j - 1), w);
    }
  }

  lemma {:induction false} LowOfJoin(b: nat, j: nat, w: nat, k: nat)
    ensures Low(Join(b, j, w), k + j) == Join(b, j, Low(w, k))
    decreases j
  {
    if j > 0 {
      LowOfJoin(b / 2, j - 1, w, k);
      assert Join(b, j, w) / 2 == Join(b / 2, j - 1, w);
    }
  }

  lemma Pow2Of8()
    ensures Pow2(8) == 256
  {
    assert Pow2(8) == 2 * Pow2(7) && Pow2(7) == 2 * Pow2(6) && Pow2(6) == 2 * Pow2(5) && Pow2(5) == 2 * Pow2(4);
    assert Pow2(4) == 2 * Pow2(3) && Pow2(3) == 2 * Pow2(2) && Pow2(2) == 2 * Pow2(1) && Pow2(1) == 2 * Pow2(0);
  }

  lemma EightBits(w: nat, b: byte, k: nat)
    ensures Low(b + 256 * w, k + 8) == b + 256 * Low(w, k)
  {
    hide Low, Join, Pow2;
    Pow2Of8();
    JoinIs(b, 8, w);
    JoinIs(b, 8, Low(w, k));
    LowOfJoin(b, 8, w, k);
  }

  // ----- Fetch -----

  /** Whole bytes that hold `bits` bits. */
  function BytesFor(bits: nat): nat
    requires bits > 0
  {
    (bits - 1) / 8 + 1
  }

  /** The smallest type, in bytes, that holds `size` bytes; none past 32. */
  function RequiredTypeSize(size: nat): Option<nat> {
    if size <= 1 then Some(1) else if size <= 2 then Some(2) else if size <= 4 then Some(4)
    else if size <= 8 then Some(8) else if size <= 16 then Some(16) else if size <= 32 then Some(32) else None
  }

  /** How the fetched bits are to be read. */
  datatype Reading = Signed | Unsigned | Boolean

  /** A fetched value: the content of a field of `bytes` bytes. */
  datatype Fetched = Fetched(content: nat, bytes: nat, kind: Reading)

  /** `memory` is what follows the operand's address. */
  method FetchVariableBitfield(memory: seq<byte>, kind: Reading, offset: byte, size: byte) returns (r: Option<Fetched>)
    requires |memory| >= 8
    ensures r.Some? <==> size > 0 && offset + size <= 64
    ensures r.Some? ==>
      && Some(r.value.bytes) == RequiredTypeSize(BytesFor(size)) && r.value.kind == kind
      && r.value.content == FieldContent(Low(Shr(Word(memory[..8]), offset), size), kind, size, 8 * r.value.bytes)
  {
    hide Low, Shr, Word, And, Or, Not, Pow2;
    if size == 0 {
      return None;
    }
    var fetch, output := RequiredTypeSize(BytesFor(offset + size)), RequiredTypeSize(BytesFor(size));
    if fetch.None? || fetch.value > 8 {
      return None;
    }
    var content := Word(memory[..fetch.value]);
    content := Shr(content, offset);
    var width := 8 * output.value;
    content := Low(content, width);
    var mask := if size < width then Ones(size) else Ones(width);
    content := And(content, mask);
    FetchedField(memory, offset, size, fetch.value, width);
    ghost var field := content;
    if kind.Signed? {
      if Shr(content, size - 1) != 0 {
        content := Or(content, Not(mask, width));
      }
    }
    FieldContentIs(field, kind, size, width);
    r := Some(Fetched(content, output.value, kind));
  }

  /** A `size`-bit field as the two's complement or plain content of `width` bits. */
  function FieldContent(field: nat, kind: Reading, size: nat, width: nat): int
    requires size > 0
  {
    if kind.Signed? && field >= Pow2(size - 1) then field + Pow2(width) - Pow2(size) else field
  }

  lemma FetchedField(memory: seq<byte>, offset: nat, size: nat, fetch: nat, width: nat)
    requires |memory| >= 8 && 0 < size <= width && offset + size <= 8 * fetch && fetch <= 8
    ensures And(Low(Shr(Word(memory[..fetch]), offset), width), Ones(size)) == Low(Shr(Word(memory[..8]), offset), size)
    ensures size == width ==> Ones(size) == Ones(width)
  {
    hide Low, Shr, Word, And;
    var word := Word(memory[..8]);
    assert memory[..8][..fetch] == memory[..fetch];
    WordPrefix(memory[..8], fetch);
    var shifted := Shr(Word(memory[..fetch]), offset);
    MaskKeepsLow(Low(shifted, width), size);
    LowOfLow(shifted, width, size);
    FieldOfLow(word, 8 * fetch, offset, size);
  }

  lemma FieldContentIs(field: nat, kind: Reading, size: nat, width: nat)
    requires 0 < size <= width && field < Pow2(size)
    ensures FieldContent(field, kind, size, width) ==
      if kind.Signed? && Shr(field, size - 1) != 0 then Or(field, Not(Ones(size), width)) else field
  {
    TopBit(field, size);
    FillAbove(field, size, width);
  }

  // ----- Widening -----

  /** What conditions compare: 64-bit signed or unsigned. */
  datatype Comparable = SInt(value: int) | UInt(value: int)

  /** Reads a field of `bytes` bytes in its own type, then widens. A boolean is read through its
      first byte; what a byte other than 0 and 1 reads as is `odd`. */
  function ConvertToCompareType(f: Fetched, odd: bool): Comparable
    requires f.bytes > 0
  {
    match f.kind
    case Unsigned => UInt(f.content)
    case Signed => SInt(if f.content >= Pow2(8 * f.bytes - 1) then f.content - Pow2(8 * f.bytes) else f.content)
    case Boolean =>
      var first := f.content % 256;
      UInt(if first <= 1 then first else if odd then 1 else 0)
  }

  /** A boolean field reads as its truth value, on every compiler, if and only if it is zero or
      its first byte is one. */
  lemma BooleanIsTruthIff(field: nat, bytes: nat)
    requires bytes > 0
    ensures
      (forall odd :: ConvertToCompareType(Fetched(field, bytes, Boolean), odd) == UInt(if field != 0 then 1 else 0))
      <==> field == 0 || field % 256 == 1
  {
    var f := Fetched(field, bytes, Boolean);
    assert ConvertToCompareType(f, false) == UInt(0) <==> field % 256 != 1;
    assert field % 256 <= 1 ==> ConvertToCompareType(f, true) == UInt(field % 256);
  }

  /** The number that a field of a memory word means. */
  function Meaning(word: nat, kind: Reading, offset: nat, size: nat): int
    requires size > 0
  {
    var field := Low(Shr(word, offset), size);
    if kind.Signed? && field >= Pow2(size - 1) then field - Pow2(size) else field
  }

  lemma WideningIsMeaning(field: nat, kind: Reading, size: nat, bytes: nat, odd: bool)
    requires 0 < size <= 8 * bytes && field < Pow2(size)
    ensures FieldContent(field, kind, size, 8 * bytes) >= 0
    ensures
      var c := FieldContent(field, kind, size, 8 * bytes);
      kind != Boolean ==>
        ConvertToCompareType(Fetched(c, bytes, kind), odd) ==
        if kind.Unsigned? then UInt(field)
        else SInt(if field >= Pow2(size - 1) then field - Pow2(size) else field)
  {
    Pow2Grows(size, 8 * bytes);
    Pow2Grows(size - 1, 8 * bytes - 1);
    assert Pow2(size) == 2 * Pow2(size - 1) && Pow2(8 * bytes) == 2 * Pow2(8 * bytes - 1);
  }

  /** Fetch, then widen: for every signed or unsigned field within 64 bits, the mathematical
      value of the field of the little-endian memory word, and for a boolean field of value 0 or
      1 that value; past 64 bits or of no bits, nothing. */
  method FetchOperand(memory: seq<byte>, kind: Reading, offset: byte, size: byte, odd: bool) returns (r: Option<Comparable>)
    requires |memory| >= 8
    ensures r.Some? <==> size > 0 && offset + size <= 64
    ensures r.Some? && (kind != Boolean || Low(Shr(Word(memory[..8]), offset), size) <= 1) ==>
      r.value == var v := Meaning(Word(memory[..8]), kind, offset, size); if kind.Signed? then SInt(v) else UInt(v)
    ensures r.Some? && kind == Boolean ==>
      r.value == ConvertToCompareType(Fetched(Low(Shr(Word(memory[..8]), offset), size), 8, Boolean), odd)
  {
    hide Low, Shr, Word, Pow2;
    var f := FetchVariableBitfield(memory, kind, offset, size);
    if f.None? {
      return None;
    }
    WideningIsMeaning(Low(Shr(Word(memory[..8]), offset), size), kind, size, f.value.bytes, odd);
    r := Some(ConvertToCompareType(f.value, odd));
  }

  // ----- Comparing -----

  datatype Relation = Equal | NotEqual | Greater | GreaterOrEqual | Less | LessOrEqual

  function Holds(op: Relation, a: int, b: int): bool {
    match op
    case Equal => a == b
    case NotEqual => a != b
    case Greater => a > b
    case GreaterOrEqual => a >= b
    case Less => a < b
    case LessOrEqual => a <= b
  }

  const INT_MAX := 0x7FFF_FFFF_FFFF_FFFF

  function Saturated(u: int): int { if u > INT_MAX then INT_MAX else u }

  /** Mixed operands are compared as signed, the unsigned one cut off at the largest signed. */
  function RelationalCompare(op: Relation, a: Comparable, b: Comparable): bool {
    if a.SInt? == b.SInt? then Holds(op, a.value, b.value)
    else if a.SInt? then Holds(op, a.value, Saturated(b.value))
    else Holds(op, Saturated(a.value), b.value)
  }

  predicate InRange(c: Comparable) {
    if c.SInt? then -INT_MAX - 1 <= c.value <= INT_MAX else 0 <= c.value < 0x1_0000_0000_0000_0000
  }

  /** The largest signed value against an unsigned one beyond it: seen as equal. */
  predicate Confused(a: Comparable, b: Comparable) {
    || (a.SInt? && b.UInt? && a.value == INT_MAX && b.value > INT_MAX)
    || (a.UInt? && b.SInt? && b.value == INT_MAX && a.value > INT_MAX)
  }

  /** The comparison is the mathematical one except for a confused pair, where it takes the
      two for equal; there it is wrong exactly for the relations that tell equal from the
      true order. */
  lemma CompareIsExact(op: Relation, a: Comparable, b: Comparable)
    requires InRange(a) && InRange(b)
    ensures !Confused(a, b) ==>
      && (RelationalCompare(Equal, a, b) <==> a.value == b.value)
      && (RelationalCompare(NotEqual, a, b) <==> a.value != b.value)
      && (RelationalCompare(Greater, a, b) <==> a.value > b.value)
      && (RelationalCompare(GreaterOrEqual, a, b) <==> a.value >= b.value)
      && (RelationalCompare(Less, a, b) <==> a.value < b.value)
      && (RelationalCompare(LessOrEqual, a, b) <==> a.value <= b.value)
    ensures Confused(a, b) ==> a.value != b.value && (RelationalCompare(op, a, b) <==> op in {Equal, GreaterOrEqual, LessOrEqual})
    ensures RelationalCompare(op, a, b) == Holds(op, a.value, b.value) <==>
            !(Confused(a, b) && op in (if a.SInt? then {Equal, NotEqual, Less, GreaterOrEqual}
                                       else {Equal, NotEqual, Greater, LessOrEqual}))
  {}
}
