// crc32 of the repository: a sixteen-entry table, two lookups per byte, complement on
// entry and on exit.
//   - the table loop and the function it computes
//   - the bit-at-a-time definition of RFC 1952 and the refinement between the two
//   - chaining over a split
//   - detection of bursts of at most four bytes
// Proofs that combine steps hide the step bodies; each bit-level fact is a leaf lemma.
module Checksum {
  import opened Words

  const TABLE: seq<bv32> := [
    0x00000000, 0x1DB71064, 0x3B6E20C8, 0x26D930AC, 0x76DC4190, 0x6B6B51F4,
    0x4DB26158, 0x5005713C, 0xEDB88320, 0xF00F9344, 0xD6D6A3E8, 0xCB61B38C,
    0x9B64C2B0, 0x86D3D2D4, 0xA00AE278, 0xBDBDF21C]

  function Join(w: bv32, bit: bool): bv32 { (w << 1) | (if bit then 1 else 0) }

  /** The bits of a number, as a machine word. */
  function Word(n: nat): bv32 {
    if n == 0 then 0 else Join(Word(n / 2), n % 2 == 1)
  }

  /** A row of the table: the exclusive or of the rows of its index bits. */
  function Row(i: bv32): bv32 {
    (if i & 1 == 1 then 0x1DB71064 else 0) ^ (if i & 2 == 2 then 0x3B6E20C8 else 0)
    ^ (if i & 4 == 4 then 0x76DC4190 else 0) ^ (if i & 8 == 8 then 0xEDB88320 else 0)
  }

  function Index(crc: bv32, x: bv32): bv32 { (crc ^ x) & 0xF }

  function ShiftOut(row: bv32, crc: bv32): bv32 { row ^ (crc >> 4) }

  /** One table lookup; only the low nibble of `x` matters. */
  function NibbleStep(crc: bv32, x: bv32): bv32 {
    ShiftOut(Row(Index(crc, x)), crc)
  }

  function High(x: bv32): bv32 { x >> 4 }

  function ByteStep(crc: bv32, x: bv32): bv32 {
    NibbleStep(NibbleStep(crc, x), High(x))
  }

  function Complement(x: bv32): bv32 { !x }

  /** The register after all of `data`. */
  function Run(crc: bv32, data: seq<byte>): bv32
    decreases |data|
  {
    if data == [] then crc else Run(ByteStep(crc, Word(data[0])), data[1..])
  }

  /** A CRC value as it is handed around. */
  datatype Crc = Crc(bits: bv32)

  const ZERO := Crc(0)

  function Crc32(data: seq<byte>, start: Crc): Crc {
    Crc(Complement(Run(Complement(start.bits), data)))
  }

  lemma RowIsTableEntry(i: bv32)
    requires i <= 0xF
    ensures i as int < |TABLE| && TABLE[i as int] == Row(i)
  {}

  method Lookup(crc: bv32, x: bv32) returns (r: bv32)
    ensures r == NibbleStep(crc, x)
  {
    var i := (crc ^ x) & 0xF;
    RowIsTableEntry(i);
    r := TABLE[i as int] ^ (crc >> 4);
  }

  method ComputeCrc32(data: seq<byte>, start: Crc) returns (r: Crc)
    ensures r == Crc32(data, start)
  {
    hide ByteStep, NibbleStep, Word, Row, High, Complement;
    var crc := Complement(start.bits);
    assert data[0..] == data;
    for i := 0 to |data|
      invariant Run(crc, data[i..]) == Run(Complement(start.bits), data)
    {
      var byte := Word(data[i]);
      assert data[i..][1..] == data[i + 1..];
      ghost var next := ByteStep(crc, byte);
      ByteStepIsTwoLookups(crc, byte);
      crc := Lookup(crc, byte);
      crc := Lookup(crc, High(byte));
    }
    r := Crc(Complement(crc));
  }

  lemma ByteStepIsTwoLookups(crc: bv32, x: bv32)
    ensures ByteStep(crc, x) == NibbleStep(NibbleStep(crc, x), High(x))
  {}

  // ----- Section 8 of RFC 1952 -----

  /** One bit is shifted out; a one mixes in the polynomial. */
  function BitStep(c: bv32): bv32 {
    if c & 1 == 1 then 0xEDB88320 ^ (c >> 1) else c >> 1
  }

  function FourBits(c: bv32): bv32 { BitStep(BitStep(BitStep(BitStep(c)))) }

  function Mix(c: bv32, x: bv32): bv32 { c ^ x }

  /** One data byte enters at the low end, then the register is shifted out bit by bit. */
  function BitwiseRun(crc: bv32, data: seq<byte>): bv32
    decreases |data|
  {
    if data == [] then crc else BitwiseRun(FourBits(FourBits(crc ^ Word(data[0]))), data[1..])
  }

  predicate IsByte(x: bv32) { x <= 0xFF }

  function Half(c: bv32): bv32 { c >> 1 }

  predicate Even(c: bv32) { c & 1 == 0 }

  lemma BitStepIs(c: bv32)
    ensures BitStep(c) == if Even(c) then Half(c) else Mix(0xEDB88320, Half(c))
  {}

  lemma BitStepIsLinear(a: bv32, c: bv32)
    requires Even(a)
    ensures BitStep(Mix(a, c)) == Mix(Half(a), BitStep(c))
  {
    hide BitStep, Mix, Half, Even;
    BitStepIs(c);
    BitStepIs(Mix(a, c));
    EvenMixed(a, c);
    HalfMixed(a, c);
    MixSwaps(0xEDB88320, Half(a), Half(c));
  }

  lemma EvenMixed(a: bv32, c: bv32)
    requires Even(a)
    ensures Even(Mix(a, c)) <==> Even(c)
  {}

  lemma HalfMixed(a: bv32, c: bv32)
    ensures Half(Mix(a, c)) == Mix(Half(a), Half(c))
  {}

  lemma MixSwaps(p: bv32, x: bv32, y: bv32)
    ensures Mix(p, Mix(x, y)) == Mix(x, Mix(p, y))
  {}

  lemma FourBitsOfNibble(n: bv32)
    requires n <= 0xF
    ensures FourBits(n) == Row(n)
  {}

  lemma NibbleAndRest(c: bv32)
    ensures c == Mix(c & 0xFFFF_FFF0, Index(c, 0)) && Index(c, 0) <= 0xF
    ensures Even(c & 0xFFFF_FFF0) && Even(Half(c & 0xFFFF_FFF0)) && Even(Half(Half(c & 0xFFFF_FFF0)))
    ensures Even(Half(Half(Half(c & 0xFFFF_FFF0))))
  {}

  lemma RestShiftsOut(c: bv32, row: bv32)
    ensures Mix(Half(Half(Half(Half(c & 0xFFFF_FFF0)))), row) == ShiftOut(row, c)
  {}

  lemma FourBitsIsOneLookup(c: bv32)
    ensures FourBits(c) == NibbleStep(c, 0)
  {
    hide BitStep, Mix, Half, Even, Row, Index, ShiftOut;
    var n, rest := Index(c, 0), c & 0xFFFF_FFF0;
    NibbleAndRest(c);
    BitStepIsLinear(rest, n);
    BitStepIsLinear(Half(rest), BitStep(n));
    BitStepIsLinear(Half(Half(rest)), BitStep(BitStep(n)));
    BitStepIsLinear(Half(Half(Half(rest))), BitStep(BitStep(BitStep(n))));
    FourBitsOfNibble(n);
    RestShiftsOut(c, Row(n));
  }

  /** A byte mixed in whole: its low nibble is looked up, its high nibble is left in the register. */
  lemma HighNibbleWaits(crc: bv32, x: bv32)
    requires IsByte(x)
    ensures FourBits(Mix(crc, x)) == Mix(NibbleStep(crc, x), High(x))
  {
    hide FourBits, NibbleStep;
    FourBitsIsOneLookup(Mix(crc, x));
    LookupOfMix(crc, x);
  }

  lemma LookupOfMix(crc: bv32, x: bv32)
    requires IsByte(x)
    ensures NibbleStep(Mix(crc, x), 0) == Mix(NibbleStep(crc, x), High(x))
  {}

  lemma NothingAboveByte(x: bv32, c: bv32)
    requires IsByte(x)
    ensures IsByte(High(x)) && Mix(c, High(High(x))) == c
  {}

  lemma TwoLookupsAreEightBits(crc: bv32, x: bv32)
    requires IsByte(x)
    ensures ByteStep(crc, x) == FourBits(FourBits(Mix(crc, x)))
  {
    hide NibbleStep, FourBits, Mix, High, IsByte;
    var c := NibbleStep(crc, x);
    HighNibbleWaits(crc, x);
    NothingAboveByte(x, NibbleStep(c, High(x)));
    HighNibbleWaits(c, High(x));
  }

  lemma WordJoins(n: nat)
    ensures Word(n) == Join(Word(n / 2), n % 2 == 1)
  {}

  /** `w` has at most `k` bits. */
  predicate Fits(w: bv32, k: nat)
    requires k <= 8
  {
    match k
    case 0 => w == 0 case 1 => w <= 1 case 2 => w <= 3 case 3 => w <= 7 case 4 => w <= 0xF
    case 5 => w <= 0x1F case 6 => w <= 0x3F case 7 => w <= 0x7F case _ => w <= 0xFF
  }

  lemma JoinFits(w: bv32, bit: bool, k: nat)
    requires k <= 7 && Fits(w, k)
    ensures Fits(Join(w, bit), k + 1)
  {}

  lemma {:induction false} WordFits(n: nat, k: nat)
    requires k <= 8 && n < [1, 2, 4, 8, 16, 32, 64, 128, 256][k]
    ensures Fits(Word(n), k)
  {
    hide Join;
    if k > 0 {
      hide Fits;
      WordFits(n / 2, k - 1);
      WordJoins(n);
      JoinFits(Word(n / 2), n % 2 == 1, k - 1);
    }
  }

  lemma WordIsByte(b: byte)
    ensures IsByte(Word(b))
  {
    WordFits(b, 8);
  }

  lemma {:induction false} RunIsBitwise(crc: bv32, data: seq<byte>)
    ensures Run(crc, data) == BitwiseRun(crc, data)
    decreases |data|
  {
    hide ByteStep, FourBits, Word, IsByte;
    if data != [] {
      var x := Word(data[0]);
      WordIsByte(data[0]);
      TwoLookupsAreEightBits(crc, x);
      RunIsBitwise(ByteStep(crc, x), data[1..]);
    }
  }

  /** Complement, shift all bytes through the register bit by bit, complement. */
  lemma Crc32IsBitwise(data: seq<byte>, start: Crc)
    ensures Crc32(data, start).bits == !BitwiseRun(!start.bits, data)
  {
    hide *;
    var register := !start.bits;
    StartComplemented(start.bits, register, data);
    Crc32Is(data, start);
    ComplementIs(BitwiseRun(register, data));
  }

  lemma Crc32Is(data: seq<byte>, start: Crc)
    ensures Crc32(data, start).bits == Complement(Run(Complement(start.bits), data))
  {}

  lemma StartComplemented(x: bv32, register: bv32, data: seq<byte>)
    requires register == !x
    ensures Complement(Run(Complement(x), data)) == Complement(BitwiseRun(register, data))
  {
    hide *;
    RunIsBitwise(register, data);
    ComplementIs(x);
  }

  lemma ComplementIs(x: bv32)
    ensures Complement(x) == !x
  {}

  lemma JoinValue(w: bv32, bit: bool)
    requires w <= 0x7F
    ensures Join(w, bit) as int == 2 * (w as int) + (if bit then 1 else 0)
  {}

  lemma {:induction false} WordValueWithin(n: nat, k: nat)
    requires k <= 8 && n < [1, 2, 4, 8, 16, 32, 64, 128, 256][k]
    ensures Word(n) as int == n
  {
    hide Word, Join, Fits;
    if k == 0 {
      WordOfZero();
    } else {
      WordFits(n / 2, k - 1);
      WordValueWithin(n / 2, k - 1);
      FitsBelowByte(Word(n / 2), k - 1);
      WordJoins(n);
      JoinValue(Word(n / 2), n % 2 == 1);
    }
  }

  lemma FitsBelowByte(w: bv32, k: nat)
    requires k <= 7 && Fits(w, k)
    ensures w <= 0x7F
  {}

  /** The word that enters the register for a byte is its value. */
  lemma WordValue(b: byte)
    ensures Word(b) as int == b
  {
    WordValueWithin(b, 8);
  }

  /** Two values: of no bytes, and of one byte 0. */
  lemma KnownValues()
    ensures Crc32([], ZERO).bits == 0
    ensures Crc32([0], ZERO).bits == 0xD202_EF8D
  {
    assert [0][1..] == [];
    assert Run(0xFFFF_FFFF, [0]) == Run(ByteStep(0xFFFF_FFFF, Word(0)), []);
  }

  // ----- Chaining -----

  lemma {:induction false} RunConcat(crc: bv32, a: seq<byte>, b: seq<byte>)
    ensures Run(crc, a + b) == Run(Run(crc, a), b)
    decreases |a|
  {
    hide ByteStep, Word;
    if a == [] {
      assert a + b == b;
    } else {
      RunConcat(ByteStep(crc, Word(a[0])), a[1..], b);
      assert (a + b)[1..] == a[1..] + b;
    }
  }

  lemma ComplementTwice(x: bv32)
    ensures Complement(Complement(x)) == x
  {}

  lemma Crc32Concat(a: seq<byte>, b: seq<byte>, start: Crc)
    ensures Crc32(a + b, start) == Crc32(b, Crc32(a, start))
  {
    hide Run, Complement;
    RunConcat(Complement(start.bits), a, b);
    ComplementTwice(Run(Complement(start.bits), a));
  }

  // ----- Burst detection -----

  /** Two registers agree on the bits of a mask. */
  predicate Agree(c: bv32, d: bv32, m: bv32) { c & m == d & m }

  /** The mask of the bits above the lowest `k` nibbles. */
  function Above(k: nat): bv32 {
    match k
    case 0 => 0xFFFF_FFFF case 1 => 0xFFFF_FFF0 case 2 => 0xFFFF_FF00 case 3 => 0xFFFF_F000
    case 4 => 0xFFFF_0000 case 5 => 0xFFF0_0000 case 6 => 0xFF00_0000 case 7 => 0xF000_0000
    case _ => 0
  }

  const TOP: bv32 := 0xF000_0000

  lemma RowTopsDistinct(i: bv32, j: bv32)
    requires i <= 0xF && j <= 0xF && Agree(Row(i), Row(j), TOP)
    ensures i == j
  {}

  lemma AgreeOnTop(c: bv32, d: bv32, k: nat)
    requires k <= 7 && Agree(c, d, Above(k))
    ensures Agree(c, d, TOP)
  {}

  lemma IndexIsNibble(c: bv32, x: bv32)
    ensures Index(c, x) <= 0xF
  {}

  lemma TopIsRow(c: bv32, x: bv32, d: bv32, y: bv32)
    requires Agree(NibbleStep(c, x), NibbleStep(d, y), TOP)
    ensures Agree(Row(Index(c, x)), Row(Index(d, y)), TOP)
  {
    hide Row, Index;
  }

  lemma SameRowCancels(t: bv32, c: bv32, d: bv32, k: nat)
    requires k <= 7 && Agree(ShiftOut(t, c), ShiftOut(t, d), Above(k))
    ensures Agree(c, d, Above(k + 1))
  {}

  lemma SameIndexCancels(c: bv32, x: bv32, d: bv32, y: bv32, k: nat)
    requires k <= 7 && Agree(NibbleStep(c, x), NibbleStep(d, y), Above(k))
    requires Index(c, x) == Index(d, y)
    ensures Agree(c, d, Above(k + 1))
  {
    hide Row, Index, ShiftOut, Agree, Above;
    SameRowCancels(Row(Index(c, x)), c, d, k);
  }

  /** Equal results above `k` nibbles fix the table index and the registers above `k + 1`
      nibbles: the rows of the table have sixteen distinct top nibbles. */
  lemma NibbleStepBack(c: bv32, d: bv32, x: bv32, y: bv32, k: nat)
    requires k <= 7 && Agree(NibbleStep(c, x), NibbleStep(d, y), Above(k))
    ensures Index(c, x) == Index(d, y)
    ensures Agree(c, d, Above(k + 1))
  {
    hide NibbleStep, Row, Index, Agree, Above;
    AgreeOnTop(NibbleStep(c, x), NibbleStep(d, y), k);
    TopIsRow(c, x, d, y);
    IndexIsNibble(c, x);
    IndexIsNibble(d, y);
    RowTopsDistinct(Index(c, x), Index(d, y));
    SameIndexCancels(c, x, d, y, k);
  }

  lemma ByteStepBack(c: bv32, d: bv32, x: bv32, y: bv32, k: nat)
    requires k <= 6 && Agree(ByteStep(c, x), ByteStep(d, y), Above(k))
    ensures Index(c, x) == Index(d, y)
    ensures Index(NibbleStep(c, x), High(x)) == Index(NibbleStep(d, y), High(y))
    ensures Agree(c, d, Above(k + 2))
  {
    hide NibbleStep, Index, Agree, Above, High;
    NibbleStepBack(NibbleStep(c, x), NibbleStep(d, y), High(x), High(y), k);
    NibbleStepBack(c, d, x, y, k + 1);
  }

  lemma {:induction false} RunBack(c: bv32, d: bv32, v: seq<byte>, w: seq<byte>)
    requires |v| == |w| <= 3
    requires Run(c, v) == Run(d, w)
    ensures Agree(c, d, Above(2 * |v|))
    decreases |v|
  {
    hide ByteStep, Word, Above;
    if |v| > 0 {
      RunBack(ByteStep(c, Word(v[0])), ByteStep(d, Word(w[0])), v[1..], w[1..]);
      ByteStepBack(c, d, Word(v[0]), Word(w[0]), 2 * (|v| - 1));
    }
  }

  lemma SameIndexSameNibble(c: bv32, x: bv32, y: bv32)
    requires Index(c, x) == Index(c, y)
    ensures x & 0xF == y & 0xF
    ensures NibbleStep(c, x) == NibbleStep(c, y)
  {}

  lemma NibblesMakeByte(x: bv32, y: bv32)
    requires IsByte(x) && IsByte(y)
    requires x & 0xF == y & 0xF && High(x) & 0xF == High(y) & 0xF
    ensures x == y
  {}

  lemma JoinInjective(u: bv32, v: bv32, p: bool, q: bool)
    requires IsByte(u) && IsByte(v) && Join(u, p) == Join(v, q)
    ensures u == v && p == q
  {}

  lemma FitsInByte(w: bv32, k: nat)
    requires k <= 8 && Fits(w, k)
    ensures IsByte(w)
  {}

  lemma {:induction false} WordInjective(a: nat, b: nat, k: nat)
    requires k <= 8 && a < [1, 2, 4, 8, 16, 32, 64, 128, 256][k] && b < [1, 2, 4, 8, 16, 32, 64, 128, 256][k]
    requires Word(a) == Word(b)
    ensures a == b
  {
    hide Word, Join, Fits, IsByte;
    if k > 0 {
      WordFits(a / 2, k - 1);
      WordFits(b / 2, k - 1);
      FitsInByte(Word(a / 2), k - 1);
      FitsInByte(Word(b / 2), k - 1);
      WordJoins(a);
      WordJoins(b);
      JoinInjective(Word(a / 2), Word(b / 2), a % 2 == 1, b % 2 == 1);
      WordInjective(a / 2, b / 2, k - 1);
    }
  }

  /** From one register, two windows of at most four bytes with the same result are equal. */
  lemma {:induction false} WindowInjective(c: bv32, v: seq<byte>, w: seq<byte>)
    requires |v| == |w| <= 4
    requires Run(c, v) == Run(c, w)
    ensures v == w
    decreases |v|
  {
    hide ByteStep, NibbleStep, Index, Word, Above, Agree, High, IsByte;
    if |v| > 0 {
      var x, y := Word(v[0]), Word(w[0]);
      RunBack(ByteStep(c, x), ByteStep(c, y), v[1..], w[1..]);
      ByteStepBack(c, c, x, y, 2 * (|v| - 1));
      SameIndexSameNibble(c, x, y);
      SameIndexSameNibble(NibbleStep(c, x), High(x), High(y));
      WordIsByte(v[0]);
      WordIsByte(w[0]);
      NibblesMakeByte(x, y);
      WordInjective(v[0], w[0], 8);
      WindowInjective(ByteStep(c, x), v[1..], w[1..]);
      assert v == [v[0]] + v[1..] && w == [w[0]] + w[1..];
    }
  }

  lemma LowNibbleAndRest(c: bv32, d: bv32, x: bv32)
    requires Index(c, x) == Index(d, x) && Agree(c, d, Above(1))
    ensures c == d
  {}

  lemma AgreeEverywhere(c: bv32, d: bv32)
    ensures Agree(c, d, Above(0)) <==> c == d
  {
    AllBits(c);
    AllBits(d);
  }

  lemma AllBits(c: bv32)
    ensures c & Above(0) == c
  {}

  lemma {:induction false} RunInjective(c: bv32, d: bv32, s: seq<byte>)
    requires Run(c, s) == Run(d, s)
    ensures c == d
    decreases |s|
  {
    hide ByteStep, NibbleStep, Index, Word, Above, Agree, High;
    if s != [] {
      var x := Word(s[0]);
      RunInjective(ByteStep(c, x), ByteStep(d, x), s[1..]);
      ByteStepInjective(c, d, x);
    }
  }

  lemma ByteStepInjective(c: bv32, d: bv32, x: bv32)
    requires ByteStep(c, x) == ByteStep(d, x)
    ensures c == d
  {
    hide NibbleStep, Index, Above, Agree, High;
    var c1, d1 := NibbleStep(c, x), NibbleStep(d, x);
    AgreeEverywhere(NibbleStep(c1, High(x)), NibbleStep(d1, High(x)));
    NibbleStepBack(c1, d1, High(x), High(x), 0);
    LowNibbleAndRest(c1, d1, High(x));
    AgreeEverywhere(c1, d1);
    NibbleStepBack(c, d, x, x, 0);
    LowNibbleAndRest(c, d, x);
  }

  predicate SameOutside(a: seq<byte>, b: seq<byte>, lo: nat, hi: nat) {
    |a| == |b| && lo <= hi <= |a| && a[..lo] == b[..lo] && a[hi..] == b[hi..]
  }

  lemma PiecesMakeWhole(a: seq<byte>, lo: nat, hi: nat)
    requires lo <= hi <= |a|
    ensures a == a[..lo] + a[lo..hi] + a[hi..]
  {}

  lemma RunPieces(c: bv32, a: seq<byte>, lo: nat, hi: nat)
    requires lo <= hi <= |a|
    ensures Run(c, a) == Run(Run(Run(c, a[..lo]), a[lo..hi]), a[hi..])
  {
    hide Run;
    RunConcat(c, a[..lo], a[lo..hi]);
    RunConcat(c, a[..lo] + a[lo..hi], a[hi..]);
    PiecesMakeWhole(a, lo, hi);
  }

  /** Two different byte strings that agree outside a window of at most four bytes never
      have the same CRC. */
  lemma BurstDetected(a: seq<byte>, b: seq<byte>, lo: nat, hi: nat, start: Crc)
    requires SameOutside(a, b, lo, hi) && hi - lo <= 4 && a != b
    ensures Crc32(a, start) != Crc32(b, start)
  {
    hide Run, Complement;
    PiecesMakeWhole(a, lo, hi);
    PiecesMakeWhole(b, lo, hi);
    if Crc32(a, start) == Crc32(b, start) {
      var c := Complement(start.bits);
      ComplementTwice(Run(c, a));
      ComplementTwice(Run(c, b));
      RunPieces(c, a, lo, hi);
      RunPieces(c, b, lo, hi);
      var head := Run(c, a[..lo]);
      RunInjective(Run(head, a[lo..hi]), Run(head, b[lo..hi]), a[hi..]);
      WindowInjective(head, a[lo..hi], b[lo..hi]);
    }
  }

  // ----- A register on the wire, most significant byte first -----

  function Shift8(w: bv32, x: bv32): bv32 { (w << 8) | x }

  /** A received CRC takes one more byte. */
  function Glue(w: Crc, b: byte): Crc { Crc(Shift8(w.bits, Word(b))) }

  function Octet(w: bv32, i: nat): bv32
    requires i < 4
  {
    match i
    case 0 => w & 0xFF case 1 => (w >> 8) & 0xFF case 2 => (w >> 16) & 0xFF case _ => (w >> 24) & 0xFF
  }

  /** The number held in the lowest `bits` bits. */
  function Number(w: bv32, bits: nat): (n: nat)
    requires bits <= 8
    ensures n < [1, 2, 4, 8, 16, 32, 64, 128, 256][bits]
  {
    if bits == 0 then 0 else 2 * Number(Half(w), bits - 1) + (if Even(w) then 0 else 1)
  }

  function CrcBytes(w: Crc): (r: seq<byte>)
    ensures |r| == 4
  {
    [Number(Octet(w.bits, 3), 8), Number(Octet(w.bits, 2), 8), Number(Octet(w.bits, 1), 8), Number(Octet(w.bits, 0), 8)]
  }

  /** The CRC after taking in `bytes` one by one. */
  function GlueAll(w: Crc, bytes: seq<byte>): Crc
    decreases |bytes|
  {
    if bytes == [] then w else GlueAll(Glue(w, bytes[0]), bytes[1..])
  }

  lemma HalfFits(w: bv32, k: nat)
    requires 1 <= k <= 8 && Fits(w, k)
    ensures Fits(Half(w), k - 1) && w == Join(Half(w), !Even(w))
  {}

  lemma NothingFitsInNoBits(w: bv32)
    requires Fits(w, 0)
    ensures w == 0
  {}

  lemma {:induction false} WordOfNumber(w: bv32, k: nat)
    requires k <= 8 && Fits(w, k)
    ensures Word(Number(w, k)) == w
    decreases k
  {
    hide Word, Join, Half, Even, Fits;
    if k == 0 {
      NothingFitsInNoBits(w);
      WordOfZero();
    } else {
      HalfFits(w, k);
      WordOfNumber(Half(w), k - 1);
      WordJoins(Number(w, k));
      assert Number(w, k) / 2 == Number(Half(w), k - 1) && (Number(w, k) % 2 == 1 <==> !Even(w));
    }
  }

  lemma WordOfZero()
    ensures Word(0) == 0
  {}

  lemma OctetFits(w: bv32, i: nat)
    requires i < 4
    ensures Fits(Octet(w, i), 8)
  {}

  lemma OctetsMakeWord(w: bv32)
    ensures Shift8(Shift8(Shift8(Shift8(0, Octet(w, 3)), Octet(w, 2)), Octet(w, 1)), Octet(w, 0)) == w
  {}

  lemma GlueFour(b: seq<byte>)
    requires |b| == 4
    ensures GlueAll(ZERO, b).bits == Shift8(Shift8(Shift8(Shift8(0, Word(b[0])), Word(b[1])), Word(b[2])), Word(b[3]))
  {
    hide Shift8, Word;
    var w1 := Glue(ZERO, b[0]);
    var w2 := Glue(w1, b[1]);
    var w3 := Glue(w2, b[2]);
    assert b[1..][1..] == b[2..] && b[2..][1..] == b[3..] && b[3..][1..] == [];
    assert GlueAll(ZERO, b) == GlueAll(w1, b[1..]) == GlueAll(w2, b[2..]) == GlueAll(w3, b[3..]);
    assert GlueAll(w3, b[3..]) == GlueAll(Glue(w3, b[3]), []);
  }

  lemma GlueCrcBytes(w: Crc)
    ensures GlueAll(ZERO, CrcBytes(w)) == w
  {
    hide Shift8, Word, Number, Fits, Octet;
    forall i | 0 <= i < 4
      ensures Word(Number(Octet(w.bits, i), 8)) == Octet(w.bits, i)
    {
      OctetFits(w.bits, i);
      WordOfNumber(Octet(w.bits, i), 8);
    }
    GlueFour(CrcBytes(w));
    OctetsMakeWord(w.bits);
  }

  lemma FourOctets(a: bv32, b: bv32, c: bv32, d: bv32, e: bv32, f: bv32, g: bv32, h: bv32)
    requires IsByte(a) && IsByte(b) && IsByte(c) && IsByte(d) && IsByte(e) && IsByte(f) && IsByte(g) && IsByte(h)
    requires Shift8(Shift8(Shift8(Shift8(0, a), b), c), d) == Shift8(Shift8(Shift8(Shift8(0, e), f), g), h)
    ensures a == e && b == f && c == g && d == h
  {}

  lemma {:induction false} NumberValue(w: bv32, k: nat)
    requires k <= 8 && Fits(w, k)
    ensures Number(w, k) == w as int
    decreases k
  {
    hide Half, Even, Fits;
    if k == 0 {
      NothingFitsInNoBits(w);
    } else {
      HalfFits(w, k);
      hide Join;
      NumberValue(Half(w), k - 1);
      HalfValue(w, Half(w), Even(w), k - 1);
    }
  }

  lemma HalfValue(w: bv32, half: bv32, even: bool, k: nat)
    requires k <= 7 && Fits(half, k) && w == Join(half, !even)
    ensures w as int == 2 * (half as int) + (if even then 0 else 1)
  {
    hide *;
    FitsBelowByte(half, k);
    JoinValue(half, !even);
  }

  lemma ByteNumberValue(w: bv32)
    requires IsByte(w)
    ensures Number(w, 8) == w as int
  {
    ByteFits(w);
    hide IsByte, Number;
    NumberValue(w, 8);
  }

  lemma ByteFits(w: bv32)
    requires IsByte(w)
    ensures Fits(w, 8)
  {}

  lemma OctetsAre(w: bv32)
    ensures Octet(w, 3) == w >> 24 && Octet(w, 2) == (w >> 16) & 0xFF
    ensures Octet(w, 1) == (w >> 8) & 0xFF && Octet(w, 0) == w & 0xFF
    ensures forall i | 0 <= i < 4 :: IsByte(Octet(w, i))
  {}

  /** On the wire a CRC is its value, most significant byte first. */
  lemma CrcBytesAreBigEndian(w: Crc)
    ensures
      var b := CrcBytes(w);
      && b[0] == (w.bits >> 24) as int && b[1] == ((w.bits >> 16) & 0xFF) as int
      && b[2] == ((w.bits >> 8) & 0xFF) as int && b[3] == (w.bits & 0xFF) as int
  {
    hide Number, Octet, IsByte;
    OctetsAre(w.bits);
    ByteNumberValue(Octet(w.bits, 3));
    ByteNumberValue(Octet(w.bits, 2));
    ByteNumberValue(Octet(w.bits, 1));
    ByteNumberValue(Octet(w.bits, 0));
  }

  /** The four wire bytes of a CRC are the only ones that give it back. */
  lemma CrcBytesUnique(b: seq<byte>, w: Crc)
    requires |b| == 4
    ensures GlueAll(ZERO, b) == w <==> b == CrcBytes(w)
  {
    hide Shift8, Word, GlueAll, CrcBytes, IsByte;
    GlueCrcBytes(w);
    if GlueAll(ZERO, b) == w {
      var c := CrcBytes(w);
      GlueFour(b);
      GlueFour(c);
      forall j | 0 <= j < 4
        ensures IsByte(Word(b[j])) && IsByte(Word(c[j]))
      {
        WordIsByte(b[j]);
        WordIsByte(c[j]);
      }
      FourOctets(Word(b[0]), Word(b[1]), Word(b[2]), Word(b[3]), Word(c[0]), Word(c[1]), Word(c[2]), Word(c[3]));
      forall i | 0 <= i < 4
        ensures b[i] == c[i]
      {
        WordInjective(b[i], c[i], 8);
      }
    }
  }
}
