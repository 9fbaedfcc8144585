/**
  The multiply/divide extension, as sections 7.1 and 7.2 of the RISC-V Unprivileged ISA
  (20191213) define its results. This is the yardstick for the two execution units.
 */
module RiscV {
  import opened Arithmetic
  import opened Bits

  const INT_MIN: i32 := -0x8000_0000

  datatype Operation = MUL | MULH | MULHU | MULHSU | DIV | DIVU | REM | REMU

  predicate IsDivision(op: Operation) {
    op.DIV? || op.DIVU? || op.REM? || op.REMU?
  }

  predicate IsMultiplication(op: Operation) {
    !IsDivision(op)
  }

  predicate IsSignedDivision(op: Operation) {
    op.DIV? || op.REM?
  }

  function Abs(x: int): nat {
    if x < 0 then -x else x
  }

  /** Division rounding towards zero. */
  function Truncated(x: int, d: int): int
    requires d != 0
  {
    if (x < 0) == (d < 0) then Abs(x) / Abs(d) else -(Abs(x) / Abs(d))
  }

  /** What a division instruction writes to its destination register (section 7.2). */
  function Divide(op: Operation, x: i32, d: i32): i32
    requires IsDivision(op)
  {
    if op == DIV then
      if d == 0 then -1
      else if x == INT_MIN && d == -1 then INT_MIN
      else DivideFits(x, d); Truncated(x, d)
    else if op == REM then
      if d == 0 then x
      else if x == INT_MIN && d == -1 then 0
      else RemainderFits(x, d); x - d * Truncated(x, d)
    else if op == DIVU then
      if d == 0 then -1
      else DivBounds(ToUnsigned(x), ToUnsigned(d)); ToSigned(ToUnsigned(x) / ToUnsigned(d))
    else
      if d == 0 then x
      else DivMod(ToUnsigned(x), ToUnsigned(d)); ToSigned(ToUnsigned(x) % ToUnsigned(d))
  }

  /** What a multiplication writes to its destination register (section 7.1). */
  function Multiply(op: Operation, x: i32, y: i32): i32
    requires IsMultiplication(op)
  {
    if op == MUL then ToSigned((x * y) % TWO_32)
    else if op == MULH then ToSigned((x * y / TWO_32) % TWO_32)
    else if op == MULHU then ToSigned((ToUnsigned(x) * ToUnsigned(y) / TWO_32) % TWO_32)
    else ToSigned((x * ToUnsigned(y) / TWO_32) % TWO_32)
  }

  lemma DivideFits(x: i32, d: i32)
    requires d != 0 && !(x == INT_MIN && d == -1)
    ensures INT_MIN <= Truncated(x, d) < 0x8000_0000
  {
    DivBounds(Abs(x), Abs(d));
  }

  lemma RemainderFits(x: i32, d: i32)
    requires d != 0
    ensures Abs(x - d * Truncated(x, d)) == Abs(x) % Abs(d) < Abs(d)
    ensures x - d * Truncated(x, d) != 0 ==> (x - d * Truncated(x, d) < 0 <==> x < 0)
  {
    DivMod(Abs(x), Abs(d));
    var q := Abs(x) / Abs(d);
    assert d * Truncated(x, d) == if x < 0 then -(Abs(d) * q) else Abs(d) * q;
  }

  /**
    The defining law of signed division: quotient and remainder of the two instructions fit
    together, the remainder is smaller than the divisor and takes the sign of the dividend.
    It holds for every pair with a non-zero divisor except the overflowing one, where the
    law holds modulo 2^32.
   */
  lemma DivisionLaw(x: i32, d: i32)
    requires d != 0
    ensures (x - (d * Divide(DIV, x, d) + Divide(REM, x, d))) % TWO_32 == 0
    ensures !(x == INT_MIN && d == -1) ==> x == d * Divide(DIV, x, d) + Divide(REM, x, d)
    ensures Abs(Divide(REM, x, d)) < Abs(d)
    ensures Divide(REM, x, d) != 0 ==> (Divide(REM, x, d) < 0 <==> x < 0)
  {
    RemainderFits(x, d);
  }

  lemma UnsignedDivisionLaw(x: i32, d: i32)
    requires d != 0
    ensures ToUnsigned(x) == ToUnsigned(d) * ToUnsigned(Divide(DIVU, x, d)) + ToUnsigned(Divide(REMU, x, d))
    ensures ToUnsigned(Divide(REMU, x, d)) < ToUnsigned(d)
  {
    DivMod(ToUnsigned(x), ToUnsigned(d));
    DivBounds(ToUnsigned(x), ToUnsigned(d));
  }

  /** Without a divisor the quotient has all bits set and the remainder is the dividend. */
  lemma ZeroDivisorLaw(x: i32)
    ensures ToUnsigned(Divide(DIV, x, 0)) == ToUnsigned(Divide(DIVU, x, 0)) == TWO_32 - 1
    ensures Divide(REM, x, 0) == Divide(REMU, x, 0) == x
  {
  }

  lemma ProductBounds(a: int, b: int)
    requires -0x8000_0000 <= a < 0x8000_0000 && -0x8000_0000 <= b < TWO_32
    ensures -0x8000_0000 * TWO_32 <= a * b < 0x8000_0000 * TWO_32
  {
    if a >= 0 {
      MulMonotone(a, b, TWO_32);
      MulMonotone(a, -0x8000_0000, b);
    } else {
      MulMonotone(-a, b, TWO_32);
      MulMonotone(-a, -0x8000_0000, b);
    }
  }

  /** The two words of a product that fits into 64 bits, signed. */
  lemma {:induction false} WordsOf(p: int)
    requires -0x8000_0000 * TWO_32 <= p < 0x8000_0000 * TWO_32
    ensures ToUnsigned(ToSigned(p % TWO_32)) + TWO_32 * ToSigned(p / TWO_32 % TWO_32) == p
  {
    DivMod(p, TWO_32);
    var q := p / TWO_32;
    assert -0x8000_0000 <= q < 0x8000_0000;
    DivModUnique(q, TWO_32, if q < 0 then -1 else 0, ToUnsigned(q));
  }

  lemma {:induction false} UnsignedWordsOf(p: nat)
    requires p < TWO_64
    ensures ToUnsigned(ToSigned(p % TWO_32)) + TWO_32 * ToUnsigned(ToSigned(p / TWO_32 % TWO_32)) == p
  {
    DivMod(p, TWO_32);
    DivModUnique(p / TWO_32, TWO_32, 0, p / TWO_32);
  }

  /** The low word does not depend on how the operands are read. */
  lemma {:induction false} LowWords(x: i32, y: i32)
    ensures x * ToUnsigned(y) % TWO_32 == x * y % TWO_32 == ToUnsigned(x) * ToUnsigned(y) % TWO_32
  {
    var a, b := if x < 0 then 1 else 0, if y < 0 then 1 else 0;
    assert x * ToUnsigned(y) == x * y + x * b * TWO_32;
    ModAddMultiple(x * y, x * b, TWO_32);
    assert ToUnsigned(x) * ToUnsigned(y) == x * ToUnsigned(y) + a * ToUnsigned(y) * TWO_32;
    ModAddMultiple(x * ToUnsigned(y), a * ToUnsigned(y), TWO_32);
  }

  lemma {:induction false} UnsignedProductFits(x: u32, y: u32)
    ensures 0 <= x * y < TWO_64
  {
    MulMonotone(x, y, TWO_32 - 1);
    MulMonotone(TWO_32 - 1, x, TWO_32 - 1);
    MulMonotone(x, 0, y);
  }

  /**
    The defining law of multiplication: the low word and each of the high words together are the
    whole product, of both operands signed, of a signed and an unsigned one, and of both unsigned.
   */
  lemma {:induction false} MultiplicationLaw(x: i32, y: i32)
    ensures ToUnsigned(Multiply(MUL, x, y)) + TWO_32 * Multiply(MULH, x, y) == x * y
    ensures ToUnsigned(Multiply(MUL, x, y)) + TWO_32 * Multiply(MULHSU, x, y) == x * ToUnsigned(y)
    ensures ToUnsigned(Multiply(MUL, x, y)) + TWO_32 * ToUnsigned(Multiply(MULHU, x, y))
         == ToUnsigned(x) * ToUnsigned(y)
  {
    hide ToUnsigned, ToSigned;
    LowWords(x, y);
    ProductBounds(x, y);
    ProductBounds(x, ToUnsigned(y));
    UnsignedProductFits(ToUnsigned(x), ToUnsigned(y));
    var signed, mixed, unsigned := x * y, x * ToUnsigned(y), ToUnsigned(x) * ToUnsigned(y);
    WordsOf(signed);
    WordsOf(mixed);
    UnsignedWordsOf(unsigned);
  }
}
