/**
  Bitwise arithmetic on natural numbers.

  The program computes on unsigned machine words. Here a word is the natural number it denotes:
  a left shift is a multiplication by a power of two, a right shift a division, and masking with
  2^n - 1 is taking the remainder modulo 2^n. The bitwise operators themselves are defined bit by
  bit below, so that carry-save adders and history folds can be written as the program writes them.
 */
module Bits {
  import opened Arithmetic

  const TWO_32: nat := 0x1_0000_0000
  const TWO_64: nat := 0x1_0000_0000_0000_0000

  type u8 = x: int | 0 <= x < 0x100
  type u32 = x: int | 0 <= x < 0x1_0000_0000
  type u64 = x: int | 0 <= x < 0x1_0000_0000_0000_0000
  type i32 = x: int | -0x8000_0000 <= x < 0x8000_0000

  /** The two's complement reading of a 32-bit pattern. */
  function ToSigned(x: u32): i32 {
    if x < 0x8000_0000 then x else x - TWO_32
  }

  /** The 32-bit pattern of a signed number. */
  function ToUnsigned(x: i32): u32 {
    if x >= 0 then x else x + TWO_32
  }

  function Pow2(n: nat): (p: nat)
    ensures p > 0
  {
    if n == 0 then 1 else 2 * Pow2(n - 1)
  }

  /** The number of bits needed to write n. */
  function BitWidth(n: nat): nat {
    if n == 0 then 0 else 1 + BitWidth(n / 2)
  }

  lemma {:induction false} BitWidthBounds(n: nat)
    requires n > 0
    ensures BitWidth(n) > 0 && Pow2(BitWidth(n) - 1) <= n < Pow2(BitWidth(n))
  {
    if n > 1 {
      BitWidthBounds(n / 2);
    }
  }

  lemma {:induction false} BitWidthUnique(n: nat, w: nat)
    requires w > 0 && Pow2(w - 1) <= n < Pow2(w)
    ensures BitWidth(n) == w
  {
    if w > 1 {
      BitWidthUnique(n / 2, w - 1);
    }
  }

  lemma {:induction false} BitWidthMonotone(m: nat, n: nat)
    requires m <= n
    ensures BitWidth(m) <= BitWidth(n)
  {
    if m > 0 {
      BitWidthMonotone(m / 2, n / 2);
    }
  }

  function Xor(a: nat, b: nat): nat
    decreases a + b
  {
    if a == 0 && b == 0 then 0 else 2 * Xor(a / 2, b / 2) + (a % 2 + b % 2) % 2
  }

  function And(a: nat, b: nat): nat
    decreases a + b
  {
    if a == 0 && b == 0 then 0 else 2 * And(a / 2, b / 2) + (if a % 2 == 1 && b % 2 == 1 then 1 else 0)
  }

  function Or(a: nat, b: nat): nat
    decreases a + b
  {
    if a == 0 && b == 0 then 0 else 2 * Or(a / 2, b / 2) + (if a % 2 == 1 || b % 2 == 1 then 1 else 0)
  }

  /** The majority of three words, bit by bit: the carries of a 3:2 compressor. */
  function Majority(a: nat, b: nat, c: nat): nat {
    Or(Or(And(a, b), And(a, c)), And(b, c))
  }

  /** A 3:2 compressor keeps the sum of its three inputs. */
  lemma {:induction false} CarrySaveSum(a: nat, b: nat, c: nat)
    ensures Xor(Xor(a, b), c) + 2 * Majority(a, b, c) == a + b + c
    decreases a + b + c
  {
    hide Xor, Majority;
    if a + b + c == 0 {
      EmptyColumns();
    } else {
      CarrySaveSum(a / 2, b / 2, c / 2);
      HalveMajority(a, b, c);
      HalveXor(a, b);
      HalveXor(Xor(a, b), c);
      FullAdder(a, b, c, Xor(Xor(a, b), c), Majority(a, b, c));
    }
  }

  lemma EmptyColumns()
    ensures Xor(Xor(0, 0), 0) == 0 && Majority(0, 0, 0) == 0
  {
  }

  /** One column of the compressor, on top of the columns to its left. */
  lemma FullAdder(a: nat, b: nat, c: nat, sum: nat, carry: nat)
    requires sum / 2 + 2 * (carry / 2) == a / 2 + b / 2 + c / 2
    requires sum % 2 == (a % 2 + b % 2 + c % 2) % 2
    requires carry % 2 == if a % 2 + b % 2 + c % 2 >= 2 then 1 else 0
    ensures sum + 2 * carry == a + b + c
  {
  }

  lemma {:induction false} HalveXor(a: nat, b: nat)
    ensures Xor(a, b) / 2 == Xor(a / 2, b / 2)
    ensures Xor(a, b) % 2 == (a % 2 + b % 2) % 2
  {
  }

  lemma {:induction false} HalveAnd(a: nat, b: nat)
    ensures And(a, b) / 2 == And(a / 2, b / 2)
    ensures And(a, b) % 2 == if a % 2 == 1 && b % 2 == 1 then 1 else 0
  {
  }

  lemma {:induction false} HalveOr(a: nat, b: nat)
    ensures Or(a, b) / 2 == Or(a / 2, b / 2)
    ensures Or(a, b) % 2 == if a % 2 == 1 || b % 2 == 1 then 1 else 0
  {
  }

  lemma {:induction false} HalveMajority(a: nat, b: nat, c: nat)
    ensures Majority(a, b, c) / 2 == Majority(a / 2, b / 2, c / 2)
    ensures Majority(a, b, c) % 2 == if a % 2 + b % 2 + c % 2 >= 2 then 1 else 0
  {
    HalveAnd(a, b);
    HalveAnd(a, c);
    HalveAnd(b, c);
    HalveOr(And(a, b), And(a, c));
    HalveOr(Or(And(a, b), And(a, c)), And(b, c));
  }

  lemma {:induction false} TwoWordSum(a: nat, b: nat)
    ensures Xor(a, b) + 2 * And(a, b) == a + b
    decreases a + b
  {
    if a + b > 0 {
      TwoWordSum(a / 2, b / 2);
    }
  }

  lemma Pow2SmallValues()
    ensures Pow2(1) == 2 && Pow2(2) == 4 && Pow2(4) == 0x10 && Pow2(8) == 0x100
  {
  }

  lemma Pow2Of16()
    ensures Pow2(16) == 0x1_0000
  {
    Pow2SmallValues();
    Pow2Add(8, 8);
  }

  lemma Pow2Of32()
    ensures Pow2(32) == TWO_32
  {
    Pow2Of16();
    Pow2Add(16, 16);
  }

  /** A number that leaves m when its k low bits are dropped has k bits more than m. */
  lemma {:induction false} ShiftedWidth(n: nat, m: nat, r: nat, k: nat, p: nat)
    requires p == Pow2(k) && m > 0 && n == p * m + r && r < p
    ensures BitWidth(n) == BitWidth(m) + k
  {
    assert p * (m + 1) == p * m + p;
    WidthOfMultiple(n, m, k);
  }

  lemma {:induction false} WidthOfMultiple(n: nat, m: nat, k: nat)
    requires m > 0 && Pow2(k) * m <= n < Pow2(k) * (m + 1)
    ensures BitWidth(n) == k + BitWidth(m)
  {
    var w := BitWidth(m);
    BitWidthBounds(m);
    Pow2Add(k, w - 1);
    Pow2Add(k, w);
    MulMonotone(Pow2(k), Pow2(w - 1), m);
    MulMonotone(Pow2(k), m + 1, Pow2(w));
    BitWidthUnique(n, k + w);
  }

  lemma {:induction false} Pow2Add(m: nat, n: nat)
    ensures Pow2(m + n) == Pow2(m) * Pow2(n)
  {
    if m > 0 {
      Pow2Add(m - 1, n);
    }
  }

  /** The exclusive or with a mask of n ones complements an n-bit word. */
  lemma {:induction false} XorOnes(a: nat, n: nat)
    requires a < Pow2(n)
    ensures Xor(Pow2(n) - 1, a) == Pow2(n) - 1 - a
  {
    if n > 0 {
      XorOnes(a / 2, n - 1);
      OnesStep(2 * Pow2(n - 1) - 1, a);
    }
  }

  lemma {:induction false} OnesStep(ones: nat, a: nat)
    requires a <= ones && ones % 2 == 1 && Xor(ones / 2, a / 2) == ones / 2 - a / 2
    ensures Xor(ones, a) == ones - a
  {
    hide Xor;
    HalveXor(ones, a);
    SameHalves(Xor(ones, a), ones - a);
  }

  /** The exclusive or with a single bit sets it if it was clear and clears it if it was set. */
  lemma {:induction false} XorTopBit(a: nat, n: nat)
    requires a < 2 * Pow2(n)
    ensures Xor(a, Pow2(n)) == if a < Pow2(n) then a + Pow2(n) else a - Pow2(n)
  {
    if n > 0 {
      XorTopBit(a / 2, n - 1);
    } else {
      assert Xor(0, 1) == 1 && Xor(1, 1) == 0;
    }
  }

  lemma {:induction false} XorBound(a: nat, b: nat, n: nat)
    requires a < Pow2(n) && b < Pow2(n)
    ensures Xor(a, b) < Pow2(n)
  {
    if n > 0 {
      XorBound(a / 2, b / 2, n - 1);
      HalveXor(a, b);
    }
  }

  /** Setting a bit above all others. */
  lemma {:induction false} OrFreshBit(a: nat, n: nat)
    requires a < Pow2(n)
    ensures Or(a, Pow2(n)) == a + Pow2(n)
  {
    if n > 0 {
      OrFreshBit(a / 2, n - 1);
      HalveOr(a, Pow2(n));
    } else {
      assert Or(0, 1) == 1;
    }
  }

  lemma {:induction false} Pow2Monotone(m: nat, n: nat)
    requires m <= n
    ensures Pow2(m) <= Pow2(n)
  {
    if m > 0 {
      Pow2Monotone(m - 1, n - 1);
    }
  }

  // ---------- Exclusive or as an addition without carries

  lemma {:induction false} XorCommutes(a: nat, b: nat)
    ensures Xor(a, b) == Xor(b, a)
    decreases a + b
  {
    if a + b > 0 {
      XorCommutes(a / 2, b / 2);
    }
  }

  lemma {:induction false} XorAssociates(a: nat, b: nat, c: nat)
    ensures Xor(Xor(a, b), c) == Xor(a, Xor(b, c))
    decreases a + b + c
  {
    hide Xor;
    if a + b + c == 0 {
      XorZero(0);
    } else {
      XorAssociates(a / 2, b / 2, c / 2);
      HalveXor(a, b);
      HalveXor(b, c);
      HalveXor(Xor(a, b), c);
      HalveXor(a, Xor(b, c));
      SameHalves(Xor(Xor(a, b), c), Xor(a, Xor(b, c)));
    }
  }

  lemma SameHalves(x: nat, y: nat)
    requires x / 2 == y / 2 && x % 2 == y % 2
    ensures x == y
  {
  }

  lemma {:induction false} XorSelf(a: nat)
    ensures Xor(a, a) == 0
  {
    if a > 0 {
      XorSelf(a / 2);
    }
  }

  lemma {:induction false} XorZero(a: nat)
    ensures Xor(a, 0) == a && Xor(0, a) == a
  {
    if a > 0 {
      XorZero(a / 2);
    }
  }

  /** Adding a word twice cancels. */
  lemma XorCancels(a: nat, b: nat)
    ensures Xor(Xor(a, b), b) == a
  {
    hide Xor;
    XorAssociates(a, b, b);
    XorSelf(b);
    XorZero(a);
  }

  /** The word without its n low bits. */
  function ShiftRight(x: nat, n: nat): nat {
    DivBounds(x, Pow2(n));
    x / Pow2(n)
  }

  /** The n low bits of a word. */
  function LowBits(x: nat, n: nat): (r: nat)
    ensures r < Pow2(n)
  {
    x % Pow2(n)
  }

  /** One bit at the bottom of the shift or the mask. */
  lemma HalveShift(x: nat, n: nat)
    requires n > 0
    ensures ShiftRight(x, n) == ShiftRight(x / 2, n - 1)
    ensures LowBits(x, n) / 2 == LowBits(x / 2, n - 1) && LowBits(x, n) % 2 == x % 2
  {
    var p, q := Pow2(n - 1), x / Pow2(n);
    DivDiv(x, 2, p);
    DivMod(x, 2 * p);
    LowHalf(x, p, q, x % (2 * p));
  }

  lemma LowHalf(x: nat, p: nat, q: nat, r: nat)
    requires p > 0 && x == 2 * p * q + r && r < 2 * p
    ensures r / 2 == x / 2 % p && r % 2 == x % 2
  {
    MulAssociative(2, p, q);
    assert x / 2 == p * q + r / 2;
    DivModUnique(x / 2, p, q, r / 2);
  }

  lemma NoShift(x: nat)
    ensures ShiftRight(x, 0) == x && LowBits(x, 0) == 0
  {
  }

  /** Shifting right distributes over exclusive or. */
  lemma {:induction false} XorShift(a: nat, b: nat, n: nat)
    ensures ShiftRight(Xor(a, b), n) == Xor(ShiftRight(a, n), ShiftRight(b, n))
  {
    hide Xor, ShiftRight, LowBits;
    if n > 0 {
      XorShift(a / 2, b / 2, n - 1);
      HalveXor(a, b);
      HalveShift(a, n);
      HalveShift(b, n);
      HalveShift(Xor(a, b), n);
    } else {
      NoShift(a);
      NoShift(b);
      NoShift(Xor(a, b));
    }
  }

  /** So does masking. */
  lemma {:induction false} XorMask(a: nat, b: nat, n: nat)
    ensures LowBits(Xor(a, b), n) == Xor(LowBits(a, n), LowBits(b, n))
  {
    hide Xor, ShiftRight, LowBits;
    if n > 0 {
      XorMask(a / 2, b / 2, n - 1);
      HalveXor(a, b);
      HalveShift(a, n);
      HalveShift(b, n);
      HalveShift(Xor(a, b), n);
      HalveXor(LowBits(a, n), LowBits(b, n));
      SameHalves(LowBits(Xor(a, b), n), Xor(LowBits(a, n), LowBits(b, n)));
    } else {
      NoShift(a);
      NoShift(b);
      NoShift(Xor(a, b));
      XorZero(0);
    }
  }

  /** A word shifted up by n bits. */
  function ShiftLeft(x: nat, n: nat): nat {
    x * Pow2(n)
  }

  lemma HalveShiftLeft(x: nat, n: nat)
    requires n > 0
    ensures ShiftLeft(x, n) == 2 * ShiftLeft(x, n - 1)
  {
  }

  /** Words without a common bit add up. */
  lemma {:induction false} XorDisjoint(a: nat, k: nat, n: nat)
    requires a < Pow2(n)
    ensures Xor(a, ShiftLeft(k, n)) == a + ShiftLeft(k, n)
  {
    hide Xor, ShiftLeft;
    if n > 0 {
      XorDisjoint(a / 2, k, n - 1);
      HalveShiftLeft(k, n);
      HalveXor(a, ShiftLeft(k, n));
      SameHalves(Xor(a, ShiftLeft(k, n)), a + ShiftLeft(k, n));
    } else {
      XorZero(k);
      assert ShiftLeft(k, 0) == k by {
        NoShiftLeft(k);
      }
    }
  }

  lemma NoShiftLeft(x: nat)
    ensures ShiftLeft(x, 0) == x
  {
  }
}
