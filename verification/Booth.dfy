/**
  Radix-4 Booth multiplication on 64-bit words: sixteen digit rows, the fix-ups for unsigned
  operands, the row of +1 corrections, and a tree of 3:2 compressors that adds them up.
 */
module Booth {
  import opened Arithmetic
  import opened Bits
  import opened RiscV

  const ROWS: nat := 19

  function Sum(rows: seq<int>): int {
    if rows == [] then 0 else Sum(rows[..|rows| - 1]) + rows[|rows| - 1]
  }

  // ---------- Digits

  /** The digit of a window of three bits: the two low ones count up, the high one counts down twice. */
  function Digit(triple: nat): int {
    triple % 2 + triple / 2 % 2 - 2 * (triple / 4 % 2)
  }

  /** What is left of a multiplier after its low digits: w carries one extra bit at the bottom. */
  function Rest(w: nat): nat {
    (w + 1) / 2
  }

  lemma DigitOfWindow(w: nat)
    ensures Digit(w % 8) == w % 2 + w / 2 % 2 - 2 * (w / 4 % 2)
  {
    DivMod(w, 8);
    BitsOfWindow(w, w / 8, w % 8);
  }

  lemma BitsOfWindow(w: nat, h: nat, r: nat)
    requires w == 8 * h + r && r < 8
    ensures w % 2 == r % 2 && w / 2 % 2 == r / 2 % 2 && w / 4 % 2 == r / 4 % 2
  {
    DivModUnique(w, 2, 4 * h + r / 2, r % 2);
    DivModUnique(w / 2, 2, 2 * h + r / 4, r / 2 % 2);
    DivModUnique(w, 4, 2 * h + r / 4, r % 4);
    DivModUnique(w / 4, 2, h, r / 4 % 2);
  }

  lemma RestHalves(w: nat)
    ensures Rest(w) == w / 2 + w % 2
  {
  }

  /** One digit splits off. */
  lemma DigitSplits(w: nat)
    ensures Rest(w) == Digit(w % 8) + 4 * Rest(w / 4)
  {
    hide Rest, Digit;
    DigitOfWindow(w);
    RestHalves(w);
    RestHalves(w / 4);
    assert w / 2 == 2 * (w / 4) + w / 2 % 2 && w / 4 == 2 * (w / 4 / 2) + w / 4 % 2;
  }

  /** The value of the digits of y from position i on, scaled down. */
  function Window(y: nat, i: nat): nat {
    2 * y / Pow2(2 * i)
  }

  /** The window as the program extracts it. */
  function Triple(y: u32, i: nat): nat {
    if i == 0 then y % 4 * 2 else y / Pow2(2 * i - 1) % 8
  }

  lemma TripleIsWindow(y: u32, i: nat)
    ensures Triple(y, i) == Window(y, i) % 8
  {
    if i > 0 {
      assert Pow2(2 * i) == 2 * Pow2(2 * i - 1);
      DivDiv(2 * y, 2, Pow2(2 * i - 1));
    }
  }

  lemma NextWindow(y: nat, i: nat)
    ensures Window(y, i + 1) == Window(y, i) / 4
    ensures Pow2(2 * (i + 1)) == 4 * Pow2(2 * i)
  {
    assert Pow2(2 * i + 2) == 2 * Pow2(2 * i + 1) == 4 * Pow2(2 * i);
    DivDiv(2 * y, Pow2(2 * i), 4);
  }

  /** The digits below position i, weighted. */
  function DigitSum(y: u32, i: nat): int {
    if i == 0 then 0 else DigitSum(y, i - 1) + Digit(Triple(y, i - 1)) * Pow2(2 * (i - 1))
  }

  lemma {:induction false} DigitSumIs(y: u32, i: nat)
    ensures DigitSum(y, i) == y - Pow2(2 * i) * Rest(Window(y, i))
  {
    if i == 0 {
      assert Pow2(0) == 1 && Window(y, 0) == 2 * y;
    } else {
      hide Window, Rest, Digit;
      DigitSumIs(y, i - 1);
      TripleIsWindow(y, i - 1);
      DigitSplits(Window(y, i - 1));
      NextWindow(y, i - 1);
      Distribute(Pow2(2 * (i - 1)), Digit(Triple(y, i - 1)), Rest(Window(y, i)));
    }
  }

  lemma Distribute(p: int, d: int, r: int)
    ensures p * (d + 4 * r) == d * p + (4 * p) * r
  {
  }

  /** Sixteen digits give the multiplier read as a signed number. */
  lemma {:induction false} DigitsAreSigned(y: u32)
    ensures DigitSum(y, 16) == ToSigned(y)
  {
    hide Window, Rest, DigitSum, Pow2;
    DigitSumIs(y, 16);
    Pow2Of32();
    TopWindow(y);
  }

  lemma TopWindow(y: u32)
    ensures Rest(Window(y, 16)) == if y < 0x8000_0000 then 0 else 1
  {
    hide Pow2;
    Pow2Of32();
  }

  // ---------- Rows

  /** The 64-bit pattern of a number. */
  function Word(x: int): u64 {
    x % TWO_64
  }

  predicate Congruent(x: int, y: int) {
    (x - y) % TWO_64 == 0
  }

  lemma CongruentBy(x: int, y: int, k: int)
    requires x == y + k * TWO_64
    ensures Congruent(x, y)
  {
  }

  lemma WordIsCongruent(x: int)
    ensures Congruent(Word(x), x)
  {
  }

  lemma CongruentSum(x: int, y: int, x': int, y': int)
    requires Congruent(x, y) && Congruent(x', y')
    ensures Congruent(x + x', y + y')
  {
  }

  lemma CongruentProduct(x: int, y: int, k: int)
    requires Congruent(x, y)
    ensures Congruent(k * x, k * y)
  {
    var m := (x - y) / TWO_64;
    assert k * x == k * y + k * m * TWO_64 by {
      assert x == y + m * TWO_64;
      Distribute3(k, y, m, TWO_64);
    }
    CongruentBy(k * x, k * y, k * m);
  }

  lemma Distribute3(k: int, y: int, m: int, t: int)
    ensures k * (y + m * t) == k * y + k * m * t
  {
  }

  lemma CongruentTrans(x: int, y: int, z: int)
    requires Congruent(x, y) && Congruent(y, z)
    ensures Congruent(x, z)
  {
  }

  /** The multiple of the multiplicand that a window selects, before its sign. */
  function Multiple(triple: nat, a: u64): u64 {
    if triple == 1 || triple == 2 || triple == 5 || triple == 6 then a
    else if triple == 3 || triple == 4 then Word(2 * a)
    else 0
  }

  predicate Negative(triple: nat) {
    triple == 4 || triple == 5 || triple == 6
  }

  /** The row of a digit; a negative one is complemented. */
  function Row(triple: nat, a: u64): u64 {
    if Negative(triple) then TWO_64 - 1 - Multiple(triple, a) else Multiple(triple, a)
  }

  lemma DigitTable(triple: nat)
    requires triple < 8
    ensures Digit(triple) == if triple == 1 || triple == 2 then 1 else if triple == 3 then 2 else if triple == 4 then -2
                             else if triple == 5 || triple == 6 then -1 else 0
  {
  }

  /** Row and correction bit together are the digit times the multiplicand. */
  lemma RowIsDigit(triple: nat, x: i32)
    requires triple < 8
    ensures Congruent(Row(triple, Word(x)) + (if Negative(triple) then 1 else 0), Digit(triple) * x)
  {
    hide Digit;
    DigitTable(triple);
    var a := Word(x);
    var k := if x < 0 then 1 else 0;
    assert a == x + k * TWO_64;
    var l := if 2 * a >= TWO_64 then 1 else 0;
    assert Word(2 * a) == 2 * a - l * TWO_64;
    CongruentBy(0, 0, 0);
    CongruentBy(a, x, k);
    CongruentBy(Word(2 * a), 2 * x, 2 * k - l);
    CongruentBy(TWO_64 - Word(2 * a), -2 * x, 1 - 2 * k + l);
    var minus: int := -1 * x;
    CongruentBy(TWO_64 - a, minus, 1 - k);
  }

  lemma {:induction false} SumOfAppended(rows: seq<int>, x: int)
    ensures Sum(rows + [x]) == Sum(rows) + x
  {
    assert (rows + [x])[..|rows|] == rows;
  }

  /** One more row and its correction bit add one more digit times the multiplicand. */
  lemma RowEnters(total: int, corrections: nat, triple: nat, x: i32, digits: int, p: nat)
    requires triple < 8 && Congruent(total + corrections, digits * x)
    ensures Congruent(total + Word(Row(triple, Word(x)) * p) + (corrections + if Negative(triple) then p else 0),
                      (digits + Digit(triple) * p) * x)
  {
    hide Row, Digit, Congruent, Word;
    var row, bit := Row(triple, Word(x)), if Negative(triple) then 1 else 0;
    RowIsDigit(triple, x);
    CongruentProduct(row + bit, Digit(triple) * x, p);
    WordIsCongruent(row * p);
    CongruentSelf(bit * p);
    CongruentSum(Word(row * p), row * p, bit * p, bit * p);
    assert p * (row + bit) == row * p + bit * p && bit * p == (if Negative(triple) then p else 0);
    CongruentTrans(Word(row * p) + bit * p, row * p + bit * p, p * (Digit(triple) * x));
    CongruentSum(total + corrections, digits * x, Word(row * p) + bit * p, p * (Digit(triple) * x));
    assert digits * x + p * (Digit(triple) * x) == (digits + Digit(triple) * p) * x by {
      FactorOut(digits, p, Digit(triple), x);
    }
  }

  /** Rows below i and correction bits so far add up to the multiplicand times the digits below i. */
  predicate Accumulated(total: int, corrections: int, y: u32, i: nat, x: i32) {
    Congruent(total + corrections, DigitSum(y, i) * x)
  }

  lemma {:induction false} RowAccumulates(total: int, corrections: nat, y: u32, i: nat, x: i32)
    requires Accumulated(total, corrections, y, i, x) && Triple(y, i) < 8
    ensures Accumulated(total + Word(ShiftLeft(Row(Triple(y, i), Word(x)), 2 * i)),
                        corrections + (if Negative(Triple(y, i)) then Pow2(2 * i) else 0), y, i + 1, x)
  {
    hide Row, Digit, Congruent, Word, Triple, Pow2;
    RowEnters(total, corrections, Triple(y, i), x, DigitSum(y, i), Pow2(2 * i));
  }

  lemma CongruentSelf(x: int)
    ensures Congruent(x, x)
  {
  }

  lemma FactorOut(a: int, p: int, d: int, x: int)
    ensures a * x + p * (d * x) == (a + d * p) * x
  {
  }

  // ---------- Unsigned operands

  function FixupA(op: Operation, x: i32, y: i32): u64 {
    if op == MULHU && x < 0 then ToUnsigned(y) * TWO_32 else 0
  }

  function FixupB(op: Operation, x: i32, y: i32): u64 {
    if (op == MULHU || op == MULHSU) && y < 0 then Word(x * TWO_32) else 0
  }

  /** The product whose low or high word the operation asks for. */
  function Product(op: Operation, x: i32, y: i32): int {
    if op == MULHU then ToUnsigned(x) * ToUnsigned(y)
    else if op == MULHSU then x * ToUnsigned(y)
    else x * y
  }

  lemma FixupsCorrect(op: Operation, x: i32, y: i32)
    ensures Congruent(x * y + FixupA(op, x, y) + FixupB(op, x, y), Product(op, x, y))
  {
    hide Congruent, Word;
    WordIsCongruent(x * TWO_32);
    CongruentSelf(x * y + FixupA(op, x, y));
    CongruentSelf(x * y);
    var b := if (op == MULHU || op == MULHSU) && y < 0 then x * TWO_32 else 0;
    assert Congruent(FixupB(op, x, y), b) by {
      CongruentSelf(0);
    }
    CongruentSum(x * y + FixupA(op, x, y), x * y + FixupA(op, x, y), FixupB(op, x, y), b);
    assert x * y + FixupA(op, x, y) + b == Product(op, x, y) by {
      UnsignedProduct(x, y);
    }
  }

  lemma UnsignedProduct(x: i32, y: i32)
    ensures x * ToUnsigned(y) == x * y + if y < 0 then x * TWO_32 else 0
    ensures ToUnsigned(x) * ToUnsigned(y) == x * ToUnsigned(y) + if x < 0 then ToUnsigned(y) * TWO_32 else 0
  {
    if y < 0 {
      assert x * (y + TWO_32) == x * y + x * TWO_32;
    }
    if x < 0 {
      assert (x + TWO_32) * ToUnsigned(y) == x * ToUnsigned(y) + TWO_32 * ToUnsigned(y);
    }
  }

  /** What the operation takes from the 64-bit product. */
  function Extract(op: Operation, product: u64): i32 {
    if op == MUL then ToSigned(product % TWO_32) else ToSigned(product / TWO_32)
  }

  /** The word taken from any 64-bit number congruent to the product is what section 7.1 asks for. */
  lemma ExtractIsMultiply(op: Operation, x: i32, y: i32, res: u64)
    requires IsMultiplication(op) && Congruent(res, Product(op, x, y))
    ensures Extract(op, res) == Multiply(op, x, y)
  {
    hide Congruent;
    WordsOfProduct(res, Product(op, x, y));
  }

  lemma WordsOfProduct(res: u64, p: int)
    requires Congruent(res, p)
    ensures res % TWO_32 == p % TWO_32 && res / TWO_32 == p / TWO_32 % TWO_32
  {
    var k := (res - p) / TWO_64;
    assert res == p + k * TWO_64;
    DivMod(p, TWO_32);
    DivMod(p / TWO_32, TWO_32);
    var q, r, low := p / TWO_32 / TWO_32, p / TWO_32 % TWO_32, p % TWO_32;
    assert res == TWO_64 * (q + k) + TWO_32 * r + low;
    assert q + k == 0;
    DivModUnique(res, TWO_32, r, low);
  }

  // ---------- Compressors

  datatype Csa3 = Csa3(sum: u64, carry: u64)

  lemma Xor64(a: u64, b: u64)
    ensures Xor(a, b) < TWO_64
  {
    hide Xor;
    Pow2Of32();
    Pow2Add(32, 32);
    XorBound(a, b, 64);
  }

  /** Exclusive or and shifted majority; the bit shifted out is lost. */
  function Compress(a: u64, b: u64, c: u64): (r: Csa3)
  {
    Xor64(a, b);
    Xor64(Xor(a, b), c);
    Csa3(Xor(Xor(a, b), c), 2 * Majority(a, b, c) % TWO_64)
  }

  /** A compressor keeps the sum modulo 2^64. */
  lemma {:induction false} CompressKeepsSum(a: u64, b: u64, c: u64) returns (lost: int)
    ensures var r := Compress(a, b, c); r.sum + r.carry == a + b + c - lost * TWO_64
  {
    hide Xor, Majority;
    CarrySaveSum(a, b, c);
    var carry := 2 * Majority(a, b, c);
    lost := carry / TWO_64;
    DivMod(carry, TWO_64);
  }

  lemma {:induction false} SumOfLast(rows: seq<int>, n: nat)
    requires 0 < n <= |rows|
    ensures Sum(rows[..n]) == Sum(rows[..n - 1]) + rows[n - 1]
  {
    assert rows[..n][..n - 1] == rows[..n - 1];
  }

  lemma {:induction false} SumOfRows(rows: seq<int>)
    requires |rows| == ROWS
    ensures Sum(rows) == rows[0] + rows[1] + rows[2] + rows[3] + rows[4] + rows[5] + rows[6] + rows[7] + rows[8]
                         + rows[9] + rows[10] + rows[11] + rows[12] + rows[13] + rows[14] + rows[15] + rows[16]
                         + rows[17] + rows[18]
  {
    hide Sum;
    assert rows[..19] == rows;
    assert Sum(rows[..0]) == 0 by {
      SumOfNone(rows);
    }
    forall n | 0 < n <= ROWS ensures Sum(rows[..n]) == Sum(rows[..n - 1]) + rows[n - 1] {
      SumOfLast(rows, n);
    }
    assert Sum(rows[..10]) == rows[0] + rows[1] + rows[2] + rows[3] + rows[4] + rows[5] + rows[6] + rows[7] + rows[8]
                              + rows[9] by {
      assert Sum(rows[..5]) == rows[0] + rows[1] + rows[2] + rows[3] + rows[4] by {
        assert Sum(rows[..1]) == rows[0] && Sum(rows[..2]) == rows[0] + rows[1];
        assert Sum(rows[..3]) == rows[0] + rows[1] + rows[2];
      }
      assert Sum(rows[..8]) == Sum(rows[..5]) + rows[5] + rows[6] + rows[7] by {
        assert Sum(rows[..6]) == Sum(rows[..5]) + rows[5] && Sum(rows[..7]) == Sum(rows[..6]) + rows[6];
      }
      assert Sum(rows[..9]) == Sum(rows[..8]) + rows[8];
    }
    assert Sum(rows[..15]) == Sum(rows[..10]) + rows[10] + rows[11] + rows[12] + rows[13] + rows[14] by {
      assert Sum(rows[..12]) == Sum(rows[..10]) + rows[10] + rows[11] by {
        assert Sum(rows[..11]) == Sum(rows[..10]) + rows[10];
      }
      assert Sum(rows[..14]) == Sum(rows[..12]) + rows[12] + rows[13] by {
        assert Sum(rows[..13]) == Sum(rows[..12]) + rows[12];
      }
    }
    assert Sum(rows[..17]) == Sum(rows[..15]) + rows[15] + rows[16] by {
      assert Sum(rows[..16]) == Sum(rows[..15]) + rows[15];
    }
    assert Sum(rows[..18]) == Sum(rows[..17]) + rows[17];
  }

  lemma SumOfNone(rows: seq<int>)
    ensures Sum(rows[..0]) == 0
  {
  }

  /** The tree of seventeen compressors: 19 rows become 13, 9, 6, 4, 3 and at last 2. */
  method CompressRows(P: seq<u64>) returns (S: u64, C: u64)
    requires |P| == ROWS
    ensures Congruent(S + C, Sum(P))
  {
    hide Compress, Sum, Congruent;
    var a0, a1, a2 := Compress(P[0], P[1], P[2]), Compress(P[3], P[4], P[5]), Compress(P[6], P[7], P[8]);
    var a3, a4, a5 := Compress(P[9], P[10], P[11]), Compress(P[12], P[13], P[14]), Compress(P[15], P[16], P[17]);
    var b0, b1 := Compress(a0.sum, a0.carry, a1.sum), Compress(a1.carry, a2.sum, a2.carry);
    var b2, b3 := Compress(a3.sum, a3.carry, a4.sum), Compress(a4.carry, a5.sum, a5.carry);
    var c0, c1 := Compress(b0.sum, b0.carry, b1.sum), Compress(b1.carry, b2.sum, b2.carry);
    var c2 := Compress(b3.sum, b3.carry, P[18]);
    var d0, d1 := Compress(c0.sum, c0.carry, c1.sum), Compress(c1.carry, c2.sum, c2.carry);
    var e0 := Compress(d0.sum, d0.carry, d1.sum);
    var f0 := Compress(e0.sum, e0.carry, d1.carry);
    S, C := f0.sum, f0.carry;
    ghost var k0 := CompressKeepsSum(P[0], P[1], P[2]);
    ghost var k1 := CompressKeepsSum(P[3], P[4], P[5]);
    ghost var k2 := CompressKeepsSum(P[6], P[7], P[8]);
    ghost var k3 := CompressKeepsSum(P[9], P[10], P[11]);
    ghost var k4 := CompressKeepsSum(P[12], P[13], P[14]);
    ghost var k5 := CompressKeepsSum(P[15], P[16], P[17]);
    ghost var l0 := CompressKeepsSum(a0.sum, a0.carry, a1.sum);
    ghost var l1 := CompressKeepsSum(a1.carry, a2.sum, a2.carry);
    ghost var l2 := CompressKeepsSum(a3.sum, a3.carry, a4.sum);
    ghost var l3 := CompressKeepsSum(a4.carry, a5.sum, a5.carry);
    ghost var m0 := CompressKeepsSum(b0.sum, b0.carry, b1.sum);
    ghost var m1 := CompressKeepsSum(b1.carry, b2.sum, b2.carry);
    ghost var m2 := CompressKeepsSum(b3.sum, b3.carry, P[18]);
    ghost var n0 := CompressKeepsSum(c0.sum, c0.carry, c1.sum);
    ghost var n1 := CompressKeepsSum(c1.carry, c2.sum, c2.carry);
    ghost var o0 := CompressKeepsSum(d0.sum, d0.carry, d1.sum);
    ghost var p0 := CompressKeepsSum(e0.sum, e0.carry, d1.carry);
    SumOfRows(P);
    ghost var lost := k0 + k1 + k2 + k3 + k4 + k5 + l0 + l1 + l2 + l3 + m0 + m1 + m2 + n0 + n1 + o0 + p0;
    assert S + C == Sum(P) - lost * TWO_64;
    CongruentBy(S + C, Sum(P), -lost);
  }

  // ---------- Booth rows

  /** The sixteen digit rows fill the first places of the array, their correction bits gather in the last. */
  method DigitRows(x: i32, y: i32, rows: array<u64>)
    requires rows.Length == ROWS
    modifies rows
    ensures Congruent(Sum(rows[..16]) + rows[18], x * y)
  {
    hide Accumulated, Sum, Triple, Multiple, Row, Or, Pow2, Word, ShiftLeft, Negative;
    var A, u := Word(x), ToUnsigned(y);
    rows[18] := 0;
    BoothStart(u, x);
    assert rows[..0] == [];
    for i := 0 to 16
      invariant rows[18] < Pow2(2 * i)
      invariant Accumulated(Sum(rows[..i]), rows[18], u, i, x)
    {
      ghost var done: seq<int> := rows[..i];
      var triple := Triple(u, i);
      TripleIsSmall(u, i);
      var row := Multiple(triple, A);
      if Negative(triple) {
        row := TWO_64 - 1 - row;
      }
      RowIs(triple, A);
      var shifted := Word(ShiftLeft(row, 2 * i));
      RowAccumulates(Sum(done), rows[18], u, i, x);
      SumOfAppended(done, shifted);
      CorrectionFits(rows[18], i);
      if Negative(triple) {
        rows[18] := Or(rows[18], Pow2(2 * i));
      }
      rows[i] := shifted;
      assert rows[..i + 1] == done + [shifted];
    }
    AllDigits(Sum(rows[..16]), rows[18], x, y);
  }

  lemma AllDigits(total: int, corrections: int, x: i32, y: i32)
    requires Accumulated(total, corrections, ToUnsigned(y), 16, x)
    ensures Congruent(total + corrections, x * y)
  {
    hide Congruent, DigitSum;
    DigitsAreSigned(ToUnsigned(y));
    assert ToSigned(ToUnsigned(y)) == y;
  }

  /** All rows of a multiplication: digits, the two fix-ups and the corrections. */
  method BoothRows(x: i32, y: i32, op: Operation, rows: array<u64>)
    requires IsMultiplication(op) && rows.Length == ROWS
    modifies rows
    ensures Congruent(Sum(rows[..]), Product(op, x, y))
  {
    hide Congruent, Sum, Product, FixupA, FixupB;
    DigitRows(x, y, rows);
    ghost var digits: seq<int>, corrections: int := rows[..16], rows[18];
    rows[16] := FixupA(op, x, y);
    rows[17] := FixupB(op, x, y);
    ghost var a: int, b: int := rows[16], rows[17];
    assert rows[..] == digits + [a] + [b] + [corrections];
    SumOfAppended(digits, a);
    SumOfAppended(digits + [a], b);
    SumOfAppended(digits + [a] + [b], corrections);
    FixupsCorrect(op, x, y);
    CongruentSelf(a + b);
    CongruentSum(Sum(digits) + corrections, x * y, a + b, a + b);
    CongruentTrans(Sum(rows[..]), x * y + a + b, Product(op, x, y));
  }

  lemma BoothStart(y: u32, x: i32)
    ensures Pow2(0) == 1 && Accumulated(Sum([]), 0, y, 0, x)
  {
  }

  lemma RowIs(triple: nat, a: u64)
    ensures Row(triple, a) == if Negative(triple) then TWO_64 - 1 - Multiple(triple, a) else Multiple(triple, a)
  {
  }

  lemma TripleIsSmall(y: u32, i: nat)
    ensures Triple(y, i) < 8
  {
    hide Pow2;
  }

  lemma {:induction false} CorrectionFits(corrections: nat, i: nat)
    requires corrections < Pow2(2 * i) && i < 16
    ensures Or(corrections, Pow2(2 * i)) == corrections + Pow2(2 * i) < Pow2(2 * (i + 1)) && Pow2(2 * (i + 1)) <= TWO_32
    ensures corrections < Pow2(2 * (i + 1))
  {
    OrFreshBit(corrections, 2 * i);
    assert Pow2(2 * i + 2) == 2 * Pow2(2 * i + 1) == 4 * Pow2(2 * i);
    Pow2Monotone(2 * (i + 1), 32);
    Pow2Of32();
  }
}
