/** The iterative radix-4 divider: one operation at a time, one stage per clock tick. */
module Divider {
  import opened Arithmetic
  import opened Bits
  import opened Capacities
  import opened Options
  import opened RiscV
  import opened SrtDivision
  import opened Tags

  const TWO_35: nat := 0x8_0000_0000
  const TWO_36: nat := 0x10_0000_0000

  /** An operation handed over by the dispatch arbiter, operands already read. */
  datatype Dispatch = Dispatch(op: Operation, src1: i32, src2: i32, robTag: u8)

  /** The number an operand stands for, without its sign. */
  function Magnitude(op: Operation, v: i32): u32 {
    if IsSignedDivision(op) then Abs(v) else ToUnsigned(v)
  }

  /** Operations that are answered at once: no digit of the quotient has to be computed. */
  predicate IsSpecial(op: Operation, x: i32, d: i32) {
    d == 0 || Magnitude(op, x) <= Magnitude(op, d)
      || (IsSignedDivision(op) && x == INT_MIN && d == -1)
  }

  /** The number of digits after the first one. */
  function LoopCount(x: nat, d: nat): nat {
    if BitWidth(x) < BitWidth(d) then 0 else (BitWidth(x) - BitWidth(d) + 1) / 2
  }

  /** The ticks from the dispatch tick to the tick that makes the result visible. */
  function Latency(op: Operation, x: i32, d: i32): nat {
    if IsSpecial(op, x, d) then 1 else 3 + LoopCount(Magnitude(op, x), Magnitude(op, d))
  }

  /** Answered in one tick: no divisor, the overflowing quotient, or a dividend no larger than the divisor. */
  lemma AnsweredAtOnce(op: Operation, x: i32, d: i32)
    requires IsDivision(op)
    ensures Latency(op, x, d) == 1
       <==> || d == 0 || ((op.DIV? || op.REM?) && x == INT_MIN && d == -1)
            || (if op.DIV? || op.REM? then Abs(x) <= Abs(d) else ToUnsigned(x) <= ToUnsigned(d))
  {
  }

  lemma LatencyBound(op: Operation, x: i32, d: i32)
    ensures 1 <= Latency(op, x, d) <= 19
  {
    if !IsSpecial(op, x, d) {
      BitWidthBounds(Magnitude(op, d));
      WordWidth(Magnitude(op, x));
    }
  }

  /** Negating a 32-bit pattern, wrapping around. */
  function Negated(p: u32): u32 {
    (TWO_32 - p) % TWO_32
  }

  function Modulus(shiftD: bool): nat {
    if shiftD then TWO_36 else TWO_35
  }

  /** The carry-save pair stands for P, modulo the width of the registers. */
  ghost predicate Represents(s: nat, c: nat, P: int, shiftD: bool) {
    (s + c - P) % Modulus(shiftD) == 0
  }

  /** The divisor register holds d, shifted to the top and doubled if the alignment is odd. */
  ghost predicate Aligned(x: nat, d: nat, D: nat, clzD: nat, shiftD: bool, dSlice: int) {
    clzD <= 31 && D == d * Scale(clzD, shiftD) && D < 0x2_0000_0000 && DivisorSlice(D, dSlice, Ulp(shiftD))
  }

  /** The digits still to come bring `sum` to the dividend on the scale of the divisor. */
  ghost predicate OnScale(x: nat, clzD: nat, shiftD: bool, sum: int, loopTimes: nat) {
    sum * Pow2(2 * loopTimes) == x * Scale(clzD, shiftD)
  }

  /** A holds the quotient so far, B the quotient minus one, as soon as that is not negative. */
  ghost predicate Converted(Q: int, A: u32, B: u32) {
    Q >= 0 && A == Q % TWO_32 && (Q > 0 ==> B == (Q - 1) % TWO_32)
  }

  /** Only the first digit can be 0, and then more digits follow, the next of them positive. */
  ghost predicate OnTheFly(Q: int, W: int, A: u32, B: u32, shiftD: bool, loopTimes: nat) {
    && Converted(Q, A, B)
    && (Q == 0 ==> loopTimes > 0 && 4 * W >= 64 * Ulp(shiftD))
  }

  /** The convergence bound on the partial remainder. */
  ghost predicate WithinTwoThirds(W: int, D: nat) {
    -2 * D <= 3 * W <= 2 * D
  }

  /** The recurrence on values: divisor D on its scale, remainder W in S and C, quotient Q in A and B. */
  ghost predicate Recurring(x: nat, d: nat, D: nat, clzD: nat, shiftD: bool, dSlice: int, dSlice3: int, loopTimes: nat,
                            W: int, Q: int, S: u64, C: u64, A: u32, B: u32)
  {
    && dSlice3 == 3 * dSlice
    && Aligned(x, d, D, clzD, shiftD, dSlice)
    && OnScale(x, clzD, shiftD, W + Q * D, loopTimes)
    && WithinTwoThirds(W, D)
    && Represents(S, C, 4 * W, shiftD)
    && OnTheFly(Q, W, A, B, shiftD, loopTimes)
  }

  /** The weight of the lowest bit of a 9-bit slice. */
  function Ulp(shiftD: bool): nat {
    if shiftD then 0x800_0000 else 0x400_0000
  }

  /** The factor between the divisor and the number the divisor register holds. */
  function Scale(clzD: nat, shiftD: bool): (s: nat)
    ensures s > 0
  {
    Pow2(clzD + if shiftD then 1 else 0)
  }

  /** The signs put back onto the magnitudes' quotient and remainder give the required result. */
  function WithSigns(op: Operation, x: i32, d: i32, quotient: u32, remain: u32): i32 {
    if op.DIV? then ToSigned(if (x < 0) != (d < 0) then Negated(quotient) else quotient)
    else if op.REM? then ToSigned(if x < 0 then Negated(remain) else remain)
    else if op.DIVU? then ToSigned(quotient)
    else ToSigned(remain)
  }

  lemma SignsRestored(op: Operation, x: i32, d: i32)
    requires IsDivision(op) && !IsSpecial(op, x, d)
    ensures var ax, ad := Magnitude(op, x), Magnitude(op, d);
            && 0 <= ax / ad < TWO_32 && 0 <= ax % ad < TWO_32
            && Divide(op, x, d) == WithSigns(op, x, d, ax / ad, ax % ad)
  {
    var ax, ad := Magnitude(op, x), Magnitude(op, d);
    DivMod(ax, ad);
    DivBounds(ax, ad);
    if op.DIV? {
      DivideFits(x, d);
    } else if op.REM? {
      RemainderFits(x, d);
    }
  }

  /** Leading zeros of a 32-bit word, by halving the search range five times. */
  method Clz(word: u32) returns (leadingZeros: u8)
    ensures leadingZeros == 32 - BitWidth(word)
  {
    if word == 0 {
      return 32;
    }
    Pow2SmallValues();
    Pow2Of16();
    var num := word;
    num, leadingZeros := ClzStep(num, 0, 16, 0x1_0000);
    num, leadingZeros := ClzStep(num, leadingZeros, 8, 0x100);
    num, leadingZeros := ClzStep(num, leadingZeros, 4, 0x10);
    num, leadingZeros := ClzStep(num, leadingZeros, 2, 4);
    num, leadingZeros := ClzStep(num, leadingZeros, 1, 2);
  }

  /** One step: drop the low half of the range if the high half is not empty, else count it as zeros. */
  method ClzStep(num: u32, leadingZeros: u8, half: nat, p: nat) returns (num': u32, leadingZeros': u8)
    requires 0 < num < p * p && p == Pow2(half) && leadingZeros + half <= 32
    ensures 0 < num' < p
    ensures leadingZeros' <= leadingZeros + half
    ensures BitWidth(num') + leadingZeros + half == BitWidth(num) + leadingZeros'
  {
    DivMod(num, p);
    MulLess(p, num / p, p);
    MulLess(p, -1, num / p);
    DivBounds(num, p);
    if num / p != 0 {
      ShiftedWidth(num, num / p, num % p, half, p);
      num', leadingZeros' := num / p, leadingZeros;
    } else {
      num', leadingZeros' := num, leadingZeros + half;
    }
  }

  class DivideUnit {
    var unsignedDivisor: u64
    var unsignedDividend: u64
    var prepareValid: bool
    var isDividendNegative: bool
    var isResultNegative: bool
    var clzX: u8
    var clzD: u8
    var loopTimes: u8
    var regS: u64
    var regC: u64
    var regA: u32
    var regB: u32
    var dSlice: int
    var dSlice3: int
    var loopValid: bool
    var quotient: u32
    var remain: u32
    var robTag: u8
    var operationType: Operation
    var fullAdderValid: bool
    var shiftD: bool
    var resultValid: bool

    // The operation being computed, the signed partial remainder and the quotient so far.
    ghost var src1: i32
    ghost var src2: i32
    ghost var W: int
    ghost var Q: int

    ghost function X(): u32 reads `operationType, `src1 { Magnitude(operationType, src1) }
    ghost function D(): u32 reads `operationType, `src2 { Magnitude(operationType, src2) }

    predicate CanAccept() reads this {
      !prepareValid && !loopValid && !fullAdderValid && !resultValid
    }

    predicate IsReady() reads this {
      resultValid
    }

    /** The value put on the result bus. */
    function GetValue(): i32
      reads this
    {
      if operationType.DIV? then ToSigned(if isResultNegative then Negated(quotient) else quotient)
      else if operationType.DIVU? then ToSigned(quotient)
      else if operationType.REM? then ToSigned(if isDividendNegative then Negated(remain) else remain)
      else ToSigned(remain)
    }

    /** A general operation is under way: both magnitudes and the sign flags are recorded. */
    ghost predicate General()
      reads `operationType, `src1, `src2, `isDividendNegative, `isResultNegative
    {
      && IsDivision(operationType)
      && !IsSpecial(operationType, src1, src2)
      && isDividendNegative == (IsSignedDivision(operationType) && src1 < 0)
      && isResultNegative == (IsSignedDivision(operationType) && (src1 < 0) != (src2 < 0))
    }

    /** The recurrence invariant: what the registers stand for while digits are produced. */
    ghost predicate Recurrence()
      reads `operationType, `src1, `src2
      reads `unsignedDivisor, `clzD, `shiftD, `dSlice, `dSlice3, `loopTimes, `W, `Q, `regS, `regC, `regA, `regB
    {
      Recurring(X(), D(), unsignedDivisor, clzD, shiftD, dSlice, dSlice3, loopTimes, W, Q, regS, regC, regA, regB)
    }

    /** At most one stage is active, and each stage finds what the previous one promised. */
    ghost predicate Valid()
      reads this
    {
      && (prepareValid ==> !loopValid && !fullAdderValid && !resultValid)
      && (loopValid ==> !fullAdderValid && !resultValid)
      && (fullAdderValid ==> !resultValid)
      && (prepareValid ==> General() && unsignedDividend == X() && unsignedDivisor == D())
      && (loopValid ==> 0 < loopTimes <= 16)
      && (fullAdderValid ==> loopTimes == 0)
      && (loopValid || fullAdderValid ==> General() && Recurrence())
      && (resultValid ==> IsDivision(operationType) && GetValue() == Divide(operationType, src1, src2))
    }

    /** Ticks until the result is visible. */
    ghost function Remaining(): nat
      reads this
    {
      if prepareValid then 2 + LoopCount(X(), D())
      else if loopValid then 1 + loopTimes
      else if fullAdderValid then 1
      else 0
    }

    constructor ()
      ensures Valid() && CanAccept()
    {
      prepareValid, loopValid, fullAdderValid, resultValid := false, false, false, false;
      operationType := DIV;
      unsignedDivisor, unsignedDividend := 0, 0;
      isDividendNegative, isResultNegative, shiftD := false, false, false;
      clzX, clzD, loopTimes, robTag := 0, 0, 0, 0;
      regS, regC, regA, regB := 0, 0, 0, 0;
      dSlice, dSlice3 := 0, 0;
      quotient, remain := 0, 0;
    }

    /** The operation has been answered without any digit recurrence. */
    ghost predicate Answered(op1: i32, op2: i32, tag: u8, op: Operation)
      requires IsDivision(op)
      reads this
    {
      resultValid && operationType == op && robTag == tag && GetValue() == Divide(op, op1, op2)
    }

    twostate predicate SameOperation()
      reads this
    {
      && unchanged(`src1) && unchanged(`src2) && unchanged(`operationType) && unchanged(`robTag)
    }

    twostate predicate StageFlagsElse()
      reads this
    {
      unchanged(`loopValid) && unchanged(`fullAdderValid)
    }

    twostate predicate StagesUnchanged()
      reads this
    {
      && unchanged(`prepareValid) && unchanged(`loopValid) && unchanged(`fullAdderValid)
      && unchanged(`src1) && unchanged(`src2)
    }

    /** Answer at once: the sign is already part of the patterns. */
    method Finish(quotientValue: u32, remainValue: u32, tag: u8, op: Operation)
      modifies this
      ensures quotient == quotientValue && remain == remainValue && robTag == tag && operationType == op
      ensures !isResultNegative && !isDividendNegative && resultValid
      ensures StagesUnchanged()
    {
      quotient := quotientValue;
      remain := remainValue;
      isResultNegative := false;
      isDividendNegative := false;
      resultValid := true;
      robTag := tag;
      operationType := op;
    }

    /** Zero divisors and the overflowing quotient. */
    method ReceiveExceptional(op1: i32, op2: i32, tag: u8, op: Operation) returns (finished: bool)
      requires IsDivision(op)
      modifies this
      ensures finished == (op2 == 0 || (IsSignedDivision(op) && op1 == INT_MIN && op2 == -1))
      ensures finished ==> Answered(op1, op2, tag, op)
      ensures !finished ==> unchanged(this)
      ensures StagesUnchanged()
    {
      finished := true;
      if op == DIV && op2 == 0 {
        Finish(0xFFFF_FFFF, 0, tag, op);
      } else if op == DIVU && op2 == 0 {
        Finish(0xFFFF_FFFF, 0, tag, op);
      } else if (op == REM || op == REMU) && op2 == 0 {
        Finish(0, ToUnsigned(op1), tag, op);
      } else if op == DIV && op1 == INT_MIN && op2 == -1 {
        Finish(0x8000_0000, 0, tag, op);
      } else if op == REM && op1 == INT_MIN && op2 == -1 {
        Finish(0, 0, tag, op);
      } else {
        finished := false;
      }
    }

    /** Unsigned dividends that do not exceed the divisor. */
    method ReceiveSmallUnsigned(op1: i32, op2: i32, tag: u8, op: Operation) returns (finished: bool)
      requires (op == DIVU || op == REMU) && op2 != 0
      modifies this
      ensures finished == (ToUnsigned(op1) <= ToUnsigned(op2))
      ensures finished ==> Answered(op1, op2, tag, op)
      ensures !finished ==> unchanged(this)
      ensures StagesUnchanged()
    {
      finished := false;
      var xBits, dBits := ToUnsigned(op1), ToUnsigned(op2);
      if xBits < dBits {
        SmallUnsigned(op, op1, op2);
        Finish(0, if op == DIVU then 0 else xBits, tag, op);
        finished := true;
      } else if xBits == dBits {
        SmallUnsigned(op, op1, op2);
        Finish(if op == DIVU then 1 else 0, 0, tag, op);
        finished := true;
      }
    }

    /** Signed dividends whose magnitude does not exceed the divisor's; the pattern keeps its sign. */
    method ReceiveSmallSigned(op1: i32, op2: i32, tag: u8, op: Operation) returns (finished: bool)
      requires (op == DIV || op == REM) && op2 != 0 && !(op1 == INT_MIN && op2 == -1)
      modifies this
      ensures finished == (Abs(op1) <= Abs(op2))
      ensures finished ==> Answered(op1, op2, tag, op)
      ensures !finished ==> unchanged(this)
      ensures StagesUnchanged()
    {
      finished := false;
      var xBits, dBits := ToUnsigned(op1), ToUnsigned(op2);
      var absX := if op1 < 0 then Negated(xBits) else xBits;
      var absD := if op2 < 0 then Negated(dBits) else dBits;
      NegativePattern(op1);
      NegativePattern(op2);
      if absX < absD {
        SmallSigned(op, op1, op2);
        Finish(0, if op == DIV then 0 else xBits, tag, op);
        finished := true;
      } else if absX == absD {
        SmallSigned(op, op1, op2);
        if op == DIV {
          Finish(if (op1 < 0) == (op2 < 0) then 1 else 0xFFFF_FFFF, 0, tag, op);
        } else {
          Finish(0, 0, tag, op);
        }
        finished := true;
      }
    }

    /** Latch magnitudes and signs for the preparation step. */
    method LatchOperands(op1: i32, op2: i32, tag: u8, op: Operation)
      requires IsDivision(op)
      modifies this
      ensures prepareValid && !resultValid && StageFlagsElse()
      ensures operationType == op && robTag == tag && unchanged(`src1) && unchanged(`src2)
      ensures unsignedDividend == Magnitude(op, op1) && unsignedDivisor == Magnitude(op, op2)
      ensures isDividendNegative == (IsSignedDivision(op) && op1 < 0)
      ensures isResultNegative == (IsSignedDivision(op) && (op1 < 0) != (op2 < 0))
    {
      resultValid := false;
      robTag := tag;
      operationType := op;
      var xBits, dBits := ToUnsigned(op1), ToUnsigned(op2);
      var signedOp := op == DIV || op == REM;
      isDividendNegative := signedOp && op1 < 0;
      unsignedDividend := if isDividendNegative then Negated(xBits) else xBits;
      var divisorNegative := signedOp && op2 < 0;
      unsignedDivisor := if divisorNegative then Negated(dBits) else dBits;
      isResultNegative := divisorNegative != isDividendNegative;
      prepareValid := true;
      MagnitudePattern(op, op1);
      MagnitudePattern(op, op2);
    }

    method Receive(op1: i32, op2: i32, tag: u8, op: Operation)
      requires CanAccept() && IsDivision(op)
      modifies this
      ensures Valid()
      ensures operationType == op && robTag == tag && src1 == op1 && src2 == op2
      ensures if IsSpecial(op, op1, op2) then resultValid else prepareValid
    {
      src1, src2 := op1, op2;
      var finished := ReceiveExceptional(op1, op2, tag, op);
      if !finished {
        if op == DIVU || op == REMU {
          finished := ReceiveSmallUnsigned(op1, op2, tag, op);
        } else {
          finished := ReceiveSmallSigned(op1, op2, tag, op);
        }
      }
      if !finished {
        LatchOperands(op1, op2, tag, op);
      }
    }

    /** Clock the results of the preparation into the registers. */
    method LatchPrepared(x: u8, d: u8, X: u64, D: u64, loops: u8, shift: bool, slice: int, slice3: int)
      modifies `clzX, `clzD, `unsignedDividend, `unsignedDivisor, `loopTimes, `shiftD, `dSlice, `dSlice3
      ensures clzX == x && clzD == d && unsignedDividend == X && unsignedDivisor == D
      ensures loopTimes == loops && shiftD == shift && dSlice == slice && dSlice3 == slice3
    {
      clzX, clzD, unsignedDividend, unsignedDivisor := x, d, X, D;
      loopTimes, shiftD, dSlice, dSlice3 := loops, shift, slice, slice3;
    }

    /** Clock a partial remainder and a converted quotient into the registers. */
    method LatchDigit(s: u64, c: u64, a: u32, b: u32, ghost w: int, ghost q: int)
      modifies `regS, `regC, `regA, `regB, `W, `Q
      ensures regS == s && regC == c && regA == a && regB == b && W == w && Q == q
    {
      regS, regC, regA, regB := s, c, a, b;
      W, Q := w, q;
    }

    method PrepareRegisters()
      requires General() && unsignedDividend == X() && unsignedDivisor == D()
      modifies `clzX, `clzD, `unsignedDivisor, `unsignedDividend, `loopTimes, `shiftD, `dSlice, `dSlice3
      modifies `regS, `regC, `regA, `regB, `W, `Q
      ensures Recurrence() && loopTimes == LoopCount(X(), D()) <= 16
    {
      hide Recurring, LoopCount;
      var zerosX := Clz(unsignedDividend);
      var zerosD := Clz(unsignedDivisor);
      var dividend, divisor, loops, shift, slice, slice3, s, c, a, b, w, q :=
        FirstStep(unsignedDividend, unsignedDivisor, zerosX, zerosD);
      LatchPrepared(zerosX, zerosD, dividend, divisor, loops, shift, slice, slice3);
      LatchDigit(s, c, a, b, w, q);
    }

    method Prepare()
      requires General() && unsignedDividend == X() && unsignedDivisor == D()
      modifies `clzX, `clzD, `unsignedDivisor, `unsignedDividend, `loopTimes, `shiftD, `dSlice, `dSlice3
      modifies `regS, `regC, `regA, `regB, `W, `Q, `prepareValid, `loopValid, `fullAdderValid
      ensures Recurrence() && loopTimes == LoopCount(X(), D()) <= 16
      ensures !prepareValid && loopValid == (loopTimes != 0) && fullAdderValid == (loopTimes == 0)
    {
      hide Recurring, LoopCount, IsSpecial, Magnitude;
      prepareValid := false;
      PrepareRegisters();
      loopValid := loopTimes != 0;
      fullAdderValid := loopTimes == 0;
    }

    /** One iteration: choose a digit, update the partial remainder and convert the quotient. */
    method LoopRegisters(oldRegS: u64, oldRegC: u64, oldRegA: u32, oldRegB: u32)
      requires oldRegS == regS && oldRegC == regC && oldRegA == regA && oldRegB == regB
      requires Iterating()
      modifies `regS, `regC, `regA, `regB, `W, `Q
      ensures W + Q * unsignedDivisor == 4 * old(W + Q * unsignedDivisor)
      ensures WithinTwoThirds(W, unsignedDivisor)
      ensures Represents(regS, regC, 4 * W, shiftD)
      ensures Converted(Q, regA, regB) && Q > 0
    {
      hide Represents, WithinTwoThirds, DivisorSlice, Converted, SelectDigit;
      var slice := EstimateSlice(oldRegS, oldRegC, shiftD, W, unsignedDivisor, dSlice);
      ghost var q := SelectDigit(slice, dSlice);
      NextSum(W, Q, q, unsignedDivisor);
      W := 4 * W - q * unsignedDivisor;
      regS, regC := UpdateRemainder(oldRegS, oldRegC, slice, dSlice, dSlice3, unsignedDivisor, shiftD, old(W));
      regA, regB := ConvertQuotient(oldRegA, oldRegB, slice, dSlice, dSlice3, Q);
      Q := 4 * Q + q;
    }

    /** What one iteration needs to know about the registers. */
    ghost predicate Iterating()
      reads `unsignedDivisor, `shiftD, `dSlice, `dSlice3, `W, `Q, `regS, `regC, `regA, `regB
    {
      && dSlice3 == 3 * dSlice
      && unsignedDivisor * 8 < Modulus(shiftD)
      && DivisorSlice(unsignedDivisor, dSlice, Ulp(shiftD))
      && WithinTwoThirds(W, unsignedDivisor)
      && Represents(regS, regC, 4 * W, shiftD)
      && Converted(Q, regA, regB)
      && (Q == 0 ==> 4 * W >= 64 * Ulp(shiftD))
    }

    method Loop(oldRegS: u64, oldRegC: u64, oldRegA: u32, oldRegB: u32)
      requires oldRegS == regS && oldRegC == regC && oldRegA == regA && oldRegB == regB
      requires Recurrence() && loopTimes > 0
      modifies `regS, `regC, `regA, `regB, `W, `Q, `loopTimes, `loopValid, `fullAdderValid
      ensures Recurrence() && loopTimes == old(loopTimes) - 1
      ensures loopValid == (loopTimes != 0) && fullAdderValid == (loopTimes == 0 || old(fullAdderValid))
    {
      hide Represents, WithinTwoThirds, DivisorSlice, Converted, OnScale, Scale, IsSpecial, Magnitude;
      ghost var sum := W + Q * unsignedDivisor;
      DivisorFits(unsignedDivisor, dSlice, shiftD);
      LoopRegisters(oldRegS, oldRegC, oldRegA, oldRegB);
      NextScale(X(), clzD, shiftD, sum, loopTimes);
      loopTimes := loopTimes - 1;
      if loopTimes != 0 {
        loopValid := true;
      } else {
        loopValid := false;
        fullAdderValid := true;
      }
    }

    /** Finish an operation: quotient and remainder of the magnitudes. */
    method CalculateResult(oldRegS: u64, oldRegC: u64, oldRegA: u32, oldRegB: u32)
      requires oldRegS == regS && oldRegC == regC && oldRegA == regA && oldRegB == regB
      requires General() && Recurrence() && loopTimes == 0
      modifies `quotient, `remain, `fullAdderValid, `resultValid
      ensures !fullAdderValid && resultValid && GetValue() == Divide(operationType, src1, src2)
    {
      DivisorFits(unsignedDivisor, dSlice, shiftD);
      Leftover(X(), D(), Q, W, unsignedDivisor, clzD, shiftD, regA, regB);
      var Pk := AddRegisters(oldRegS, oldRegC, shiftD, 4 * W);
      quotient, remain := Correct(Pk, oldRegA, oldRegB, unsignedDivisor, clzD, shiftD, W, X() % D());
      fullAdderValid := false;
      resultValid := true;
      SignsRestored(operationType, src1, src2);
    }

    /** Everything but the operation type is cleared when the squash tag is older than the operation. */
    method Flush(tag: u8)
      modifies this
      ensures IsOlder(ROB_CAP, tag, old(robTag)) ==> CanAccept()
      ensures !IsOlder(ROB_CAP, tag, old(robTag)) ==> unchanged(this)
    {
      hide IsOlder;
      if IsOlder(ROB_CAP, tag, robTag) {
        unsignedDivisor, unsignedDividend := 0, 0;
        prepareValid := false;
        isDividendNegative, isResultNegative := false, false;
        clzX, clzD, loopTimes := 0, 0, 0;
        regS, regC, regA, regB := 0, 0, 0, 0;
        dSlice, dSlice3 := 0, 0;
        loopValid := false;
        quotient, remain := 0, 0;
        robTag := 0;
        fullAdderValid := false;
        shiftD := false;
        resultValid := false;
      }
    }

    /** The stages whose flags were up at the start of the tick do their work. */
    method Advance(fullAdder: bool, looping: bool, preparing: bool)
      requires Valid() && !resultValid && !CanAccept()
      requires fullAdder == fullAdderValid && looping == loopValid && preparing == prepareValid
      modifies this
      ensures Valid() && !CanAccept() && SameOperation()
      ensures Remaining() == old(Remaining()) - 1
    {
      hide Recurring, Divide, LoopCount, IsSpecial, Magnitude;
      if fullAdder {
        CalculateResult(regS, regC, regA, regB);
      }
      if looping {
        Loop(regS, regC, regA, regB);
      }
      if preparing {
        Prepare();
      }
    }

    /** One clock tick: the result bus, the active stage, a new operation, then a squash. */
    method Tick(cdbValid: bool, dispatch: Option<Dispatch>, squash: Option<u8>)
      requires Valid()
      requires cdbValid ==> IsReady()
      requires dispatch.Some? ==> CanAccept() && IsDivision(dispatch.value.op)
      modifies this
      ensures Valid()
      ensures var tag := if dispatch.Some? then dispatch.value.robTag else old(robTag);
              if squash.Some? && IsOlder(ROB_CAP, squash.value, tag) then CanAccept()
              else if dispatch.Some? then
                && operationType == dispatch.value.op && robTag == tag
                && src1 == dispatch.value.src1 && src2 == dispatch.value.src2 && !CanAccept()
                && Remaining() == Latency(operationType, src1, src2) - 1
              else if old(CanAccept()) || cdbValid then CanAccept()
              else if old(resultValid) then unchanged(this)
              else SameOperation() && !CanAccept() && Remaining() == old(Remaining()) - 1
    {
      var fullAdder, looping, preparing := fullAdderValid, loopValid, prepareValid;
      if cdbValid {
        resultValid := false;
      }
      if fullAdder || looping || preparing {
        Advance(fullAdder, looping, preparing);
      }
      if dispatch.Some? {
        Receive(dispatch.value.src1, dispatch.value.src2, dispatch.value.robTag, dispatch.value.op);
      }
      if squash.Some? {
        Flush(squash.value);
      }
    }

    /**
      Left alone, the unit turns an accepted operation into the required value in exactly
      `Latency` ticks, at most 19, and is free again once the bus has taken it.
     */
    method Run(dispatch: Dispatch) returns (value: i32, ticks: nat)
      requires Valid() && CanAccept() && IsDivision(dispatch.op)
      modifies this
      ensures Valid() && CanAccept()
      ensures value == Divide(dispatch.op, dispatch.src1, dispatch.src2)
      ensures ticks == Latency(dispatch.op, dispatch.src1, dispatch.src2) <= 19
    {
      LatencyBound(dispatch.op, dispatch.src1, dispatch.src2);
      Tick(false, Some(dispatch), None);
      ticks := 1;
      while !IsReady()
        invariant Valid() && !CanAccept()
        invariant operationType == dispatch.op && src1 == dispatch.src1 && src2 == dispatch.src2
        invariant ticks + Remaining() == Latency(dispatch.op, dispatch.src1, dispatch.src2)
        decreases Remaining()
      {
        Tick(false, None, None);
        ticks := ticks + 1;
      }
      value := GetValue();
      Tick(true, None, None);
    }
  }

  /** With all digits produced, the sign of W selects the register that holds the quotient. */
  lemma {:induction false} Leftover(x: u32, d: nat, Q: int, W: int, D: nat, clzD: nat, shiftD: bool, A: u32, B: u32)
    requires d > 0 && D == d * Scale(clzD, shiftD) && OnScale(x, clzD, shiftD, W + Q * D, 0)
    requires WithinTwoThirds(W, D) && OnTheFly(Q, W, A, B, shiftD, 0)
    ensures 0 <= x / d < TWO_32 && 0 <= x % d < TWO_32
    ensures (if W >= 0 then A else B) == x / d
    ensures (if W >= 0 then W else W + D) == (x % d) * Scale(clzD, shiftD)
  {
    LeftoverIsExact(x, d, Q, W, Scale(clzD, shiftD));
    UnsignedFits(x, d);
  }

  /** The sum of the registers as a 64-bit two's complement number. */
  method AddRegisters(oldRegS: u64, oldRegC: u64, shiftD: bool, ghost P: int) returns (Pk: u64)
    requires Represents(oldRegS, oldRegC, P, shiftD) && 2 * Abs(P) < Modulus(shiftD)
    ensures Pk == if P >= 0 then P else P + TWO_64
  {
    Pk := (oldRegS + oldRegC) % TWO_64 % Modulus(shiftD);
    SignedSum(oldRegS, oldRegC, P, shiftD);
    if (shiftD && Pk / 0x8_0000_0000 % 2 == 1) || (!shiftD && Pk / 0x4_0000_0000 % 2 == 1) {
      Pk := (Pk - Modulus(shiftD) + TWO_64) % TWO_64;
    }
  }

  /** A negative leftover means the quotient is one too large and the remainder one divisor too small. */
  method Correct(Pk: u64, oldRegA: u32, oldRegB: u32, divisor: u64, clzD: nat, shiftD: bool,
                 ghost W: int, ghost r: u32) returns (quotient: u32, remain: u32)
    requires Pk == if W >= 0 then 4 * W else 4 * W + TWO_64
    requires 4 * divisor < TWO_36 && 0 <= W + divisor && W < TWO_36
    requires (if W >= 0 then W else W + divisor) == r * Scale(clzD, shiftD)
    ensures quotient == (if W >= 0 then oldRegA else oldRegB) && remain == r
  {
    ghost var scaled: nat := if W >= 0 then W else W + divisor;
    Unscale(scaled, r, clzD, shiftD);
    if Pk / 0x8000_0000_0000_0000 == 0 {
      quotient := oldRegA;
      assert Pk == 4 * scaled;
      remain := Pk / 4 / (if shiftD then 2 else 1) / Pow2(clzD);
    } else {
      quotient := oldRegB;
      var corrected := (Pk + divisor * 4) % TWO_64;
      assert corrected == 4 * scaled;
      remain := corrected / 4 / (if shiftD then 2 else 1) / Pow2(clzD);
    }
  }

  lemma DivisorFits(D: nat, dSlice: int, shiftD: bool)
    requires DivisorSlice(D, dSlice, Ulp(shiftD))
    ensures D * 8 < Modulus(shiftD)
  {
  }

  lemma NextScale(x: nat, clzD: nat, shiftD: bool, sum: int, loopTimes: nat)
    requires loopTimes > 0 && OnScale(x, clzD, shiftD, sum, loopTimes)
    ensures OnScale(x, clzD, shiftD, 4 * sum, loopTimes - 1)
  {
    assert Pow2(2 * loopTimes) == 4 * Pow2(2 * (loopTimes - 1));
    MulAssociative(sum, 4, Pow2(2 * (loopTimes - 1)));
  }

  lemma UnsignedFits(x: u32, d: nat)
    requires d > 0
    ensures 0 <= x / d < TWO_32 && 0 <= x % d < TWO_32
  {
    DivBounds(x, d);
    DivMod(x, d);
  }

  /** The sum of the registers, cut to their width, is P read as a two's complement number. */
  lemma SignedSum(s: u64, c: u64, P: int, shiftD: bool)
    requires Represents(s, c, P, shiftD) && 2 * Abs(P) < Modulus(shiftD)
    ensures var p := (s + c) % TWO_64 % Modulus(shiftD);
            && p == (if P < 0 then P + Modulus(shiftD) else P)
            && ((if shiftD then p / 0x8_0000_0000 else p / 0x4_0000_0000) % 2 == 1 <==> P < 0)
  {
    var p := if P < 0 then P + Modulus(shiftD) else P;
    DivMod(s + c - P, Modulus(shiftD));
    var k := (s + c - P) / Modulus(shiftD);
    var wraps := (s + c) / TWO_64;
    var rest := (s + c) % TWO_64;
    if shiftD {
      DivModUnique(rest, TWO_36, k - (if P < 0 then 1 else 0) - 0x1000_0000 * wraps, p);
    } else {
      DivModUnique(rest, TWO_35, k - (if P < 0 then 1 else 0) - 0x2000_0000 * wraps, p);
    }
  }

  /** Dividing by the scale in three shifts recovers the remainder. */
  lemma {:induction false} Unscale(scaled: nat, r: nat, clzD: nat, shiftD: bool)
    requires scaled == r * Scale(clzD, shiftD)
    ensures 4 * scaled / 4 / (if shiftD then 2 else 1) / Pow2(clzD) == r
  {
    var two, p := if shiftD then 2 else 1, Pow2(clzD);
    assert Scale(clzD, shiftD) == two * p;
    hide Scale, Pow2;
    assert scaled == two * (p * r) by {
      MulAssociative(two, p, r);
      Swap(r, two * p);
    }
    DivModUnique(4 * scaled, 4, scaled, 0);
    DivModUnique(scaled, two, p * r, 0);
    DivModUnique(p * r, p, r, 0);
  }

  lemma Swap(a: int, b: int)
    ensures a * b == b * a
  {
  }

  /** The carry-save pair of the next partial remainder. */
  method UpdateRemainder(oldRegS: u64, oldRegC: u64, slice: int, dSlice: int, dSlice3: int, divisor: u64,
                         shiftD: bool, ghost W: int) returns (s: u64, c: u64)
    requires dSlice3 == 3 * dSlice && divisor * 8 < Modulus(shiftD) && Represents(oldRegS, oldRegC, 4 * W, shiftD)
    ensures Represents(s, c, 4 * (4 * W - SelectDigit(slice, dSlice) * divisor), shiftD)
  {
    var mask := Modulus(shiftD) - 1;
    var S4, C4 := oldRegS * 4 % Modulus(shiftD), oldRegC * 4 % Modulus(shiftD);
    ShiftedPair(oldRegS, oldRegC, 4 * W, shiftD);
    if slice >= dSlice3 {
      s, c := Subtract(S4, C4, divisor * 8, mask, shiftD, 16 * W);
    } else if slice >= dSlice {
      s, c := Subtract(S4, C4, divisor * 4, mask, shiftD, 16 * W);
    } else if slice >= -dSlice {
      s, c := CompressPair(S4, C4, mask + 1, shiftD, 16 * W);
    } else if slice >= -dSlice3 {
      s, c := Compress(S4, C4, divisor * 4, 0, mask + 1, shiftD, 16 * W);
    } else {
      s, c := Compress(S4, C4, divisor * 8, 0, mask + 1, shiftD, 16 * W);
    }
  }

  /** On-the-fly conversion: append the digit to A or, if it is negative, to B. */
  method ConvertQuotient(oldRegA: u32, oldRegB: u32, slice: int, dSlice: int, dSlice3: int, ghost Q: int)
    returns (a: u32, b: u32)
    requires dSlice3 == 3 * dSlice
    requires Converted(Q, oldRegA, oldRegB) && (Q == 0 ==> SelectDigit(slice, dSlice) > 0)
    ensures 4 * Q + SelectDigit(slice, dSlice) > 0
    ensures Converted(4 * Q + SelectDigit(slice, dSlice), a, b)
  {
    AppendDigit(Q, oldRegA);
    if Q > 0 {
      AppendDigit(Q - 1, oldRegB);
    }
    if slice >= dSlice3 {
      a, b := oldRegA * 4 % TWO_32 + 2, oldRegA * 4 % TWO_32 + 1;
    } else if slice >= dSlice {
      a, b := oldRegA * 4 % TWO_32 + 1, oldRegA * 4 % TWO_32;
    } else if slice >= -dSlice {
      a, b := oldRegA * 4 % TWO_32, oldRegB * 4 % TWO_32 + 3;
    } else if slice >= -dSlice3 {
      a, b := oldRegB * 4 % TWO_32 + 3, oldRegB * 4 % TWO_32 + 2;
    } else {
      a, b := oldRegB * 4 % TWO_32 + 2, oldRegB * 4 % TWO_32 + 1;
    }
  }

  /** Shifting a register by two bits and filling in a digit appends it modulo 2^32. */
  lemma AppendDigit(n: nat, r: u32)
    requires r == n % TWO_32
    ensures r * 4 % TWO_32 == 4 * n % TWO_32 && r * 4 % TWO_32 + 1 == (4 * n + 1) % TWO_32
    ensures r * 4 % TWO_32 + 2 == (4 * n + 2) % TWO_32 && r * 4 % TWO_32 + 3 == (4 * n + 3) % TWO_32
  {
    AppendOne(n, r, 0);
    AppendOne(n, r, 1);
    AppendOne(n, r, 2);
    AppendOne(n, r, 3);
  }

  lemma AppendOne(n: nat, r: u32, k: nat)
    requires r == n % TWO_32 && k < 4
    ensures r * 4 % TWO_32 + k == (4 * n + k) % TWO_32
  {
    var quotient, overflow := n / TWO_32, r / 0x4000_0000;
    assert r * 4 % TWO_32 == r * 4 - TWO_32 * overflow;
    DivModUnique(4 * n + k, TWO_32, 4 * quotient + overflow, r * 4 % TWO_32 + k);
  }

  lemma NextSum(W: int, Q: int, q: int, D: int)
    ensures 4 * W - q * D + (4 * Q + q) * D == 4 * (W + Q * D)
  {
  }

  /** The folded and sign-extended slice sum with its lowest bit dropped. */
  method EstimateSlice(s: u64, c: u64, shiftD: bool, ghost W: int, ghost D: nat, ghost dSlice: int) returns (slice: int)
    requires DivisorSlice(D, dSlice, Ulp(shiftD)) && WithinTwoThirds(W, D) && Represents(s, c, 4 * W, shiftD)
    ensures WithinTwoThirds(4 * W - SelectDigit(slice, dSlice) * D, D)
    ensures 4 * W >= 64 * Ulp(shiftD) ==> SelectDigit(slice, dSlice) > 0
  {
    hide Xor;
    var sum9 := s / Ulp(shiftD) % 512 + c / Ulp(shiftD) % 512;
    var signed := Xor(sum9 % 512, 0x100) - 0x100;
    slice := signed - signed % 2;
    SignExtend(sum9 % 512);
    EstimateIsClose(s, c, 4 * W, Ulp(shiftD));
    DigitIsLegal(W, D, dSlice, Ulp(shiftD), slice);
  }

  lemma SignExtend(sum: nat)
    requires sum < 512
    ensures Xor(sum, 0x100) - 0x100 == Signed9(sum)
  {
    Pow2SmallValues();
    XorTopBit(sum, 8);
  }

  /** The preparation step: align the operands, cut the divisor slice, produce the first digit. */
  method FirstStep(dividend: u32, divisor: u32, clzX: nat, clzD: nat)
    returns (X: u64, D: u64, loopTimes: u8, shiftD: bool, dSlice: int, dSlice3: int,
             s: u64, c: u64, a: u32, b: u32, ghost W: int, ghost Q: int)
    requires 0 < divisor < dividend && clzX == 32 - BitWidth(dividend) && clzD == 32 - BitWidth(divisor)
    ensures loopTimes == LoopCount(dividend, divisor) <= 16
    ensures Recurring(dividend, divisor, D, clzD, shiftD, dSlice, dSlice3, loopTimes, W, Q, s, c, a, b)
  {
    X, D, loopTimes, shiftD := AlignOperands(dividend, divisor, clzX, clzD);
    dSlice := TopBits(D, shiftD);
    dSlice3 := dSlice + dSlice * 2;
    s, c, a, b, W, Q := SelectFirstDigit(X, D, dSlice, dSlice3, shiftD);
  }

  /** Normalise both operands; double the divisor if their alignment is odd. */
  method AlignOperands(dividend: u32, divisor: u32, clzX: nat, clzD: nat)
    returns (X: u64, D: u64, loopTimes: u8, shiftD: bool)
    requires 0 < divisor < dividend && clzX == 32 - BitWidth(dividend) && clzD == 32 - BitWidth(divisor)
    ensures loopTimes == LoopCount(dividend, divisor) <= 16 && (shiftD ==> loopTimes > 0)
    ensures 0x8000_0000 <= X < TWO_32
    ensures Aligned(dividend, divisor, D, clzD, shiftD, TopBits(D, shiftD))
    ensures OnScale(dividend, clzD, shiftD, X, loopTimes)
  {
    OperandWidths(dividend, divisor);
    var align := clzD - clzX;
    loopTimes := (align + 1) / 2;
    shiftD := align % 2 == 1;
    X := dividend * Pow2(clzX);
    D := divisor * Pow2(clzD) * if shiftD then 2 else 1;
    AlignmentIsExact(dividend, divisor, clzX, clzD, shiftD, loopTimes);
  }

  /** Choose the first digit and seed the carry-save registers. */
  method SelectFirstDigit(dividend: u64, divisor: u64, dSlice: int, dSlice3: int, shiftD: bool)
    returns (s: u64, c: u64, a: u32, b: u32, ghost W: int, ghost Q: int)
    requires DivisorSlice(divisor, dSlice, Ulp(shiftD)) && dSlice3 == 3 * dSlice
    requires divisor < 0x2_0000_0000 && 0x8000_0000 <= dividend < TWO_32
    ensures WithinTwoThirds(W, divisor) && W + Q * divisor == dividend
    ensures Represents(s, c, 4 * W, shiftD)
    ensures Converted(Q, a, b) && (Q == 0 ==> shiftD && 4 * W >= 64 * Ulp(shiftD))
  {
    var slice := if shiftD then dividend / 0x800_0000 else dividend / 0x400_0000;
    FirstDigitBound(dividend, divisor, dSlice, shiftD, slice);
    if slice >= dSlice3 {
      W, Q := dividend - divisor * 2, 2;
      s, c := SeedRegisters(dividend, divisor * 2, shiftD);
      a, b := 2, 1;
    } else if slice >= dSlice {
      W, Q := dividend - divisor, 1;
      s, c := SeedRegisters(dividend, divisor, shiftD);
      a, b := 1, 0;
    } else {
      W, Q := dividend, 0;
      s, c := dividend * 4, 0;
      a, b := 0, 3;
    }
  }

  /** The five top bits of the aligned divisor. */
  function TopBits(D: nat, shiftD: bool): int {
    if shiftD then D / 0x1000_0000 % 32 else D / 0x800_0000 % 32
  }

  lemma {:induction false} OperandWidths(x: u32, d: u32)
    requires 0 < d < x
    ensures 1 <= BitWidth(d) <= BitWidth(x) <= 32
    ensures 0x8000_0000 <= x * Pow2(32 - BitWidth(x)) < TWO_32
    ensures 0x8000_0000 <= d * Pow2(32 - BitWidth(d)) < TWO_32
  {
    Normalised(x);
    Normalised(d);
    BitWidthMonotone(d, x);
    BitWidthBounds(d);
  }

  lemma {:induction false} AlignmentIsExact(x: u32, d: u32, clzX: nat, clzD: nat, shiftD: bool, loopTimes: nat)
    requires 0 < d < x && clzX == 32 - BitWidth(x) && clzD == 32 - BitWidth(d)
    requires clzX <= clzD && shiftD == ((clzD - clzX) % 2 == 1) && loopTimes == (clzD - clzX + 1) / 2
    ensures var X, D := x * Pow2(clzX), d * Pow2(clzD) * if shiftD then 2 else 1;
            Aligned(x, d, D, clzD, shiftD, TopBits(D, shiftD)) && OnScale(x, clzD, shiftD, X, loopTimes)
  {
    OperandWidths(x, d);
    Alignment(x, d, clzX, clzD, shiftD, loopTimes);
    SliceOfNormalised(d * Pow2(clzD), shiftD);
  }

  lemma SliceOfNormalised(D: nat, shiftD: bool)
    requires 0x8000_0000 <= D < TWO_32
    ensures var D' := D * if shiftD then 2 else 1; DivisorSlice(D', TopBits(D', shiftD), Ulp(shiftD))
  {
  }

  lemma FirstDigitBound(X: nat, D: nat, dSlice: int, shiftD: bool, slice: int)
    requires DivisorSlice(D, dSlice, Ulp(shiftD)) && 0x8000_0000 <= X < TWO_32
    requires slice == if shiftD then X / 0x800_0000 else X / 0x400_0000
    ensures slice >= 3 * dSlice ==> WithinTwoThirds(X - D * 2, D)
    ensures dSlice <= slice < 3 * dSlice ==> WithinTwoThirds(X - D, D)
    ensures slice < dSlice ==> WithinTwoThirds(X, D) && shiftD && 4 * X >= 64 * Ulp(shiftD)
  {
    FirstDigitIsLegal(X, D, dSlice, Ulp(shiftD), shiftD);
  }

  /** The 64-bit complement. */
  function Not64(x: u64): u64 {
    0xFFFF_FFFF_FFFF_FFFF - x
  }

  /** Carry-save form of four times (dividend - subtrahend), on 64-bit words. */
  method SeedRegisters(dividend: u64, subtrahend: u64, ghost shiftD: bool) returns (s: u64, c: u64)
    ensures Represents(s, c, 4 * (dividend - subtrahend), shiftD)
  {
    hide Xor, Or, And;
    var notSubtrahend := Not64(subtrahend);
    s := Xor(Xor(dividend, notSubtrahend), 1) * 4 % TWO_64;
    c := Or(Or(And(dividend, notSubtrahend), And(dividend, 1)), And(notSubtrahend, 1)) * 8 % TWO_64;
    CarrySaveSum(dividend, notSubtrahend, 1);
    SeedWraps(Xor(Xor(dividend, notSubtrahend), 1), Majority(dividend, notSubtrahend, 1), dividend - subtrahend);
  }

  lemma SeedWraps(sum: nat, carry: nat, w: int)
    requires sum + 2 * carry == w + TWO_64
    ensures (sum * 4 % TWO_64 + carry * 8 % TWO_64 - 4 * w) % TWO_36 == 0
    ensures (sum * 4 % TWO_64 + carry * 8 % TWO_64 - 4 * w) % TWO_35 == 0
  {
    var k := 4 - sum * 4 / TWO_64 - carry * 8 / TWO_64;
    var excess := sum * 4 % TWO_64 + carry * 8 % TWO_64 - 4 * w;
    assert excess == TWO_64 * k;
    DivModUnique(excess, TWO_36, 0x1000_0000 * k, 0);
    DivModUnique(excess, TWO_35, 0x2000_0000 * k, 0);
  }

  /** Shifting a word left by its leading zeros puts its top bit at position 31. */
  lemma {:induction false} Normalised(n: u32)
    requires n > 0
    ensures BitWidth(n) <= 32 && 0x8000_0000 <= n * Pow2(32 - BitWidth(n)) < TWO_32
  {
    WordWidth(n);
    BitWidthBounds(n);
    var w := BitWidth(n);
    var p, low := Pow2(32 - w), Pow2(w - 1);
    Pow2Add(32 - w, w);
    Pow2Add(32 - w, w - 1);
    Pow2Of32();
    assert Pow2(32) == 2 * Pow2(31);
    MulMonotone(p, low, n);
    MulLess(p, n, Pow2(w));
    assert n * p == p * n;
  }

  lemma WordWidth(n: u32)
    ensures BitWidth(n) <= 32
  {
    BitWidthMonotone(n, 0xFFFF_FFFF);
    Pow2Of32();
    BitWidthUnique(0xFFFF_FFFF, 32);
  }

  /** The digits still to come bring the normalised dividend to the scale of the divisor. */
  lemma {:induction false} Alignment(x: nat, d: nat, clzX: nat, clzD: nat, shiftD: bool, loopTimes: nat)
    requires clzX <= clzD && loopTimes == (clzD - clzX + 1) / 2 && shiftD == ((clzD - clzX) % 2 == 1)
    ensures x * Pow2(clzX) * Pow2(2 * loopTimes) == x * Scale(clzD, shiftD)
    ensures d * Scale(clzD, shiftD) == d * Pow2(clzD) * if shiftD then 2 else 1
  {
    var s := if shiftD then 1 else 0;
    assert clzX + 2 * loopTimes == clzD + s;
    Pow2Add(clzX, 2 * loopTimes);
    MulAssociative(x, Pow2(clzX), Pow2(2 * loopTimes));
    assert Scale(clzD, shiftD) == Pow2(clzD) * if shiftD then 2 else 1;
    MulAssociative(d, Pow2(clzD), if shiftD then 2 else 1);
  }

  /** Numbers that agree modulo the register width are represented by the same pair. */
  lemma RepresentsSame(s: nat, c: nat, P: int, P': int, k: int, shiftD: bool)
    requires Represents(s, c, P, shiftD) && P == P' + k * Modulus(shiftD)
    ensures Represents(s, c, P', shiftD)
  {
    ModEqual(s + c - P', s + c - P, k, Modulus(shiftD));
  }

  /** Shifting both registers left by two bits, dropping what falls out, multiplies by four. */
  lemma ShiftedPair(s: nat, c: nat, P: int, shiftD: bool)
    requires Represents(s, c, P, shiftD)
    ensures Represents(s * 4 % Modulus(shiftD), c * 4 % Modulus(shiftD), 4 * P, shiftD)
  {
    var m := Modulus(shiftD);
    DivMod(s + c - P, m);
    DivMod(s * 4, m);
    DivMod(c * 4, m);
    var k := 4 * ((s + c - P) / m) - s * 4 / m - c * 4 / m;
    ModEqual(s * 4 % m + c * 4 % m - 4 * P, 0, k, m);
  }

  /** A 3:2 compression of two registers that stand for P and a row, cut to the register width. */
  method Compress(s4: u64, c4: u64, row: u64, carryIn: u64, modulus: u64, ghost shiftD: bool, ghost P: int)
    returns (s: u64, c: u64)
    requires modulus == Modulus(shiftD) && Represents(s4, c4, P, shiftD)
    ensures Represents(s, c, P + row + carryIn, shiftD)
  {
    var sum, carry := Xor(Xor(s4, c4), row), Or(Or(And(s4, c4), And(s4, row)), And(c4, row)) * 2 + carryIn;
    CarrySaveSum(s4, c4, row);
    s, c := sum % modulus, carry % modulus;
    CutToWidth(sum, carry, s4, c4, P, row + carryIn, shiftD);
  }

  /** The compression of the two registers alone, for the digit 0. */
  method CompressPair(s4: u64, c4: u64, modulus: u64, ghost shiftD: bool, ghost P: int) returns (s: u64, c: u64)
    requires modulus == Modulus(shiftD) && Represents(s4, c4, P, shiftD)
    ensures Represents(s, c, P, shiftD)
  {
    var sum, carry := Xor(s4, c4), And(s4, c4) * 2;
    TwoWordSum(s4, c4);
    s, c := sum % modulus, carry % modulus;
    CutToWidth(sum, carry, s4, c4, P, 0, shiftD);
  }

  /** Subtraction by adding the complement with a carry into the lowest bit. */
  method Subtract(s4: u64, c4: u64, subtrahend: u64, mask: u64, ghost shiftD: bool, ghost P: int)
    returns (s: u64, c: u64)
    requires mask == Modulus(shiftD) - 1 && subtrahend <= mask && Represents(s4, c4, P, shiftD)
    ensures Represents(s, c, P - subtrahend, shiftD)
  {
    var row := Xor(mask, subtrahend);
    MaskIsOnes(shiftD);
    XorOnes(subtrahend, if shiftD then 36 else 35);
    s, c := Compress(s4, c4, row, 1, mask + 1, shiftD, P);
    RepresentsSame(s, c, P + row + 1, P - subtrahend, 1, shiftD);
  }

  lemma MaskIsOnes(shiftD: bool)
    ensures Modulus(shiftD) == Pow2(if shiftD then 36 else 35)
  {
    Pow2Of32();
    Pow2SmallValues();
    Pow2Add(32, 4);
    assert Pow2(36) == 2 * Pow2(35);
  }

  lemma CutToWidth(sum: nat, carry: nat, s4: nat, c4: nat, P: int, added: int, shiftD: bool)
    requires sum + carry == s4 + c4 + added && Represents(s4, c4, P, shiftD)
    ensures Represents(sum % Modulus(shiftD), carry % Modulus(shiftD), P + added, shiftD)
  {
    var m := Modulus(shiftD);
    DivMod(sum, m);
    DivMod(carry, m);
    DivMod(s4 + c4 - P, m);
    var k := (s4 + c4 - P) / m - sum / m - carry / m;
    ModEqual(sum % m + carry % m - (P + added), 0, k, m);
  }

  /** Quotient and remainder of magnitudes that need no digit recurrence. */
  lemma SmallDividend(x: nat, d: nat)
    requires 0 < d && x <= d
    ensures x / d == (if x == d then 1 else 0) && x % d == (if x == d then 0 else x)
  {
    if x == d {
      DivModUnique(x, d, 1, 0);
    } else {
      DivModUnique(x, d, 0, x);
    }
  }

  /** Negating the pattern of a negative number gives its magnitude, also for the smallest one. */
  lemma NegativePattern(v: i32)
    ensures v < 0 ==> Negated(ToUnsigned(v)) == Abs(v)
    ensures v >= 0 ==> ToUnsigned(v) == Abs(v)
  {
  }

  lemma MagnitudePattern(op: Operation, v: i32)
    ensures Magnitude(op, v) == if IsSignedDivision(op) && v < 0 then Negated(ToUnsigned(v)) else ToUnsigned(v)
  {
    NegativePattern(v);
  }

  lemma SmallUnsigned(op: Operation, x: i32, d: i32)
    requires (op.DIVU? || op.REMU?) && 0 < ToUnsigned(d) && ToUnsigned(x) <= ToUnsigned(d)
    ensures Divide(op, x, d) ==
            if op.DIVU? then (if x == d then 1 else 0) else if x == d then 0 else x
  {
    SmallDividend(ToUnsigned(x), ToUnsigned(d));
  }

  lemma SmallSigned(op: Operation, x: i32, d: i32)
    requires (op.DIV? || op.REM?) && 0 < Abs(d) && Abs(x) <= Abs(d) && !(x == INT_MIN && d == -1)
    ensures Divide(op, x, d) ==
            if op.DIV? then (if x == d then 1 else if x + d == 0 then -1 else 0)
            else if Abs(x) == Abs(d) then 0 else x
  {
    SmallDividend(Abs(x), Abs(d));
    if Abs(x) < Abs(d) {
      assert Truncated(x, d) == 0;
    } else if op.REM? {
      RemainderFits(x, d);
    }
  }
}
