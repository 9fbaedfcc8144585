/**
  The arithmetic behind radix-4 digit-recurrence division: why the digit chosen from two
  truncated carry-save slices keeps the partial remainder within two thirds of the divisor,
  and why the remainder that is left over gives the exact quotient.
 */
module SrtDivision {
  import opened Arithmetic

  /** The digit the five comparisons choose: 2, 1, 0, -1 or -2. */
  function SelectDigit(slice: int, dSlice: int): int {
    if slice >= 3 * dSlice then 2
    else if slice >= dSlice then 1
    else if slice >= -dSlice then 0
    else if slice >= -3 * dSlice then -1
    else -2
  }

  /** The 9-bit two's complement reading of a slice sum. */
  function Signed9(s: nat): int
    requires s < 512
  {
    if s < 256 then s else s - 512
  }

  /** The slice estimate: both 9-bit slices added, read as signed, lowest bit dropped. */
  function Estimate(s: nat, c: nat, ulp: nat): int
    requires ulp > 0
  {
    var t := Signed9((s / ulp % 512 + c / ulp % 512) % 512);
    t - t % 2
  }

  /** The divisor slice is the divisor in steps of two ulps, and the divisor is normalised. */
  ghost predicate DivisorSlice(D: nat, dSlice: int, ulp: nat) {
    && 16 <= dSlice <= 31
    && 2 * (ulp * dSlice) <= D < 2 * (ulp * dSlice) + 2 * ulp
  }

  /** Splitting both registers at an ulp splits the represented remainder at a whole number of ulps. */
  lemma SplitSum(s: nat, c: nat, P: int, ulp: nat) returns (t: int, k: int, rest: int)
    requires ulp > 0
    requires (s + c - P) % (512 * ulp) == 0
    ensures t == s / ulp + c / ulp - 512 * k
    ensures P == ulp * t + rest && 0 <= rest < 2 * ulp
  {
    DivMod(s, ulp);
    DivMod(c, ulp);
    DivMod(s + c - P, 512 * ulp);
    k := (s + c - P) / (512 * ulp);
    t, rest := s / ulp + c / ulp - 512 * k, s % ulp + c % ulp;
    calc {
      ulp * t + rest;
      ulp * (s / ulp) + s % ulp + (ulp * (c / ulp) + c % ulp) - 512 * ulp * k;
      s + c - 512 * ulp * k;
    }
  }

  lemma EstimateOfSplit(s: nat, c: nat, ulp: nat, t: int, k: int)
    requires ulp > 0 && t == s / ulp + c / ulp - 512 * k && -256 <= t < 256
    ensures Estimate(s, c, ulp) == t - t % 2
  {
    FoldedSlices(s / ulp, c / ulp, t, k);
  }

  lemma FoldedSlices(a: nat, b: nat, t: int, k: int)
    requires t == a + b - 512 * k && -256 <= t < 256
    ensures Signed9((a % 512 + b % 512) % 512) == t
  {
  }

  /**
    The folded slice sum never aliases: the estimate lies at most three ulps below the
    shifted partial remainder P that the two registers represent modulo 512 ulps.
   */
  lemma EstimateIsClose(s: nat, c: nat, P: int, ulp: nat)
    requires ulp > 0
    requires (s + c - P) % (512 * ulp) == 0
    requires -200 * ulp < P < 200 * ulp
    ensures ulp * Estimate(s, c, ulp) <= P < ulp * Estimate(s, c, ulp) + 3 * ulp
  {
    hide Estimate;
    var t, k, rest := SplitSum(s, c, P, ulp);
    MulLess(ulp, t, 200);
    MulLess(ulp, -202, t);
    EstimateOfSplit(s, c, ulp, t, k);
    DroppedBit(ulp, t, t - t % 2);
  }

  /** Dropping the lowest bit of the estimate costs at most one ulp. */
  lemma DroppedBit(ulp: nat, t: int, e: int)
    requires e == t - t % 2
    ensures ulp * t - ulp <= ulp * e <= ulp * t
  {
    MulMonotone(ulp, t - 1, e);
    MulMonotone(ulp, e, t);
  }

  /** Comparing slices is comparing remainders with multiples of the truncated divisor. */
  lemma ScaleComparison(ulp: nat, slice: int, bound: int)
    requires ulp > 0
    ensures slice >= bound ==> ulp * slice >= ulp * bound
    ensures slice < bound ==> ulp * slice <= ulp * bound - ulp
  {
    if slice >= bound {
      MulMonotone(ulp, bound, slice);
    } else {
      MulMonotone(ulp, slice, bound - 1);
    }
  }

  /** The digit chosen from an estimate keeps the next partial remainder within bounds. */
  lemma DigitIsLegal(W: int, D: nat, dSlice: int, ulp: nat, slice: int)
    requires ulp > 0
    requires DivisorSlice(D, dSlice, ulp)
    requires -2 * D <= 3 * W <= 2 * D
    requires ulp * slice <= 4 * W < ulp * slice + 3 * ulp
    ensures -2 * D <= 3 * (4 * W - SelectDigit(slice, dSlice) * D) <= 2 * D
  {
    ScaleComparison(ulp, slice, 3 * dSlice);
    ScaleComparison(ulp, slice, dSlice);
    ScaleComparison(ulp, slice, -dSlice);
    ScaleComparison(ulp, slice, -3 * dSlice);
    MulMonotone(ulp, 16, dSlice);
    var a := ulp * dSlice;
    assert ulp * (3 * dSlice) == 3 * a && ulp * (-dSlice) == -a && ulp * (-3 * dSlice) == -3 * a;
    DigitBounds(4 * W, D, a, ulp, ulp * slice, SelectDigit(slice, dSlice));
  }

  /** The linear core of digit selection: P is four times the partial remainder. */
  lemma DigitBounds(P: int, D: int, a: int, ulp: nat, p: int, q: int)
    requires ulp > 0 && 16 * ulp <= a && 2 * a <= D < 2 * a + 2 * ulp
    requires -8 * D <= 3 * P <= 8 * D
    requires p <= P < p + 3 * ulp
    requires -2 <= q <= 2
    requires q < 2 ==> p <= 3 * a - ulp
    requires q < 1 ==> p <= a - ulp
    requires q < 0 ==> p <= -a - ulp
    requires q < -1 ==> p <= -3 * a - ulp
    requires q == 2 ==> p >= 3 * a
    requires q == 1 ==> p >= a
    requires q == 0 ==> p >= -a
    requires q == -1 ==> p >= -3 * a
    ensures -2 * D <= 3 * (P - q * D) <= 2 * D
  {
    if q == 2 { assert q * D == 2 * D; }
    else if q == 1 { assert q * D == D; }
    else if q == 0 { assert q * D == 0; }
    else if q == -1 { assert q * D == -D; }
    else { assert q * D == -2 * D; }
  }

  /** The digit of the preparation step, chosen by comparing one exact slice. */
  function FirstDigit(slice: int, dSlice: int): int {
    if slice >= 3 * dSlice then 2 else if slice >= dSlice then 1 else 0
  }

  /**
    The first digit establishes the bound. It is 0 only for a divisor that was doubled to
    make the alignment even, whose dividend is then at most half as large as the divisor.
   */
  lemma FirstDigitIsLegal(X: nat, D: nat, dSlice: int, half: nat, shiftD: bool)
    requires half > 0
    requires DivisorSlice(D, dSlice, half)
    requires if shiftD then 16 * half <= X < 32 * half else 32 * half <= X < 64 * half
    ensures -2 * D <= 3 * (X - FirstDigit(X / half, dSlice) * D) <= 2 * D
    ensures FirstDigit(X / half, dSlice) == 0 ==> shiftD
  {
    DivMod(X, half);
    ScaleComparison(half, X / half, 3 * dSlice);
    ScaleComparison(half, X / half, dSlice);
    MulMonotone(half, 16, dSlice);
    MulMonotone(half, dSlice, 31);
    var a := half * dSlice;
    assert half * (3 * dSlice) == 3 * a;
    FirstDigitBounds(X, D, a, half, half * (X / half), FirstDigit(X / half, dSlice), shiftD);
  }

  lemma FirstDigitBounds(X: nat, D: nat, a: int, half: nat, p: int, q: int, shiftD: bool)
    requires half > 0 && 16 * half <= a <= 31 * half && 2 * a <= D < 2 * a + 2 * half
    requires p <= X < p + half
    requires if shiftD then 16 * half <= X < 32 * half else 32 * half <= X < 64 * half
    requires 0 <= q <= 2
    requires q < 2 ==> p <= 3 * a - half
    requires q < 1 ==> p <= a - half
    requires q == 2 ==> p >= 3 * a
    requires q == 1 ==> p >= a
    ensures -2 * D <= 3 * (X - q * D) <= 2 * D
    ensures q == 0 ==> shiftD
  {
    if q == 2 { assert q * D == 2 * D; }
    else if q == 1 { assert q * D == D; }
    else { assert q * D == 0; }
  }

  /**
    When the digits are used up, W + Q*D equals the dividend on the divisor's scale, and the
    sign of W tells whether Q or Q - 1 is the quotient.
   */
  lemma LeftoverIsExact(x: nat, d: int, Q: int, W: int, scale: nat)
    requires d > 0 && scale > 0
    requires W + Q * (d * scale) == x * scale
    requires -2 * (d * scale) <= 3 * W <= 2 * (d * scale)
    ensures W >= 0 ==> Q == x / d && W == (x % d) * scale
    ensures W < 0 ==> Q - 1 == x / d && W + d * scale == (x % d) * scale
  {
    var r := x - Q * d;
    assert W == r * scale by {
      assert Q * (d * scale) == (Q * d) * scale;
    }
    assert d * scale == scale * d && r * scale == scale * r;
    if W >= 0 {
      MulLess(scale, r, d);
      MulLess(scale, -1, r);
      DivModUnique(x, d, Q, r);
    } else {
      MulLess(scale, -d, r);
      MulLess(scale, r, 0);
      DivModUnique(x, d, Q - 1, r + d);
    }
  }
}
