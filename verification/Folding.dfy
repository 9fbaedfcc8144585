/**
  Folded branch history: the exclusive or of the W-bit chunks of the H youngest outcomes. One
  rotation and two bits advance the fold when an outcome is shifted in.
 */
module Folding {
  import opened Arithmetic
  import opened Bits

  // ---------- The fold

  /** The exclusive or of all chunks of W bits. */
  function Fold(x: nat, W: nat): nat
    requires W > 0
    decreases x
  {
    if x == 0 then 0
    else
      ShiftShrinks(x, W);
      Xor(LowBits(x, W), Fold(ShiftRight(x, W), W))
  }

  lemma ShiftShrinks(x: nat, n: nat)
    requires n > 0
    ensures ShiftRight(x, n) <= x && (x > 0 ==> ShiftRight(x, n) < x)
    ensures x == 0 ==> LowBits(x, n) == 0 == ShiftRight(x, n)
  {
    hide Pow2;
    assert Pow2(n) >= 2 by {
      Pow2Positive(n);
    }
    DivBounds(x, Pow2(n));
    DivMod(x, Pow2(n));
  }

  lemma Pow2Positive(n: nat)
    requires n > 0
    ensures Pow2(n) >= 2
  {
  }

  /** The recursion also holds at zero. */
  lemma {:induction false} FoldUnfolds(x: nat, W: nat)
    requires W > 0
    ensures Fold(x, W) == Xor(LowBits(x, W), Fold(ShiftRight(x, W), W))
  {
    hide Xor, LowBits, ShiftRight;
    ShiftShrinks(x, W);
    if x == 0 {
      XorZero(0);
    }
  }

  lemma {:induction false} FoldBound(x: nat, W: nat)
    requires W > 0
    ensures Fold(x, W) < Pow2(W)
    decreases x
  {
    hide Xor, LowBits, ShiftRight;
    if x > 0 {
      ShiftShrinks(x, W);
      FoldBound(ShiftRight(x, W), W);
      XorBound(LowBits(x, W), Fold(ShiftRight(x, W), W), W);
    }
  }

  lemma XorSwap(a: nat, b: nat, c: nat, d: nat)
    ensures Xor(Xor(a, b), Xor(c, d)) == Xor(Xor(a, c), Xor(b, d))
  {
    hide Xor;
    XorAssociates(a, b, Xor(c, d));
    XorAssociates(b, c, d);
    XorCommutes(b, c);
    XorAssociates(c, b, d);
    XorAssociates(a, c, Xor(b, d));
  }

  /** Folding distributes over exclusive or. */
  lemma {:induction false} FoldXor(x: nat, y: nat, W: nat)
    requires W > 0
    ensures Fold(Xor(x, y), W) == Xor(Fold(x, W), Fold(y, W))
    decreases x + y
  {
    if x + y == 0 {
      XorZero(0);
    } else {
      hide Xor, Fold, LowBits, ShiftRight;
      ShiftShrinks(x, W);
      ShiftShrinks(y, W);
      var x', y' := ShiftRight(x, W), ShiftRight(y, W);
      FoldXor(x', y', W);
      XorShift(x, y, W);
      XorMask(x, y, W);
      FoldUnfolds(x, W);
      FoldUnfolds(y, W);
      FoldUnfolds(Xor(x, y), W);
      XorSwap(LowBits(x, W), LowBits(y, W), Fold(x', W), Fold(y', W));
    }
  }

  /** A single bit folds onto its position modulo W. */
  lemma {:induction false} FoldOfBit(n: nat, W: nat)
    requires W > 0
    ensures Fold(Pow2(n), W) == Pow2(n % W)
  {
    hide Xor, Fold, LowBits, ShiftRight, Pow2;
    FoldUnfolds(Pow2(n), W);
    if n < W {
      SmallBit(n, W);
      FoldOfNothing(W);
      XorZero(Pow2(n));
    } else {
      LargeBit(n, W);
      FoldOfBit(n - W, W);
      XorZero(Pow2(n % W));
      ModEqual(n, n - W, 1, W);
    }
  }

  lemma FoldOfNothing(W: nat)
    requires W > 0
    ensures Fold(0, W) == 0
  {
  }

  lemma {:induction false} SmallBit(n: nat, W: nat)
    requires n < W
    ensures LowBits(Pow2(n), W) == Pow2(n) && ShiftRight(Pow2(n), W) == 0
  {
    Pow2Monotone(n + 1, W);
    DivModUnique(Pow2(n), Pow2(W), 0, Pow2(n));
  }

  lemma {:induction false} LargeBit(n: nat, W: nat)
    requires n >= W
    ensures LowBits(Pow2(n), W) == 0 && ShiftRight(Pow2(n), W) == Pow2(n - W)
  {
    Pow2Add(W, n - W);
    DivModUnique(Pow2(n), Pow2(W), Pow2(n - W), 0);
  }

  // ---------- The step

  /** Rotation by one place inside W bits, as the program writes it. */
  function Rotate(v: nat, W: nat): nat
    requires W > 0
  {
    LowBits(Or(2 * v, ShiftRight(v, W - 1)), W)
  }

  /** One step of a folded view: rotate, add the new outcome, take out the one that leaves. */
  function StepFold(v: nat, b: nat, disc: nat, wrap: nat, W: nat): nat
    requires W > 0
  {
    LowBits(Xor(Xor(Rotate(v, W), b), ShiftLeft(disc, wrap)), W)
  }

  lemma DoubleSplits(x: nat, b: nat, n: nat)
    requires n > 0 && b < 2
    ensures LowBits(2 * x + b, n) == 2 * LowBits(x, n - 1) + b && ShiftRight(2 * x + b, n) == ShiftRight(x, n - 1)
  {
    hide LowBits, ShiftRight;
    HalveShift(2 * x + b, n);
  }

  /** The top bit of the n low ones. */
  function TopBit(x: nat, n: nat): nat
    requires n > 0
  {
    ShiftRight(x, n - 1) % 2
  }

  lemma {:induction false} TopSplits(x: nat, n: nat)
    requires n > 0
    ensures LowBits(x, n) == LowBits(x, n - 1) + ShiftLeft(TopBit(x, n), n - 1)
    ensures ShiftRight(x, n - 1) == 2 * ShiftRight(x, n) + TopBit(x, n)
    ensures LowBits(LowBits(x, n), n - 1) == LowBits(x, n - 1) && ShiftRight(LowBits(x, n), n - 1) == TopBit(x, n)
  {
    var p := Pow2(n - 1);
    var q, t, m := x / (2 * p), x / p % 2, x % p;
    DivMod(x, p);
    DivMod(x / p, 2);
    DivDiv(x, p, 2);
    assert x == 2 * p * q + (p * t + m) by {
      assert p * (2 * q + t) == 2 * p * q + p * t;
    }
    MulMonotone(p, t, 1);
    DivModUnique(x, 2 * p, q, p * t + m);
    DivModUnique(p * t + m, p, t, m);
  }

  lemma {:induction false} RotateIs(v: nat, W: nat)
    requires W > 0 && v < Pow2(W)
    ensures Rotate(v, W) == 2 * LowBits(v, W - 1) + ShiftRight(v, W - 1) && ShiftRight(v, W - 1) < 2
    ensures ShiftRight(v, W - 1) == TopBit(v, W)
  {
    hide Or, Pow2;
    var t := ShiftRight(v, W - 1);
    assert t < 2 by {
      TopOfBounded(v, W);
    }
    assert Or(2 * v, t) == 2 * v + t by {
      OrBit(v, t);
    }
    DoubleSplits(v, t, W);
  }

  lemma TopOfBounded(v: nat, W: nat)
    requires W > 0 && v < Pow2(W)
    ensures ShiftRight(v, W - 1) < 2
  {
    DivMod(v, Pow2(W - 1));
    MulLess(Pow2(W - 1), v / Pow2(W - 1), 2);
  }

  lemma {:induction false} OrBit(v: nat, t: nat)
    requires t < 2
    ensures Or(2 * v, t) == 2 * v + t
  {
    OrZero(v);
    HalveOr(2 * v, t);
  }

  lemma {:induction false} OrZero(v: nat)
    ensures Or(v, 0) == v
  {
    if v > 0 {
      OrZero(v / 2);
    }
  }

  lemma {:induction false} RotateXor(u: nat, v: nat, W: nat)
    requires W > 0 && u < Pow2(W) && v < Pow2(W)
    ensures Rotate(Xor(u, v), W) == Xor(Rotate(u, W), Rotate(v, W))
  {
    hide Xor, LowBits, ShiftRight, Rotate, Pow2;
    XorBound(u, v, W);
    RotateIs(u, W);
    RotateIs(v, W);
    RotateIs(Xor(u, v), W);
    XorMask(u, v, W - 1);
    XorShift(u, v, W - 1);
    XorOfPairs(LowBits(u, W - 1), ShiftRight(u, W - 1), LowBits(v, W - 1), ShiftRight(v, W - 1));
  }

  lemma {:induction false} XorOfPairs(m: nat, t: nat, m': nat, t': nat)
    requires t < 2 && t' < 2
    ensures Xor(2 * m + t, 2 * m' + t') == 2 * Xor(m, m') + Xor(t, t')
  {
    hide Xor;
    HalveXor(2 * m + t, 2 * m' + t');
    HalveXor(t, t');
    XorZero(0);
    assert Xor(t, t') < 2;
    SameHalves(Xor(2 * m + t, 2 * m' + t'), 2 * Xor(m, m') + Xor(t, t'));
  }

  lemma XorRearrange(a: nat, b: nat, r: nat, t: nat)
    ensures Xor(Xor(a, b), Xor(r, t)) == Xor(Xor(Xor(a, t), r), b)
  {
    hide Xor;
    XorCommutes(r, t);
    XorSwap(a, b, t, r);
    XorCommutes(b, r);
    XorAssociates(Xor(a, t), r, b);
  }

  lemma {:induction false} XorEven(m: nat, b: nat)
    requires b < 2
    ensures Xor(2 * m, b) == 2 * m + b
  {
    hide Xor;
    XorOfPairs(m, 0, 0, b);
    XorZero(m);
    XorZero(b);
  }

  /** Folding a word with one more bit at the bottom rotates the fold and adds the bit. */
  lemma {:induction false} FoldOfDouble(x: nat, b: nat, W: nat)
    requires W > 0 && b < 2
    ensures Fold(2 * x + b, W) == Xor(Rotate(Fold(x, W), W), b)
    decreases x
  {
    hide Xor, Fold, LowBits, ShiftRight, Rotate, Pow2, TopBit;
    if x == 0 {
      FoldOfBitOnly(b, W);
    } else {
      var l, h, t, m := LowBits(x, W), ShiftRight(x, W), TopBit(x, W), LowBits(x, W - 1);
      ShiftShrinks(x, W);
      TopSplits(x, W);
      TopIsBit(x, W);
      DoubleSplits(x, b, W);
      FoldUnfolds(2 * x + b, W);
      FoldOfDouble(h, t, W);
      var r := Rotate(Fold(h, W), W);
      assert Fold(2 * x + b, W) == Xor(2 * m + b, Xor(r, t));
      assert Rotate(Fold(x, W), W) == Xor(2 * m + t, r) by {
        FoldUnfolds(x, W);
        FoldBound(h, W);
        RotateXor(l, Fold(h, W), W);
        RotateIs(l, W);
      }
      XorEven(m, b);
      XorEven(m, t);
      XorRearrange(2 * m, b, r, t);
    }
  }

  lemma TopIsBit(x: nat, n: nat)
    requires n > 0
    ensures TopBit(x, n) < 2
  {
    hide ShiftRight;
  }

  lemma {:induction false} FoldOfBitOnly(b: nat, W: nat)
    requires W > 0 && b < 2
    ensures Fold(b, W) == Xor(Rotate(Fold(0, W), W), b)
  {
    hide Xor;
    assert Rotate(0, W) == 0 by {
      Pow2Positive(W);
      RotateIs(0, W);
      ShiftShrinks(0, W);
    }
    XorZero(b);
    if b == 1 {
      FoldOfBit(0, W);
      assert Pow2(0) == 1 && 0 % W == 0;
    }
  }

  /**
    The step is exact: for every history length H and fold width W, also when W divides H, the
    stepped fold is the fold of the shifted history.
   */
  lemma {:induction false} StepIsRefold(g: nat, b: nat, H: nat, W: nat)
    requires H > 0 && W > 0 && b < 2
    ensures StepFold(Fold(LowBits(g, H), W), b, TopBit(g, H), H % W, W) == Fold(LowBits(2 * g + b, H), W)
  {
    hide Xor, Fold, LowBits, ShiftRight, ShiftLeft, Rotate, Pow2, TopBit;
    var now, next, disc := LowBits(g, H), LowBits(2 * g + b, H), TopBit(g, H);
    var v, w := Fold(now, W), Fold(next, W);
    TopIsBit(g, H);
    TopSplits(g, H);
    DoubleSplits(g, b, H);
    assert 2 * now + b == Xor(next, ShiftLeft(disc, H)) by {
      DoubleShift(disc, H);
      XorDisjoint(next, disc, H);
    }
    var out := ShiftLeft(disc, H % W);
    assert Xor(Rotate(v, W), b) == Xor(w, out) by {
      FoldOfDouble(now, b, W);
      FoldXor(next, ShiftLeft(disc, H), W);
      FoldOfDiscarded(disc, H, W);
    }
    XorCancels(w, out);
    FoldBound(next, W);
    MaskOfSmall(w, W);
  }

  lemma DoubleShift(x: nat, n: nat)
    requires n > 0
    ensures 2 * ShiftLeft(x, n - 1) == ShiftLeft(x, n)
  {
  }

  lemma MaskOfSmall(x: nat, n: nat)
    requires x < Pow2(n)
    ensures LowBits(x, n) == x
  {
    DivModUnique(x, Pow2(n), 0, x);
  }

  lemma {:induction false} FoldOfDiscarded(disc: nat, H: nat, W: nat)
    requires disc < 2 && W > 0
    ensures Fold(ShiftLeft(disc, H), W) == ShiftLeft(disc, H % W)
  {
    hide Fold, Pow2;
    if disc == 1 {
      FoldOfBit(H, W);
    } else {
      FoldOfNothing(W);
    }
  }

  // ---------- Refolding from scratch

  /** The chunks of the H youngest outcomes, one after the other. */
  method Refold(ghr: u64, H: nat, W: nat) returns (r: nat)
    requires W > 0
    ensures r == Fold(LowBits(ghr, H), W)
  {
    hide Xor, Fold, LowBits, ShiftRight, Pow2;
    var masked := LowBits(ghr, H);
    r := 0;
    var s := 0;
    NoShift(masked);
    XorZero(Fold(masked, W));
    while s < H
      invariant Xor(r, Fold(ShiftRight(masked, s), W)) == Fold(masked, W)
      invariant r < Pow2(W)
    {
      var chunk := LowBits(ShiftRight(masked, s), W);
      FoldUnfolds(ShiftRight(masked, s), W);
      ShiftTwice(masked, s, W);
      XorAssociates(r, chunk, Fold(ShiftRight(masked, s + W), W));
      XorBound(r, chunk, W);
      r := Xor(r, chunk);
      s := s + W;
    }
    ShiftedOut(masked, H, s);
    FoldOfNothing(W);
    XorZero(r);
    r := LowBits(r, W);
    MaskOfSmall(Fold(masked, W), W);
  }

  lemma {:induction false} ShiftTwice(x: nat, m: nat, n: nat)
    ensures ShiftRight(ShiftRight(x, m), n) == ShiftRight(x, m + n)
  {
    Pow2Add(m, n);
    DivDiv(x, Pow2(m), Pow2(n));
  }

  lemma {:induction false} ShiftedOut(x: nat, n: nat, s: nat)
    requires x < Pow2(n) && n <= s
    ensures ShiftRight(x, s) == 0
  {
    Pow2Monotone(n, s);
    DivModUnique(x, Pow2(s), 0, x);
  }
}
