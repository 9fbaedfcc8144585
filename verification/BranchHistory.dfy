/**
  The global branch history with its twelve folded views, its checkpoints and their recovery. The
  views are advanced in registers and never recomputed while predictions go on; they are proved
  to be the folds of the history in every reachable state.
 */
module BranchHistory {
  import opened Arithmetic
  import opened Bits
  import opened Capacities
  import opened Folding
  import opened Options

  const TAGE_NTABLES: nat := 4
  const TAGE_IDX_BIT: nat := 7
  const TAGE_TAG_BIT: nat := 8

  /** The history length of each table. */
  function TageHist(i: nat): (H: nat)
    ensures 0 < H < 64
  {
    if i == 0 then 6 else if i == 1 then 12 else if i == 2 then 24 else 48
  }

  /** The view of table i at fold width W. */
  function View(ghr: nat, i: nat, W: nat): nat
    requires W > 0
  {
    Fold(LowBits(ghr, TageHist(i)), W)
  }

  /** All four views at one width. */
  predicate ViewsMatch(views: seq<nat>, ghr: nat, W: nat)
    requires W > 0
  {
    |views| == TAGE_NTABLES && forall i :: 0 <= i < TAGE_NTABLES ==> views[i] == View(ghr, i, W)
  }

  /** The history after an outcome; the oldest of the 64 is lost. */
  function Shifted(ghr: u64, taken: bool): u64 {
    (2 * ghr + if taken then 1 else 0) % TWO_64
  }

  datatype Fetch = Fetch(ckptId: nat, shift: bool, shiftValue: bool)

  /** The history part of the predictor, as a value. */
  datatype History = History(ghr: u64, ckpt: seq<u64>, nextCkptId: nat)

  predicate InputFits(fetch: Option<Fetch>, squash: Option<nat>) {
    (fetch.Some? ==> fetch.value.ckptId < CKPT_CAP) && (squash.Some? ==> squash.value < CKPT_CAP)
  }

  /** A fetch saves the history before its own outcome; a squash brings back what was saved. */
  function HistoryStep(h: History, fetch: Option<Fetch>, squash: Option<nat>): History
    requires |h.ckpt| == CKPT_CAP && InputFits(fetch, squash)
  {
    var fetched := match fetch
      case None => h
      case Some(f) =>
        History(if f.shift then Shifted(h.ghr, f.shiftValue) else h.ghr, h.ckpt[f.ckptId := h.ghr],
                (f.ckptId + 1) % CKPT_CAP);
    if squash.Some? then fetched.(ghr := h.ckpt[squash.value], nextCkptId := (squash.value + 1) % CKPT_CAP) else fetched
  }

  /**
    A tick without squash: the outcome of a fetch becomes the lowest bit and the older ones move up by
    one; a squash brings back what was saved. What was the history at the start is saved by a fetch.
   */
  lemma StepLaw(h: History, fetch: Option<Fetch>, squash: Option<nat>)
    requires |h.ckpt| == CKPT_CAP && InputFits(fetch, squash)
    ensures var h' := HistoryStep(h, fetch, squash);
            && (squash.Some? ==> h'.ghr == h.ckpt[squash.value] && h'.nextCkptId == (squash.value + 1) % CKPT_CAP)
            && (squash.None? && fetch.Some? && fetch.value.shift ==>
                  h'.ghr % 2 == (if fetch.value.shiftValue then 1 else 0) && h'.ghr / 2 == h.ghr % Pow2(63))
            && (squash.None? && (fetch.Some? ==> !fetch.value.shift) ==> h'.ghr == h.ghr)
            && (squash.None? ==>
                  h'.nextCkptId == if fetch.Some? then (fetch.value.ckptId + 1) % CKPT_CAP else h.nextCkptId)
            && h'.ckpt == if fetch.Some? then h.ckpt[fetch.value.ckptId := h.ghr] else h.ckpt
  {
    hide Shifted, Pow2;
    if fetch.Some? {
      BitsOfShifted(h.ghr, fetch.value.shiftValue);
    }
  }

  lemma {:induction false} BitsOfShifted(ghr: u64, taken: bool)
    ensures Shifted(ghr, taken) % 2 == if taken then 1 else 0
    ensures Shifted(ghr, taken) / 2 == ghr % Pow2(63)
  {
    hide Pow2;
    assert 2 * Pow2(63) == TWO_64 by {
      Pow2Of32();
      Pow2Add(32, 32);
      Pow2Add(1, 63);
      assert Pow2(1) == 2 by {
        PowerOfOne();
      }
    }
    var p, b := Pow2(63), if taken then 1 else 0;
    DivMod(ghr, p);
    assert 2 * ghr + b == TWO_64 * (ghr / p) + (2 * (ghr % p) + b);
    DivModUnique(2 * ghr + b, TWO_64, ghr / p, 2 * (ghr % p) + b);
  }

  lemma PowerOfOne()
    ensures Pow2(1) == 2
  {
  }

  /** One step of a view follows the history, although only 64 outcomes are kept. */
  lemma {:induction false} ViewFollows(ghr: u64, taken: bool, i: nat, W: nat)
    requires W > 0
    ensures StepFold(View(ghr, i, W), if taken then 1 else 0, TopBit(ghr, TageHist(i)), TageHist(i) % W, W)
         == View(Shifted(ghr, taken), i, W)
  {
    hide StepFold, Fold, LowBits, TopBit, Pow2;
    var b, H := if taken then 1 else 0, TageHist(i);
    StepIsRefold(ghr, b, H, W);
    LostOutcome(2 * ghr + b, H);
  }

  /** The lowest H < 64 outcomes do not notice the loss of the oldest. */
  lemma {:induction false} LostOutcome(x: nat, H: nat)
    requires H < 64
    ensures LowBits(x % TWO_64, H) == LowBits(x, H)
  {
    hide Pow2;
    Pow2Of32();
    Pow2Add(32, 32);
    Pow2Add(H, 64 - H);
    LowOfLow(x, Pow2(H), Pow2(64 - H));
  }

  lemma LowOfLow(x: nat, p: nat, q: nat)
    requires p > 0 && q > 0
    ensures p * q > 0 && x % (p * q) % p == x % p
  {
    DivMod(x, p * q);
    var k := x / (p * q);
    MulAssociative(p, q, k);
    assert x == x % (p * q) + q * k * p;
    ModEqual(x, x % (p * q), q * k, p);
  }

  class BPU {
    var GHR: u64
    const fhIdx: array<nat>
    const fhTag8: array<nat>
    const fhTag7: array<nat>
    const bpCkpt: array<u64>
    var nextCkptId: nat

    ghost predicate Separate()
      reads {}
    {
      && fhIdx.Length == TAGE_NTABLES && fhTag8.Length == TAGE_NTABLES && fhTag7.Length == TAGE_NTABLES
      && bpCkpt.Length == CKPT_CAP && fhIdx != fhTag8 && fhIdx != fhTag7 && fhTag8 != fhTag7
    }

    /** Every folded view is the fold of the history. */
    ghost predicate Valid()
      reads this, fhIdx, fhTag8, fhTag7
    {
      && Separate()
      && ViewsMatch(fhIdx[..], GHR, TAGE_IDX_BIT)
      && ViewsMatch(fhTag8[..], GHR, TAGE_TAG_BIT)
      && ViewsMatch(fhTag7[..], GHR, TAGE_TAG_BIT - 1)
    }

    ghost function State(): History
      reads this, bpCkpt
    {
      History(GHR, bpCkpt[..], nextCkptId)
    }

    constructor ()
      ensures Valid() && fresh(fhIdx) && fresh(fhTag8) && fresh(fhTag7) && fresh(bpCkpt)
      ensures GHR == 0 && nextCkptId == 0
    {
      GHR, nextCkptId := 0, 0;
      fhIdx := new nat[TAGE_NTABLES](i => 0);
      fhTag8 := new nat[TAGE_NTABLES](i => 0);
      fhTag7 := new nat[TAGE_NTABLES](i => 0);
      bpCkpt := new u64[CKPT_CAP](i => 0);
      new;
      forall i, W: nat | 0 <= i < TAGE_NTABLES && W > 0 ensures View(0, i, W) == 0 {
        EmptyView(i, W);
      }
    }

    /** One width: every view is rotated and has one bit added and one taken out. */
    method StepViews(views: array<nat>, W: nat, ghrBefore: u64, taken: bool)
      requires W > 0 && views.Length == TAGE_NTABLES && ViewsMatch(views[..], ghrBefore, W)
      modifies views
      ensures ViewsMatch(views[..], Shifted(ghrBefore, taken), W)
    {
      hide View, StepFold, TopBit, Shifted;
      var b := if taken then 1 else 0;
      for i := 0 to TAGE_NTABLES
        invariant forall k :: 0 <= k < i ==> views[k] == View(Shifted(ghrBefore, taken), k, W)
        invariant forall k :: i <= k < TAGE_NTABLES ==> views[k] == View(ghrBefore, k, W)
      {
        ViewFollows(ghrBefore, taken, i, W);
        views[i] := StepFold(views[i], b, TopBit(ghrBefore, TageHist(i)), TageHist(i) % W, W);
      }
    }

    method ShiftGHR(taken: bool)
      requires Valid()
      modifies `GHR, fhIdx, fhTag8, fhTag7
      ensures Valid() && GHR == Shifted(old(GHR), taken)
    {
      hide ViewsMatch, Shifted;
      var before := GHR;
      GHR := Shifted(GHR, taken);
      StepViews(fhIdx, TAGE_IDX_BIT, before, taken);
      StepViews(fhTag8, TAGE_TAG_BIT, before, taken);
      StepViews(fhTag7, TAGE_TAG_BIT - 1, before, taken);
    }

    /** After a squash the views are computed afresh from the history that was brought back. */
    method RecoverFolds()
      requires Separate()
      modifies fhIdx, fhTag8, fhTag7
      ensures Valid()
    {
      hide Fold, LowBits;
      for i := 0 to TAGE_NTABLES
        invariant forall k :: 0 <= k < i ==> fhIdx[k] == View(GHR, k, TAGE_IDX_BIT)
        invariant forall k :: 0 <= k < i ==> fhTag8[k] == View(GHR, k, TAGE_TAG_BIT)
        invariant forall k :: 0 <= k < i ==> fhTag7[k] == View(GHR, k, TAGE_TAG_BIT - 1)
      {
        fhIdx[i] := Refold(GHR, TageHist(i), TAGE_IDX_BIT);
        fhTag8[i] := Refold(GHR, TageHist(i), TAGE_TAG_BIT);
        fhTag7[i] := Refold(GHR, TageHist(i), TAGE_TAG_BIT - 1);
      }
    }

    /** One tick: a fetch saves the history and shifts its prediction in; a squash recovers. */
    method Tick(fetch: Option<Fetch>, squash: Option<nat>)
      requires Valid() && InputFits(fetch, squash)
      modifies this, fhIdx, fhTag8, fhTag7, bpCkpt
      ensures Valid() && State() == HistoryStep(old(State()), fetch, squash)
    {
      hide ViewsMatch, Shifted;
      var snapshotGHR, snapshotCkpt := GHR, bpCkpt[..];
      if fetch.Some? {
        bpCkpt[fetch.value.ckptId] := snapshotGHR;
        if fetch.value.shift {
          ShiftGHR(fetch.value.shiftValue);
        }
        nextCkptId := (fetch.value.ckptId + 1) % CKPT_CAP;
      }
      if squash.Some? {
        GHR := snapshotCkpt[squash.value];
        RecoverFolds();
        nextCkptId := (squash.value + 1) % CKPT_CAP;
      }
    }
  }

  lemma EmptyView(i: nat, W: nat)
    requires W > 0
    ensures View(0, i, W) == 0
  {
    hide Pow2;
    ShiftShrinks(0, TageHist(i));
  }
}
