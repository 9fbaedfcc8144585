/**
  The branch history together with the checkpoint ids: the predictor saves its history under the id
  that a fetch hands out, and a squash brings back what is saved under the id of the instruction it
  names. Because live ids are distinct, that is the history from before this very instruction's own
  outcome, in every run.
 */
module FetchHistory {
  import BH = BranchHistory
  import opened Bits
  import opened Capacities
  import opened Options
  import opened Rename
  import opened RenameCore
  import opened RenameInvariants
  import opened RenameTheorems

  /** What the predictor says of the instruction fetched in a tick. */
  datatype Prediction = Prediction(shift: bool, shiftValue: bool)

  /** An instruction that was fetched and is still alive: the tick of its fetch, and the history before its outcome. */
  datatype Fetched = Fetched(at: nat, before: u64)

  /** The fetch of a tick takes the next id. */
  function FetchOf(s: CoreState, input: Input, prediction: Prediction): Option<BH.Fetch> {
    if Fetches(s.ckpt, input.fetch, input.squash)
    then Some(BH.Fetch(s.ckpt.nextCkptId, prediction.shift, prediction.shiftValue))
    else None
  }

  function RestoredId(input: Input): Option<nat> {
    if input.squash.Some? then Some(input.squash.value.ckptId) else None
  }

  predicate PredictorFits(b: BH.History, s: CoreState, input: Input) {
    |b.ckpt| == CKPT_CAP && s.ckpt.nextCkptId < CKPT_CAP && InputFits(s, input)
  }

  function PredictorStep(b: BH.History, s: CoreState, input: Input, prediction: Prediction): (r: BH.History)
    requires PredictorFits(b, s, input)
    ensures |r.ckpt| == CKPT_CAP
  {
    BH.HistoryStep(b, FetchOf(s, input, prediction), RestoredId(input))
  }

  // ---------- What is saved for the instructions that are alive

  /** The fetched instructions are those in flight and those in front; each finds its own history under its id. */
  predicate Remembers(b: BH.History, s: CoreState, h: History, fetched: seq<Fetched>) {
    && |b.ckpt| == CKPT_CAP && b.nextCkptId == s.ckpt.nextCkptId
    && |fetched| == |h.flight| + |Front(s.ckpt)|
    && forall k :: 0 <= k < |fetched| ==> b.ckpt[IdAt(h.firstCkpt, k)] == fetched[k].before
  }

  /** The fetched instructions after the events of a tick, before its commit. */
  ghost function FetchedAfterEvent(b: BH.History, s: CoreState, h: History, input: Input, fetched: seq<Fetched>,
                                   now: nat): seq<Fetched>
    requires CoreShape(s) && RenameCore.Offered(s, h, input) && |h.flight| <= |fetched|
  {
    if input.squash.Some? then fetched[..Position(h, input.squash.value) + 1]
    else if Fetches(s.ckpt, input.fetch, None) then fetched + [Fetched(now, b.ghr)]
    else fetched
  }

  ghost function FetchedStep(b: BH.History, s: CoreState, h: History, input: Input, fetched: seq<Fetched>, now: nat)
    : seq<Fetched>
    requires CoreShape(s) && RenameCore.Offered(s, h, input) && |h.flight| <= |fetched|
  {
    var after := FetchedAfterEvent(b, s, h, input, fetched, now);
    if WillCommit(s.rob, input.squash) && after != [] then after[1..] else after
  }

  /** The same for the state and the history after the events. */
  predicate RemembersAfterEvent(b: BH.History, ckpt: CkptState, h1: History, fetched: seq<Fetched>) {
    && |b.ckpt| == CKPT_CAP && b.nextCkptId == ckpt.nextCkptId
    && |fetched| == |h1.flight| + |Front(ckpt)|
    && forall k :: 0 <= k < |fetched| ==> b.ckpt[IdAt(h1.firstCkpt, k)] == fetched[k].before
  }

  /** A fetch saves under an id that none of the live instructions holds. */
  lemma {:induction false} FetchRemembers(b: BH.History, first: nat, fetched: seq<Fetched>, fetch: BH.Fetch, now: nat)
    requires |b.ckpt| == CKPT_CAP && |fetched| < CKPT_CAP && fetch.ckptId == IdAt(first, |fetched|)
    requires forall k :: 0 <= k < |fetched| ==> b.ckpt[IdAt(first, k)] == fetched[k].before
    ensures fetch.ckptId < CKPT_CAP
    ensures var b', fetched' := BH.HistoryStep(b, Some(fetch), None), fetched + [Fetched(now, b.ghr)];
            && (forall k :: 0 <= k < |fetched'| ==> b'.ckpt[IdAt(first, k)] == fetched'[k].before)
            && b'.nextCkptId == (fetch.ckptId + 1) % CKPT_CAP
  {
    hide BH.Shifted;
    forall k | 0 <= k < |fetched| ensures IdAt(first, k) != fetch.ckptId {
      IdsDiffer(first, k, |fetched|);
    }
  }

  lemma IdsNow(s: CoreState, h: History)
    requires CoreInv(s, h)
    ensures IdsInOrder(h) && CkptShape(s.ckpt)
    ensures s.ckpt.nextCkptId == IdAt(h.firstCkpt, |h.flight| + |Front(s.ckpt)|)
  {
    hide IdAt, Front, CkptShape, IdsInOrder, RatInv, PrfInv, RobInv, TailInv, Chained, Partition;
  }

  /** The events of a tick without a squash: an issue moves an instruction from in front to in flight. */
  lemma {:induction false} ForwardRemembers(b: BH.History, s: CoreState, h: History, input: Input,
                                            prediction: Prediction, fetched: seq<Fetched>, now: nat)
    requires CoreInv(s, h) && CoreShape(s) && RenameCore.Offered(s, h, input) && Remembers(b, s, h, fetched)
    requires input.squash.None?
    ensures RemembersAfterEvent(PredictorStep(b, s, input, prediction), CoreStep(s, input).ckpt,
                                HistoryAfterEvent(s, h, input, now), FetchedAfterEvent(b, s, h, input, fetched, now))
  {
    hide CoreInv, RatStep, PrfStep, RobStep, TailStep, IdAt, BuildPacket, NewFlight, CkptShape, CkptStep, Fetches,
      BH.Shifted, Observe, RatShape, PrfShape, RobShape;
    IdsNow(s, h);
    var packet := BuildPacket(s, input);
    FrontIsShort(s.ckpt);
    FrontMoves(s.ckpt, input.fetch, input.returned, packet.Some?);
    NextId(s.ckpt, input.fetch, input.returned, packet.Some?);
    if Fetches(s.ckpt, input.fetch, None) {
      FetchRemembers(b, h.firstCkpt, fetched, FetchOf(s, input, prediction).value, now);
    }
  }

  /** A fetch shifts in what the predictor said of the instruction; without one the history stays. */
  lemma {:induction false} FetchShifts(b: BH.History, s: CoreState, input: Input, prediction: Prediction)
    requires PredictorFits(b, s, input) && input.squash.None?
    ensures var b', fetched := PredictorStep(b, s, input, prediction), Fetches(s.ckpt, input.fetch, None);
            && (fetched && prediction.shift ==>
                  && b'.ghr % 2 == (if prediction.shiftValue then 1 else 0)
                  && b'.ghr / 2 == b.ghr % Pow2(63))
            && (!fetched || !prediction.shift ==> b'.ghr == b.ghr)
  {
    hide BH.HistoryStep, Pow2;
    BH.StepLaw(b, FetchOf(s, input, prediction), None);
  }

  /** A squash forgets all that was fetched behind the instruction it names. */
  lemma {:induction false} BackRemembers(b: BH.History, s: CoreState, h: History, input: Input,
                                         prediction: Prediction, fetched: seq<Fetched>, now: nat)
    requires CoreInv(s, h) && CoreShape(s) && RenameCore.Offered(s, h, input) && Remembers(b, s, h, fetched)
    requires input.squash.Some?
    ensures RemembersAfterEvent(PredictorStep(b, s, input, prediction), CoreStep(s, input).ckpt,
                                HistoryAfterEvent(s, h, input, now), FetchedAfterEvent(b, s, h, input, fetched, now))
  {
    hide CoreInv, RatStep, PrfStep, RobStep, TailStep, IdAt, CkptShape, RatShape, PrfShape, RobShape;
    IdsNow(s, h);
    SquashRemembers(b, h, input.squash.value, Position(h, input.squash.value), fetched);
  }

  lemma {:induction false} SquashRemembers(b: BH.History, h: History, squash: Squash, j: nat, fetched: seq<Fetched>)
    requires |b.ckpt| == CKPT_CAP && IdsInOrder(h) && Names(h, squash, j) && |h.flight| <= |fetched|
    requires forall k :: 0 <= k < |fetched| ==> b.ckpt[IdAt(h.firstCkpt, k)] == fetched[k].before
    ensures squash.ckptId < CKPT_CAP
    ensures BH.HistoryStep(b, None, Some(squash.ckptId)).ghr == fetched[j].before
    ensures BH.HistoryStep(b, None, Some(squash.ckptId)).nextCkptId == (squash.ckptId + 1) % CKPT_CAP
  {
    assert h.flight[j].entry.ckptId == IdAt(h.firstCkpt, j);
  }

  /** The commit takes the oldest. */
  lemma {:induction false} CommitRemembers(b: BH.History, ckpt: CkptState, h1: History, fetched: seq<Fetched>)
    requires RemembersAfterEvent(b, ckpt, h1, fetched) && h1.flight != []
    ensures fetched != [] && RemembersAfterEvent(b, ckpt, Committed(h1), fetched[1..])
  {
    hide IdAt;
    forall k | 0 <= k < |fetched| - 1 ensures IdAt(Committed(h1).firstCkpt, k) == IdAt(h1.firstCkpt, k + 1) {
      IdAfterCommit(h1.firstCkpt, k);
    }
  }

  /** Every tick keeps what is remembered. */
  lemma {:induction false} StepRemembers(b: BH.History, s: CoreState, h: History, input: Input,
                                         prediction: Prediction, fetched: seq<Fetched>, now: nat)
    requires CoreInv(s, h) && CoreShape(s) && RenameCore.Offered(s, h, input) && Remembers(b, s, h, fetched)
    ensures Remembers(PredictorStep(b, s, input, prediction), CoreStep(s, input), HistoryStep(s, h, input, now),
                      FetchedStep(b, s, h, input, fetched, now))
  {
    hide RatInv, PrfInv, RobInv, TailInv, CkptInv, Chained, Partition, CoreStep, PredictorStep, HistoryAfterEvent,
      FetchedAfterEvent, WillCommit, Front;
    if input.squash.Some? {
      BackRemembers(b, s, h, input, prediction, fetched, now);
    } else {
      ForwardRemembers(b, s, h, input, prediction, fetched, now);
    }
    if WillCommit(s.rob, input.squash) {
      CommittedEntry(s, h, input, now);
      CommitRemembers(PredictorStep(b, s, input, prediction), CoreStep(s, input).ckpt,
                      HistoryAfterEvent(s, h, input, now), FetchedAfterEvent(b, s, h, input, fetched, now));
    }
  }

  // ---------- Runs

  datatype Predictor = Predictor(state: BH.History, fetched: seq<Fetched>)

  function ResetPredictor(): BH.History {
    BH.History(0, seq(CKPT_CAP, i => 0), 0)
  }

  lemma ResetRemembers()
    ensures Reachable([]) && Remembers(ResetPredictor(), StateAfter([]), HistoryAfter([]), [])
  {
    hide Reach, Reachable, StateAfter, HistoryAfter, CoreInv, CoreShape;
    ResetIsReachable();
  }

  ghost predicate Follows(p: Predictor, inputs: seq<Input>) {
    Reachable(inputs) && Remembers(p.state, StateAfter(inputs), HistoryAfter(inputs), p.fetched)
  }

  ghost function Next(p: Predictor, inputs: seq<Input>, input: Input, prediction: Prediction): Predictor
    requires Follows(p, inputs) && RenameCore.Offered(StateAfter(inputs), HistoryAfter(inputs), input)
  {
    var s, h := StateAfter(inputs), HistoryAfter(inputs);
    Predictor(PredictorStep(p.state, s, input, prediction),
              FetchedStep(p.state, s, h, input, p.fetched, |inputs|))
  }

  lemma {:induction false} NextFollows(p: Predictor, inputs: seq<Input>, input: Input, prediction: Prediction)
    requires Follows(p, inputs) && Legal(StateAfter(inputs), HistoryAfter(inputs), input)
    ensures Follows(Next(p, inputs, input, prediction), inputs + [input])
  {
    hide Reach, Reachable, StateAfter, HistoryAfter, CoreInv, CoreShape, Safe, Remembers, CoreStep, HistoryStep,
      PredictorStep, FetchedStep;
    StepRemembers(p.state, StateAfter(inputs), HistoryAfter(inputs), input, prediction, p.fetched, |inputs|);
    ReachNext(inputs, input);
  }

  /** The predictor after a run, and the fetches of all instructions that are alive. */
  ghost function After(inputs: seq<Input>, predictions: seq<Prediction>): (p: Predictor)
    requires Reachable(inputs) && |predictions| == |inputs|
    ensures Follows(p, inputs)
    decreases |inputs|
  {
    hide CoreInv, CoreShape, Safe, CoreStep, HistoryStep, Reach, Reachable, StateAfter, HistoryAfter, Remembers;
    if inputs == [] then
      ResetRemembers();
      Predictor(ResetPredictor(), [])
    else
      var n := |inputs| - 1;
      ReachLast(inputs);
      var before := After(inputs[..n], predictions[..n]);
      NextFollows(before, inputs[..n], inputs[n], predictions[n]);
      assert inputs[..n] + [inputs[n]] == inputs;
      Next(before, inputs[..n], inputs[n], predictions[n])
  }

  /** The predictor after one more tick. */
  lemma {:induction false} AfterNext(inputs: seq<Input>, predictions: seq<Prediction>, input: Input,
                                     prediction: Prediction)
    requires Reachable(inputs) && |predictions| == |inputs|
    requires Legal(StateAfter(inputs), HistoryAfter(inputs), input)
    ensures Reachable(inputs + [input])
    ensures After(inputs + [input], predictions + [prediction])
         == Next(After(inputs, predictions), inputs, input, prediction)
  {
    hide CoreInv, CoreShape, Reach, Reachable, StateAfter, HistoryAfter, Safe, Follows, Next;
    ReachNext(inputs, input);
    assert (inputs + [input])[..|inputs|] == inputs && (predictions + [prediction])[..|inputs|] == predictions;
  }

  /** In this tick an instruction was fetched under this id, with this history before its own outcome. */
  ghost predicate FetchedIn(inputs: seq<Input>, predictions: seq<Prediction>, f: Fetched, id: nat)
    requires |predictions| == |inputs|
  {
    && f.at < |inputs| && Reachable(inputs[..f.at])
    && var s := StateAfter(inputs[..f.at]);
       && Fetches(s.ckpt, inputs[f.at].fetch, inputs[f.at].squash) && s.ckpt.nextCkptId == id
       && After(inputs[..f.at], predictions[..f.at]).state.ghr == f.before
  }

  lemma {:induction false} FetchedPrefix(inputs: seq<Input>, predictions: seq<Prediction>, n: nat, f: Fetched, id: nat)
    requires |predictions| == |inputs| && n <= |inputs| && FetchedIn(inputs[..n], predictions[..n], f, id)
    ensures FetchedIn(inputs, predictions, f, id)
  {
    hide Reachable, StateAfter, After, Fetches;
    assert inputs[..n][..f.at] == inputs[..f.at] && predictions[..n][..f.at] == predictions[..f.at];
  }

  /** What is remembered of the k-th instruction is where it was before, or it has just been fetched. */
  lemma {:induction false} FetchedGrows(b: BH.History, s: CoreState, h: History, input: Input, fetched: seq<Fetched>,
                                        now: nat, k: nat)
    requires CoreInv(s, h) && CoreShape(s) && RenameCore.Offered(s, h, input) && Remembers(b, s, h, fetched)
    requires k < |FetchedStep(b, s, h, input, fetched, now)|
    ensures var f := FetchedStep(b, s, h, input, fetched, now)[k];
            var id := IdAt(HistoryStep(s, h, input, now).firstCkpt, k);
            || (exists i :: 0 <= i < |fetched| && fetched[i] == f && IdAt(h.firstCkpt, i) == id)
            || (f == Fetched(now, b.ghr) && Fetches(s.ckpt, input.fetch, input.squash) && s.ckpt.nextCkptId == id)
  {
    hide CoreInv, IdAt, NewFlight, CoreStep, Fetches, BuildPacket, Observe, CkptShape, PrfShape, RatShape, WillCommit;
    IdsNow(s, h);
    var after := FetchedAfterEvent(b, s, h, input, fetched, now);
    var i := k;
    if WillCommit(s.rob, input.squash) {
      CommittedEntry(s, h, input, now);
      IdAfterCommit(h.firstCkpt, k);
      i := k + 1;
    }
    assert IdAt(HistoryStep(s, h, input, now).firstCkpt, k) == IdAt(h.firstCkpt, i);
    assert i < |fetched| ==> after[i] == fetched[i];
  }

  /** Of every instruction that is alive, the tick of its fetch and the history before it are known. */
  lemma {:induction false} RecordsAreTruthful(inputs: seq<Input>, predictions: seq<Prediction>, k: nat)
    requires Reachable(inputs) && |predictions| == |inputs| && k < |After(inputs, predictions).fetched|
    ensures FetchedIn(inputs, predictions, After(inputs, predictions).fetched[k],
                      IdAt(HistoryAfter(inputs).firstCkpt, k))
    decreases |inputs|
  {
    hide CoreInv, CoreShape, Safe, Reach, Reachable, StateAfter, HistoryAfter, Remembers, FetchedStep, CoreStep,
      HistoryStep, IdAt, Fetches, PredictorStep;
    if inputs != [] {
      var n := |inputs| - 1;
      ReachLast(inputs);
      var before := After(inputs[..n], predictions[..n]);
      var s, h := StateAfter(inputs[..n]), HistoryAfter(inputs[..n]);
      FetchedGrows(before.state, s, h, inputs[n], before.fetched, n, k);
      if i :| 0 <= i < |before.fetched| && before.fetched[i] == After(inputs, predictions).fetched[k]
              && IdAt(h.firstCkpt, i) == IdAt(HistoryAfter(inputs).firstCkpt, k) {
        RecordsAreTruthful(inputs[..n], predictions[..n], i);
        FetchedPrefix(inputs, predictions, n, before.fetched[i], IdAt(h.firstCkpt, i));
      }
    }
  }

  /**
    In every run, whatever was fetched, issued, committed or squashed in between: a squash brings
    the branch history back to what it was when the instruction it names was fetched, before the
    outcome predicted for it was shifted in.
   */
  lemma {:induction false} SquashRestoresHistory(inputs: seq<Input>, predictions: seq<Prediction>, input: Input,
                                                 prediction: Prediction, j: nat)
    requires SquashesTo(inputs, input, j) && |predictions| == |inputs|
    ensures Reachable(inputs + [input])
    ensures var fetched := After(inputs, predictions).fetched;
            && j < |fetched| && FetchedIn(inputs, predictions, fetched[j], input.squash.value.ckptId)
            && After(inputs + [input], predictions + [prediction]).state.ghr
               == After(inputs[..fetched[j].at], predictions[..fetched[j].at]).state.ghr
  {
    hide CoreShape, Safe, Reach, Reachable, StateAfter, HistoryAfter, CoreStep, HistoryStep, RatInv, PrfInv, RobInv,
      TailInv, Chained, Partition, FetchedStep, After, IdAt, Fetches;
    var h := HistoryAfter(inputs);
    assert h.flight[j].entry.ckptId == IdAt(h.firstCkpt, j);
    AfterNext(inputs, predictions, input, prediction);
    SquashRemembers(After(inputs, predictions).state, h, input.squash.value, j, After(inputs, predictions).fetched);
    RecordsAreTruthful(inputs, predictions, j);
  }
}
