/**
  Which store or load goes to the cache: a store that has committed, or commits in this very tick,
  before any load, and the oldest waiting load only if no older store is known to write its address.
 */
module MemoryArbiter {
  import opened Capacities
  import opened MemQueues
  import opened Options
  import opened StoreForwarding
  import StoreQueueTick
  import opened Tags

  datatype Decision = NoDecision | StoreDecision(store: SQEntry) | LoadDecision(load: LQEntry, index: Position)

  predicate Waiting(load: LQEntry) {
    load.isAddressReady && load.valueState.NOTREADY?
  }

  /** j is the oldest load that waits to be sent. */
  predicate FirstWaiting(loads: seq<LQEntry>, j: nat) {
    j < |loads| && Waiting(loads[j]) && forall k :: 0 <= k < j ==> !Waiting(loads[k])
  }

  /** The head store may leave: it has committed, or it is the store that commits in this tick. */
  predicate StoreMayLeave(stores: seq<SQEntry>, committing: Option<nat>) {
    stores != [] && (stores[0].isCommitted || committing == Some(stores[0].robTag))
  }

  predicate LoadMayLeave(stores: seq<SQEntry>, load: LQEntry, squash: Option<nat>) {
    && NoneHoldsBack(stores, load.address, load.robTag)
    && (squash.None? || IsOlder(ROB_CAP, load.robTag, squash.value))
  }

  /** The scan of the load queue. */
  method LoadDetect(lq: LQ) returns (index: Option<Position>)
    requires lq.Valid()
    ensures index.Some? ==> lq.IsActive(index.value) && FirstWaiting(lq.Contents(), Ahead(lq.head, index.value))
    ensures index.None? ==> forall k :: 0 <= k < |lq.Contents()| ==> !Waiting(lq.Contents()[k])
  {
    hide Step, Ahead, Unrolled, Active;
    ghost var loads := lq.Contents();
    index := None;
    for k := 0 to QUEUE_CAP
      invariant index.Some? ==> lq.IsActive(index.value) && FirstWaiting(loads, Ahead(lq.head, index.value))
      invariant index.None? ==> forall j :: 0 <= j < k && j < |loads| ==> !Waiting(loads[j])
    {
      var cur := Step(lq.head, k);
      ActiveIsWithin(lq.head, lq.tail, k);
      StepAhead(lq.head, cur, k);
      if !lq.IsActive(cur) || index.Some? {
        continue;
      }
      if lq.queue[cur].isAddressReady && lq.queue[cur].valueState.NOTREADY? {
        index := Some(cur);
      }
    }
  }

  /** Stores first; a load only when no store goes. */
  method Arbitrate(sq: SQ, lq: LQ, cacheBusy: bool, committing: Option<nat>, squash: Option<nat>)
      returns (decision: Decision)
    requires sq.Valid() && lq.Valid()
    ensures decision.StoreDecision? <==> !cacheBusy && StoreMayLeave(sq.Contents(), committing)
    ensures decision.StoreDecision? ==> decision.store == sq.Contents()[0]
    ensures decision.LoadDecision? ==>
              var j := Ahead(lq.head, decision.index);
              && FirstWaiting(lq.Contents(), j) && decision.load == lq.Contents()[j]
              && LoadMayLeave(sq.Contents(), decision.load, squash)
    ensures decision.LoadDecision? <==>
              && !cacheBusy && !StoreMayLeave(sq.Contents(), committing)
              && exists j: nat ::
                   FirstWaiting(lq.Contents(), j) && LoadMayLeave(sq.Contents(), lq.Contents()[j], squash)
  {
    hide Step, Ahead, Unrolled, Active, IsOlder, NoneHoldsBack, Waiting;
    decision := NoDecision;
    sq.FullMeansSeven();
    if !cacheBusy && !sq.IsEmpty() {
      assert sq.Contents()[0] == sq.queue[sq.head] by {
        FirstStep(sq.head);
      }
      var storeTag := sq.queue[sq.head].robTag;
      var committed := sq.queue[sq.head].isCommitted;
      var atHeadReady := !committed && committing == Some(storeTag);
      if committed || atHeadReady {
        decision := StoreDecision(sq.queue[sq.head]);
      }
    }
    if decision.NoDecision? {
      var loadIndex := LoadDetect(lq);
      if loadIndex.Some? && !cacheBusy {
        var j := Ahead(lq.head, loadIndex.value);
        assert lq.Contents()[j] == lq.queue[loadIndex.value] by {
          StepAhead(lq.head, loadIndex.value, 0);
        }
        var load := lq.queue[loadIndex.value];
        var free := sq.CanDispatchLoad(load.address, load.robTag);
        if free && (squash.None? || IsOlder(ROB_CAP, load.robTag, squash.value)) {
          decision := LoadDecision(load, loadIndex.value);
        }
        forall i: nat | FirstWaiting(lq.Contents(), i) ensures i == j {
        }
      }
    }
  }

  lemma FirstStep(from: Position)
    ensures Step(from, 0) == from
  {
  }

  /** The first store may leave exactly if it has committed by the end of the tick, as the store queue asks. */
  lemma {:induction false} LeavingStoreIsCommitted(stores: seq<SQEntry>, head: Position, oldest: nat, c: nat,
                                                   input: StoreQueueTick.Input)
    requires InOrder(stores, oldest, c)
    ensures StoreMayLeave(stores, input.committing) <==> 0 < StoreQueueTick.CommittedNow(stores, input, c)
  {
    hide IsOlder, Live;
  }

  /** An uncommitted store that answers a load is one that holds it back. */
  lemma {:induction false} AnswerHoldsBack(stores: seq<SQEntry>, load: LQEntry, oldest: nat, c: nat, j: nat)
    requires InOrder(stores, oldest, c) && Live(ROB_CAP, oldest, load.robTag) && c <= j
    requires forall l :: c <= l < |stores| ==> stores[l].robTag != load.robTag
    requires AnsweredBy(stores, load.address, load.robTag, j)
    ensures HoldsBack(stores[j], load.address, load.robTag)
  {
    hide IsOlder, Live;
    FirstDecides(stores, oldest, c, j, load.robTag);
  }

  /** A load that leaves for the cache would not have been answered by an uncommitted store. */
  lemma {:induction false} LeavingLoadIsNotHeldBack(stores: seq<SQEntry>, load: LQEntry, squash: Option<nat>,
                                                    oldest: nat, c: nat, j: nat)
    requires InOrder(stores, oldest, c) && Live(ROB_CAP, oldest, load.robTag)
    requires forall l :: c <= l < |stores| ==> stores[l].robTag != load.robTag
    requires LoadMayLeave(stores, load, squash) && AnsweredBy(stores, load.address, load.robTag, j)
    ensures j < c
  {
    hide IsOlder, Live, InOrder, HoldsBack;
    if j >= c {
      AnswerHoldsBack(stores, load, oldest, c, j);
    }
  }
}
