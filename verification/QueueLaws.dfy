/**
  What answering, sending and a tick of the queues mean, in terms of the stores and loads themselves:
  their ages, addresses and values.
 */
module QueueLaws {
  import opened Bits
  import opened Capacities
  import opened ForwardingTick
  import LQT = LoadQueueTick
  import opened MemoryArbiter
  import opened MemQueues
  import opened Options
  import opened StoreForwarding
  import SQT = StoreQueueTick
  import opened Tags

  // ---------- Which store answers a load

  /** The load has to heed the store: it has committed, or is the older of the two. */
  predicate Heeds(stores: seq<SQEntry>, c: nat, loadTag: nat, k: nat)
    requires k < |stores|
  {
    k < c || IsOlder(ROB_CAP, stores[k].robTag, loadTag)
  }

  /**
    A store answers a load exactly when the load heeds it, its address is known and the same, its value
    is there, and all younger stores that the load heeds are known to write elsewhere.
   */
  lemma {:induction false} AnswersExactly(stores: seq<SQEntry>, oldest: nat, c: nat, addr: u32, loadTag: nat, j: nat)
    requires InOrder(stores, oldest, c) && Live(ROB_CAP, oldest, loadTag)
    requires forall l :: c <= l < |stores| ==> stores[l].robTag != loadTag
    ensures AnsweredBy(stores, addr, loadTag, j)
       <==> && j < |stores| && Heeds(stores, c, loadTag, j)
            && stores[j].isAddressReady && stores[j].address == addr && stores[j].isValueReady
            && forall k :: j < k < |stores| && Heeds(stores, c, loadTag, k) ==>
                 stores[k].isAddressReady && stores[k].address != addr
  {
    hide InOrder, Live, IsOlder, Visible;
    forall k | 0 <= k < |stores| ensures k < Visible(stores, loadTag) <==> Heeds(stores, c, loadTag, k) {
      VisibleAreOlder(stores, oldest, c, loadTag, k);
    }
  }

  /** The store is known to write where the load reads, and has yet to commit. */
  predicate InTheWay(e: SQEntry, load: LQEntry) {
    && !e.isCommitted && e.isAddressReady && e.address == load.address
    && IsOlder(ROB_CAP, e.robTag, load.robTag)
  }

  /** A load may be sent exactly when it is older than the squash of the tick and no older store is in its way. */
  lemma {:induction false} LoadMayLeaveExactly(stores: seq<SQEntry>, load: LQEntry, squash: Option<nat>)
    ensures LoadMayLeave(stores, load, squash)
       <==> && (squash.Some? ==> IsOlder(ROB_CAP, load.robTag, squash.value))
            && forall k :: 0 <= k < |stores| ==> !InTheWay(stores[k], load)
  {
    hide IsOlder;
  }

  // ---------- A tick of the store queue

  /** Each store is given at most one value in a tick. */
  predicate OneValueEach(head: Position, values: seq<SQT.ValueWrite>) {
    forall i, j :: 0 <= i < j < |values| ==> Ahead(head, values[i].index) != Ahead(head, values[j].index)
  }

  /** The store at place k is given this value. */
  predicate Given(head: Position, values: seq<SQT.ValueWrite>, k: nat, value: i32) {
    exists i :: 0 <= i < |values| && Ahead(head, values[i].index) == k && values[i].value == value
  }

  lemma {:induction false} ValuesArrive(q: seq<SQEntry>, head: Position, values: seq<SQT.ValueWrite>, k: nat)
    requires k < |q| && OneValueEach(head, values)
    ensures var e, e' := q[k], SQT.WithValues(q, head, values)[k];
            && e'.(value := e.value, isValueReady := e.isValueReady) == e
            && ((forall i :: 0 <= i < |values| ==> Ahead(head, values[i].index) != k) ==> e' == e)
            && (forall value: i32 :: Given(head, values, k, value) ==> e'.isValueReady && e'.value == value)
    decreases |values|
  {
    hide Ahead;
    if values != [] {
      var p, rest := Ahead(head, values[0].index), values[1..];
      var first := if p < |q| then q[p := q[p].(value := values[0].value, isValueReady := true)] else q;
      assert forall i :: 0 <= i < |rest| ==> rest[i] == values[i + 1];
      ValuesArrive(first, head, rest, k);
      forall value: i32 | Given(head, values, k, value)
        ensures (p == k && value == values[0].value) || Given(head, rest, k, value)
      {
        var i :| 0 <= i < |values| && Ahead(head, values[i].index) == k && values[i].value == value;
        if i > 0 {
          assert rest[i - 1] == values[i];
        }
      }
      if p == k {
        assert forall i :: 0 <= i < |rest| ==> Ahead(head, rest[i].index) != k;
      }
    }
  }

  /** What a store is told in a tick: its address, its value, that it commits. */
  predicate Updated(e: SQEntry, e': SQEntry, head: Position, event: SQT.Input, k: nat) {
    && e'.robTag == e.robTag && e'.nBytes == e.nBytes
    && (e'.isCommitted <==> e.isCommitted || event.committing == Some(e.robTag))
    && (if event.address.Some? && Ahead(head, event.address.value.index) == k
        then e'.isAddressReady && e'.address == event.address.value.address
        else e'.isAddressReady == e.isAddressReady && e'.address == e.address)
    && (forall value: i32 :: Given(head, event.values, k, value) ==> e'.isValueReady && e'.value == value)
    && ((forall i :: 0 <= i < |event.values| ==> Ahead(head, event.values[i].index) != k) ==>
          e'.isValueReady == e.isValueReady && e'.value == e.value)
  }

  lemma {:induction false} StoreIsUpdated(q: seq<SQEntry>, head: Position, event: SQT.Input, k: nat)
    requires k < |q| && OneValueEach(head, event.values)
    ensures Updated(q[k], SQT.Written(q, head, event)[k], head, event, k)
  {
    hide Ahead, SQT.WithValues, OneValueEach, Given;
    var issued := SQT.WithIssue(q, event.issue);
    assert issued[k] == q[k];
    ValuesArrive(issued, head, event.values, k);
  }

  /** How many stores there are before any leaves, and where a squash cuts. */
  function Remaining(q: seq<SQEntry>, head: Position, event: SQT.Input): nat {
    var n := |q| + if event.issue.Some? then 1 else 0;
    if event.restored.Some? && Ahead(head, event.restored.value) <= n then Ahead(head, event.restored.value) else n
  }

  /**
    A tick of the store queue: a squash cuts it off at the restored tail, the first store leaves if it
    is sent, a new one comes last, and each of the others is only told what arrives for it.
   */
  lemma {:induction false} StoresAfterTick(q: seq<SQEntry>, head: Position, event: SQT.Input, k: nat)
    requires OneValueEach(head, event.values) && (event.dispatched ==> 0 < Remaining(q, head, event))
    ensures var next, d := SQT.StoreStep(q, head, event), if event.dispatched then 1 else 0;
            && |next| == Remaining(q, head, event) - d
            && (k < |next| && k + d < |q| ==> Updated(q[k + d], next[k], head, event, k + d))
            && (k < |next| && k + d == |q| ==>
                  && event.issue.Some? && next[k].robTag == event.issue.value.robTag
                  && next[k].nBytes == event.issue.value.nBytes && !next[k].isCommitted)
  {
    hide Ahead, Updated, OneValueEach, SQT.WithValues;
    var d := if event.dispatched then 1 else 0;
    var issued := SQT.WithIssue(q, event.issue);
    if k + d < |q| {
      StoreIsUpdated(q, head, event, k + d);
    } else if k + d < |issued| {
      ValuesArrive(issued, head, event.values, k + d) by {
        assert OneValueEach(head, event.values);
      }
    }
  }

  // ---------- A tick of the load queue

  /** The reply is for this place and tag, and the load has been sent and not been served otherwise. */
  predicate Replied(load: LQEntry, at: Position, input: LQT.Input) {
    && input.reply.Some? && input.reply.value.index == at && input.reply.value.robTag == load.robTag
    && (input.sent == Some(at) || (load.valueState.FETCHING? && !AnsweredNow(at, input)))
  }

  /** Its address arrives, and a store answers it. */
  predicate AnsweredNow(at: Position, input: LQT.Input) {
    input.own.Some? && input.own.value.index == at && input.own.value.answer.valid
  }

  /** A tick of a load that no notice reaches: its address, its value and the state of its value. */
  lemma {:induction false} LoadAfterTick(load: LQEntry, at: Position, input: LQT.Input)
    requires Offered(load, input.notices) == load
    ensures var l, here := LQT.LoadAfter(load, at, input), input.own.Some? && input.own.value.index == at;
            var answered, replied := AnsweredNow(at, input), Replied(load, at, input);
            && l.robTag == load.robTag && l.nBytes == load.nBytes && l.isUnsigned == load.isUnsigned
            && (l.isAddressReady <==> load.isAddressReady || here)
            && l.address == (if here then input.own.value.address else load.address)
            && l.value == (if replied then input.reply.value.value
                           else if answered then input.own.value.answer.value else load.value)
            && l.valueState == (if replied then READY else if input.sent == Some(at) then FETCHING
                                else if answered then READY else load.valueState)
            && (l.isCDBBroadcast
                <==> input.broadcast == Some(at) || (load.isCDBBroadcast && !answered && !replied))
  {
    hide Offered;
  }

  /** What the tick says about a place in the queue. */
  predicate Concerned(at: Position, input: LQT.Input) {
    || (input.own.Some? && input.own.value.index == at) || input.sent == Some(at) || input.broadcast == Some(at)
  }

  /** How many loads there are before any leaves, and where a squash cuts. */
  function LoadsRemaining(q: seq<LQEntry>, head: Position, input: LQT.Input): nat {
    var n := |q| + if input.issue.Some? then 1 else 0;
    if input.restored.Some? && Ahead(head, input.restored.value) <= n then Ahead(head, input.restored.value) else n
  }

  /** A load that has just been issued: it has no address and waits. */
  predicate IsNew(load: LQEntry, issue: LQT.LoadIssue) {
    && load.robTag == issue.robTag && load.nBytes == issue.nBytes && load.isUnsigned == issue.isUnsigned
    && !load.isAddressReady && load.valueState.NOTREADY? && !load.isCDBBroadcast
  }

  /** A new load is not affected by what arrives for others. */
  lemma {:induction false} NewLoad(load: LQEntry, issue: LQT.LoadIssue, at: Position, input: LQT.Input)
    requires IsNew(load, issue) && !Concerned(at, input)
    ensures IsNew(LQT.LoadAfter(load, at, input), issue)
  {
    hide Offered;
    NoAddressNoService(load, input.notices);
  }

  /**
    A tick of the load queue: a squash cuts it off at the restored tail, the first load leaves if it
    retires, a new one comes last, and each of the others is changed by what arrives for it.
   */
  lemma {:induction false} LoadsAfterTick(q: seq<LQEntry>, head: Position, input: LQT.Input, k: nat)
    requires |q| < QUEUE_CAP && (input.issue.Some? ==> |q| < QUEUE_CAP - 1 && !Concerned(Step(head, |q|), input))
    requires input.retires ==> 0 < LoadsRemaining(q, head, input)
    ensures var next, d := LQT.LoadStep(q, head, input), if input.retires then 1 else 0;
            && |next| == LoadsRemaining(q, head, input) - d
            && (k < |next| && k + d < |q| ==> next[k] == LQT.LoadAfter(q[k + d], Step(head, k + d), input))
            && (k < |next| && k + d == |q| ==> input.issue.Some? && IsNew(next[k], input.issue.value))
  {
    hide Ahead, Step, LQT.LoadAfter, Concerned;
    if input.issue.Some? {
      NewLoad(LQT.WithIssue(q, input.issue)[|q|], input.issue.value, Step(head, |q|), input);
    }
  }

  /** A load that takes a notice has its value, and will report it; any other is left alone. */
  lemma NoticeFills(load: LQEntry, notify: StoreNotify)
    ensures var l := Forwarded(load, notify);
            if Takes(load, notify)
            then
              && l.value == notify.value && l.valueState.READY? && !l.isCDBBroadcast
              && l.(value := load.value, valueState := load.valueState, isCDBBroadcast := load.isCDBBroadcast) == load
            else l == load
  {
    hide Takes;
  }
}
