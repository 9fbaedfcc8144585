/**
  A whole tick of the load queue, in the order in which the program applies its parts: issue, the
  notices of stores, the address that arrives, the load that is sent to the cache, retirement, the
  reply of the cache, the broadcast and the squash.
 */
module LoadQueueTick {
  import opened Bits
  import opened Capacities
  import opened ForwardingTick
  import opened MemQueues
  import opened Options
  import opened StoreForwarding
  import SQT = StoreQueueTick

  datatype LoadIssue = LoadIssue(robTag: nat, nBytes: nat, isUnsigned: bool)

  /** The address of a load, and what the store queue answers. */
  datatype OwnAddress = OwnAddress(index: Position, address: u32, answer: StoreResponse)

  /** A reply of the cache, that is not covered by the squash of the tick. */
  datatype Reply = Reply(index: Position, robTag: nat, value: i32)

  datatype Input = Input(issue: Option<LoadIssue>, notices: seq<StoreNotify>, own: Option<OwnAddress>,
                         sent: Option<Position>, retires: bool, reply: Option<Reply>, broadcast: Option<Position>,
                         restored: Option<Position>)

  // ---------- The tick on sequences

  function WithIssue(q: seq<LQEntry>, issue: Option<LoadIssue>): seq<LQEntry> {
    if issue.Some?
    then q + [EMPTY_LOAD.(robTag := issue.value.robTag, nBytes := issue.value.nBytes,
                          isUnsigned := issue.value.isUnsigned)]
    else q
  }

  function WithOwn(load: LQEntry, own: OwnAddress): LQEntry {
    var addressed := load.(address := own.address, isAddressReady := true);
    if own.answer.valid then Filled(addressed, own.answer.value) else addressed
  }

  /** The load at this position after the notices and the address of the tick. */
  function Learned(load: LQEntry, at: Position, input: Input): LQEntry {
    var offered := Offered(load, input.notices);
    if input.own.Some? && input.own.value.index == at then WithOwn(offered, input.own.value) else offered
  }

  /** The load that is sent to the cache is fetching from now on. */
  function WithSent(load: LQEntry, at: Position, sent: Option<Position>): LQEntry {
    if sent == Some(at) then load.(valueState := FETCHING) else load
  }

  /** The reply is for this place and this tag, and the load there is fetching. */
  predicate TakesReply(load: LQEntry, at: Position, reply: Option<Reply>) {
    reply.Some? && reply.value.index == at && load.robTag == reply.value.robTag && load.valueState.FETCHING?
  }

  function WithReply(load: LQEntry, at: Position, reply: Option<Reply>): LQEntry {
    if TakesReply(load, at, reply) then Filled(load, reply.value.value) else load
  }

  function WithBroadcast(load: LQEntry, at: Position, broadcast: Option<Position>): LQEntry {
    if broadcast == Some(at) then load.(isCDBBroadcast := true) else load
  }

  /** What the cache and the result bus do to a load. */
  function Exchanged(load: LQEntry, at: Position, input: Input): LQEntry {
    WithBroadcast(WithReply(WithSent(load, at, input.sent), at, input.reply), at, input.broadcast)
  }

  function LoadAfter(load: LQEntry, at: Position, input: Input): LQEntry {
    Exchanged(Learned(load, at, input), at, input)
  }

  /** All loads of the tick, the new one included, before any leaves. */
  function Written(q: seq<LQEntry>, head: Position, input: Input): (r: seq<LQEntry>)
    requires |q| < QUEUE_CAP && (input.issue.Some? ==> |q| < QUEUE_CAP - 1)
    ensures |r| == |WithIssue(q, input.issue)|
    ensures forall k :: 0 <= k < |r| ==> r[k] == LoadAfter(WithIssue(q, input.issue)[k], Step(head, k), input)
  {
    var issued := WithIssue(q, input.issue);
    seq(|issued|, k requires 0 <= k < |issued| => LoadAfter(issued[k], Step(head, k), input))
  }

  function Kept<T>(q: seq<T>, head: Position, restored: Option<Position>): seq<T> {
    if restored.Some? && Ahead(head, restored.value) <= |q| then q[..Ahead(head, restored.value)] else q
  }

  function Left<T>(q: seq<T>, retires: bool): seq<T> {
    if retires && q != [] then q[1..] else q
  }

  function LoadStep(q: seq<LQEntry>, head: Position, input: Input): seq<LQEntry>
    requires |q| < QUEUE_CAP && (input.issue.Some? ==> |q| < QUEUE_CAP - 1)
  {
    Left(Kept(Written(q, head, input), head, input.restored), input.retires)
  }

  // ---------- The tick of the ring

  /** What a tick is given refers to places in use; only the reply may be for a load that is gone. */
  predicate Fits(head: Position, tail: Position, input: Input) {
    && (input.issue.Some? ==> (tail + 1) % QUEUE_CAP != head && input.restored.None?)
    && (input.own.Some? ==> Active(head, tail, input.own.value.index))
    && (input.sent.Some? ==> Active(head, tail, input.sent.value))
    && (input.broadcast.Some? ==> Active(head, tail, input.broadcast.value))
    && (input.retires ==> head != tail && input.restored.None?)
    && (input.restored.Some? ==> Ahead(head, input.restored.value) <= Ahead(head, tail))
  }

  method SetFetching(lq: LQ, index: Position)
    requires lq.Valid()
    modifies lq.queue
    ensures lq.queue[..] == old(lq.queue[..])[index := old(lq.queue[index]).(valueState := FETCHING)]
  {
    lq.queue[index] := lq.queue[index].(valueState := FETCHING);
  }

  method SetCDBBroadcast(lq: LQ, index: Position)
    requires lq.Valid()
    modifies lq.queue
    ensures lq.queue[..] == old(lq.queue[..])[index := old(lq.queue[index]).(isCDBBroadcast := true)]
  {
    lq.queue[index] := lq.queue[index].(isCDBBroadcast := true);
  }

  /** Issue, notices and address. */
  method LearnAll(lq: LQ, input: Input)
    requires lq.Valid() && Fits(lq.head, lq.tail, input)
    modifies lq`tail, lq.queue
    ensures lq.tail == if input.issue.Some? then (old(lq.tail) + 1) % QUEUE_CAP else old(lq.tail)
    ensures var issued := WithIssue(old(lq.Contents()), input.issue);
            && |lq.Contents()| == |issued|
            && forall k :: 0 <= k < |issued| ==>
                 lq.Contents()[k] == Learned(issued[k], Step(lq.head, k), input)
  {
    hide Ahead, Step, Unrolled, Offered, Active;
    if input.issue.Some? {
      if input.own.Some? {
        SQT.StaysActive(lq.head, lq.tail, input.own.value.index);
      }
      lq.PushLoad(input.issue.value.robTag, input.issue.value.nBytes, input.issue.value.isUnsigned);
    }
    ApplyAll(lq, input.notices);
    if input.own.Some? {
      ghost var offered := lq.Contents();
      var own := input.own.value;
      ForwardingTick.Learn(lq, own.index, own.address, own.answer);
      forall k | 0 <= k < |offered| ensures Step(lq.head, k) == own.index <==> k == Ahead(lq.head, own.index) {
        StepAhead(lq.head, own.index, k);
      }
    }
  }

  /** A reply only counts for a load that is fetching under its tag. */
  method TakeReply(lq: LQ, reply: Option<Reply>)
    requires lq.Valid()
    modifies lq.queue
    ensures reply.None? ==> lq.queue[..] == old(lq.queue[..])
    ensures reply.Some? ==>
              var index := reply.value.index;
              lq.queue[..] == old(lq.queue[..])[index := WithReply(old(lq.queue[index]), index, reply)]
  {
    if reply.Some? {
      lq.WriteValueIfFetching(reply.value.robTag, reply.value.index, reply.value.value);
    }
  }

  /** Moving the tail back and the head on keeps the front part and drops the first entry. */
  lemma {:induction false} LeftContents<T>(queue: seq<T>, head: Position, tail: Position, retires: bool,
                                           restored: Option<Position>)
    requires |queue| == QUEUE_CAP && (retires ==> head != tail && restored.None?)
    requires restored.Some? ==> Ahead(head, restored.value) <= Ahead(head, tail)
    ensures Unrolled(queue, if retires then (head + 1) % QUEUE_CAP else head,
                     if restored.Some? then restored.value else tail)
         == Left(Kept(Unrolled(queue, head, tail), head, restored), retires)
  {
    hide Ahead, Step, Unrolled;
    var tail' := if restored.Some? then restored.value else tail;
    assert Unrolled(queue, head, tail') == Kept(Unrolled(queue, head, tail), head, restored);
    if retires {
      AheadIs(head, tail);
      Popped(queue, head, tail');
    }
  }

  /** Writing every place of the ring writes every load of the queue. */
  lemma {:induction false} AllExchanged(was: seq<LQEntry>, now: seq<LQEntry>, head: Position, tail: Position,
                                        input: Input)
    requires |was| == |now| == QUEUE_CAP
    requires forall i: Position :: now[i] == Exchanged(was[i], i, input)
    ensures |Unrolled(now, head, tail)| == |Unrolled(was, head, tail)|
    ensures forall k :: 0 <= k < Ahead(head, tail) ==>
              Unrolled(now, head, tail)[k] == Exchanged(Unrolled(was, head, tail)[k], Step(head, k), input)
  {
    hide Ahead, Step, Exchanged;
  }

  /** The places left after the tick are those of the step on the sequence. */
  lemma {:induction false} WrittenIs(q: seq<LQEntry>, learned: seq<LQEntry>, now: seq<LQEntry>, head: Position,
                                     input: Input)
    requires |q| < QUEUE_CAP && (input.issue.Some? ==> |q| < QUEUE_CAP - 1)
    requires |learned| == |now| == |WithIssue(q, input.issue)|
    requires forall k :: 0 <= k < |learned| ==>
               learned[k] == Learned(WithIssue(q, input.issue)[k], Step(head, k), input)
    requires forall k :: 0 <= k < |learned| ==> now[k] == Exchanged(learned[k], Step(head, k), input)
    ensures now == Written(q, head, input)
  {
    hide Step, Learned, Exchanged;
  }

  lemma RoomLeft(head: Position, tail: Position)
    ensures (tail + 1) % QUEUE_CAP != head ==> Ahead(head, tail) < QUEUE_CAP - 1
  {
  }

  /** The load that is sent, retirement, reply and broadcast. */
  method ExchangeAll(lq: LQ, input: Input)
    requires lq.Valid() && (input.retires ==> lq.head != lq.tail)
    modifies lq`head, lq.queue
    ensures forall i: Position :: lq.queue[i] == Exchanged(old(lq.queue[i]), i, input)
    ensures lq.head == if input.retires then (old(lq.head) + 1) % QUEUE_CAP else old(lq.head)
  {
    hide Ahead, Step, Unrolled, Active;
    if input.sent.Some? {
      SetFetching(lq, input.sent.value);
    }
    if input.retires {
      lq.Pop();
    }
    TakeReply(lq, input.reply);
    if input.broadcast.Some? {
      SetCDBBroadcast(lq, input.broadcast.value);
    }
  }

  /** One tick of the load queue. */
  method Tick(lq: LQ, input: Input)
    requires lq.Valid() && Fits(lq.head, lq.tail, input)
    modifies lq, lq.queue
    ensures |old(lq.Contents())| < QUEUE_CAP && (input.issue.Some? ==> |old(lq.Contents())| < QUEUE_CAP - 1)
    ensures lq.Contents() == LoadStep(old(lq.Contents()), old(lq.head), input)
    ensures lq.head == if input.retires then (old(lq.head) + 1) % QUEUE_CAP else old(lq.head)
  {
    hide Ahead, Step, Unrolled, Active, Learned, Exchanged, WithIssue, Kept, Left;
    ghost var q, head := lq.Contents(), lq.head;
    RoomLeft(lq.head, lq.tail);
    LearnAll(lq, input);
    ghost var learned, was, tail := lq.Contents(), lq.queue[..], lq.tail;
    StillFits(head, old(lq.tail), tail, input);
    ExchangeAll(lq, input);
    AllExchanged(was, lq.queue[..], head, tail, input);
    WrittenIs(q, learned, Unrolled(lq.queue[..], head, tail), head, input);
    LeftContents(lq.queue[..], head, tail, input.retires, input.restored);
    if input.restored.Some? {
      lq.Flush(input.restored.value);
    }
  }

  /** A new load leaves the places in use in use, and the queue not empty. */
  lemma StillFits(head: Position, tail: Position, tail': Position, input: Input)
    requires Fits(head, tail, input) && tail' == if input.issue.Some? then (tail + 1) % QUEUE_CAP else tail
    ensures input.retires ==> head != tail'
    ensures input.restored.Some? ==> Ahead(head, input.restored.value) <= Ahead(head, tail')
  {
  }
}
