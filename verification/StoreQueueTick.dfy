/**
  A whole tick of the store queue: issue, values, address, dispatch, commit and squash, in the order
  in which the program applies them. Queue order stays age order, and the committed stores stay in
  front, in every tick.
 */
module StoreQueueTick {
  import opened Bits
  import opened Capacities
  import opened MemQueues
  import opened Options
  import opened StoreForwarding
  import opened Tags

  datatype StoreIssue = StoreIssue(robTag: nat, nBytes: nat)

  datatype ValueWrite = ValueWrite(index: Position, value: i32)

  datatype AddressWrite = AddressWrite(index: Position, address: u32)

  /** What a tick is given: committing is the tag of a store that commits, restored the tail a squash returns to. */
  datatype Input = Input(issue: Option<StoreIssue>, values: seq<ValueWrite>, address: Option<AddressWrite>,
                         dispatched: bool, committing: Option<nat>, restored: Option<Position>)

  // ---------- The tick on sequences, positions counted from the head

  function WithIssue(q: seq<SQEntry>, issue: Option<StoreIssue>): seq<SQEntry> {
    if issue.Some? then q + [EMPTY_STORE.(robTag := issue.value.robTag, nBytes := issue.value.nBytes)] else q
  }

  function WithValues(q: seq<SQEntry>, head: Position, values: seq<ValueWrite>): (r: seq<SQEntry>)
    ensures |r| == |q|
    decreases |values|
  {
    if values == [] then q
    else
      var p := Ahead(head, values[0].index);
      var first := if p < |q| then q[p := q[p].(value := values[0].value, isValueReady := true)] else q;
      WithValues(first, head, values[1..])
  }

  function WithAddress(q: seq<SQEntry>, head: Position, write: Option<AddressWrite>): (r: seq<SQEntry>)
    ensures |r| == |q|
  {
    if write.Some? && Ahead(head, write.value.index) < |q|
    then
      var p := Ahead(head, write.value.index);
      q[p := q[p].(address := write.value.address, isAddressReady := true)]
    else q
  }

  /** The store commits now: in the queue at the start of the tick it has this tag and has not committed. */
  predicate Commits(start: seq<SQEntry>, k: nat, tag: Option<nat>) {
    tag.Some? && k < |start| && start[k].robTag == tag.value && !start[k].isCommitted
  }

  function WithCommit(q: seq<SQEntry>, start: seq<SQEntry>, tag: Option<nat>): (r: seq<SQEntry>)
    ensures |r| == |q|
    ensures forall k :: 0 <= k < |q| ==> r[k] == if Commits(start, k, tag) then q[k].(isCommitted := true) else q[k]
  {
    seq(|q|, k requires 0 <= k < |q| => if Commits(start, k, tag) then q[k].(isCommitted := true) else q[k])
  }

  function Kept(q: seq<SQEntry>, head: Position, restored: Option<Position>): seq<SQEntry> {
    if restored.Some? && Ahead(head, restored.value) <= |q| then q[..Ahead(head, restored.value)] else q
  }

  function Dispatched(q: seq<SQEntry>, dispatched: bool): seq<SQEntry> {
    if dispatched && q != [] then q[1..] else q
  }

  /** The entries written in a tick, before any leaves. */
  function Written(q: seq<SQEntry>, head: Position, input: Input): seq<SQEntry> {
    WithCommit(WithAddress(WithValues(WithIssue(q, input.issue), head, input.values), head, input.address), q,
               input.committing)
  }

  function StoreStep(q: seq<SQEntry>, head: Position, input: Input): seq<SQEntry> {
    Dispatched(Kept(Written(q, head, input), head, input.restored), input.dispatched)
  }

  // ---------- The order of the queue

  /**
    What the surroundings guarantee: issued stores are the youngest, only a committed store (or one
    committing now) is dispatched, the committing store is the instruction at the head of the
    reorder buffer, and a squash keeps all stores that have committed or are committing.
   */
  ghost predicate Legal(q: seq<SQEntry>, head: Position, input: Input, oldest: nat, c: nat, retires: bool) {
    && (input.issue.Some? ==>
          && Live(ROB_CAP, oldest, input.issue.value.robTag) && (retires ==> input.issue.value.robTag != oldest)
          && input.restored.None?
          && forall k :: c <= k < |q| ==> IsOlder(ROB_CAP, q[k].robTag, input.issue.value.robTag))
    && (input.committing.Some? ==> retires && input.committing.value == oldest)
    && (retires && input.committing.None? ==> c < |q| ==> q[c].robTag != oldest)
    && (input.dispatched ==> 0 < CommittedNow(q, input, c))
    && (input.restored.Some? ==> CommittedNow(q, input, c) <= Ahead(head, input.restored.value) <= |q|)
  }

  /** Stores that have committed once this tick is over. */
  function CommittedNow(q: seq<SQEntry>, input: Input, c: nat): nat {
    if c < |q| && input.committing == Some(q[c].robTag) then c + 1 else c
  }

  /** Tags and commit flags are the same. */
  predicate SameOrder(q: seq<SQEntry>, r: seq<SQEntry>) {
    |r| == |q| && forall k :: 0 <= k < |q| ==> r[k].robTag == q[k].robTag && r[k].isCommitted == q[k].isCommitted
  }

  lemma {:induction false} ValuesKeepOrder(q: seq<SQEntry>, head: Position, values: seq<ValueWrite>)
    ensures SameOrder(q, WithValues(q, head, values))
    decreases |values|
  {
    hide Ahead;
    if values != [] {
      var p := Ahead(head, values[0].index);
      var first := if p < |q| then q[p := q[p].(value := values[0].value, isValueReady := true)] else q;
      ValuesKeepOrder(first, head, values[1..]);
    }
  }

  lemma {:induction false} SameOrderInOrder(q: seq<SQEntry>, r: seq<SQEntry>, oldest: nat, c: nat)
    requires InOrder(q, oldest, c) && SameOrder(q, r)
    ensures InOrder(r, oldest, c)
  {
    hide IsOlder, Live;
  }

  /** The commit of a tick, seen from the queue: the instruction at the head retires, or none does. */
  lemma {:induction false} CommitStep(start: seq<SQEntry>, q: seq<SQEntry>, oldest: nat, c: nat, tag: Option<nat>)
    requires InOrder(q, oldest, c) && |start| <= |q| && SameOrder(start, q[..|start|])
    requires tag.Some? ==> tag.value == oldest
    requires tag.Some? && c < |q| && q[c].robTag == oldest ==> c < |start|
    requires tag.None? && c < |q| ==> q[c].robTag != oldest
    ensures var c' := if c < |start| && tag == Some(start[c].robTag) then c + 1 else c;
            InOrder(WithCommit(q, start, tag), NextTag(ROB_CAP, oldest), c')
  {
    hide IsOlder, Live, NextTag;
    forall k | 0 <= k < |start| ensures start[k].robTag == q[k].robTag && start[k].isCommitted == q[k].isCommitted {
      assert q[..|start|][k] == q[k];
    }
    forall k | 0 <= k < |start| && Commits(start, k, tag) ensures k == c {
      OnlyFirstIsOldest(q, oldest, c, k);
    }
    CommitKeepsOrder(q, oldest, c);
    assert WithCommit(q, start, tag)
        == if c < |start| && tag == Some(start[c].robTag) then q[c := q[c].(isCommitted := true)] else q;
  }

  /** Only the first uncommitted store can carry the oldest tag. */
  lemma {:induction false} OnlyFirstIsOldest(q: seq<SQEntry>, oldest: nat, c: nat, k: nat)
    requires InOrder(q, oldest, c) && k < |q| && q[k].robTag == oldest && !q[k].isCommitted
    ensures k == c
  {
    hide IsOlder, Live;
    if k > c {
      HeadIsOldest(oldest, q[c].robTag, q[k].robTag);
    }
  }

  lemma {:induction false} NoCommit(q: seq<SQEntry>, start: seq<SQEntry>)
    ensures WithCommit(q, start, None) == q
  {
  }

  /** Every legal tick keeps the queue in order; committed stores stay in front. */
  lemma {:induction false} TickKeepsOrder(q: seq<SQEntry>, head: Position, input: Input, oldest: nat, c: nat,
                                          retires: bool)
    requires InOrder(q, oldest, c) && Legal(q, head, input, oldest, c, retires)
    ensures var oldest' := if retires then NextTag(ROB_CAP, oldest) else oldest;
            var c' := CommittedNow(q, input, c) - if input.dispatched then 1 else 0;
            InOrder(StoreStep(q, head, input), oldest', c')
  {
    hide IsOlder, Live, NextTag, Ahead, InOrder, WithValues, WithCommit;
    var issued := WithIssue(q, input.issue);
    assert InOrder(issued, oldest, c) by {
      if input.issue.Some? {
        var issue := input.issue.value;
        PushKeepsOrder(q, oldest, c, EMPTY_STORE.(robTag := issue.robTag, nBytes := issue.nBytes));
      }
    }
    var valued := WithValues(issued, head, input.values);
    var addressed := WithAddress(valued, head, input.address);
    ValuesKeepOrder(issued, head, input.values);
    assert SameOrder(issued, addressed);
    SameOrderInOrder(issued, addressed, oldest, c);
    assert InOrderBounds(q, c) by {
      BoundsOfOrder(q, oldest, c);
    }
    var written := WithCommit(addressed, q, input.committing);
    if retires {
      CommitStep(q, addressed, oldest, c, input.committing);
    } else {
      NoCommit(addressed, q);
    }
    var oldest' := if retires then NextTag(ROB_CAP, oldest) else oldest;
    var now := CommittedNow(q, input, c);
    assert InOrder(written, oldest', now);
    var kept := Kept(written, head, input.restored);
    if input.restored.Some? {
      FlushKeepsOrder(written, oldest', now, Ahead(head, input.restored.value));
    }
    if input.dispatched {
      BoundsOfOrder(kept, oldest', now);
      PopKeepsOrder(kept, oldest', now);
    }
  }

  predicate InOrderBounds(q: seq<SQEntry>, c: nat) {
    c <= |q|
  }

  lemma BoundsOfOrder(q: seq<SQEntry>, oldest: nat, c: nat)
    requires InOrder(q, oldest, c)
    ensures InOrderBounds(q, c)
  {
    hide IsOlder, Live;
  }

  // ---------- The tick of the ring

  /** Marks the committing store; which one it is, is decided from the queue at the start of the tick. */
  method MarkCommitted(sq: SQ, snapshot: seq<SQEntry>, head: Position, tail: Position, tag: nat)
    requires sq.Valid() && |snapshot| == QUEUE_CAP
    modifies sq.queue
    ensures forall i: Position :: sq.queue[i] ==
              if Active(head, tail, i) && snapshot[i].robTag == tag && !snapshot[i].isCommitted
              then old(sq.queue[i]).(isCommitted := true) else old(sq.queue[i])
  {
    hide Active;
    for i := 0 to QUEUE_CAP
      invariant forall k: Position :: sq.queue[k] ==
                  if k < i && Active(head, tail, k) && snapshot[k].robTag == tag && !snapshot[k].isCommitted
                  then old(sq.queue[k]).(isCommitted := true) else old(sq.queue[k])
    {
      if Active(head, tail, i) && snapshot[i].robTag == tag && !snapshot[i].isCommitted {
        sq.queue[i] := sq.queue[i].(isCommitted := true);
      }
    }
  }

  /** Marking in the ring is marking in the sequence, also when an entry has been added at the tail. */
  lemma {:induction false} MarkedContents(snapshot: seq<SQEntry>, before: seq<SQEntry>, after: seq<SQEntry>,
                                          head: Position, tail: Position, tail': Position, tag: nat)
    requires |snapshot| == |before| == |after| == QUEUE_CAP && Ahead(head, tail) <= Ahead(head, tail')
    requires forall i: Position :: after[i] ==
               if Active(head, tail, i) && snapshot[i].robTag == tag && !snapshot[i].isCommitted
               then before[i].(isCommitted := true) else before[i]
    ensures Unrolled(after, head, tail')
         == WithCommit(Unrolled(before, head, tail'), Unrolled(snapshot, head, tail), Some(tag))
  {
    hide Active, Ahead, Step, Unrolled;
    forall k | 0 <= k < Ahead(head, tail')
      ensures Unrolled(after, head, tail')[k]
           == WithCommit(Unrolled(before, head, tail'), Unrolled(snapshot, head, tail), Some(tag))[k]
    {
      ActiveIsWithin(head, tail, k);
    }
  }

  /** The values that arrive are written one after the other. */
  method WriteValues(sq: SQ, values: seq<ValueWrite>)
    requires sq.Valid() && forall k :: 0 <= k < |values| ==> sq.IsActive(values[k].index)
    modifies sq.queue
    ensures sq.Contents() == WithValues(old(sq.Contents()), sq.head, values)
  {
    hide Ahead, Step, WithValues;
    ghost var start := sq.Contents();
    for i := 0 to |values|
      invariant WithValues(sq.Contents(), sq.head, values[i..]) == WithValues(start, sq.head, values)
    {
      ValuesUnfold(sq.Contents(), sq.head, values[i..]);
      assert values[i..][1..] == values[i + 1..];
      sq.WriteValue(values[i].value, values[i].index);
    }
    assert values[|values|..] == [];
    NoValues(sq.Contents(), sq.head);
  }

  lemma {:induction false} ValuesUnfold(q: seq<SQEntry>, head: Position, values: seq<ValueWrite>)
    requires values != [] && Ahead(head, values[0].index) < |q|
    ensures var p := Ahead(head, values[0].index);
            var first := q[p := q[p].(value := values[0].value, isValueReady := true)];
            WithValues(q, head, values) == WithValues(first, head, values[1..])
  {
  }

  lemma NoValues(q: seq<SQEntry>, head: Position)
    ensures WithValues(q, head, []) == q
  {
  }

  /** A position in use stays in use when an entry is added. */
  lemma StaysActive(head: Position, tail: Position, index: Position)
    requires (tail + 1) % QUEUE_CAP != head && Active(head, tail, index)
    ensures Active(head, (tail + 1) % QUEUE_CAP, index)
  {
    hide Ahead;
    TailAhead(head, tail);
  }

  lemma TailAhead(head: Position, tail: Position)
    requires (tail + 1) % QUEUE_CAP != head
    ensures Ahead(head, (tail + 1) % QUEUE_CAP) == Ahead(head, tail) + 1
  {
    hide Ahead;
    AheadIs(head, tail);
    AheadIs(head, (tail + 1) % QUEUE_CAP);
  }

  /** Moving the tail back and the head on keeps the front part and drops the first entry. */
  lemma {:induction false} LeftContents(queue: seq<SQEntry>, head: Position, tail: Position, dispatched: bool,
                                        restored: Option<Position>)
    requires |queue| == QUEUE_CAP && (dispatched ==> head != tail)
    requires restored.Some? ==> (if dispatched then 1 else 0) <= Ahead(head, restored.value) <= Ahead(head, tail)
    ensures Unrolled(queue, if dispatched then (head + 1) % QUEUE_CAP else head,
                     if restored.Some? then restored.value else tail)
         == Dispatched(Kept(Unrolled(queue, head, tail), head, restored), dispatched)
  {
    hide Ahead, Step, Unrolled;
    var tail' := if restored.Some? then restored.value else tail;
    assert Unrolled(queue, head, tail') == Kept(Unrolled(queue, head, tail), head, restored);
    if dispatched {
      AheadIs(head, tail');
      AheadIs(head, tail);
      Popped(queue, head, tail');
    }
  }

  /** The writes of a tick that are not commits. */
  method WriteAll(sq: SQ, input: Input)
    requires sq.Valid() && (input.issue.Some? ==> !sq.IsFull())
    requires forall k :: 0 <= k < |input.values| ==> sq.IsActive(input.values[k].index)
    requires input.address.Some? ==> sq.IsActive(input.address.value.index)
    modifies sq`tail, sq.queue
    ensures sq.Contents()
         == WithAddress(WithValues(WithIssue(old(sq.Contents()), input.issue), sq.head, input.values), sq.head,
                        input.address)
    ensures sq.tail == if input.issue.Some? then (old(sq.tail) + 1) % QUEUE_CAP else old(sq.tail)
  {
    hide Ahead, Step, WithValues, Unrolled, Active;
    if input.issue.Some? {
      forall i: Position | sq.IsActive(i) ensures Active(sq.head, (sq.tail + 1) % QUEUE_CAP, i) {
        StaysActive(sq.head, sq.tail, i);
      }
      sq.PushStore(input.issue.value.robTag, input.issue.value.nBytes);
    }
    WriteValues(sq, input.values);
    if input.address.Some? {
      ActiveIsInside(sq.head, sq.tail, input.address.value.index);
      sq.WriteAddress(input.address.value.address, input.address.value.index);
    }
  }

  lemma ActiveIsInside(head: Position, tail: Position, index: Position)
    requires Active(head, tail, index)
    ensures Ahead(head, index) < Ahead(head, tail)
  {
  }

  /** One tick of the store queue. */
  method Tick(sq: SQ, input: Input)
    requires sq.Valid() && (input.issue.Some? ==> !sq.IsFull() && input.restored.None?)
    requires forall k :: 0 <= k < |input.values| ==> sq.IsActive(input.values[k].index)
    requires input.address.Some? ==> sq.IsActive(input.address.value.index)
    requires input.dispatched ==> !sq.IsEmpty()
    requires input.restored.Some? ==>
               (if input.dispatched then 1 else 0) <= Ahead(sq.head, input.restored.value) <= Ahead(sq.head, sq.tail)
    modifies sq, sq.queue
    ensures sq.Contents() == StoreStep(old(sq.Contents()), old(sq.head), input)
    ensures sq.head == if input.dispatched then (old(sq.head) + 1) % QUEUE_CAP else old(sq.head)
  {
    hide Ahead, Step, WithValues, WithAddress, WithIssue, WithCommit, Unrolled, Kept, Dispatched, Active;
    var snapshot, head, tail := sq.queue[..], sq.head, sq.tail;
    ghost var q := sq.Contents();
    WriteAll(sq, input);
    ghost var before, tail' := sq.queue[..], sq.tail;
    if input.issue.Some? {
      TailAhead(head, tail);
    }
    if input.dispatched {
      assert head != tail' by {
        NotEmptyAfterIssue(head, tail, tail');
      }
      sq.Pop();
    }
    if input.committing.Some? {
      MarkCommitted(sq, snapshot, head, tail, input.committing.value);
      MarkedContents(snapshot, before, sq.queue[..], head, tail, tail', input.committing.value);
    } else {
      NoCommit(Unrolled(before, head, tail'), q);
    }
    assert Unrolled(sq.queue[..], head, tail') == Written(q, head, input);
    LeftContents(sq.queue[..], head, tail', input.dispatched, input.restored);
    if input.restored.Some? {
      AfterPop(head, tail', input.restored.value, input.dispatched);
      sq.Flush(input.restored.value);
    }
  }

  lemma NotEmptyAfterIssue(head: Position, tail: Position, tail': Position)
    requires head != tail && Ahead(head, tail) <= Ahead(head, tail')
    ensures head != tail'
  {
    hide Ahead;
    AheadIs(head, tail);
    AheadIs(head, tail');
  }

  /** The restored tail is no further than the present one, also from a head that has moved on. */
  lemma AfterPop(head: Position, tail: Position, restored: Position, dispatched: bool)
    requires (if dispatched then 1 else 0) <= Ahead(head, restored) <= Ahead(head, tail)
    ensures var head' := if dispatched then (head + 1) % QUEUE_CAP else head;
            Ahead(head', restored) <= Ahead(head', tail)
  {
    hide Ahead;
    AheadIs(head, restored);
    AheadIs(head, tail);
    AheadIs((head + 1) % QUEUE_CAP, restored);
    AheadIs((head + 1) % QUEUE_CAP, tail);
  }
}
