/**
  The queue of squash requests: four places, filled in order of age, of which the oldest request
  is accepted each tick and takes all others with it.
 */
module FlushArbiter {
  import opened Bits
  import opened Capacities
  import opened Options
  import R = Rename
  import opened StoreForwarding
  import opened Tags

  const FLUSHARBITER_CAP: nat := 4

  datatype SquashInfo = SquashInfo(squashTag: nat, squashPC: u32, ckptId: nat)

  datatype FlushRequest = FlushRequest(requestArgs: SquashInfo, valid: bool)

  // ---------- The queue as a sequence

  /** The pending requests in array order. */
  function Pending(requests: seq<FlushRequest>): (q: seq<SquashInfo>)
    ensures |q| <= |requests|
  {
    if requests == [] then []
    else
      var n := |requests| - 1;
      Pending(requests[..n]) + if requests[n].valid then [requests[n].requestArgs] else []
  }

  /** Where a request goes: behind the leading requests that are older. */
  function InsertPosition(q: seq<SquashInfo>, tag: nat): (pos: nat)
    ensures pos <= |q|
    ensures forall i :: 0 <= i < pos ==> IsOlder(ROB_CAP, q[i].squashTag, tag)
    ensures pos < |q| ==> !IsOlder(ROB_CAP, q[pos].squashTag, tag)
  {
    if q == [] || !IsOlder(ROB_CAP, q[0].squashTag, tag) then 0 else 1 + InsertPosition(q[1..], tag)
  }

  function Insert(q: seq<SquashInfo>, request: SquashInfo): seq<SquashInfo> {
    var pos := InsertPosition(q, request.squashTag);
    q[..pos] + [request] + q[pos..]
  }

  /** The request the scan ends with: each one that is older replaces the one before. */
  function Accepted(q: seq<SquashInfo>): (r: Option<SquashInfo>)
    ensures r.None? <==> q == []
    ensures r.Some? ==> r.value in q
  {
    if q == [] then None
    else
      var n := |q| - 1;
      var rest := Accepted(q[..n]);
      if rest.None? || IsOlder(ROB_CAP, q[n].squashTag, rest.value.squashTag) then Some(q[n]) else rest
  }

  function KeepOlder(q: seq<SquashInfo>, tag: nat): (r: seq<SquashInfo>)
    ensures |r| <= |q|
  {
    if q == [] then []
    else
      var n := |q| - 1;
      KeepOlder(q[..n], tag) + if IsOlder(ROB_CAP, q[n].squashTag, tag) then [q[n]] else []
  }

  // ---------- Ages

  predicate AllLive(q: seq<SquashInfo>, head: nat) {
    forall i :: 0 <= i < |q| ==> Live(ROB_CAP, head, q[i].squashTag)
  }

  function AgeOf(head: nat, r: SquashInfo): int {
    SeqDistance(ROB_CAP, head, r.squashTag)
  }

  predicate SortedByAge(q: seq<SquashInfo>, head: nat) {
    forall i, j :: 0 <= i < j < |q| ==> AgeOf(head, q[i]) <= AgeOf(head, q[j])
  }

  /** Among live requests the accepted one is the oldest. */
  lemma {:induction false} AcceptedIsOldest(q: seq<SquashInfo>, head: nat)
    requires AllLive(q, head) && q != []
    ensures Accepted(q).Some?
    ensures forall i :: 0 <= i < |q| ==> AgeOf(head, Accepted(q).value) <= AgeOf(head, q[i])
  {
    hide Live, IsOlder, AgeOf;
    var n := |q| - 1;
    if n > 0 {
      AcceptedIsOldest(q[..n], head);
      var rest := Accepted(q[..n]).value;
      assert rest in q[..n];
      AgesDecide(head, q[n], rest);
      forall i | 0 <= i < |q| ensures AgeOf(head, Accepted(q).value) <= AgeOf(head, q[i]) {
        if i < n {
          assert q[..n][i] == q[i];
        }
      }
    }
  }

  lemma AgesDecide(head: nat, a: SquashInfo, b: SquashInfo)
    requires Live(ROB_CAP, head, a.squashTag) && Live(ROB_CAP, head, b.squashTag)
    ensures IsOlder(ROB_CAP, a.squashTag, b.squashTag) <==> AgeOf(head, a) < AgeOf(head, b)
  {
    hide Live, IsOlder, SeqDistance;
    LiveTagsAreOrdered(ROB_CAP, head, a.squashTag, b.squashTag);
  }

  /** The accepted squash drains the queue: no request is older than it. */
  lemma {:induction false} AcceptedDrains(q: seq<SquashInfo>, head: nat)
    requires AllLive(q, head) && q != []
    ensures Accepted(q).Some? && KeepOlder(q, Accepted(q).value.squashTag) == []
  {
    hide Live, IsOlder, AgeOf;
    AcceptedIsOldest(q, head);
    var best := Accepted(q).value;
    forall i | 0 <= i < |q| ensures !IsOlder(ROB_CAP, q[i].squashTag, best.squashTag) {
      AgesDecide(head, q[i], best);
    }
    NoneKept(q, best.squashTag);
  }

  lemma {:induction false} NoneKept(q: seq<SquashInfo>, tag: nat)
    requires forall i :: 0 <= i < |q| ==> !IsOlder(ROB_CAP, q[i].squashTag, tag)
    ensures KeepOlder(q, tag) == []
  {
    hide IsOlder;
    if q != [] {
      NoneKept(q[..|q| - 1], tag);
    }
  }

  /** Clearing keeps exactly the requests that are older. */
  lemma {:induction false} ClearKeepsOlder(q: seq<SquashInfo>, tag: nat, r: SquashInfo)
    ensures multiset(KeepOlder(q, tag))[r] == if IsOlder(ROB_CAP, r.squashTag, tag) then multiset(q)[r] else 0
  {
    hide IsOlder;
    if q != [] {
      var n := |q| - 1;
      ClearKeepsOlder(q[..n], tag, r);
      assert q == q[..n] + [q[n]];
    }
  }

  /** Live requests in front of the insert position are older than the new one, those behind are not. */
  lemma {:induction false} PositionSplitsAges(q: seq<SquashInfo>, request: SquashInfo, head: nat, i: nat)
    requires AllLive(q, head) && SortedByAge(q, head) && Live(ROB_CAP, head, request.squashTag) && i < |q|
    ensures var pos := InsertPosition(q, request.squashTag);
            if i < pos then AgeOf(head, q[i]) <= AgeOf(head, request)
            else AgeOf(head, request) <= AgeOf(head, q[i])
  {
    hide Live, IsOlder, AgeOf;
    var pos := InsertPosition(q, request.squashTag);
    if i < pos {
      AgesDecide(head, q[i], request);
    } else {
      AgesDecide(head, q[pos], request);
    }
  }

  /** Inserting gains exactly the new request. */
  lemma {:induction false} InsertMultiset(q: seq<SquashInfo>, request: SquashInfo)
    ensures multiset(Insert(q, request)) == multiset(q) + multiset{request}
  {
    var pos := InsertPosition(q, request.squashTag);
    assert q == q[..pos] + q[pos..];
  }

  /** A sorted queue stays sorted. */
  lemma {:induction false} InsertKeepsOrder(q: seq<SquashInfo>, request: SquashInfo, head: nat)
    requires AllLive(q, head) && SortedByAge(q, head) && Live(ROB_CAP, head, request.squashTag)
    ensures AllLive(Insert(q, request), head) && SortedByAge(Insert(q, request), head)
  {
    hide Live, IsOlder, AgeOf, InsertPosition;
    forall i | 0 <= i < |q|
      ensures var pos := InsertPosition(q, request.squashTag);
              if i < pos then AgeOf(head, q[i]) <= AgeOf(head, request)
              else AgeOf(head, request) <= AgeOf(head, q[i])
    {
      PositionSplitsAges(q, request, head, i);
    }
  }

  // ---------- What raises a request

  datatype BranchResult = BranchResult(robTag: nat, pcResult: u32)

  datatype Broadcast = Broadcast(robTag: nat, value: u32, isControl: bool)

  datatype StoreAddress = StoreAddress(robTag: nat, address: u32)

  /**
    What the arbiter sees in a tick: the oldest branch result, the broadcast of the ALU, an address
    computed for a store, and the queues.
   */
  datatype Input = Input(rob: R.RobState, branch: Option<BranchResult>, broadcast: Option<Broadcast>,
                         store: Option<StoreAddress>, loads: seq<LQEntry>)

  predicate NotCovered(tag: nat, squash: Option<SquashInfo>) {
    squash.None? || IsOlder(ROB_CAP, tag, squash.value.squashTag)
  }

  function EntryAt(rob: R.RobState, tag: nat): R.ROBEntry
    requires R.RobShape(rob) && R.MatchesTag(rob, tag)
  {
    rob.queue[Slot(ROB_CAP, tag)]
  }

  /** A branch that went elsewhere than predicted. */
  function BranchRequest(input: Input, squash: Option<SquashInfo>): Option<SquashInfo>
    requires R.RobShape(input.rob)
  {
    if input.branch.Some? && R.MatchesTag(input.rob, input.branch.value.robTag)
       && NotCovered(input.branch.value.robTag, squash) then
      var b, e := input.branch.value, EntryAt(input.rob, input.branch.value.robTag);
      if b.pcResult != e.predictedPC then Some(SquashInfo(b.robTag, b.pcResult, e.ckptId)) else None
    else None
  }

  /** An indirect jump that went elsewhere than predicted. */
  function JumpRequest(input: Input, squash: Option<SquashInfo>): Option<SquashInfo>
    requires R.RobShape(input.rob)
  {
    if input.broadcast.Some? && R.MatchesTag(input.rob, input.broadcast.value.robTag)
       && NotCovered(input.broadcast.value.robTag, squash)
       && !IsOlder(ROB_CAP, input.broadcast.value.robTag, input.rob.head) && input.broadcast.value.isControl then
      var b, e := input.broadcast.value, EntryAt(input.rob, input.broadcast.value.robTag);
      if b.value != e.predictedPC then Some(SquashInfo(b.robTag, b.value, e.ckptId)) else None
    else None
  }

  /** A load that went ahead of an older store to the same address, whose address is only known now. */
  predicate Violates(load: LQEntry, input: Input, squash: Option<SquashInfo>)
    requires R.RobShape(input.rob) && input.store.Some?
  {
    && load.isAddressReady && load.address == input.store.value.address
    && (load.valueState.READY? || load.valueState.FETCHING?)
    && IsOlder(ROB_CAP, input.store.value.robTag, load.robTag)
    && NotCovered(load.robTag, squash) && R.MatchesTag(input.rob, load.robTag)
  }

  /** The first violating load from position k on. */
  function FirstViolation(input: Input, squash: Option<SquashInfo>, k: nat): Option<SquashInfo>
    requires R.RobShape(input.rob) && input.store.Some? && k <= |input.loads|
    decreases |input.loads| - k
  {
    if k == |input.loads| then None
    else if Violates(input.loads[k], input, squash) then
      var e := EntryAt(input.rob, input.loads[k].robTag);
      Some(SquashInfo(input.loads[k].robTag, e.pc, e.ckptId))
    else FirstViolation(input, squash, k + 1)
  }

  function ViolationRequest(input: Input, squash: Option<SquashInfo>): Option<SquashInfo>
    requires R.RobShape(input.rob)
  {
    if input.store.Some? && NotCovered(input.store.value.robTag, squash) then FirstViolation(input, squash, 0)
    else None
  }

  function InsertIf(q: seq<SquashInfo>, request: Option<SquashInfo>): seq<SquashInfo> {
    if request.Some? then Insert(q, request.value) else q
  }

  /** The queue after a tick that starts with q pending. */
  function NextQueue(q: seq<SquashInfo>, input: Input): seq<SquashInfo>
    requires R.RobShape(input.rob)
  {
    var squash := Accepted(q);
    var kept := if squash.Some? then KeepOlder(q, squash.value.squashTag) else q;
    InsertIf(InsertIf(InsertIf(kept, BranchRequest(input, squash)), JumpRequest(input, squash)),
             ViolationRequest(input, squash))
  }

  /** Pending and new requests name instructions in flight. */
  predicate NamesLive(q: seq<SquashInfo>, input: Input)
    requires R.RobShape(input.rob)
  {
    var squash := Accepted(q);
    && AllLive(q, input.rob.head)
    && LiveIfAny(BranchRequest(input, squash), input.rob.head)
    && LiveIfAny(JumpRequest(input, squash), input.rob.head)
    && LiveIfAny(ViolationRequest(input, squash), input.rob.head)
  }

  predicate LiveIfAny(request: Option<SquashInfo>, head: nat) {
    request.Some? ==> Live(ROB_CAP, head, request.value.squashTag)
  }

  lemma {:induction false} InsertIfKeepsOrder(q: seq<SquashInfo>, request: Option<SquashInfo>, head: nat)
    requires AllLive(q, head) && SortedByAge(q, head) && LiveIfAny(request, head)
    ensures AllLive(InsertIf(q, request), head) && SortedByAge(InsertIf(q, request), head)
    ensures |InsertIf(q, request)| == |q| + if request.Some? then 1 else 0
  {
    if request.Some? {
      InsertKeepsOrder(q, request.value, head);
    }
  }

  /** After every tick the queue holds only the requests of that tick, at most three, oldest first. */
  lemma {:induction false} TickDrains(q: seq<SquashInfo>, input: Input)
    requires R.RobShape(input.rob) && NamesLive(q, input)
    ensures var squash := Accepted(q);
            && (squash.Some? ==> KeepOlder(q, squash.value.squashTag) == [])
            && |InsertIf([], BranchRequest(input, squash))| <= 1
            && |InsertIf(InsertIf([], BranchRequest(input, squash)), JumpRequest(input, squash))| <= 2
            && NextQueue(q, input)
               == InsertIf(InsertIf(InsertIf([], BranchRequest(input, squash)), JumpRequest(input, squash)),
                           ViolationRequest(input, squash))
    ensures |NextQueue(q, input)| <= 3
    ensures AllLive(NextQueue(q, input), input.rob.head) && SortedByAge(NextQueue(q, input), input.rob.head)
  {
    hide Live, IsOlder, AgeOf, BranchRequest, JumpRequest, ViolationRequest, InsertIf;
    var squash, head := Accepted(q), input.rob.head;
    if q != [] {
      AcceptedDrains(q, head);
    }
    var one := InsertIf([], BranchRequest(input, squash));
    var two := InsertIf(one, JumpRequest(input, squash));
    InsertIfKeepsOrder([], BranchRequest(input, squash), head);
    InsertIfKeepsOrder(one, JumpRequest(input, squash), head);
    InsertIfKeepsOrder(two, ViolationRequest(input, squash), head);
  }

  // ---------- The array

  /** The requests of q fill the first places, and the others are free. */
  predicate Compact(requests: seq<FlushRequest>, q: seq<SquashInfo>) {
    && |q| <= |requests|
    && (forall i :: 0 <= i < |q| ==> requests[i] == FlushRequest(q[i], true))
    && (forall i :: |q| <= i < |requests| ==> !requests[i].valid)
  }

  lemma {:induction false} PendingOfCompact(requests: seq<FlushRequest>, q: seq<SquashInfo>)
    requires Compact(requests, q)
    ensures Pending(requests) == q
  {
    if requests != [] {
      var n := |requests| - 1;
      if |q| == |requests| {
        PendingOfCompact(requests[..n], q[..n]);
      } else {
        PendingOfCompact(requests[..n], q);
      }
    }
  }

  lemma {:induction false} PendingStep(requests: seq<FlushRequest>, r: nat)
    requires r < |requests|
    ensures Pending(requests[..r + 1])
         == Pending(requests[..r]) + if requests[r].valid then [requests[r].requestArgs] else []
  {
    assert requests[..r + 1][..r] == requests[..r];
  }

  lemma {:induction false} AcceptedStep(q: seq<SquashInfo>, x: SquashInfo)
    ensures Accepted(q + [x])
         == if Accepted(q).None? || IsOlder(ROB_CAP, x.squashTag, Accepted(q).value.squashTag) then Some(x)
            else Accepted(q)
  {
    hide IsOlder;
    assert (q + [x])[..|q|] == q;
  }

  lemma {:induction false} KeepOlderStep(q: seq<SquashInfo>, x: SquashInfo, tag: nat)
    ensures KeepOlder(q + [x], tag) == KeepOlder(q, tag) + if IsOlder(ROB_CAP, x.squashTag, tag) then [x] else []
  {
    hide IsOlder;
    assert (q + [x])[..|q|] == q;
  }

  /** Making room at the insert position and writing the request there inserts it. */
  lemma {:induction false} InsertedCompact(before: seq<FlushRequest>, after: seq<FlushRequest>, pos: nat,
                                           q: seq<SquashInfo>, request: SquashInfo)
    requires |q| < |before| == |after| && Compact(before, q) && pos == InsertPosition(q, request.squashTag)
    requires forall j :: 0 <= j < |after| && j < pos ==> after[j] == before[j]
    requires after[pos] == FlushRequest(request, true)
    requires forall j :: pos < j < |after| ==> after[j] == before[j - 1]
    ensures Compact(after, Insert(q, request))
  {
    hide IsOlder, InsertPosition;
  }

  const NO_SQUASH := SquashInfo(0, 0, 0)

  class Arbiter {
    const requests: array<FlushRequest>

    ghost predicate Valid()
      reads {}
    {
      requests.Length == FLUSHARBITER_CAP
    }

    ghost function Queue(): seq<SquashInfo>
      reads requests
    {
      Pending(requests[..])
    }

    constructor ()
      ensures Valid() && fresh(requests) && Queue() == []
    {
      requests := new FlushRequest[FLUSHARBITER_CAP](i => FlushRequest(NO_SQUASH, false));
      new;
      PendingOfCompact(requests[..], []);
    }

    /** Valid requests move to the front, keeping their order. */
    method CompactRequests() returns (w: nat)
      requires Valid()
      modifies requests
      ensures w == |Queue()| && Queue() == old(Queue()) && Compact(requests[..], Queue())
    {
      hide Pending;
      ghost var was, q := requests[..], Pending([]);
      NothingKept(0);
      assert was[..0] == [];
      w := 0;
      for r := 0 to FLUSHARBITER_CAP
        invariant q == Pending(was[..r]) && w == |q| <= r
        invariant Compact(requests[..r], q)
        invariant forall i :: r <= i < FLUSHARBITER_CAP ==> requests[i] == was[i]
      {
        PendingStep(was, r);
        q := Pending(was[..r + 1]);
        if requests[r].valid {
          if r != w {
            requests[w] := requests[r];
            requests[r] := requests[r].(valid := false);
          }
          w := w + 1;
        }
      }
      assert was[..FLUSHARBITER_CAP] == was;
      PendingOfCompact(requests[..], Pending(was));
    }

    /** A new request goes behind the older ones; with four pending the queue is overloaded. */
    method Receive(request: SquashInfo) returns (overload: bool)
      requires Valid()
      modifies requests
      ensures overload <==> |old(Queue())| == FLUSHARBITER_CAP
      ensures Queue() == if overload then old(Queue()) else Insert(old(Queue()), request)
    {
      hide IsOlder, Pending, InsertPosition, Insert, Compact;
      var w := CompactRequests();
      ghost var q := Queue();
      PendingFits(requests[..], q);
      if w == FLUSHARBITER_CAP {
        return true;
      }
      overload := false;
      var pos := FindPosition(w, request.squashTag);
      ghost var before := requests[..];
      MakeRoom(pos);
      requests[pos] := FlushRequest(request, true);
      InsertedCompact(before, requests[..], pos, q, request);
      PendingOfCompact(requests[..], Insert(q, request));
    }

    /** Requests from a position on move up by one place; the last place is lost. */
    method MakeRoom(pos: nat)
      requires Valid() && pos < FLUSHARBITER_CAP
      modifies requests
      ensures forall j :: 0 <= j < FLUSHARBITER_CAP ==> requests[j] == old(requests[if j > pos then j - 1 else j])
    {
      var i := FLUSHARBITER_CAP - 1;
      while i > 0
        invariant 0 <= i < FLUSHARBITER_CAP
        invariant forall j :: 0 <= j < FLUSHARBITER_CAP && (j <= i || j <= pos) ==> requests[j] == old(requests[j])
        invariant forall j :: i < j < FLUSHARBITER_CAP && j > pos ==> requests[j] == old(requests[j - 1])
      {
        if i > pos {
          requests[i] := requests[i - 1];
        }
        i := i - 1;
      }
    }

    method FindPosition(w: nat, tag: nat) returns (pos: nat)
      requires Valid() && w == |Queue()| && Compact(requests[..], Queue())
      ensures pos == InsertPosition(Queue(), tag)
    {
      hide IsOlder, Pending;
      ghost var q := Queue();
      var scanning := true;
      pos := 0;
      for i := 0 to FLUSHARBITER_CAP
        invariant pos <= w && pos <= i
        invariant forall j :: 0 <= j < pos ==> IsOlder(ROB_CAP, q[j].squashTag, tag)
        invariant scanning && i <= w ==> pos == i
        invariant scanning && i > w ==> pos == w
        invariant !scanning ==> pos < w && !IsOlder(ROB_CAP, q[pos].squashTag, tag)
      {
        if !scanning || i >= w {
          continue;
        }
        if IsOlder(ROB_CAP, requests[i].requestArgs.squashTag, tag) {
          pos := pos + 1;
        } else {
          scanning := false;
        }
      }
      PositionIsUnique(q, tag, pos);
    }

    method ArbitResult() returns (result: Option<SquashInfo>)
      requires Valid()
      ensures result == Accepted(Queue())
    {
      hide IsOlder, Pending, Accepted;
      result := None;
      NothingPending();
      for i := 0 to FLUSHARBITER_CAP
        invariant result == Accepted(Pending(requests[..i]))
      {
        PendingStep(requests[..], i);
        assert requests[..][..i] == requests[..i] && requests[..][..i + 1] == requests[..i + 1];
        if requests[i].valid {
          AcceptedStep(Pending(requests[..i]), requests[i].requestArgs);
          if result.None? || IsOlder(ROB_CAP, requests[i].requestArgs.squashTag, result.value.squashTag) {
            result := Some(requests[i].requestArgs);
          }
        } else {
          assert Pending(requests[..i]) + [] == Pending(requests[..i]);
        }
      }
      assert requests[..FLUSHARBITER_CAP] == requests[..];
    }

    method Clear(tag: nat)
      requires Valid()
      modifies requests
      ensures Queue() == KeepOlder(old(Queue()), tag)
    {
      hide IsOlder, Pending, KeepOlder;
      ghost var was := requests[..];
      NothingKept(tag);
      for i := 0 to FLUSHARBITER_CAP
        invariant Pending(requests[..i]) == KeepOlder(Pending(was[..i]), tag)
        invariant forall j :: i <= j < FLUSHARBITER_CAP ==> requests[j] == was[j]
      {
        ghost var before := requests[..i];
        PendingStep(was, i);
        if requests[i].valid {
          KeepOlderStep(Pending(was[..i]), was[i].requestArgs, tag);
          if !IsOlder(ROB_CAP, requests[i].requestArgs.squashTag, tag) {
            requests[i] := requests[i].(valid := false);
          }
        } else {
          assert Pending(was[..i]) + [] == Pending(was[..i]);
        }
        PendingStep(requests[..], i);
        assert requests[..][..i] == before && requests[..][..i + 1] == requests[..i + 1];
      }
      assert requests[..FLUSHARBITER_CAP] == requests[..] && was[..FLUSHARBITER_CAP] == was;
    }

    /** The scan of the load queue stops raising requests once it has raised one. */
    method DetectViolation(input: Input, squash: Option<SquashInfo>) returns (request: Option<SquashInfo>)
      requires R.RobShape(input.rob)
      ensures request == ViolationRequest(input, squash)
    {
      hide IsOlder, Slot, Violates;
      request := None;
      if input.store.Some? && NotCovered(input.store.value.robTag, squash) {
        for k := 0 to |input.loads|
          invariant request.Some? ==> request == FirstViolation(input, squash, 0)
          invariant request.None? ==> FirstViolation(input, squash, k) == FirstViolation(input, squash, 0)
        {
          if request.Some? {
            continue;
          }
          if Violates(input.loads[k], input, squash) {
            ViolationMatches(input.loads[k], input, squash);
            var e := EntryAt(input.rob, input.loads[k].robTag);
            request := Some(SquashInfo(input.loads[k].robTag, e.pc, e.ckptId));
          }
        }
      }
    }

    /**
      One tick. The accepted squash clears the queue before the requests of the tick enter; when
      more than four would be pending, the program stops.
     */
    method Tick(input: Input) returns (accepted: Option<SquashInfo>, overload: bool)
      requires Valid() && R.RobShape(input.rob)
      modifies requests
      ensures accepted == Accepted(old(Queue()))
      ensures overload <==> |NextQueue(old(Queue()), input)| > FLUSHARBITER_CAP
      ensures !overload ==> Queue() == NextQueue(old(Queue()), input)
    {
      hide IsOlder, Pending, KeepOlder, Accepted, Insert, BranchRequest, JumpRequest, ViolationRequest;
      accepted := ArbitResult();
      overload := false;
      if accepted.Some? {
        Clear(accepted.value.squashTag);
      }
      ghost var kept := Queue();
      var branch, jump := BranchRequest(input, accepted), JumpRequest(input, accepted);
      var violation := DetectViolation(input, accepted);
      InsertedLengths(kept, branch, jump, violation);
      if branch.Some? {
        overload := Receive(branch.value);
        if overload {
          return;
        }
      }
      if jump.Some? {
        overload := Receive(jump.value);
        if overload {
          return;
        }
      }
      if violation.Some? {
        overload := Receive(violation.value);
      }
    }
  }

  lemma PendingFits(requests: seq<FlushRequest>, q: seq<SquashInfo>)
    requires Compact(requests, q)
    ensures |q| <= |requests|
  {
  }

  /** Every request that enters makes the queue longer by one. */
  lemma InsertedLengths(q: seq<SquashInfo>, branch: Option<SquashInfo>, jump: Option<SquashInfo>,
                        violation: Option<SquashInfo>)
    ensures var one := InsertIf(q, branch);
            var two := InsertIf(one, jump);
            && |one| == |q| + (if branch.Some? then 1 else 0) && |two| == |one| + (if jump.Some? then 1 else 0)
            && |InsertIf(two, violation)| == |two| + if violation.Some? then 1 else 0
  {
    hide IsOlder;
  }

  lemma ViolationMatches(load: LQEntry, input: Input, squash: Option<SquashInfo>)
    requires R.RobShape(input.rob) && input.store.Some? && Violates(load, input, squash)
    ensures R.MatchesTag(input.rob, load.robTag)
  {
  }

  lemma NothingPending()
    ensures Accepted(Pending([])) == None
  {
  }

  lemma NothingKept(tag: nat)
    ensures Pending([]) == [] && KeepOlder([], tag) == []
  {
  }

  /** The insert position is the only one with older requests in front and none right behind. */
  lemma PositionIsUnique(q: seq<SquashInfo>, tag: nat, pos: nat)
    requires pos <= |q| && forall j :: 0 <= j < pos ==> IsOlder(ROB_CAP, q[j].squashTag, tag)
    requires pos < |q| ==> !IsOlder(ROB_CAP, q[pos].squashTag, tag)
    ensures pos == InsertPosition(q, tag)
  {
    hide IsOlder;
  }
}
