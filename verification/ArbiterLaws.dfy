/**
  Which requests are pending after a tick of the arbiter, in terms of the instructions that were
  fetched: a branch or a jump whose target is not the predicted one is squashed to that target, and a
  load that went ahead of a store is fetched again.
 */
module ArbiterLaws {
  import opened Bits
  import opened Capacities
  import FlushArbiter
  import LQR = LoadQueueRun
  import opened Options
  import opened Rename
  import opened RenameCore
  import opened RenameInvariants
  import opened RenameTheorems
  import opened SquashLoop
  import opened StoreForwarding
  import opened Tags
  import opened TickLaws
  import UnguardedIssue

  // ---------- What is pending is what was raised

  lemma InsertIfKeeps(q: Requests, request: Option<FlushArbiter.SquashInfo>, x: FlushArbiter.SquashInfo)
    requires x in q || request == Some(x)
    ensures x in FlushArbiter.InsertIf(q, request)
  {
    hide FlushArbiter.InsertPosition, IsOlder;
    if request.Some? {
      FlushArbiter.InsertMultiset(q, request.value);
      assert x in multiset(q) + multiset{request.value};
      assert x in multiset(FlushArbiter.Insert(q, request.value));
    }
  }

  /** After a tick exactly the requests raised in it are pending. */
  lemma {:induction false} RaisedIsPending(q: Requests, seen: FlushArbiter.Input, x: FlushArbiter.SquashInfo)
    requires RobShape(seen.rob) && FlushArbiter.NamesLive(q, seen)
    ensures x in FlushArbiter.NextQueue(q, seen) <==> Raised(x, seen, FlushArbiter.Accepted(q))
  {
    hide FlushArbiter.NamesLive, FlushArbiter.BranchRequest, FlushArbiter.JumpRequest, FlushArbiter.ViolationRequest,
      FlushArbiter.InsertIf, FlushArbiter.NextQueue, Slot, IsOlder;
    var squash := FlushArbiter.Accepted(q);
    var branch, jump := FlushArbiter.BranchRequest(seen, squash), FlushArbiter.JumpRequest(seen, squash);
    FlushArbiter.TickDrains(q, seen);
    if x in FlushArbiter.NextQueue(q, seen) {
      PendingIsRaised(q, seen, x);
    }
    if Raised(x, seen, squash) {
      if branch == Some(x) {
        InsertIfKeeps([], branch, x);
      }
      if branch == Some(x) || jump == Some(x) {
        InsertIfKeeps(FlushArbiter.InsertIf([], branch), jump, x);
      }
      InsertIfKeeps(FlushArbiter.InsertIf(FlushArbiter.InsertIf([], branch), jump),
                    FlushArbiter.ViolationRequest(seen, squash), x);
    }
  }

  // ---------- One tick

  /** The i-th instruction in flight is in front of the one that the accepted request names. */
  ghost predicate InFront(h: History, q: Requests, i: nat) {
    var accepted := FlushArbiter.Accepted(q);
    accepted.Some? ==> forall j :: Names(h, Squash(accepted.value.squashTag, accepted.value.ckptId), j) ==> i < j
  }

  /** The arbiter's own test says the same. */
  lemma {:induction false} InFrontIsNotCovered(s: RobState, h: History, q: Requests, i: nat)
    requires RobInv(s, h) && AllNamed(h, q) && i < |h.flight|
    ensures InFront(h, q, i) <==> FlushArbiter.NotCovered(h.flight[i].entry.tag, FlushArbiter.Accepted(q))
  {
    hide RobInv, IsOlder;
    var accepted := FlushArbiter.Accepted(q);
    if accepted.Some? {
      var k :| 0 <= k < |q| && q[k] == accepted.value;
      assert IsNamed(h, q[k]);
      var squash := Squash(accepted.value.squashTag, accepted.value.ckptId);
      var j: nat :| Names(h, squash, j);
      if i < j {
        UnguardedIssue.InFrontIsOlder(s, h, i, j);
      }
      if IsOlder(ROB_CAP, h.flight[i].entry.tag, squash.tag) {
        forall j' | Names(h, squash, j') ensures i < j' {
          OlderIsInFront(s, h, i, j');
        }
      }
    }
  }

  /** A request for this tag is pending after the tick. */
  ghost predicate Requested(next: Requests, tag: nat) {
    exists r :: r in next && r.squashTag == tag
  }

  /** Every pending request for this tag takes the program to this address, with the checkpoint of the instruction. */
  predicate GoesTo(next: Requests, tag: nat, pc: u32, ckptId: nat) {
    forall r :: r in next && r.squashTag == tag ==> r.squashPC == pc && r.ckptId == ckptId
  }

  lemma {:induction false} EntryOfFlight(s: RobState, h: History, i: nat)
    requires RobInv(s, h) && i < |h.flight|
    ensures RobShape(s) && MatchesTag(s, h.flight[i].entry.tag)
    ensures SameEntry(FlushArbiter.EntryAt(s, h.flight[i].entry.tag), h.flight[i].entry)
  {
    hide Slot, Encode;
    LiveTagMatches(s, h, i);
    EntryInBuffer(s, h, i);
  }

  /** No load of the queue has this tag. */
  predicate NoLoad(loads: seq<LQEntry>, tag: nat) {
    forall k :: 0 <= k < |loads| ==> loads[k].robTag != tag
  }

  lemma {:induction false} ViolationNamesLoad(seen: FlushArbiter.Input, squash: Option<FlushArbiter.SquashInfo>,
                                              tag: nat)
    requires RobShape(seen.rob) && NoLoad(seen.loads, tag)
    ensures var v := FlushArbiter.ViolationRequest(seen, squash); v.Some? ==> v.value.squashTag != tag
  {
    hide FlushArbiter.FirstViolation;
    if FlushArbiter.ViolationRequest(seen, squash).Some? {
      var j := FirstIsLoad(seen, squash, 0);
    }
  }

  lemma {:induction false} FirstIsLoad(seen: FlushArbiter.Input, squash: Option<FlushArbiter.SquashInfo>, k: nat)
      returns (j: nat)
    requires RobShape(seen.rob) && seen.store.Some? && k <= |seen.loads|
    requires FlushArbiter.FirstViolation(seen, squash, k).Some?
    ensures k <= j < |seen.loads|
    ensures seen.loads[j].robTag == FlushArbiter.FirstViolation(seen, squash, k).value.squashTag
    ensures FlushArbiter.Violates(seen.loads[j], seen, squash)
    ensures forall l :: k <= l < j ==> !FlushArbiter.Violates(seen.loads[l], seen, squash)
    decreases |seen.loads| - k
  {
    hide FlushArbiter.Violates;
    if FlushArbiter.Violates(seen.loads[k], seen, squash) {
      j := k;
    } else {
      j := FirstIsLoad(seen, squash, k + 1);
    }
  }

  /**
    A branch result: the branch is requested to its actual target exactly when that is not the
    predicted one and no squash covers the branch.
   */
  lemma {:induction false} BranchIsRequested(s: CoreState, h: History, q: Requests, t: Tick, i: nat)
    requires CoreInv(s, h) && CoreShape(s) && RobShape(s.rob) && AllNamed(h, q) && Fits(s, h, q, t)
    requires i < |h.flight| && t.branch.Some? && t.branch.value.robTag == h.flight[i].entry.tag
    requires NoLoad(t.loads, h.flight[i].entry.tag)
    requires t.broadcast.Some? ==> t.broadcast.value.robTag != h.flight[i].entry.tag
    ensures var next, f, target := FlushArbiter.NextQueue(q, Seen(s, t)), h.flight[i], t.branch.value.pcResult;
            && (Requested(next, f.entry.tag) <==> InFront(h, q, i) && target != f.entry.predictedPC)
            && GoesTo(next, f.entry.tag, target, f.entry.ckptId)
  {
    hide CoreInv, CoreShape, RobInv, AllNamed, Fits, IsOlder, Slot, FlushArbiter.NextQueue, FlushArbiter.EntryAt,
      FlushArbiter.NotCovered, InFront, MatchesTag, FlushArbiter.ViolationRequest, FlushArbiter.NamesLive;
    var seen, squash, f := Seen(s, t), FlushArbiter.Accepted(q), h.flight[i];
    RobInvOf(s, h);
    TickNamesLive(s, h, q, t);
    EntryOfFlight(s.rob, h, i);
    InFrontIsNotCovered(s.rob, h, q, i);
    ViolationNamesLoad(seen, squash, f.entry.tag);
    forall r | r in FlushArbiter.NextQueue(q, seen) && r.squashTag == f.entry.tag
      ensures FlushArbiter.BranchRequest(seen, squash) == Some(r)
    {
      RaisedIsPending(q, seen, r);
    }
    if FlushArbiter.BranchRequest(seen, squash).Some? {
      RaisedIsPending(q, seen, FlushArbiter.BranchRequest(seen, squash).value);
    }
  }

  /** The same for a jump whose target goes over the result bus. */
  lemma {:induction false} JumpIsRequested(s: CoreState, h: History, q: Requests, t: Tick, i: nat)
    requires CoreInv(s, h) && CoreShape(s) && RobShape(s.rob) && AllNamed(h, q) && Fits(s, h, q, t)
    requires i < |h.flight| && t.broadcast.Some? && t.broadcast.value.robTag == h.flight[i].entry.tag
    requires NoLoad(t.loads, h.flight[i].entry.tag)
    requires t.branch.Some? ==> t.branch.value.robTag != h.flight[i].entry.tag
    ensures var next, f, target := FlushArbiter.NextQueue(q, Seen(s, t)), h.flight[i], t.broadcast.value.value;
            && (Requested(next, f.entry.tag)
                <==> InFront(h, q, i) && t.broadcast.value.isControl && target != f.entry.predictedPC)
            && GoesTo(next, f.entry.tag, target, f.entry.ckptId)
  {
    hide CoreInv, CoreShape, RobInv, AllNamed, Fits, IsOlder, Slot, FlushArbiter.NextQueue, FlushArbiter.EntryAt,
      FlushArbiter.NotCovered, InFront, MatchesTag, FlushArbiter.ViolationRequest, FlushArbiter.NamesLive;
    var seen, squash, f := Seen(s, t), FlushArbiter.Accepted(q), h.flight[i];
    RobInvOf(s, h);
    TickNamesLive(s, h, q, t);
    EntryOfFlight(s.rob, h, i);
    NotOlderThanHead(s.rob, h, i);
    InFrontIsNotCovered(s.rob, h, q, i);
    ViolationNamesLoad(seen, squash, f.entry.tag);
    forall r | r in FlushArbiter.NextQueue(q, seen) && r.squashTag == f.entry.tag
      ensures FlushArbiter.JumpRequest(seen, squash) == Some(r)
    {
      RaisedIsPending(q, seen, r);
    }
    if FlushArbiter.JumpRequest(seen, squash).Some? {
      RaisedIsPending(q, seen, FlushArbiter.JumpRequest(seen, squash).value);
    }
  }

  lemma NotOlderThanHead(s: RobState, h: History, i: nat)
    requires RobInv(s, h) && i < |h.flight|
    ensures !IsOlder(ROB_CAP, h.flight[i].entry.tag, s.head)
  {
    hide Slot, Encode, IsOlder;
    assert RobLink(s, h, i);
    OlderIsEarlier(ROB_CAP, h.committed + i, h.committed);
  }

  // ---------- Loads that went too early

  /** Load k, the m-th instruction in flight, is behind the store i, reads where that one writes, and has started. */
  predicate Overtakes(h: History, t: Tick, i: nat, k: nat, m: nat)
    requires t.store.Some? && k < |t.loads|
  {
    && i < m < |h.flight| && h.flight[m].entry.tag == t.loads[k].robTag
    && t.loads[k].isAddressReady && t.loads[k].address == t.store.value.address && !t.loads[k].valueState.NOTREADY?
  }

  /** And no squash covers it. */
  ghost predicate WentEarly(h: History, q: Requests, t: Tick, i: nat, k: nat)
    requires t.store.Some? && k < |t.loads|
  {
    exists m: nat :: Overtakes(h, t, i, k, m) && InFront(h, q, m)
  }

  /** It is the first such load of the queue. */
  ghost predicate FirstEarly(h: History, q: Requests, t: Tick, i: nat, k: nat)
    requires t.store.Some?
  {
    k < |t.loads| && WentEarly(h, q, t, i, k) && forall l :: 0 <= l < k ==> !WentEarly(h, q, t, i, l)
  }

  lemma {:induction false} ViolatesIsEarly(s: CoreState, h: History, q: Requests, t: Tick, lq: LQR.Queue, i: nat,
                                           k: nat)
    requires RobInv(s.rob, h) && CoreShape(s) && RobShape(s.rob) && AllNamed(h, q) && LQR.Agrees(lq, h)
    requires lq.loads == t.loads && t.store.Some? && i < |h.flight| && t.store.value.robTag == h.flight[i].entry.tag
    requires k < |t.loads|
    ensures FlushArbiter.Violates(t.loads[k], Seen(s, t), FlushArbiter.Accepted(q)) <==> WentEarly(h, q, t, i, k)
  {
    hide RobInv, CoreShape, AllNamed, LQR.Agrees, IsOlder, MatchesTag, InFront, FlushArbiter.NotCovered;
    var squash := FlushArbiter.Accepted(q);
    if FlushArbiter.Violates(t.loads[k], Seen(s, t), squash) {
      var m := LQR.YoungerLoadIsInFlight(lq, s.rob, h, k, i);
      OlderIsInFront(s.rob, h, i, m);
      InFrontIsNotCovered(s.rob, h, q, m);
      assert Overtakes(h, t, i, k, m);
    }
    if WentEarly(h, q, t, i, k) {
      var m: nat :| Overtakes(h, t, i, k, m) && InFront(h, q, m);
      EntryOfFlight(s.rob, h, m);
      UnguardedIssue.InFrontIsOlder(s.rob, h, i, m);
      InFrontIsNotCovered(s.rob, h, q, m);
    }
  }

  /** The request for the load k, which is the m-th instruction in flight: it is fetched again from its own address. */
  predicate Refetches(h: History, t: Tick, r: FlushArbiter.SquashInfo, k: nat, m: nat) {
    && k < |t.loads| && m < |h.flight| && h.flight[m].entry.tag == t.loads[k].robTag
    && r == FlushArbiter.SquashInfo(h.flight[m].entry.tag, h.flight[m].entry.pc, h.flight[m].entry.ckptId)
  }

  /** It is the request for the first load that went ahead of the store. */
  ghost predicate EarlyRequest(h: History, q: Requests, t: Tick, i: nat, r: FlushArbiter.SquashInfo)
    requires t.store.Some?
  {
    exists k: nat, m: nat :: FirstEarly(h, q, t, i, k) && Refetches(h, t, r, k, m)
  }

  /** What the scan asks for. */
  function RequestOf(seen: FlushArbiter.Input, k: nat): FlushArbiter.SquashInfo
    requires RobShape(seen.rob) && k < |seen.loads| && MatchesTag(seen.rob, seen.loads[k].robTag)
  {
    var e := FlushArbiter.EntryAt(seen.rob, seen.loads[k].robTag);
    FlushArbiter.SquashInfo(seen.loads[k].robTag, e.pc, e.ckptId)
  }

  /** k is the first violating load from the given place on. */
  predicate FirstFrom(seen: FlushArbiter.Input, squash: Option<FlushArbiter.SquashInfo>, from: nat, k: nat)
    requires RobShape(seen.rob) && seen.store.Some?
  {
    && from <= k < |seen.loads| && FlushArbiter.Violates(seen.loads[k], seen, squash)
    && forall l :: from <= l < k ==> !FlushArbiter.Violates(seen.loads[l], seen, squash)
  }

  lemma {:induction false} ScanFinds(seen: FlushArbiter.Input, squash: Option<FlushArbiter.SquashInfo>, from: nat,
                                     k: nat)
    requires RobShape(seen.rob) && seen.store.Some? && FirstFrom(seen, squash, from, k)
    ensures MatchesTag(seen.rob, seen.loads[k].robTag)
    ensures FlushArbiter.FirstViolation(seen, squash, from) == Some(RequestOf(seen, k))
    decreases k - from
  {
    hide IsOlder, Slot;
    if from < k {
      ScanFinds(seen, squash, from + 1, k);
    }
  }

  /** The entry of the load that the scan finds. */
  lemma {:induction false} RequestIsRefetch(s: CoreState, h: History, t: Tick, k: nat, m: nat)
    requires RobInv(s.rob, h) && RobShape(s.rob) && k < |t.loads| && m < |h.flight|
    requires h.flight[m].entry.tag == t.loads[k].robTag
    ensures MatchesTag(s.rob, t.loads[k].robTag) && Refetches(h, t, RequestOf(Seen(s, t), k), k, m)
  {
    hide RobInv, MatchesTag, Slot;
    EntryOfFlight(s.rob, h, m);
  }

  /** What the arbiter asks for is the first load that went ahead of the store, again from its own address. */
  lemma {:induction false} ViolationIsEarly(s: CoreState, h: History, q: Requests, t: Tick, lq: LQR.Queue, i: nat,
                                            r: FlushArbiter.SquashInfo)
    requires RobInv(s.rob, h) && CoreShape(s) && RobShape(s.rob) && AllNamed(h, q) && LQR.Agrees(lq, h)
    requires lq.loads == t.loads && t.store.Some? && i < |h.flight| && t.store.value.robTag == h.flight[i].entry.tag
    ensures FlushArbiter.ViolationRequest(Seen(s, t), FlushArbiter.Accepted(q)) == Some(r)
       <==> InFront(h, q, i) && EarlyRequest(h, q, t, i, r)
  {
    hide RobInv, CoreShape, AllNamed, LQR.Agrees, IsOlder, MatchesTag, InFront, FlushArbiter.Violates, Slot,
      FlushArbiter.NotCovered, FlushArbiter.FirstViolation, RequestOf, WentEarly;
    var seen, squash := Seen(s, t), FlushArbiter.Accepted(q);
    InFrontIsNotCovered(s.rob, h, q, i);
    forall k | 0 <= k < |t.loads|
      ensures FlushArbiter.Violates(t.loads[k], seen, squash) <==> WentEarly(h, q, t, i, k)
    {
      ViolatesIsEarly(s, h, q, t, lq, i, k);
    }
    if FlushArbiter.ViolationRequest(seen, squash) == Some(r) {
      var k := FirstIsLoad(seen, squash, 0);
      var m := PlaceOfEarly(h, q, t, i, k);
      ScanFinds(seen, squash, 0, k);
      RequestIsRefetch(s, h, t, k, m);
    }
    if InFront(h, q, i) && EarlyRequest(h, q, t, i, r) {
      var k: nat, m: nat :| FirstEarly(h, q, t, i, k) && Refetches(h, t, r, k, m);
      ScanFinds(seen, squash, 0, k);
      RequestIsRefetch(s, h, t, k, m);
    }
  }

  lemma PlaceOfEarly(h: History, q: Requests, t: Tick, i: nat, k: nat) returns (m: nat)
    requires t.store.Some? && k < |t.loads| && WentEarly(h, q, t, i, k)
    ensures m < |h.flight| && h.flight[m].entry.tag == t.loads[k].robTag
  {
    hide InFront;
    m :| Overtakes(h, t, i, k, m) && InFront(h, q, m);
  }

  /** Requests that come from neither a branch nor a jump are for such loads. */
  lemma {:induction false} LoadIsRequested(s: CoreState, h: History, q: Requests, t: Tick, lq: LQR.Queue, i: nat,
                                           r: FlushArbiter.SquashInfo)
    requires CoreInv(s, h) && CoreShape(s) && RobShape(s.rob) && AllNamed(h, q) && Fits(s, h, q, t)
    requires LQR.Agrees(lq, h) && lq.loads == t.loads
    requires t.store.Some? && i < |h.flight| && t.store.value.robTag == h.flight[i].entry.tag
    requires t.branch.Some? ==> t.branch.value.robTag != r.squashTag
    requires t.broadcast.Some? ==> t.broadcast.value.robTag != r.squashTag
    ensures r in FlushArbiter.NextQueue(q, Seen(s, t)) <==> InFront(h, q, i) && EarlyRequest(h, q, t, i, r)
  {
    hide CoreInv, CoreShape, RobInv, AllNamed, Fits, LQR.Agrees, IsOlder, Slot, FlushArbiter.NextQueue, MatchesTag,
      FlushArbiter.EntryAt, FlushArbiter.NotCovered, InFront, FlushArbiter.ViolationRequest, FlushArbiter.NamesLive,
      EarlyRequest;
    RobInvOf(s, h);
    TickNamesLive(s, h, q, t);
    RaisedIsPending(q, Seen(s, t), r);
    ViolationIsEarly(s, h, q, t, lq, i, r);
  }

  // ---------- Runs

  /** The i-th instruction in flight after this run. */
  ghost function FlightAt(l: Loop, i: nat): Flight
    requires Sound(l) && i < |HistoryAfter(l.inputs).flight|
  {
    HistoryAfter(l.inputs).flight[i]
  }

  /** What is pending after one more tick. */
  ghost function PendingAfter(l: Loop, t: Tick): Requests
    requires Sound(l)
  {
    FlushArbiter.NextQueue(l.pending, Seen(StateAfter(l.inputs), t))
  }

  /** Of the reports of a tick only this one is about the instruction. */
  predicate NoOther(t: Tick, tag: nat, branch: bool) {
    && NoLoad(t.loads, tag)
    && (if branch then t.broadcast.Some? ==> t.broadcast.value.robTag != tag
        else t.branch.Some? ==> t.branch.value.robTag != tag)
  }

  /**
    In every run: when the result of a branch arrives, the branch is squashed to its actual target
    exactly when that differs from the target predicted where the branch was fetched, and no older
    squash covers it.
   */
  lemma {:induction false} BranchGoesToItsTarget(l: Loop, t: Tick, i: nat)
    requires Sound(l) && FitsNext(l, t) && i < |HistoryAfter(l.inputs).flight| && FlightAt(l, i).executes
    requires t.branch.Some? && t.branch.value.robTag == FlightAt(l, i).entry.tag
    requires NoOther(t, FlightAt(l, i).entry.tag, true)
    ensures var f, target := FlightAt(l, i), t.branch.value.pcResult;
            && HasUop(l.inputs, f)
            && (Requested(PendingAfter(l, t), f.entry.tag)
                <==> InFront(HistoryAfter(l.inputs), l.pending, i) && target != UopOf(l.inputs, f).predictedPC)
            && GoesTo(PendingAfter(l, t), f.entry.tag, target, f.entry.ckptId)
  {
    hide CoreInv, CoreShape, Reachable, StateAfter, HistoryAfter, AllNamed, Fits, InFront, FlushArbiter.NextQueue,
      Requested, GoesTo;
    FlightsAreTheirUops(l.inputs, i);
    SquashLoop.ShapeOfBuffer(StateAfter(l.inputs));
    BranchIsRequested(StateAfter(l.inputs), HistoryAfter(l.inputs), l.pending, t, i);
  }

  /** The same for a jump through a register. */
  lemma {:induction false} JumpGoesToItsTarget(l: Loop, t: Tick, i: nat)
    requires Sound(l) && FitsNext(l, t) && i < |HistoryAfter(l.inputs).flight| && FlightAt(l, i).executes
    requires t.broadcast.Some? && t.broadcast.value.robTag == FlightAt(l, i).entry.tag
    requires NoOther(t, FlightAt(l, i).entry.tag, false)
    ensures var f, target := FlightAt(l, i), t.broadcast.value.value;
            && HasUop(l.inputs, f)
            && (Requested(PendingAfter(l, t), f.entry.tag)
                <==> && InFront(HistoryAfter(l.inputs), l.pending, i) && t.broadcast.value.isControl
                     && target != UopOf(l.inputs, f).predictedPC)
            && GoesTo(PendingAfter(l, t), f.entry.tag, target, f.entry.ckptId)
  {
    hide CoreInv, CoreShape, Reachable, StateAfter, HistoryAfter, AllNamed, Fits, InFront, FlushArbiter.NextQueue,
      Requested, GoesTo;
    FlightsAreTheirUops(l.inputs, i);
    SquashLoop.ShapeOfBuffer(StateAfter(l.inputs));
    JumpIsRequested(StateAfter(l.inputs), HistoryAfter(l.inputs), l.pending, t, i);
  }

  /**
    In every run: when the address of a store arrives, the first load that went ahead of it to that
    address is squashed to its own program counter; the i-th instruction in flight is the store, the
    m-th the load.
   */
  lemma {:induction false} EarlyLoadIsFetchedAgain(l: Loop, t: Tick, lq: LQR.Queue, i: nat, k: nat, m: nat)
    requires Sound(l) && FitsNext(l, t) && LQR.Follows(lq, l.inputs) && lq.loads == t.loads
    requires i < m < |HistoryAfter(l.inputs).flight| && FlightAt(l, m).executes
    requires t.store.Some? && t.store.value.robTag == FlightAt(l, i).entry.tag
    requires InFront(HistoryAfter(l.inputs), l.pending, i) && k < |t.loads|
    requires FirstEarly(HistoryAfter(l.inputs), l.pending, t, i, k)
    requires t.loads[k].robTag == FlightAt(l, m).entry.tag
    requires t.branch.Some? ==> t.branch.value.robTag != FlightAt(l, m).entry.tag
    requires t.broadcast.Some? ==> t.broadcast.value.robTag != FlightAt(l, m).entry.tag
    ensures var f := FlightAt(l, m);
            && HasUop(l.inputs, f)
            && FlushArbiter.SquashInfo(f.entry.tag, UopOf(l.inputs, f).pc, f.entry.ckptId) in PendingAfter(l, t)
  {
    hide CoreInv, CoreShape, Reachable, StateAfter, HistoryAfter, AllNamed, Fits, InFront, FlushArbiter.NextQueue,
      LQR.Agrees, FirstEarly;
    FlightsAreTheirUops(l.inputs, m);
    SquashLoop.ShapeOfBuffer(StateAfter(l.inputs));
    var f := FlightAt(l, m);
    var r := FlushArbiter.SquashInfo(f.entry.tag, f.entry.pc, f.entry.ckptId);
    assert Refetches(HistoryAfter(l.inputs), t, r, k, m);
    LoadIsRequested(StateAfter(l.inputs), HistoryAfter(l.inputs), l.pending, t, lq, i, r);
  }
}
