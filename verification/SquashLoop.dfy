/**
  The squash loop closed: the renaming machinery and the flush arbiter tick together, the arbiter's
  oldest request is the squash of the tick, and requests come from instructions that are executing.
  Then every pending request names an instruction in flight, every squash is legal and recovers
  exactly, and the arbiter is never overloaded.
 */
module SquashLoop {
  import opened Capacities
  import FlushArbiter
  import opened Options
  import opened Rename
  import opened RenameCore
  import opened RenameInvariants
  import RenameStage
  import opened RenameTheorems
  import opened StoreForwarding
  import opened Tags
  import UnguardedIssue

  // ---------- Requests

  /** The arbiter of a tick looks at the reorder buffer of that tick, under the squash of that tick. */
  predicate SameTick(s: CoreState, input: Input, seen: FlushArbiter.Input, squash: Option<FlushArbiter.SquashInfo>) {
    && seen.rob == s.rob
    && input.squash == Named(squash)
  }

  /** A request as the rest of the machine sees it. */
  function Named(request: Option<FlushArbiter.SquashInfo>): Option<Squash> {
    if request.Some? then Some(Squash(request.value.squashTag, request.value.ckptId)) else None
  }

  /** A request raised in this tick. */
  predicate Raised(request: FlushArbiter.SquashInfo, seen: FlushArbiter.Input, squash: Option<FlushArbiter.SquashInfo>)
    requires RobShape(seen.rob)
  {
    || FlushArbiter.BranchRequest(seen, squash) == Some(request)
    || FlushArbiter.JumpRequest(seen, squash) == Some(request)
    || FlushArbiter.ViolationRequest(seen, squash) == Some(request)
  }

  lemma {:induction false} ViolationFacts(seen: FlushArbiter.Input, squash: Option<FlushArbiter.SquashInfo>, k: nat)
    requires RobShape(seen.rob) && seen.store.Some? && k <= |seen.loads|
    ensures var r := FlushArbiter.FirstViolation(seen, squash, k);
            r.Some? ==> RaisedFor(r.value, seen, squash)
                        && IsOlder(ROB_CAP, seen.store.value.robTag, r.value.squashTag)
    decreases |seen.loads| - k
  {
    hide Slot, IsOlder;
    if k < |seen.loads| {
      ViolationFacts(seen, squash, k + 1);
    }
  }

  /** What all three kinds of requests have in common. */
  predicate RaisedFor(request: FlushArbiter.SquashInfo, seen: FlushArbiter.Input,
                      squash: Option<FlushArbiter.SquashInfo>)
    requires RobShape(seen.rob)
  {
    && MatchesTag(seen.rob, request.squashTag) && FlushArbiter.NotCovered(request.squashTag, squash)
    && request.ckptId == seen.rob.queue[Slot(ROB_CAP, request.squashTag)].ckptId
  }

  lemma {:induction false} RaisedFacts(request: FlushArbiter.SquashInfo, seen: FlushArbiter.Input,
                                       squash: Option<FlushArbiter.SquashInfo>)
    requires RobShape(seen.rob) && Raised(request, seen, squash)
    ensures RaisedFor(request, seen, squash)
  {
    hide Slot, IsOlder;
    if FlushArbiter.ViolationRequest(seen, squash) == Some(request) {
      ViolationFacts(seen, squash, 0);
    }
  }

  /**
    Every request is legal when its turn comes: an instruction in flight that raises a squash, and
    neither commits in that tick nor is a halt, is still named by the request in the next tick.
   */
  lemma {:induction false} RequestsStayLegal(s: CoreState, h: History, input: Input, now: nat, i: nat,
                                             seen: FlushArbiter.Input, squash: Option<FlushArbiter.SquashInfo>,
                                             request: FlushArbiter.SquashInfo)
    requires CoreInv(s, h) && CoreShape(s) && Offered(s, h, input) && SameTick(s, input, seen, squash)
    requires Raised(request, seen, squash)
    requires i < |h.flight| && request.squashTag == h.flight[i].entry.tag && h.flight[i].executes && Unfinished(s, i)
    ensures IsNamed(HistoryStep(s, h, input, now), request)
  {
    hide Slot, Encode, IsOlder, RatInv, PrfInv, RobInv, TailInv, CkptInv, Chained, Partition, HistoryStep, Offered,
      Raised;
    RaisedFacts(request, seen, squash);
    assert request.ckptId == h.flight[i].entry.ckptId by {
      LiveTagMatches(s.rob, h, i);
      EntryInBuffer(s.rob, h, i);
    }
    StaysInFlight(s, h, input, now, i);
    var h' := HistoryStep(s, h, input, now);
    var k :| 0 <= k < |h'.flight| && h'.flight[k] == h.flight[i];
    assert Names(h', Squash(request.squashTag, request.ckptId), k);
  }

  lemma EntryInBuffer(s: RobState, h: History, i: nat)
    requires RobInv(s, h) && i < |h.flight|
    ensures SameEntry(s.queue[(h.committed + i) % ROB_CAP], h.flight[i].entry)
  {
    hide Encode;
    assert RobLink(s, h, i);
  }

  // ---------- One tick of both

  /** What a tick of core and arbiter together is given; the squash is not among it. */
  datatype Tick = Tick(uop: Option<Uop>, room: bool, fetch: bool, returned: bool, ready: seq<Completion>,
                       branch: Option<FlushArbiter.BranchResult>, broadcast: Option<FlushArbiter.Broadcast>,
                       store: Option<FlushArbiter.StoreAddress>, loads: seq<LQEntry>)

  type Requests = seq<FlushArbiter.SquashInfo>

  function CoreInput(q: Requests, t: Tick): Input {
    Input(t.uop, t.room, t.fetch, t.returned, t.ready, Named(FlushArbiter.Accepted(q)))
  }

  function Seen(s: CoreState, t: Tick): FlushArbiter.Input {
    FlushArbiter.Input(s.rob, t.branch, t.broadcast, t.store, t.loads)
  }

  ghost predicate IsNamed(h: History, request: FlushArbiter.SquashInfo) {
    exists j :: Names(h, Squash(request.squashTag, request.ckptId), j)
  }

  /** Every pending request names an instruction in flight that executes. */
  ghost predicate AllNamed(h: History, q: Requests) {
    forall k :: 0 <= k < |q| ==> IsNamed(h, q[k])
  }

  /** This instruction in flight executes and cannot commit yet. */
  predicate RunsAt(s: CoreState, h: History, tag: nat, i: nat)
    requires CoreShape(s)
  {
    i < |h.flight| && h.flight[i].entry.tag == tag && h.flight[i].executes && Unfinished(s, i)
  }

  ghost predicate Runs(s: CoreState, h: History, tag: nat)
    requires CoreShape(s)
  {
    exists i: nat :: RunsAt(s, h, tag, i)
  }

  /** This instruction in flight executes. */
  predicate ExecutesAt(h: History, tag: nat, i: nat) {
    i < |h.flight| && h.flight[i].entry.tag == tag && h.flight[i].executes
  }

  /**
    Where the requests of a tick come from: a branch or a jump whose result is only being
    delivered, and a load and a store that are both in flight.
   */
  ghost predicate FromRunning(s: CoreState, h: History, seen: FlushArbiter.Input,
                              squash: Option<FlushArbiter.SquashInfo>)
    requires CoreShape(s) && seen.rob == s.rob
  {
    var branch, jump := FlushArbiter.BranchRequest(seen, squash), FlushArbiter.JumpRequest(seen, squash);
    var violation := FlushArbiter.ViolationRequest(seen, squash);
    && (branch.Some? ==> Runs(s, h, branch.value.squashTag))
    && (jump.Some? ==> Runs(s, h, jump.value.squashTag))
    && (violation.Some? ==>
          && (exists i: nat :: ExecutesAt(h, seen.store.value.robTag, i))
          && (exists j: nat :: ExecutesAt(h, violation.value.squashTag, j)))
  }

  /** What the surroundings guarantee of a tick; nothing is said about squashes. */
  ghost predicate Fits(s: CoreState, h: History, q: Requests, t: Tick)
    requires CoreShape(s)
  {
    UopFits(s, t.uop) && Safe(s, CoreInput(q, t)) && FromRunning(s, h, Seen(s, t), FlushArbiter.Accepted(q))
  }

  /** The accepted request is a legal squash. */
  lemma {:induction false} AcceptedIsLegal(s: CoreState, h: History, q: Requests, t: Tick)
    requires CoreInv(s, h) && CoreShape(s) && AllNamed(h, q) && UopFits(s, t.uop)
    ensures Offered(s, h, CoreInput(q, t))
  {
    hide Slot, Encode, RatInv, PrfInv, RobInv, TailInv, Chained, Partition, CoreShape, Front;
    var squash := FlushArbiter.Accepted(q);
    if squash.Some? {
      var k :| 0 <= k < |q| && q[k] == squash.value;
      assert IsNamed(h, q[k]);
      var j: nat :| Names(h, Squash(q[k].squashTag, q[k].ckptId), j);
      assert h.flight[j].entry.ckptId == IdAt(h.firstCkpt, j);
    }
  }

  lemma {:induction false} NamedIsLive(s: RobState, h: History, request: FlushArbiter.SquashInfo)
    requires RobInv(s, h) && IsNamed(h, request)
    ensures Live(ROB_CAP, s.head, request.squashTag)
  {
    hide Live, RobInv, Encode, Slot, SeqDistance;
    var j: nat :| Names(h, Squash(request.squashTag, request.ckptId), j);
    LiveTagDistance(s, h, j);
  }

  lemma {:induction false} RunsIsLive(s: CoreState, h: History, tag: nat)
    requires RobInv(s.rob, h) && CoreShape(s) && Runs(s, h, tag)
    ensures Live(ROB_CAP, s.rob.head, tag)
  {
    hide Live, RobInv, Encode, Slot, SeqDistance;
    var j: nat :| RunsAt(s, h, tag, j);
    LiveTagDistance(s.rob, h, j);
  }

  /** A violating load has an older store in flight, so it is not the next to commit. */
  lemma {:induction false} ViolationRuns(s: CoreState, h: History, seen: FlushArbiter.Input,
                                         squash: Option<FlushArbiter.SquashInfo>)
    requires CoreShape(s) && RobInv(s.rob, h) && seen.rob == s.rob && FromRunning(s, h, seen, squash)
    ensures var violation := FlushArbiter.ViolationRequest(seen, squash);
            violation.Some? ==> Runs(s, h, violation.value.squashTag)
  {
    hide IsOlder, RobInv, Slot, CoreShape, Runs;
    ShapeOfBuffer(s);
    var violation := FlushArbiter.ViolationRequest(seen, squash);
    if violation.Some? {
      var i: nat :| ExecutesAt(h, seen.store.value.robTag, i);
      var j: nat :| ExecutesAt(h, violation.value.squashTag, j);
      ViolationFacts(seen, squash, 0);
      OlderIsInFront(s.rob, h, i, j);
      assert RunsAt(s, h, violation.value.squashTag, j);
      RunningAt(s, h, violation.value.squashTag, j);
    }
  }

  lemma RunningAt(s: CoreState, h: History, tag: nat, i: nat)
    requires CoreShape(s) && RunsAt(s, h, tag, i)
    ensures Runs(s, h, tag)
  {
  }

  /** Pending requests and those of the tick all name live tags. */
  lemma {:induction false} TickNamesLive(s: CoreState, h: History, q: Requests, t: Tick)
    requires CoreInv(s, h) && CoreShape(s) && AllNamed(h, q) && Fits(s, h, q, t)
    ensures FlushArbiter.NamesLive(q, Seen(s, t))
  {
    hide Live, CoreInv, Slot, Runs, IsNamed, CoreShape, Safe;
    var squash, seen := FlushArbiter.Accepted(q), Seen(s, t);
    RobInvOf(s, h);
    ShapeOfBuffer(s);
    forall k | 0 <= k < |q| ensures Live(ROB_CAP, s.rob.head, q[k].squashTag) {
      NamedIsLive(s.rob, h, q[k]);
    }
    var branch, jump := FlushArbiter.BranchRequest(seen, squash), FlushArbiter.JumpRequest(seen, squash);
    var violation := FlushArbiter.ViolationRequest(seen, squash);
    hide FlushArbiter.BranchRequest, FlushArbiter.JumpRequest, FlushArbiter.ViolationRequest;
    ViolationRuns(s, h, seen, squash);
    if branch.Some? {
      RunsIsLive(s, h, branch.value.squashTag);
    }
    if jump.Some? {
      RunsIsLive(s, h, jump.value.squashTag);
    }
    if violation.Some? {
      RunsIsLive(s, h, violation.value.squashTag);
    }
  }

  /** A request of this tick is named in the next one. */
  lemma {:induction false} RaisedIsNamed(s: CoreState, h: History, q: Requests, t: Tick, now: nat,
                                         request: FlushArbiter.SquashInfo)
    requires CoreInv(s, h) && CoreShape(s) && AllNamed(h, q) && Fits(s, h, q, t) && Offered(s, h, CoreInput(q, t))
    requires Raised(request, Seen(s, t), FlushArbiter.Accepted(q))
    ensures IsNamed(HistoryStep(s, h, CoreInput(q, t), now), request)
  {
    hide CoreInv, CoreShape, Safe, IsNamed, AllNamed, Offered, HistoryStep, Unfinished;
    var squash, seen := FlushArbiter.Accepted(q), Seen(s, t);
    RobInvOf(s, h);
    ShapeOfBuffer(s);
    ViolationRuns(s, h, seen, squash);
    hide FlushArbiter.BranchRequest, FlushArbiter.JumpRequest, FlushArbiter.ViolationRequest;
    assert Runs(s, h, request.squashTag);
    var i: nat :| RunsAt(s, h, request.squashTag, i);
    RequestsStayLegal(s, h, CoreInput(q, t), now, i, seen, squash, request);
  }

  lemma InsertIfMembers(q: Requests, request: Option<FlushArbiter.SquashInfo>, x: FlushArbiter.SquashInfo)
    requires x in FlushArbiter.InsertIf(q, request)
    ensures x in q || request == Some(x)
  {
    hide IsOlder, FlushArbiter.InsertPosition;
  }

  /** What is pending after the tick was raised in it. */
  lemma {:induction false} PendingIsRaised(q: Requests, seen: FlushArbiter.Input, x: FlushArbiter.SquashInfo)
    requires RobShape(seen.rob) && FlushArbiter.NamesLive(q, seen) && x in FlushArbiter.NextQueue(q, seen)
    ensures Raised(x, seen, FlushArbiter.Accepted(q))
  {
    hide FlushArbiter.NamesLive, FlushArbiter.BranchRequest, FlushArbiter.JumpRequest, FlushArbiter.ViolationRequest,
      FlushArbiter.InsertIf, FlushArbiter.NextQueue, Slot, IsOlder;
    var squash := FlushArbiter.Accepted(q);
    FlushArbiter.TickDrains(q, seen);
    var one := FlushArbiter.InsertIf([], FlushArbiter.BranchRequest(seen, squash));
    var two := FlushArbiter.InsertIf(one, FlushArbiter.JumpRequest(seen, squash));
    InsertIfMembers(two, FlushArbiter.ViolationRequest(seen, squash), x);
    if x in two {
      InsertIfMembers(one, FlushArbiter.JumpRequest(seen, squash), x);
      if x in one {
        InsertIfMembers([], FlushArbiter.BranchRequest(seen, squash), x);
      }
    }
  }

  /**
    The loop is closed: if every pending request names an instruction in flight, the squash of the
    tick is legal, at most three requests are pending afterwards, and each of them names one again.
   */
  lemma {:induction false} LoopCloses(s: CoreState, h: History, q: Requests, t: Tick, now: nat)
    requires CoreInv(s, h) && CoreShape(s) && AllNamed(h, q) && Fits(s, h, q, t)
    ensures Legal(s, h, CoreInput(q, t)) && FlushArbiter.NamesLive(q, Seen(s, t))
    ensures |FlushArbiter.NextQueue(q, Seen(s, t))| <= 3
    ensures AllNamed(HistoryStep(s, h, CoreInput(q, t), now), FlushArbiter.NextQueue(q, Seen(s, t)))
  {
    hide CoreInv, CoreShape, Safe, FromRunning, IsNamed, HistoryStep, FlushArbiter.NamesLive, FlushArbiter.NextQueue,
      Offered, Raised;
    AcceptedIsLegal(s, h, q, t);
    TickNamesLive(s, h, q, t);
    ShapeOfBuffer(s);
    FlushArbiter.TickDrains(q, Seen(s, t));
    var next := FlushArbiter.NextQueue(q, Seen(s, t));
    forall k | 0 <= k < |next| ensures IsNamed(HistoryStep(s, h, CoreInput(q, t), now), next[k]) {
      PendingIsRaised(q, Seen(s, t), next[k]);
      RaisedIsNamed(s, h, q, t, now, next[k]);
    }
  }

  lemma ShapeOfBuffer(s: CoreState)
    requires CoreShape(s)
    ensures RobShape(s.rob)
  {
  }

  // ---------- Runs

  /** The inputs that the core has been given, and the requests that are pending. */
  datatype Loop = Loop(inputs: seq<Input>, pending: Requests)

  ghost predicate Sound(l: Loop) {
    Reachable(l.inputs) && AllNamed(HistoryAfter(l.inputs), l.pending) && |l.pending| <= 3
  }

  /** This tick fits what has happened so far. */
  ghost predicate FitsNext(l: Loop, t: Tick)
    requires Sound(l)
  {
    Fits(StateAfter(l.inputs), HistoryAfter(l.inputs), l.pending, t)
  }

  ghost function Next(l: Loop, t: Tick): Loop
    requires Sound(l)
  {
    Loop(l.inputs + [CoreInput(l.pending, t)],
         FlushArbiter.NextQueue(l.pending, Seen(StateAfter(l.inputs), t)))
  }

  lemma {:induction false} NextIsSound(l: Loop, t: Tick)
    requires Sound(l) && FitsNext(l, t)
    ensures Sound(Next(l, t))
    ensures StateAfter(Next(l, t).inputs) == CoreStep(StateAfter(l.inputs), CoreInput(l.pending, t))
  {
    hide CoreInv, CoreShape, Reach, Reachable, StateAfter, HistoryAfter, AllNamed, Fits, FlushArbiter.NextQueue, Legal,
      CoreStep, HistoryStep;
    LoopCloses(StateAfter(l.inputs), HistoryAfter(l.inputs), l.pending, t, |l.inputs|);
    ReachNext(l.inputs, CoreInput(l.pending, t));
  }

  lemma {:induction false} StartIsSound()
    ensures Sound(Loop([], []))
  {
    hide Reach, Reachable, StateAfter, HistoryAfter, CoreInv, CoreShape, IsNamed;
    ResetIsReachable();
  }

  /** Core and arbiter after the given ticks, from reset, if all of them fitted. */
  ghost function Driven(ticks: seq<Tick>): (r: Option<Loop>)
    ensures r.Some? ==> Sound(r.value)
  {
    if ticks == [] then
      StartIsSound();
      Some(Loop([], []))
    else
      var n := |ticks| - 1;
      match Driven(ticks[..n])
      case None => None
      case Some(l) =>
        if FitsNext(l, ticks[n]) then
          NextIsSound(l, ticks[n]);
          Some(Next(l, ticks[n]))
        else None
  }

  /** The run ends with this request pending, and the next tick accepts it. */
  ghost predicate Accepts(ticks: seq<Tick>, t: Tick) {
    Driven(ticks).Some? && FitsNext(Driven(ticks).value, t) && Driven(ticks).value.pending != []
  }

  /** The state goes back to what it was right after the named instruction issued. */
  ghost predicate Recovered(inputs: seq<Input>, input: Input, j: nat) {
    && SquashesTo(inputs, input, j)
    && var issuedAt := IssueTick(inputs, j);
       && issuedAt < |inputs| && IssuedIn(inputs, issuedAt, input.squash.value)
       && SameState(inputs + [input], inputs[..issuedAt + 1])
  }

  /**
    Exact recovery without a word about squashes in the hypothesis: in every run of core and
    arbiter from reset, the oldest pending request takes the state back to what it was right after
    the instruction it names issued.
   */
  lemma {:induction false} EveryRequestRecovers(ticks: seq<Tick>, t: Tick)
    requires Accepts(ticks, t)
    ensures RecoversNow(Driven(ticks).value, t)
  {
    hide CoreInv, CoreShape, Reach, Reachable, StateAfter, HistoryAfter, Fits, Driven, Safe, IssuedIn, SameState,
      FlushArbiter.NextQueue, Recovered, AllNamed, IsNamed;
    var l := Driven(ticks).value;
    NextRecovers(l, t);
  }

  ghost predicate RecoversNow(l: Loop, t: Tick) {
    exists j: nat :: Recovered(l.inputs, CoreInput(l.pending, t), j)
  }

  lemma {:induction false} NextRecovers(l: Loop, t: Tick)
    requires Sound(l) && FitsNext(l, t) && l.pending != []
    ensures RecoversNow(l, t)
  {
    hide CoreInv, CoreShape, Reach, Reachable, StateAfter, HistoryAfter, Fits, Safe, IssuedIn, SameState,
      FlushArbiter.NextQueue;
    var s, h, input := StateAfter(l.inputs), HistoryAfter(l.inputs), CoreInput(l.pending, t);
    LoopCloses(s, h, l.pending, t, 0);
    var j: nat :| Names(h, input.squash.value, j);
    RecoveryIsExact(l.inputs, input, j);
    assert Recovered(l.inputs, input, j);
  }

  lemma {:induction false} DrivenNext(ticks: seq<Tick>, t: Tick)
    requires Driven(ticks).Some? && FitsNext(Driven(ticks).value, t)
    ensures Driven(ticks + [t]) == Some(Next(Driven(ticks).value, t))
  {
    hide Sound, FitsNext, Next;
    assert (ticks + [t])[..|ticks|] == ticks;
  }

  /** Of a run that fits, every beginning fits, and so does the tick that follows it. */
  lemma {:induction false} DrivenPrefix(ticks: seq<Tick>, n: nat)
    requires Driven(ticks).Some? && n < |ticks|
    ensures Driven(ticks[..n]).Some? && FitsNext(Driven(ticks[..n]).value, ticks[n])
    decreases |ticks|
  {
    hide Sound, FitsNext, Next;
    var m := |ticks| - 1;
    if n < m {
      DrivenPrefix(ticks[..m], n);
      assert ticks[..m][..n] == ticks[..n];
    }
  }

  // ---------- Requests do happen

  /** A tick in which no unit reports anything to the arbiter. */
  function Idle(input: Input): Tick {
    Tick(input.uop, input.room, input.fetch, input.returned, input.ready, None, None, None, [])
  }

  function IdleRun(inputs: seq<Input>): seq<Tick> {
    seq(|inputs|, i requires 0 <= i < |inputs| => Idle(inputs[i]))
  }

  lemma IdleRaisesNothing(s: CoreState, h: History, q: Requests, input: Input)
    requires CoreShape(s) && UopFits(s, input.uop) && Safe(s, CoreInput(q, Idle(input)))
    ensures Fits(s, h, q, Idle(input))
    ensures q == [] ==> FlushArbiter.NextQueue(q, Seen(s, Idle(input))) == []
  {
    hide Slot, Safe;
  }

  lemma {:induction false} IdleDriven(inputs: seq<Input>)
    requires Reachable(inputs) && forall k :: 0 <= k < |inputs| ==> inputs[k].squash.None?
    ensures Driven(IdleRun(inputs)) == Some(Loop(inputs, []))
  {
    hide CoreInv, CoreShape, Reach, Reachable, StateAfter, HistoryAfter, Safe, Fits, FlushArbiter.NextQueue, CoreStep,
      HistoryStep, AllNamed;
    if inputs != [] {
      var n := |inputs| - 1;
      ReachLast(inputs);
      IdleDriven(inputs[..n]);
      assert IdleRun(inputs)[..n] == IdleRun(inputs[..n]);
      assert CoreInput([], Idle(inputs[n])) == inputs[n];
      IdleRaisesNothing(StateAfter(inputs[..n]), HistoryAfter(inputs[..n]), [], inputs[n]);
      assert inputs[..n] + [inputs[n]] == inputs;
    }
  }

  /** A mispredicted branch: it is in flight under tag 0, and its result is not what was predicted. */
  const MISS := Idle(UnguardedIssue.WARM).(branch := Some(FlushArbiter.BranchResult(0, 4)))

  lemma {:induction false} MissFits(s: CoreState, h: History)
    requires CoreInv(s, h) && CoreShape(s) && UnguardedIssue.NothingReady(s.rob, h)
    requires Names(h, Squash(0, 0), 0) && h.flight[0].entry.predictedPC == 0
    ensures Fits(s, h, [], MISS) && FlushArbiter.NextQueue([], Seen(s, MISS)) != []
  {
    hide Encode, RatInv, PrfInv, RobInv, TailInv, CkptInv, Chained, Partition, IsOlder, UnguardedIssue.NothingReady;
    LiveTagMatches(s.rob, h, 0);
    RobOccupancy(s.rob, h);
    UnguardedIssue.NothingCommits(s.rob, h);
    EntryInBuffer(s.rob, h, 0);
    assert RunsAt(s, h, 0, 0);
  }

  /** There is a run after which the next tick accepts a request. */
  lemma {:induction false} RequestsHappen()
    ensures exists ticks, t :: Accepts(ticks, t)
  {
    hide CoreInv, CoreShape, Reach, Reachable, StateAfter, HistoryAfter, Fits, Driven, FlushArbiter.NextQueue,
      UnguardedIssue.BranchRun, UnguardedIssue.NothingReady, UnguardedIssue.SteadyIds, CkptStep;
    UnguardedIssue.BranchIssued();
    var issued := UnguardedIssue.BranchRun();
    UnguardedIssue.WarmTick(issued, 1, UnguardedIssue.SteadyIds(1), UnguardedIssue.WARM);
    var inputs := issued + [UnguardedIssue.WARM];
    NoSquashes();
    IdleDriven(inputs);
    var ticks, l := IdleRun(inputs), Loop(inputs, []);
    MissFits(StateAfter(inputs), HistoryAfter(inputs));
    DrivenNext(ticks, MISS);
    var next := Next(l, MISS);
    var s := StateAfter(next.inputs);
    IdleRaisesNothing(s, HistoryAfter(next.inputs), next.pending, UnguardedIssue.WARM);
    assert Accepts(ticks + [MISS], Idle(UnguardedIssue.WARM));
  }

  lemma {:induction false} ColdHasNoSquashes(n: nat)
    ensures forall k :: 0 <= k < |UnguardedIssue.ColdRun(n)| ==> UnguardedIssue.ColdRun(n)[k].squash.None?
  {
    if n > 0 {
      ColdHasNoSquashes(n - 1);
    }
  }

  lemma NoSquashes()
    ensures forall k :: 0 <= k < |UnguardedIssue.BranchRun()| ==> UnguardedIssue.BranchRun()[k].squash.None?
  {
    hide UnguardedIssue.ColdRun;
    ColdHasNoSquashes(22);
  }

  // ---------- The two as objects

  /** Core and arbiter, ticked together. */
  class Machine {
    const core: RenameStage.RenameUnit
    const arbiter: FlushArbiter.Arbiter
    ghost var ticks: seq<Tick>

    /** Both are in the state that the ticks so far lead to from reset. */
    ghost predicate Valid()
      reads this, core, core.rat.table, core.rat.ckpt, core.prf, core.prf.freeList, core.prf.headCkpt, core.rob,
        core.rob.queue, arbiter.requests
    {
      && core.Valid() && arbiter.Valid() && Driven(ticks).Some?
      && core.inputs == Driven(ticks).value.inputs && arbiter.Queue() == Driven(ticks).value.pending
    }

    constructor ()
      ensures Valid() && ticks == []
    {
      hide Reachable, StateAfter, HistoryAfter, CoreInv, CoreShape;
      core := new RenameStage.RenameUnit();
      arbiter := new FlushArbiter.Arbiter();
      ticks := [];
    }

    /** One clock cycle: the arbiter's oldest request is the squash of the cycle. */
    method Tick(t: Tick) returns (squash: Option<FlushArbiter.SquashInfo>, overload: bool)
      requires Valid() && FitsNext(Driven(ticks).value, t)
      modifies this, core, core.rat.table, core.rat.ckpt, core.prf, core.prf.freeList, core.prf.headCkpt, core.rob,
        core.rob.queue, arbiter.requests
      ensures Valid() && ticks == old(ticks) + [t]
      ensures !overload && squash == FlushArbiter.Accepted(old(arbiter.Queue()))
    {
      hide Reachable, StateAfter, HistoryAfter, CoreInv, CoreShape, Legal, Fits, FlushArbiter.NextQueue, Driven,
        FlushArbiter.Accepted, FlushArbiter.Pending, AllNamed, FlushArbiter.NamesLive;
      ghost var l := Driven(ticks).value;
      LoopCloses(StateAfter(l.inputs), HistoryAfter(l.inputs), l.pending, t, 0);
      DrivenNext(ticks, t);
      assert RobShape(StateAfter(l.inputs).rob) by {
        ShapeOfBuffer(StateAfter(l.inputs));
      }
      var start := core.State();
      squash := arbiter.ArbitResult();
      core.Tick(Input(t.uop, t.room, t.fetch, t.returned, t.ready, Named(squash)));
      var accepted, over := arbiter.Tick(Seen(start, t));
      overload := over;
      ticks := ticks + [t];
    }
  }

  /** No run overloads the arbiter, and each of its squashes is the oldest request. */
  method Run(machine: Machine, ticks: seq<Tick>) returns (overload: bool)
    requires machine.Valid() && Driven(machine.ticks + ticks).Some?
    modifies machine, machine.core, machine.core.rat.table, machine.core.rat.ckpt, machine.core.prf,
      machine.core.prf.freeList, machine.core.prf.headCkpt, machine.core.rob, machine.core.rob.queue,
      machine.arbiter.requests
    ensures !overload && machine.Valid() && machine.ticks == old(machine.ticks) + ticks
  {
    hide Driven, Sound, FitsNext, FlushArbiter.Accepted, Reachable, StateAfter;
    overload := false;
    ghost var all := machine.ticks + ticks;
    for i := 0 to |ticks|
      invariant machine.Valid() && machine.ticks == old(machine.ticks) + ticks[..i] && !overload
    {
      assert all[..|old(machine.ticks)| + i] == machine.ticks && all[|old(machine.ticks)| + i] == ticks[i];
      DrivenPrefix(all, |old(machine.ticks)| + i);
      var squash, over := machine.Tick(ticks[i]);
      overload := over;
    }
  }
}
