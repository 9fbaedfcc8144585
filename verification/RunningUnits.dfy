/**
  The squash loop with the units that raise the requests: branch, arithmetic and address unit and the
  load queue tick with core and arbiter. Whoever raises a request is then in flight and has not
  completed; nothing is assumed of it.
 */
module RunningUnits {
  import opened Capacities
  import FlushArbiter
  import LQR = LoadQueueRun
  import LQT = LoadQueueTick
  import MemQueues
  import opened Options
  import opened Rename
  import opened RenameCore
  import opened RenameInvariants
  import opened RenameTheorems
  import opened ResultUnits
  import opened SquashLoop
  import opened StoreForwarding
  import opened Tags
  import UnguardedIssue

  // ---------- Where requests come from

  /** What is delivered in this tick by the unit. */
  predicate IsHead(w: Work, tag: nat, unit: Kind) {
    IsFirst(w, tag) && w[tag].unit == unit
  }

  /** The reports to the arbiter are the oldest results of the three units, and it looks at the load queue. */
  predicate Reports(w: Work, loads: seq<LQEntry>, t: Tick) {
    && (t.branch.Some? ==> IsHead(w, t.branch.value.robTag, BRANCHES))
    && (t.broadcast.Some? ==> IsHead(w, t.broadcast.value.robTag, ARITHMETIC))
    && (t.store.Some? ==> IsHead(w, t.store.value.robTag, ADDRESSES))
    && t.loads == loads
  }

  /** Work is done for instructions that cannot commit yet. */
  lemma {:induction false} HeldRuns(s: CoreState, h: History, tag: nat)
    requires RobInv(s.rob, h) && CoreShape(s) && RobShape(s.rob) && Held(s.rob, h, tag)
    ensures Runs(s, h, tag)
    ensures exists i: nat :: ExecutesAt(h, tag, i)
  {
    hide Encode, RobLink, RatShape, PrfShape, CkptShape, Slot;
    var i: nat :| IsWorkOf(s.rob, h, tag, i);
    DecodeEncoded(ROB_CAP, h.committed);
    assert RunsAt(s, h, tag, i) && ExecutesAt(h, tag, i);
  }

  lemma {:induction false} ViolatorIsLoad(seen: FlushArbiter.Input, squash: Option<FlushArbiter.SquashInfo>, k: nat)
      returns (j: nat)
    requires RobShape(seen.rob) && seen.store.Some? && k <= |seen.loads|
    requires FlushArbiter.FirstViolation(seen, squash, k).Some?
    ensures j < |seen.loads| && seen.loads[j].robTag == FlushArbiter.FirstViolation(seen, squash, k).value.squashTag
    decreases |seen.loads| - k
  {
    hide FlushArbiter.Violates;
    if FlushArbiter.Violates(seen.loads[k], seen, squash) {
      j := k;
    } else {
      j := ViolatorIsLoad(seen, squash, k + 1);
    }
  }

  /** A load that is found to violate is in flight. */
  lemma {:induction false} ViolatorIsInFlight(s: CoreState, h: History, w: Work, q: LQR.Queue, seen: FlushArbiter.Input,
                                              squash: Option<FlushArbiter.SquashInfo>)
    requires RobInv(s.rob, h) && CoreShape(s) && RobShape(s.rob) && LQR.Agrees(q, h)
    requires seen.rob == s.rob && seen.loads == q.loads
    requires FlushArbiter.ViolationRequest(seen, squash).Some? && Held(s.rob, h, seen.store.value.robTag)
    ensures exists j: nat :: ExecutesAt(h, FlushArbiter.ViolationRequest(seen, squash).value.squashTag, j)
  {
    hide RobInv, LQR.Agrees, MatchesTag, IsOlder, CoreShape;
    var violation := FlushArbiter.ViolationRequest(seen, squash).value;
    ViolationFacts(seen, squash, 0);
    var k := ViolatorIsLoad(seen, squash, 0);
    var i: nat :| IsWorkOf(s.rob, h, seen.store.value.robTag, i);
    var j := LQR.YoungerLoadIsInFlight(q, s.rob, h, k, i);
    assert ExecutesAt(h, violation.squashTag, j);
  }

  /** Whoever raises a request is in flight and cannot commit yet. */
  lemma {:induction false} RaisersRun(s: CoreState, h: History, w: Work, q: LQR.Queue, t: Tick,
                                      squash: Option<FlushArbiter.SquashInfo>)
    requires CoreInv(s, h) && CoreShape(s) && RobShape(s.rob) && AllHeld(s.rob, h, w) && LQR.Agrees(q, h)
    requires Reports(w, q.loads, t)
    ensures FromRunning(s, h, Seen(s, t), squash)
  {
    hide CoreInv, CoreShape, RobInv, Held, LQR.Agrees, MatchesTag, IsOlder, Runs, FlushArbiter.FirstViolation, Slot;
    RobInvOf(s, h);
    var seen := Seen(s, t);
    if FlushArbiter.BranchRequest(seen, squash).Some? {
      HeldRuns(s, h, t.branch.value.robTag);
    }
    if FlushArbiter.JumpRequest(seen, squash).Some? {
      HeldRuns(s, h, t.broadcast.value.robTag);
    }
    if FlushArbiter.ViolationRequest(seen, squash).Some? {
      HeldRuns(s, h, t.store.value.robTag);
      ViolatorIsInFlight(s, h, w, q, seen, squash);
    }
  }

  // ---------- Runs of all of them

  /** Core and arbiter, the work of the three units, and the load queue. */
  datatype Joint = Joint(loop: Loop, work: Work, loads: LQR.Queue)

  /** What a tick is given: to core and arbiter, to the units, and to the load queue. */
  datatype Cycle = Cycle(tick: Tick, work: Event, loads: LQT.Input)

  ghost predicate JointSound(j: Joint) {
    && Sound(j.loop) && LQR.Follows(j.loads, j.loop.inputs)
    && AllHeld(StateAfter(j.loop.inputs).rob, HistoryAfter(j.loop.inputs), j.work)
  }

  function TickInput(j: Joint, c: Cycle): Input {
    CoreInput(j.loop.pending, c.tick)
  }

  /**
    What the surroundings guarantee: the units and the load queue are told of the issue of the core
    and of its squash, the arbiter of what the units deliver, and nothing else of this work is reported.
   */
  ghost predicate CycleFits(j: Joint, c: Cycle)
    requires JointSound(j)
  {
    hide CoreInv, CoreShape, Reachable, StateAfter, HistoryAfter, AllHeld, LQR.Agrees;
    var s, input := StateAfter(j.loop.inputs), TickInput(j, c);
    && UopFits(s, c.tick.uop) && Safe(s, input) && Reports(j.work, j.loads.loads, c.tick)
    && EventFits(j.work, c.work, SquashTag(input)) && Reported(j.work, s, input)
    && SameCore(s, HistoryAfter(j.loop.inputs), j, c)
  }

  /** The load queue and the units see the issue and the squash of the core. */
  ghost predicate SameCore(s: CoreState, h: History, j: Joint, c: Cycle)
    requires CoreInv(s, h) && CoreShape(s) && AllNamed(h, j.loop.pending) && UopFits(s, c.tick.uop)
  {
    hide CoreInv, CoreShape, AllNamed, UopFits;
    AcceptedIsLegal(s, h, j.loop.pending, c.tick);
    LQR.SameTick(j.loads.loads, s, TickInput(j, c), c.loads) && SameIssue(s, TickInput(j, c), c.work)
  }

  /** Such a tick fits, without a word about who raises the requests. */
  lemma {:induction false} CycleFitsLoop(j: Joint, c: Cycle)
    requires JointSound(j) && CycleFits(j, c)
    ensures FitsNext(j.loop, c.tick)
  {
    hide CoreInv, CoreShape, Reachable, StateAfter, HistoryAfter, AllHeld, LQR.Agrees, FromRunning, Safe, Reports,
      EventFits, Reported, AllNamed, LQR.SameTick;
    var s, h := StateAfter(j.loop.inputs), HistoryAfter(j.loop.inputs);
    SquashLoop.ShapeOfBuffer(s);
    RaisersRun(s, h, j.work, j.loads, c.tick, FlushArbiter.Accepted(j.loop.pending));
  }

  ghost function NextJoint(j: Joint, c: Cycle): Joint
    requires JointSound(j) && |j.loads.loads| < QUEUE_CAP
    requires c.loads.issue.Some? ==> |j.loads.loads| < QUEUE_CAP - 1
  {
    var s, h := StateAfter(j.loop.inputs), HistoryAfter(j.loop.inputs);
    Joint(SquashLoop.Next(j.loop, c.tick), WorkStep(j.work, c.work, SquashTag(TickInput(j, c))),
          LQR.Next(j.loads, s.rob, h, TickInput(j, c), c.loads))
  }

  lemma {:induction false} NextIsJointSound(j: Joint, c: Cycle)
    requires JointSound(j) && CycleFits(j, c)
    ensures |j.loads.loads| < QUEUE_CAP && (c.loads.issue.Some? ==> |j.loads.loads| < QUEUE_CAP - 1)
    ensures JointSound(NextJoint(j, c))
  {
    hide CoreInv, CoreShape, Reach, Reachable, StateAfter, HistoryAfter, AllHeld, LQR.Agrees, FromRunning, Reports,
      EventFits, Reported, AllNamed, LQR.SameTick, Legal, CoreStep, HistoryStep, FlushArbiter.NextQueue, LQR.Next,
      WorkStep;
    var s, h, input := StateAfter(j.loop.inputs), HistoryAfter(j.loop.inputs), TickInput(j, c);
    CycleFitsLoop(j, c);
    LoopCloses(s, h, j.loop.pending, c.tick, |j.loop.inputs|);
    ReachNext(j.loop.inputs, input);
    SquashLoop.ShapeOfBuffer(StateAfter(j.loop.inputs + [input]));
    WorkStaysHeld(j.work, s, h, input, c.work, |j.loop.inputs|);
    LQR.TickKeepsAgreement(j.loads, s, h, input, c.loads, |j.loop.inputs|);
  }

  /** All of them after the given cycles, from reset, if each of them fitted. */
  ghost function Joined(cycles: seq<Cycle>): (r: Option<Joint>)
    ensures r.Some? ==> JointSound(r.value)
  {
    hide JointSound, CycleFits, NextJoint, StartOfAll;
    if cycles == [] then
      StartIsJointSound();
      Some(StartOfAll())
    else
      var n := |cycles| - 1;
      var before := Joined(cycles[..n]);
      if before.Some? then NextIf(before.value, cycles[n]) else None
  }

  ghost function NextIf(j: Joint, c: Cycle): (r: Option<Joint>)
    requires JointSound(j)
    ensures r.Some? ==> JointSound(r.value)
  {
    hide JointSound, CycleFits, NextJoint;
    if CycleFits(j, c) then
      NextIsJointSound(j, c);
      Some(NextJoint(j, c))
    else None
  }

  function StartOfAll(): Joint {
    Joint(Loop([], []), map[], LQR.EmptyQueue())
  }

  lemma StartIsJointSound()
    ensures JointSound(StartOfAll())
  {
    hide CoreInv, CoreShape, Reach, Reachable, StateAfter, HistoryAfter, LQR.Agrees, AllNamed;
    StartIsSound();
    LQR.EmptyAgrees([]);
  }

  function Ticks(cycles: seq<Cycle>): seq<Tick> {
    seq(|cycles|, i requires 0 <= i < |cycles| => cycles[i].tick)
  }

  lemma NextIfLoop(j: Joint, c: Cycle)
    requires JointSound(j) && NextIf(j, c).Some?
    ensures Sound(j.loop) && FitsNext(j.loop, c.tick) && NextIf(j, c).value.loop == SquashLoop.Next(j.loop, c.tick)
  {
    hide CycleFits, Sound, LQR.Follows, AllHeld, FitsNext, SquashLoop.Next, WorkStep, LQR.Next;
    NextIsJointSound(j, c);
    CycleFitsLoop(j, c);
  }

  lemma StartIsDriven()
    ensures Driven([]) == Some(StartOfAll().loop)
  {
    hide Sound;
  }

  /** A run of all of them is a run of core and arbiter in which every request comes from what is running. */
  lemma {:induction false} JoinedIsDriven(cycles: seq<Cycle>)
    requires Joined(cycles).Some?
    ensures Driven(Ticks(cycles)) == Some(Joined(cycles).value.loop)
    decreases |cycles|
  {
    hide JointSound, NextIf, Sound, FitsNext, SquashLoop.Next, StartOfAll, Driven;
    if cycles == [] {
      StartIsDriven();
      assert Ticks(cycles) == [];
    } else {
      var n := |cycles| - 1;
      JoinedIsDriven(cycles[..n]);
      NextIfLoop(Joined(cycles[..n]).value, cycles[n]);
      DrivenNext(Ticks(cycles[..n]), cycles[n].tick);
      assert Ticks(cycles) == Ticks(cycles[..n]) + [cycles[n].tick];
    }
  }

  /** The next cycle fits, and a request is pending. */
  ghost predicate Accepts(cycles: seq<Cycle>, c: Cycle) {
    Joined(cycles).Some? && CycleFits(Joined(cycles).value, c) && Joined(cycles).value.loop.pending != []
  }

  /**
    Exact recovery, and nothing is assumed of the instructions that raise the requests: in every run
    from reset of core, arbiter, the three units and the load queue, the oldest pending request takes
    the state back to what it was right after the instruction it names issued.
   */
  lemma {:induction false} EverySquashRecovers(cycles: seq<Cycle>, c: Cycle)
    requires Accepts(cycles, c)
    ensures RecoversNow(Joined(cycles).value.loop, c.tick)
  {
    hide CoreInv, CoreShape, Sound, FitsNext, CycleFits, Joined, LQR.Follows, AllHeld, RecoversNow;
    var j := Joined(cycles).value;
    CycleFitsLoop(j, c);
    NextRecovers(j.loop, c.tick);
  }

  // ---------- Requests do happen

  const NO_LOADS := LQT.Input(None, [], None, None, false, None, None, None)

  /** A cycle that brings nothing new but this. */
  function Plain(input: Input, loads: seq<LQEntry>, e: Event, restored: Option<MemQueues.Position>): Cycle {
    Cycle(Idle(input).(loads := loads), e, NO_LOADS.(restored := restored))
  }

  /** Whenever a request is pending, the next cycle can accept it. */
  lemma {:induction false} PendingIsAccepted(j: Joint) returns (c: Cycle)
    requires JointSound(j) && j.loop.pending != []
    ensures CycleFits(j, c)
  {
    hide CoreInv, CoreShape, Reachable, StateAfter, HistoryAfter, AllHeld, LQR.Agrees, RestoredTails, BuildPacket,
      InputFits, AllNamed;
    var s, h := StateAfter(j.loop.inputs), HistoryAfter(j.loop.inputs);
    c := Plain(UnguardedIssue.WARM, j.loads.loads, Event(None, {}), None);
    AcceptedIsLegal(s, h, j.loop.pending, c.tick);
    SquashLoop.ShapeOfBuffer(s);
    var restored := RestoredTails(s.rob, TickInput(j, c).squash);
    RestoredIsPosition(s, h, TickInput(j, c));
    if restored.Some? {
      c := Plain(UnguardedIssue.WARM, j.loads.loads, Event(None, {}), Some(restored.value.0));
    }
    NoIssueWithSquash(s, TickInput(j, c));
  }

  lemma {:induction false} RestoredIsPosition(s: CoreState, h: History, input: Input)
    requires CoreInv(s, h) && CoreShape(s) && Offered(s, h, input)
    ensures var restored := RestoredTails(s.rob, input.squash);
            restored.Some? ==> restored.value.0 < QUEUE_CAP
  {
    hide Slot, Encode, RatInv, PrfInv, RobInv, CkptInv, Chained, Partition, CoreShape, MatchesTag;
    if input.squash.Some? {
      var j :| Names(h, input.squash.value, j);
      SquashLoop.ShapeOfBuffer(s);
      RestoredTailsAre(s, h, input.squash.value, j);
      assert TailLink(h, j);
    }
  }

  lemma NoIssueWithSquash(s: CoreState, input: Input)
    requires CoreShape(s) && InputFits(s, input) && input.squash.Some?
    ensures BuildPacket(s, input).None?
  {
    hide CoreShape;
  }

  /** After these cycles no load has been issued and no request raised; this is the work there is. */
  ghost predicate Doing(cycles: seq<Cycle>, inputs: seq<Input>, w: Work) {
    Joined(cycles) == Some(Joint(Loop(inputs, []), w, LQR.EmptyQueue()))
  }

  /** A stalled tick with this event in the units. */
  predicate PlainFits(w: Work, s: CoreState, input: Input, e: Event)
    requires CoreShape(s) && InputFits(s, input)
  {
    && SameIssue(s, input, e) && EventFits(w, e, None)
    && (BuildPacket(s, input).Some? ==> !BuildPacket(s, input).value.isLoad)
  }

  lemma {:induction false} PlainCycleFits(j: Joint, input: Input, e: Event)
    requires JointSound(j) && j.loop.pending == [] && j.loads == LQR.EmptyQueue()
    requires UnguardedIssue.Stalls(input) && InputFits(StateAfter(j.loop.inputs), input)
    requires PlainFits(j.work, StateAfter(j.loop.inputs), input, e)
    ensures CycleFits(j, Plain(input, [], e, None)) && TickInput(j, Plain(input, [], e, None)) == input
  {
    hide CoreInv, CoreShape, Reachable, StateAfter, HistoryAfter, AllHeld, LQR.Agrees, BuildPacket, AllNamed, EventFits;
    SquashLoop.ShapeOfBuffer(StateAfter(j.loop.inputs));
  }

  lemma EmptyStays(s: RobState, h: History, input: Input)
    requires RobShape(s) && !WillCommit(s, input.squash)
    ensures LQR.Next(LQR.EmptyQueue(), s, h, input, NO_LOADS) == LQR.EmptyQueue()
  {
    hide WillCommit;
  }

  lemma {:induction false} JoinedNext(cycles: seq<Cycle>, c: Cycle)
    requires Joined(cycles).Some? && CycleFits(Joined(cycles).value, c)
    ensures NextIf(Joined(cycles).value, c).Some?
    ensures Joined(cycles + [c]) == NextIf(Joined(cycles).value, c)
  {
    hide JointSound, CycleFits, StartOfAll, NextJoint;
    assert (cycles + [c])[..|cycles|] == cycles;
    var j := Joined(cycles).value;
    if CycleFits(j, c) {
      NextIsJointSound(j, c);
    }
  }

  lemma {:induction false} DoingNext(cycles: seq<Cycle>, inputs: seq<Input>, w: Work, input: Input, e: Event)
    requires Doing(cycles, inputs, w) && UnguardedIssue.Stalls(input)
    requires UnguardedIssue.NothingReady(StateAfter(inputs).rob, HistoryAfter(inputs))
    requires InputFits(StateAfter(inputs), input) && PlainFits(w, StateAfter(inputs), input, e)
    ensures Doing(cycles + [Plain(input, [], e, None)], inputs + [input], WorkStep(w, e, None))
  {
    hide CoreInv, CoreShape, Reachable, StateAfter, HistoryAfter, AllHeld, LQR.Agrees, BuildPacket, AllNamed, EventFits,
      UnguardedIssue.NothingReady, WorkStep, LQR.Next, CycleFits, WillCommit, FlushArbiter.NextQueue, Joined,
      LQR.EmptyQueue, PlainFits, Safe;
    var j, c := Joined(cycles).value, Plain(input, [], e, None);
    var s, h := StateAfter(inputs), HistoryAfter(inputs);
    RobInvOf(s, h);
    UnguardedIssue.NothingCommits(s.rob, h);
    PlainCycleFits(j, input, e);
    CycleFitsLoop(j, c);
    IdleRaisesNothing(s, h, [], input);
    EmptyStays(s.rob, h, input);
    JoinedNext(cycles, c);
    NextIsJointSound(j, c);
  }

  const NO_WORK := Event(None, {})
  const BRANCH_ENTERS := Event(Some((0, BRANCHES)), {})
  const BRANCH_LEAVES := Event(None, {0})

  function Quiet(input: Input): Cycle {
    Plain(input, [], NO_WORK, None)
  }

  function ColdCycles(n: nat): seq<Cycle> {
    if n == 0 then [] else ColdCycles(n - 1) + [Quiet(UnguardedIssue.COLD)]
  }

  /** A tick without issue and without work. */
  lemma {:induction false} QuietNext(cycles: seq<Cycle>, inputs: seq<Input>, issued: nat, ckpt: CkptState,
                                     input: Input)
    requires Doing(cycles, inputs, map[]) && UnguardedIssue.Stalled(inputs, issued, ckpt)
    requires UnguardedIssue.Stalls(input) && input.uop.None?
    ensures Doing(cycles + [Quiet(input)], inputs + [input], map[])
  {
    hide CoreInv, Reachable, StateAfter, HistoryAfter, UnguardedIssue.NothingReady, Doing;
    assert WorkStep(map[], NO_WORK, None) == map[];
    DoingNext(cycles, inputs, map[], input, NO_WORK);
  }

  lemma StartIsQuiet()
    ensures Doing([], [], map[])
  {
    hide JointSound, LQR.EmptyQueue;
  }

  lemma {:induction false} ColdIsQuiet(n: nat)
    ensures Doing(ColdCycles(n), UnguardedIssue.ColdRun(n), map[])
  {
    hide Doing, UnguardedIssue.Stalled, UnguardedIssue.Untouched;
    if n == 0 {
      StartIsQuiet();
    } else {
      ColdIsQuiet(n - 1);
      UnguardedIssue.Waiting(n - 1);
      QuietNext(ColdCycles(n - 1), UnguardedIssue.ColdRun(n - 1), 0, UnguardedIssue.ColdIds(n - 1),
                UnguardedIssue.COLD);
    }
  }

  function WarmCycles(): seq<Cycle> {
    ColdCycles(22) + [Quiet(UnguardedIssue.WARM)] + [Quiet(UnguardedIssue.WARM)]
  }

  lemma {:induction false} WarmIsQuiet()
    ensures Doing(WarmCycles(), UnguardedIssue.WarmRun(), map[])
  {
    hide Doing, UnguardedIssue.Stalled, UnguardedIssue.Untouched, UnguardedIssue.ColdRun, ColdCycles,
      UnguardedIssue.ColdIds, CkptStep;
    ColdIsQuiet(22);
    UnguardedIssue.Waiting(22);
    QuietNext(ColdCycles(22), UnguardedIssue.ColdRun(22), 0, UnguardedIssue.ColdIds(22), UnguardedIssue.WARM);
    UnguardedIssue.WarmTick(UnguardedIssue.ColdRun(22), 0, UnguardedIssue.ColdIds(22), UnguardedIssue.WARM);
    QuietNext(ColdCycles(22) + [Quiet(UnguardedIssue.WARM)], UnguardedIssue.ColdRun(22) + [UnguardedIssue.WARM], 0,
              CkptStep(UnguardedIssue.ColdIds(22), true, true, false, None), UnguardedIssue.WARM);
  }

  /** The branch is issued to its station. */
  function BranchCycles(): seq<Cycle> {
    WarmCycles() + [Plain(UnguardedIssue.BRANCH, [], BRANCH_ENTERS, None)]
  }

  lemma {:induction false} BranchPacket(s: CoreState, h: History)
    requires CoreShape(s) && RobInv(s.rob, h) && h == ResetHistory() && InputFits(s, UnguardedIssue.BRANCH)
    requires BuildPacket(s, UnguardedIssue.BRANCH).Some?
    ensures PlainFits(map[], s, UnguardedIssue.BRANCH, BRANCH_ENTERS)
  {
    hide Slot, Encode, RatShape, PrfShape, CkptShape, RobShape, RobFull;
    UnguardedIssue.EmptyTag(s.rob, h);
  }

  lemma {:induction false} BranchEnters()
    ensures Doing(BranchCycles(), UnguardedIssue.BranchRun(), map[0 := Place(BRANCHES, false)])
  {
    hide Reach, Reachable, StateAfter, HistoryAfter, UnguardedIssue.NothingReady, CkptStep, UnguardedIssue.SteadyIds,
      UnguardedIssue.WarmRun, CoreStep, RatStep, PrfStep, BuildPacket, NewFlight, RatInv, PrfInv, RobInv, TailInv,
      CkptInv, Chained, Partition, ResetRat, ResetPrf, Doing, WarmCycles, PlainFits, Safe, ResetHistory;
    WarmIsQuiet();
    UnguardedIssue.WarmUp();
    UnguardedIssue.SteadyHead(0);
    var inputs := UnguardedIssue.WarmRun();
    UnguardedIssue.IssueTickOf(inputs, 0, UnguardedIssue.SteadyIds(0), UnguardedIssue.BRANCH);
    BranchPacket(StateAfter(inputs), HistoryAfter(inputs));
    assert WorkStep(map[], BRANCH_ENTERS, None) == map[0 := Place(BRANCHES, false)];
    DoingNext(WarmCycles(), inputs, map[], UnguardedIssue.BRANCH, BRANCH_ENTERS);
  }

  /** Then it goes to the branch unit. */
  function ResultCycles(): seq<Cycle> {
    BranchCycles() + [Plain(UnguardedIssue.WARM, [], BRANCH_LEAVES, None)]
  }

  lemma {:induction false} BranchIsDispatched()
    ensures Doing(ResultCycles(), UnguardedIssue.BranchRun() + [UnguardedIssue.WARM], map[0 := Place(BRANCHES, true)])
  {
    hide CoreInv, Reachable, StateAfter, HistoryAfter, UnguardedIssue.NothingReady, UnguardedIssue.SteadyIds,
      UnguardedIssue.BranchRun, BranchCycles, Doing;
    BranchEnters();
    UnguardedIssue.BranchIssued();
    var w: Work := map[0 := Place(BRANCHES, false)];
    assert WorkStep(w, BRANCH_LEAVES, None) == map[0 := Place(BRANCHES, true)];
    DoingNext(BranchCycles(), UnguardedIssue.BranchRun(), w, UnguardedIssue.WARM, BRANCH_LEAVES);
  }

  /** Its result is delivered: it is not what was predicted. */
  const MISSED := Cycle(MISS.(ready := [Completion(0, false)]), NO_WORK, NO_LOADS)

  lemma ResultLeaves()
    ensures var w: Work := map[0 := Place(BRANCHES, true)];
            IsHead(w, 0, BRANCHES) && Leaves(w, 0, None) && EventFits(w, NO_WORK, None)
  {
  }

  lemma {:induction false} MissedFits(j: Joint)
    requires JointSound(j) && j.loop.pending == [] && j.loads == LQR.EmptyQueue()
    requires j.work == map[0 := Place(BRANCHES, true)] && |HistoryAfter(j.loop.inputs).flight| == 1
    requires HistoryAfter(j.loop.inputs).flight[0].entry.tag == 0
    ensures CycleFits(j, MISSED)
  {
    hide CoreInv, CoreShape, Reachable, StateAfter, HistoryAfter, LQR.Agrees, BuildPacket, AllNamed, AllHeld, IsHead,
      Leaves, EventFits, RobInv, Slot, IsOlder;
    var s, h := StateAfter(j.loop.inputs), HistoryAfter(j.loop.inputs);
    SquashLoop.ShapeOfBuffer(s);
    RobInvOf(s, h);
    NextTagIsAnother(s.rob, h);
    ResultLeaves();
  }

  lemma NextTagIsAnother(s: RobState, h: History)
    requires RobInv(s, h) && |h.flight| == 1
    ensures s.nextTag != h.flight[0].entry.tag
  {
    hide Encode, Slot;
    assert RobLink(s, h, 0);
    OlderIsEarlier(ROB_CAP, h.committed, h.committed + 1);
  }

  /** There is a run after which the next cycle accepts a request. */
  lemma {:induction false} RequestsAreAccepted()
    ensures exists cycles, c :: Accepts(cycles, c)
  {
    hide CoreInv, CoreShape, Reachable, StateAfter, HistoryAfter, LQR.Agrees, UnguardedIssue.BranchRun, AllHeld,
      UnguardedIssue.NothingReady, CycleFits, ResultCycles, Joined, FlushArbiter.NextQueue, CkptStep, LQR.Next,
      WorkStep, LQR.EmptyQueue, Fits;
    var inputs := UnguardedIssue.BranchRun() + [UnguardedIssue.WARM];
    BranchIsDispatched();
    UnguardedIssue.BranchIssued();
    UnguardedIssue.WarmTick(UnguardedIssue.BranchRun(), 1, UnguardedIssue.SteadyIds(1), UnguardedIssue.WARM);
    var j := Joined(ResultCycles()).value;
    MissedFits(j);
    JoinedNext(ResultCycles(), MISSED);
    MissFits(StateAfter(inputs), HistoryAfter(inputs));
    assert Seen(StateAfter(inputs), MISSED.tick) == Seen(StateAfter(inputs), MISS);
    var after := Joined(ResultCycles() + [MISSED]).value;
    var c := PendingIsAccepted(after);
    assert Accepts(ResultCycles() + [MISSED], c);
  }
}
