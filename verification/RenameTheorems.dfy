/**
  What holds in every reachable state of the renaming machinery: squashes recover exactly,
  physical registers are conserved, the free list cannot run dry before the reorder buffer is
  full, and live checkpoints never collide.
 */
module RenameTheorems {
  import opened Arithmetic
  import opened Capacities
  import opened Options
  import opened Rename
  import opened RenameCore
  import opened RenameInvariants
  import opened Tags

  // ---------- Reset and runs

  const DEFAULT_ENTRY := ROBEntry(REGISTER, false, 255, 0, 0, 0, false, 0, 0, 0, INVALID_PHY, INVALID_PHY)

  /** The table at reset: x0 is unmapped and register x is bound to physical register x. */
  function ResetTable(): seq<nat> {
    seq(REGISTER_CAP, i requires 0 <= i => i)
  }

  function ResetFreeList(): seq<nat> {
    seq(PRF_CAP, i requires 0 <= i => if i < ROB_CAP then REGISTER_CAP + i else INVALID_PHY)
  }

  function ResetRat(): RatState {
    RatState(ResetTable(), seq(CKPT_CAP, i => seq(REGISTER_CAP, j => INVALID_PHY)))
  }

  function ResetPrf(): PrfState {
    PrfState(ResetFreeList(), 0, Encode(PRF_CAP, ROB_CAP), seq(CKPT_CAP, i => 0))
  }

  function ResetRob(): RobState {
    RobState(seq(ROB_CAP, i => DEFAULT_ENTRY), 0, 0)
  }

  function ResetState(): CoreState {
    CoreState(ResetRat(), ResetPrf(), ResetRob(), 0, 0, CkptState(0, [], [], []))
  }

  function ResetHistory(): History {
    History(ResetTable(), [], 0, 0, 0, 0, 0)
  }

  lemma {:induction false} ResetFreeListInv()
    ensures PrfInv(ResetPrf(), ResetHistory()) && Partition(ResetPrf(), ResetHistory())
  {
    hide Slot, Encode;
    var s, h := ResetPrf(), ResetHistory();
    ResetTags();
    assert h.base[1..] + Window(s, h) == AllRegisters() by {
      assert forall k :: 0 <= k < ROB_CAP ==> Window(s, h)[k] == REGISTER_CAP + k;
    }
  }

  lemma ResetTags()
    ensures Encode(PRF_CAP, 0) == 0 && Encode(ROB_CAP, 0) == 0
    ensures Slot(PRF_CAP, 0) == 0 && Slot(ROB_CAP, 0) == 0 && Slot(PRF_CAP, Encode(PRF_CAP, ROB_CAP)) < PRF_CAP
  {
    hide Slot, Encode;
    FirstTag(PRF_CAP);
    FirstTag(ROB_CAP);
    DecodeEncoded(PRF_CAP, 0);
    DecodeEncoded(PRF_CAP, ROB_CAP);
    DecodeEncoded(ROB_CAP, 0);
  }

  lemma ResetShapes()
    ensures PrfShape(ResetPrf()) && RobShape(ResetRob())
  {
    hide Slot, Encode;
    ResetTags();
  }

  lemma {:induction false} ResetInv()
    ensures CoreInv(ResetState(), ResetHistory())
  {
    hide Slot, Encode, PrfInv, Partition;
    ResetFreeListInv();
    ResetTags();
  }

  /** State and history after the given ticks, if all of them were legal. */
  ghost function Reach(inputs: seq<Input>): (r: Option<(CoreState, History)>)
    ensures r.Some? ==> CoreInv(r.value.0, r.value.1) && CoreShape(r.value.0)
  {
    if inputs == [] then
      ResetInv();
      InvGivesShape(ResetState(), ResetHistory());
      Some((ResetState(), ResetHistory()))
    else
      var n := |inputs| - 1;
      match Reach(inputs[..n])
      case None => None
      case Some((s, h)) =>
        if Legal(s, h, inputs[n]) then
          StepKeepsInv(s, h, inputs[n], n);
          InvGivesShape(CoreStep(s, inputs[n]), HistoryStep(s, h, inputs[n], n));
          Some((CoreStep(s, inputs[n]), HistoryStep(s, h, inputs[n], n)))
        else None
  }

  ghost predicate Reachable(inputs: seq<Input>) {
    Reach(inputs).Some?
  }

  ghost function StateAfter(inputs: seq<Input>): (s: CoreState)
    requires Reachable(inputs)
    ensures CoreShape(s)
  {
    Reach(inputs).value.0
  }

  ghost function HistoryAfter(inputs: seq<Input>): (h: History)
    requires Reachable(inputs)
    ensures CoreInv(StateAfter(inputs), h)
  {
    Reach(inputs).value.1
  }

  /** One more legal tick. */
  lemma {:induction false} ReachNext(inputs: seq<Input>, input: Input)
    requires Reachable(inputs) && Legal(StateAfter(inputs), HistoryAfter(inputs), input)
    ensures Reachable(inputs + [input]) && StateAfter(inputs + [input]) == CoreStep(StateAfter(inputs), input)
    ensures HistoryAfter(inputs + [input]) == HistoryStep(StateAfter(inputs), HistoryAfter(inputs), input, |inputs|)
  {
    hide CoreInv, Legal, HistoryStep, CoreStep;
    assert (inputs + [input])[..|inputs|] == inputs;
  }

  /** The last of several legal ticks. */
  lemma {:induction false} ReachLast(inputs: seq<Input>)
    requires Reachable(inputs) && inputs != []
    ensures var n := |inputs| - 1;
            && Reachable(inputs[..n]) && Legal(StateAfter(inputs[..n]), HistoryAfter(inputs[..n]), inputs[n])
            && StateAfter(inputs) == CoreStep(StateAfter(inputs[..n]), inputs[n])
            && HistoryAfter(inputs) == HistoryStep(StateAfter(inputs[..n]), HistoryAfter(inputs[..n]), inputs[n], n)
  {
    hide CoreInv, Legal, HistoryStep, CoreStep;
  }

  // ---------- Recovery

  /** A squash puts every structure back to what it held after the instruction it names. */
  lemma {:induction false} SquashRestores(s: CoreState, h: History, input: Input, j: nat)
    requires CoreInv(s, h) && CoreShape(s) && Offered(s, h, input)
    requires input.squash.Some? && Names(h, input.squash.value, j)
    ensures Observe(CoreStep(s, input)) == h.flight[j].after
  {
    hide Slot, NextTag, Encode, RatInv, PrfInv, RobInv, TailInv, CkptInv, Chained, Partition, RobFlush, SetAllReady;
    var squash := input.squash.value;
    RatSquash(s.rat, h, squash, j);
    PrfSquash(s.prf, h, squash, j);
    PrfInvGivesShape(PrfStep(s.prf, None, input.squash, None), Squashed(h, j));
    PrfStepSplits(s.prf, None, input.squash, Committing(s.rob, input.squash));
    var tags := Surviving(s.rob, input.ready, input.squash);
    RobAllReady(s.rob, h, tags);
    RobSquash(SetAllReady(s.rob, tags), h, j);
    RestoredTailsAre(s, h, squash, j);
  }

  /** What is recorded of the instruction that a tick issues. */
  predicate RecordedBy(s: CoreState, input: Input, f: Flight)
    requires CoreShape(s)
  {
    InputFits(s, input) && BuildPacket(s, input).Some? && f == NewFlight(s, input, f.at)
  }

  /** After a tick every instruction in flight was in flight before, or has just been issued. */
  lemma {:induction false} FlightGrowsByOne(s: CoreState, h: History, input: Input, now: nat, i: nat)
    requires CoreInv(s, h) && CoreShape(s) && Offered(s, h, input) && i < |HistoryStep(s, h, input, now).flight|
    ensures var f := HistoryStep(s, h, input, now).flight[i];
            f in h.flight || (f.at == now && RecordedBy(s, input, f))
  {
    hide Slot, NextTag, Encode, RatInv, PrfInv, RobInv, TailInv, CkptInv, Chained, Partition, WillCommit, BuildPacket,
      CoreStep;
    var h1, f := HistoryAfterEvent(s, h, input, now), HistoryStep(s, h, input, now).flight[i];
    assert f in h1.flight;
    if BuildPacket(s, input).Some? {
      assert h1.flight == h.flight + [NewFlight(s, input, now)];
    }
  }

  /** The history knows the tick an instruction issued in, the entry it was given and the state that tick left. */
  ghost predicate Truthful(inputs: seq<Input>, f: Flight) {
    && f.at < |inputs| && Reachable(inputs[..f.at]) && Reachable(inputs[..f.at + 1])
    && RecordedBy(StateAfter(inputs[..f.at]), inputs[f.at], f)
    && f.after == Observe(StateAfter(inputs[..f.at + 1]))
  }

  lemma {:induction false} TruthfulPrefix(inputs: seq<Input>, n: nat, f: Flight)
    requires n <= |inputs| && Truthful(inputs[..n], f)
    ensures Truthful(inputs, f)
  {
    hide Reachable, StateAfter, Observe, RecordedBy;
    assert inputs[..n][..f.at + 1] == inputs[..f.at + 1] && inputs[..n][..f.at] == inputs[..f.at];
  }

  /** The history is truthful. */
  lemma {:induction false} HistoryIsTruthful(inputs: seq<Input>, i: nat)
    requires Reachable(inputs) && i < |HistoryAfter(inputs).flight|
    ensures Truthful(inputs, HistoryAfter(inputs).flight[i])
  {
    hide CoreInv, HistoryStep, CoreStep, Observe, CoreShape, RecordedBy, Reach, Reachable, StateAfter, HistoryAfter;
    if inputs == [] {
      ResetIsReachable();
      EmptyAtReset();
    } else {
      var n := |inputs| - 1;
      ReachLast(inputs);
      var s, h := StateAfter(inputs[..n]), HistoryAfter(inputs[..n]);
      var f := HistoryAfter(inputs).flight[i];
      assert inputs[..n + 1] == inputs;
      FlightGrowsByOne(s, h, inputs[n], n, i);
      if f in h.flight {
        var k :| 0 <= k < |h.flight| && h.flight[k] == f;
        HistoryIsTruthful(inputs[..n], k);
        TruthfulPrefix(inputs, n, f);
      } else {
        RecordedAfter(s, inputs[n], f);
      }
    }
  }

  lemma RecordedAfter(s: CoreState, input: Input, f: Flight)
    requires CoreShape(s) && RecordedBy(s, input, f)
    ensures InputFits(s, input) && f.after == Observe(CoreStep(s, input))
  {
  }

  /** After these ticks, this input is legal and squashes to the j-th instruction in flight. */
  ghost predicate SquashesTo(inputs: seq<Input>, input: Input, j: nat) {
    && Reachable(inputs) && j < |HistoryAfter(inputs).flight|
    && Legal(StateAfter(inputs), HistoryAfter(inputs), input)
    && input.squash.Some? && Names(HistoryAfter(inputs), input.squash.value, j)
  }

  /** The tick in which the j-th instruction in flight issued. */
  ghost function IssueTick(inputs: seq<Input>, j: nat): nat
    requires Reachable(inputs) && j < |HistoryAfter(inputs).flight|
  {
    HistoryAfter(inputs).flight[j].at
  }

  /** Two runs end with the same table, free-list head, next tag and queue tails. */
  ghost predicate SameState(inputs: seq<Input>, other: seq<Input>) {
    Reachable(inputs) && Reachable(other) && Observe(StateAfter(inputs)) == Observe(StateAfter(other))
  }

  /** In this tick an instruction was issued under this tag and with this checkpoint. */
  ghost predicate IssuedIn(inputs: seq<Input>, at: nat, squash: Squash) {
    && at < |inputs| && Reachable(inputs[..at]) && InputFits(StateAfter(inputs[..at]), inputs[at])
    && BuildPacket(StateAfter(inputs[..at]), inputs[at]).Some?
    && BuildPacket(StateAfter(inputs[..at]), inputs[at]).value.robEntry.ckptId == squash.ckptId
    && StateAfter(inputs[..at]).rob.nextTag == squash.tag
  }

  /**
    Exact recovery, for every run: whatever was issued and committed in between, and also when an
    older instruction commits in the very same tick, a squash takes table, free-list head, next
    tag and both queue tails back to the state right after the named instruction issued.
   */
  lemma {:induction false} RecoveryIsExact(inputs: seq<Input>, input: Input, j: nat)
    requires SquashesTo(inputs, input, j)
    ensures var issuedAt := IssueTick(inputs, j);
            && issuedAt < |inputs| && IssuedIn(inputs, issuedAt, input.squash.value)
            && SameState(inputs + [input], inputs[..issuedAt + 1])
  {
    hide Observe, CoreStep, HistoryStep, CoreInv, CoreShape, Reach, Reachable, StateAfter, HistoryAfter, BuildPacket,
      Safe;
    ReachNext(inputs, input);
    SquashRestores(StateAfter(inputs), HistoryAfter(inputs), input, j);
    HistoryIsTruthful(inputs, j);
  }

  lemma {:induction false} ResetIsReachable()
    ensures Reachable([]) && StateAfter([]) == ResetState() && HistoryAfter([]) == ResetHistory()
  {
    hide CoreInv;
  }

  lemma EmptyAtReset()
    ensures ResetHistory().flight == []
  {
  }

  // ---------- Conservation of physical registers

  /** The number of entries between head and next tag. */
  function Occupancy(s: RobState): (n: nat)
    requires RobShape(s)
  {
    SeqDistanceIsNat(ROB_CAP, s.head, s.nextTag);
    SeqDistance(ROB_CAP, s.head, s.nextTag)
  }

  /** The entries from the head on, oldest first. */
  function LiveEntries(s: RobState): (entries: seq<ROBEntry>)
    requires RobShape(s)
  {
    seq(Occupancy(s), k requires 0 <= k => s.queue[(Slot(ROB_CAP, s.head) + k) % ROB_CAP])
  }

  /** The registers the given entries will free when they commit. */
  function Pending(entries: seq<ROBEntry>): (phys: seq<nat>) {
    if entries == [] then []
    else
      var n := |entries| - 1;
      Pending(entries[..n]) + match Freed(Some(entries[n])) case None => [] case Some(phy) => [phy]
  }

  function FreeCount(s: PrfState): (n: nat)
    requires PrfShape(s)
  {
    SeqDistanceIsNat(PRF_CAP, s.headSeq, s.tailSeq);
    SeqDistance(PRF_CAP, s.headSeq, s.tailSeq)
  }

  /** The registers between the head and the tail of the free list. */
  function FreeRegisters(s: PrfState): (phys: seq<nat>)
    requires PrfShape(s)
  {
    seq(FreeCount(s), k requires 0 <= k => s.freeList[(Slot(PRF_CAP, s.headSeq) + k) % PRF_CAP])
  }

  /** Mapped, pending and free registers together are the registers 1 .. PRF_CAP-1, once each. */
  predicate Conserved(s: CoreState)
    requires CoreShape(s)
  {
    multiset(s.rat.table[1..]) + multiset(Pending(LiveEntries(s.rob))) + multiset(FreeRegisters(s.prf))
    == multiset(AllRegisters())
  }

  function Entries(flight: seq<Flight>): seq<ROBEntry> {
    seq(|flight|, k requires 0 <= k < |flight| => flight[k].entry)
  }

  lemma {:induction false} FreeCountIs(s: PrfState, h: History)
    requires PrfInv(s, h) && |h.flight| <= ROB_CAP
    ensures FreeCount(s) == ROB_CAP - Allocations(h.flight)
  {
    hide Encode, SeqDistance;
    var a := Allocations(h.flight);
    CountsAreBounded(h.flight);
    DistanceIsExact(PRF_CAP, h.allocs + a, h.allocs + ROB_CAP);
  }

  lemma {:induction false} OccupancyIs(s: RobState, h: History)
    requires RobInv(s, h)
    ensures Occupancy(s) == |h.flight|
  {
    hide Encode, SeqDistance;
    DistanceIsExact(ROB_CAP, h.committed, h.committed + |h.flight|);
  }

  lemma AtMostFull(s: RobState, h: History)
    requires RobInv(s, h)
    ensures |h.flight| <= ROB_CAP
  {
  }

  lemma WrappedSum(a: nat, k: nat, m: nat)
    requires m > 0
    ensures (a % m + k) % m == (a + k) % m
  {
    DivMod(a, m);
    assert a + k == a % m + k + a / m * m;
    ModEqual(a + k, a % m + k, a / m, m);
  }

  lemma {:induction false} FreeIsRestOfWindow(s: PrfState, h: History)
    requires PrfInv(s, h) && |h.flight| <= ROB_CAP
    ensures Allocations(h.flight) <= ROB_CAP && FreeRegisters(s) == Window(s, h)[Allocations(h.flight)..]
  {
    hide Encode, Slot, FreeCount, PrfLink, IdsInOrder, FreeSlot, Window, Allocations;
    FreeCountIs(s, h);
    CountsAreBounded(h.flight);
    var a := Allocations(h.flight);
    WindowAt(s, h, 0);
    forall k | 0 <= k < ROB_CAP - a ensures FreeRegisters(s)[k] == Window(s, h)[a + k] {
      WindowAt(s, h, a + k);
      FreeAt(s, h, k);
    }
  }

  lemma {:induction false} FreeAt(s: PrfState, h: History, k: nat)
    requires PrfInv(s, h)
    ensures s.freeList[(Slot(PRF_CAP, s.headSeq) + k) % PRF_CAP] == FreeSlot(s, h, Allocations(h.flight) + k)
  {
    hide Encode, Slot, PrfLink, IdsInOrder, Allocations;
    DecodeEncoded(PRF_CAP, h.allocs + Allocations(h.flight));
    WrappedSum(h.allocs + Allocations(h.flight), k, PRF_CAP);
  }

  /** Pending registers only depend on what each entry frees. */
  lemma {:induction false} PendingAgrees(a: seq<ROBEntry>, b: seq<ROBEntry>)
    requires |a| == |b| && forall k :: 0 <= k < |a| ==> Freed(Some(a[k])) == Freed(Some(b[k]))
    ensures Pending(a) == Pending(b)
  {
    hide Freed;
    if a != [] {
      var n := |a| - 1;
      assert forall k :: 0 <= k < n ==> a[..n][k] == a[k] && b[..n][k] == b[k];
      PendingAgrees(a[..n], b[..n]);
    }
  }

  lemma {:induction false} LiveEntriesAre(s: RobState, h: History)
    requires RobInv(s, h)
    ensures Pending(LiveEntries(s)) == Pending(Entries(h.flight))
  {
    hide Encode, Slot, Occupancy, Pending, Freed;
    OccupancyIs(s, h);
    forall k | 0 <= k < |h.flight| ensures Freed(Some(LiveEntries(s)[k])) == Freed(Some(Entries(h.flight)[k])) {
      LiveEntryAt(s, h, k);
      SameFreed(LiveEntries(s)[k], h.flight[k].entry);
    }
    PendingAgrees(LiveEntries(s), Entries(h.flight));
  }

  lemma SameFreed(e: ROBEntry, issued: ROBEntry)
    requires SameEntry(e, issued)
    ensures Freed(Some(e)) == Freed(Some(issued))
  {
  }

  /**
    Up to any instruction in flight: what is mapped after it and what it and its predecessors
    will free is what was mapped before them and what they took from the window.
   */
  predicate Balanced(s: PrfState, h: History, i: nat)
    requires |s.freeList| == PRF_CAP && i <= |h.flight|
  {
    && |TableBefore(h, i)| == REGISTER_CAP && |h.base| == REGISTER_CAP && Allocations(h.flight[..i]) <= ROB_CAP
    && multiset(TableBefore(h, i)[1..]) + multiset(Pending(Entries(h.flight[..i])))
       == multiset(h.base[1..]) + multiset(Window(s, h)[..Allocations(h.flight[..i])])
  }

  lemma {:induction false} Prefixes(h: History, i: nat)
    requires i < |h.flight|
    ensures Allocations(h.flight[..i + 1]) == Allocations(h.flight[..i]) + if h.flight[i].allocDest then 1 else 0
    ensures Pending(Entries(h.flight[..i + 1]))
         == Pending(Entries(h.flight[..i]))
            + match Freed(Some(h.flight[i].entry)) case None => [] case Some(phy) => [phy]
  {
    hide Freed;
    assert h.flight[..i + 1][..i] == h.flight[..i];
    assert Entries(h.flight[..i + 1])[..i] == Entries(h.flight[..i]);
  }

  lemma {:induction false} SplitMultiset(w: seq<nat>, a: nat)
    requires a <= |w|
    ensures multiset(w) == multiset(w[..a]) + multiset(w[a..])
  {
    assert w == w[..a] + w[a..];
  }

  lemma {:induction false} ExtendMultiset(w: seq<nat>, a: nat)
    requires a < |w|
    ensures multiset(w[..a + 1]) == multiset(w[..a]) + multiset{w[a]}
  {
    assert w[..a + 1] == w[..a] + [w[a]];
  }

  /** What is mapped in a balance is one of all registers. */
  lemma MemberOfBalance(x: nat, mapped: multiset<nat>, pending: multiset<nat>, base: multiset<nat>,
                        taken: multiset<nat>, rest: multiset<nat>, all: multiset<nat>)
    requires x in mapped && mapped + pending == base + taken && base + (taken + rest) == all
    ensures x in all
  {
    assert x in base + taken;
  }

  /** Replacing a mapping by a register of the window keeps the balance. */
  lemma BalanceAfterRename(o: nat, v: nat, mapped: multiset<nat>, pending: multiset<nat>, base: multiset<nat>,
                           taken: multiset<nat>)
    requires o in mapped && mapped + pending == base + taken
    ensures (mapped - multiset{o} + multiset{v}) + (pending + multiset{o}) == base + (taken + multiset{v})
  {
    var left, right := (mapped - multiset{o} + multiset{v}) + (pending + multiset{o}), base + (taken + multiset{v});
    forall x ensures left[x] == right[x] {
      assert (mapped + pending)[x] == (base + taken)[x];
    }
  }

  lemma Regroup(mapped: multiset<nat>, pending: multiset<nat>, base: multiset<nat>,
                taken: multiset<nat>, rest: multiset<nat>, all: multiset<nat>)
    requires mapped + pending == base + taken && base + (taken + rest) == all
    ensures mapped + pending + rest == all
  {
    assert base + taken + rest == base + (taken + rest);
  }

  lemma {:induction false} RealRegister(x: nat)
    requires x in multiset(AllRegisters())
    ensures 0 < x < PRF_CAP
  {
    assert x in AllRegisters();
  }

  lemma {:induction false} MappedIsMember(table: seq<nat>, r: nat)
    requires 0 < r < |table|
    ensures table[r] in multiset(table[1..])
  {
    assert table[1..][r - 1] == table[r];
  }

  /** What a balanced table maps is a real register. */
  lemma {:induction false} BalancedIsReal(s: PrfState, h: History, i: nat, r: nat)
    requires Partition(s, h) && i <= |h.flight| && Balanced(s, h, i) && 0 < r < REGISTER_CAP
    ensures 0 < TableBefore(h, i)[r] < PRF_CAP
  {
    hide Pending, Allocations, TableBefore, Window, AllRegisters, Entries;
    var table, w, a := TableBefore(h, i), Window(s, h), Allocations(h.flight[..i]);
    assert |w| == ROB_CAP by {
      WindowAt(s, h, 0);
    }
    SplitMultiset(w, a);
    MappedIsMember(table, r);
    MemberOfBalance(table[r], multiset(table[1..]), multiset(Pending(Entries(h.flight[..i]))),
                    multiset(h.base[1..]), multiset(w[..a]), multiset(w[a..]), multiset(AllRegisters()));
    RealRegister(table[r]);
  }

  /** An allocating instruction in flight replaces a real register, which it will free. */
  lemma {:induction false} RenameFacts(s: PrfState, h: History, i: nat)
    requires PrfInv(s, h) && Chained(h) && Partition(s, h) && i < |h.flight| && Balanced(s, h, i)
    ensures var f, table := h.flight[i], TableBefore(h, i);
            if f.allocDest then
              && 0 < f.entry.dest < |table| == REGISTER_CAP && Freed(Some(f.entry)) == Some(table[f.entry.dest])
              && f.after.table == table[f.entry.dest := FreeSlot(s, h, Allocations(h.flight[..i]))]
            else
              f.after.table == table && Freed(Some(f.entry)) == None
  {
    hide Slot, Encode, PrfInv, Chained, Window, Pending, Allocations, Entries, TableBefore, FreeSlot;
    LinksAt(s, h, i);
    if h.flight[i].allocDest {
      BalancedIsReal(s, h, i, h.flight[i].entry.dest);
    }
  }

  /** An allocating instruction moves one register from the window to the table, and one on to the pending ones. */
  lemma {:induction false} BalanceOfAllocation(s: PrfState, h: History, i: nat)
    requires PrfInv(s, h) && Chained(h) && Partition(s, h) && i < |h.flight| <= ROB_CAP && Balanced(s, h, i)
    requires h.flight[i].allocDest
    ensures Balanced(s, h, i + 1)
  {
    hide PrfInv, Chained, Partition, Window, Pending, Allocations, Entries, TableBefore, FreeSlot, Freed;
    PrfInvGivesShape(s, h);
    var f, table, w, a := h.flight[i], TableBefore(h, i), Window(s, h), Allocations(h.flight[..i]);
    var pending := Pending(Entries(h.flight[..i]));
    RenameFacts(s, h, i);
    var o := table[f.entry.dest];
    assert |w| == ROB_CAP && a < ROB_CAP && w[a] == FreeSlot(s, h, a) by {
      CountsAreBounded(h.flight[..i]);
      WindowAt(s, h, a);
    }
    assert multiset(TableBefore(h, i + 1)[1..]) == multiset(table[1..]) - multiset{o} + multiset{w[a]}
      && |TableBefore(h, i + 1)| == REGISTER_CAP by {
      TableAfter(h, i);
      ReplacedMultiset(table, f.entry.dest, w[a]);
    }
    assert multiset(Pending(Entries(h.flight[..i + 1]))) == multiset(pending) + multiset{o} by {
      Prefixes(h, i);
    }
    assert Allocations(h.flight[..i + 1]) == a + 1 && multiset(w[..a + 1]) == multiset(w[..a]) + multiset{w[a]} by {
      Prefixes(h, i);
      ExtendMultiset(w, a);
    }
    MappedIsMember(table, f.entry.dest);
    BalanceAfterRename(o, w[a], multiset(table[1..]), multiset(pending), multiset(h.base[1..]), multiset(w[..a]));
  }

  lemma {:induction false} BalanceStep(s: PrfState, h: History, i: nat)
    requires PrfInv(s, h) && Chained(h) && Partition(s, h) && i < |h.flight| <= ROB_CAP && Balanced(s, h, i)
    ensures Balanced(s, h, i + 1)
  {
    hide PrfInv, Chained, Partition, Window, Pending, Allocations, Entries, TableBefore, FreeSlot, Freed;
    if h.flight[i].allocDest {
      BalanceOfAllocation(s, h, i);
    } else {
      RenameFacts(s, h, i);
      TableAfter(h, i);
      Prefixes(h, i);
      assert Pending(Entries(h.flight[..i])) + [] == Pending(Entries(h.flight[..i]));
    }
  }

  lemma LinksAt(s: PrfState, h: History, i: nat)
    requires PrfInv(s, h) && Chained(h) && i < |h.flight|
    ensures PrfShape(s) && Link(TableBefore(h, i), h.flight[i]) && PrfLink(s, h, i)
  {
  }

  lemma TableAfter(h: History, i: nat)
    requires i < |h.flight|
    ensures TableBefore(h, i + 1) == h.flight[i].after.table
  {
  }

  lemma WindowAt(s: PrfState, h: History, k: nat)
    requires |s.freeList| == PRF_CAP && k < ROB_CAP
    ensures |Window(s, h)| == ROB_CAP && Window(s, h)[k] == FreeSlot(s, h, k)
  {
  }

  lemma {:induction false} Balance(s: PrfState, h: History, i: nat)
    requires PrfInv(s, h) && Chained(h) && Partition(s, h) && i <= |h.flight| <= ROB_CAP
    ensures PrfShape(s) && Balanced(s, h, i)
  {
    hide PrfInv, Window, Chained;
    PrfInvGivesShape(s, h);
    if i == 0 {
      assert h.flight[..0] == [] && Entries([]) == [];
      assert Window(s, h)[..0] == [];
    } else {
      hide Balanced;
      Balance(s, h, i - 1);
      BalanceStep(s, h, i - 1);
    }
  }

  /** The balance of all instructions in flight, with the free registers next to it. */
  lemma {:induction false} Ledger(s: PrfState, h: History)
    requires PrfInv(s, h) && Chained(h) && Partition(s, h) && |h.flight| <= ROB_CAP
    ensures PrfShape(s) && |TableBefore(h, |h.flight|)| == REGISTER_CAP
    ensures multiset(TableBefore(h, |h.flight|)[1..]) + multiset(Pending(Entries(h.flight)))
            + multiset(FreeRegisters(s)) == multiset(AllRegisters())
  {
    hide Slot, Encode, AllRegisters, Window, Pending, Allocations, Entries, TableBefore, FreeRegisters, PrfInv, Chained;
    var n, w, a := |h.flight|, Window(s, h), Allocations(h.flight);
    Balance(s, h, n);
    assert h.flight[..n] == h.flight;
    FreeIsRestOfWindow(s, h);
    assert |w| == ROB_CAP by {
      WindowAt(s, h, 0);
    }
    SplitMultiset(w, a);
    Regroup(multiset(TableBefore(h, n)[1..]), multiset(Pending(Entries(h.flight))), multiset(h.base[1..]),
            multiset(w[..a]), multiset(w[a..]), multiset(AllRegisters()));
  }

  /** Conservation: no physical register is ever lost or handed out twice. */
  lemma {:induction false} RegistersAreConserved(s: CoreState, h: History)
    requires CoreInv(s, h)
    ensures CoreShape(s) && Conserved(s)
  {
    hide Slot, Encode, AllRegisters, Pending, Entries, LiveEntries, FreeRegisters, TableBefore, PrfInv, RobInv, TailInv,
      CkptInv, Chained, Partition;
    InvGivesShape(s, h);
    AtMostFull(s.rob, h);
    Ledger(s.prf, h);
    LiveEntriesAre(s.rob, h);
  }

  lemma {:induction false} PendingGrows(s: PrfState, h: History, i: nat)
    requires PrfInv(s, h) && Chained(h) && Partition(s, h) && i < |h.flight| <= ROB_CAP
    ensures |Pending(Entries(h.flight[..i + 1]))| - Allocations(h.flight[..i + 1])
         == |Pending(Entries(h.flight[..i]))| - Allocations(h.flight[..i])
  {
    hide PrfInv, Chained, Partition, Pending, Allocations, Entries, Balanced, Freed, TableBefore, FreeSlot, Slot,
      Encode;
    Prefixes(h, i);
    Balance(s, h, i);
    RenameFacts(s, h, i);
  }

  /** Every allocation in flight is pending, and nothing else is. */
  lemma {:induction false} PendingCount(s: PrfState, h: History, i: nat)
    requires PrfInv(s, h) && Chained(h) && Partition(s, h) && i <= |h.flight| <= ROB_CAP
    ensures |Pending(Entries(h.flight[..i]))| == Allocations(h.flight[..i])
  {
    hide PrfInv, Chained, Partition, Pending, Allocations, Entries;
    if i == 0 {
      NothingPending(h);
    } else {
      PendingCount(s, h, i - 1);
      PendingGrows(s, h, i - 1);
    }
  }

  lemma {:induction false} NothingPending(h: History)
    ensures Pending(Entries(h.flight[..0])) == [] && Allocations(h.flight[..0]) == 0
  {
    assert h.flight[..0] == [] && Entries([]) == [];
  }

  /** The free list covers every free entry of the buffer, so only a full buffer can find it empty. */
  lemma {:induction false} FreeListCoversBuffer(s: CoreState, h: History)
    requires CoreInv(s, h)
    ensures CoreShape(s) && FreeCount(s.prf) == ROB_CAP - |Pending(LiveEntries(s.rob))|
    ensures s.prf.headSeq == s.prf.tailSeq ==> RobFull(s.rob)
  {
    hide Slot, Encode, PrfInv, RobInv, RatInv, TailInv, CkptInv, Chained, Partition, FreeCount, Pending, Entries,
      LiveEntries;
    InvGivesShape(s, h);
    AtMostFull(s.rob, h);
    FreeCountIs(s.prf, h);
    LiveEntriesAre(s.rob, h);
    PendingCount(s.prf, h, |h.flight|);
    assert h.flight[..|h.flight|] == h.flight;
    RobOccupancy(s.rob, h);
    CountsAreBounded(h.flight);
    EmptyMeansNone(s.prf, h);
  }

  lemma {:induction false} EmptyMeansNone(s: PrfState, h: History)
    requires PrfInv(s, h) && |h.flight| <= ROB_CAP
    ensures s.headSeq == s.tailSeq <==> Allocations(h.flight) == ROB_CAP
  {
    hide Slot, Encode;
    CountsAreBounded(h.flight);
    OlderIsEarlier(PRF_CAP, h.allocs + Allocations(h.flight), h.allocs + ROB_CAP);
  }

  /** No instruction ever waits for a physical register: when the buffer and the stations have room, it issues. */
  lemma {:induction false} IssueNeverStarves(s: CoreState, h: History, input: Input)
    requires CoreInv(s, h) && CoreShape(s) && Offered(s, h, input)
    requires input.uop.Some? && input.squash.None? && input.room && !RobFull(s.rob)
    ensures BuildPacket(s, input).Some?
  {
    hide Slot, Encode, CoreInv;
    InvGivesShape(s, h);
    FreeListCoversBuffer(s, h);
  }

  /**
    The assertions of the source: what is mapped, popped and pushed is a real register, the register
    popped is the one in the packet, and a restored head is no further back than one round.
   */
  lemma {:induction false} AssertionsHold(s: CoreState, h: History, input: Input)
    requires CoreInv(s, h) && CoreShape(s) && Offered(s, h, input)
    ensures var packet := BuildPacket(s, input);
            packet.Some? && packet.value.allocDest ==>
              && 0 < packet.value.phy < PRF_CAP
              && FreeRegisters(s.prf) != [] && packet.value.phy == FreeRegisters(s.prf)[0]
    ensures forall r :: 0 < r < REGISTER_CAP ==> 0 < s.rat.table[r] < PRF_CAP
    ensures forall k :: 0 <= k < FreeCount(s.prf) ==> 0 < FreeRegisters(s.prf)[k] < PRF_CAP
    ensures input.squash.Some? ==>
              var head := s.prf.headCkpt[input.squash.value.ckptId];
              Slot(PRF_CAP, head) < PRF_CAP && SeqDistance(PRF_CAP, head, s.prf.tailSeq) <= PRF_CAP
  {
    hide Slot, Encode, SeqDistance, Pending, LiveEntries, AllRegisters, PrfInv, RatInv, RobInv, TailInv, CkptInv,
      Chained, Partition, Occupancy, FreeCount;
    InvGivesShape(s, h);
    RegistersAreConserved(s, h);
    var pending := multiset(Pending(LiveEntries(s.rob)));
    forall r | 0 < r < REGISTER_CAP ensures 0 < s.rat.table[r] < PRF_CAP {
      MappedIsMember(s.rat.table, r);
      InThreeParts(s.rat.table[r], multiset(s.rat.table[1..]), pending, multiset(FreeRegisters(s.prf)));
      RealRegister(s.rat.table[r]);
    }
    forall k | 0 <= k < FreeCount(s.prf) ensures 0 < FreeRegisters(s.prf)[k] < PRF_CAP {
      InThreeParts(FreeRegisters(s.prf)[k], multiset(s.rat.table[1..]), pending, multiset(FreeRegisters(s.prf)));
      RealRegister(FreeRegisters(s.prf)[k]);
    }
    if BuildPacket(s, input).Some? && BuildPacket(s, input).value.allocDest {
      PoppedIsFree(s, h);
    }
    if input.squash.Some? {
      AtMostFull(s.rob, h);
      RestoredHead(s.prf, h, Position(h, input.squash.value));
    }
  }

  lemma InThreeParts(x: nat, a: multiset<nat>, b: multiset<nat>, c: multiset<nat>)
    requires x in a || x in c
    ensures x in a + b + c
  {
  }

  /** With a free register left, the next one handed out is the first of them. */
  lemma {:induction false} PoppedIsFree(s: CoreState, h: History)
    requires CoreInv(s, h) && CoreShape(s) && s.prf.headSeq != s.prf.tailSeq
    ensures FreeCount(s.prf) > 0 && s.prf.freeList[Slot(PRF_CAP, s.prf.headSeq)] == FreeRegisters(s.prf)[0]
  {
    hide Slot, Encode, RatInv, RobInv, TailInv, CkptInv, Chained, Partition, FreeCount, PrfInv;
    AtMostFull(s.rob, h);
    FreeCountIs(s.prf, h);
    EmptyMeansNone(s.prf, h);
    CountsAreBounded(h.flight);
  }

  lemma {:induction false} RestoredHead(s: PrfState, h: History, j: nat)
    requires PrfInv(s, h) && j < |h.flight| <= ROB_CAP
    ensures var head := s.headCkpt[h.flight[j].entry.ckptId];
            Slot(PRF_CAP, head) < PRF_CAP && SeqDistance(PRF_CAP, head, s.tailSeq) <= PRF_CAP
  {
    hide Slot, Encode, SeqDistance, Allocations, FreeSlot;
    var a := Allocations(h.flight[..j + 1]);
    assert PrfLink(s, h, j);
    hide PrfInv, PrfLink, IdsInOrder, PrfShape;
    CountsAreBounded(h.flight[..j + 1]);
    DecodeEncoded(PRF_CAP, h.allocs + a);
    DistanceIsExact(PRF_CAP, h.allocs + a, h.allocs + ROB_CAP);
  }

  // ---------- Every run

  /**
    In every reachable state registers are conserved, live checkpoints are distinct and an empty
    free list means a full buffer.
   */
  lemma {:induction false} ReachableStatesAreSound(inputs: seq<Input>)
    requires Reachable(inputs)
    ensures var s := StateAfter(inputs);
            && CoreShape(s) && Conserved(s)
            && (s.prf.headSeq == s.prf.tailSeq ==> RobFull(s.rob))
            && FreeCount(s.prf) + |Pending(LiveEntries(s.rob))| == ROB_CAP
            && DistinctIds(s)
  {
    hide Slot, Encode, CoreInv, Reach, Reachable, StateAfter, HistoryAfter, CoreShape, Pending, LiveEntries;
    var s, h := StateAfter(inputs), HistoryAfter(inputs);
    RegistersAreConserved(s, h);
    FreeListCoversBuffer(s, h);
    IdsAreDistinct(s, h);
  }

  /** Checkpoint ids held by the buffer, and those still in front of it. */
  function LiveIds(s: CoreState): seq<nat>
    requires CoreShape(s)
  {
    seq(Occupancy(s.rob), k requires 0 <= k < Occupancy(s.rob) => LiveEntries(s.rob)[k].ckptId) + Front(s.ckpt)
  }

  predicate DistinctIds(s: CoreState)
    requires CoreShape(s)
  {
    && (forall i, j :: 0 <= i < j < |LiveIds(s)| ==> LiveIds(s)[i] != LiveIds(s)[j])
    && s.ckpt.nextCkptId !in LiveIds(s)
  }

  lemma {:induction false} LiveEntryAt(s: RobState, h: History, k: nat)
    requires RobInv(s, h) && k < |h.flight|
    ensures Occupancy(s) == |h.flight| && SameEntry(LiveEntries(s)[k], h.flight[k].entry)
  {
    hide Slot, Encode, Occupancy;
    OccupancyIs(s, h);
    DecodeEncoded(ROB_CAP, h.committed);
    WrappedSum(h.committed, k, ROB_CAP);
    assert RobLink(s, h, k);
  }

  lemma {:induction false} IdsAreDistinct(s: CoreState, h: History)
    requires CoreInv(s, h) && CoreShape(s)
    ensures DistinctIds(s)
  {
    hide Slot, Encode, Occupancy, LiveEntries, RatInv, PrfInv, RobInv, TailInv, CkptInv, Chained, Partition;
    OccupancyIs(s.rob, h);
    forall k | 0 <= k < |h.flight| ensures LiveIds(s)[k] == h.flight[k].entry.ckptId {
      LiveEntryAt(s.rob, h, k);
    }
    assert LiveIds(s) == FlightIds(h) + Front(s.ckpt);
    LiveIdsAreDistinct(s.ckpt, h);
  }

  // ---------- Tags that are live

  lemma {:induction false} WellFormedHead(s: RobState, h: History)
    requires RobInv(s, h)
    ensures WellFormed(ROB_CAP, s.head)
  {
    hide Slot, Encode, RobLink;
    DecodeEncoded(ROB_CAP, h.committed);
  }

  /** An instruction in flight is as far from the head as there are older ones. */
  lemma {:induction false} LiveTagDistance(s: RobState, h: History, i: nat)
    requires RobInv(s, h) && i < |h.flight|
    ensures WellFormed(ROB_CAP, h.flight[i].entry.tag) && Live(ROB_CAP, s.head, h.flight[i].entry.tag)
    ensures SeqDistance(ROB_CAP, s.head, h.flight[i].entry.tag) == i
  {
    hide Slot, Encode, SeqDistance;
    WellFormedHead(s, h);
    assert RobLink(s, h, i);
    DecodeEncoded(ROB_CAP, h.committed + i);
    DistanceIsExact(ROB_CAP, h.committed, h.committed + i);
  }

  /** The window between head and next tag. */
  predicate InWindow(s: RobState, tag: nat) {
    SeqDistance(ROB_CAP, s.head, tag) < SeqDistance(ROB_CAP, s.head, s.nextTag)
  }

  ghost predicate NamesFlight(h: History, tag: nat) {
    exists i :: 0 <= i < |h.flight| && h.flight[i].entry.tag == tag
  }

  /** A tag names an instruction in flight exactly when it lies between the head and the next tag. */
  lemma {:induction false} LiveTagsAreTheWindow(s: RobState, h: History, tag: nat)
    requires RobInv(s, h) && WellFormed(ROB_CAP, tag)
    ensures NamesFlight(h, tag) <==> InWindow(s, tag)
  {
    hide Slot, Encode, SeqDistance, RobInv;
    OccupancyIs(s, h);
    AtMostFull(s, h);
    WellFormedHead(s, h);
    if InWindow(s, tag) {
      var d := SeqDistance(ROB_CAP, s.head, tag);
      SeqDistanceIsNat(ROB_CAP, s.head, tag);
      LiveTagDistance(s, h, d);
      LiveTagsAreOrdered(ROB_CAP, s.head, tag, h.flight[d].entry.tag);
    } else if NamesFlight(h, tag) {
      var i :| 0 <= i < |h.flight| && h.flight[i].entry.tag == tag;
      LiveTagDistance(s, h, i);
      assert false;
    }
  }

  /**
    The program's own test looks at the slot alone. It is wrong about every tag whose entry is still
    there: that of an instruction that has just committed matches while others are in flight, but
    lies outside the window.
   */
  lemma {:induction false} CommittedTagStillMatches(s: RobState, h: History)
    requires RobInv(s, h) && |h.flight| > 1
    ensures RobShape(RobPop(s)) && MatchesTag(RobPop(s), h.flight[0].entry.tag)
    ensures !InWindow(RobPop(s), h.flight[0].entry.tag) && !NamesFlight(Committed(h), h.flight[0].entry.tag)
  {
    hide Slot, Encode, NextTag, RobInv, SeqDistance;
    RobCommit(s, h);
    RobOccupancy(RobPop(s), Committed(h));
    LiveTagMatches(s, h, 0);
    RobInvGivesShape(RobPop(s), Committed(h));
    LiveTagDistance(s, h, 0);
    forall i | 0 <= i < |Committed(h).flight| ensures Committed(h).flight[i].entry.tag != h.flight[0].entry.tag {
      DifferentTags(s, h, 0, i + 1);
    }
    LiveTagsAreTheWindow(RobPop(s), Committed(h), h.flight[0].entry.tag);
  }

  lemma DifferentTags(s: RobState, h: History, i: nat, j: nat)
    requires RobInv(s, h) && i < j < |h.flight|
    ensures h.flight[i].entry.tag != h.flight[j].entry.tag
  {
    hide Slot, Encode, SeqDistance;
    LiveTagDistance(s, h, i);
    LiveTagDistance(s, h, j);
  }

  /** So does the tag of an instruction that has just been squashed, while an older one is in flight. */
  lemma {:induction false} SquashedTagStillMatches(s: RobState, h: History, j: nat, i: nat)
    requires RobInv(s, h) && j < i < |h.flight|
    ensures RobShape(RobFlush(s, h.flight[j].entry.tag))
    ensures MatchesTag(RobFlush(s, h.flight[j].entry.tag), h.flight[i].entry.tag)
    ensures !InWindow(RobFlush(s, h.flight[j].entry.tag), h.flight[i].entry.tag)
    ensures !NamesFlight(Squashed(h, j), h.flight[i].entry.tag)
  {
    hide Slot, Encode, NextTag, RobInv, SeqDistance;
    RobInvGivesShape(s, h);
    var flushed := RobFlush(s, h.flight[j].entry.tag);
    RobSquash(s, h, j);
    RobOccupancy(flushed, Squashed(h, j));
    LiveTagMatches(s, h, i);
    RobInvGivesShape(flushed, Squashed(h, j));
    LiveTagDistance(s, h, i);
    forall k | 0 <= k < j + 1 ensures Squashed(h, j).flight[k].entry.tag != h.flight[i].entry.tag {
      DifferentTags(s, h, k, i);
    }
    LiveTagsAreTheWindow(flushed, Squashed(h, j), h.flight[i].entry.tag);
  }

  // ---------- What stays in flight

  /** The squash of a tick does not cover the i-th instruction in flight. */
  predicate Uncovered(h: History, input: Input, i: nat)
    requires i < |h.flight|
  {
    input.squash.Some? ==> IsOlder(ROB_CAP, h.flight[i].entry.tag, input.squash.value.tag)
  }

  /** It cannot commit in this tick: it is not the oldest, or not finished. */
  predicate Unfinished(s: CoreState, i: nat)
    requires CoreShape(s)
  {
    i > 0 || !s.rob.queue[Slot(ROB_CAP, s.rob.head)].isCommitReady
  }

  lemma {:induction false} OlderIsInFront(s: RobState, h: History, i: nat, j: nat)
    requires RobInv(s, h) && i < |h.flight| && j < |h.flight|
    requires IsOlder(ROB_CAP, h.flight[i].entry.tag, h.flight[j].entry.tag)
    ensures i < j
  {
    hide Slot, Encode, IsOlder;
    assert RobLink(s, h, i) && RobLink(s, h, j);
    OlderIsEarlier(ROB_CAP, h.committed + i, h.committed + j);
  }

  /** An instruction that neither commits nor is squashed is in flight after the tick as well. */
  lemma {:induction false} StaysInFlight(s: CoreState, h: History, input: Input, now: nat, i: nat)
    requires CoreInv(s, h) && CoreShape(s) && Offered(s, h, input)
    requires i < |h.flight| && Uncovered(h, input, i) && Unfinished(s, i)
    ensures h.flight[i] in HistoryStep(s, h, input, now).flight
  {
    hide Slot, Encode, NextTag, IsOlder, RatInv, PrfInv, RobInv, TailInv, CkptInv, Chained, Partition, BuildPacket,
      CoreStep, NewFlight;
    var h1 := HistoryAfterEvent(s, h, input, now);
    if input.squash.Some? {
      OlderIsInFront(s.rob, h, i, Position(h, input.squash.value));
    }
    assert i < |h1.flight| && h1.flight[i] == h.flight[i];
    if WillCommit(s.rob, input.squash) {
      assert i > 0;
      assert Committed(h1).flight[i - 1] == h1.flight[i];
    }
  }
}
