/**
  From the reorder buffer to memory: stores leave their queue in the order in which they committed,
  each once and with the address and the value it had when it committed, so that the memory a program
  sees is the flat memory after the committed stores that have left.
 */
module StoreDrain {
  import opened Bits
  import opened Capacities
  import opened FlatMemory
  import opened MemQueues
  import opened MemoryHierarchy
  import opened Options
  import opened Rename
  import opened RenameCore
  import opened RenameInvariants
  import opened RenameTheorems
  import Run = StoreQueueRun
  import opened StoreForwarding
  import SQT = StoreQueueTick
  import opened Tags
  import opened TickLaws
  import opened UnguardedIssue

  // ---------- Stores that have all they need

  /** The store knows its address and its value. */
  predicate Complete(e: SQEntry) {
    e.isAddressReady && e.isValueReady
  }

  /** Values and addresses come for stores of the queue, and once for each. */
  predicate WritesOnce(q: seq<SQEntry>, head: Position, event: SQT.Input) {
    && (forall i :: 0 <= i < |event.values| ==>
          var p := Ahead(head, event.values[i].index); p < |q| && !q[p].isValueReady)
    && (event.address.Some? ==>
          var p := Ahead(head, event.address.value.index); p < |q| && !q[p].isAddressReady)
  }

  lemma {:induction false} ValuesSpare(q: seq<SQEntry>, head: Position, values: seq<SQT.ValueWrite>, k: nat)
    requires k < |q| && forall i :: 0 <= i < |values| ==> Ahead(head, values[i].index) != k
    ensures SQT.WithValues(q, head, values)[k] == q[k]
    decreases |values|
  {
    hide Ahead;
    if values != [] {
      var p := Ahead(head, values[0].index);
      var first := if p < |q| then q[p := q[p].(value := values[0].value, isValueReady := true)] else q;
      assert forall i :: 0 <= i < |values| - 1 ==> values[1..][i] == values[i + 1];
      ValuesSpare(first, head, values[1..], k);
    }
  }

  /** What is complete stays as it is, apart from committing. */
  predicate SameStore(e: SQEntry, e': SQEntry) {
    e'.(isCommitted := e.isCommitted) == e
  }

  lemma {:induction false} CompleteIsKept(q: seq<SQEntry>, head: Position, event: SQT.Input, k: nat)
    requires k < |q| && Complete(q[k]) && WritesOnce(q, head, event)
    ensures k < |SQT.Written(q, head, event)| && SameStore(q[k], SQT.Written(q, head, event)[k])
  {
    hide Ahead, SQT.WithValues;
    var issued := SQT.WithIssue(q, event.issue);
    assert issued[k] == q[k];
    ValuesSpare(issued, head, event.values, k);
  }

  /** Stores of the next state, in terms of the present one. */
  lemma {:induction false} NextStore(q: seq<SQEntry>, head: Position, event: SQT.Input, k: nat)
    requires k < |SQT.StoreStep(q, head, event)|
    ensures var d := if event.dispatched then 1 else 0;
            && k + d < |SQT.Written(q, head, event)|
            && SQT.StoreStep(q, head, event)[k] == SQT.Written(q, head, event)[k + d]
  {
    hide Ahead, SQT.Written;
  }

  // ---------- Queue, buffer and what has left

  /** The instruction with this tag, if it is in flight, may commit. */
  predicate ReadyFor(s: RobState, tag: nat)
    requires RobShape(s)
  {
    Slot(ROB_CAP, tag) < ROB_CAP && s.queue[Slot(ROB_CAP, tag)].isCommitReady
  }

  /** No uncommitted store is ready to commit without its address and its value. */
  predicate Backed(q: seq<SQEntry>, c: nat, s: RobState)
    requires RobShape(s)
  {
    forall k :: c <= k < |q| && ReadyFor(s, q[k].robTag) ==> Complete(q[k])
  }

  /** These stores are the committed ones, complete and as they were when they committed. */
  predicate Passed(commits: seq<SQEntry>, stores: seq<SQEntry>) {
    && |commits| == |stores|
    && forall k :: 0 <= k < |stores| ==> Complete(stores[k]) && SameStore(stores[k], commits[k])
  }

  /** commits: the stores that have committed since reset, in order; sent: those that have left the queue. */
  datatype Drain = Drain(queue: Run.Queue, commits: seq<SQEntry>, sent: seq<SQEntry>)

  ghost predicate InStep(d: Drain, s: RobState, h: History) {
    && Run.Agrees(d.queue.stores, d.queue.head, d.queue.committed, s, h)
    && RobShape(s) && Backed(d.queue.stores, d.queue.committed, s)
    && d.queue.committed <= |d.queue.stores|
    && Passed(d.commits, d.sent + d.queue.stores[..d.queue.committed])
  }

  /** Only complete stores are reported, and a store that is issued has not been reported yet. */
  predicate Reports(q: seq<SQEntry>, c: nat, s: RobState, input: Input, event: SQT.Input)
    requires RobShape(s)
  {
    var tags := Surviving(s, input.ready, input.squash);
    && (forall k :: c <= k < |q| && q[k].robTag in tags ==> Complete(q[k]))
    && (event.issue.Some? ==> event.issue.value.robTag !in tags)
  }

  // ---------- One tick

  /** The store that commits is the oldest uncommitted one of the queue, and it is complete. */
  lemma {:induction false} CommittingIsComplete(d: Drain, s: CoreState, h: History, input: Input)
    requires CoreInv(s, h) && CoreShape(s) && Offered(s, h, input) && InStep(d, s.rob, h)
    requires Run.NewlyCommitted(s.rob, h, input.squash) == 1
    ensures d.queue.committed < |d.queue.stores| && Complete(d.queue.stores[d.queue.committed])
    ensures d.queue.stores[d.queue.committed].robTag == h.flight[0].entry.tag
  {
    hide CoreInv, RobInv, Slot, Passed, Run.Agrees, WillCommit, InStep, Run.CommittingStore;
    RobInvOf(s, h);
    var q, c := d.queue.stores, d.queue.committed;
    assert Run.Agrees(q, d.queue.head, c, s.rob, h) && Backed(q, c, s.rob) by {
      PartsOf(d, s.rob, h);
    }
    var j := if input.squash.Some? then RenameCore.Position(h, input.squash.value) else 0;
    Run.HeadIsStore(s, h, input.squash, j);
    Run.FirstStore(q, d.queue.head, c, s.rob, h);
    HeadIsReady(s.rob, input.squash);
  }

  lemma PartsOf(d: Drain, s: RobState, h: History)
    requires InStep(d, s, h)
    ensures Run.Agrees(d.queue.stores, d.queue.head, d.queue.committed, s, h)
    ensures RobShape(s) && Backed(d.queue.stores, d.queue.committed, s)
  {
    hide Run.Agrees, Backed, Passed;
  }

  lemma HeadIsReady(s: RobState, squash: Option<Squash>)
    requires RobShape(s) && WillCommit(s, squash)
    ensures ReadyFor(s, s.head)
  {
    hide Slot;
  }

  /** What has left and what has committed after the tick. */
  function NextSent(q: seq<SQEntry>, sent: seq<SQEntry>, dispatched: bool): seq<SQEntry> {
    if dispatched && q != [] then sent + [q[0]] else sent
  }

  function NextCommits(q: seq<SQEntry>, head: Position, c: nat, commits: seq<SQEntry>, event: SQT.Input, n: nat)
    : seq<SQEntry>
  {
    if n == 1 && c < |SQT.Written(q, head, event)| then commits + [SQT.Written(q, head, event)[c]] else commits
  }

  /** Among the first stores of the queue nothing changes but the commit flag. */
  predicate FrontIsKept(q: seq<SQEntry>, w: seq<SQEntry>, m: nat) {
    m <= |q| <= |w| && forall k :: 0 <= k < m ==> Complete(q[k]) && SameStore(q[k], w[k])
  }

  lemma {:induction false} FrontStays(q: seq<SQEntry>, head: Position, event: SQT.Input, m: nat)
    requires m <= |q| && WritesOnce(q, head, event) && forall k :: 0 <= k < m ==> Complete(q[k])
    ensures FrontIsKept(q, SQT.Written(q, head, event), m)
  {
    hide SQT.Written, SQT.WithValues, Ahead, WritesOnce, SameStore;
    Run.WrittenTags(q, head, event);
    forall k | 0 <= k < m ensures SameStore(q[k], SQT.Written(q, head, event)[k]) {
      CompleteIsKept(q, head, event, k);
    }
  }

  /** The stores that have committed: the one that commits comes last. */
  lemma {:induction false} PassedByCommit(commits: seq<SQEntry>, sent: seq<SQEntry>, q: seq<SQEntry>,
                                          w: seq<SQEntry>, c: nat, n: nat)
    requires c + n <= |q| && n <= 1 && Passed(commits, sent + q[..c]) && FrontIsKept(q, w, c + n)
    ensures Passed(if n == 1 then commits + [w[c]] else commits, sent + w[..c + n])
  {
    var commits' := if n == 1 then commits + [w[c]] else commits;
    var stores, stores' := sent + q[..c], sent + w[..c + n];
    forall k | 0 <= k < |stores'| ensures Complete(stores'[k]) && SameStore(stores'[k], commits'[k]) {
      if k < |stores| {
        assert Complete(stores[k]) && SameStore(stores[k], commits[k]);
        if k >= |sent| {
          assert stores[k] == q[k - |sent|];
        } else {
          assert stores[k] == sent[k] == stores'[k];
        }
      } else {
        assert k == |sent| + c && stores'[k] == w[c] == commits'[k];
      }
    }
  }

  /** A store that leaves moves from the queue to what has left. */
  lemma {:induction false} PassedByLeaving(commits: seq<SQEntry>, sent: seq<SQEntry>, q: seq<SQEntry>,
                                           w: seq<SQEntry>, m: nat)
    requires 0 < m <= |q| && FrontIsKept(q, w, m) && Passed(commits, sent + w[..m])
    ensures Passed(commits, sent + [q[0]] + w[1..][..m - 1])
  {
    var stores, stores' := sent + w[..m], sent + [q[0]] + w[1..][..m - 1];
    forall k | 0 <= k < |stores'| ensures Complete(stores'[k]) && SameStore(stores'[k], commits[k]) {
      assert Complete(stores[k]) && SameStore(stores[k], commits[k]);
      if k < |sent| {
        assert stores'[k] == sent[k] == stores[k];
      } else if k == |sent| {
        assert stores'[k] == q[0] && stores[k] == w[0];
      } else {
        assert stores'[k] == w[1..][k - |sent| - 1] == w[k - |sent|] == stores[k];
      }
    }
  }

  /** The front of the next queue is the written one, shifted by the store that leaves. */
  lemma {:induction false} NextFront(q: seq<SQEntry>, head: Position, event: SQT.Input, m: nat)
    requires q != [] || !event.dispatched
    requires event.restored.Some? ==> m <= Ahead(head, event.restored.value)
    requires m <= |SQT.Written(q, head, event)| && (event.dispatched ==> m > 0)
    ensures var d := if event.dispatched then 1 else 0;
            && m - d <= |SQT.StoreStep(q, head, event)|
            && SQT.StoreStep(q, head, event)[..m - d] == SQT.Written(q, head, event)[d..][..m - d]
  {
    hide Ahead, SQT.Written;
  }

  /** The tick on sequences: n stores commit, and one leaves if it has committed by then. */
  lemma {:induction false} PassedByTick(q: seq<SQEntry>, head: Position, event: SQT.Input, c: nat, n: nat,
                                        commits: seq<SQEntry>, sent: seq<SQEntry>)
    requires c + n <= |q| && n <= 1 && Passed(commits, sent + q[..c]) && WritesOnce(q, head, event)
    requires n == 1 ==> Complete(q[c])
    requires event.dispatched ==> 0 < c + n
    requires event.restored.Some? ==> c + n <= Ahead(head, event.restored.value)
    ensures var c' := c + n - if event.dispatched then 1 else 0;
            && c' <= |SQT.StoreStep(q, head, event)|
            && Passed(NextCommits(q, head, c, commits, event, n),
                      NextSent(q, sent, event.dispatched) + SQT.StoreStep(q, head, event)[..c'])
  {
    hide WritesOnce, Ahead, SQT.StoreStep, SQT.Written, Complete, SameStore;
    var w := SQT.Written(q, head, event);
    forall k | 0 <= k < c + n ensures Complete(q[k]) {
      if k < c {
        assert (sent + q[..c])[|sent| + k] == q[k];
      }
    }
    FrontStays(q, head, event, c + n);
    PassedByCommit(commits, sent, q, w, c, n);
    NextFront(q, head, event, c + n);
    if event.dispatched {
      PassedByLeaving(NextCommits(q, head, c, commits, event, n), sent, q, w, c + n);
    }
  }

  /** What a legal tick of the queue says about departure and squash. */
  lemma LegalBounds(q: seq<SQEntry>, head: Position, event: SQT.Input, oldest: nat, c: nat, retires: bool)
    requires SQT.Legal(q, head, event, oldest, c, retires)
    ensures event.dispatched ==> 0 < SQT.CommittedNow(q, event, c)
    ensures event.restored.Some? ==> SQT.CommittedNow(q, event, c) <= Ahead(head, event.restored.value)
  {
    hide Ahead, Live, IsOlder, SQT.CommittedNow;
  }

  /** Every tick: sent and committed stores of the queue are those that have committed. */
  lemma {:induction false} PassedAfterTick(d: Drain, s: CoreState, h: History, input: Input, event: SQT.Input)
    requires CoreInv(s, h) && CoreShape(s) && Legal(s, h, input) && InStep(d, s.rob, h)
    requires Run.SameTick(d.queue.stores, s, input, event)
    requires WritesOnce(d.queue.stores, d.queue.head, event)
    ensures var q, c, n := d.queue.stores, d.queue.committed, Run.NewlyCommitted(s.rob, h, input.squash);
            var c', next := Run.NextCommitted(q, c, event), SQT.StoreStep(q, d.queue.head, event);
            && 0 <= c' <= |next|
            && Passed(NextCommits(q, d.queue.head, c, d.commits, event, n),
                      NextSent(q, d.sent, event.dispatched) + next[..c'])
  {
    hide CoreInv, CoreShape, Legal, Offered, Run.SameTick, WritesOnce, Run.Agrees, Backed, Passed,
      Ahead, SQT.CommittedNow, SQT.StoreStep, SQT.Written, SQT.Legal, WillCommit, NextCommits, NextSent;
    var q, head, c, n := d.queue.stores, d.queue.head, d.queue.committed, Run.NewlyCommitted(s.rob, h, input.squash);
    LegalIsOffered(s, h, input);
    Run.CommittedNowIs(q, head, c, s, h, input, event);
    Run.TickIsLegal(q, head, c, s, h, input, event);
    LegalBounds(q, head, event, s.rob.head, c, WillCommit(s.rob, input.squash));
    if n == 1 {
      CommittingIsComplete(d, s, h, input);
    }
    PassedByTick(q, head, event, c, n, d.commits, d.sent);
  }

  // ---------- What is ready stays complete

  /** The instruction in flight behind an uncommitted store that does not commit in this tick. */
  lemma {:induction false} StoreInFlight(d: Drain, s: RobState, h: History, squash: Option<Squash>, k: nat)
      returns (i: nat)
    requires RobInv(s, h) && InStep(d, s, h) && k < |d.queue.stores|
    requires d.queue.committed + Run.NewlyCommitted(s, h, squash) <= k
    ensures i < |h.flight| && h.flight[i].isStore && h.flight[i].entry.tag == d.queue.stores[k].robTag
    ensures WillCommit(s, squash) ==> i > 0
  {
    hide Slot, WillCommit, RobInv, InOrder, Backed, Passed, Ahead;
    var m := k - d.queue.committed;
    i := Run.StoreTagAt(h.flight, m);
    assert d.queue.stores[d.queue.committed + m].robTag == Run.StoreTags(h.flight)[m];
  }

  /** An old entry that is ready after the tick belongs to a store that is complete. */
  lemma {:induction false} OldStoreIsBacked(d: Drain, s: CoreState, h: History, input: Input, event: SQT.Input, k: nat)
    requires CoreInv(s, h) && CoreShape(s) && Legal(s, h, input) && InStep(d, s.rob, h)
    requires Reports(d.queue.stores, d.queue.committed, s.rob, input, event)
    requires k < |d.queue.stores| && d.queue.committed + Run.NewlyCommitted(s.rob, h, input.squash) <= k
    requires RobShape(CoreStep(s, input).rob) && ReadyFor(CoreStep(s, input).rob, d.queue.stores[k].robTag)
    ensures Complete(d.queue.stores[k])
  {
    hide CoreInv, CoreShape, Legal, Run.Agrees, Passed, WillCommit, CoreStep, RobInv, Slot, Surviving, Complete;
    RobInvOf(s, h);
    var i := StoreInFlight(d, s.rob, h, input.squash, k);
    LiveTagMatches(s.rob, h, i);
    ReadyAfterTick(s, h, input, i);
  }

  /** The entry of a store that is issued is not ready. */
  lemma {:induction false} NewStoreIsNotReady(q: seq<SQEntry>, head: Position, c: nat, s: CoreState, h: History,
                                              input: Input, event: SQT.Input)
    requires CoreInv(s, h) && CoreShape(s) && Legal(s, h, input) && Run.Agrees(q, head, c, s.rob, h)
    requires Run.SameTick(q, s, input, event) && event.issue.Some? && Reports(q, c, s.rob, input, event)
    requires RobShape(CoreStep(s, input).rob)
    ensures !ReadyFor(CoreStep(s, input).rob, event.issue.value.robTag)
  {
    hide CoreInv, RobInv, Run.Agrees, WillCommit, SetAllReady, Surviving, Slot, NextTag, Safe, RobFull,
      RatStep, PrfStep, CkptStep, TailStep, RestoredTails, RatShape, PrfShape, CkptShape, MatchesTag;
    var packet := BuildPacket(s, input);
    var tag, tags := s.rob.nextTag, Surviving(s.rob, input.ready, input.squash);
    RobInvOf(s, h);
    PushKeepsShape(s.rob, h, packet.value.robEntry);
    var pushed := RobPush(s.rob, packet.value.robEntry);
    NextSlotInRange(ROB_CAP, tag);
    if ReadyFor(CoreStep(s, input).rob, tag) {
      OnlyReportedBecomeReady(pushed, tags, Slot(ROB_CAP, tag));
    }
  }

  /** A store of the written queue that has not committed is complete if its instruction is ready. */
  lemma {:induction false} WrittenIsBacked(d: Drain, s: CoreState, h: History, input: Input, event: SQT.Input, k: nat)
    requires CoreInv(s, h) && CoreShape(s) && Legal(s, h, input) && InStep(d, s.rob, h)
    requires Run.SameTick(d.queue.stores, s, input, event)
    requires Reports(d.queue.stores, d.queue.committed, s.rob, input, event)
    requires WritesOnce(d.queue.stores, d.queue.head, event)
    requires k < |SQT.Written(d.queue.stores, d.queue.head, event)|
    requires d.queue.committed + Run.NewlyCommitted(s.rob, h, input.squash) <= k
    requires RobShape(CoreStep(s, input).rob)
    requires ReadyFor(CoreStep(s, input).rob, SQT.Written(d.queue.stores, d.queue.head, event)[k].robTag)
    ensures Complete(SQT.Written(d.queue.stores, d.queue.head, event)[k])
  {
    hide CoreInv, CoreShape, Legal, Run.SameTick, WritesOnce, Run.Agrees, Passed, Backed, CoreStep, ReadyFor, Reports,
      SQT.Written, Run.NewlyCommitted;
    var q, head := d.queue.stores, d.queue.head;
    Run.WrittenTags(q, head, event);
    if k < |q| {
      OldStoreIsBacked(d, s, h, input, event, k);
      CompleteIsKept(q, head, event, k);
    } else {
      NewStoreIsNotReady(q, head, d.queue.committed, s, h, input, event);
    }
  }

  /** Every tick: no uncommitted store is ready to commit without its address and its value. */
  lemma {:induction false} BackedAfterTick(d: Drain, s: CoreState, h: History, input: Input, event: SQT.Input)
    requires CoreInv(s, h) && CoreShape(s) && Legal(s, h, input) && InStep(d, s.rob, h)
    requires Run.SameTick(d.queue.stores, s, input, event)
    requires Reports(d.queue.stores, d.queue.committed, s.rob, input, event)
    requires WritesOnce(d.queue.stores, d.queue.head, event)
    requires RobShape(CoreStep(s, input).rob) && Run.NextCommitted(d.queue.stores, d.queue.committed, event) >= 0
    ensures Backed(SQT.StoreStep(d.queue.stores, d.queue.head, event),
                   Run.NextCommitted(d.queue.stores, d.queue.committed, event), CoreStep(s, input).rob)
  {
    hide CoreInv, Legal, Run.SameTick, WritesOnce, Run.Agrees, Passed, CoreStep, ReadyFor,
      Reports, SQT.Written, SQT.StoreStep, WillCommit, SQT.CommittedNow, InStep, Complete, SQT.Kept;
    var q, head, c := d.queue.stores, d.queue.head, d.queue.committed;
    assert Run.Agrees(q, head, c, s.rob, h) by {
      PartsOf(d, s.rob, h);
    }
    LegalIsOffered(s, h, input);
    Run.CommittedNowIs(q, head, c, s, h, input, event);
    var next, left := SQT.StoreStep(q, head, event), if event.dispatched then 1 else 0;
    forall k | Run.NextCommitted(q, c, event) <= k < |next| && ReadyFor(CoreStep(s, input).rob, next[k].robTag)
      ensures Complete(next[k])
    {
      NextStore(q, head, event, k);
      WrittenIsBacked(d, s, h, input, event, k + left);
    }
  }

  // ---------- What the memory sees

  const MEM_STORE_BIT: nat := 0x40

  /** The request of a store that leaves from the given place. */
  function StoreRequest(e: SQEntry, head: Position): MemRequest {
    MemRequest(MemOp.Store, e.value, e.address, false, e.nBytes, e.robTag % 0x100, head + MEM_STORE_BIT)
  }

  /** The store has a width of the instruction set and does not straddle a line. */
  predicate Storable(e: SQEntry) {
    (e.nBytes == 1 || e.nBytes == 2 || e.nBytes == 4) && e.address % BLOCK + e.nBytes <= BLOCK
  }

  predicate AllStorable(stores: seq<SQEntry>) {
    forall k :: 0 <= k < |stores| ==> Storable(stores[k])
  }

  /** A flat memory after these stores, one after the other. */
  function MemoryAfter(image: seq<u8>, stores: seq<SQEntry>): (mem: seq<u8>)
    requires AllStorable(stores)
    ensures |mem| == |image|
  {
    if stores == [] then image
    else
      var n := |stores| - 1;
      var e := stores[n];
      StoreBytes(MemoryAfter(image, stores[..n]), e.address, e.nBytes, ToUnsigned(e.value))
  }

  lemma {:induction false} MemoryNext(image: seq<u8>, stores: seq<SQEntry>, e: SQEntry, head: Position)
    requires AllStorable(stores) && Storable(e)
    ensures AllStorable(stores + [e])
    ensures FlatMemory.WellFormed(StoreRequest(e, head))
    ensures MemoryAfter(image, stores + [e]) == Apply(MemoryAfter(image, stores), StoreRequest(e, head))
  {
    assert (stores + [e])[..|stores|] == stores;
  }

  /** The memory holds the value of the store that was last. */
  lemma {:induction false} LastStoreIsThere(image: seq<u8>, stores: seq<SQEntry>, e: SQEntry, isSigned: bool)
    requires AllStorable(stores + [e]) && Storable(e) && e.address + e.nBytes <= |image|
    ensures Reads(LoadValue(MemoryAfter(image, stores + [e]), e.address, e.nBytes, isSigned), ToUnsigned(e.value),
                  e.nBytes, isSigned)
  {
    hide LoadValue, StoreBytes, Reads;
    assert (stores + [e])[..|stores|] == stores;
    StoreThenLoad(MemoryAfter(image, stores), e.address, e.nBytes, ToUnsigned(e.value), isSigned);
  }

  /** The commit flag does not matter to the memory. */
  lemma {:induction false} SameStoresSameMemory(image: seq<u8>, stores: seq<SQEntry>, stores': seq<SQEntry>)
    requires AllStorable(stores) && |stores'| == |stores|
    requires forall k :: 0 <= k < |stores| ==> SameStore(stores[k], stores'[k])
    ensures AllStorable(stores') && MemoryAfter(image, stores') == MemoryAfter(image, stores)
  {
    if stores != [] {
      var n := |stores| - 1;
      assert SameStore(stores[n], stores'[n]);
      SameStoresSameMemory(image, stores[..n], stores'[..n]);
      forall k | 0 <= k < |stores| ensures Storable(stores'[k]) {
        assert SameStore(stores[k], stores'[k]) && Storable(stores[k]);
      }
    }
  }

  // ---------- Runs

  /** The tags of the stores that have committed since reset, in program order. */
  ghost function StoresCommitted(inputs: seq<Input>): seq<nat>
    requires Reachable(inputs)
  {
    hide CoreInv, CoreShape, Legal, HistoryStep, CoreStep;
    if inputs == [] then []
    else
      var n := |inputs| - 1;
      ReachLast(inputs);
      StoresCommitted(inputs[..n]) + JustCommitted(inputs[..n], inputs[n])
  }

  ghost function JustCommitted(inputs: seq<Input>, input: Input): seq<nat>
    requires Reachable(inputs)
  {
    var h := HistoryAfter(inputs);
    if Run.NewlyCommitted(StateAfter(inputs).rob, h, input.squash) == 1 then [h.flight[0].entry.tag] else []
  }

  function TagsOf(stores: seq<SQEntry>): (tags: seq<nat>)
    ensures |tags| == |stores|
  {
    seq(|stores|, k requires 0 <= k < |stores| => stores[k].robTag)
  }

  ghost predicate Follows(d: Drain, inputs: seq<Input>) {
    && Reachable(inputs) && InStep(d, StateAfter(inputs).rob, HistoryAfter(inputs))
    && AllStorable(d.sent) && TagsOf(d.commits) == StoresCommitted(inputs)
  }

  /** What the queue is given is what the core does, and it comes for stores that wait for it. */
  ghost predicate Fits(d: Drain, inputs: seq<Input>, input: Input, event: SQT.Input)
    requires Follows(d, inputs)
  {
    var s, q := StateAfter(inputs), d.queue.stores;
    && Legal(s, HistoryAfter(inputs), input) && Run.SameTick(q, s, input, event)
    && WritesOnce(q, d.queue.head, event) && Reports(q, d.queue.committed, s.rob, input, event)
    && (event.dispatched ==> Storable(q[0]))
  }

  ghost function Next(d: Drain, inputs: seq<Input>, input: Input, event: SQT.Input): Drain
    requires Follows(d, inputs) && Run.NextCommitted(d.queue.stores, d.queue.committed, event) >= 0
  {
    Drain(Run.Next(d.queue, event),
          NextCommits(d.queue.stores, d.queue.head, d.queue.committed, d.commits, event,
                      Run.NewlyCommitted(StateAfter(inputs).rob, HistoryAfter(inputs), input.squash)),
          NextSent(d.queue.stores, d.sent, event.dispatched))
  }

  /** Queue and core after a tick. */
  lemma {:induction false} InStepNext(d: Drain, inputs: seq<Input>, input: Input, event: SQT.Input)
    requires Follows(d, inputs) && Fits(d, inputs, input, event)
    ensures Run.NextCommitted(d.queue.stores, d.queue.committed, event) >= 0 && Reachable(inputs + [input])
    ensures InStep(Next(d, inputs, input, event), StateAfter(inputs + [input]).rob, HistoryAfter(inputs + [input]))
  {
    hide CoreInv, Legal, Run.SameTick, WritesOnce, Run.Agrees, Passed, CoreStep, HistoryStep, Reports, RatShape,
      StateAfter, HistoryAfter, Reachable, SQT.StoreStep, WillCommit, SQT.CommittedNow, Backed, StoresCommitted, TagsOf,
      AllStorable, PrfShape, CkptShape, Run.NewlyCommitted, NextCommits, NextSent, Run.NextHead, Run.NextCommitted;
    var s, h := StateAfter(inputs), HistoryAfter(inputs);
    LegalIsOffered(s, h, input);
    Run.TickKeepsAgreement(d.queue.stores, d.queue.head, d.queue.committed, s, h, input, event, |inputs|);
    ReachNext(inputs, input);
    PassedAfterTick(d, s, h, input, event);
    BackedAfterTick(d, s, h, input, event);
  }

  /** The store that is added to the committed ones is the instruction that commits. */
  lemma {:induction false} TagsNext(d: Drain, inputs: seq<Input>, input: Input, event: SQT.Input)
    requires Follows(d, inputs) && Fits(d, inputs, input, event)
    requires Run.NextCommitted(d.queue.stores, d.queue.committed, event) >= 0 && Reachable(inputs + [input])
    ensures TagsOf(Next(d, inputs, input, event).commits) == StoresCommitted(inputs + [input])
  {
    hide CoreInv, Legal, Run.SameTick, WritesOnce, Reports, StateAfter, HistoryAfter, Reachable, InStep, RatShape,
      PrfShape, CkptShape, SQT.Written, SQT.StoreStep, WillCommit, SQT.CommittedNow, AllStorable, Run.NewlyCommitted,
      NextSent;
    assert (inputs + [input])[..|inputs|] == inputs;
    var s, h := StateAfter(inputs), HistoryAfter(inputs);
    if Run.NewlyCommitted(s.rob, h, input.squash) == 1 {
      LegalIsOffered(s, h, input);
      CommittingIsComplete(d, s, h, input);
      Run.WrittenTags(d.queue.stores, d.queue.head, event);
    }
  }

  /** One more tick of a run. */
  lemma {:induction false} FollowsNext(d: Drain, inputs: seq<Input>, input: Input, event: SQT.Input)
    requires Follows(d, inputs) && Fits(d, inputs, input, event)
    ensures Run.NextCommitted(d.queue.stores, d.queue.committed, event) >= 0
    ensures Follows(Next(d, inputs, input, event), inputs + [input])
  {
    hide CoreInv, CoreShape, Legal, Run.SameTick, WritesOnce, Reports, StateAfter, HistoryAfter, Reachable, InStep,
      SQT.Written, SQT.StoreStep, WillCommit, SQT.CommittedNow, StoresCommitted, TagsOf, Run.NewlyCommitted;
    InStepNext(d, inputs, input, event);
    TagsNext(d, inputs, input, event);
  }

  /** Queue, committed stores and sent stores after the given ticks from reset, if every one of them fits. */
  ghost function After(inputs: seq<Input>, events: seq<SQT.Input>): (r: Option<Drain>)
    requires |events| == |inputs|
    ensures r.Some? ==> Follows(r.value, inputs)
    decreases |inputs|
  {
    hide Follows, Fits, Next, StoresCommitted, EmptyDrain;
    if inputs == [] then
      EmptyFollows(inputs);
      Some(EmptyDrain())
    else
      var n := |inputs| - 1;
      var before := After(inputs[..n], events[..n]);
      assert inputs[..n] + [inputs[n]] == inputs;
      if before.Some? && Fits(before.value, inputs[..n], inputs[n], events[n])
      then
        FollowsNext(before.value, inputs[..n], inputs[n], events[n]);
        Some(Next(before.value, inputs[..n], inputs[n], events[n]))
      else None
  }

  function EmptyDrain(): Drain {
    Drain(Run.EmptyQueue(), [], [])
  }

  lemma EmptyFollows(inputs: seq<Input>)
    requires inputs == []
    ensures Follows(EmptyDrain(), inputs)
  {
    hide CoreInv, CoreShape, Reach, Reachable, StateAfter, HistoryAfter, Run.Agrees;
    Run.EmptyAgrees(inputs);
    ResetIsReachable();
    InvGivesShape(StateAfter(inputs), HistoryAfter(inputs));
  }

  /** The tags of committed stores are those of the stores they have become. */
  lemma {:induction false} TagsOfPassed(commits: seq<SQEntry>, stores: seq<SQEntry>)
    requires Passed(commits, stores)
    ensures TagsOf(stores) == TagsOf(commits)
  {
    forall k | 0 <= k < |stores| ensures stores[k].robTag == commits[k].robTag {
      assert SameStore(stores[k], commits[k]);
    }
  }

  lemma {:induction false} MemoryOfSent(image: seq<u8>, commits: seq<SQEntry>, sent: seq<SQEntry>, rest: seq<SQEntry>)
    requires Passed(commits, sent + rest) && AllStorable(sent)
    ensures |sent| <= |commits| && AllStorable(commits[..|sent|])
    ensures MemoryAfter(image, sent) == MemoryAfter(image, commits[..|sent|])
  {
    hide SameStore, Complete, AllStorable, MemoryAfter;
    forall k | 0 <= k < |sent| ensures SameStore(sent[k], commits[..|sent|][k]) {
      assert (sent + rest)[k] == sent[k];
    }
    SameStoresSameMemory(image, sent, commits[..|sent|]);
  }

  lemma FactsOf(d: Drain, inputs: seq<Input>)
    requires Follows(d, inputs)
    ensures Reachable(inputs) && d.queue.committed <= |d.queue.stores| < QUEUE_CAP
    ensures Passed(d.commits, d.sent + d.queue.stores[..d.queue.committed])
    ensures AllStorable(d.sent) && TagsOf(d.commits) == StoresCommitted(inputs)
  {
    hide InOrder, Backed, Passed, Reachable, StateAfter, HistoryAfter, StoresCommitted, AllStorable, TagsOf;
  }

  /**
    In every run from reset, the stores that have left the queue are the first of those that have
    committed, in program order, each once and as it was when it committed; the rest of them are the
    committed stores at the front of the queue.
   */
  lemma {:induction false} StoresLeaveInProgramOrder(inputs: seq<Input>, events: seq<SQT.Input>, image: seq<u8>)
    requires |events| == |inputs| && After(inputs, events).Some?
    ensures var d := After(inputs, events).value;
            var n := |d.sent|;
            && Reachable(inputs) && d.queue.committed <= |d.queue.stores| < QUEUE_CAP
            && Passed(d.commits, d.sent + d.queue.stores[..d.queue.committed])
            && TagsOf(d.sent + d.queue.stores[..d.queue.committed]) == StoresCommitted(inputs)
            && n <= |d.commits| && AllStorable(d.sent) && AllStorable(d.commits[..n])
            && MemoryAfter(image, d.sent) == MemoryAfter(image, d.commits[..n])
  {
    hide After, Follows, Passed, Reachable, StoresCommitted, MemoryAfter, AllStorable, TagsOf;
    var d := After(inputs, events).value;
    FactsOf(d, inputs);
    TagsOfPassed(d.commits, d.sent + d.queue.stores[..d.queue.committed]);
    MemoryOfSent(image, d.commits, d.sent, d.queue.stores[..d.queue.committed]);
  }

  // ---------- Store queue and memory as objects

  /** What queue and cache ask of a tick; a store that leaves has its address and its value. */
  predicate SafeTick(q: seq<SQEntry>, head: Position, event: SQT.Input) {
    && (event.issue.Some? ==> |q| < QUEUE_CAP - 1 && event.restored.None?)
    && (forall i :: 0 <= i < |event.values| ==> Ahead(head, event.values[i].index) < |q|)
    && (event.address.Some? ==> Ahead(head, event.address.value.index) < |q|)
    && (event.dispatched ==> q != [] && Complete(q[0]) && Storable(q[0]))
    && (event.restored.Some? ==> (if event.dispatched then 1 else 0) <= Ahead(head, event.restored.value) <= |q|)
  }

  /** Every tick of a run is safe: the arbiter never reads a value or an address that is not there. */
  lemma {:induction false} TickIsSafe(d: Drain, inputs: seq<Input>, input: Input, event: SQT.Input)
    requires Follows(d, inputs) && Fits(d, inputs, input, event)
    ensures SafeTick(d.queue.stores, d.queue.head, event)
  {
    hide CoreInv, Legal, Run.Agrees, Passed, CoreStep, Reports, RatShape, PrfShape, CkptShape, StateAfter, HistoryAfter,
      Reachable, WillCommit, Backed, StoresCommitted, TagsOf, AllStorable, Ahead, BuildPacket, Complete;
    var s, h, q, head, c := StateAfter(inputs), HistoryAfter(inputs), d.queue.stores, d.queue.head, d.queue.committed;
    LegalIsOffered(s, h, input);
    Run.TickIsLegal(q, head, c, s, h, input, event);
    Run.CommittedNowIs(q, head, c, s, h, input, event);
    if event.dispatched {
      LeavingIsComplete(d, s, h, input, event);
    }
  }

  /** A store that leaves has committed or commits now, and is complete. */
  lemma {:induction false} LeavingIsComplete(d: Drain, s: CoreState, h: History, input: Input, event: SQT.Input)
    requires CoreInv(s, h) && CoreShape(s) && Legal(s, h, input) && InStep(d, s.rob, h)
    requires Run.SameTick(d.queue.stores, s, input, event) && event.dispatched
    ensures d.queue.stores != [] && Complete(d.queue.stores[0])
  {
    hide CoreInv, CoreShape, Legal, Run.Agrees, Backed, SQT.Legal, WillCommit, Complete, SameStore;
    var q, c := d.queue.stores, d.queue.committed;
    LegalIsOffered(s, h, input);
    Run.CommittedNowIs(q, d.queue.head, c, s, h, input, event);
    Run.TickIsLegal(q, d.queue.head, c, s, h, input, event);
    LegalBounds(q, d.queue.head, event, s.rob.head, c, WillCommit(s.rob, input.squash));
    if c > 0 {
      assert (d.sent + q[..c])[|d.sent|] == q[0];
    } else {
      CommittingIsComplete(d, s, h, input);
    }
  }

  lemma {:induction false} AfterNext(inputs: seq<Input>, events: seq<SQT.Input>, input: Input, event: SQT.Input)
    requires |events| == |inputs| && After(inputs, events).Some?
    requires Fits(After(inputs, events).value, inputs, input, event)
    ensures Run.NextCommitted(After(inputs, events).value.queue.stores, After(inputs, events).value.queue.committed,
                              event) >= 0
    ensures After(inputs + [input], events + [event]) == Some(Next(After(inputs, events).value, inputs, input, event))
  {
    hide Follows, Fits, Next, StoresCommitted;
    FollowsNext(After(inputs, events).value, inputs, input, event);
    assert (inputs + [input])[..|inputs|] == inputs && (events + [event])[..|inputs|] == events;
  }

  lemma HeadIsSafe(sq: SQ, event: SQT.Input)
    requires sq.Valid() && SafeTick(sq.Contents(), sq.head, event) && event.dispatched
    ensures sq.Contents() != [] && sq.queue[sq.head] == sq.Contents()[0] && Storable(sq.Contents()[0])
  {
    hide Ahead, Complete, Storable;
    assert Step(sq.head, 0) == sq.head;
  }

  lemma SafeForQueue(sq: SQ, event: SQT.Input)
    requires sq.Valid() && SafeTick(sq.Contents(), sq.head, event)
    ensures event.issue.Some? ==> !sq.IsFull() && event.restored.None?
    ensures forall k :: 0 <= k < |event.values| ==> sq.IsActive(event.values[k].index)
    ensures event.address.Some? ==> sq.IsActive(event.address.value.index)
    ensures event.dispatched ==> !sq.IsEmpty()
    ensures event.restored.Some? ==>
              (if event.dispatched then 1 else 0) <= Ahead(sq.head, event.restored.value) <= Ahead(sq.head, sq.tail)
  {
    hide Ahead, Step, Complete, Storable;
    sq.FullMeansSeven();
  }

  /** Distinct objects. */
  ghost predicate Separate(sq: SQ, memory: Hierarchy)
    reads {}
  {
    && sq.Valid() && memory.dmem.mem as object != sq.queue && memory.cache.cacheSets as object != sq.queue
    && memory as object != sq && memory.cache as object != sq && memory.dmem as object != sq
  }

  /** One clock cycle of queue and memory: what leaves the queue goes to the cache, otherwise perhaps a load does. */
  method TickBoth(sq: SQ, memory: Hierarchy, event: SQT.Input, load: Option<MemRequest>)
      returns (response: LoadResponse)
    requires Separate(sq, memory) && memory.Valid() && SafeTick(sq.Contents(), sq.head, event)
    requires event.dispatched || load.Some? ==> !memory.cache.busy
    requires load.Some? ==> !event.dispatched && load.value.op.Load? && FlatMemory.WellFormed(load.value)
    modifies sq, sq.queue, memory, memory.cache, memory.cache.cacheSets, memory.dmem, memory.dmem.mem
    ensures memory.Valid() && sq.Contents() == SQT.StoreStep(old(sq.Contents()), old(sq.head), event)
    ensures sq.head == Run.NextHead(old(sq.head), event)
    ensures event.dispatched ==>
              var e := old(sq.Contents())[0];
              Storable(e) && memory.Logical() == Apply(old(memory.Logical()), StoreRequest(e, old(sq.head)))
    ensures !event.dispatched ==> memory.Logical() == old(memory.Logical())
  {
    hide Hierarchy.Valid, Hierarchy.Logical, Hierarchy.TicksLeft, Hierarchy.Misses, Hierarchy.Parked, Ahead,
      SQT.StoreStep, Active, Response, StoreBytes, Unrolled, SafeTick;
    var decision := load;
    if event.dispatched {
      HeadIsSafe(sq, event);
      decision := Some(StoreRequest(sq.queue[sq.head], sq.head));
    }
    SafeForQueue(sq, event);
    response := memory.Tick(decision);
    SQT.Tick(sq, event);
  }

  class Machine {
    const sq: SQ
    const memory: Hierarchy
    ghost const image: seq<u8>
    ghost var inputs: seq<Input>
    ghost var events: seq<SQT.Input>

    /** The queue is where the ticks so far lead to from reset, and memory holds the stores that have left it. */
    ghost predicate Valid()
      reads this, sq, sq.queue, memory, memory.cache, memory.cache.cacheSets, memory.dmem, memory.dmem.mem
    {
      && Separate(sq, memory) && this as object != memory && memory.Valid()
      && |events| == |inputs| && After(inputs, events).Some?
      && Holds(After(inputs, events).value, sq.Contents(), sq.head, memory.Logical(), image)
    }

    constructor (image: seq<u8>)
      requires |image| == MEM_SIZE
      ensures Valid() && this.image == image && inputs == [] && events == []
    {
      hide Reach, Reachable, Follows, Hierarchy.Valid, Hierarchy.Logical, Unrolled;
      sq := new SQ();
      memory := new Hierarchy(image);
      this.image, inputs, events := image, [], [];
    }

    /** One clock cycle of a run. */
    method Tick(ghost input: Input, event: SQT.Input, load: Option<MemRequest>) returns (response: LoadResponse)
      requires Valid() && Fits(After(inputs, events).value, inputs, input, event)
      requires event.dispatched || load.Some? ==> !memory.cache.busy
      requires load.Some? ==> !event.dispatched && load.value.op.Load? && FlatMemory.WellFormed(load.value)
      modifies this, sq, sq.queue, memory, memory.cache, memory.cache.cacheSets, memory.dmem, memory.dmem.mem
      ensures Valid() && inputs == old(inputs) + [input] && events == old(events) + [event]
    {
      hide After, Follows, Fits, Hierarchy.Valid, Hierarchy.Logical, Next, FlatMemory.WellFormed, SafeTick, Holds,
        SQT.StoreStep, Unrolled;
      ghost var d := After(inputs, events).value;
      ghost var head, contents, before := sq.head, sq.Contents(), memory.Logical();
      TickIsSafe(d, inputs, input, event);
      AfterNext(inputs, events, input, event);
      assert SafeTick(contents, head, event) by {
        HoldsQueue(d, contents, head, before, image);
      }
      response := TickBoth(sq, memory, event, load);
      HoldsNext(d, inputs, input, event, contents, head, before, memory.Logical(), image);
      inputs, events := inputs + [input], events + [event];
    }
  }

  /** Queue and memory are what the run says. */
  ghost predicate Holds(d: Drain, contents: seq<SQEntry>, head: Position, logical: seq<u8>, image: seq<u8>) {
    && contents == d.queue.stores && head == d.queue.head
    && AllStorable(d.sent) && logical == MemoryAfter(image, d.sent)
  }

  lemma HoldsQueue(d: Drain, contents: seq<SQEntry>, head: Position, logical: seq<u8>, image: seq<u8>)
    requires Holds(d, contents, head, logical, image)
    ensures contents == d.queue.stores && head == d.queue.head
  {
    hide MemoryAfter, AllStorable;
  }

  lemma {:induction false} HoldsNext(d: Drain, inputs: seq<Input>, input: Input, event: SQT.Input,
                                     contents: seq<SQEntry>, head: Position, logical: seq<u8>, logical': seq<u8>,
                                     image: seq<u8>)
    requires Follows(d, inputs) && Run.NextCommitted(d.queue.stores, d.queue.committed, event) >= 0
    requires Holds(d, contents, head, logical, image) && SafeTick(contents, head, event)
    requires event.dispatched ==>
               Storable(contents[0]) && logical' == Apply(logical, StoreRequest(contents[0], head))
    requires !event.dispatched ==> logical' == logical
    ensures Holds(Next(d, inputs, input, event), SQT.StoreStep(contents, head, event), Run.NextHead(head, event),
                  logical', image)
  {
    hide Follows, MemoryAfter, AllStorable, SQT.StoreStep, Ahead, Storable, Complete, Apply, NextCommits;
    if event.dispatched {
      MemoryNext(image, d.sent, contents[0], head);
    }
  }

  // ---------- A store that leaves

  const QUIET := SQT.Input(None, [], None, false, None, None)
  const REPORT := WARM.(ready := [Completion(0, false)])

  /** Issue, value, address, report, and in the tick of its commit the store leaves. */
  function StoreRun(): seq<Input> {
    WarmRun() + [UnguardedIssue.STORE] + [WARM] + [WARM] + [REPORT] + [WARM]
  }

  function StoreEvents(): seq<SQT.Input> {
    QuietRun(24) + [ISSUED] + [VALUED] + [ADDRESSED] + [QUIET] + [LEFT]
  }

  function QuietRun(n: nat): seq<SQT.Input> {
    seq(n, _ => QUIET)
  }

  const ISSUED := QUIET.(issue := Some(SQT.StoreIssue(0, 4)))
  const VALUED := QUIET.(values := [SQT.ValueWrite(0, 0)])
  const ADDRESSED := QUIET.(address := Some(SQT.AddressWrite(0, 16)))
  const LEFT := QUIET.(dispatched := true, committing := Some(0))
  const BLANK := EMPTY_STORE.(robTag := 0, nBytes := 4)
  const KNOWN := BLANK.(value := 0, isValueReady := true)
  const STORED := KNOWN.(address := 16, isAddressReady := true)

  /** In a tick in which nothing completes, the queue may be told of an issue, of values and of an address. */
  lemma {:induction false} StalledFits(d: Drain, inputs: seq<Input>, input: Input, event: SQT.Input)
    requires Follows(d, inputs) && NothingReady(StateAfter(inputs).rob, HistoryAfter(inputs))
    requires Stalls(input) && InputFits(StateAfter(inputs), input)
    requires var packet := BuildPacket(StateAfter(inputs), input);
             && (event.issue.Some? <==> packet.Some? && packet.value.isStore)
             && (event.issue.Some? ==>
                   event.issue.value.robTag == StateAfter(inputs).rob.nextTag && |d.queue.stores| < QUEUE_CAP - 1)
    requires event.committing.None? && event.restored.None? && !event.dispatched
    requires WritesOnce(d.queue.stores, d.queue.head, event)
    ensures Fits(d, inputs, input, event)
    ensures !WillCommit(StateAfter(inputs).rob, None)
  {
    hide CoreInv, InStep, Slot, StateAfter, HistoryAfter, Reachable, WillCommit, StoresCommitted, TagsOf, AllStorable,
      WritesOnce, BuildPacket, NothingReady;
    var s, h := StateAfter(inputs), HistoryAfter(inputs);
    StalledTick(s, h, input, |inputs|);
  }

  /** After these ticks from reset, the queue holds these stores from place 0 on, none of them committed. */
  ghost predicate Holding(inputs: seq<Input>, events: seq<SQT.Input>, q: seq<SQEntry>) {
    && |events| == |inputs| && After(inputs, events) == Some(Drain(Run.Queue(q, 0, 0), [], []))
  }

  /** Such a tick adds what the events say. */
  lemma {:induction false} HoldingNext(inputs: seq<Input>, events: seq<SQT.Input>, q: seq<SQEntry>, input: Input,
                                       event: SQT.Input)
    requires Holding(inputs, events, q) && Fits(Drain(Run.Queue(q, 0, 0), [], []), inputs, input, event)
    requires !WillCommit(StateAfter(inputs).rob, None) && input.squash.None?
    requires event.committing.None? && event.restored.None? && !event.dispatched
    ensures Holding(inputs + [input], events + [event], SQT.Written(q, 0, event))
  {
    hide After, Follows, Fits, WillCommit, StateAfter, HistoryAfter, Reachable, SQT.Written;
    AfterNext(inputs, events, input, event);
  }

  lemma {:induction false} QuietTick(inputs: seq<Input>, events: seq<SQT.Input>, issued: nat, ckpt: CkptState,
                                     input: Input)
    requires Stalled(inputs, issued, ckpt) && Stalls(input) && input.uop.None? && Holding(inputs, events, [])
    ensures Holding(inputs + [input], events + [QUIET], [])
  {
    hide After, Fits, InStep, WillCommit, StateAfter, HistoryAfter, Reachable, NothingReady, StoresCommitted;
    StalledFits(Drain(Run.Queue([], 0, 0), [], []), inputs, input, QUIET);
    HoldingNext(inputs, events, [], input, QUIET);
  }

  lemma HoldingAtReset()
    ensures Holding([], [], [])
  {
    hide Follows, Fits, Next, StoresCommitted;
  }

  lemma {:induction false} ColdHolding(n: nat)
    ensures Holding(ColdRun(n), QuietRun(n), [])
  {
    hide Holding, Stalled, Untouched;
    if n == 0 {
      HoldingAtReset();
    } else {
      ColdHolding(n - 1);
      Waiting(n - 1);
      QuietTick(ColdRun(n - 1), QuietRun(n - 1), 0, ColdIds(n - 1), COLD);
      assert QuietRun(n) == QuietRun(n - 1) + [QUIET];
    }
  }

  lemma {:induction false} WarmHolding()
    ensures Holding(WarmRun(), QuietRun(24), [])
  {
    hide Holding, Stalled, Untouched, ColdRun, CkptStep, ColdIds;
    ColdHolding(22);
    Waiting(22);
    WarmIds();
    QuietTick(ColdRun(22), QuietRun(22), 0, ColdIds(22), WARM);
    WarmIsStalled();
    QuietTick(ColdRun(22) + [WARM], QuietRun(22) + [QUIET], 0, CkptState(4, [1, 2, 3], [0], []), WARM);
    assert QuietRun(24) == QuietRun(22) + [QUIET] + [QUIET];
  }

  lemma {:induction false} WarmIsStalled()
    ensures Stalled(ColdRun(22) + [WARM], 0, CkptState(4, [1, 2, 3], [0], []))
  {
    hide Stalled, Untouched, ColdRun, CkptStep, ColdIds;
    Waiting(22);
    WarmIds();
    WarmTick(ColdRun(22), 0, ColdIds(22), WARM);
  }

  /** The store is the only instruction in flight, under tag 0. */
  ghost predicate OneStore(inputs: seq<Input>) {
    && Reachable(inputs) && |HistoryAfter(inputs).flight| == 1 && HistoryAfter(inputs).flight[0].isStore
    && HistoryAfter(inputs).flight[0].entry.tag == 0
  }

  /** The packet of the store, from reset. */
  lemma StorePacket(s: CoreState, h: History, now: nat)
    requires CoreShape(s) && RobInv(s.rob, h) && h == ResetHistory() && InputFits(s, UnguardedIssue.STORE)
    requires BuildPacket(s, UnguardedIssue.STORE).Some?
    ensures s.rob.nextTag == 0 && s.rob.head == 0 && BuildPacket(s, UnguardedIssue.STORE).value.isStore
    ensures NewFlight(s, UnguardedIssue.STORE, now).isStore
    ensures NewFlight(s, UnguardedIssue.STORE, now).entry.tag == 0
  {
    hide Slot, Encode, NextTag, CoreStep, RatShape, PrfShape, CkptShape, RobFull;
    EmptyTag(s.rob, h);
    FirstTag(ROB_CAP);
  }

  lemma {:induction false} StoreIssued()
    ensures var inputs := WarmRun();
            && Stalled(inputs + [UnguardedIssue.STORE], 1, SteadyIds(1)) && OneStore(inputs + [UnguardedIssue.STORE])
            && InputFits(StateAfter(inputs), UnguardedIssue.STORE) && StateAfter(inputs).rob.nextTag == 0
            && BuildPacket(StateAfter(inputs), UnguardedIssue.STORE).Some?
            && BuildPacket(StateAfter(inputs), UnguardedIssue.STORE).value.isStore
  {
    hide Reach, Reachable, StateAfter, HistoryAfter, NothingReady, CkptStep, SteadyIds, WarmRun, RatInv, PrfInv,
      TailInv, CkptInv, Chained, Partition, WillCommit, BuildPacket, NewFlight, ResetRat, ResetPrf, RatStep, RobInv,
      PrfStep, CoreStep, Safe;
    WarmUp();
    var s, h := StateAfter(WarmRun()), HistoryAfter(WarmRun());
    NextIds(0);
    SteadyHead(0);
    IssueTickOf(WarmRun(), 0, SteadyIds(0), UnguardedIssue.STORE);
    StorePacket(s, h, |WarmRun()|);
  }

  /** The queue after each tick of the run. */
  lemma QueueOfRun()
    ensures SQT.Written([], 0, ISSUED) == [BLANK] && SQT.Written([BLANK], 0, VALUED) == [KNOWN]
    ensures SQT.Written([KNOWN], 0, ADDRESSED) == [STORED] && SQT.Written([STORED], 0, QUIET) == [STORED]
    ensures WritesOnce([], 0, ISSUED) && WritesOnce([BLANK], 0, VALUED)
    ensures WritesOnce([KNOWN], 0, ADDRESSED) && WritesOnce([STORED], 0, QUIET)
  {
    assert VALUED.values[1..] == [];
  }

  lemma {:induction false} IssuedHolding()
    ensures Holding(WarmRun() + [UnguardedIssue.STORE], QuietRun(24) + [ISSUED], [BLANK])
  {
    hide Reach, Reachable, StateAfter, HistoryAfter, NothingReady, SteadyIds, WarmRun, After, Fits, InStep,
      StoresCommitted, CoreInv, CoreShape, WillCommit, BuildPacket, AllStorable, TagsOf, OneStore, ResetHistory,
      ResetRat, ResetPrf, InputFits, SQT.Written;
    WarmUp();
    WarmHolding();
    StoreIssued();
    QueueOfRun();
    StalledFits(Drain(Run.Queue([], 0, 0), [], []), WarmRun(), UnguardedIssue.STORE, ISSUED);
    HoldingNext(WarmRun(), QuietRun(24), [], UnguardedIssue.STORE, ISSUED);
  }

  lemma {:induction false} ValuedHolding()
    ensures var inputs := WarmRun() + [UnguardedIssue.STORE] + [WARM];
            && Holding(inputs, QuietRun(24) + [ISSUED] + [VALUED], [KNOWN]) && OneStore(inputs)
            && Stalled(inputs, 1, CkptStep(SteadyIds(1), true, true, false, None))
  {
    hide Reach, Reachable, StateAfter, HistoryAfter, NothingReady, SteadyIds, WarmRun, After, Fits, InStep,
      StoresCommitted, CoreInv, CoreShape, WillCommit, AllStorable, TagsOf, SQT.Written, CkptStep;
    var issued := WarmRun() + [UnguardedIssue.STORE];
    StoreIssued();
    IssuedHolding();
    QueueOfRun();
    WarmTick(issued, 1, SteadyIds(1), WARM);
    StalledFits(Drain(Run.Queue([BLANK], 0, 0), [], []), issued, WARM, VALUED);
    HoldingNext(issued, QuietRun(24) + [ISSUED], [BLANK], WARM, VALUED);
  }

  lemma {:induction false} AddressedHolding()
    ensures var inputs := WarmRun() + [UnguardedIssue.STORE] + [WARM] + [WARM];
            && Holding(inputs, QuietRun(24) + [ISSUED] + [VALUED] + [ADDRESSED], [STORED]) && OneStore(inputs)
            && NothingReady(StateAfter(inputs).rob, HistoryAfter(inputs))
  {
    hide Reach, Reachable, StateAfter, HistoryAfter, NothingReady, SteadyIds, WarmRun, After, Fits, InStep,
      StoresCommitted, CoreInv, CoreShape, WillCommit, AllStorable, TagsOf, SQT.Written, CkptStep, QuietRun;
    var inputs, events := WarmRun() + [UnguardedIssue.STORE] + [WARM], QuietRun(24) + [ISSUED] + [VALUED];
    ValuedHolding();
    QueueOfRun();
    WarmTick(inputs, 1, CkptStep(SteadyIds(1), true, true, false, None), WARM);
    StalledFits(Drain(Run.Queue([KNOWN], 0, 0), [], []), inputs, WARM, ADDRESSED);
    HoldingNext(inputs, events, [KNOWN], WARM, ADDRESSED);
  }

  /** The report of the only store makes the head ready. */
  lemma {:induction false} ReportTick(s: CoreState, h: History, now: nat)
    requires CoreInv(s, h) && CoreShape(s) && !WillCommit(s.rob, None)
    requires |h.flight| == 1 && h.flight[0].entry.tag == 0
    ensures Legal(s, h, REPORT) && BuildPacket(s, REPORT).None? && HistoryStep(s, h, REPORT, now) == h
    ensures Surviving(s.rob, REPORT.ready, None) == [0]
    ensures RobShape(CoreStep(s, REPORT).rob) && WillCommit(CoreStep(s, REPORT).rob, None)
  {
    hide CoreInv, RobInv, Slot, NextTag, RatStep, PrfStep, CkptStep, TailStep, RestoredTails, MatchesTag, RatShape,
      PrfShape, CkptShape;
    RobInvOf(s, h);
    LiveTagMatches(s.rob, h, 0);
    OldestTag(s.rob, h);
    RobOccupancy(s.rob, h);
    assert REPORT.ready[1..] == [];
    SetOne(s.rob);
  }

  lemma SetOne(s: RobState)
    requires RobShape(s) && MatchesTag(s, 0) && s.head == 0 && !RobEmpty(s)
    ensures SetAllReady(s, [0]) == SetReady(s, 0) && WillCommit(SetReady(s, 0), None)
  {
    hide Slot;
    assert SetAllReady(SetReady(s, 0), []) == SetReady(s, 0);
  }

  lemma {:induction false} ReportedHolding()
    ensures var inputs := WarmRun() + [UnguardedIssue.STORE] + [WARM] + [WARM] + [REPORT];
            && Holding(inputs, QuietRun(24) + [ISSUED] + [VALUED] + [ADDRESSED] + [QUIET], [STORED]) && OneStore(inputs)
            && WillCommit(StateAfter(inputs).rob, None)
  {
    hide Reach, Reachable, StateAfter, HistoryAfter, NothingReady, WarmRun, After, Legal, StoresCommitted, CoreInv,
      InStep, WillCommit, AllStorable, TagsOf, SQT.Written, CoreStep, HistoryStep, RatShape, PrfShape, CkptShape, Next,
      BuildPacket, Surviving, WritesOnce, QuietRun;
    var inputs := WarmRun() + [UnguardedIssue.STORE] + [WARM] + [WARM];
    var events := QuietRun(24) + [ISSUED] + [VALUED] + [ADDRESSED];
    AddressedHolding();
    QueueOfRun();
    var s, h := StateAfter(inputs), HistoryAfter(inputs);
    RobInvOf(s, h);
    NothingCommits(s.rob, h);
    ReportTick(s, h, |inputs|);
    ReachNext(inputs, REPORT);
    HoldingNext(inputs, events, [STORED], REPORT, QUIET);
  }

  /** After these ticks from reset, the given store, and no other, has left the queue. */
  ghost predicate Leaves(inputs: seq<Input>, events: seq<SQT.Input>, e: SQEntry) {
    && |events| == |inputs|
    && After(inputs, events) == Some(Drain(Run.Queue([], 1, 0), [e.(isCommitted := true)], [e]))
  }

  /** The tick of the commit fits. */
  lemma {:induction false} CommitTick(d: Drain, inputs: seq<Input>)
    requires d.queue == Run.Queue([STORED], 0, 0) && Follows(d, inputs) && OneStore(inputs)
    requires WillCommit(StateAfter(inputs).rob, None)
    ensures Fits(d, inputs, WARM, LEFT) && Run.NewlyCommitted(StateAfter(inputs).rob, HistoryAfter(inputs), None) == 1
  {
    hide Reachable, StateAfter, HistoryAfter, RatInv, PrfInv, TailInv, CkptInv, Chained, Partition, RobInv, InStep,
      WillCommit, AllStorable, TagsOf, Run.CommittingStore, StoresCommitted, RatShape, PrfShape, CkptShape;
    var s, h := StateAfter(inputs), HistoryAfter(inputs);
    Run.HeadIsStore(s, h, None, 0);
    OldestTag(s.rob, h);
    IsHead(s.rob);
    assert Surviving(s.rob, [], None) == [];
  }

  lemma IsHead(s: RobState)
    requires RobShape(s) && Run.CommittingStore(s, None).Some?
    ensures Run.CommittingStore(s, None) == Some(s.head)
  {
    hide Slot, WillCommit;
  }

  /** Queue, committed and sent stores behind the commit. */
  lemma {:induction false} AfterCommit(d: Drain, inputs: seq<Input>)
    requires d == Drain(Run.Queue([STORED], 0, 0), [], []) && Follows(d, inputs)
    requires Run.NewlyCommitted(StateAfter(inputs).rob, HistoryAfter(inputs), None) == 1
    ensures Run.NextCommitted([STORED], 0, LEFT) == 0
    ensures Next(d, inputs, WARM, LEFT) == Drain(Run.Queue([], 1, 0), [STORED.(isCommitted := true)], [STORED])
  {
    hide Reachable, StateAfter, HistoryAfter, Run.NewlyCommitted, InStep, StoresCommitted, AllStorable, TagsOf,
      SQT.Written;
    QueueOfCommit();
  }

  lemma QueueOfCommit()
    ensures SQT.Written([STORED], 0, LEFT) == [STORED.(isCommitted := true)] && SQT.StoreStep([STORED], 0, LEFT) == []
  {
  }

  /** Stores do leave: the one of this run in the tick of its commit. */
  lemma {:induction false} AStoreLeaves()
    ensures Leaves(StoreRun(), StoreEvents(), STORED)
  {
    hide Reachable, StateAfter, HistoryAfter, OneStore, Fits, Follows, WarmRun, After, StoresCommitted, WillCommit,
      SQT.Written, SQT.StoreStep, QuietRun, Run.NewlyCommitted, Next, Run.NextCommitted;
    var inputs := WarmRun() + [UnguardedIssue.STORE] + [WARM] + [WARM] + [REPORT];
    var events := QuietRun(24) + [ISSUED] + [VALUED] + [ADDRESSED] + [QUIET];
    ReportedHolding();
    var d := After(inputs, events).value;
    CommitTick(d, inputs);
    AfterCommit(d, inputs);
    AfterNext(inputs, events, WARM, LEFT);
  }
}
