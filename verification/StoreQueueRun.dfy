/**
  The store queue next to the renaming machinery: what issue, commit and squash do to both. In every
  run the stores that have not committed are the stores in flight, in order, and rename stage and
  memory arbiter together supply all that a tick of the store queue asks of its surroundings.
 */
module StoreQueueRun {
  import opened Arithmetic
  import opened Capacities
  import opened MemQueues
  import opened MemoryArbiter
  import opened Options
  import opened Rename
  import opened RenameCore
  import opened RenameInvariants
  import opened RenameTheorems
  import opened StoreForwarding
  import SQT = StoreQueueTick
  import opened Tags

  // ---------- The stores among the instructions in flight

  /** Their tags, oldest first. */
  function StoreTags(flight: seq<Flight>): (tags: seq<nat>)
    ensures |tags| == StoreCount(flight)
  {
    if flight == [] then []
    else
      var n := |flight| - 1;
      StoreTags(flight[..n]) + if flight[n].isStore then [flight[n].entry.tag] else []
  }

  /** Each of them is the tag of an instruction in flight; the first instruction comes first. */
  lemma {:induction false} StoreTagAt(flight: seq<Flight>, m: nat) returns (i: nat)
    requires m < |StoreTags(flight)|
    ensures i < |flight| && flight[i].isStore && flight[i].entry.tag == StoreTags(flight)[m]
    ensures m == 0 && flight[0].isStore ==> i == 0
    ensures m > 0 ==> i > 0
  {
    var n := |flight| - 1;
    if m < |StoreTags(flight[..n])| {
      i := StoreTagAt(flight[..n], m);
    } else {
      i := n;
      if n > 0 && flight[0].isStore {
        CountOfFirst(flight[..n]);
      }
    }
  }

  lemma {:induction false} CountOfFirst(flight: seq<Flight>)
    requires flight != [] && flight[0].isStore
    ensures StoreCount(flight) > 0
  {
    if |flight| > 1 {
      CountOfFirst(flight[..|flight| - 1]);
    }
  }

  lemma {:induction false} StoreTagsIssued(flight: seq<Flight>, f: Flight)
    ensures StoreTags(flight + [f]) == StoreTags(flight) + if f.isStore then [f.entry.tag] else []
  {
    assert (flight + [f])[..|flight|] == flight;
  }

  lemma {:induction false} StoreTagsPrefix(flight: seq<Flight>, n: nat)
    requires n <= |flight|
    ensures StoreCount(flight[..n]) <= StoreCount(flight)
    ensures StoreTags(flight[..n]) == StoreTags(flight)[..StoreCount(flight[..n])]
  {
    var last := |flight| - 1;
    if n == |flight| {
      assert flight[..n] == flight;
    } else {
      StoreTagsPrefix(flight[..last], n);
      assert flight[..last][..n] == flight[..n];
    }
  }

  lemma {:induction false} StoreTagsRest(flight: seq<Flight>)
    requires flight != []
    ensures StoreTags(flight) == (if flight[0].isStore then [flight[0].entry.tag] else []) + StoreTags(flight[1..])
  {
    var n := |flight| - 1;
    if n == 0 {
      assert flight[..0] == [] && flight[1..] == [];
    } else {
      StoreTagsRest(flight[..n]);
      assert flight[..n][1..] == flight[1..][..n - 1];
    }
  }

  // ---------- Queue and core agree

  /** The uncommitted stores of the queue are those in flight; behind head and committed ones lie the tails of both. */
  predicate Agrees(q: seq<SQEntry>, head: Position, c: nat, s: RobState, h: History) {
    && InOrder(q, s.head, c) && |q| < QUEUE_CAP
    && (head + c) % QUEUE_CAP == h.stores % QUEUE_CAP
    && |q| == c + StoreCount(h.flight)
    && forall k :: 0 <= k < StoreCount(h.flight) ==> q[c + k].robTag == StoreTags(h.flight)[k]
  }

  /** The register of the store queue that a squash returns to. */
  function SqTail(restored: Option<(nat, nat)>): Option<nat> {
    if restored.Some? then Some(restored.value.1) else None
  }

  function AsNumber(position: Option<Position>): Option<nat> {
    if position.Some? then Some(position.value) else None
  }

  /** The tag of a store that commits. */
  function CommittingStore(s: RobState, squash: Option<Squash>): Option<nat>
    requires RobShape(s)
  {
    if WillCommit(s, squash) && s.queue[Slot(ROB_CAP, s.head)].kind.STORE? then Some(s.head) else None
  }

  /** Issue, commit and squash of the queue are those of the core; a store leaves only when the arbiter lets it. */
  predicate SameTick(q: seq<SQEntry>, s: CoreState, input: Input, event: SQT.Input)
    requires CoreShape(s) && InputFits(s, input)
  {
    var packet := BuildPacket(s, input);
    && (event.issue.Some? <==> packet.Some? && packet.value.isStore)
    && (event.issue.Some? ==> event.issue.value.robTag == s.rob.nextTag && |q| < QUEUE_CAP - 1)
    && event.committing == CommittingStore(s.rob, input.squash)
    && AsNumber(event.restored) == SqTail(RestoredTails(s.rob, input.squash))
    && (event.dispatched ==> StoreMayLeave(q, event.committing))
  }

  /** The kind of the entry at the head is that of the oldest instruction in flight. */
  lemma {:induction false} HeadIsStore(s: CoreState, h: History, squash: Option<Squash>, j: nat)
    requires CoreInv(s, h) && CoreShape(s) && WillCommit(s.rob, squash)
    requires squash.Some? ==> Names(h, squash.value, j)
    ensures h.flight != [] && h.flight[0].entry.tag == s.rob.head
    ensures h.flight[0].isStore <==> CommittingStore(s.rob, squash).Some?
    ensures squash.Some? ==> 0 < j
  {
    hide Slot, Encode, RatInv, PrfInv, TailInv, CkptInv, Partition, WillCommit;
    CommitIsOldest(s.rob, h, squash, j);
    assert Link(TableBefore(h, 0), h.flight[0]);
    assert RobLink(s.rob, h, 0);
  }

  /** The restored tail lies right behind the named instruction's own store, or the ones before it. */
  lemma {:induction false} RestoredPosition(q: seq<SQEntry>, head: Position, c: nat, s: CoreState, h: History,
                                            squash: Squash, j: nat, restored: Position)
    requires CoreInv(s, h) && Names(h, squash, j) && Agrees(q, head, c, s.rob, h)
    requires CoreShape(s) && SqTail(RestoredTails(s.rob, Some(squash))) == Some(restored)
    ensures Ahead(head, restored) == c + StoreCount(h.flight[..j + 1]) <= |q|
  {
    hide Slot, Encode, RatInv, PrfInv, CkptInv, Chained, Partition, InOrder, RobInv, Ahead;
    RestoredTailsAre(s, h, squash, j);
    assert TailLink(h, j);
    StoreTagsPrefix(h.flight, j + 1);
    PositionOf(head, c, h.stores, StoreCount(h.flight[..j + 1]), restored);
  }

  lemma PositionOf(head: Position, c: nat, stores: nat, n: nat, restored: Position)
    requires (head + c) % QUEUE_CAP == stores % QUEUE_CAP && restored == (stores + n) % QUEUE_CAP
    requires c + n < QUEUE_CAP
    ensures Ahead(head, restored) == c + n
  {
    var d := (head + c) / QUEUE_CAP - stores / QUEUE_CAP;
    ModEqual(head + c + n, stores + n, d, QUEUE_CAP);
    StepAhead(head, head, c + n);
  }

  // ---------- What the surroundings supply

  /** The next tag is live, and younger than all in flight. */
  lemma {:induction false} NextTagIsYoungest(s: RobState, h: History)
    requires RobInv(s, h) && |h.flight| < ROB_CAP
    ensures Live(ROB_CAP, s.head, s.nextTag)
    ensures forall i :: 0 <= i < |h.flight| ==> IsOlder(ROB_CAP, h.flight[i].entry.tag, s.nextTag)
  {
    hide Slot, Encode, SeqDistance, IsOlder;
    var n := |h.flight|;
    WellFormedHead(s, h);
    DecodeEncoded(ROB_CAP, h.committed + n);
    DistanceIsExact(ROB_CAP, h.committed, h.committed + n);
    forall i | 0 <= i < n ensures IsOlder(ROB_CAP, h.flight[i].entry.tag, s.nextTag) {
      assert RobLink(s, h, i);
      OlderIsEarlier(ROB_CAP, h.committed + i, h.committed + n);
    }
  }

  /** A store is issued behind all others. */
  lemma {:induction false} IssueIsLegal(q: seq<SQEntry>, head: Position, c: nat, s: CoreState, h: History, input: Input)
    requires CoreInv(s, h) && CoreShape(s) && InputFits(s, input) && Agrees(q, head, c, s.rob, h)
    requires BuildPacket(s, input).Some? && BuildPacket(s, input).value.isStore
    ensures input.squash.None? && |h.flight| < ROB_CAP && !RobFull(s.rob)
    ensures Live(ROB_CAP, s.rob.head, s.rob.nextTag)
    ensures WillCommit(s.rob, None) ==> s.rob.nextTag != s.rob.head
    ensures forall k :: c <= k < |q| ==> IsOlder(ROB_CAP, q[k].robTag, s.rob.nextTag)
  {
    hide Slot, Encode, RatInv, PrfInv, TailInv, CkptInv, Chained, Partition, InOrder, IsOlder, Live, RobInv;
    RobOccupancy(s.rob, h);
    AtMostFull(s.rob, h);
    NextTagIsYoungest(s.rob, h);
    forall k | c <= k < |q| ensures IsOlder(ROB_CAP, q[k].robTag, s.rob.nextTag) {
      var i := StoreTagAt(h.flight, k - c);
      assert q[c + (k - c)].robTag == StoreTags(h.flight)[k - c];
    }
  }

  /** The first uncommitted store carries the oldest tag exactly when the oldest instruction is a store. */
  lemma {:induction false} FirstStore(q: seq<SQEntry>, head: Position, c: nat, s: RobState, h: History)
    requires RobInv(s, h) && Agrees(q, head, c, s, h) && h.flight != [] && h.flight[0].entry.tag == s.head
    ensures c < |q| && q[c].robTag == s.head <==> h.flight[0].isStore
  {
    hide Slot, Encode, InOrder, RobInv, SeqDistance;
    if c < |q| {
      assert q[c + 0].robTag == StoreTags(h.flight)[0];
      var i := StoreTagAt(h.flight, 0);
      if i > 0 {
        DifferentTags(s, h, 0, i);
      }
    }
    if h.flight[0].isStore {
      CountOfFirst(h.flight);
    }
  }

  /** How many stores have committed by the end of the tick. */
  lemma {:induction false} CommittedNowIs(q: seq<SQEntry>, head: Position, c: nat, s: CoreState, h: History,
                                          input: Input, event: SQT.Input)
    requires CoreInv(s, h) && CoreShape(s) && Offered(s, h, input) && Agrees(q, head, c, s.rob, h)
    requires SameTick(q, s, input, event)
    ensures SQT.CommittedNow(q, event, c)
         == c + if WillCommit(s.rob, input.squash) && h.flight != [] && h.flight[0].isStore then 1 else 0
    ensures WillCommit(s.rob, input.squash) && event.committing.None? && c < |q| ==> q[c].robTag != s.rob.head
    ensures event.committing.Some? ==> WillCommit(s.rob, input.squash) && event.committing.value == s.rob.head
  {
    hide CoreInv, Agrees, WillCommit, BuildPacket, RestoredTails, Slot;
    RobInvOf(s, h);
    if WillCommit(s.rob, input.squash) {
      HeadIsStore(s, h, input.squash, if input.squash.Some? then RenameCore.Position(h, input.squash.value) else 0);
      FirstStore(q, head, c, s.rob, h);
    }
  }

  /** Rename stage and memory arbiter supply what the tick of the store queue asks for. */
  lemma {:induction false} TickIsLegal(q: seq<SQEntry>, head: Position, c: nat, s: CoreState, h: History,
                                       input: Input, event: SQT.Input)
    requires CoreInv(s, h) && CoreShape(s) && Offered(s, h, input) && Agrees(q, head, c, s.rob, h)
    requires SameTick(q, s, input, event)
    ensures SQT.Legal(q, head, event, s.rob.head, c, WillCommit(s.rob, input.squash))
  {
    hide CoreInv, RobInv, InOrder, WillCommit, BuildPacket, MatchesTag, Slot, Live, IsOlder, Ahead, RatShape, PrfShape,
      CkptShape;
    CommittedNowIs(q, head, c, s, h, input, event);
    if event.issue.Some? {
      IssueIsLegal(q, head, c, s, h, input);
    }
    if event.dispatched {
      LeavingStoreIsCommitted(q, head, s.rob.head, c, event);
    }
    if event.restored.Some? {
      var j := RenameCore.Position(h, input.squash.value);
      RestoredPosition(q, head, c, s, h, input.squash.value, j, event.restored.value);
      if WillCommit(s.rob, input.squash) && h.flight[0].isStore {
        assert h.flight[..j + 1][0] == h.flight[0];
        CountOfFirst(h.flight[..j + 1]);
      }
    }
  }

  // ---------- After the tick

  /** The entries of a tick keep their tags, and the issued store comes last. */
  lemma {:induction false} WrittenTags(q: seq<SQEntry>, head: Position, event: SQT.Input)
    ensures var w := SQT.Written(q, head, event);
            && |w| == |q| + (if event.issue.Some? then 1 else 0)
            && (forall k :: 0 <= k < |q| ==> w[k].robTag == q[k].robTag)
            && (event.issue.Some? ==> w[|q|].robTag == event.issue.value.robTag)
  {
    hide Ahead, SQT.WithValues, SQT.WithCommit;
    var issued := SQT.WithIssue(q, event.issue);
    SQT.ValuesKeepOrder(issued, head, event.values);
  }

  /** The tags of the stores that are left after the tick: those committed by now in front, then the ones in flight. */
  predicate Tagged(q: seq<SQEntry>, c: nat, flight: seq<Flight>) {
    && |q| == c + StoreCount(flight)
    && forall k :: 0 <= k < StoreCount(flight) ==> q[c + k].robTag == StoreTags(flight)[k]
  }

  lemma {:induction false} TaggedAfterIssue(q: seq<SQEntry>, w: seq<SQEntry>, c: nat, flight: seq<Flight>, f: Flight)
    requires Tagged(q, c, flight) && |w| == |q| + (if f.isStore then 1 else 0)
    requires forall k :: 0 <= k < |q| ==> w[k].robTag == q[k].robTag
    requires f.isStore ==> w[|q|].robTag == f.entry.tag
    ensures Tagged(w, c, flight + [f])
  {
    hide StoreTags, StoreCount;
    var tags := StoreTags(flight);
    StoreTagsIssued(flight, f);
    assert |StoreTags(flight + [f])| == StoreCount(flight + [f]) && |tags| == StoreCount(flight);
    forall k | 0 <= k < StoreCount(flight + [f]) ensures w[c + k].robTag == StoreTags(flight + [f])[k] {
      if k < |tags| {
        assert StoreTags(flight + [f])[k] == tags[k];
      }
    }
  }

  lemma {:induction false} TaggedAfterSquash(q: seq<SQEntry>, w: seq<SQEntry>, c: nat, flight: seq<Flight>, n: nat)
    requires Tagged(q, c, flight) && n <= |flight| && |w| == |q|
    requires forall k :: 0 <= k < |q| ==> w[k].robTag == q[k].robTag
    ensures c + StoreCount(flight[..n]) <= |w| && Tagged(w[..c + StoreCount(flight[..n])], c, flight[..n])
  {
    StoreTagsPrefix(flight, n);
    var m := StoreCount(flight[..n]);
    forall k | 0 <= k < m ensures w[..c + m][c + k].robTag == StoreTags(flight[..n])[k] {
      assert StoreTags(flight)[..m][k] == StoreTags(flight)[k];
    }
  }

  lemma {:induction false} TaggedAfterCommit(q: seq<SQEntry>, c: nat, flight: seq<Flight>)
    requires Tagged(q, c, flight) && flight != []
    ensures Tagged(q, c + (if flight[0].isStore then 1 else 0), flight[1..])
  {
    StoreTagsRest(flight);
    var d := if flight[0].isStore then 1 else 0;
    forall k | 0 <= k < StoreCount(flight[1..]) ensures q[c + d + k].robTag == StoreTags(flight[1..])[k] {
      assert q[c + (d + k)].robTag == StoreTags(flight)[d + k];
    }
  }

  lemma TaggedAfterLeave(q: seq<SQEntry>, c: nat, flight: seq<Flight>)
    requires Tagged(q, c, flight) && c > 0
    ensures q != [] && Tagged(q[1..], c - 1, flight)
  {
  }

  /** The queue before anything leaves it agrees with the instructions in flight before the commit. */
  lemma {:induction false} TaggedAfterEvent(q: seq<SQEntry>, head: Position, c: nat, s: CoreState, h: History,
                                            input: Input, event: SQT.Input, now: nat)
    requires CoreInv(s, h) && CoreShape(s) && Offered(s, h, input) && Agrees(q, head, c, s.rob, h)
    requires SameTick(q, s, input, event)
    ensures Tagged(SQT.Kept(SQT.Written(q, head, event), head, event.restored), c,
                   HistoryAfterEvent(s, h, input, now).flight)
    ensures |SQT.Kept(SQT.Written(q, head, event), head, event.restored)| < QUEUE_CAP
  {
    hide CoreInv, RobInv, InOrder, WillCommit, BuildPacket, Slot, Ahead, RatShape, PrfShape, CkptShape,
      SQT.Written, Observe, CoreStep, StoreTags, StoreCount, MatchesTag;
    WrittenTags(q, head, event);
    var w := SQT.Written(q, head, event);
    var packet := BuildPacket(s, input);
    if packet.Some? {
      TaggedAfterIssue(q, w, c, h.flight, NewFlight(s, input, now));
    } else if input.squash.Some? {
      var j := RenameCore.Position(h, input.squash.value);
      RobInvOf(s, h);
      NamedMatches(s.rob, h, j);
      RestoredPosition(q, head, c, s, h, input.squash.value, j, event.restored.value);
      TaggedAfterSquash(q, w, c, h.flight, j + 1);
    }
  }

  lemma NamedMatches(s: RobState, h: History, j: nat)
    requires RobInv(s, h) && j < |h.flight|
    ensures RobShape(s) && MatchesTag(s, h.flight[j].entry.tag)
  {
    hide Slot, Encode;
    LiveTagMatches(s, h, j);
  }

  /** Head of the queue and number of committed stores after the tick. */
  function NextHead(head: Position, event: SQT.Input): Position {
    if event.dispatched then (head + 1) % QUEUE_CAP else head
  }

  function NextCommitted(q: seq<SQEntry>, c: nat, event: SQT.Input): int {
    SQT.CommittedNow(q, event, c) - if event.dispatched then 1 else 0
  }

  lemma HeadMoves(head: Position, c: nat, stores: nat, committed: nat, left: nat)
    requires (head + c) % QUEUE_CAP == stores % QUEUE_CAP && left <= 1 && left <= c + committed
    ensures ((head + left) % QUEUE_CAP + (c + committed - left)) % QUEUE_CAP == (stores + committed) % QUEUE_CAP
  {
    WrappedSum(head + left, c + committed - left, QUEUE_CAP);
    DivMod(head + c, QUEUE_CAP);
    DivMod(stores, QUEUE_CAP);
    ModEqual(head + c + committed, stores + committed, (head + c) / QUEUE_CAP - stores / QUEUE_CAP, QUEUE_CAP);
  }

  lemma HeadAfterTick(s: CoreState, input: Input)
    requires CoreShape(s) && InputFits(s, input)
    ensures CoreStep(s, input).rob.head
         == if WillCommit(s.rob, input.squash) then NextTag(ROB_CAP, s.rob.head) else s.rob.head
  {
    hide Slot, NextTag, WillCommit, BuildPacket, SetAllReady, Surviving, RatStep, PrfStep, CkptStep, TailStep,
      RestoredTails;
  }

  /** Commit and departure after the other events. */
  lemma {:induction false} TaggedAfterTick(kept: seq<SQEntry>, c: nat, h1: History, commits: bool, dispatched: bool)
    requires Tagged(kept, c, h1.flight) && |kept| < QUEUE_CAP && (commits ==> h1.flight != [])
    requires dispatched ==> c + (if commits && h1.flight[0].isStore then 1 else 0) > 0
    ensures var c' := c + (if commits && h1.flight[0].isStore then 1 else 0) - if dispatched then 1 else 0;
            && c' >= 0 && Tagged(SQT.Dispatched(kept, dispatched), c', (if commits then Committed(h1) else h1).flight)
            && |SQT.Dispatched(kept, dispatched)| < QUEUE_CAP
  {
    hide StoreTags, StoreCount;
    if commits {
      TaggedAfterCommit(kept, c, h1.flight);
    }
    if dispatched {
      TaggedAfterLeave(kept, c + (if commits && h1.flight[0].isStore then 1 else 0),
                       (if commits then Committed(h1) else h1).flight);
    }
  }

  /** The queue stays in order, for the head that the core has after the tick. */
  lemma {:induction false} OrderAfterTick(q: seq<SQEntry>, head: Position, c: nat, s: CoreState, h: History,
                                          input: Input, event: SQT.Input)
    requires CoreInv(s, h) && CoreShape(s) && Offered(s, h, input) && Agrees(q, head, c, s.rob, h)
    requires SameTick(q, s, input, event)
    ensures NextCommitted(q, c, event) >= 0
    ensures InOrder(SQT.StoreStep(q, head, event), CoreStep(s, input).rob.head, NextCommitted(q, c, event))
  {
    hide CoreInv, InOrder, WillCommit, CoreStep, StoreTags, StoreCount, NextTag, SameTick, SQT.CommittedNow,
      SQT.StoreStep, Slot, RatShape, PrfShape, CkptShape;
    TickIsLegal(q, head, c, s, h, input, event);
    SQT.TickKeepsOrder(q, head, event, s.rob.head, c, WillCommit(s.rob, input.squash));
    HeadAfterTick(s, input);
  }

  /** What the commit of a tick adds to the committed stores. */
  function NewlyCommitted(s: RobState, h: History, squash: Option<Squash>): nat
    requires RobShape(s)
  {
    if WillCommit(s, squash) && h.flight != [] && h.flight[0].isStore then 1 else 0
  }

  /** The queue after the tick holds the stores in flight after the tick. */
  lemma {:induction false} TagsAfterTick(q: seq<SQEntry>, head: Position, c: nat, s: CoreState, h: History,
                                         input: Input, event: SQT.Input, now: nat)
    requires CoreInv(s, h) && CoreShape(s) && Offered(s, h, input) && Agrees(q, head, c, s.rob, h)
    requires SameTick(q, s, input, event) && NextCommitted(q, c, event) >= 0
    ensures Tagged(SQT.StoreStep(q, head, event), NextCommitted(q, c, event), HistoryStep(s, h, input, now).flight)
    ensures |SQT.StoreStep(q, head, event)| < QUEUE_CAP
    ensures HistoryStep(s, h, input, now).stores == h.stores + NewlyCommitted(s.rob, h, input.squash)
    ensures SQT.CommittedNow(q, event, c) == c + NewlyCommitted(s.rob, h, input.squash)
  {
    hide CoreInv, Agrees, WillCommit, SameTick, Slot, RatShape, PrfShape, CkptShape, SQT.Written, SQT.Kept,
      SQT.Dispatched, SQT.CommittedNow, Tagged, HistoryAfterEvent;
    CommittedNowIs(q, head, c, s, h, input, event);
    TaggedAfterEvent(q, head, c, s, h, input, event, now);
    var h1, commits := HistoryAfterEvent(s, h, input, now), WillCommit(s.rob, input.squash);
    if commits {
      CommittedEntry(s, h, input, now);
    }
    SameCounters(s, h, input, now);
    TaggedAfterTick(SQT.Kept(SQT.Written(q, head, event), head, event.restored), c, h1, commits, event.dispatched);
  }

  /** Every tick keeps queue and core in agreement. */
  lemma {:induction false} TickKeepsAgreement(q: seq<SQEntry>, head: Position, c: nat, s: CoreState, h: History,
                                              input: Input, event: SQT.Input, now: nat)
    requires CoreInv(s, h) && CoreShape(s) && Offered(s, h, input) && Agrees(q, head, c, s.rob, h)
    requires SameTick(q, s, input, event)
    ensures NextCommitted(q, c, event) >= 0
    ensures Agrees(SQT.StoreStep(q, head, event), NextHead(head, event), NextCommitted(q, c, event),
                   CoreStep(s, input).rob, HistoryStep(s, h, input, now))
  {
    hide CoreInv, RatShape, PrfShape, CkptShape, Slot, Front, Agrees, SameTick, InOrder, Tagged, WillCommit, CoreStep,
      HistoryStep, SQT.StoreStep, SQT.CommittedNow, NextTag, IsOlder;
    OrderAfterTick(q, head, c, s, h, input, event);
    TagsAfterTick(q, head, c, s, h, input, event, now);
    CountersAgree(q, head, c, s.rob, h);
    HeadMoves(head, c, h.stores, NewlyCommitted(s.rob, h, input.squash), if event.dispatched then 1 else 0);
    AgreesWhen(SQT.StoreStep(q, head, event), NextHead(head, event), NextCommitted(q, c, event),
               CoreStep(s, input).rob, HistoryStep(s, h, input, now));
  }

  lemma CountersAgree(q: seq<SQEntry>, head: Position, c: nat, s: RobState, h: History)
    requires Agrees(q, head, c, s, h)
    ensures (head + c) % QUEUE_CAP == h.stores % QUEUE_CAP
  {
    hide InOrder, StoreTags;
  }

  lemma SameCounters(s: CoreState, h: History, input: Input, now: nat)
    requires CoreShape(s) && Offered(s, h, input)
    ensures HistoryAfterEvent(s, h, input, now).stores == h.stores
  {
  }

  lemma AgreesWhen(q: seq<SQEntry>, head: Position, c: nat, s: RobState, h: History)
    requires InOrder(q, s.head, c) && |q| < QUEUE_CAP && Tagged(q, c, h.flight)
    requires (head + c) % QUEUE_CAP == h.stores % QUEUE_CAP
    ensures Agrees(q, head, c, s, h)
  {
    hide InOrder;
  }

  // ---------- Runs

  datatype Queue = Queue(stores: seq<SQEntry>, head: Position, committed: nat)

  ghost predicate Follows(queue: Queue, inputs: seq<Input>) {
    && Reachable(inputs)
    && Agrees(queue.stores, queue.head, queue.committed, StateAfter(inputs).rob, HistoryAfter(inputs))
  }

  /** The events of the queue in the next tick are those of the core. */
  ghost predicate Fits(queue: Queue, inputs: seq<Input>, input: Input, event: SQT.Input)
    requires Follows(queue, inputs)
  {
    && Legal(StateAfter(inputs), HistoryAfter(inputs), input)
    && SameTick(queue.stores, StateAfter(inputs), input, event)
  }

  function Next(queue: Queue, event: SQT.Input): Queue
    requires NextCommitted(queue.stores, queue.committed, event) >= 0
  {
    Queue(SQT.StoreStep(queue.stores, queue.head, event), NextHead(queue.head, event),
          NextCommitted(queue.stores, queue.committed, event))
  }

  /** In every run, the tick of the store queue is legal, and queue and core agree again after it. */
  lemma {:induction false} EveryTickIsLegal(queue: Queue, inputs: seq<Input>, input: Input, event: SQT.Input)
    requires Follows(queue, inputs) && Fits(queue, inputs, input, event)
    ensures SQT.Legal(queue.stores, queue.head, event, StateAfter(inputs).rob.head, queue.committed,
                      WillCommit(StateAfter(inputs).rob, input.squash))
    ensures NextCommitted(queue.stores, queue.committed, event) >= 0
    ensures Follows(Next(queue, event), inputs + [input])
  {
    hide CoreInv, CoreShape, Agrees, SameTick, Reach, Reachable, StateAfter, HistoryAfter, CoreStep, HistoryStep, Safe,
      SQT.Legal, SQT.StoreStep, NextCommitted, WillCommit;
    var s, h := StateAfter(inputs), HistoryAfter(inputs);
    TickIsLegal(queue.stores, queue.head, queue.committed, s, h, input, event);
    TickKeepsAgreement(queue.stores, queue.head, queue.committed, s, h, input, event, |inputs|);
    ReachNext(inputs, input);
  }

  /** The queue after one more tick, if its events are those of the core. */
  ghost function NextIf(queue: Queue, inputs: seq<Input>, input: Input, event: SQT.Input): (r: Option<Queue>)
    requires Follows(queue, inputs)
    ensures r.Some? ==> Follows(r.value, inputs + [input])
  {
    hide Follows, Fits, SQT.Legal, SQT.StoreStep, NextCommitted, WillCommit, Next, StateAfter, HistoryAfter;
    if Fits(queue, inputs, input, event) then
      EveryTickIsLegal(queue, inputs, input, event);
      Some(Next(queue, event))
    else None
  }

  /** The queue after the given ticks, from reset, if its events were those of the core. */
  ghost function After(inputs: seq<Input>, events: seq<SQT.Input>): (r: Option<Queue>)
    requires |events| == |inputs|
    ensures r.Some? ==> Follows(r.value, inputs)
    decreases |inputs|
  {
    hide Follows, NextIf, EmptyQueue;
    if inputs == [] then
      EmptyAgrees(inputs);
      Some(EmptyQueue())
    else
      var n := |inputs| - 1;
      var before := After(inputs[..n], events[..n]);
      assert inputs[..n] + [inputs[n]] == inputs;
      if before.Some? then NextIf(before.value, inputs[..n], inputs[n], events[n]) else None
  }

  function EmptyQueue(): Queue {
    Queue([], 0, 0)
  }

  lemma EmptyAgrees(inputs: seq<Input>)
    requires inputs == []
    ensures Follows(EmptyQueue(), inputs)
  {
    hide CoreInv, CoreShape, Reach, Reachable, StateAfter, HistoryAfter;
    ResetIsReachable();
  }

  /** In every reachable state the queue holds the stores in flight, in age order, behind the committed ones. */
  lemma {:induction false} QueueHoldsTheStores(inputs: seq<Input>, events: seq<SQT.Input>)
    requires |events| == |inputs| && After(inputs, events).Some?
    ensures var queue := After(inputs, events).value;
            && Reachable(inputs) && |queue.stores| < QUEUE_CAP
            && InOrder(queue.stores, StateAfter(inputs).rob.head, queue.committed)
            && Tagged(queue.stores, queue.committed, HistoryAfter(inputs).flight)
  {
    hide InOrder, After, Reachable, StateAfter, HistoryAfter, StoreTags, CoreInv, CoreShape;
  }
}
