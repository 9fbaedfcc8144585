/**
  The load queue next to the renaming machinery. A load does not leave its queue when it commits but
  in a later tick without squash, by a test on tags. In every run the queue holds the loads that have
  committed and not yet left, and then those in flight; queue and reorder buffer together never span
  more allocations than the tags can tell apart, so that the test is exact.
 */
module LoadQueueRun {
  import opened Capacities
  import LoadReplies
  import LQT = LoadQueueTick
  import opened MemoryArbiter
  import opened MemQueues
  import opened Options
  import opened Rename
  import opened RenameCore
  import opened RenameInvariants
  import opened RenameTheorems
  import StoreQueueRun
  import opened StoreForwarding
  import opened Tags
  import UnguardedIssue

  // ---------- The loads among the instructions in flight

  /** Their numbers in the order of allocation; first is that of the oldest instruction. */
  function LoadPlaces(flight: seq<Flight>, first: nat): (places: seq<nat>)
    ensures |places| == LoadCount(flight)
  {
    if flight == [] then []
    else
      var n := |flight| - 1;
      LoadPlaces(flight[..n], first) + if flight[n].isLoad then [first + n] else []
  }

  /** Each of them is the number of an instruction in flight. */
  lemma {:induction false} PlaceAt(flight: seq<Flight>, first: nat, m: nat) returns (i: nat)
    requires m < |LoadPlaces(flight, first)|
    ensures i < |flight| && flight[i].isLoad && LoadPlaces(flight, first)[m] == first + i
  {
    var n := |flight| - 1;
    if m < |LoadPlaces(flight[..n], first)| {
      i := PlaceAt(flight[..n], first, m);
    } else {
      i := n;
    }
  }

  lemma PlacesIssued(flight: seq<Flight>, first: nat, f: Flight)
    ensures LoadPlaces(flight + [f], first)
         == LoadPlaces(flight, first) + if f.isLoad then [first + |flight|] else []
  {
    assert (flight + [f])[..|flight|] == flight;
  }

  lemma {:induction false} PlacesPrefix(flight: seq<Flight>, first: nat, n: nat)
    requires n <= |flight|
    ensures LoadCount(flight[..n]) <= LoadCount(flight)
    ensures LoadPlaces(flight[..n], first) == LoadPlaces(flight, first)[..LoadCount(flight[..n])]
  {
    var last := |flight| - 1;
    if n == |flight| {
      assert flight[..n] == flight;
    } else {
      PlacesPrefix(flight[..last], first, n);
      assert flight[..last][..n] == flight[..n];
    }
  }

  lemma PlacesOfOne(f: Flight, first: nat)
    ensures LoadPlaces([f], first) == if f.isLoad then [first] else []
    ensures LoadPlaces([], first + 1) == []
  {
    PlacesIssued([], first, f);
    assert [] + [f] == [f];
  }

  lemma {:induction false} PlacesRest(flight: seq<Flight>, first: nat)
    requires flight != []
    ensures LoadPlaces(flight, first)
         == (if flight[0].isLoad then [first] else []) + LoadPlaces(flight[1..], first + 1)
  {
    hide LoadPlaces;
    var n := |flight| - 1;
    if n == 0 {
      PlacesOfOne(flight[0], first);
      assert flight == [flight[0]] && flight[1..] == [];
    } else {
      var front, f := flight[..n], flight[n];
      PlacesRest(front, first);
      PlacesIssued(front, first, f);
      PlacesIssued(front[1..], first + 1, f);
      assert flight == front + [f] && flight[1..] == front[1..] + [f];
    }
  }

  // ---------- Queue and core agree

  /** late: the numbers of the loads that have committed and have not left the queue. */
  datatype Queue = Queue(loads: seq<LQEntry>, head: Position, late: seq<nat>)

  /** The loads carry the tags of these numbers. */
  predicate Tagged(loads: seq<LQEntry>, places: seq<nat>) {
    && |loads| == |places|
    && forall k :: 0 <= k < |loads| ==> loads[k].robTag == Encode(ROB_CAP, places[k])
  }

  predicate Late(late: seq<nat>, committed: nat) {
    && (forall k :: 0 <= k < |late| ==> late[k] < committed)
    && (forall k, l :: 0 <= k < l < |late| ==> late[k] < late[l])
  }

  /**
    From the first load of the queue to the next tag it is at most one round; one more only when a
    halt, or a word that does not decode, has just entered the full buffer.
   */
  predicate Spans(late: seq<nat>, h: History) {
    late != [] ==>
      var span := h.committed + |h.flight| - late[0];
      span <= ROB_CAP || (span == ROB_CAP + 1 && |h.flight| == ROB_CAP && !h.flight[ROB_CAP - 1].executes)
  }

  predicate LoadsExecute(h: History) {
    forall i :: 0 <= i < |h.flight| && h.flight[i].isLoad ==> h.flight[i].executes
  }

  predicate Agrees(q: Queue, h: History) {
    && Tagged(q.loads, q.late + LoadPlaces(h.flight, h.committed)) && |q.loads| < QUEUE_CAP
    && (q.head + |q.late|) % QUEUE_CAP == h.loads % QUEUE_CAP
    && Late(q.late, h.committed) && Spans(q.late, h) && LoadsExecute(h)
  }

  /** The test for the load at the head of the queue. */
  predicate Retires(loads: seq<LQEntry>, s: RobState, squash: Option<Squash>) {
    squash.None? && loads != [] && (RobEmpty(s) || IsOlder(ROB_CAP, loads[0].robTag, s.head))
  }

  /** The register of the load queue that a squash returns to. */
  function LqTail(restored: Option<(nat, nat)>): Option<nat> {
    if restored.Some? then Some(restored.value.0) else None
  }

  /** Issue, squash and retirement of the queue are those of the core. */
  predicate SameTick(loads: seq<LQEntry>, s: CoreState, input: Input, event: LQT.Input)
    requires CoreShape(s) && InputFits(s, input)
  {
    var packet := BuildPacket(s, input);
    && (event.issue.Some? <==> packet.Some? && packet.value.isLoad)
    && (event.issue.Some? ==> event.issue.value.robTag == s.rob.nextTag && |loads| < QUEUE_CAP - 1)
    && event.retires == Retires(loads, s.rob, input.squash)
    && StoreQueueRun.AsNumber(event.restored) == LqTail(RestoredTails(s.rob, input.squash))
  }

  /** How far committed loads of the queue are behind. */
  lemma {:induction false} LagIsBounded(q: Queue, h: History)
    requires Agrees(q, h) && q.late != [] && h.flight != []
    ensures 0 < h.committed - q.late[0] < ROB_CAP
  {
    hide Tagged, LoadPlaces, LoadsExecute;
  }

  /** Exactly the loads that have committed leave the queue. */
  lemma {:induction false} RetiresCommitted(q: Queue, s: RobState, h: History)
    requires RobInv(s, h) && Agrees(q, h)
    ensures Retires(q.loads, s, None) <==> q.late != []
  {
    hide Encode, Slot, IsOlder, RobLink, Late, Spans, LoadsExecute, RobEmpty;
    RobOccupancy(s, h);
    if q.late != [] && h.flight != [] {
      LagIsBounded(q, h);
      OlderIsEarlier(ROB_CAP, q.late[0], h.committed);
    } else if q.late == [] && q.loads != [] {
      var i := PlaceAt(h.flight, h.committed, 0);
      OlderIsEarlier(ROB_CAP, h.committed + i, h.committed);
    }
  }

  // ---------- After the tick

  lemma {:induction false} WrittenTags(loads: seq<LQEntry>, head: Position, event: LQT.Input)
    requires |loads| < QUEUE_CAP && (event.issue.Some? ==> |loads| < QUEUE_CAP - 1)
    ensures var w := LQT.Written(loads, head, event);
            && |w| == |loads| + (if event.issue.Some? then 1 else 0)
            && (forall k :: 0 <= k < |loads| ==> w[k].robTag == loads[k].robTag)
            && (event.issue.Some? ==> w[|loads|].robTag == event.issue.value.robTag)
  {
    hide LQT.LoadAfter, Step;
    var issued := LQT.WithIssue(loads, event.issue);
    forall k | 0 <= k < |issued| ensures LQT.Written(loads, head, event)[k].robTag == issued[k].robTag {
      LoadReplies.AfterKeeps(issued[k], Step(head, k), event);
    }
  }

  /** The restored tail lies right behind the named instruction, if it is a load, or the loads before it. */
  lemma {:induction false} RestoredPosition(q: Queue, s: CoreState, h: History, squash: Squash, j: nat,
                                            restored: Position)
    requires CoreInv(s, h) && Names(h, squash, j) && Agrees(q, h)
    requires CoreShape(s) && LqTail(RestoredTails(s.rob, Some(squash))) == Some(restored)
    ensures Ahead(q.head, restored) == |q.late| + LoadCount(h.flight[..j + 1]) <= |q.loads|
  {
    hide Slot, Encode, RatInv, PrfInv, CkptInv, Chained, Partition, RobInv, Ahead, Late, Spans, LoadsExecute;
    RestoredTailsAre(s, h, squash, j);
    assert TailLink(h, j);
    PlacesPrefix(h.flight, h.committed, j + 1);
    StoreQueueRun.PositionOf(q.head, |q.late|, h.loads, LoadCount(h.flight[..j + 1]), restored);
  }

  lemma {:induction false} TaggedAfterIssue(loads: seq<LQEntry>, w: seq<LQEntry>, late: seq<nat>,
                                            flight: seq<Flight>, first: nat, f: Flight)
    requires Tagged(loads, late + LoadPlaces(flight, first)) && |w| == |loads| + (if f.isLoad then 1 else 0)
    requires forall k :: 0 <= k < |loads| ==> w[k].robTag == loads[k].robTag
    requires f.isLoad ==> w[|loads|].robTag == Encode(ROB_CAP, first + |flight|)
    ensures Tagged(w, late + LoadPlaces(flight + [f], first))
  {
    hide Encode;
    PlacesIssued(flight, first, f);
  }

  lemma {:induction false} TaggedAfterSquash(loads: seq<LQEntry>, w: seq<LQEntry>, late: seq<nat>,
                                             flight: seq<Flight>, first: nat, n: nat)
    requires Tagged(loads, late + LoadPlaces(flight, first)) && n <= |flight| && |w| == |loads|
    requires forall k :: 0 <= k < |loads| ==> w[k].robTag == loads[k].robTag
    ensures |late| + LoadCount(flight[..n]) <= |w|
    ensures Tagged(w[..|late| + LoadCount(flight[..n])], late + LoadPlaces(flight[..n], first))
  {
    hide Encode;
    PlacesPrefix(flight, first, n);
    var all, kept := late + LoadPlaces(flight, first), late + LoadPlaces(flight[..n], first);
    assert kept == all[..|kept|];
  }

  /** The queue before anything leaves it agrees with the instructions in flight before the commit. */
  lemma {:induction false} TaggedAfterEvent(q: Queue, s: CoreState, h: History, input: Input, event: LQT.Input,
                                            now: nat)
    requires CoreInv(s, h) && CoreShape(s) && Offered(s, h, input) && Agrees(q, h)
    requires SameTick(q.loads, s, input, event)
    ensures Tagged(LQT.Kept(LQT.Written(q.loads, q.head, event), q.head, event.restored),
                   q.late + LoadPlaces(HistoryAfterEvent(s, h, input, now).flight, h.committed))
    ensures |LQT.Kept(LQT.Written(q.loads, q.head, event), q.head, event.restored)| < QUEUE_CAP
  {
    hide CoreInv, RobLink, WillCommit, BuildPacket, Slot, Ahead, RatShape, PrfShape, CkptShape, Encode, Late, Spans,
      LQT.Written, Observe, CoreStep, LoadPlaces, LoadCount, MatchesTag, Retires, LoadsExecute;
    WrittenTags(q.loads, q.head, event);
    RobInvOf(s, h);
    var w := LQT.Written(q.loads, q.head, event);
    var packet := BuildPacket(s, input);
    if packet.Some? {
      TaggedAfterIssue(q.loads, w, q.late, h.flight, h.committed, NewFlight(s, input, now));
    } else if input.squash.Some? {
      var j := RenameCore.Position(h, input.squash.value);
      StoreQueueRun.NamedMatches(s.rob, h, j);
      RestoredPosition(q, s, h, input.squash.value, j, event.restored.value);
      TaggedAfterSquash(q.loads, w, q.late, h.flight, h.committed, j + 1);
    }
  }

  /** What commits and what leaves in a tick. */
  predicate LoadCommits(s: RobState, h: History, squash: Option<Squash>)
    requires RobShape(s)
  {
    WillCommit(s, squash) && h.flight != [] && h.flight[0].isLoad
  }

  function NextLate(late: seq<nat>, retires: bool, commits: bool, committed: nat): seq<nat> {
    (if retires && late != [] then late[1..] else late) + if commits then [committed] else []
  }

  function Next(q: Queue, s: RobState, h: History, input: Input, event: LQT.Input): Queue
    requires RobShape(s) && |q.loads| < QUEUE_CAP && (event.issue.Some? ==> |q.loads| < QUEUE_CAP - 1)
  {
    Queue(LQT.LoadStep(q.loads, q.head, event), if event.retires then (q.head + 1) % QUEUE_CAP else q.head,
          NextLate(q.late, event.retires, LoadCommits(s, h, input.squash), h.committed))
  }

  lemma {:induction false} TaggedAfterTick(kept: seq<LQEntry>, late: seq<nat>, h1: History, commits: bool,
                                           retires: bool)
    requires Tagged(kept, late + LoadPlaces(h1.flight, h1.committed)) && |kept| < QUEUE_CAP
    requires (commits ==> h1.flight != []) && (retires ==> late != [])
    ensures var h' := if commits then Committed(h1) else h1;
            && Tagged(LQT.Left(kept, retires),
                      NextLate(late, retires, commits && h1.flight[0].isLoad, h1.committed)
                      + LoadPlaces(h'.flight, h'.committed))
            && |LQT.Left(kept, retires)| < QUEUE_CAP
  {
    hide LoadPlaces, Encode;
    if commits {
      PlacesRest(h1.flight, h1.committed);
    }
    var h' := if commits then Committed(h1) else h1;
    var before := late + LoadPlaces(h1.flight, h1.committed);
    var after := NextLate(late, retires, commits && h1.flight[0].isLoad, h1.committed)
                 + LoadPlaces(h'.flight, h'.committed);
    assert after == if retires then before[1..] else before;
  }

  /** The instruction that a tick adds; the full buffer takes only one that does not execute, for one that commits. */
  predicate Added(h: History, h1: History, commits: bool) {
    var n := |h.flight|;
    && |h1.flight| == n + 1 && h1.flight[..n] == h.flight
    && (h1.flight[n].isLoad ==> h1.flight[n].executes)
    && (n == ROB_CAP ==> commits && !h1.flight[n].executes)
  }

  /** How the instructions in flight become more or fewer before the commit. */
  predicate Evolves(h: History, h1: History, commits: bool, squashed: bool) {
    var n, m := |h.flight|, |h1.flight|;
    && n <= ROB_CAP && h1.committed == h.committed && h1.loads == h.loads
    && (commits ==> n > 0 && m > 0 && h1.flight[0] == h.flight[0])
    && (squashed ==> 0 < m <= n && h1.flight == h.flight[..m] && h1.flight[m - 1].executes)
    && (!squashed ==> h1.flight == h.flight || Added(h, h1, commits))
  }

  lemma {:induction false} TickEvolves(s: CoreState, h: History, input: Input, now: nat)
    requires CoreInv(s, h) && CoreShape(s) && Legal(s, h, input)
    ensures Evolves(h, HistoryAfterEvent(s, h, input, now), WillCommit(s.rob, input.squash), input.squash.Some?)
  {
    hide CoreInv, RobLink, WillCommit, Slot, RatShape, PrfShape, CkptShape, Encode, Observe, CoreStep, RobFull, Safe;
    RobInvOf(s, h);
    RobOccupancy(s.rob, h);
    if WillCommit(s.rob, input.squash) {
      CommittedEntry(s, h, input, now);
    }
    if BuildPacket(s, input).Some? && RobFull(s.rob) {
      UnguardedIssue.FullNeedsCommit(s, h, input);
    }
  }

  function AfterCommit(h1: History, commits: bool): History
    requires commits ==> h1.flight != []
  {
    if commits then Committed(h1) else h1
  }

  lemma {:induction false} LateAfter(late: seq<nat>, committed: nat, retires: bool, commits: bool)
    requires Late(late, committed)
    ensures Late(NextLate(late, retires, commits, committed), committed + if commits then 1 else 0)
    ensures Late(NextLate(late, retires, commits, committed), committed + 1)
  {
  }

  lemma {:induction false} LoadsStillExecute(h: History, h1: History, commits: bool, squashed: bool)
    requires Evolves(h, h1, commits, squashed) && LoadsExecute(h)
    ensures LoadsExecute(AfterCommit(h1, commits))
  {
    var n := |h.flight|;
    forall i | 0 <= i < |h1.flight| && h1.flight[i].isLoad ensures h1.flight[i].executes {
      if i < n {
        assert h1.flight[i] == h1.flight[..if squashed then |h1.flight| else n][i] == h.flight[i];
      }
    }
  }

  /** Queue and reorder buffer never span more than the tags can tell apart. */
  lemma {:induction false} SpansAfter(late: seq<nat>, h: History, h1: History, commits: bool, squashed: bool)
    requires Evolves(h, h1, commits, squashed) && Late(late, h.committed) && Spans(late, h)
    ensures var retires := !squashed && late != [];
            Spans(NextLate(late, retires, commits && h1.flight[0].isLoad, h.committed), AfterCommit(h1, commits))
  {
    var retires := !squashed && late != [];
    var late', h' := NextLate(late, retires, commits && h1.flight[0].isLoad, h.committed), AfterCommit(h1, commits);
    if late' != [] {
      assert h'.committed + |h'.flight| == h.committed + |h1.flight|;
      if late != [] && squashed {
        assert late'[0] == late[0];
        assert h1.flight[|h1.flight| - 1] == h.flight[|h1.flight| - 1];
      } else if late != [] {
        assert late'[0] > late[0];
      } else {
        assert late'[0] == h.committed;
      }
    }
  }

  /** Late loads, span and kinds after the tick. */
  lemma {:induction false} LateAfterTick(q: Queue, s: CoreState, h: History, input: Input, event: LQT.Input, now: nat)
    requires CoreInv(s, h) && CoreShape(s) && Legal(s, h, input) && Agrees(q, h)
    requires event.retires <==> input.squash.None? && q.late != []
    ensures var late' := NextLate(q.late, event.retires, LoadCommits(s.rob, h, input.squash), h.committed);
            var h' := HistoryStep(s, h, input, now);
            Late(late', h'.committed) && Spans(late', h') && LoadsExecute(h')
  {
    hide CoreInv, WillCommit, RatShape, PrfShape, CkptShape, HistoryAfterEvent, Legal, Offered, Tagged, Late, Spans,
      LoadsExecute, NextLate;
    LegalIsOffered(s, h, input);
    TickEvolves(s, h, input, now);
    var h1, commits := HistoryAfterEvent(s, h, input, now), WillCommit(s.rob, input.squash);
    LateAfter(q.late, h.committed, event.retires, LoadCommits(s.rob, h, input.squash));
    SpansAfter(q.late, h, h1, commits, input.squash.Some?);
    LoadsStillExecute(h, h1, commits, input.squash.Some?);
  }

  lemma PartsOf(q: Queue, h: History)
    requires Agrees(q, h)
    ensures Tagged(q.loads, q.late + LoadPlaces(h.flight, h.committed)) && |q.loads| < QUEUE_CAP
    ensures (q.head + |q.late|) % QUEUE_CAP == h.loads % QUEUE_CAP
  {
    hide Tagged, Late, Spans, LoadsExecute;
  }

  lemma AgreesWhen(q: Queue, h: History)
    requires Tagged(q.loads, q.late + LoadPlaces(h.flight, h.committed)) && |q.loads| < QUEUE_CAP
    requires (q.head + |q.late|) % QUEUE_CAP == h.loads % QUEUE_CAP
    requires Late(q.late, h.committed) && Spans(q.late, h) && LoadsExecute(h)
    ensures Agrees(q, h)
  {
    hide Tagged, Late, Spans, LoadsExecute;
  }

  lemma RetiresLate(q: Queue, s: RobState, h: History, squash: Option<Squash>)
    requires RobInv(s, h) && Agrees(q, h)
    ensures Retires(q.loads, s, squash) <==> squash.None? && q.late != []
  {
    hide RobInv, Agrees, IsOlder, RobEmpty;
    RetiresCommitted(q, s, h);
  }

  lemma LengthOfLate(late: seq<nat>, retires: bool, commits: bool, committed: nat)
    requires retires ==> late != []
    ensures |NextLate(late, retires, commits, committed)|
         == |late| + (if commits then 1 else 0) - if retires then 1 else 0
  {
  }

  /** Every tick keeps queue and core in agreement. */
  lemma {:induction false} TickKeepsAgreement(q: Queue, s: CoreState, h: History, input: Input, event: LQT.Input,
                                              now: nat)
    requires CoreInv(s, h) && CoreShape(s) && Legal(s, h, input) && Agrees(q, h)
    requires SameTick(q.loads, s, input, event)
    ensures |q.loads| < QUEUE_CAP && (event.issue.Some? ==> |q.loads| < QUEUE_CAP - 1)
    ensures Agrees(Next(q, s.rob, h, input, event), HistoryStep(s, h, input, now))
  {
    hide CoreInv, WillCommit, RatShape, PrfShape, CkptShape, HistoryAfterEvent, Legal, Tagged, Late, Spans, Slot,
      BuildPacket, LoadsExecute, NextLate, Retires, LQT.Written, LQT.Kept, LQT.Left, LoadPlaces, Offered, RobInv,
      RestoredTails, MatchesTag, Agrees, LoadCount;
    LegalIsOffered(s, h, input);
    RobInvOf(s, h);
    PartsOf(q, h);
    RetiresLate(q, s.rob, h, input.squash);
    TaggedAfterEvent(q, s, h, input, event, now);
    TickEvolves(s, h, input, now);
    var h1, commits := HistoryAfterEvent(s, h, input, now), WillCommit(s.rob, input.squash);
    var kept := LQT.Kept(LQT.Written(q.loads, q.head, event), q.head, event.restored);
    TaggedAfterTick(kept, q.late, h1, commits, event.retires);
    LateAfterTick(q, s, h, input, event, now);
    var loadCommits := LoadCommits(s.rob, h, input.squash);
    LengthOfLate(q.late, event.retires, loadCommits, h.committed);
    StoreQueueRun.HeadMoves(q.head, |q.late|, h.loads, if loadCommits then 1 else 0, if event.retires then 1 else 0);
    AgreesWhen(Next(q, s.rob, h, input, event), HistoryStep(s, h, input, now));
  }

  // ---------- What a squash keeps

  /** Loads behind the first n instructions have numbers behind them. */
  lemma {:induction false} PlaceBehind(flight: seq<Flight>, first: nat, n: nat, m: nat)
    requires n <= |flight| && LoadCount(flight[..n]) <= m < LoadCount(flight)
    ensures m < |LoadPlaces(flight, first)| && LoadPlaces(flight, first)[m] >= first + n
  {
    var last := |flight| - 1;
    assert flight[..|flight|] == flight;
    if m < LoadCount(flight[..last]) {
      assert flight[..last][..n] == flight[..n];
      PlaceBehind(flight[..last], first, n, m);
    }
  }

  /** And those among them smaller ones. */
  lemma {:induction false} PlaceBefore(flight: seq<Flight>, first: nat, n: nat, m: nat)
    requires n <= |flight| && m < LoadCount(flight[..n])
    ensures m < |LoadPlaces(flight, first)| && LoadPlaces(flight, first)[m] < first + n
  {
    PlacesPrefix(flight, first, n);
    var i := PlaceAt(flight[..n], first, m);
  }

  /** Numbers of committed loads and of the named instruction are less than a round apart. */
  lemma LateAndNamed(q: Queue, h: History, squash: Squash, j: nat, k: nat)
    requires Agrees(q, h) && Names(h, squash, j) && |h.flight| <= ROB_CAP && k < |q.late|
    ensures 0 < h.committed + j - q.late[k] < ROB_CAP
  {
    hide Tagged, LoadPlaces, LoadsExecute;
    assert q.late[k] >= q.late[0];
  }

  /** The restored tail keeps exactly the loads that are not younger than the named instruction. */
  lemma {:induction false} SquashKeepsByAge(q: Queue, s: CoreState, h: History, squash: Squash, j: nat,
                                            restored: Position, k: nat)
    requires CoreInv(s, h) && Names(h, squash, j) && Agrees(q, h) && k < |q.loads|
    requires CoreShape(s) && LqTail(RestoredTails(s.rob, Some(squash))) == Some(restored)
    ensures k < Ahead(q.head, restored) <==> !IsOlder(ROB_CAP, squash.tag, q.loads[k].robTag)
  {
    hide RatInv, PrfInv, CkptInv, TailInv, Chained, Partition, Encode, Slot, IsOlder, Ahead, Late, Spans, LoadPlaces,
      LoadsExecute, RatShape, PrfShape, CkptShape, MatchesTag, LoadCount;
    RestoredPosition(q, s, h, squash, j, restored);
    assert RobLink(s.rob, h, j);
    var c, kept := |q.late|, LoadCount(h.flight[..j + 1]);
    if k < c {
      LateAndNamed(q, h, squash, j, k);
      OlderIsEarlier(ROB_CAP, h.committed + j, q.late[k]);
    } else {
      var i := PlaceAt(h.flight, h.committed, k - c);
      if k - c < kept {
        PlaceBefore(h.flight, h.committed, j + 1, k - c);
      } else {
        PlaceBehind(h.flight, h.committed, j + 1, k - c);
      }
      OlderIsEarlier(ROB_CAP, h.committed + j, h.committed + i);
    }
  }

  // ---------- Loads that went too early

  /** The tag of an instruction one round in front of one in flight does not match. */
  lemma {:induction false} ReusedSlot(s: RobState, h: History, n: nat)
    requires RobInv(s, h) && h.committed <= n + ROB_CAP < h.committed + |h.flight|
    ensures !MatchesTag(s, Encode(ROB_CAP, n))
  {
    hide Encode, Slot;
    DecodeEncoded(ROB_CAP, n);
    assert RobLink(s, h, n + ROB_CAP - h.committed);
    NextRound(n);
  }

  /** The tag of a committed load that is still in the queue, if it matches, is older than all that is in flight. */
  lemma {:induction false} LateLoadIsOlder(q: Queue, s: RobState, h: History, k: nat, i: nat)
    requires RobInv(s, h) && Agrees(q, h) && k < |q.late| && i < |h.flight|
    requires MatchesTag(s, Encode(ROB_CAP, q.late[k]))
    ensures !IsOlder(ROB_CAP, h.flight[i].entry.tag, Encode(ROB_CAP, q.late[k]))
  {
    hide Encode, Slot, IsOlder, LoadPlaces, Tagged, LoadsExecute, MatchesTag;
    var n, all := q.late[k], h.committed + |h.flight|;
    assert n >= q.late[0];
    if n + ROB_CAP < all {
      ReusedSlot(s, h, n);
    }
    assert RobLink(s, h, i);
    OlderIsEarlier(ROB_CAP, h.committed + i, n);
  }

  /** One round later the slot is the same, and the tag is another one. */
  lemma NextRound(n: nat)
    ensures (n + ROB_CAP) % ROB_CAP == n % ROB_CAP && Encode(ROB_CAP, n + ROB_CAP) != Encode(ROB_CAP, n)
  {
    hide Encode, Slot, Epoch;
    DecodeEncoded(ROB_CAP, n);
    DecodeEncoded(ROB_CAP, n + ROB_CAP);
  }

  /** A load of the queue that matches and is younger than an instruction in flight is itself in flight. */
  lemma {:induction false} YoungerLoadIsInFlight(q: Queue, s: RobState, h: History, k: nat, i: nat) returns (j: nat)
    requires RobInv(s, h) && Agrees(q, h) && k < |q.loads| && i < |h.flight|
    requires MatchesTag(s, q.loads[k].robTag) && IsOlder(ROB_CAP, h.flight[i].entry.tag, q.loads[k].robTag)
    ensures j < |h.flight| && h.flight[j].entry.tag == q.loads[k].robTag
    ensures h.flight[j].isLoad && h.flight[j].executes
  {
    hide Encode, Slot, IsOlder, Late, Spans;
    if k < |q.late| {
      LateLoadIsOlder(q, s, h, k, i);
      assert false;
    }
    j := PlaceAt(h.flight, h.committed, k - |q.late|);
    assert RobLink(s, h, j);
  }

  // ---------- Which load is sent

  /** Numbers grow along the loads in flight. */
  lemma {:induction false} PlacesGrow(flight: seq<Flight>, first: nat, k: nat, l: nat)
    requires k < l < |LoadPlaces(flight, first)|
    ensures LoadPlaces(flight, first)[k] < LoadPlaces(flight, first)[l] < first + |flight|
  {
    var n := |flight| - 1;
    var i := PlaceAt(flight, first, l);
    if l < |LoadPlaces(flight[..n], first)| {
      PlacesGrow(flight[..n], first, k, l);
    } else {
      var j := PlaceAt(flight[..n], first, k);
    }
  }

  /** The load in front is the older one. */
  lemma {:induction false} QueueIsByAge(q: Queue, h: History, k: nat, l: nat)
    requires Agrees(q, h) && |h.flight| <= ROB_CAP && |q.late| <= k < |q.loads| && |q.late| <= l < |q.loads|
    ensures IsOlder(ROB_CAP, q.loads[k].robTag, q.loads[l].robTag) <==> k < l
  {
    hide Encode, IsOlder, LoadPlaces, Late, Spans, LoadsExecute;
    var c, places := |q.late|, LoadPlaces(h.flight, h.committed);
    var i := PlaceAt(h.flight, h.committed, k - c);
    var j := PlaceAt(h.flight, h.committed, l - c);
    if k < l {
      PlacesGrow(h.flight, h.committed, k - c, l - c);
    } else if l < k {
      PlacesGrow(h.flight, h.committed, l - c, k - c);
    }
    OlderIsEarlier(ROB_CAP, places[k - c], places[l - c]);
  }

  /** Its address is there, and it has neither been sent nor been given a value. */
  predicate Unsent(load: LQEntry) {
    load.isAddressReady && !load.valueState.FETCHING? && !load.valueState.READY?
  }

  /** The load that the arbiter selects is the oldest of those in flight that can be sent. */
  lemma {:induction false} OldestIsSelected(q: Queue, h: History, j: nat)
    requires Agrees(q, h) && |h.flight| <= ROB_CAP && |q.late| <= j < |q.loads|
    requires forall k :: 0 <= k < |q.late| ==> !Unsent(q.loads[k])
    ensures FirstWaiting(q.loads, j)
       <==> && Unsent(q.loads[j])
            && forall k :: |q.late| <= k < |q.loads| && IsOlder(ROB_CAP, q.loads[k].robTag, q.loads[j].robTag) ==>
                 !Unsent(q.loads[k])
  {
    hide Agrees, IsOlder;
    forall k | |q.late| <= k < |q.loads|
      ensures IsOlder(ROB_CAP, q.loads[k].robTag, q.loads[j].robTag) <==> k < j
    {
      QueueIsByAge(q, h, k, j);
    }
  }

  // ---------- Runs

  ghost predicate Follows(q: Queue, inputs: seq<Input>) {
    Reachable(inputs) && Agrees(q, HistoryAfter(inputs))
  }

  /** The events of the queue in the next tick are those of the core. */
  ghost predicate Fits(q: Queue, inputs: seq<Input>, input: Input, event: LQT.Input)
    requires Follows(q, inputs)
  {
    && Legal(StateAfter(inputs), HistoryAfter(inputs), input)
    && SameTick(q.loads, StateAfter(inputs), input, event)
  }

  /** The queue after one more tick, if its events are those of the core. */
  ghost function NextIf(q: Queue, inputs: seq<Input>, input: Input, event: LQT.Input): (r: Option<Queue>)
    requires Follows(q, inputs)
    ensures r.Some? ==> Follows(r.value, inputs + [input])
  {
    hide CoreInv, CoreShape, Agrees, SameTick, Reach, Reachable, StateAfter, HistoryAfter, CoreStep, HistoryStep, Legal,
      Next;
    if Fits(q, inputs, input, event) then
      var s, h := StateAfter(inputs), HistoryAfter(inputs);
      TickKeepsAgreement(q, s, h, input, event, |inputs|);
      ReachNext(inputs, input);
      Some(Next(q, s.rob, h, input, event))
    else None
  }

  /** The queue after the given ticks, from reset, if its events were those of the core. */
  ghost function After(inputs: seq<Input>, events: seq<LQT.Input>): (r: Option<Queue>)
    requires |events| == |inputs|
    ensures r.Some? ==> Follows(r.value, inputs)
    decreases |inputs|
  {
    hide Follows, NextIf, EmptyQueue;
    if inputs == [] then
      EmptyAgrees(inputs);
      Some(EmptyQueue())
    else
      var n := |inputs| - 1;
      var before := After(inputs[..n], events[..n]);
      assert inputs[..n] + [inputs[n]] == inputs;
      if before.Some? then NextIf(before.value, inputs[..n], inputs[n], events[n]) else None
  }

  function EmptyQueue(): Queue {
    Queue([], 0, [])
  }

  lemma EmptyAgrees(inputs: seq<Input>)
    requires inputs == []
    ensures Follows(EmptyQueue(), inputs)
  {
    hide CoreInv, CoreShape, Reach, Reachable, StateAfter, HistoryAfter;
    ResetIsReachable();
  }

  /**
    In every run from reset the load queue holds the committed loads that have not left yet, in front,
    and then the loads in flight, in program order; a tick without squash lets the first load leave
    exactly when it has committed.
   */
  lemma {:induction false} QueueHoldsTheLoads(inputs: seq<Input>, events: seq<LQT.Input>)
    requires |events| == |inputs| && After(inputs, events).Some?
    ensures var q := After(inputs, events).value;
            && Reachable(inputs) && |q.loads| < QUEUE_CAP
            && var s, h := StateAfter(inputs), HistoryAfter(inputs);
               && Tagged(q.loads, q.late + LoadPlaces(h.flight, h.committed))
               && Late(q.late, h.committed)
               && (Retires(q.loads, s.rob, None) <==> q.late != [])
  {
    hide After, Reachable, StateAfter, HistoryAfter, CoreInv, CoreShape, LoadPlaces, Tagged, Late, Spans, LoadsExecute,
      Retires;
    var q := After(inputs, events).value;
    RobInvOf(StateAfter(inputs), HistoryAfter(inputs));
    RetiresCommitted(q, StateAfter(inputs).rob, HistoryAfter(inputs));
  }
}
