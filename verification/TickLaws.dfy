/**
  What a tick of the renaming machinery does, in terms of the decoded instruction, the instructions in
  flight and their positions: when an instruction issues and what it changes, which entries become
  ready, and when the oldest one commits.
 */
module TickLaws {
  import opened Capacities
  import opened Options
  import opened Rename
  import opened RenameCore
  import opened RenameInvariants
  import opened RenameTheorems
  import opened Tags
  import UnguardedIssue

  // ---------- Issue

  /** An instruction issues exactly when it waits, no squash comes, and the program's tests let it through. */
  lemma {:induction false} IssuesExactly(s: CoreState, h: History, input: Input)
    requires CoreInv(s, h) && CoreShape(s) && Legal(s, h, input)
    ensures BuildPacket(s, input).Some?
       <==> && input.uop.Some? && input.squash.None?
            && (input.uop.value.kind.Halt? || input.uop.value.kind.Undecodable?
                || (input.room && |h.flight| < ROB_CAP))
  {
    hide Slot, CoreInv, RobFull, RobInv, Safe;
    LegalIsOffered(s, h, input);
    RobInvOf(s, h);
    RobOccupancy(s.rob, h);
    AtMostFull(s.rob, h);
    if input.uop.Some? && input.squash.None? && input.room && !RobFull(s.rob) {
      IssueNeverStarves(s, h, input);
    }
  }

  /** It takes a register exactly when it has a destination other than x0. */
  predicate Writes(uop: Uop) {
    (uop.kind.Arith? || uop.kind.Jump? || uop.kind.Load?) && uop.rd != 0
  }

  /** The register at the head of the free list. */
  function NextFree(s: PrfState): nat
    requires PrfShape(s)
  {
    s.freeList[Slot(PRF_CAP, s.headSeq)]
  }

  lemma {:induction false} NextFreeIsUnused(s: CoreState, h: History)
    requires CoreInv(s, h) && CoreShape(s) && s.prf.headSeq != s.prf.tailSeq
    ensures 0 < NextFree(s.prf) < PRF_CAP
    ensures forall r :: 0 < r < REGISTER_CAP ==> s.rat.table[r] != NextFree(s.prf)
    ensures NextFree(s.prf) !in Pending(LiveEntries(s.rob))
  {
    hide Slot, Encode, CoreInv, AllRegisters, Pending, LiveEntries, FreeCount, Occupancy, RobShape, CkptShape;
    PoppedIsFree(s, h);
    RegistersAreConserved(s, h);
    var p, mapped, pending := NextFree(s.prf), multiset(s.rat.table[1..]), multiset(Pending(LiveEntries(s.rob)));
    var free := multiset(FreeRegisters(s.prf));
    assert p in free;
    InThreeParts(p, mapped, pending, free);
    RealRegister(p);
    OncePerRegister(p);
    forall r | 0 < r < REGISTER_CAP ensures s.rat.table[r] != p {
      MappedIsMember(s.rat.table, r);
    }
  }

  lemma {:induction false} OncePerRegister(p: nat)
    requires 0 < p < PRF_CAP
    ensures multiset(AllRegisters())[p] == 1
  {
    var all := AllRegisters();
    assert all == all[..p - 1] + [p] + all[p..];
    assert p !in all[..p - 1] && p !in all[p..];
  }

  /**
    An instruction that writes a register is given the next free one, which is neither mapped nor
    pending; its destination is bound to it, and nothing else changes in the table. Any other
    instruction leaves table and free list as they are. What is left is saved under its checkpoint.
   */
  lemma {:induction false} RenamesExactly(s: CoreState, h: History, input: Input)
    requires CoreInv(s, h) && CoreShape(s) && Legal(s, h, input) && BuildPacket(s, input).Some?
    ensures var u, s', p := input.uop.value, CoreStep(s, input), NextFree(s.prf);
            if Writes(u) then
              && s'.rat.table == s.rat.table[u.rd := p] && s'.prf.headSeq == NextTag(PRF_CAP, s.prf.headSeq)
              && 0 < p < PRF_CAP && p !in Pending(LiveEntries(s.rob))
              && forall r :: 0 < r < REGISTER_CAP ==> s.rat.table[r] != p
            else s'.rat.table == s.rat.table && s'.prf.headSeq == s.prf.headSeq
    ensures var id, s' := if input.uop.value.kind.Undecodable? then 0 else s.ckpt.iq[0], CoreStep(s, input);
            && s'.rat.ckpt == s.rat.ckpt[id := s'.rat.table]
            && s'.prf.headCkpt == s.prf.headCkpt[id := s'.prf.headSeq]
  {
    hide Slot, NextTag, CoreInv, RobStep, CkptStep, TailStep, RestoredTails, Pending, LiveEntries, RobShape, CkptShape,
      RobFull, Safe, WillCommit;
    LegalIsOffered(s, h, input);
    if Writes(input.uop.value) {
      NextFreeIsUnused(s, h);
    }
  }

  /** Without an issue and without a squash, table, free-list head, tails and next tag stay. */
  lemma {:induction false} NothingIssued(s: CoreState, h: History, input: Input)
    requires CoreInv(s, h) && CoreShape(s) && Legal(s, h, input)
    requires BuildPacket(s, input).None? && input.squash.None?
    ensures Observe(CoreStep(s, input)) == Observe(s)
  {
    hide Slot, NextTag, CoreInv, CkptStep, RobShape, CkptShape, BuildPacket, Safe, WillCommit, SetAllReady, Surviving;
    LegalIsOffered(s, h, input);
  }

  /** The tails count loads and stores. */
  lemma {:induction false} TailsAdvance(s: CoreState, h: History, input: Input)
    requires CoreInv(s, h) && CoreShape(s) && Legal(s, h, input) && BuildPacket(s, input).Some?
    ensures var u, s' := input.uop.value, CoreStep(s, input);
            && s'.lqTail == (if u.kind.Load? then (s.lqTail + 1) % QUEUE_CAP else s.lqTail)
            && s'.sqTail == (if u.kind.Store? then (s.sqTail + 1) % QUEUE_CAP else s.sqTail)
            && s'.rob.nextTag == NextTag(ROB_CAP, s.rob.nextTag)
  {
    hide Slot, NextTag, CoreInv, RatStep, PrfStep, CkptStep, RobShape, CkptShape, RatShape, PrfShape, Safe, RobFull,
      WillCommit, SetAllReady, Surviving;
    LegalIsOffered(s, h, input);
  }

  /** What the buffer is told of an instruction. */
  predicate Describes(e: ROBEntry, u: Uop, tag: nat, id: nat) {
    && e.tag == tag
    && (e.kind.STORE? <==> u.kind.Store?) && (e.kind.BRANCH? <==> u.kind.Branch?) && (e.kind.LINK? <==> u.kind.Jump?)
    && (e.halt <==> u.kind.Halt?)
    && e.dest == (if u.kind.Branch? || u.kind.Store? || u.kind.Undecodable? then 0 else u.rd)
    && e.ckptId == (if u.kind.Undecodable? then 0 else id)
    && (!u.kind.Halt? && !u.kind.Undecodable? ==> e.pc == u.pc && e.predictedPC == u.predictedPC)
  }

  /** What it is told of the registers and of the queues. */
  predicate Remembers(e: ROBEntry, u: Uop, s: CoreState, lqTail: nat, sqTail: nat)
    requires CoreShape(s) && u.rd < REGISTER_CAP
  {
    && e.newPhy == (if Writes(u) then NextFree(s.prf) else INVALID_PHY)
    && e.oldPhy == (if Writes(u) then s.rat.table[u.rd] else INVALID_PHY)
    && (!u.kind.Halt? && !u.kind.Undecodable? ==> e.lqTailSnapshot == lqTail && e.sqTailSnapshot == sqTail)
  }

  /** The history records of an issue what the instruction is. */
  lemma {:induction false} FlightIsItsUop(s: CoreState, h: History, input: Input, now: nat)
    requires CoreInv(s, h) && CoreShape(s) && Legal(s, h, input) && BuildPacket(s, input).Some?
    ensures var u, s', f := input.uop.value, CoreStep(s, input), NewFlight(s, input, now);
            && Describes(f.entry, u, s.rob.nextTag, s.ckpt.iq[0])
            && Remembers(f.entry, u, s, s'.lqTail, s'.sqTail)
            && (f.entry.isCommitReady <==> u.kind.Halt?)
            && (f.executes <==> !u.kind.Halt? && !u.kind.Undecodable?)
            && (f.allocDest <==> Writes(u)) && (f.isLoad <==> u.kind.Load?) && (f.isStore <==> u.kind.Store?)
  {
    hide Slot, NextTag, CoreInv, RatStep, PrfStep, RobStep, CkptStep, RobShape, CkptShape, RatShape, PrfShape, Safe,
      RobFull, Observe;
    LegalIsOffered(s, h, input);
  }

  // ---------- Which entries of the buffer become ready

  lemma {:induction false} OnlyReportedBecomeReady(s: RobState, tags: seq<nat>, k: nat)
    requires RobShape(s) && k < ROB_CAP && SetAllReady(s, tags).queue[k].isCommitReady
    ensures s.queue[k].isCommitReady || s.queue[k].tag in tags
    decreases |tags|
  {
    hide Slot;
    if tags != [] {
      OnlyReportedBecomeReady(SetReady(s, tags[0]), tags[1..], k);
    }
  }

  /** An entry that is ready after the tick was ready before, or has been reported in it. */
  lemma {:induction false} ReadyAfterTick(s: CoreState, h: History, input: Input, i: nat)
    requires CoreInv(s, h) && CoreShape(s) && Legal(s, h, input) && i < |h.flight|
    requires WillCommit(s.rob, input.squash) ==> i > 0
    requires CoreStep(s, input).rob.queue[(h.committed + i) % ROB_CAP].isCommitReady
    ensures s.rob.queue[(h.committed + i) % ROB_CAP].isCommitReady
            || h.flight[i].entry.tag in Surviving(s.rob, input.ready, input.squash)
  {
    hide Slot, NextTag, CoreInv, SetAllReady, Surviving, BuildPacket, WillCommit, RobFull, RobInv, RobPush, Safe,
      RatStep, PrfStep, CkptStep, TailStep, RestoredTails, RatShape, PrfShape, CkptShape, MatchesTag;
    RobInvOf(s, h);
    var slot, packet := (h.committed + i) % ROB_CAP, BuildPacket(s, input);
    var tags := Surviving(s.rob, input.ready, input.squash);
    UnguardedIssue.EntryAtSlot(s.rob, h, i);
    if packet.Some? {
      if RobFull(s.rob) {
        UnguardedIssue.FullNeedsCommit(s, h, input);
      }
      UnguardedIssue.PushSpares(s.rob, h, packet.value.robEntry, i);
      UnguardedIssue.PushKeepsShape(s.rob, h, packet.value.robEntry);
      OnlyReportedBecomeReady(RobPush(s.rob, packet.value.robEntry), tags, slot);
    } else {
      OnlyReportedBecomeReady(s.rob, tags, slot);
    }
  }

  /** Once ready, an entry stays ready; one whose tag is among those that arrive becomes it. */
  lemma {:induction false} ReadySticks(s: RobState, tags: seq<nat>, k: nat)
    requires RobShape(s) && k < ROB_CAP
    requires s.queue[k].isCommitReady || (s.queue[k].tag in tags && MatchesTag(s, s.queue[k].tag)
                                          && Slot(ROB_CAP, s.queue[k].tag) == k)
    ensures SetAllReady(s, tags).queue[k].isCommitReady
    decreases |tags|
  {
    hide Slot;
    if tags != [] {
      ReadySticks(SetReady(s, tags[0]), tags[1..], k);
    }
  }

  lemma {:induction false} PassedOnSurvive(s: RobState, ready: seq<Completion>, squash: Option<Squash>, k: nat)
    requires RobShape(s) && k < |ready| && PassedOn(s, ready[k], squash)
    ensures ready[k].tag in Surviving(s, ready, squash)
  {
    hide PassedOn;
    if k > 0 {
      PassedOnSurvive(s, ready[1..], squash, k - 1);
    }
  }

  lemma {:induction false} SurvivingWerePassedOn(s: RobState, ready: seq<Completion>, squash: Option<Squash>, tag: nat)
    requires RobShape(s) && tag in Surviving(s, ready, squash)
    ensures exists k :: 0 <= k < |ready| && ready[k].tag == tag
    ensures squash.Some? ==> IsOlder(ROB_CAP, tag, squash.value.tag)
  {
    if !(ready[0].tag == tag && PassedOn(s, ready[0], squash)) {
      SurvivingWerePassedOn(s, ready[1..], squash, tag);
      var k :| 0 <= k < |ready| - 1 && ready[1..][k].tag == tag;
      assert ready[k + 1].tag == tag;
    }
  }

  /** A completion for the i-th instruction in flight, that no squash of the tick covers. */
  ghost predicate Completes(h: History, input: Input, i: nat)
    requires i < |h.flight|
  {
    && (exists k :: 0 <= k < |input.ready| && input.ready[k].tag == h.flight[i].entry.tag)
    && (input.squash.Some? ==> forall j :: Names(h, input.squash.value, j) ==> i < j)
  }

  lemma {:induction false} CompletedIsPassedOn(s: CoreState, h: History, input: Input, i: nat)
    requires CoreInv(s, h) && CoreShape(s) && Offered(s, h, input) && i < |h.flight|
    ensures h.flight[i].entry.tag in Surviving(s.rob, input.ready, input.squash) <==> Completes(h, input, i)
  {
    hide Slot, CoreInv, RobInv, MatchesTag, IsOlder, Surviving, RatShape, PrfShape, CkptShape;
    RobInvOf(s, h);
    LiveTagMatches(s.rob, h, i);
    var tag := h.flight[i].entry.tag;
    if tag in Surviving(s.rob, input.ready, input.squash) {
      SurvivingWerePassedOn(s.rob, input.ready, input.squash, tag);
      if input.squash.Some? {
        forall j | Names(h, input.squash.value, j) ensures i < j {
          OlderIsInFront(s.rob, h, i, j);
        }
      }
    }
    if Completes(h, input, i) {
      if input.squash.Some? {
        UnguardedIssue.InFrontIsOlder(s.rob, h, i, Position(h, input.squash.value));
      }
      var k :| 0 <= k < |input.ready| && input.ready[k].tag == tag;
      PassedOnSurvive(s.rob, input.ready, input.squash, k);
    }
  }

  /** Which entries are ready after a tick: those that were, and those completed in front of the squash. */
  lemma {:induction false} ReadyExactly(s: CoreState, h: History, input: Input, i: nat)
    requires CoreInv(s, h) && CoreShape(s) && Legal(s, h, input) && i < |h.flight|
    requires WillCommit(s.rob, input.squash) ==> i > 0
    ensures CoreStep(s, input).rob.queue[(h.committed + i) % ROB_CAP].isCommitReady
       <==> s.rob.queue[(h.committed + i) % ROB_CAP].isCommitReady || Completes(h, input, i)
  {
    hide Slot, NextTag, CoreInv, SetAllReady, Surviving, BuildPacket, WillCommit, RobFull, RobInv, RobPush, Safe,
      RatStep, PrfStep, CkptStep, TailStep, RestoredTails, RatShape, PrfShape, CkptShape, MatchesTag, Completes;
    RobInvOf(s, h);
    LegalIsOffered(s, h, input);
    CompletedIsPassedOn(s, h, input, i);
    UnguardedIssue.EntryAtSlot(s.rob, h, i);
    LiveTagMatches(s.rob, h, i);
    var slot, packet, tags := (h.committed + i) % ROB_CAP, BuildPacket(s, input),
                              Surviving(s.rob, input.ready, input.squash);
    if packet.Some? {
      if RobFull(s.rob) {
        UnguardedIssue.FullNeedsCommit(s, h, input);
      }
      UnguardedIssue.PushSpares(s.rob, h, packet.value.robEntry, i);
      UnguardedIssue.PushKeepsShape(s.rob, h, packet.value.robEntry);
    }
    var pushed := if packet.Some? then RobPush(s.rob, packet.value.robEntry) else s.rob;
    if s.rob.queue[slot].isCommitReady || Completes(h, input, i) {
      StillMatches(s, h, input, i);
      ReadySticks(pushed, tags, slot);
    }
    if CoreStep(s, input).rob.queue[slot].isCommitReady {
      ReadyAfterTick(s, h, input, i);
    }
  }

  lemma {:induction false} NotEmptyAfterIssue(s: RobState, h: History, entry: ROBEntry)
    requires RobInv(s, h)
    ensures !RobEmpty(RobPush(s, entry))
  {
    hide Slot, NextTag, Encode, RobLink;
    var n := |h.flight|;
    NextOfEncoded(ROB_CAP, h.committed + n);
    if n == ROB_CAP {
      NotEmptyAfterPush(s, h, entry);
    } else {
      FullAndEmpty(ROB_CAP, h.committed, n + 1);
    }
  }

  /** A push leaves the tag of an instruction that stays in flight where it is. */
  lemma {:induction false} StillMatches(s: CoreState, h: History, input: Input, i: nat)
    requires CoreInv(s, h) && CoreShape(s) && Legal(s, h, input) && i < |h.flight|
    requires WillCommit(s.rob, input.squash) ==> i > 0
    ensures var packet := BuildPacket(s, input);
            var pushed := if packet.Some? then RobPush(s.rob, packet.value.robEntry) else s.rob;
            RobShape(pushed) && MatchesTag(pushed, h.flight[i].entry.tag)
  {
    hide Slot, NextTag, CoreInv, BuildPacket, WillCommit, RobFull, RobInv, Safe, RatShape, PrfShape, CkptShape, RobPush;
    RobInvOf(s, h);
    LegalIsOffered(s, h, input);
    LiveTagMatches(s.rob, h, i);
    UnguardedIssue.EntryAtSlot(s.rob, h, i);
    var packet := BuildPacket(s, input);
    if packet.Some? {
      if RobFull(s.rob) {
        UnguardedIssue.FullNeedsCommit(s, h, input);
      }
      UnguardedIssue.PushSpares(s.rob, h, packet.value.robEntry, i);
      UnguardedIssue.PushKeepsShape(s.rob, h, packet.value.robEntry);
      NotEmptyAfterIssue(s.rob, h, packet.value.robEntry);
    }
  }

  /** Nothing matches in an empty buffer, whatever its entries still say. */
  lemma {:induction false} EmptyMatchesNothing(s: RobState, h: History, tag: nat)
    requires RobInv(s, h) && h.flight == []
    ensures RobShape(s) && !MatchesTag(s, tag)
  {
    hide Slot, Encode;
    RobOccupancy(s, h);
  }

  // ---------- Commit

  /** The oldest instruction commits exactly when it is ready and a squash in this tick names a younger one. */
  lemma {:induction false} CommitsExactly(s: CoreState, h: History, input: Input)
    requires CoreInv(s, h) && CoreShape(s) && Offered(s, h, input)
    ensures WillCommit(s.rob, input.squash)
       <==> && h.flight != [] && UnguardedIssue.Completed(s.rob, h, 0)
            && (input.squash.Some? ==> forall j :: Names(h, input.squash.value, j) ==> 0 < j)
    ensures CoreStep(s, input).rob.head
         == Encode(ROB_CAP, h.committed + if WillCommit(s.rob, input.squash) then 1 else 0)
  {
    hide Slot, NextTag, Encode, RatInv, PrfInv, TailInv, CkptInv, Chained, Partition, IsOlder, RobEmpty, RobLink,
      RatStep, PrfStep, CkptStep, TailStep, RestoredTails, BuildPacket, SetAllReady, Surviving, RatShape,
      PrfShape, CkptShape;
    RobOccupancy(s.rob, h);
    DecodeEncoded(ROB_CAP, h.committed);
    NextOfEncoded(ROB_CAP, h.committed);
    if h.flight != [] {
      assert RobLink(s.rob, h, 0);
      OldestAgainst(s, h, input);
    }
  }

  lemma {:induction false} OldestAgainst(s: CoreState, h: History, input: Input)
    requires RobInv(s.rob, h) && h.flight != [] && Offered(s, h, input)
    ensures h.flight[0].entry.tag == s.rob.head
    ensures input.squash.Some? ==>
              (IsOlder(ROB_CAP, s.rob.head, input.squash.value.tag)
               <==> forall j :: Names(h, input.squash.value, j) ==> 0 < j)
  {
    hide Slot, Encode, IsOlder;
    assert RobLink(s.rob, h, 0);
    if input.squash.Some? {
      var k := Position(h, input.squash.value);
      forall j | Names(h, input.squash.value, j) ensures j == k {
        if j < k {
          DifferentTags(s.rob, h, j, k);
        } else if k < j {
          DifferentTags(s.rob, h, k, j);
        }
      }
      if k > 0 {
        UnguardedIssue.InFrontIsOlder(s.rob, h, 0, k);
      }
      if IsOlder(ROB_CAP, h.flight[0].entry.tag, h.flight[k].entry.tag) {
        OlderIsInFront(s.rob, h, 0, k);
      }
    }
  }

  /** The i-th instruction that was in flight is ready, or has committed. */
  predicate Finished(s: RobState, h: History, i: nat) {
    || (|s.queue| == ROB_CAP && s.queue[(h.committed + i) % ROB_CAP].isCommitReady)
    || (i == 0 && s.head == Encode(ROB_CAP, h.committed + 1))
  }

  lemma ShapeAfter(s: CoreState, h: History, input: Input)
    requires CoreInv(s, h) && CoreShape(s) && Legal(s, h, input)
    ensures |CoreStep(s, input).rob.queue| == ROB_CAP
  {
    hide CoreInv, Slot, NextTag, RatStep, PrfStep, CkptStep, TailStep, RestoredTails, WillCommit, BuildPacket, Safe,
      Surviving;
    LegalIsOffered(s, h, input);
  }

  /** Whoever is completed in a tick and not squashed in it is ready afterwards, or has committed. */
  lemma {:induction false} CompletionsTake(s: CoreState, h: History, input: Input, i: nat)
    requires CoreInv(s, h) && CoreShape(s) && Legal(s, h, input) && i < |h.flight| && Completes(h, input, i)
    ensures Finished(CoreStep(s, input).rob, h, i)
  {
    hide CoreInv, CoreStep, Encode, WillCommit, Completes, BuildPacket, Safe, RatShape, PrfShape, CkptShape;
    LegalIsOffered(s, h, input);
    CommitsExactly(s, h, input);
    if WillCommit(s.rob, input.squash) && i == 0 {
      assert CoreStep(s, input).rob.head == Encode(ROB_CAP, h.committed + 1);
    } else {
      ReadyExactly(s, h, input, i);
      ShapeAfter(s, h, input);
    }
  }

  /** The register that the oldest instruction's destination was bound to before it, if it has one. */
  function Replaced(h: History): Option<nat> {
    if h.flight != [] && h.flight[0].allocDest && h.flight[0].entry.dest < |h.base|
    then Some(h.base[h.flight[0].entry.dest]) else None
  }

  /** That is what its entry frees. */
  lemma {:induction false} FreedIsReplaced(s: CoreState, h: History, entry: ROBEntry)
    requires CoreInv(s, h) && h.flight != [] && SameEntry(entry, h.flight[0].entry)
    ensures Freed(Some(entry)) == Replaced(h)
  {
    hide Slot, Encode, RatInv, TailInv, CkptInv, PrfInv, RobLink, Window;
    assert Link(TableBefore(h, 0), h.flight[0]);
    AtMostFull(s.rob, h);
    Balance(s.prf, h, 0);
    if h.flight[0].allocDest {
      BalancedIsReal(s.prf, h, 0, h.flight[0].entry.dest);
    }
  }

  /** A commit frees the register that the destination was bound to before, and nothing else moves the tail. */
  lemma {:induction false} FreesExactly(s: CoreState, h: History, input: Input)
    requires CoreInv(s, h) && CoreShape(s) && Legal(s, h, input)
    ensures var s', tail := CoreStep(s, input).prf, Slot(PRF_CAP, s.prf.tailSeq);
            if WillCommit(s.rob, input.squash) && Replaced(h).Some? then
              && s'.freeList == s.prf.freeList[tail := Replaced(h).value]
              && s'.tailSeq == NextTag(PRF_CAP, s.prf.tailSeq)
            else s'.freeList == s.prf.freeList && s'.tailSeq == s.prf.tailSeq
  {
    hide Slot, NextTag, Encode, CoreInv, WillCommit, RatStep, RobStep, CkptStep, TailStep, RestoredTails, BuildPacket,
      Safe, Replaced, Freed, RatShape, RobShape, CkptShape;
    LegalIsOffered(s, h, input);
    if WillCommit(s.rob, input.squash) {
      CommittedEntry(s, h, input, 0);
      FreedIsReplaced(s, h, Committing(s.rob, input.squash).value);
    } else {
      NothingFreed();
    }
  }

  lemma NothingFreed()
    ensures Freed(None) == None
  {
  }

  // ---------- In front of the issue

  /** Each queue passes its oldest id on whenever the next one had room at the start of the tick. */
  lemma FrontMovesExactly(s: CkptState, fetch: bool, returned: bool, issued: bool)
    requires CkptShape(s) && (issued ==> s.iq != [])
    ensures var s' := CkptStep(s, fetch, returned, issued, None);
            var fetched := if fetch && |s.requests| < REQUEST_CAP && |s.fq| + 1 < FQ_CAP then 1 else 0;
            var moved := if returned && |s.requests| > 0 && |s.fq| + 1 < FQ_CAP then 1 else 0;
            var decoded := if |s.fq| > 0 && |s.iq| + 1 < IQ_CAP then 1 else 0;
            && |s'.iq| == |s.iq| + decoded - (if issued then 1 else 0)
            && |s'.fq| == |s.fq| + moved - decoded
            && |s'.requests| == |s.requests| + fetched - moved
            && s'.nextCkptId == (if fetched == 1 then (s.nextCkptId + 1) % CKPT_CAP else s.nextCkptId)
  {
  }

  // ---------- Runs

  /** The instruction that was issued in this tick is there. */
  ghost predicate HasUop(inputs: seq<Input>, f: Flight) {
    f.at < |inputs| && inputs[f.at].uop.Some?
  }

  function UopOf(inputs: seq<Input>, f: Flight): Uop
    requires HasUop(inputs, f)
  {
    inputs[f.at].uop.value
  }

  /** In every run, what is in flight is what its own tick was given: kind, program counters and destination. */
  lemma {:induction false} FlightsAreTheirUops(inputs: seq<Input>, i: nat)
    requires Reachable(inputs) && i < |HistoryAfter(inputs).flight|
    ensures var f := HistoryAfter(inputs).flight[i];
            && HasUop(inputs, f)
            && var u := UopOf(inputs, f);
               && Describes(f.entry, u, f.entry.tag, f.entry.ckptId)
               && (f.executes <==> !u.kind.Halt? && !u.kind.Undecodable?)
               && (f.allocDest <==> Writes(u)) && (f.isLoad <==> u.kind.Load?) && (f.isStore <==> u.kind.Store?)
  {
    hide CoreInv, CoreShape, Reach, Reachable, StateAfter, HistoryAfter, BuildPacket, CoreStep, NewFlight, Legal,
      HistoryStep;
    HistoryIsTruthful(inputs, i);
    var f := HistoryAfter(inputs).flight[i];
    ReachablePrefix(inputs, f.at);
    FlightIsItsUop(StateAfter(inputs[..f.at]), HistoryAfter(inputs[..f.at]), inputs[f.at], f.at);
  }

  /** Every tick of a run was legal. */
  lemma {:induction false} ReachablePrefix(inputs: seq<Input>, n: nat)
    requires Reachable(inputs) && n < |inputs|
    ensures Reachable(inputs[..n]) && Legal(StateAfter(inputs[..n]), HistoryAfter(inputs[..n]), inputs[n])
    decreases |inputs|
  {
    hide CoreInv, CoreShape, Reach, Reachable, StateAfter, HistoryAfter, CoreStep, Legal, HistoryStep;
    var m := |inputs| - 1;
    ReachLast(inputs);
    if n < m {
      ReachablePrefix(inputs[..m], n);
      assert inputs[..m][..n] == inputs[..n];
    }
  }
}
