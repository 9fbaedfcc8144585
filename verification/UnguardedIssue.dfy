/**
  Halts and words that do not decode are issued without the tests that all other instructions pass:
  exactly when that does harm, and runs from reset in which it does.
 */
module UnguardedIssue {
  import opened Capacities
  import opened Options
  import opened Rename
  import opened RenameCore
  import opened RenameInvariants
  import opened RenameTheorems
  import opened Tags

  // ---------- A halt into a full buffer

  /** The entry at the head survives the push of a halt exactly when the buffer was not full. */
  lemma {:induction false} HaltNeedsRoom(s: RobState, h: History, halt: ROBEntry)
    requires RobInv(s, h)
    ensures RobShape(s) && RobShape(RobPush(s, halt))
    ensures MatchesTag(RobPush(s, halt), s.head) <==> !RobFull(s)
  {
    hide Slot, NextTag, Encode;
    var n := |h.flight|;
    RobOccupancy(s, h);
    DecodeEncoded(ROB_CAP, h.committed);
    DecodeEncoded(ROB_CAP, h.committed + n);
    DecodeEncoded(ROB_CAP, h.committed + n + 1);
    NextOfEncoded(ROB_CAP, h.committed + n);
    FullAndEmpty(ROB_CAP, h.committed, n);
    if n < ROB_CAP {
      FullAndEmpty(ROB_CAP, h.committed, n + 1);
      if n > 0 {
        assert RobLink(s, h, 0);
      }
    }
  }

  /** Completions change neither tags nor halts, and take no readiness away. */
  lemma {:induction false} ReadyKeeps(s: RobState, tags: seq<nat>, k: nat)
    requires RobShape(s) && k < ROB_CAP
    ensures var e, e' := s.queue[k], SetAllReady(s, tags).queue[k];
            e'.tag == e.tag && e'.halt == e.halt && (e.isCommitReady ==> e'.isCommitReady)
    decreases |tags|
  {
    hide Slot;
    if tags != [] {
      ReadyKeeps(SetReady(s, tags[0]), tags[1..], k);
    }
  }

  /** The next tick commits a halt. */
  predicate HaltAtHead(s: RobState)
    requires RobShape(s)
  {
    WillCommit(s, None) && s.queue[Slot(ROB_CAP, s.head)].halt
  }

  /** A halt is issued. */
  predicate Halts(s: CoreState, input: Input) {
    InputFits(s, input) && input.squash.None? && input.uop.Some? && input.uop.value.kind.Halt?
  }

  /**
    When nothing commits, a halt leaves the oldest entry alone exactly when the buffer is not full.
    Otherwise it takes its place and commits next, before the sixteen instructions in front of it.
   */
  lemma {:induction false} HaltOvertakes(s: CoreState, h: History, input: Input)
    requires CoreInv(s, h) && CoreShape(s) && Halts(s, input) && !WillCommit(s.rob, None)
    ensures RobShape(CoreStep(s, input).rob)
    ensures MatchesTag(CoreStep(s, input).rob, s.rob.head) <==> !RobFull(s.rob)
    ensures RobFull(s.rob) ==> HaltAtHead(CoreStep(s, input).rob)
  {
    hide Slot, NextTag, Encode, SetAllReady, Surviving, RobInv, RatInv, PrfInv, TailInv, CkptInv, Chained, Partition,
      RatStep, PrfStep, CkptStep, IsOlder;
    var halt, tags := BuildPacket(s, input).value.robEntry, Surviving(s.rob, input.ready, None);
    HaltNeedsRoom(s.rob, h, halt);
    var pushed := RobPush(s.rob, halt);
    assert CoreStep(s, input).rob == SetAllReady(pushed, tags);
    ReadyKeeps(pushed, tags, Slot(ROB_CAP, s.rob.head));
    if RobFull(s.rob) {
      RobOccupancy(s.rob, h);
      NotEmptyAfterPush(s.rob, h, halt);
    }
  }

  // ---------- An undecodable word

  lemma RenamingKeepsShape(rat: RatState, prf: PrfState, packet: Option<IssuePacket>, committing: Option<ROBEntry>)
    requires RatShape(rat) && PrfShape(prf) && PacketFits(packet, None)
    ensures RatShape(RatStep(rat, packet, None)) && PrfShape(PrfStep(prf, packet, None, committing))
  {
    hide NextTag, Slot, Freed;
    NextSlotInRange(PRF_CAP, prf.headSeq);
    NextSlotInRange(PRF_CAP, prf.tailSeq);
  }

  lemma BufferKeepsShape(s: RobState, packet: Option<IssuePacket>, ready: seq<Completion>)
    requires RobShape(s)
    ensures RobShape(RobStep(s, packet, ready, None))
  {
    hide NextTag, Slot, SetAllReady, Surviving, WillCommit;
    NextSlotInRange(ROB_CAP, s.nextTag);
    NextSlotInRange(ROB_CAP, s.head);
  }

  lemma {:induction false} IdsKeepRange(s: CkptState, fetch: bool, returned: bool, issued: bool)
    requires CkptShape(s) && (issued ==> s.iq != []) && s.nextCkptId < CKPT_CAP
    requires forall k :: 0 <= k < |Front(s)| ==> Front(s)[k] < CKPT_CAP
    ensures var s' := CkptStep(s, fetch, returned, issued, None);
            && CkptShape(s') && s'.nextCkptId < CKPT_CAP
            && forall k :: 0 <= k < |Front(s')| ==> Front(s')[k] < CKPT_CAP
  {
    hide CkptStep, Fetches, CkptShape;
    FrontMoves(s, fetch, returned, issued);
    NextId(s, fetch, returned, issued);
  }

  /** Every tick without a squash leaves the sizes and ranges alone. */
  lemma {:induction false} TickKeepsShape(s: CoreState, input: Input)
    requires CoreShape(s) && InputFits(s, input) && input.squash.None?
    ensures CoreShape(CoreStep(s, input))
  {
    hide BuildPacket, RatStep, PrfStep, RobStep, CkptStep, Front, RatShape, PrfShape, CkptShape, Committing;
    RenamingKeepsShape(s.rat, s.prf, BuildPacket(s, input), Committing(s.rob, None));
    BufferKeepsShape(s.rob, BuildPacket(s, input), input.ready);
    IdsKeepRange(s.ckpt, input.fetch, input.returned, BuildPacket(s, input).Some?);
  }

  predicate TakesUndecodable(s: CoreState, input: Input) {
    InputFits(s, input) && input.squash.None? && input.uop.Some? && input.uop.value.kind.Undecodable?
  }

  /** Table and free-list head are what they were right after this instruction issued. */
  predicate Recovers(s: CoreState, f: Flight) {
    s.rat.table == f.after.table && s.prf.headSeq == f.after.headSeq
  }

  /** Both checkpoints of an instruction in flight are the state it left. */
  predicate KeepsCheckpoints(s: CoreState, f: Flight)
    requires CoreShape(s)
  {
    f.entry.ckptId < CKPT_CAP && s.rat.ckpt[f.entry.ckptId] == f.after.table
    && s.prf.headCkpt[f.entry.ckptId] == f.after.headSeq
  }

  lemma {:induction false} FlightCheckpoints(s: CoreState, h: History, i: nat)
    requires CoreInv(s, h) && CoreShape(s) && i < |h.flight|
    ensures KeepsCheckpoints(s, h.flight[i])
  {
    hide Slot, Encode, FreeSlot, Allocations;
    assert PrfLink(s.prf, h, i);
  }

  /** Checkpoint 0 is overwritten by the present state; all others stay. */
  lemma {:induction false} UndecodableTick(s: CoreState, input: Input)
    requires CoreShape(s) && TakesUndecodable(s, input)
    ensures var s' := CoreStep(s, input);
            && s'.rat == s.rat.(ckpt := s.rat.ckpt[0 := s.rat.table])
            && s'.prf.headSeq == s.prf.headSeq && s'.prf.headCkpt == s.prf.headCkpt[0 := s.prf.headSeq]
            && s'.rat.ckpt[0] == s.rat.table && s'.prf.headCkpt[0] == s.prf.headSeq
  {
    hide Slot, NextTag, RobStep, CkptStep, TailStep, WillCommit, RestoredTails;
  }

  /**
    A word that does not decode is issued with checkpoint id 0, whoever holds it. The checkpoints
    of the instructions in flight survive exactly when none of them holds id 0 with a table or a
    free-list head that differs from the present one.
   */
  lemma {:induction false} UndecodableTakesCheckpointZero(s: CoreState, h: History, input: Input)
    requires CoreInv(s, h) && CoreShape(s) && TakesUndecodable(s, input)
    ensures CoreShape(CoreStep(s, input))
    ensures (forall i :: 0 <= i < |h.flight| ==> KeepsCheckpoints(CoreStep(s, input), h.flight[i]))
       <==> (forall i :: 0 <= i < |h.flight| && h.flight[i].entry.ckptId == 0 ==> Recovers(s, h.flight[i]))
  {
    hide CoreInv, CoreStep, Slot, CkptShape, RobShape;
    TickKeepsShape(s, input);
    UndecodableTick(s, input);
    forall i | 0 <= i < |h.flight| ensures KeepsCheckpoints(s, h.flight[i]) {
      FlightCheckpoints(s, h, i);
    }
  }

  /** The squash of a tick goes back to this instruction. */
  predicate GoesBackTo(s: CoreState, next: Input, f: Flight) {
    InputFits(s, next) && next.squash == Some(Squash(f.entry.tag, f.entry.ckptId))
  }

  /**
    A squash in the next tick therefore recovers the table and the free-list head of the instruction
    it names exactly when that instruction does not hold id 0, or nothing was renamed since.
   */
  lemma {:induction false} RecoveryAfterUndecodable(s: CoreState, h: History, input: Input, next: Input, j: nat)
    requires CoreInv(s, h) && CoreShape(s) && TakesUndecodable(s, input)
    requires j < |h.flight| && GoesBackTo(CoreStep(s, input), next, h.flight[j])
    ensures CoreShape(CoreStep(s, input))
    ensures Recovers(CoreStep(CoreStep(s, input), next), h.flight[j])
       <==> (h.flight[j].entry.ckptId == 0 ==> Recovers(s, h.flight[j]))
  {
    hide CoreInv, CoreStep, RobShape, CkptShape, Slot;
    TickKeepsShape(s, input);
    UndecodableTick(s, input);
    FlightCheckpoints(s, h, j);
    SquashTick(CoreStep(s, input), next);
  }

  lemma {:induction false} SquashTick(s: CoreState, next: Input)
    requires CoreShape(s) && InputFits(s, next) && next.squash.Some?
    ensures CoreStep(s, next).rat.table == s.rat.ckpt[next.squash.value.ckptId]
    ensures CoreStep(s, next).prf.headSeq == s.prf.headCkpt[next.squash.value.ckptId]
  {
    hide Slot, NextTag, RobStep, CkptStep, TailStep, RestoredTails, WillCommit;
  }

  // ---------- The entry that never becomes ready

  /** This instruction in flight has not completed. */
  predicate WaitsAt(s: RobState, h: History, f: Flight, i: nat)
    requires RobShape(s)
  {
    i < |h.flight| && h.flight[i] == f && !s.queue[(h.committed + i) % ROB_CAP].isCommitReady
  }

  ghost predicate Waits(s: RobState, h: History, f: Flight)
    requires RobShape(s)
  {
    exists i: nat :: WaitsAt(s, h, f, i)
  }

  /** No unit reports the instruction with this tag, and no squash covers it. */
  predicate LeavesAlone(input: Input, tag: nat) {
    && (forall k :: 0 <= k < |input.ready| ==> input.ready[k].tag != tag)
    && (input.squash.Some? ==> !IsOlder(ROB_CAP, input.squash.value.tag, tag))
  }

  lemma {:induction false} SurvivingAreReported(s: RobState, ready: seq<Completion>, squash: Option<Squash>, tag: nat)
    requires RobShape(s) && tag in Surviving(s, ready, squash)
    ensures exists k :: 0 <= k < |ready| && ready[k].tag == tag
  {
    hide PassedOn;
    if ready[0].tag != tag {
      SurvivingAreReported(s, ready[1..], squash, tag);
      var k :| 0 <= k < |ready| - 1 && ready[1..][k].tag == tag;
      assert ready[k + 1].tag == tag;
    }
  }

  /** A completion only touches the entry with its own tag. */
  lemma {:induction false} ReadySpares(s: RobState, tags: seq<nat>, k: nat)
    requires RobShape(s) && k < ROB_CAP && s.queue[k].tag !in tags
    ensures SetAllReady(s, tags).queue[k] == s.queue[k]
    decreases |tags|
  {
    hide Slot;
    if tags != [] {
      ReadySpares(SetReady(s, tags[0]), tags[1..], k);
    }
  }

  /** A legal push leaves the entries of all instructions in flight alone, apart from one that commits. */
  lemma {:induction false} PushSpares(s: RobState, h: History, entry: ROBEntry, i: nat)
    requires RobInv(s, h) && i < |h.flight| && (RobFull(s) ==> i > 0)
    ensures RobPush(s, entry).queue[(h.committed + i) % ROB_CAP] == s.queue[(h.committed + i) % ROB_CAP]
  {
    hide Slot, NextTag, Encode, RobLink;
    var n := |h.flight|;
    RobOccupancy(s, h);
    DecodeEncoded(ROB_CAP, h.committed + n);
    if n < ROB_CAP {
      SlotsDiffer(h.committed, i, n);
    } else {
      Rounds(h.committed);
      SlotsDiffer(h.committed, 0, i);
    }
  }

  lemma WaitingIsNotHead(s: RobState, h: History, squash: Option<Squash>, i: nat)
    requires RobInv(s, h) && i < |h.flight| && !s.queue[(h.committed + i) % ROB_CAP].isCommitReady
    requires WillCommit(s, squash)
    ensures i > 0
  {
    hide Slot, Encode, RobLink, IsOlder;
    DecodeEncoded(ROB_CAP, h.committed);
  }

  lemma FullNeedsCommit(s: CoreState, h: History, input: Input)
    requires CoreShape(s) && Legal(s, h, input) && BuildPacket(s, input).Some? && RobFull(s.rob)
    ensures WillCommit(s.rob, None)
  {
    hide Slot, WillCommit;
  }

  /** What waits and is left alone keeps waiting. */
  lemma {:induction false} EntryKeepsWaiting(s: CoreState, h: History, input: Input, i: nat)
    requires CoreInv(s, h) && CoreShape(s) && Legal(s, h, input) && i < |h.flight|
    requires WaitsAt(s.rob, h, h.flight[i], i) && LeavesAlone(input, h.flight[i].entry.tag)
    ensures WillCommit(s.rob, input.squash) ==> i > 0
    ensures !RobStep(s.rob, BuildPacket(s, input), input.ready, input.squash)
              .queue[(h.committed + i) % ROB_CAP].isCommitReady
  {
    hide Slot, NextTag, Encode, CoreInv, SetAllReady, Surviving, MatchesTag, BuildPacket, WillCommit, RobFull, RobInv,
      RobPush, IsOlder, Safe;
    RobInvOf(s, h);
    var slot, packet := (h.committed + i) % ROB_CAP, BuildPacket(s, input);
    EntryAtSlot(s.rob, h, i);
    if WillCommit(s.rob, input.squash) {
      WaitingIsNotHead(s.rob, h, input.squash, i);
    }
    var tags := Surviving(s.rob, input.ready, input.squash);
    if h.flight[i].entry.tag in tags {
      SurvivingAreReported(s.rob, input.ready, input.squash, h.flight[i].entry.tag);
    }
    if packet.Some? {
      if RobFull(s.rob) {
        FullNeedsCommit(s, h, input);
        WaitingIsNotHead(s.rob, h, None, i);
      }
      PushSpares(s.rob, h, packet.value.robEntry, i);
      PushKeepsShape(s.rob, h, packet.value.robEntry);
      ReadySpares(RobPush(s.rob, packet.value.robEntry), tags, slot);
    } else {
      ReadySpares(s.rob, tags, slot);
    }
  }

  lemma EntryAtSlot(s: RobState, h: History, i: nat)
    requires RobInv(s, h) && i < |h.flight|
    ensures s.queue[(h.committed + i) % ROB_CAP].tag == h.flight[i].entry.tag
  {
    hide Slot, Encode;
    assert RobLink(s, h, i);
  }

  lemma PushKeepsShape(s: RobState, h: History, entry: ROBEntry)
    requires RobInv(s, h)
    ensures RobShape(s) && RobShape(RobPush(s, entry)) && RobPush(s, entry).head == s.head
  {
    hide Slot, NextTag, Encode, RobLink;
    NextSlotInRange(ROB_CAP, s.nextTag);
  }

  lemma {:induction false} KeepsWaiting(s: CoreState, h: History, input: Input, now: nat, f: Flight)
    requires CoreInv(s, h) && CoreShape(s) && Legal(s, h, input)
    requires Waits(s.rob, h, f) && LeavesAlone(input, f.entry.tag)
    requires RobShape(CoreStep(s, input).rob)
    ensures Waits(CoreStep(s, input).rob, HistoryStep(s, h, input, now), f)
  {
    hide CoreInv, Slot, NextTag, Encode, RobStep, RatStep, PrfStep, TailStep, CkptStep, WillCommit, BuildPacket, Safe,
      NewFlight, IsOlder, RatShape, PrfShape, CkptShape, RestoredTails;
    var i: nat :| WaitsAt(s.rob, h, f, i);
    EntryKeepsWaiting(s, h, input, i);
    var h1, h' := HistoryAfterEvent(s, h, input, now), HistoryStep(s, h, input, now);
    assert RobInv(s.rob, h) by {
      RobInvOf(s, h);
    }
    if input.squash.Some? && i > Position(h, input.squash.value) {
      InFrontIsOlder(s.rob, h, Position(h, input.squash.value), i);
    }
    assert i < |h1.flight| && h1.flight[i] == f && h1.committed == h.committed;
    assert WaitsAt(CoreStep(s, input).rob, h', f, if WillCommit(s.rob, input.squash) then i - 1 else i);
  }

  lemma InFrontIsOlder(s: RobState, h: History, i: nat, j: nat)
    requires RobInv(s, h) && i < j < |h.flight|
    ensures IsOlder(ROB_CAP, h.flight[i].entry.tag, h.flight[j].entry.tag)
  {
    hide Slot, Encode, IsOlder;
    assert RobLink(s, h, i) && RobLink(s, h, j);
    OlderIsEarlier(ROB_CAP, h.committed + i, h.committed + j);
  }

  /** What is recorded of an undecodable word that is issued. */
  predicate IsWord(f: Flight, s: CoreState, now: nat) {
    f.at == now && !f.executes && !f.entry.halt && !f.entry.isCommitReady && f.entry.tag == s.rob.nextTag
  }

  /** What is issued without being complete waits. */
  lemma {:induction false} IssuedWaits(s: CoreState, h: History, input: Input, now: nat)
    requires CoreInv(s, h) && CoreShape(s) && Legal(s, h, input) && BuildPacket(s, input).Some?
    requires !BuildPacket(s, input).value.robEntry.isCommitReady && LeavesAlone(input, s.rob.nextTag)
    ensures RobShape(CoreStep(s, input).rob)
    ensures Waits(CoreStep(s, input).rob, HistoryStep(s, h, input, now), NewFlight(s, input, now))
  {
    hide CoreInv, Slot, NextTag, Encode, RatStep, PrfStep, TailStep, CkptStep, WillCommit, IsOlder, SetAllReady,
      Surviving, RatShape, PrfShape, CkptShape, RestoredTails, RobInv, Front, BuildPacket, HistoryAfterEvent, Safe,
      NewFlight;
    RobInvOf(s, h);
    var f, n, tags := NewFlight(s, input, now), |h.flight|, Surviving(s.rob, input.ready, None);
    var pushed := RobPush(s.rob, BuildPacket(s, input).value.robEntry);
    PushKeepsShape(s.rob, h, BuildPacket(s, input).value.robEntry);
    NextSlot(s.rob, h);
    if s.rob.nextTag in tags {
      SurvivingAreReported(s.rob, input.ready, None, s.rob.nextTag);
    }
    ReadySpares(pushed, tags, (h.committed + n) % ROB_CAP);
    IssuedEvent(s, h, input, now);
    if WillCommit(s.rob, None) {
      CommittedEntry(s, h, input, now);
      NextSlotInRange(ROB_CAP, s.rob.head);
    }
    assert WaitsAt(CoreStep(s, input).rob, HistoryStep(s, h, input, now), f,
                   if WillCommit(s.rob, None) then n - 1 else n);
  }

  lemma IssuedEvent(s: CoreState, h: History, input: Input, now: nat)
    requires CoreShape(s) && Offered(s, h, input) && BuildPacket(s, input).Some?
    ensures HistoryAfterEvent(s, h, input, now) == Issued(h, NewFlight(s, input, now)) && input.squash.None?
  {
    hide NewFlight;
  }

  /** An undecodable word that is issued waits. */
  lemma {:induction false} WordWaits(s: CoreState, h: History, input: Input, now: nat) returns (f: Flight)
    requires CoreInv(s, h) && CoreShape(s) && Legal(s, h, input) && TakesUndecodable(s, input)
    requires LeavesAlone(input, s.rob.nextTag)
    ensures IsWord(f, s, now) && RobShape(CoreStep(s, input).rob)
    ensures Waits(CoreStep(s, input).rob, HistoryStep(s, h, input, now), f)
  {
    hide CoreInv, Slot, NextTag, CoreStep, Observe, RatShape, PrfShape, CkptShape, RobShape, HistoryStep, LeavesAlone,
      Waits, Safe;
    IssuedWaits(s, h, input, now);
    f := NewFlight(s, input, now);
  }

  lemma NextSlot(s: RobState, h: History)
    requires RobInv(s, h)
    ensures RobShape(s) && Slot(ROB_CAP, s.nextTag) == (h.committed + |h.flight|) % ROB_CAP
  {
    hide Slot, Encode, RobLink;
    DecodeEncoded(ROB_CAP, h.committed + |h.flight|);
  }

  /** After this run the instruction is in flight and has not completed. */
  ghost predicate WaitsAfter(inputs: seq<Input>, f: Flight) {
    Reachable(inputs) && Waits(StateAfter(inputs).rob, HistoryAfter(inputs), f)
  }

  /** Left alone, it waits for ever. */
  lemma {:induction false} WaitsForEver(inputs: seq<Input>, more: seq<Input>, f: Flight)
    requires WaitsAfter(inputs, f) && Reachable(inputs + more)
    requires forall k :: 0 <= k < |more| ==> LeavesAlone(more[k], f.entry.tag)
    ensures WaitsAfter(inputs + more, f)
    decreases |more|
  {
    hide CoreInv, Reach, Reachable, StateAfter, HistoryAfter, Legal, LeavesAlone, CoreStep, HistoryStep, Waits;
    if more == [] {
      assert inputs + more == inputs;
    } else {
      var all, m := inputs + more, |more| - 1;
      ReachLast(all);
      assert all[..|all| - 1] == inputs + more[..m] && all[|all| - 1] == more[m];
      WaitsForEver(inputs, more[..m], f);
      var s, h := StateAfter(inputs + more[..m]), HistoryAfter(inputs + more[..m]);
      KeepsWaiting(s, h, more[m], |all| - 1, f);
    }
  }

  /**
    No unit executes a word that does not decode, so nobody reports it. In every run, one that has
    been issued then stays in the buffer, and nothing behind it commits, until a squash covers it.
   */
  lemma {:induction false} UndecodableNeverCommits(inputs: seq<Input>, input: Input, more: seq<Input>)
      returns (f: Flight)
    requires Reachable(inputs) && Legal(StateAfter(inputs), HistoryAfter(inputs), input)
    requires TakesUndecodable(StateAfter(inputs), input) && Reachable(inputs + [input] + more)
    requires LeavesAlone(input, StateAfter(inputs).rob.nextTag)
    requires forall k :: 0 <= k < |more| ==> LeavesAlone(more[k], StateAfter(inputs).rob.nextTag)
    ensures IsWord(f, StateAfter(inputs), |inputs|) && WaitsAfter(inputs + [input] + more, f)
  {
    hide CoreInv, Reach, Reachable, StateAfter, HistoryAfter, Legal, LeavesAlone, CoreStep, HistoryStep, Waits,
      CoreShape;
    f := WordWaits(StateAfter(inputs), HistoryAfter(inputs), input, |inputs|);
    ReachNext(inputs, input);
    WaitsForEver(inputs + [input], more, f);
  }

  // ---------- Runs in which nothing completes

  predicate Completed(s: RobState, h: History, i: nat)
    requires RobShape(s)
  {
    s.queue[(h.committed + i) % ROB_CAP].isCommitReady
  }

  /** No instruction in flight has completed. */
  predicate NothingReady(s: RobState, h: History)
    requires RobShape(s)
  {
    forall i :: 0 <= i < |h.flight| ==> !Completed(s, h, i)
  }

  /** Nothing completes, nothing is squashed, and what is issued executes. */
  predicate Stalls(input: Input) {
    input.ready == [] && input.squash.None? && (input.uop.Some? ==> Executes(input.uop.value))
  }

  lemma {:induction false} NothingCommits(s: RobState, h: History)
    requires RobInv(s, h) && RobShape(s) && NothingReady(s, h)
    ensures !WillCommit(s, None)
  {
    hide Slot, Encode, RobLink, RobFull, RobEmpty;
    RobOccupancy(s, h);
    DecodeEncoded(ROB_CAP, h.committed);
    assert h.flight != [] ==> !Completed(s, h, 0);
  }

  /** A tick in which nothing completes only pushes. */
  lemma {:induction false} StalledBuffer(s: CoreState, h: History, input: Input)
    requires CoreInv(s, h) && CoreShape(s) && InputFits(s, input) && Stalls(input) && NothingReady(s.rob, h)
    ensures var packet := BuildPacket(s, input);
            && (packet.Some? ==> !RobFull(s.rob) && !packet.value.robEntry.isCommitReady)
            && CoreStep(s, input).rob == if packet.Some? then RobPush(s.rob, packet.value.robEntry) else s.rob
  {
    hide Slot, NextTag, CoreInv, RatStep, PrfStep, CkptStep, TailStep, RestoredTails, WillCommit;
    RobInvOf(s, h);
    NothingCommits(s.rob, h);
    assert Surviving(s.rob, input.ready, None) == [];
  }

  /** The entry that is pushed is not ready either. */
  lemma {:induction false} PushLeavesNothingReady(s: RobState, h: History, entry: ROBEntry, f: Flight)
    requires RobInv(s, h) && RobShape(s) && NothingReady(s, h) && !RobFull(s) && !entry.isCommitReady
    ensures RobShape(RobPush(s, entry)) && NothingReady(RobPush(s, entry), Issued(h, f))
  {
    hide RobInv, Slot, NextTag, RobFull;
    PushKeepsShape(s, h, entry);
    NextSlot(s, h);
    forall i | 0 <= i < |h.flight| + 1 ensures !Completed(RobPush(s, entry), h, i) {
      if i < |h.flight| {
        assert !Completed(s, h, i);
        PushSpares(s, h, entry, i);
      }
    }
    forall i | 0 <= i < |Issued(h, f).flight| ensures !Completed(RobPush(s, entry), Issued(h, f), i) {
      assert !Completed(RobPush(s, entry), h, i);
    }
  }

  /** Such a tick is legal and commits nothing. */
  lemma {:induction false} StalledTick(s: CoreState, h: History, input: Input, now: nat)
    requires CoreInv(s, h) && CoreShape(s) && InputFits(s, input) && Stalls(input) && NothingReady(s.rob, h)
    ensures !WillCommit(s.rob, None) && Legal(s, h, input) && RobShape(CoreStep(s, input).rob)
    ensures NothingReady(CoreStep(s, input).rob, HistoryStep(s, h, input, now))
    ensures HistoryStep(s, h, input, now)
         == if BuildPacket(s, input).Some? then Issued(h, NewFlight(s, input, now)) else h
    ensures var packet := BuildPacket(s, input);
            && CoreStep(s, input).rat == RatStep(s.rat, packet, None)
            && CoreStep(s, input).prf == PrfStep(s.prf, packet, None, None)
            && CoreStep(s, input).ckpt == CkptStep(s.ckpt, input.fetch, input.returned, packet.Some?, None)
  {
    hide Slot, NextTag, Encode, CoreInv, RatStep, PrfStep, CkptStep, TailStep, RobStep, RestoredTails, BuildPacket,
      NewFlight, RobPush, WillCommit, NothingReady, RatShape, PrfShape, CkptShape;
    RobInvOf(s, h);
    NothingCommits(s.rob, h);
    StalledBuffer(s, h, input);
    var packet := BuildPacket(s, input);
    if packet.Some? {
      PushLeavesNothingReady(s.rob, h, packet.value.robEntry, NewFlight(s, input, now));
    }
  }

  const WARM := Input(None, true, true, true, [], None)
  const COLD := WARM.(returned := false)
  const BRANCH := WARM.(uop := Some(Uop(Branch, 0, 0, 0)))
  const ARITH := WARM.(uop := Some(Uop(Arith, 1, 0, 0)))
  const LOAD := WARM.(uop := Some(Uop(Load, 1, 0, 0)))
  const STORE := WARM.(uop := Some(Uop(Store, 0, 0, 0)))
  const HALT := WARM.(uop := Some(Uop(Halt, 10, 0, 0)))
  const WORD := WARM.(uop := Some(Uop(Undecodable, 0, 0, 0)))
  const BACK := WARM.(squash := Some(Squash(0, 0)))

  /** After these ticks nothing in flight has completed, and these queues hold the ids. */
  ghost predicate Stalled(inputs: seq<Input>, issued: nat, ckpt: CkptState) {
    && Reachable(inputs) && NothingReady(StateAfter(inputs).rob, HistoryAfter(inputs))
    && |HistoryAfter(inputs).flight| == issued && StateAfter(inputs).ckpt == ckpt
  }

  /** A tick without issue only moves ids. */
  lemma {:induction false} WarmTick(inputs: seq<Input>, issued: nat, ckpt: CkptState, input: Input)
    requires Stalled(inputs, issued, ckpt) && Stalls(input) && input.uop.None?
    ensures Stalled(inputs + [input], issued, CkptStep(ckpt, input.fetch, input.returned, false, None))
    ensures HistoryAfter(inputs + [input]) == HistoryAfter(inputs)
    ensures StateAfter(inputs + [input]).rat == StateAfter(inputs).rat
    ensures StateAfter(inputs + [input]).prf == StateAfter(inputs).prf
  {
    hide CoreInv, CoreShape, Reach, Reachable, StateAfter, HistoryAfter, NothingReady, Legal, CoreStep, CkptStep,
      HistoryStep;
    StalledTick(StateAfter(inputs), HistoryAfter(inputs), input, |inputs|);
    ReachNext(inputs, input);
  }

  /** A tick with an issue that finds room. */
  lemma {:induction false} IssueTickOf(inputs: seq<Input>, issued: nat, ckpt: CkptState, input: Input)
    requires Stalled(inputs, issued, ckpt) && issued < ROB_CAP && ckpt.iq != []
    requires Stalls(input) && input.uop.Some? && input.uop.value.rd < REGISTER_CAP && input.room
    ensures Stalled(inputs + [input], issued + 1, CkptStep(ckpt, input.fetch, input.returned, true, None))
    ensures var s, h := StateAfter(inputs), HistoryAfter(inputs);
            && Legal(s, h, input) && BuildPacket(s, input).Some?
            && HistoryAfter(inputs + [input]) == Issued(h, NewFlight(s, input, |inputs|))
            && StateAfter(inputs + [input]).rat == RatStep(s.rat, BuildPacket(s, input), None)
            && StateAfter(inputs + [input]).prf == PrfStep(s.prf, BuildPacket(s, input), None, None)
            && StateAfter(inputs + [input]) == CoreStep(s, input)
  {
    hide CoreShape, Reach, Reachable, StateAfter, HistoryAfter, NothingReady, CoreStep, CkptStep, BuildPacket, RatInv,
      PrfInv, RobInv, TailInv, CkptInv, Chained, Partition, NewFlight, RobFull, RatStep, PrfStep;
    var s, h := StateAfter(inputs), HistoryAfter(inputs);
    RobOccupancy(s.rob, h);
    StalledTick(s, h, input, |inputs|);
    IssueNeverStarves(s, h, input);
    ReachNext(inputs, input);
  }

  // ---------- The first instructions after reset

  /** The first four fetches miss in the instruction cache, and the fetch unit waits for the first word. */
  function ColdRun(n: nat): seq<Input> {
    if n == 0 then [] else ColdRun(n - 1) + [COLD]
  }

  function ColdIds(n: nat): CkptState {
    CkptState(if n < 4 then n else 4, if n < 4 then [0, 1, 2, 3][..n] else [0, 1, 2, 3], [], [])
  }

  lemma NextColdIds(n: nat)
    ensures CkptStep(ColdIds(n), true, false, false, None) == ColdIds(n + 1)
  {
  }

  /** These ticks leave everything else as it was at reset. */
  ghost predicate Untouched(inputs: seq<Input>) {
    && Reachable(inputs) && HistoryAfter(inputs) == ResetHistory()
    && StateAfter(inputs).rat == ResetRat() && StateAfter(inputs).prf == ResetPrf()
  }

  lemma {:induction false} StalledAtReset()
    ensures Stalled([], 0, ColdIds(0)) && Untouched([])
  {
    hide Reach, Reachable, StateAfter, HistoryAfter, CoreInv;
    ResetIsReachable();
  }

  lemma {:induction false} Waiting(n: nat)
    ensures Stalled(ColdRun(n), 0, ColdIds(n)) && Untouched(ColdRun(n))
  {
    hide Reach, Reachable, StateAfter, HistoryAfter, CkptStep, NothingReady, CoreInv, CoreShape, ColdIds, ResetRat,
      ResetPrf, ResetHistory;
    if n == 0 {
      StalledAtReset();
    } else {
      Waiting(n - 1);
      NextColdIds(n - 1);
      WarmTick(ColdRun(n - 1), 0, ColdIds(n - 1), COLD);
    }
  }

  /** The words of the first line arrive after 22 ticks, one a tick; the first one is then decoded. */
  function WarmRun(): seq<Input> {
    ColdRun(22) + [WARM] + [WARM]
  }

  lemma WarmIds()
    ensures CkptStep(ColdIds(22), true, true, false, None) == CkptState(4, [1, 2, 3], [0], [])
    ensures CkptStep(CkptState(4, [1, 2, 3], [0], []), true, true, false, None) == SteadyIds(0)
  {
  }

  lemma {:induction false} WarmUp()
    ensures Stalled(WarmRun(), 0, SteadyIds(0)) && Untouched(WarmRun())
  {
    hide Reach, Reachable, StateAfter, HistoryAfter, CkptStep, NothingReady, CoreInv, CoreShape, ColdIds, SteadyIds,
      ResetRat, ResetPrf, ResetHistory, ColdRun;
    Waiting(22);
    WarmIds();
    WarmTick(ColdRun(22), 0, ColdIds(22), WARM);
    WarmTick(ColdRun(22) + [WARM], 0, CkptState(4, [1, 2, 3], [0], []), WARM);
  }

  /** The ids once one instruction is issued a tick. */
  function SteadyIds(n: nat): CkptState {
    CkptState(n + 5, [n + 2, n + 3, n + 4], [n + 1], [n])
  }

  lemma NextIds(n: nat)
    requires n < 2
    ensures CkptStep(SteadyIds(n), true, true, true, None) == SteadyIds(n + 1)
  {
  }

  /** Then a branch is issued. */
  function BranchRun(): seq<Input> {
    WarmRun() + [BRANCH]
  }

  // ---------- The halt that overtakes

  datatype Station = LOAD_RS | INTEGER_RS | MULTIPLY_RS | DIVIDE_RS | STORE_RS

  function Places(station: Station): nat {
    match station
    case LOAD_RS => 4
    case INTEGER_RS => 4
    case MULTIPLY_RS => 2
    case DIVIDE_RS => 1
    case STORE_RS => 4
  }

  /**
    Sixteen instructions: a load that misses in the cache, and fifteen that wait for its result, the
    k-th in this station. They are issued in sixteen ticks; the miss alone takes 22.
   */
  function StationOf(k: nat): Station {
    if k == 0 then LOAD_RS
    else if k <= 4 then INTEGER_RS
    else if k <= 6 then MULTIPLY_RS
    else if k == 7 then DIVIDE_RS
    else if k <= 11 then STORE_RS
    else LOAD_RS
  }

  function Filler(k: nat): Input {
    match StationOf(k)
    case LOAD_RS => LOAD
    case STORE_RS => STORE
    case _ => ARITH
  }

  lemma FillerStalls(k: nat)
    ensures Stalls(Filler(k)) && Filler(k).uop.Some? && Filler(k).uop.value.rd < REGISTER_CAP
    ensures Filler(k).room && Filler(k).fetch && Filler(k).returned
  {
  }

  /** How many of those that wait are in a station after n issues; the load in front has left its own. */
  function InStation(n: nat, station: Station): nat {
    if n <= 1 then 0 else InStation(n - 1, station) + if StationOf(n - 1) == station then 1 else 0
  }

  /** No station ever holds more than it has places for. */
  lemma {:induction false} FillersFit(n: nat, station: Station)
    requires n <= ROB_CAP
    ensures InStation(n, station) <= Places(station)
  {
    InStationIs(n, station);
  }

  lemma {:induction false} InStationIs(n: nat, station: Station)
    requires n <= ROB_CAP
    ensures InStation(n, station)
         == match station
            case INTEGER_RS => if n <= 1 then 0 else if n <= 5 then n - 1 else 4
            case MULTIPLY_RS => if n <= 5 then 0 else if n <= 7 then n - 5 else 2
            case DIVIDE_RS => if n <= 7 then 0 else 1
            case STORE_RS => if n <= 8 then 0 else if n <= 12 then n - 8 else 4
            case LOAD_RS => if n <= 12 then 0 else n - 12
  {
    if n > 1 {
      InStationIs(n - 1, station);
    }
  }

  /** The first n of them, issued one a tick. */
  function FullRun(n: nat): seq<Input> {
    if n == 0 then [] else FullRun(n - 1) + [Filler(n - 1)]
  }

  /** Instructions keep coming: none of the three queues in front of the issue is empty. */
  predicate Flows(s: CkptState) {
    CkptShape(s) && s.requests != [] && s.fq != [] && s.iq != []
  }

  lemma FlowsOn(s: CkptState)
    requires Flows(s)
    ensures s.iq != [] && Flows(CkptStep(s, true, true, true, None))
  {
  }

  /** After these ticks the buffer is empty and instructions keep coming. */
  ghost predicate Drained(inputs: seq<Input>) {
    Reachable(inputs) && HistoryAfter(inputs).flight == [] && Flows(StateAfter(inputs).ckpt)
  }

  lemma {:induction false} Filling(inputs: seq<Input>, n: nat)
    requires Drained(inputs) && n <= ROB_CAP
    ensures Reachable(inputs + FullRun(n)) && Flows(StateAfter(inputs + FullRun(n)).ckpt)
    ensures Stalled(inputs + FullRun(n), n, StateAfter(inputs + FullRun(n)).ckpt)
  {
    hide CkptStep, CoreStep, CoreInv, CoreShape, RatStep, PrfStep, BuildPacket, NewFlight, Legal, HistoryAfter,
      StateAfter, Reachable, Flows;
    if n == 0 {
      assert inputs + FullRun(0) == inputs;
    } else {
      Filling(inputs, n - 1);
      var before := inputs + FullRun(n - 1);
      FlowsOn(StateAfter(before).ckpt);
      FillerStalls(n - 1);
      IssueTickOf(before, n - 1, StateAfter(before).ckpt, Filler(n - 1));
      assert inputs + FullRun(n) == before + [Filler(n - 1)];
    }
  }

  /** A halt that is issued after this run replaces the oldest of sixteen instructions and commits before it. */
  ghost predicate Overtaken(inputs: seq<Input>) {
    && Reachable(inputs) && |HistoryAfter(inputs).flight| == ROB_CAP
    && Halts(StateAfter(inputs), HALT)
    && RobShape(CoreStep(StateAfter(inputs), HALT).rob)
    && !MatchesTag(CoreStep(StateAfter(inputs), HALT).rob, HistoryAfter(inputs).flight[0].entry.tag)
    && HaltAtHead(CoreStep(StateAfter(inputs), HALT).rob)
  }

  /** Whenever the buffer is empty, sixteen ticks later a halt may overtake all sixteen instructions. */
  lemma {:induction false} HaltReplacesTheHead(inputs: seq<Input>)
    requires Drained(inputs)
    ensures Overtaken(inputs + FullRun(ROB_CAP))
  {
    hide Reach, Reachable, StateAfter, HistoryAfter, CoreStep, NothingReady, RatInv, PrfInv, RobInv, TailInv, CkptInv,
      Chained, Partition, RobFull, MatchesTag, WillCommit, HaltAtHead, FullRun, Drained;
    Filling(inputs, ROB_CAP);
    var all := inputs + FullRun(ROB_CAP);
    var s, h := StateAfter(all), HistoryAfter(all);
    NothingCommits(s.rob, h);
    RobOccupancy(s.rob, h);
    HaltOvertakes(s, h, HALT);
    OldestTag(s.rob, h);
  }

  /** So it is after reset, as soon as the first instruction is decoded. */
  lemma {:induction false} DrainedAfterReset()
    ensures Drained(WarmRun())
  {
    hide Reach, Reachable, StateAfter, HistoryAfter, CoreInv, NothingReady;
    WarmUp();
  }

  lemma OldestTag(s: RobState, h: History)
    requires RobInv(s, h) && h.flight != []
    ensures h.flight[0].entry.tag == s.head
  {
    hide Encode, Slot;
    assert RobLink(s, h, 0);
  }

  // ---------- The undecodable word that spoils a recovery

  /** A branch has been issued under tag 0 with checkpoint 0. */
  lemma {:induction false} BranchIssued()
    ensures var inputs := BranchRun();
            && Stalled(inputs, 1, SteadyIds(1)) && Names(HistoryAfter(inputs), Squash(0, 0), 0)
            && HistoryAfter(inputs).flight[0].after == Observe(StateAfter(inputs))
            && HistoryAfter(inputs).flight[0].entry.predictedPC == 0
            && StateAfter(inputs).rat.table == ResetTable()
            && StateAfter(inputs).prf.freeList == ResetFreeList() && StateAfter(inputs).prf.headSeq == 0
  {
    hide Reach, Reachable, StateAfter, HistoryAfter, Slot, Encode, NextTag, CoreStep, CoreInv, NothingReady, CkptStep,
      SteadyIds, WarmRun, ResetTable, ResetFreeList, RatShape, PrfShape, RobShape;
    WarmUp();
    var s, h := StateAfter(WarmRun()), HistoryAfter(WarmRun());
    NextIds(0);
    SteadyHead(0);
    IssueTickOf(WarmRun(), 0, SteadyIds(0), BRANCH);
    RobInvOf(s, h);
    EmptyTag(s.rob, h);
    BranchFlight(s, h, |WarmRun()|);
  }

  lemma SteadyHead(n: nat)
    ensures SteadyIds(n).iq == [n]
  {
  }

  /** What is recorded of the branch. */
  lemma BranchFlight(s: CoreState, h: History, now: nat)
    requires CoreShape(s) && h == ResetHistory() && s.rat == ResetRat() && s.prf == ResetPrf()
    requires s.rob.nextTag == 0 && s.ckpt.iq == [0] && UopFits(s, BRANCH.uop) && BuildPacket(s, BRANCH).Some?
    ensures var f := NewFlight(s, BRANCH, now);
            && Names(Issued(h, f), Squash(0, 0), 0) && f.entry.predictedPC == 0
            && f.after == Observe(CoreStep(s, BRANCH))
    ensures RatStep(s.rat, BuildPacket(s, BRANCH), None).table == ResetTable()
    ensures var prf := PrfStep(s.prf, BuildPacket(s, BRANCH), None, None);
            prf.freeList == ResetFreeList() && prf.headSeq == 0
  {
    hide Slot, Encode, NextTag, CoreStep, ResetTable, ResetFreeList, RatShape, PrfShape, RobShape;
  }

  lemma EmptyTag(s: RobState, h: History)
    requires RobInv(s, h) && h == ResetHistory()
    ensures s.nextTag == 0
  {
    hide Encode, Slot;
    FirstTag(ROB_CAP);
  }

  /** Two instructions are in flight, the first one as before, and x1 is bound to physical register 32. */
  ghost predicate Behind(one: seq<Input>, two: seq<Input>)
    requires Reachable(one) && HistoryAfter(one).flight != []
  {
    && Stalled(two, 2, SteadyIds(2)) && HistoryAfter(two).flight[0] == HistoryAfter(one).flight[0]
    && StateAfter(two).rat.table == ResetTable()[1 := REGISTER_CAP]
  }

  /** An instruction behind it has been given physical register 32 for x1. */
  lemma {:induction false} RegisterRenamed()
    ensures Stalled(BranchRun(), 1, SteadyIds(1)) && Behind(BranchRun(), BranchRun() + [ARITH])
  {
    hide Reach, Reachable, StateAfter, HistoryAfter, Slot, Encode, NextTag, CoreStep, NewFlight, BranchRun, Names;
    BranchIssued();
    ResetTags();
    IssueTickOf(BranchRun(), 1, SteadyIds(1), ARITH);
    NextIds(1);
    var s := StateAfter(BranchRun());
    assert s.prf.freeList[Slot(PRF_CAP, s.prf.headSeq)] == REGISTER_CAP;
  }

  /** After this run a word that does not decode spoils the recovery of the instruction issued in this tick. */
  ghost predicate Spoilt(inputs: seq<Input>, issuedAt: nat) {
    && Reachable(inputs) && issuedAt < |inputs| && Reachable(inputs[..issuedAt + 1])
    && IssuedIn(inputs, issuedAt, BACK.squash.value) && Names(HistoryAfter(inputs), BACK.squash.value, 0)
    && TakesUndecodable(StateAfter(inputs), WORD)
    && CoreShape(CoreStep(StateAfter(inputs), WORD)) && InputFits(CoreStep(StateAfter(inputs), WORD), BACK)
    && Observe(CoreStep(CoreStep(StateAfter(inputs), WORD), BACK)).table
       != Observe(StateAfter(inputs[..issuedAt + 1])).table
  }

  /**
    A run from reset: a branch is in flight, an instruction behind it has renamed x1, and an
    undecodable word makes the squash to the branch come back to a table that the branch never left.
   */
  lemma {:induction false} UndecodableReplacesCheckpointZero()
    ensures exists inputs, issuedAt: nat :: Spoilt(inputs, issuedAt)
  {
    hide Reach, Reachable, StateAfter, HistoryAfter, Slot, Encode, NextTag, CoreStep, BranchRun, CoreInv, CoreShape;
    RegisterRenamed();
    BranchIssued();
    var inputs := BranchRun() + [ARITH];
    var s, h := StateAfter(inputs), HistoryAfter(inputs);
    TickKeepsShape(s, WORD);
    UndecodableTick(s, WORD);
    SquashTick(CoreStep(s, WORD), BACK);
    assert ResetTable()[1 := REGISTER_CAP][1] == REGISTER_CAP && ResetTable()[1] == 1;
    HistoryIsTruthful(inputs, 0);
    var at := h.flight[0].at;
    assert Spoilt(inputs, at);
  }
}
