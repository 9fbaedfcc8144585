/**
  The rename table, the free list and the reorder buffer as the objects that the simulator ticks,
  and the stage that ticks them together. Each tick is proved to be the step of the same name on
  values; a local copy taken at its start plays the part of the snapshot.
 */
module RenameStage {
  import opened Capacities
  import opened Options
  import opened Rename
  import opened RenameCore
  import opened RenameInvariants
  import opened RenameTheorems
  import opened Tags

  class RAT {
    const table: array<nat>
    const ckpt: array<seq<nat>>

    ghost predicate Valid()
      reads this, table, ckpt
    {
      table.Length == REGISTER_CAP && ckpt.Length == CKPT_CAP && RatShape(RatState(table[..], ckpt[..]))
    }

    function State(): RatState
      reads table, ckpt
    {
      RatState(table[..], ckpt[..])
    }

    /** At reset register x is bound to physical register x, and x0 to none. */
    constructor ()
      ensures Valid() && fresh(table) && fresh(ckpt) && State() == ResetRat()
    {
      table := new nat[REGISTER_CAP](i => i);
      ckpt := new seq<nat>[CKPT_CAP](i => seq(REGISTER_CAP, j => INVALID_PHY));
      new;
      assert table[..] == ResetRat().table;
      assert ckpt[..] == ResetRat().ckpt;
    }

    method Restore(snapshot: seq<nat>)
      requires |snapshot| == table.Length
      modifies table
      ensures table[..] == snapshot
    {
      for i := 0 to table.Length
        invariant table[..i] == snapshot[..i]
      {
        table[i] := snapshot[i];
      }
    }

    method Tick(packet: Option<IssuePacket>, squash: Option<Squash>)
      requires Valid() && PacketFits(packet, squash)
      modifies table, ckpt
      ensures Valid() && State() == RatStep(old(State()), packet, squash)
    {
      var snapshot := table[..];
      if squash.Some? {
        Restore(ckpt[squash.value.ckptId]);
      }
      if packet.Some? {
        var id := packet.value.robEntry.ckptId;
        ckpt[id] := snapshot;
        if packet.value.allocDest {
          var dest := packet.value.robEntry.dest;
          ckpt[id] := ckpt[id][dest := packet.value.phy];
          table[dest] := packet.value.phy;
        }
      }
      assert State() == RatStep(old(State()), packet, squash);
    }
  }

  /** In the first round the slot is the number of allocations. */
  lemma SlotOfSmall(n: nat)
    requires n < PRF_CAP
    ensures Slot(PRF_CAP, Encode(PRF_CAP, n)) == n
  {
    hide Encode, Slot;
    DecodeEncoded(PRF_CAP, n);
  }

  class PRF {
    const freeList: array<nat>
    const headCkpt: array<nat>
    var headSeq: nat
    var tailSeq: nat

    ghost predicate Valid()
      reads this, freeList, headCkpt
    {
      freeList.Length == PRF_CAP && headCkpt.Length == CKPT_CAP && PrfShape(State())
    }

    function State(): PrfState
      reads this, freeList, headCkpt
    {
      PrfState(freeList[..], headSeq, tailSeq, headCkpt[..])
    }

    constructor ()
      ensures Valid() && fresh(freeList) && fresh(headCkpt) && State() == ResetPrf()
    {
      hide Slot, Encode, NextTag;
      freeList := new nat[PRF_CAP](i => INVALID_PHY);
      headCkpt := new nat[CKPT_CAP](i => 0);
      headSeq, tailSeq := 0, 0;
      new;
      Fill();
      ResetShapes();
      assert headCkpt[..] == ResetPrf().headCkpt;
    }

    /** The registers that no architectural one is bound to enter the free list, in order. */
    method Fill()
      requires freeList.Length == PRF_CAP && tailSeq == 0 && forall k :: 0 <= k < PRF_CAP ==> freeList[k] == INVALID_PHY
      modifies `tailSeq, freeList
      ensures freeList[..] == ResetFreeList() && tailSeq == Encode(PRF_CAP, ROB_CAP)
    {
      hide Encode, Slot, NextTag;
      FirstTag(PRF_CAP);
      for i := REGISTER_CAP to PRF_CAP
        invariant tailSeq == Encode(PRF_CAP, i - REGISTER_CAP)
        invariant forall k :: 0 <= k < PRF_CAP ==>
                    freeList[k] == if k < i - REGISTER_CAP then REGISTER_CAP + k else INVALID_PHY
      {
        SlotOfSmall(i - REGISTER_CAP);
        NextOfEncoded(PRF_CAP, i - REGISTER_CAP);
        Push(i);
      }
    }

    method Pop() returns (phy: nat)
      requires Valid() && headSeq != tailSeq
      modifies `headSeq
      ensures phy == freeList[Slot(PRF_CAP, old(headSeq))] && headSeq == NextTag(PRF_CAP, old(headSeq))
    {
      phy := freeList[Slot(PRF_CAP, headSeq)];
      headSeq := NextTag(PRF_CAP, headSeq);
    }

    method Push(phy: nat)
      requires freeList.Length == PRF_CAP && Slot(PRF_CAP, tailSeq) < PRF_CAP
      modifies `tailSeq, freeList
      ensures freeList[..] == old(freeList[..])[Slot(PRF_CAP, old(tailSeq)) := phy]
      ensures tailSeq == NextTag(PRF_CAP, old(tailSeq))
    {
      freeList[Slot(PRF_CAP, tailSeq)] := phy;
      tailSeq := NextTag(PRF_CAP, tailSeq);
    }

    method Tick(packet: Option<IssuePacket>, squash: Option<Squash>, committing: Option<ROBEntry>)
      requires Valid() && PacketFits(packet, squash)
      requires packet.Some? && packet.value.allocDest ==> headSeq != tailSeq
      modifies this, freeList, headCkpt
      ensures State() == PrfStep(old(State()), packet, squash, committing)
    {
      hide Slot, NextTag;
      var snapshotHead, snapshotCkpt := headSeq, headCkpt[..];
      if packet.Some? {
        headCkpt[packet.value.robEntry.ckptId] :=
          if packet.value.allocDest then NextTag(PRF_CAP, snapshotHead) else snapshotHead;
        if packet.value.allocDest {
          var _ := Pop();
        }
      }
      if squash.Some? {
        headSeq := snapshotCkpt[squash.value.ckptId];
      }
      if committing.Some? && !committing.value.halt
         && (committing.value.kind.REGISTER? || committing.value.kind.LINK?) {
        if committing.value.oldPhy != INVALID_PHY {
          Push(committing.value.oldPhy);
        }
      }
      assert State() == PrfStep(old(State()), packet, squash, committing);
    }
  }

  class ROB {
    const queue: array<ROBEntry>
    var head: nat
    var nextTag: nat
    var haltCommitted: bool
    var haltRd: int

    ghost predicate Valid()
      reads this, queue
    {
      queue.Length == ROB_CAP && RobShape(State())
    }

    function State(): RobState
      reads `head, `nextTag, queue
    {
      RobState(queue[..], head, nextTag)
    }

    constructor ()
      ensures Valid() && fresh(queue) && State() == ResetRob() && !haltCommitted && haltRd == -1
    {
      hide Slot, Encode, NextTag;
      queue := new ROBEntry[ROB_CAP](i => DEFAULT_ENTRY);
      head, nextTag, haltCommitted, haltRd := 0, 0, false, -1;
      new;
      ResetShapes();
      assert queue[..] == ResetRob().queue;
    }

    method Matches(tag: nat) returns (b: bool)
      requires Valid()
      ensures b == MatchesTag(State(), tag)
    {
      var slot := Slot(ROB_CAP, tag);
      b := head != nextTag && slot < ROB_CAP && queue[slot].tag == tag;
    }

    method CommitsNow(squash: Option<Squash>) returns (b: bool)
      requires Valid()
      ensures b == WillCommit(State(), squash)
    {
      b := && head != nextTag && queue[Slot(ROB_CAP, head)].isCommitReady
           && (squash.None? || IsOlder(ROB_CAP, head, squash.value.tag));
    }

    method Push(entry: ROBEntry)
      requires Valid()
      modifies `nextTag, queue
      ensures State() == RobPush(old(State()), entry)
    {
      queue[Slot(ROB_CAP, nextTag)] := entry.(tag := nextTag);
      nextTag := NextTag(ROB_CAP, nextTag);
    }

    method SetCommitReady(tag: nat)
      requires Valid()
      modifies queue
      ensures State() == SetReady(old(State()), tag)
    {
      var live := Matches(tag);
      if live {
        var slot := Slot(ROB_CAP, tag);
        queue[slot] := queue[slot].(isCommitReady := true);
      }
      assert queue[..] == SetReady(old(State()), tag).queue;
    }

    method Flush(tag: nat)
      requires Valid()
      modifies `nextTag
      ensures State() == RobFlush(old(State()), tag)
    {
      var live := Matches(tag);
      if live {
        nextTag := NextTag(ROB_CAP, tag);
      }
    }

    method Tick(packet: Option<IssuePacket>, ready: seq<Completion>, squash: Option<Squash>)
      requires Valid()
      modifies this, queue
      ensures State() == RobStep(old(State()), packet, ready, squash)
      ensures var latches := old(WillCommit(State(), squash)) && old(queue[Slot(ROB_CAP, head)].halt);
              && haltCommitted == (old(haltCommitted) || latches)
              && haltRd == if latches then old(queue[Slot(ROB_CAP, head)].dest) else old(haltRd)
    {
      hide Slot, NextTag, WillCommit, MatchesTag, IsOlder;
      ghost var start := State();
      var willCommitNow := CommitsNow(squash);
      var headEntry := queue[Slot(ROB_CAP, head)];
      var passed := PassOn(ready, squash);
      if packet.Some? {
        Push(packet.value.robEntry);
        NextSlotInRange(ROB_CAP, start.nextTag);
      }
      ghost var pushed := State();
      for i := 0 to |passed|
        invariant Valid() && head == start.head
        invariant haltCommitted == old(haltCommitted) && haltRd == old(haltRd)
        invariant SetAllReady(State(), passed[i..]) == SetAllReady(pushed, passed)
      {
        assert passed[i..][1..] == passed[i + 1..];
        SetCommitReady(passed[i]);
      }
      if squash.Some? {
        Flush(squash.value.tag);
      }
      if willCommitNow {
        head := NextTag(ROB_CAP, head);
        if headEntry.halt {
          haltCommitted, haltRd := true, headEntry.dest;
        }
      }
    }

    /** The completions that this tick passes on, decided from the state at its start. */
    method PassOn(ready: seq<Completion>, squash: Option<Squash>) returns (passed: seq<nat>)
      requires Valid()
      ensures passed == Surviving(State(), ready, squash)
    {
      hide Slot, IsOlder, MatchesTag, Surviving;
      passed := [];
      for i := 0 to |ready|
        invariant passed + Surviving(State(), ready[i..], squash) == Surviving(State(), ready, squash)
      {
        SurvivingStep(State(), ready, i, squash);
        var live := Matches(ready[i].tag);
        if (squash.None? || IsOlder(ROB_CAP, ready[i].tag, squash.value.tag)) && (ready[i].matchedFirst ==> live) {
          passed := passed + [ready[i].tag];
        }
      }
      assert ready[|ready|..] == [];
      NoneSurvive(State(), squash);
    }
  }

  lemma {:induction false} SurvivingStep(s: RobState, ready: seq<Completion>, i: nat, squash: Option<Squash>)
    requires RobShape(s) && i < |ready|
    ensures Surviving(s, ready[i..], squash)
         == (if PassedOn(s, ready[i], squash) then [ready[i].tag] else []) + Surviving(s, ready[i + 1..], squash)
  {
    hide PassedOn;
    assert ready[i..][1..] == ready[i + 1..];
  }

  lemma NoneSurvive(s: RobState, squash: Option<Squash>)
    requires RobShape(s)
    ensures Surviving(s, [], squash) == []
  {
  }

  /** The renaming machinery, with the history of what is in flight as a ghost. */
  class RenameUnit {
    const rat: RAT
    const prf: PRF
    const rob: ROB
    var lqTail: nat
    var sqTail: nat
    var nextCkptId: nat
    var requests: seq<nat>
    var fq: seq<nat>
    var iq: seq<nat>
    ghost var inputs: seq<Input>

    function State(): CoreState
      reads this, rat.table, rat.ckpt, prf, prf.freeList, prf.headCkpt, rob, rob.queue
    {
      CoreState(rat.State(), prf.State(), rob.State(), lqTail, sqTail, CkptState(nextCkptId, requests, fq, iq))
    }

    ghost predicate Separate()
      reads {}
    {
      && rat.table.Length == REGISTER_CAP && rat.ckpt.Length == CKPT_CAP
      && prf.freeList.Length == PRF_CAP && prf.headCkpt.Length == CKPT_CAP && rob.queue.Length == ROB_CAP
      && prf.freeList != prf.headCkpt && prf.freeList != rat.table && prf.headCkpt != rat.table
    }

    /** The state is the one that the inputs so far lead to from reset. */
    ghost predicate Valid()
      reads this, rat.table, rat.ckpt, prf, prf.freeList, prf.headCkpt, rob, rob.queue
    {
      Separate() && Reachable(inputs) && State() == StateAfter(inputs)
    }

    constructor ()
      ensures Valid() && inputs == []
    {
      hide Encode, Slot, NextTag, ResetRat, ResetPrf, ResetRob, Reachable, StateAfter, HistoryAfter, CoreInv, PrfShape,
        RobShape, RatShape;
      rat := new RAT();
      prf := new PRF();
      rob := new ROB();
      lqTail, sqTail, nextCkptId, requests, fq, iq, inputs := 0, 0, 0, [], [], [], [];
      new;
      ResetIsReachable();
    }

    /**
      One clock cycle. The packet and the commit are decided from the state at its start; then
      every structure ticks on its own.
     */
    method Tick(input: Input)
      requires Valid() && Legal(State(), HistoryAfter(inputs), input)
      modifies this, rat.table, rat.ckpt, prf, prf.freeList, prf.headCkpt, rob, rob.queue
      ensures Valid() && inputs == old(inputs) + [input]
    {
      hide Slot, NextTag, Encode, RatStep, PrfStep, RobStep, TailStep, CkptStep, Reachable, StateAfter, HistoryAfter,
        Legal, CoreInv, BuildPacket, RestoredTails, Committing, RatShape, PrfShape, RobShape, CkptShape, Front,
        WillCommit;
      var start := State();
      ReachNext(inputs, input);
      LegalFits(start, HistoryAfter(inputs), input);
      AllocatingNeedsFree(start, input);
      var packet := BuildPacket(start, input);
      var restored, committing := RestoredTails(start.rob, input.squash), Committing(start.rob, input.squash);
      lqTail := TailStep(lqTail, packet.Some? && packet.value.isLoad,
                         if restored.Some? then Some(restored.value.0) else None);
      sqTail := TailStep(sqTail, packet.Some? && packet.value.isStore,
                         if restored.Some? then Some(restored.value.1) else None);
      rob.Tick(packet, input.ready, input.squash);
      prf.Tick(packet, input.squash, committing);
      var ids := CkptStep(start.ckpt, input.fetch, input.returned, packet.Some?, input.squash);
      nextCkptId, requests, fq, iq := ids.nextCkptId, ids.requests, ids.fq, ids.iq;
      rat.Tick(packet, input.squash);
      inputs := inputs + [input];
    }
  }

  lemma LegalFits(s: CoreState, h: History, input: Input)
    requires CoreShape(s) && Legal(s, h, input)
    ensures InputFits(s, input)
  {
  }

  lemma AllocatingNeedsFree(s: CoreState, input: Input)
    requires CoreShape(s) && InputFits(s, input)
    ensures var packet := BuildPacket(s, input);
            packet.Some? && packet.value.allocDest ==> s.prf.headSeq != s.prf.tailSeq
  {
    hide Slot, RobFull;
  }
}
