/**
  The renaming machinery as a whole: every legal tick keeps the invariants, and from them follow
  exact recovery after a squash, the conservation of physical registers and the distinctness of
  live checkpoints.
 */
module RenameCore {
  import opened Capacities
  import opened Options
  import opened Rename
  import opened RenameInvariants
  import opened Tags

  function Observe(s: CoreState): Snapshot {
    Snapshot(s.rat.table, s.prf.headSeq, s.rob.nextTag, s.lqTail, s.sqTail)
  }

  predicate CoreInv(s: CoreState, h: History) {
    && RatInv(s.rat, h) && PrfInv(s.prf, h) && RobInv(s.rob, h) && TailInv(s.lqTail, s.sqTail, h)
    && CkptInv(s.ckpt, h) && Chained(h) && Partition(s.prf, h)
  }

  /** A squash names an instruction in flight that executes, by its tag and its checkpoint. */
  predicate Names(h: History, squash: Squash, j: nat) {
    j < |h.flight| && squash.tag == h.flight[j].entry.tag && squash.ckptId == h.flight[j].entry.ckptId
    && h.flight[j].executes
  }

  /** What a tick may be given: the decoded instruction of the decode queue, and squashes of instructions in flight. */
  ghost predicate Offered(s: CoreState, h: History, input: Input) {
    InputFits(s, input) && (input.squash.Some? ==> exists j :: Names(h, input.squash.value, j))
  }

  /**
    Halts and words that do not decode are issued without asking whether the buffer has room, and
    the latter with checkpoint id 0. That is safe when the head of a full buffer commits in the same
    tick, and when id 0 is the one whose turn it is.
   */
  predicate Safe(s: CoreState, input: Input)
    requires CoreShape(s) && UopFits(s, input.uop)
  {
    input.uop.Some? && input.squash.None? && !Executes(input.uop.value) ==>
      && (RobFull(s.rob) ==> WillCommit(s.rob, None))
      && (input.uop.value.kind.Undecodable? ==> s.ckpt.iq[0] == 0)
  }

  /** LegalIsExact shows that nothing less will do. */
  ghost predicate Legal(s: CoreState, h: History, input: Input)
    requires CoreShape(s)
  {
    Offered(s, h, input) && Safe(s, input)
  }

  lemma LegalIsOffered(s: CoreState, h: History, input: Input)
    requires CoreShape(s) && Legal(s, h, input)
    ensures Offered(s, h, input)
  {
    hide Offered, Safe;
  }

  lemma {:induction false} InvGivesShape(s: CoreState, h: History)
    requires CoreInv(s, h)
    ensures CoreShape(s)
  {
    hide Slot, RatInv, PrfInv, RobInv, TailInv, Chained, Partition, RatShape, PrfShape, RobShape;
    assert RatShape(s.rat) && PrfShape(s.prf) && RobShape(s.rob) by {
      PartsHaveShape(s, h);
    }
    hide CkptShape, Front;
  }

  lemma PartsHaveShape(s: CoreState, h: History)
    requires RatInv(s.rat, h) && PrfInv(s.prf, h) && RobInv(s.rob, h)
    ensures RatShape(s.rat) && PrfShape(s.prf) && RobShape(s.rob)
  {
  }

  ghost function Position(h: History, squash: Squash): (j: nat)
    requires exists j :: Names(h, squash, j)
    ensures Names(h, squash, j)
  {
    var j :| Names(h, squash, j); j
  }

  /** What the history records of the instruction issued in a tick. */
  function NewFlight(s: CoreState, input: Input, now: nat): Flight
    requires CoreShape(s) && InputFits(s, input) && BuildPacket(s, input).Some?
  {
    var p := BuildPacket(s, input).value;
    Flight(p.robEntry.(tag := s.rob.nextTag), Executes(input.uop.value), p.allocDest, p.isLoad, p.isStore, now,
           Observe(CoreStep(s, input)))
  }

  /** The history after an issue or a squash, before the commit of the same tick. */
  ghost function HistoryAfterEvent(s: CoreState, h: History, input: Input, now: nat): History
    requires CoreShape(s) && Offered(s, h, input)
  {
    if BuildPacket(s, input).Some? then Issued(h, NewFlight(s, input, now))
    else if input.squash.Some? then Squashed(h, Position(h, input.squash.value))
    else h
  }

  ghost function HistoryStep(s: CoreState, h: History, input: Input, now: nat): History
    requires CoreShape(s) && Offered(s, h, input)
  {
    var h1 := HistoryAfterEvent(s, h, input, now);
    if WillCommit(s.rob, input.squash) && h1.flight != [] then Committed(h1) else h1
  }

  /** What is issued finds a free entry. */
  predicate HasRoom(s: CoreState, input: Input)
    requires CoreShape(s) && InputFits(s, input)
  {
    BuildPacket(s, input).Some? ==> !RobFull(s.rob)
  }

  // ---------- One event: an issue, a squash, or neither

  /** The invariants after the event of a tick, before its commit. */
  predicate EventInv(s: CoreState, input: Input, h1: History)
    requires CoreShape(s) && InputFits(s, input)
  {
    var packet, s' := BuildPacket(s, input), CoreStep(s, input);
    var prf := PrfStep(s.prf, packet, input.squash, None);
    && RatInv(s'.rat, h1) && PrfInv(prf, h1) && RobInv(RobEvent(s.rob, packet, input.ready, input.squash), h1)
    && TailInv(s'.lqTail, s'.sqTail, h1) && CkptInv(s'.ckpt, h1) && Chained(h1) && Partition(prf, h1)
  }

  /** What the history records of an issue is what each structure expects. */
  lemma {:induction false} IssueFacts(s: CoreState, h: History, input: Input, now: nat)
    requires CoreInv(s, h) && CoreShape(s) && Legal(s, h, input) && BuildPacket(s, input).Some? && HasRoom(s, input)
    ensures |h.flight| < ROB_CAP && input.squash.None?
    ensures var h1, p, n := HistoryAfterEvent(s, h, input, now), BuildPacket(s, input).value, |h.flight|;
            && h1 == Issued(h, NewFlight(s, input, now)) && h1.flight[n] == NewFlight(s, input, now)
            && h1.flight[n].entry == p.robEntry.(tag := s.rob.nextTag)
            && h1.flight[n].after == Observe(CoreStep(s, input))
            && h1.flight[n].allocDest == p.allocDest && h1.flight[n].isLoad == p.isLoad
            && h1.flight[n].isStore == p.isStore
            && s.ckpt.iq != [] && p.robEntry.ckptId == s.ckpt.iq[0] == IdAt(h.firstCkpt, n)
  {
    hide Slot, NextTag, Encode, PrfInv, RobInv, TailInv, Chained, Partition, PrfStep, RatStep, RobStep, TailStep,
      CkptStep;
    RobOccupancy(s.rob, h);
    assert Front(s.ckpt)[0] == s.ckpt.iq[0];
  }

  lemma {:induction false} RatEvent(s: CoreState, h: History, input: Input, now: nat)
    requires CoreInv(s, h) && CoreShape(s) && Legal(s, h, input) && HasRoom(s, input)
    ensures RatInv(CoreStep(s, input).rat, HistoryAfterEvent(s, h, input, now))
  {
    hide Slot, NextTag, Encode, BuildPacket, PrfStep, RobStep, TailStep, CkptStep, PrfInv, RobInv, TailInv, CkptInv,
      Chained, Partition, RatInv;
    var packet := BuildPacket(s, input);
    if packet.Some? {
      IssueFacts(s, h, input, now);
      RatIssue(s.rat, h, packet.value, HistoryAfterEvent(s, h, input, now).flight[|h.flight|]);
    } else if input.squash.Some? {
      RatSquash(s.rat, h, input.squash.value, Position(h, input.squash.value));
    }
  }

  lemma {:induction false} PrfEvent(s: CoreState, h: History, input: Input, now: nat)
    requires CoreInv(s, h) && CoreShape(s) && Legal(s, h, input) && HasRoom(s, input)
    ensures var prf := PrfStep(s.prf, BuildPacket(s, input), input.squash, None);
            var h1 := HistoryAfterEvent(s, h, input, now);
            PrfInv(prf, h1) && Partition(prf, h1)
  {
    hide Slot, NextTag, Encode, RatStep, RobStep, TailStep, CkptStep, RatInv, RobInv, TailInv, CkptInv, Chained, PrfInv,
      Partition;
    var packet := BuildPacket(s, input);
    var prf, h1 := PrfStep(s.prf, packet, input.squash, None), HistoryAfterEvent(s, h, input, now);
    PartitionKept(s.prf, h, prf, h1);
    if packet.Some? {
      IssueFacts(s, h, input, now);
      PrfIssue(s.prf, h, packet.value, h1.flight[|h.flight|]);
    } else if input.squash.Some? {
      PrfSquash(s.prf, h, input.squash.value, Position(h, input.squash.value));
    }
  }

  lemma {:induction false} RobEventKeeps(s: CoreState, h: History, input: Input, now: nat)
    requires CoreInv(s, h) && CoreShape(s) && Legal(s, h, input) && HasRoom(s, input)
    ensures RobInv(RobEvent(s.rob, BuildPacket(s, input), input.ready, input.squash),
                   HistoryAfterEvent(s, h, input, now))
  {
    hide Slot, NextTag, Encode, BuildPacket, RatStep, PrfStep, TailStep, CkptStep, RatInv, PrfInv, TailInv, CkptInv,
      Chained, Partition, RobInv;
    var packet, h1 := BuildPacket(s, input), HistoryAfterEvent(s, h, input, now);
    var tags := Surviving(s.rob, input.ready, input.squash);
    if packet.Some? {
      IssueFacts(s, h, input, now);
      RobIssue(s.rob, h, packet.value.robEntry, h1.flight[|h.flight|]);
      RobAllReady(RobPush(s.rob, packet.value.robEntry), h1, tags);
    } else {
      RobAllReady(s.rob, h, tags);
      if input.squash.Some? {
        RobSquash(SetAllReady(s.rob, tags), h, Position(h, input.squash.value));
      }
    }
  }

  lemma {:induction false} TailEvent(s: CoreState, h: History, input: Input, now: nat)
    requires CoreInv(s, h) && CoreShape(s) && Legal(s, h, input) && HasRoom(s, input)
    ensures var s' := CoreStep(s, input); TailInv(s'.lqTail, s'.sqTail, HistoryAfterEvent(s, h, input, now))
  {
    hide Slot, NextTag, Encode, RatStep, PrfStep, RobStep, CkptStep, RatInv, PrfInv, CkptInv, Chained, Partition,
      TailInv;
    var packet, h1 := BuildPacket(s, input), HistoryAfterEvent(s, h, input, now);
    if packet.Some? {
      IssueFacts(s, h, input, now);
      TailIssue(s.lqTail, s.sqTail, h, h1.flight[|h.flight|]);
    } else if input.squash.Some? {
      var j := Position(h, input.squash.value);
      TailSquash(s.lqTail, s.sqTail, h, j);
      RestoredTailsAre(s, h, input.squash.value, j);
    }
  }

  /** A squash finds its own tails in the entry it names. */
  lemma {:induction false} RestoredTailsAre(s: CoreState, h: History, squash: Squash, j: nat)
    requires RobInv(s.rob, h) && TailInv(s.lqTail, s.sqTail, h) && Names(h, squash, j)
    ensures RestoredTails(s.rob, Some(squash)) == Some((h.flight[j].after.lqTail, h.flight[j].after.sqTail))
  {
    hide Slot, NextTag, Encode;
    LiveTagMatches(s.rob, h, j);
    assert RobLink(s.rob, h, j) && TailLink(h, j);
  }

  lemma {:induction false} CkptEvent(s: CoreState, h: History, input: Input, now: nat)
    requires CoreInv(s, h) && CoreShape(s) && Legal(s, h, input) && HasRoom(s, input)
    ensures CkptInv(CoreStep(s, input).ckpt, HistoryAfterEvent(s, h, input, now))
  {
    hide Slot, NextTag, Encode, BuildPacket, RatStep, PrfStep, RobStep, TailStep, RatInv, PrfInv, RobInv, TailInv,
      Chained, Partition, CkptInv;
    var packet, h1 := BuildPacket(s, input), HistoryAfterEvent(s, h, input, now);
    if packet.Some? {
      IssueFacts(s, h, input, now);
      CkptIssue(s.ckpt, h, h1.flight[|h.flight|], input.fetch, input.returned);
    } else if input.squash.Some? {
      CkptSquash(s.ckpt, h, input.fetch, input.returned, input.squash.value, Position(h, input.squash.value));
    } else {
      CkptFetch(s.ckpt, h, input.fetch, input.returned);
    }
  }

  lemma {:induction false} ChainEvent(s: CoreState, h: History, input: Input, now: nat)
    requires CoreInv(s, h) && CoreShape(s) && Legal(s, h, input) && HasRoom(s, input)
    ensures Chained(HistoryAfterEvent(s, h, input, now))
  {
    hide Slot, NextTag, Encode, PrfStep, RobStep, TailStep, CkptStep, PrfInv, RobInv, TailInv, CkptInv, Partition,
      Chained;
    var packet, h1 := BuildPacket(s, input), HistoryAfterEvent(s, h, input, now);
    if packet.Some? {
      IssueFacts(s, h, input, now);
      ChainIssue(h, h1.flight[|h.flight|]);
    } else if input.squash.Some? {
      ChainSquash(h, Position(h, input.squash.value));
    }
  }

  // ---------- A whole tick

  /** Issue or squash first, then the commit: the free list may be advanced in two steps. */
  lemma {:induction false} PrfStepSplits(s: PrfState, packet: Option<IssuePacket>, squash: Option<Squash>,
                                         committing: Option<ROBEntry>)
    requires PrfShape(s) && PacketFits(packet, squash) && PrfShape(PrfStep(s, packet, squash, None))
    ensures PrfStep(s, packet, squash, committing)
         == PrfStep(PrfStep(s, packet, squash, None), None, None, committing)
  {
    hide Slot, NextTag;
  }

  /** The instruction that commits is the oldest one, also after the issue or the squash of the same tick. */
  lemma {:induction false} CommittedEntry(s: CoreState, h: History, input: Input, now: nat)
    requires CoreInv(s, h) && CoreShape(s) && Offered(s, h, input) && WillCommit(s.rob, input.squash)
    ensures h.flight != [] && HistoryAfterEvent(s, h, input, now).flight != []
    ensures HistoryAfterEvent(s, h, input, now).flight[0] == h.flight[0]
    ensures Committing(s.rob, input.squash).Some? && SameEntry(Committing(s.rob, input.squash).value, h.flight[0].entry)
  {
    hide Slot, NextTag, Encode, RatInv, PrfInv, RobInv, TailInv, CkptInv, Chained, Partition, WillCommit, BuildPacket;
    if input.squash.Some? {
      CommitIsOldest(s.rob, h, input.squash, Position(h, input.squash.value));
    } else {
      CommitIsOldest(s.rob, h, None, 0);
    }
  }

  lemma {:induction false} PrfCommit(s: PrfState, h: History, entry: ROBEntry)
    requires PrfInv(s, h) && Chained(h) && Partition(s, h)
    requires h.flight != [] && SameEntry(entry, h.flight[0].entry)
    ensures PrfInv(PrfStep(s, None, None, Some(entry)), Committed(h))
    ensures Partition(PrfStep(s, None, None, Some(entry)), Committed(h))
  {
    hide Slot, NextTag, Encode, PrfInv, Chained, Partition, PrfStep;
    assert PrfShape(s) by { PrfInvGivesShape(s, h); }
    if h.flight[0].allocDest {
      PrfCommitAllocating(s, h, entry);
    } else {
      PrfCommitOther(s, h, entry);
    }
  }

  lemma PrfInvGivesShape(s: PrfState, h: History)
    requires PrfInv(s, h)
    ensures PrfShape(s)
  {
  }

  lemma {:induction false} EventKeepsInv(s: CoreState, h: History, input: Input, now: nat)
    requires CoreInv(s, h) && CoreShape(s) && Legal(s, h, input) && HasRoom(s, input)
    ensures EventInv(s, input, HistoryAfterEvent(s, h, input, now))
  {
    hide Slot, NextTag, Encode, RatInv, PrfInv, RobInv, TailInv, CkptInv, Chained, Partition, CoreInv, Legal,
      CoreStep, BuildPacket, PrfStep, RobEvent, HistoryAfterEvent;
    RatEvent(s, h, input, now);
    PrfEvent(s, h, input, now);
    RobEventKeeps(s, h, input, now);
    TailEvent(s, h, input, now);
    CkptEvent(s, h, input, now);
    ChainEvent(s, h, input, now);
  }

  /** A tick in which what is issued finds a free entry keeps the invariants: first the event, then the commit. */
  lemma {:induction false} StepWithRoom(s: CoreState, h: History, input: Input, now: nat)
    requires CoreInv(s, h) && CoreShape(s) && Legal(s, h, input) && HasRoom(s, input)
    ensures CoreInv(CoreStep(s, input), HistoryStep(s, h, input, now))
  {
    hide Slot, NextTag, Encode, RatInv, PrfInv, RobInv, TailInv, CkptInv, Chained, Partition,
      BuildPacket, PrfStep, RobEvent, RatStep, TailStep, CkptStep, HistoryAfterEvent, WillCommit, Committed, HasRoom,
      Safe;
    EventKeepsInv(s, h, input, now);
    var s', h1 := CoreStep(s, input), HistoryAfterEvent(s, h, input, now);
    var packet, committing := BuildPacket(s, input), Committing(s.rob, input.squash);
    var prf := PrfStep(s.prf, packet, input.squash, None);
    var rob := RobEvent(s.rob, packet, input.ready, input.squash);
    if WillCommit(s.rob, input.squash) {
      CommittedEntry(s, h, input, now);
      RatCommit(s'.rat, h1);
      RobCommit(rob, h1);
      TailCommit(s'.lqTail, s'.sqTail, h1);
      CkptCommit(s'.ckpt, h1);
      ChainCommit(h1);
      assert PrfInv(s'.prf, Committed(h1)) && Partition(s'.prf, Committed(h1)) by {
        PrfInvGivesShape(prf, h1);
        PrfCommit(prf, h1, committing.value);
        PrfStepSplits(s.prf, packet, input.squash, committing);
      }
    }
  }

  // ---------- A halt or an undecodable word into a full buffer whose head commits

  lemma {:induction false} IntoFull(s: CoreState, h: History, input: Input, now: nat)
    requires CoreInv(s, h) && CoreShape(s) && Legal(s, h, input) && BuildPacket(s, input).Some? && RobFull(s.rob)
    ensures input.squash.None? && WillCommit(s.rob, None) && |h.flight| == ROB_CAP && !Executes(input.uop.value)
    ensures var p := BuildPacket(s, input).value;
            && !p.allocDest && !p.isLoad && !p.isStore && p.robEntry.kind.REGISTER?
            && p.robEntry.oldPhy == INVALID_PHY && s.ckpt.iq != []
            && p.robEntry.ckptId == s.ckpt.iq[0] == IdAt(Committed(h).firstCkpt, ROB_CAP - 1)
    ensures |Committed(h).flight| == ROB_CAP - 1
    ensures HistoryStep(s, h, input, now) == Issued(Committed(h), NewFlight(s, input, now))
  {
    hide Slot, NextTag, Encode, PrfInv, RobInv, TailInv, Chained, Partition, PrfStep, RatStep, RobStep, TailStep,
      CkptStep, WillCommit, IdAt, NewFlight;
    RobOccupancy(s.rob, h);
    assert Front(s.ckpt)[0] == s.ckpt.iq[0];
    IdAfterCommit(h.firstCkpt, ROB_CAP - 1);
  }

  /** An issue that takes no register and the commit of the oldest entry may change places. */
  lemma {:induction false} PrfCommutes(s: PrfState, packet: IssuePacket, committing: Option<ROBEntry>)
    requires PrfShape(s) && PacketFits(Some(packet), None) && !packet.allocDest
    requires PrfShape(PrfStep(s, None, None, committing))
    ensures PrfStep(s, Some(packet), None, committing)
         == PrfStep(PrfStep(s, None, None, committing), Some(packet), None, None)
    ensures PrfStep(s, Some(packet), None, committing).headSeq == s.headSeq
  {
    hide Slot, NextTag;
  }

  /** Completions only ask whether the buffer is empty, not where its head is. */
  lemma {:induction false} ReadyIgnoresHead(s: RobState, head: nat, tags: seq<nat>)
    requires RobShape(s) && RobShape(s.(head := head)) && !RobEmpty(s) && !RobEmpty(s.(head := head))
    ensures SetAllReady(s.(head := head), tags) == SetAllReady(s, tags).(head := head)
    decreases |tags|
  {
    hide Slot;
    if tags != [] {
      ReadyIgnoresHead(SetReady(s, tags[0]), head, tags[1..]);
    }
  }

  /** The push takes the entry that the commit frees, so the commit may as well come first. */
  lemma {:induction false} RobIntoFull(s: RobState, h: History, entry: ROBEntry, tags: seq<nat>, f: Flight)
    requires RobInv(s, h) && |h.flight| == ROB_CAP
    requires f.entry == entry.(tag := s.nextTag) && f.after.nextTag == NextTag(ROB_CAP, s.nextTag)
    ensures RobShape(RobPush(s, entry))
    ensures RobInv(RobPop(SetAllReady(RobPush(s, entry), tags)), Issued(Committed(h), f))
  {
    hide Slot, NextTag, Encode, RobInv, SetAllReady;
    RobCommit(s, h);
    RobInvGivesShape(s, h);
    RobInvGivesShape(RobPop(s), Committed(h));
    RobIssue(RobPop(s), Committed(h), entry, f);
    var pushed := RobPush(RobPop(s), entry);
    RobAllReady(pushed, Issued(Committed(h), f), tags);
    RobInvGivesShape(pushed, Issued(Committed(h), f));
    RobOccupancy(pushed, Issued(Committed(h), f));
    NotEmptyAfterPush(s, h, entry);
    assert pushed == RobPush(s, entry).(head := NextTag(ROB_CAP, s.head));
    ReadyIgnoresHead(RobPush(s, entry), NextTag(ROB_CAP, s.head), tags);
  }

  lemma RobInvOf(s: CoreState, h: History)
    requires CoreInv(s, h)
    ensures RobInv(s.rob, h)
  {
  }

  lemma RobInvGivesShape(s: RobState, h: History)
    requires RobInv(s, h)
    ensures RobShape(s)
  {
  }

  lemma {:induction false} NotEmptyAfterPush(s: RobState, h: History, entry: ROBEntry)
    requires RobInv(s, h) && |h.flight| == ROB_CAP
    ensures RobShape(RobPush(s, entry)) && !RobEmpty(RobPush(s, entry))
  {
    hide Slot, NextTag, Encode;
    NextOfEncoded(ROB_CAP, h.committed + ROB_CAP);
    DecodeEncoded(ROB_CAP, h.committed);
    DecodeEncoded(ROB_CAP, h.committed + ROB_CAP + 1);
    SlotsDiffer(h.committed, 0, 1);
    Rounds(h.committed + 1);
  }

  lemma Rounds(n: nat)
    ensures (n + ROB_CAP) % ROB_CAP == n % ROB_CAP
  {
  }

  lemma {:induction false} RatIntoFull(s: RatState, h: History, packet: IssuePacket, f: Flight)
    requires RatInv(s, h) && |h.flight| == ROB_CAP && PacketFits(Some(packet), None)
    requires f.entry.ckptId == packet.robEntry.ckptId == IdAt(Committed(h).firstCkpt, ROB_CAP - 1)
    requires f.after.table == Renamed(s.table, packet)
    ensures RatInv(RatStep(s, Some(packet), None), Issued(Committed(h), f))
  {
    hide RatInv, IdAt, RatStep, Renamed;
    RatCommit(s, h);
    RatInvGivesShape(s, h);
    RatIssue(s, Committed(h), packet, f);
  }

  lemma RatInvGivesShape(s: RatState, h: History)
    requires RatInv(s, h)
    ensures RatShape(s)
  {
  }

  lemma {:induction false} PrfIntoFull(s: PrfState, h: History, packet: IssuePacket, committing: ROBEntry, f: Flight)
    requires PrfInv(s, h) && Chained(h) && Partition(s, h)
    requires |h.flight| == ROB_CAP && SameEntry(committing, h.flight[0].entry)
    requires PacketFits(Some(packet), None) && !packet.allocDest && !f.allocDest && f.after.headSeq == s.headSeq
    requires f.entry.ckptId == packet.robEntry.ckptId == IdAt(Committed(h).firstCkpt, ROB_CAP - 1)
    ensures PrfShape(s)
    ensures var prf, h' := PrfStep(s, Some(packet), None, Some(committing)), Issued(Committed(h), f);
            PrfInv(prf, h') && Partition(prf, h')
  {
    hide PrfInv, Chained, Partition, IdAt, Slot, NextTag;
    PrfInvGivesShape(s, h);
    PrfCommit(s, h, committing);
    var prf := PrfStep(s, None, None, Some(committing));
    PrfInvGivesShape(prf, Committed(h));
    PrfCommutes(s, packet, Some(committing));
    PrfIssue(prf, Committed(h), packet, f);
    PartitionKept(prf, Committed(h), PrfStep(prf, Some(packet), None, None), Issued(Committed(h), f));
  }

  lemma {:induction false} TailIntoFull(lqTail: nat, sqTail: nat, h: History, f: Flight)
    requires TailInv(lqTail, sqTail, h) && h.flight != [] && !f.executes && !f.isLoad && !f.isStore
    requires f.after.lqTail == lqTail && f.after.sqTail == sqTail
    ensures TailInv(lqTail, sqTail, Issued(Committed(h), f))
  {
    hide TailInv;
    TailCommit(lqTail, sqTail, h);
    TailIssue(lqTail, sqTail, Committed(h), f);
  }

  lemma {:induction false} ChainIntoFull(h: History, f: Flight)
    requires Chained(h) && h.flight != []
    requires !f.allocDest && !f.isStore && !f.entry.kind.STORE? && f.entry.oldPhy == INVALID_PHY
    requires f.after.table == TableBefore(h, |h.flight|)
    ensures Chained(Issued(Committed(h), f))
  {
    ChainCommit(h);
    assert Link(TableBefore(h, |h.flight| - 1), h.flight[|h.flight| - 1]);
    ChainIssue(Committed(h), f);
  }

  lemma {:induction false} StepIntoFull(s: CoreState, h: History, input: Input, now: nat)
    requires CoreInv(s, h) && CoreShape(s) && Legal(s, h, input) && BuildPacket(s, input).Some? && RobFull(s.rob)
    ensures CoreInv(CoreStep(s, input), HistoryStep(s, h, input, now))
  {
    hide Slot, NextTag, Encode, RatInv, PrfInv, RobInv, TailInv, CkptInv, Chained, Partition,
      BuildPacket, PrfStep, RatStep, CkptStep, WillCommit, Committed, Safe, RobFull, SetAllReady, Surviving, RobPush,
      HistoryStep, IdAt;
    IntoFull(s, h, input, now);
    CommittedEntry(s, h, input, now);
    var p, f, committing := BuildPacket(s, input).value, NewFlight(s, input, now), Committing(s.rob, None).value;
    assert f.entry.ckptId == p.robEntry.ckptId;
    SameTable(s.rat, h, p);
    RatIntoFull(s.rat, h, p, f);
    PrfInvGivesShape(s.prf, h);
    HeadUnmoved(s.prf, p, committing);
    PrfIntoFull(s.prf, h, p, committing, f);
    RobAfterPush(s.rob, p.robEntry, Surviving(s.rob, input.ready, None));
    RobIntoFull(s.rob, h, p.robEntry, Surviving(s.rob, input.ready, None), f);
    TailIntoFull(s.lqTail, s.sqTail, h, f);
    CkptCommit(s.ckpt, h);
    CkptIssue(s.ckpt, Committed(h), f, input.fetch, input.returned);
    ChainIntoFull(h, f);
  }

  lemma {:induction false} SameTable(s: RatState, h: History, packet: IssuePacket)
    requires RatInv(s, h) && PacketFits(Some(packet), None) && !packet.allocDest
    ensures RatStep(s, Some(packet), None).table == Renamed(s.table, packet) == TableBefore(h, |h.flight|)
  {
  }

  lemma {:induction false} HeadUnmoved(s: PrfState, packet: IssuePacket, committing: ROBEntry)
    requires PrfShape(s) && PacketFits(Some(packet), None) && !packet.allocDest
    ensures PrfStep(s, Some(packet), None, Some(committing)).headSeq == s.headSeq
  {
  }

  lemma {:induction false} RobAfterPush(s: RobState, entry: ROBEntry, tags: seq<nat>)
    requires RobShape(s)
    ensures RobShape(RobPush(s, entry))
    ensures RobPop(SetAllReady(RobPush(s, entry), tags)).nextTag == NextTag(ROB_CAP, s.nextTag)
  {
  }

  // ---------- Every tick

  /** Every legal tick keeps the invariants. */
  lemma {:induction false} StepKeepsInv(s: CoreState, h: History, input: Input, now: nat)
    requires CoreInv(s, h) && CoreShape(s) && Legal(s, h, input)
    ensures CoreInv(CoreStep(s, input), HistoryStep(s, h, input, now))
  {
    hide CoreInv, CoreShape, Safe, CoreStep, HistoryStep, BuildPacket;
    if BuildPacket(s, input).Some? && RobFull(s.rob) {
      StepIntoFull(s, h, input, now);
    } else {
      StepWithRoom(s, h, input, now);
    }
  }

  /** The number of instructions in flight after an issue, and the checkpoint id of the youngest. */
  lemma {:induction false} YoungestAfterIssue(s: CoreState, h: History, input: Input, now: nat)
    requires CoreInv(s, h) && CoreShape(s) && Offered(s, h, input) && BuildPacket(s, input).Some?
    ensures var h', n := HistoryStep(s, h, input, now), |h.flight| - if WillCommit(s.rob, None) then 1 else 0;
            && input.squash.None? && 0 <= n && |h'.flight| == n + 1
            && h'.flight[n].entry.ckptId == BuildPacket(s, input).value.robEntry.ckptId
            && s.ckpt.iq != [] && IdAt(h'.firstCkpt, n) == s.ckpt.iq[0]
  {
    hide Slot, NextTag, Encode, PrfInv, RobInv, TailInv, Chained, Partition, RatInv, CoreStep, IdAt, BuildPacket,
      WillCommit;
    IdAfterCommit(h.firstCkpt, |h.flight|);
    assert Front(s.ckpt)[0] == s.ckpt.iq[0];
    if WillCommit(s.rob, None) {
      CommitIsOldest(s.rob, h, None, 0);
      IdAfterCommit(h.firstCkpt, |h.flight| - 1);
    }
  }

  /**
    The condition is exact: of all ticks that can be offered, precisely the legal ones keep the
    invariants. A halt pushed into a full buffer whose head stays makes seventeen entries out of
    sixteen; an undecodable word takes a checkpoint id that is not its own.
   */
  lemma {:induction false} LegalIsExact(s: CoreState, h: History, input: Input, now: nat)
    requires CoreInv(s, h) && CoreShape(s) && Offered(s, h, input)
    ensures Legal(s, h, input) <==> CoreInv(CoreStep(s, input), HistoryStep(s, h, input, now))
  {
    hide Slot, NextTag, Encode, RatInv, PrfInv, TailInv, Chained, Partition, CoreStep, HistoryStep, IdAt,
      WillCommit, RobFull, EntryOf;
    if Legal(s, h, input) {
      StepKeepsInv(s, h, input, now);
    } else {
      RobOccupancy(s.rob, h);
      YoungestAfterIssue(s, h, input, now);
    }
  }
}
