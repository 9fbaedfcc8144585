/**
  Register renaming as a step machine on values: the rename table, the free list, the reorder
  buffer, the queue tails and the checkpoint ids, each advanced from the state at the start of a
  tick by an issue, a commit and a squash.
 */
module Rename {
  import opened Bits
  import opened Capacities
  import opened Options
  import opened Tags

  const INVALID_PHY: nat := 0

  datatype ROBType = REGISTER | BRANCH | STORE | LINK

  datatype ROBEntry = ROBEntry(kind: ROBType, isCommitReady: bool, tag: nat, dest: nat, predictedPC: u32, pc: u32,
                               halt: bool, lqTailSnapshot: nat, sqTailSnapshot: nat, ckptId: nat, newPhy: nat,
                               oldPhy: nat)

  datatype IssuePacket = IssuePacket(allocDest: bool, phy: nat, robEntry: ROBEntry, isLoad: bool, isStore: bool)

  datatype Squash = Squash(tag: nat, ckptId: nat)

  // ---------- The rename table

  datatype RatState = RatState(table: seq<nat>, ckpt: seq<seq<nat>>)

  predicate RatShape(s: RatState) {
    && |s.table| == REGISTER_CAP && |s.ckpt| == CKPT_CAP
    && forall c :: 0 <= c < CKPT_CAP ==> |s.ckpt[c]| == REGISTER_CAP
  }

  predicate PacketFits(packet: Option<IssuePacket>, squash: Option<Squash>) {
    && (packet.Some? ==> squash.None? && packet.value.robEntry.ckptId < CKPT_CAP
                         && packet.value.robEntry.dest < REGISTER_CAP)
    && (squash.Some? ==> squash.value.ckptId < CKPT_CAP)
  }

  /** The table after an issue: the destination points at the new register. */
  function Renamed(table: seq<nat>, packet: IssuePacket): seq<nat>
    requires |table| == REGISTER_CAP && packet.robEntry.dest < REGISTER_CAP
  {
    if packet.allocDest then table[packet.robEntry.dest := packet.phy] else table
  }

  function RatStep(s: RatState, packet: Option<IssuePacket>, squash: Option<Squash>): RatState
    requires RatShape(s) && PacketFits(packet, squash)
  {
    if squash.Some? then s.(table := s.ckpt[squash.value.ckptId])
    else if packet.Some? then
      var table := Renamed(s.table, packet.value);
      RatState(table, s.ckpt[packet.value.robEntry.ckptId := table])
    else s
  }

  // ---------- The free list

  datatype PrfState = PrfState(freeList: seq<nat>, headSeq: nat, tailSeq: nat, headCkpt: seq<nat>)

  predicate PrfShape(s: PrfState) {
    |s.freeList| == PRF_CAP && |s.headCkpt| == CKPT_CAP
    && Slot(PRF_CAP, s.headSeq) < PRF_CAP && Slot(PRF_CAP, s.tailSeq) < PRF_CAP
  }

  /** The register an entry returns to the free list when it commits. */
  function Freed(committing: Option<ROBEntry>): Option<nat> {
    if committing.Some? && !committing.value.halt
       && (committing.value.kind.REGISTER? || committing.value.kind.LINK?) && committing.value.oldPhy != INVALID_PHY
    then Some(committing.value.oldPhy) else None
  }

  function PrfStep(s: PrfState, packet: Option<IssuePacket>, squash: Option<Squash>, committing: Option<ROBEntry>)
    : PrfState
    requires PrfShape(s) && PacketFits(packet, squash)
  {
    var head := if packet.Some? && packet.value.allocDest then NextTag(PRF_CAP, s.headSeq) else s.headSeq;
    var issued := if packet.Some?
                  then s.(headSeq := head, headCkpt := s.headCkpt[packet.value.robEntry.ckptId := head])
                  else s;
    var restored := if squash.Some? then issued.(headSeq := s.headCkpt[squash.value.ckptId]) else issued;
    match Freed(committing)
    case None => restored
    case Some(phy) =>
      restored.(freeList := s.freeList[Slot(PRF_CAP, s.tailSeq) := phy], tailSeq := NextTag(PRF_CAP, s.tailSeq))
  }

  // ---------- The reorder buffer

  datatype RobState = RobState(queue: seq<ROBEntry>, head: nat, nextTag: nat)

  predicate RobShape(s: RobState) {
    |s.queue| == ROB_CAP && Slot(ROB_CAP, s.head) < ROB_CAP && Slot(ROB_CAP, s.nextTag) < ROB_CAP
  }

  predicate RobEmpty(s: RobState) {
    s.head == s.nextTag
  }

  predicate RobFull(s: RobState) {
    Slot(ROB_CAP, s.nextTag) == Slot(ROB_CAP, s.head) && s.nextTag != s.head
  }

  predicate MatchesTag(s: RobState, tag: nat)
    requires RobShape(s)
  {
    !RobEmpty(s) && Slot(ROB_CAP, tag) < ROB_CAP && s.queue[Slot(ROB_CAP, tag)].tag == tag
  }

  predicate WillCommit(s: RobState, squash: Option<Squash>)
    requires RobShape(s)
  {
    && !RobEmpty(s) && s.queue[Slot(ROB_CAP, s.head)].isCommitReady
    && (squash.Some? ==> IsOlder(ROB_CAP, s.head, squash.value.tag))
  }

  function RobPush(s: RobState, entry: ROBEntry): RobState
    requires RobShape(s)
  {
    s.(queue := s.queue[Slot(ROB_CAP, s.nextTag) := entry.(tag := s.nextTag)],
       nextTag := NextTag(ROB_CAP, s.nextTag))
  }

  function SetReady(s: RobState, tag: nat): RobState
    requires RobShape(s)
  {
    if MatchesTag(s, tag)
    then s.(queue := s.queue[Slot(ROB_CAP, tag) := s.queue[Slot(ROB_CAP, tag)].(isCommitReady := true)])
    else s
  }

  function SetAllReady(s: RobState, tags: seq<nat>): (r: RobState)
    requires RobShape(s)
    ensures RobShape(r) && r.head == s.head && r.nextTag == s.nextTag
    decreases |tags|
  {
    if tags == [] then s else SetAllReady(SetReady(s, tags[0]), tags[1..])
  }

  function RobFlush(s: RobState, tag: nat): RobState
    requires RobShape(s)
  {
    if MatchesTag(s, tag) then s.(nextTag := NextTag(ROB_CAP, tag)) else s
  }

  // ---------- The tail of a load or store queue

  function TailStep(tail: nat, push: bool, restored: Option<nat>): nat {
    var pushed := if push then (tail + 1) % QUEUE_CAP else tail;
    if restored.Some? then restored.value else pushed
  }

  // ---------- Checkpoint ids between fetch and issue

  /** Ids wait in the request queue of the instruction cache, in the fetch queue and in the decode queue, in turn. */
  datatype CkptState = CkptState(nextCkptId: nat, requests: seq<nat>, fq: seq<nat>, iq: seq<nat>)

  /** All of them, the next one to issue first. */
  function Front(s: CkptState): seq<nat> {
    s.iq + s.fq + s.requests
  }

  /** The fetch queue and the decode queue keep one place free; the request queue counts its entries. */
  predicate CkptShape(s: CkptState) {
    |s.requests| <= REQUEST_CAP && |s.fq| < FQ_CAP && |s.iq| < IQ_CAP
  }

  /** A fetch needs room in the request queue and in the fetch queue. */
  predicate Fetches(s: CkptState, fetch: bool, squash: Option<Squash>) {
    fetch && squash.None? && |s.requests| < REQUEST_CAP && |s.fq| < FQ_CAP - 1
  }

  /** The word of the oldest request is there and the fetch queue takes it. */
  predicate Moves(s: CkptState, returned: bool) {
    returned && s.requests != [] && |s.fq| < FQ_CAP - 1
  }

  predicate Decodes(s: CkptState) {
    s.fq != [] && |s.iq| < IQ_CAP - 1
  }

  /** Each queue passes its oldest id on when the next one had room at the start of the tick. */
  function CkptStep(s: CkptState, fetch: bool, returned: bool, issued: bool, squash: Option<Squash>): CkptState
    requires issued ==> s.iq != []
  {
    if squash.Some? then CkptState((squash.value.ckptId + 1) % CKPT_CAP, [], [], [])
    else
      var fetched, moved, decoded := Fetches(s, fetch, squash), Moves(s, returned), Decodes(s);
      CkptState(if fetched then (s.nextCkptId + 1) % CKPT_CAP else s.nextCkptId,
                (if moved then s.requests[1..] else s.requests) + (if fetched then [s.nextCkptId] else []),
                (if decoded then s.fq[1..] else s.fq) + (if moved then [s.requests[0]] else []),
                (if issued then s.iq[1..] else s.iq) + (if decoded then [s.fq[0]] else []))
  }

  // ---------- One tick of the reorder buffer

  /**
    A result that reports its tag; those of the multiplier and the divider are first matched
    against the buffer at the start of the tick.
   */
  datatype Completion = Completion(tag: nat, matchedFirst: bool)

  /** The completions passed on: not covered by the squash of the tick, and matched where that is asked for. */
  function Surviving(s: RobState, ready: seq<Completion>, squash: Option<Squash>): seq<nat>
    requires RobShape(s)
  {
    if ready == [] then []
    else (if PassedOn(s, ready[0], squash) then [ready[0].tag] else []) + Surviving(s, ready[1..], squash)
  }

  predicate PassedOn(s: RobState, c: Completion, squash: Option<Squash>)
    requires RobShape(s)
  {
    && (squash.None? || IsOlder(ROB_CAP, c.tag, squash.value.tag))
    && (c.matchedFirst ==> MatchesTag(s, c.tag))
  }

  /** The buffer after the push, the completions and the flush of a tick, before its commit. */
  function RobEvent(s: RobState, packet: Option<IssuePacket>, ready: seq<Completion>, squash: Option<Squash>)
    : (r: RobState)
    requires RobShape(s)
  {
    var pushed := if packet.Some? then RobPush(s, packet.value.robEntry) else s;
    var readied := SetAllReady(pushed, Surviving(s, ready, squash));
    if squash.Some? then RobFlush(readied, squash.value.tag) else readied
  }

  function RobPop(s: RobState): RobState {
    s.(head := NextTag(ROB_CAP, s.head))
  }

  function RobStep(s: RobState, packet: Option<IssuePacket>, ready: seq<Completion>, squash: Option<Squash>)
    : RobState
    requires RobShape(s)
  {
    var after := RobEvent(s, packet, ready, squash);
    if WillCommit(s, squash) then RobPop(after) else after
  }

  // ---------- All structures together

  datatype CoreState = CoreState(rat: RatState, prf: PrfState, rob: RobState, lqTail: nat, sqTail: nat,
                                 ckpt: CkptState)

  predicate CoreShape(s: CoreState) {
    && RatShape(s.rat) && PrfShape(s.prf) && RobShape(s.rob) && CkptShape(s.ckpt)
    && s.ckpt.nextCkptId < CKPT_CAP && forall k :: 0 <= k < |Front(s.ckpt)| ==> Front(s.ckpt)[k] < CKPT_CAP
  }

  datatype UopKind = Arith | Jump | Branch | Load | Store | Halt | Undecodable

  /** A decoded instruction at the head of the decode queue. */
  datatype Uop = Uop(kind: UopKind, rd: nat, pc: u32, predictedPC: u32)

  /**
    What a tick is given: room tells whether the reservation stations and the memory queues have a
    place for the uop, fetch whether the fetch unit wants to go on, returned whether the word of the
    oldest request is there.
   */
  datatype Input = Input(uop: Option<Uop>, room: bool, fetch: bool, returned: bool, ready: seq<Completion>,
                         squash: Option<Squash>)

  predicate Allocates(uop: Uop) {
    uop.rd != 0 && !uop.kind.Store? && !uop.kind.Branch?
  }

  /** Halts and words that do not decode go to no reservation station. */
  predicate Executes(uop: Uop) {
    !uop.kind.Halt? && !uop.kind.Undecodable?
  }

  /** The entry of an instruction that goes to a reservation station. */
  function EntryOf(s: CoreState, uop: Uop): ROBEntry
    requires CoreShape(s) && s.ckpt.iq != [] && uop.rd < REGISTER_CAP
  {
    var kind := match uop.kind
      case Branch => BRANCH
      case Store => STORE
      case Jump => LINK
      case _ => REGISTER;
    ROBEntry(kind, false, 255, if uop.kind.Branch? || uop.kind.Store? then 0 else uop.rd, uop.predictedPC, uop.pc,
             false, TailStep(s.lqTail, uop.kind.Load?, None), TailStep(s.sqTail, uop.kind.Store?, None),
             s.ckpt.iq[0],
             if Allocates(uop) then s.prf.freeList[Slot(PRF_CAP, s.prf.headSeq)] else INVALID_PHY,
             if Allocates(uop) then s.rat.table[uop.rd] else INVALID_PHY)
  }

  predicate UopFits(s: CoreState, uop: Option<Uop>) {
    uop.Some? ==> s.ckpt.iq != [] && uop.value.rd < REGISTER_CAP
  }

  predicate InputFits(s: CoreState, input: Input) {
    && UopFits(s, input.uop)
    && (input.squash.Some? ==> input.squash.value.ckptId < CKPT_CAP)
  }

  function BuildPacket(s: CoreState, input: Input): (packet: Option<IssuePacket>)
    requires CoreShape(s) && InputFits(s, input)
    ensures PacketFits(packet, input.squash)
    ensures packet.Some? ==> input.uop.Some?
  {
    if input.squash.Some? || input.uop.None? then None
    else
      var uop := input.uop.value;
      assert Front(s.ckpt)[0] == s.ckpt.iq[0];
      match uop.kind
      case Halt =>
        Some(IssuePacket(false, INVALID_PHY,
                         ROBEntry(REGISTER, true, 255, uop.rd, 0, 0, true, 0, 0, s.ckpt.iq[0], INVALID_PHY,
                                  INVALID_PHY),
                         false, false))
      case Undecodable =>
        Some(IssuePacket(false, INVALID_PHY,
                         ROBEntry(REGISTER, false, 255, 0, 0, 0, false, 0, 0, 0, INVALID_PHY, INVALID_PHY),
                         false, false))
      case _ =>
        if RobFull(s.rob) || !input.room || (Allocates(uop) && s.prf.headSeq == s.prf.tailSeq) then None
        else
          var entry := EntryOf(s, uop);
          Some(IssuePacket(Allocates(uop), entry.newPhy, entry, uop.kind.Load?, uop.kind.Store?))
  }

  /** The tail a queue returns to: the snapshot in the entry that the squash names. */
  function RestoredTails(s: RobState, squash: Option<Squash>): Option<(nat, nat)>
    requires RobShape(s)
  {
    if squash.Some? && MatchesTag(s, squash.value.tag)
    then
      var entry := s.queue[Slot(ROB_CAP, squash.value.tag)];
      Some((entry.lqTailSnapshot, entry.sqTailSnapshot))
    else None
  }

  function Committing(s: RobState, squash: Option<Squash>): Option<ROBEntry>
    requires RobShape(s)
  {
    if WillCommit(s, squash) then Some(s.queue[Slot(ROB_CAP, s.head)]) else None
  }

  /** One clock cycle: every structure moves from the state at its start. */
  function CoreStep(s: CoreState, input: Input): CoreState
    requires CoreShape(s) && InputFits(s, input)
  {
    var packet, restored := BuildPacket(s, input), RestoredTails(s.rob, input.squash);
    CoreState(RatStep(s.rat, packet, input.squash),
              PrfStep(s.prf, packet, input.squash, Committing(s.rob, input.squash)),
              RobStep(s.rob, packet, input.ready, input.squash),
              TailStep(s.lqTail, packet.Some? && packet.value.isLoad,
                       if restored.Some? then Some(restored.value.0) else None),
              TailStep(s.sqTail, packet.Some? && packet.value.isStore,
                       if restored.Some? then Some(restored.value.1) else None),
              CkptStep(s.ckpt, input.fetch, input.returned, packet.Some?, input.squash))
  }
}
