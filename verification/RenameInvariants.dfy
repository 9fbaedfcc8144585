/**
  What every reachable state of the renaming machinery satisfies, stated against a history: the
  instructions in flight, oldest first, and what each of the five structures held right after
  each of them was issued.
 */
module RenameInvariants {
  import opened Arithmetic
  import opened Capacities
  import opened Options
  import opened Rename
  import opened Tags

  /** What the structures hold right after an instruction was issued. */
  datatype Snapshot = Snapshot(table: seq<nat>, headSeq: nat, nextTag: nat, lqTail: nat, sqTail: nat)

  /** An instruction in flight: its entry, what it takes, the tick it issued in, and the state it left. */
  datatype Flight = Flight(entry: ROBEntry, executes: bool, allocDest: bool, isLoad: bool, isStore: bool, at: nat,
                           after: Snapshot)

  /**
    base is the rename table of everything that has committed; committed, allocs, loads and
    stores count the committed instructions of each kind; firstCkpt is the checkpoint id of the
    oldest instruction in flight.
   */
  datatype History = History(base: seq<nat>, flight: seq<Flight>, committed: nat, allocs: nat,
                             loads: nat, stores: nat, firstCkpt: nat)

  // ---------- Counting and events

  function Allocations(flight: seq<Flight>): nat {
    if flight == [] then 0 else Allocations(flight[..|flight| - 1]) + if flight[|flight| - 1].allocDest then 1 else 0
  }

  function LoadCount(flight: seq<Flight>): nat {
    if flight == [] then 0 else LoadCount(flight[..|flight| - 1]) + if flight[|flight| - 1].isLoad then 1 else 0
  }

  function StoreCount(flight: seq<Flight>): nat {
    if flight == [] then 0 else StoreCount(flight[..|flight| - 1]) + if flight[|flight| - 1].isStore then 1 else 0
  }

  lemma {:induction false} CountsOfRest(flight: seq<Flight>)
    requires flight != []
    ensures Allocations(flight) == Allocations(flight[1..]) + if flight[0].allocDest then 1 else 0
    ensures LoadCount(flight) == LoadCount(flight[1..]) + if flight[0].isLoad then 1 else 0
    ensures StoreCount(flight) == StoreCount(flight[1..]) + if flight[0].isStore then 1 else 0
  {
    var n := |flight|;
    if n == 1 {
      assert flight[..0] == [] && flight[1..] == [];
    } else {
      CountsOfRest(flight[..n - 1]);
      assert flight[..n - 1][1..] == flight[1..][..n - 2];
    }
  }

  lemma {:induction false} CountsAreBounded(flight: seq<Flight>)
    ensures Allocations(flight) <= |flight| && LoadCount(flight) <= |flight| && StoreCount(flight) <= |flight|
  {
    if flight != [] {
      CountsAreBounded(flight[..|flight| - 1]);
    }
  }

  /** The table the next instruction will rename from. */
  function TableBefore(h: History, i: nat): seq<nat>
    requires i <= |h.flight|
  {
    if i == 0 then h.base else h.flight[i - 1].after.table
  }

  function Issued(h: History, f: Flight): History {
    h.(flight := h.flight + [f])
  }

  function Squashed(h: History, j: nat): History
    requires j < |h.flight|
  {
    h.(flight := h.flight[..j + 1])
  }

  function Committed(h: History): History
    requires h.flight != []
  {
    var f := h.flight[0];
    History(f.after.table, h.flight[1..], h.committed + 1,
            h.allocs + (if f.allocDest then 1 else 0), h.loads + (if f.isLoad then 1 else 0),
            h.stores + (if f.isStore then 1 else 0), (h.firstCkpt + 1) % CKPT_CAP)
  }

  // ---------- Invariants, one structure at a time

  /** The k-th checkpoint id from first on. */
  function IdAt(first: nat, k: nat): nat {
    (first + k) % CKPT_CAP
  }

  /** Checkpoint ids of instructions in flight follow each other. */
  predicate IdsInOrder(h: History) {
    |h.flight| <= ROB_CAP && h.firstCkpt < CKPT_CAP
    && forall i :: 0 <= i < |h.flight| ==> h.flight[i].entry.ckptId == IdAt(h.firstCkpt, i)
  }

  /** Ids held in front of the rename stage continue the sequence, up to the next id to hand out. */
  predicate CkptInv(s: CkptState, h: History) {
    && IdsInOrder(h) && CkptShape(s)
    && (forall j :: 0 <= j < |Front(s)| ==> Front(s)[j] == IdAt(h.firstCkpt, |h.flight| + j))
    && s.nextCkptId == IdAt(h.firstCkpt, |h.flight| + |Front(s)|)
  }

  predicate RatInv(s: RatState, h: History) {
    && RatShape(s) && IdsInOrder(h)
    && s.table == TableBefore(h, |h.flight|)
    && forall i :: 0 <= i < |h.flight| ==> s.ckpt[h.flight[i].entry.ckptId] == h.flight[i].after.table
  }

  /** Position of the k-th register handed out since the oldest instruction in flight. */
  function FreeSlot(s: PrfState, h: History, k: nat): nat
    requires |s.freeList| == PRF_CAP
  {
    s.freeList[(h.allocs + k) % PRF_CAP]
  }

  /** The registers in the free-list window: those handed out to instructions in flight, then the free ones. */
  function Window(s: PrfState, h: History): seq<nat>
    requires |s.freeList| == PRF_CAP
  {
    seq(ROB_CAP, k requires 0 <= k => FreeSlot(s, h, k))
  }

  predicate PrfInv(s: PrfState, h: History) {
    && PrfShape(s) && IdsInOrder(h)
    && s.headSeq == Encode(PRF_CAP, h.allocs + Allocations(h.flight))
    && s.tailSeq == Encode(PRF_CAP, h.allocs + ROB_CAP)
    && forall i :: 0 <= i < |h.flight| ==> PrfLink(s, h, i)
  }

  /** What the free list knows about one instruction in flight. */
  predicate PrfLink(s: PrfState, h: History, i: nat)
    requires PrfShape(s) && i < |h.flight|
  {
    var f := h.flight[i];
    && f.entry.ckptId < CKPT_CAP
    && f.after.headSeq == Encode(PRF_CAP, h.allocs + Allocations(h.flight[..i + 1]))
    && s.headCkpt[f.entry.ckptId] == f.after.headSeq
    && (f.allocDest ==> f.entry.newPhy == FreeSlot(s, h, Allocations(h.flight[..i])))
  }

  /** Every instruction renamed from the table its predecessor left, and remembers what it replaced. */
  predicate Chained(h: History) {
    && |h.base| == REGISTER_CAP
    && forall i :: 0 <= i < |h.flight| ==> Link(TableBefore(h, i), h.flight[i])
  }

  predicate Link(table: seq<nat>, f: Flight) {
    && |table| == REGISTER_CAP && (f.isStore <==> f.entry.kind.STORE?)
    && (f.allocDest ==>
          && 0 < f.entry.dest < REGISTER_CAP && !f.entry.halt && (f.entry.kind.REGISTER? || f.entry.kind.LINK?)
          && f.entry.oldPhy == table[f.entry.dest]
          && f.after.table == table[f.entry.dest := f.entry.newPhy])
    && (!f.allocDest ==> f.after.table == table && f.entry.oldPhy == INVALID_PHY)
  }

  /** The registers 1 .. PRF_CAP-1, once each. */
  function AllRegisters(): seq<nat> {
    seq(PRF_CAP - 1, i requires 0 <= i => i + 1)
  }

  /** Committed targets and window together are all registers, once each. */
  predicate Partition(s: PrfState, h: History) {
    |s.freeList| == PRF_CAP && |h.base| == REGISTER_CAP
    && multiset(h.base[1..]) + multiset(Window(s, h)) == multiset(AllRegisters())
  }

  /** An entry in the buffer is the one that was issued, apart from having become ready. */
  predicate SameEntry(e: ROBEntry, issued: ROBEntry) {
    e.(isCommitReady := issued.isCommitReady) == issued
  }

  predicate RobInv(s: RobState, h: History) {
    && RobShape(s) && |h.flight| <= ROB_CAP
    && s.head == Encode(ROB_CAP, h.committed) && s.nextTag == Encode(ROB_CAP, h.committed + |h.flight|)
    && forall i :: 0 <= i < |h.flight| ==> RobLink(s, h, i)
  }

  /** What the buffer knows about one instruction in flight. */
  predicate RobLink(s: RobState, h: History, i: nat)
    requires RobShape(s) && i < |h.flight|
  {
    && h.flight[i].entry.tag == Encode(ROB_CAP, h.committed + i)
    && h.flight[i].after.nextTag == Encode(ROB_CAP, h.committed + i + 1)
    && SameEntry(s.queue[(h.committed + i) % ROB_CAP], h.flight[i].entry)
  }

  /** Queue tails count the loads and stores; every entry of an instruction that executes knows its tails. */
  predicate TailInv(lqTail: nat, sqTail: nat, h: History) {
    && lqTail == (h.loads + LoadCount(h.flight)) % QUEUE_CAP
    && sqTail == (h.stores + StoreCount(h.flight)) % QUEUE_CAP
    && forall i :: 0 <= i < |h.flight| ==> TailLink(h, i)
  }

  predicate TailLink(h: History, i: nat)
    requires i < |h.flight|
  {
    var f := h.flight[i];
    && f.after.lqTail == (h.loads + LoadCount(h.flight[..i + 1])) % QUEUE_CAP
    && f.after.sqTail == (h.stores + StoreCount(h.flight[..i + 1])) % QUEUE_CAP
    && (f.executes ==> f.entry.lqTailSnapshot == f.after.lqTail && f.entry.sqTailSnapshot == f.after.sqTail)
  }

  // ---------- The rename table

  lemma {:induction false} IdsDiffer(first: nat, i: nat, j: nat)
    requires i < j < i + CKPT_CAP
    ensures IdAt(first, i) != IdAt(first, j)
  {
    if (first + i) % CKPT_CAP == (first + j) % CKPT_CAP {
      ModInjective(first + i, first + j, CKPT_CAP);
    }
  }

  lemma {:induction false} IdsAfterIssue(h: History, f: Flight)
    requires IdsInOrder(h) && |h.flight| < ROB_CAP && f.entry.ckptId == IdAt(h.firstCkpt, |h.flight|)
    ensures IdsInOrder(Issued(h, f))
    ensures forall i :: 0 <= i < |h.flight| ==> h.flight[i].entry.ckptId != f.entry.ckptId
    ensures forall i :: 0 <= i < |h.flight| ==> h.flight[i].entry.ckptId < CKPT_CAP
  {
    forall i | 0 <= i < |h.flight| ensures h.flight[i].entry.ckptId != f.entry.ckptId {
      IdsDiffer(h.firstCkpt, i, |h.flight|);
    }
  }

  lemma {:induction false} RatIssue(s: RatState, h: History, packet: IssuePacket, f: Flight)
    requires RatInv(s, h) && |h.flight| < ROB_CAP && PacketFits(Some(packet), None)
    requires f.entry.ckptId == packet.robEntry.ckptId == IdAt(h.firstCkpt, |h.flight|)
    requires f.after.table == Renamed(s.table, packet)
    ensures RatInv(RatStep(s, Some(packet), None), Issued(h, f))
  {
    IdsAfterIssue(h, f);
    var s', h' := RatStep(s, Some(packet), None), Issued(h, f);
    forall i | 0 <= i < |h'.flight| ensures s'.ckpt[h'.flight[i].entry.ckptId] == h'.flight[i].after.table {
      if i < |h.flight| {
        assert h'.flight[i] == h.flight[i];
      }
    }
  }

  lemma {:induction false} RatSquash(s: RatState, h: History, squash: Squash, j: nat)
    requires RatInv(s, h) && j < |h.flight| && squash.ckptId == h.flight[j].entry.ckptId
    ensures RatInv(RatStep(s, None, Some(squash)), Squashed(h, j))
    ensures RatStep(s, None, Some(squash)).table == h.flight[j].after.table
  {
  }

  lemma {:induction false} RatCommit(s: RatState, h: History)
    requires RatInv(s, h) && h.flight != []
    ensures RatInv(s, Committed(h))
  {
    IdsAfterCommit(h);
  }

  lemma {:induction false} IdAfterCommit(first: nat, k: nat)
    ensures IdAt((first + 1) % CKPT_CAP, k) == IdAt(first, k + 1)
  {
    ModEqual(first + 1 + k, (first + 1) % CKPT_CAP + k, (first + 1) / CKPT_CAP, CKPT_CAP);
  }

  lemma {:induction false} IdAfter(first: nat, k: nat)
    ensures (IdAt(first, k) + 1) % CKPT_CAP == IdAt(first, k + 1)
  {
  }

  lemma {:induction false} IdsAfterCommit(h: History)
    requires IdsInOrder(h) && h.flight != []
    ensures IdsInOrder(Committed(h))
  {
    var h' := Committed(h);
    forall i | 0 <= i < |h'.flight| ensures h'.flight[i].entry.ckptId == IdAt(h'.firstCkpt, i) {
      assert h'.flight[i] == h.flight[i + 1];
      IdAfterCommit(h.firstCkpt, i);
    }
  }

  // ---------- The free list

  lemma {:induction false} PrfIssue(s: PrfState, h: History, packet: IssuePacket, f: Flight)
    requires PrfInv(s, h) && |h.flight| < ROB_CAP && PacketFits(Some(packet), None)
    requires f.entry.ckptId == packet.robEntry.ckptId == IdAt(h.firstCkpt, |h.flight|)
    requires f.allocDest == packet.allocDest
    requires f.allocDest ==> f.entry.newPhy == s.freeList[Slot(PRF_CAP, s.headSeq)]
    requires f.after.headSeq == PrfStep(s, Some(packet), None, None).headSeq
    ensures PrfInv(PrfStep(s, Some(packet), None, None), Issued(h, f))
  {
    hide Slot, NextTag, Encode, IdAt;
    var s', h', n := PrfStep(s, Some(packet), None, None), Issued(h, f), |h.flight|;
    IdsAfterIssue(h, f);
    assert h'.flight[..n] == h.flight && h'.flight[..n + 1] == h'.flight;
    HeadAfterIssue(h.allocs + Allocations(h.flight), packet.allocDest);
    forall i | 0 <= i < |h'.flight| ensures PrfLink(s', h', i) {
      if i < n {
        assert PrfLink(s, h, i);
        LinkKept(s, h, s', h', i);
      }
    }
  }

  lemma {:induction false} HeadAfterIssue(n: nat, allocDest: bool)
    ensures Slot(PRF_CAP, Encode(PRF_CAP, n)) == n % PRF_CAP
    ensures NextTag(PRF_CAP, Encode(PRF_CAP, n)) == Encode(PRF_CAP, n + 1)
    ensures Slot(PRF_CAP, Encode(PRF_CAP, if allocDest then n + 1 else n)) < PRF_CAP
  {
    hide Slot, NextTag, Encode;
    NextOfEncoded(PRF_CAP, n);
    DecodeEncoded(PRF_CAP, n);
    DecodeEncoded(PRF_CAP, n + 1);
  }

  /** Instructions that stay in flight keep their link. */
  lemma {:induction false} LinkKept(s: PrfState, h: History, s': PrfState, h': History, i: nat)
    requires PrfShape(s) && PrfShape(s') && i < |h.flight| && i < |h'.flight| && PrfLink(s, h, i)
    requires h'.flight[..i + 1] == h.flight[..i + 1] && h'.allocs == h.allocs && s'.freeList == s.freeList
    requires s'.headCkpt[h.flight[i].entry.ckptId] == s.headCkpt[h.flight[i].entry.ckptId]
    ensures PrfLink(s', h', i)
  {
    hide Slot, Encode, PrfShape;
    assert h'.flight[i] == h'.flight[..i + 1][i] && h.flight[i] == h.flight[..i + 1][i];
    assert h'.flight[..i] == h'.flight[..i + 1][..i] && h.flight[..i] == h.flight[..i + 1][..i];
  }

  lemma {:induction false} PrfSquash(s: PrfState, h: History, squash: Squash, j: nat)
    requires PrfInv(s, h) && j < |h.flight| && squash.ckptId == h.flight[j].entry.ckptId && squash.ckptId < CKPT_CAP
    ensures PrfInv(PrfStep(s, None, Some(squash), None), Squashed(h, j))
    ensures PrfStep(s, None, Some(squash), None).headSeq == h.flight[j].after.headSeq
  {
    hide Slot, NextTag, Encode, FreeSlot, Allocations;
    var s', h' := PrfStep(s, None, Some(squash), None), Squashed(h, j);
    assert PrfLink(s, h, j) && h'.flight == h.flight[..j + 1];
    assert PrfShape(s') by {
      DecodeEncoded(PRF_CAP, h.allocs + Allocations(h.flight[..j + 1]));
    }
    forall i | 0 <= i < |h'.flight| ensures PrfLink(s', h', i) {
      LinkKept(s, h, s', h', i);
    }
  }

  /** Counting from the second instruction on. */
  lemma {:induction false} ShiftedCounts(h: History, i: nat)
    requires 0 < i <= |h.flight|
    ensures Committed(h).flight[..i - 1] == h.flight[..i][1..]
    ensures Allocations(h.flight[..i])
         == Allocations(Committed(h).flight[..i - 1]) + if h.flight[0].allocDest then 1 else 0
    ensures LoadCount(h.flight[..i]) == LoadCount(Committed(h).flight[..i - 1]) + if h.flight[0].isLoad then 1 else 0
    ensures StoreCount(h.flight[..i]) == StoreCount(Committed(h).flight[..i - 1]) + if h.flight[0].isStore then 1 else 0
  {
    hide Slot, Encode;
    CountsOfRest(h.flight[..i]);
    assert Committed(h).flight[..i - 1] == h.flight[..i][1..];
  }

  /** A committed table never maps a register to the reserved one. */
  lemma {:induction false} MappedIsReal(s: PrfState, h: History, r: nat)
    requires Partition(s, h) && 0 < r < REGISTER_CAP
    ensures 0 < h.base[r] < PRF_CAP
  {
    assert h.base[1..][r - 1] == h.base[r];
    assert h.base[r] in multiset(h.base[1..]);
    assert h.base[r] in multiset(AllRegisters());
  }

  /** Replacing one element of a sequence replaces it in the multiset. */
  lemma {:induction false} ReplacedMultiset(table: seq<nat>, r: nat, v: nat)
    requires 0 < r < |table|
    ensures multiset(table[r := v][1..]) == multiset(table[1..]) - multiset{table[r]} + multiset{v}
  {
    assert table[r := v][1..] == table[1..][r - 1 := v];
  }

  lemma {:induction false} HeadMultiset(w: seq<nat>)
    requires w != []
    ensures multiset(w) == multiset{w[0]} + multiset(w[1..])
  {
    assert w == [w[0]] + w[1..];
  }

  /** After the commit of an allocating entry the window has moved by one and ends with the freed register. */
  lemma {:induction false} WindowAfterCommit(s: PrfState, s': PrfState, h: History, freed: nat)
    requires |s.freeList| == PRF_CAP && h.flight != [] && h.flight[0].allocDest
    requires s'.freeList == s.freeList[(h.allocs + ROB_CAP) % PRF_CAP := freed]
    ensures forall k :: 0 <= k < ROB_CAP - 1 ==> FreeSlot(s', Committed(h), k) == FreeSlot(s, h, k + 1)
    ensures Window(s', Committed(h)) == Window(s, h)[1..] + [freed]
  {
    forall k | 0 <= k < ROB_CAP - 1 ensures FreeSlot(s', Committed(h), k) == FreeSlot(s, h, k + 1) {
      if (h.allocs + 1 + k) % PRF_CAP == (h.allocs + ROB_CAP) % PRF_CAP {
        ModInjective(h.allocs + 1 + k, h.allocs + ROB_CAP, PRF_CAP);
      }
    }
  }

  /** The instructions behind the committing one keep their link, one position further down. */
  lemma {:induction false} LinkAfterCommit(s: PrfState, s': PrfState, h: History, i: nat)
    requires PrfShape(s) && PrfShape(s') && i + 1 < |h.flight| <= ROB_CAP && PrfLink(s, h, i + 1)
    requires s'.headCkpt == s.headCkpt
    requires var d := if h.flight[0].allocDest then 1 else 0;
             forall k :: 0 <= k < ROB_CAP - 1 ==> FreeSlot(s', Committed(h), k) == FreeSlot(s, h, k + d)
    ensures PrfLink(s', Committed(h), i)
  {
    hide Slot, Encode, PrfShape, Allocations, LoadCount, StoreCount;
    var h' := Committed(h);
    assert h'.flight[i] == h.flight[i + 1];
    ShiftedCounts(h, i + 1);
    ShiftedCounts(h, i + 2);
    CountsAreBounded(h'.flight[..i]);
  }

  lemma {:induction false} AllocationsAfterCommit(h: History)
    requires h.flight != []
    ensures Committed(h).allocs + Allocations(Committed(h).flight) == h.allocs + Allocations(h.flight)
  {
    assert h.flight[..|h.flight|] == h.flight;
    assert Committed(h).flight[..|h.flight| - 1] == Committed(h).flight;
    ShiftedCounts(h, |h.flight|);
  }

  /** A commit that hands nothing out leaves the head where it is and moves the window along. */
  lemma {:induction false} FreeListAfterCommit(s: PrfState, s': PrfState, h: History)
    requires PrfInv(s, h) && h.flight != [] && PrfShape(s') && |h.flight| <= ROB_CAP
    requires s'.headSeq == s.headSeq && s'.headCkpt == s.headCkpt
    requires s'.tailSeq == Encode(PRF_CAP, Committed(h).allocs + ROB_CAP)
    requires var d := if h.flight[0].allocDest then 1 else 0;
             forall k :: 0 <= k < ROB_CAP - 1 ==> FreeSlot(s', Committed(h), k) == FreeSlot(s, h, k + d)
    ensures PrfInv(s', Committed(h))
  {
    hide Slot, Encode;
    var h' := Committed(h);
    assert IdsInOrder(h') by {
      IdsAfterCommit(h);
    }
    assert s'.headSeq == Encode(PRF_CAP, h'.allocs + Allocations(h'.flight)) by {
      AllocationsAfterCommit(h);
    }
    forall i | 0 <= i < |h'.flight| ensures PrfLink(s', h', i) {
      LinkAfterCommit(s, s', h, i);
    }
  }

  /** The freed register takes the place in the pool that the committed mapping leaves. */
  lemma {:induction false} PartitionAfterCommit(s: PrfState, s': PrfState, h: History)
    requires Partition(s, h) && PrfShape(s) && h.flight != [] && h.flight[0].allocDest
    requires Link(h.base, h.flight[0]) && h.flight[0].entry.newPhy == FreeSlot(s, h, 0)
    requires s'.freeList == s.freeList[(h.allocs + ROB_CAP) % PRF_CAP := h.flight[0].entry.oldPhy]
    ensures Partition(s', Committed(h))
  {
    var entry := h.flight[0].entry;
    WindowAfterCommit(s, s', h, entry.oldPhy);
    assert Window(s, h)[0] == entry.newPhy;
    ReplacedMultiset(h.base, entry.dest, entry.newPhy);
    HeadMultiset(Window(s, h));
    assert h.base[1..][entry.dest - 1] == entry.oldPhy;
  }

  /** What committing an allocating entry does to the free list. */
  lemma {:induction false} FreeListStep(s: PrfState, h: History, entry: ROBEntry)
    requires PrfShape(s) && s.tailSeq == Encode(PRF_CAP, h.allocs + ROB_CAP)
    requires Freed(Some(entry)) == Some(entry.oldPhy)
    ensures var s' := PrfStep(s, None, None, Some(entry));
            && PrfShape(s') && s'.headSeq == s.headSeq && s'.headCkpt == s.headCkpt
            && s'.freeList == s.freeList[(h.allocs + ROB_CAP) % PRF_CAP := entry.oldPhy]
            && s'.tailSeq == Encode(PRF_CAP, h.allocs + 1 + ROB_CAP)
  {
    DecodeEncoded(PRF_CAP, h.allocs + ROB_CAP);
    NextOfEncoded(PRF_CAP, h.allocs + ROB_CAP);
    DecodeEncoded(PRF_CAP, h.allocs + 1 + ROB_CAP);
  }

  lemma {:induction false} NoAllocations(h: History)
    ensures Allocations(h.flight[..0]) == 0
  {
  }

  lemma {:induction false} PrfCommitAllocating(s: PrfState, h: History, entry: ROBEntry)
    requires PrfInv(s, h) && Chained(h) && Partition(s, h)
    requires h.flight != [] && h.flight[0].allocDest && SameEntry(entry, h.flight[0].entry)
    ensures PrfInv(PrfStep(s, None, None, Some(entry)), Committed(h))
    ensures Partition(PrfStep(s, None, None, Some(entry)), Committed(h))
  {
    hide Slot, NextTag, Encode, Allocations, LoadCount, StoreCount;
    var f, s', h' := h.flight[0], PrfStep(s, None, None, Some(entry)), Committed(h);
    assert Link(TableBefore(h, 0), f);
    assert Freed(Some(entry)) == Some(f.entry.oldPhy) by {
      MappedIsReal(s, h, f.entry.dest);
    }
    FreeListStep(s, h, entry);
    assert Partition(s', h') by {
      assert PrfLink(s, h, 0);
      NoAllocations(h);
      PartitionAfterCommit(s, s', h);
    }
    assert PrfInv(s', h') by {
      WindowAfterCommit(s, s', h, f.entry.oldPhy);
      FreeListAfterCommit(s, s', h);
    }
  }

  /** The partition only speaks of the free list, the committed table and the allocations before it. */
  lemma {:induction false} PartitionKept(s: PrfState, h: History, s': PrfState, h': History)
    requires Partition(s, h) && s'.freeList == s.freeList && h'.base == h.base && h'.allocs == h.allocs
    ensures Partition(s', h')
  {
    assert Window(s', h') == Window(s, h);
  }

  lemma {:induction false} PrfCommitOther(s: PrfState, h: History, entry: ROBEntry)
    requires PrfInv(s, h) && Chained(h) && Partition(s, h)
    requires h.flight != [] && !h.flight[0].allocDest && SameEntry(entry, h.flight[0].entry)
    ensures PrfStep(s, None, None, Some(entry)) == s
    ensures PrfInv(s, Committed(h)) && Partition(s, Committed(h))
  {
    hide Slot, NextTag, Encode, PrfLink, Partition;
    var h' := Committed(h);
    assert Link(TableBefore(h, 0), h.flight[0]);
    FreeListAfterCommit(s, s, h);
    PartitionKept(s, h, s, h');
  }

  // ---------- The chain of renames

  lemma {:induction false} ChainIssue(h: History, f: Flight)
    requires Chained(h) && Link(TableBefore(h, |h.flight|), f)
    ensures Chained(Issued(h, f))
  {
    var h' := Issued(h, f);
    forall i | 0 <= i < |h'.flight| ensures Link(TableBefore(h', i), h'.flight[i]) {
      assert TableBefore(h', i) == TableBefore(h, i);
      if i < |h.flight| {
        assert Link(TableBefore(h, i), h.flight[i]);
      }
    }
  }

  lemma {:induction false} ChainSquash(h: History, j: nat)
    requires Chained(h) && j < |h.flight|
    ensures Chained(Squashed(h, j))
  {
    forall i | 0 <= i < j + 1 ensures Link(TableBefore(Squashed(h, j), i), Squashed(h, j).flight[i]) {
      assert Link(TableBefore(h, i), h.flight[i]);
    }
  }

  lemma {:induction false} ChainCommit(h: History)
    requires Chained(h) && h.flight != []
    ensures Chained(Committed(h))
  {
    var h' := Committed(h);
    assert Link(TableBefore(h, 0), h.flight[0]);
    forall i | 0 <= i < |h'.flight| ensures Link(TableBefore(h', i), h'.flight[i]) {
      assert Link(TableBefore(h, i + 1), h.flight[i + 1]);
    }
  }

  // ---------- The reorder buffer

  /** Positions of different live entries. */
  lemma {:induction false} SlotsDiffer(first: nat, i: nat, j: nat)
    requires i < j < i + ROB_CAP
    ensures (first + i) % ROB_CAP != (first + j) % ROB_CAP
  {
    if (first + i) % ROB_CAP == (first + j) % ROB_CAP {
      ModInjective(first + i, first + j, ROB_CAP);
    }
  }

  lemma {:induction false} RobIssue(s: RobState, h: History, entry: ROBEntry, f: Flight)
    requires RobInv(s, h) && |h.flight| < ROB_CAP
    requires f.entry == entry.(tag := s.nextTag) && f.after.nextTag == NextTag(ROB_CAP, s.nextTag)
    ensures RobInv(RobPush(s, entry), Issued(h, f))
  {
    hide Slot, NextTag, Encode;
    var s', h', n := RobPush(s, entry), Issued(h, f), |h.flight|;
    NextOfEncoded(ROB_CAP, h.committed + n);
    DecodeEncoded(ROB_CAP, h.committed + n);
    DecodeEncoded(ROB_CAP, h.committed + n + 1);
    forall i | 0 <= i < |h'.flight| ensures RobLink(s', h', i) {
      if i < n {
        assert RobLink(s, h, i);
        SlotsDiffer(h.committed, i, n);
      }
    }
  }

  lemma {:induction false} RobReady(s: RobState, h: History, tag: nat)
    requires RobInv(s, h)
    ensures RobInv(SetReady(s, tag), h)
  {
    forall i | 0 <= i < |h.flight| ensures RobLink(SetReady(s, tag), h, i) {
      assert RobLink(s, h, i);
    }
  }

  lemma {:induction false} RobAllReady(s: RobState, h: History, tags: seq<nat>)
    requires RobInv(s, h)
    ensures RobInv(SetAllReady(s, tags), h)
    decreases |tags|
  {
    if tags != [] {
      RobReady(s, h, tags[0]);
      RobAllReady(SetReady(s, tags[0]), h, tags[1..]);
    }
  }

  /** Live tags match. */
  lemma {:induction false} LiveTagMatches(s: RobState, h: History, i: nat)
    requires RobInv(s, h) && i < |h.flight|
    ensures MatchesTag(s, h.flight[i].entry.tag)
    ensures Slot(ROB_CAP, h.flight[i].entry.tag) == (h.committed + i) % ROB_CAP
  {
    assert RobLink(s, h, i);
    DecodeEncoded(ROB_CAP, h.committed + i);
    FullAndEmpty(ROB_CAP, h.committed, |h.flight|);
  }

  lemma {:induction false} RobSquash(s: RobState, h: History, j: nat)
    requires RobInv(s, h) && j < |h.flight|
    ensures RobInv(RobFlush(s, h.flight[j].entry.tag), Squashed(h, j))
    ensures RobFlush(s, h.flight[j].entry.tag).nextTag == h.flight[j].after.nextTag
  {
    hide Slot, NextTag, Encode;
    var s', h' := RobFlush(s, h.flight[j].entry.tag), Squashed(h, j);
    assert s'.queue == s.queue && s'.head == s.head && s'.nextTag == Encode(ROB_CAP, h.committed + j + 1) by {
      LiveTagMatches(s, h, j);
      assert RobLink(s, h, j);
      NextOfEncoded(ROB_CAP, h.committed + j);
    }
    DecodeEncoded(ROB_CAP, h.committed + j + 1);
    assert RobLink(s, h, j);
    forall i | 0 <= i < |h'.flight| ensures RobLink(s', h', i) {
      assert RobLink(s, h, i) && h'.flight[i] == h.flight[i];
    }
  }

  lemma {:induction false} RobCommit(s: RobState, h: History)
    requires RobInv(s, h) && h.flight != []
    ensures RobInv(RobPop(s), Committed(h))
  {
    hide Slot, NextTag, Encode;
    var s', h' := RobPop(s), Committed(h);
    NextOfEncoded(ROB_CAP, h.committed);
    DecodeEncoded(ROB_CAP, h.committed + 1);
    forall i | 0 <= i < |h'.flight| ensures RobLink(s', h', i) {
      assert RobLink(s, h, i + 1);
    }
  }

  /** A commit takes the oldest instruction in flight, and one the squash of the same tick leaves alone. */
  lemma {:induction false} CommitIsOldest(s: RobState, h: History, squash: Option<Squash>, j: nat)
    requires RobInv(s, h) && WillCommit(s, squash)
    requires squash.Some? ==> j < |h.flight| && squash.value.tag == h.flight[j].entry.tag
    ensures h.flight != [] && SameEntry(s.queue[Slot(ROB_CAP, s.head)], h.flight[0].entry)
    ensures squash.Some? ==> 0 < j
  {
    FullAndEmpty(ROB_CAP, h.committed, |h.flight|);
    assert RobLink(s, h, 0);
    DecodeEncoded(ROB_CAP, h.committed);
    if squash.Some? {
      assert RobLink(s, h, j);
      OlderIsEarlier(ROB_CAP, h.committed, h.committed + j);
    }
  }

  /** Full and empty mean what they say. */
  lemma {:induction false} RobOccupancy(s: RobState, h: History)
    requires RobInv(s, h)
    ensures RobFull(s) <==> |h.flight| == ROB_CAP
    ensures RobEmpty(s) <==> h.flight == []
  {
    FullAndEmpty(ROB_CAP, h.committed, |h.flight|);
  }

  // ---------- Queue tails

  lemma {:induction false} TailAdvances(n: nat, push: bool)
    ensures TailStep(n % QUEUE_CAP, push, None) == (n + if push then 1 else 0) % QUEUE_CAP
  {
  }

  /** Instructions that stay in flight keep their tails. */
  lemma {:induction false} TailLinkKept(h: History, h': History, i: nat)
    requires i < |h.flight| && i < |h'.flight| && TailLink(h, i)
    requires h'.flight[..i + 1] == h.flight[..i + 1] && h'.loads == h.loads && h'.stores == h.stores
    ensures TailLink(h', i)
  {
    assert h'.flight[i] == h'.flight[..i + 1][i] && h.flight[i] == h.flight[..i + 1][i];
  }

  lemma {:induction false} TailIssue(lqTail: nat, sqTail: nat, h: History, f: Flight)
    requires TailInv(lqTail, sqTail, h)
    requires f.after.lqTail == TailStep(lqTail, f.isLoad, None) && f.after.sqTail == TailStep(sqTail, f.isStore, None)
    requires f.executes ==> f.entry.lqTailSnapshot == f.after.lqTail && f.entry.sqTailSnapshot == f.after.sqTail
    ensures TailInv(f.after.lqTail, f.after.sqTail, Issued(h, f))
  {
    var h', n := Issued(h, f), |h.flight|;
    assert h'.flight[..n] == h.flight && h'.flight[..n + 1] == h'.flight;
    assert f.after.lqTail == (h.loads + LoadCount(h'.flight)) % QUEUE_CAP by {
      TailAdvances(h.loads + LoadCount(h.flight), f.isLoad);
    }
    assert f.after.sqTail == (h.stores + StoreCount(h'.flight)) % QUEUE_CAP by {
      TailAdvances(h.stores + StoreCount(h.flight), f.isStore);
    }
    forall i | 0 <= i < |h'.flight| ensures TailLink(h', i) {
      if i < n {
        assert h'.flight[..i + 1] == h.flight[..i + 1];
        TailLinkKept(h, h', i);
      }
    }
  }

  lemma {:induction false} TailSquash(lqTail: nat, sqTail: nat, h: History, j: nat)
    requires TailInv(lqTail, sqTail, h) && j < |h.flight|
    ensures TailInv(h.flight[j].after.lqTail, h.flight[j].after.sqTail, Squashed(h, j))
  {
    var h' := Squashed(h, j);
    assert TailLink(h, j) && h'.flight == h.flight[..j + 1];
    forall i | 0 <= i < |h'.flight| ensures TailLink(h', i) {
      assert h'.flight[..i + 1] == h.flight[..i + 1];
      TailLinkKept(h, h', i);
    }
  }

  lemma {:induction false} TailLinkAfterCommit(h: History, i: nat)
    requires i + 1 < |h.flight| && TailLink(h, i + 1)
    ensures TailLink(Committed(h), i)
  {
    ShiftedCounts(h, i + 2);
  }

  lemma {:induction false} TailCommit(lqTail: nat, sqTail: nat, h: History)
    requires TailInv(lqTail, sqTail, h) && h.flight != []
    ensures TailInv(lqTail, sqTail, Committed(h))
  {
    var h', n := Committed(h), |h.flight|;
    assert h'.loads + LoadCount(h'.flight) == h.loads + LoadCount(h.flight)
      && h'.stores + StoreCount(h'.flight) == h.stores + StoreCount(h.flight) by {
      ShiftedCounts(h, n);
      assert h.flight[..n] == h.flight && h'.flight[..n - 1] == h'.flight;
    }
    forall i | 0 <= i < |h'.flight| ensures TailLink(h', i) {
      TailLinkAfterCommit(h, i);
    }
  }

  // ---------- Checkpoint ids

  /** What one queue passes on the next one takes. */
  lemma PassedAlong(iq: seq<nat>, decoded: seq<nat>, fq: seq<nat>, moved: seq<nat>, requests: seq<nat>,
                    fetched: seq<nat>)
    ensures (iq + decoded) + (fq + moved) + (requests + fetched)
         == iq + (decoded + fq) + (moved + requests) + fetched
  {
    Joined(iq, decoded, fq + moved + requests + fetched);
    Joined(decoded, fq, moved + requests + fetched);
  }

  lemma Joined(a: seq<nat>, b: seq<nat>, c: seq<nat>)
    ensures a + b + c == a + (b + c)
  {
  }

  lemma OldestTaken(iq: seq<nat>, fq: seq<nat>, requests: seq<nat>)
    requires iq != []
    ensures (iq + fq + requests)[1..] == iq[1..] + fq + requests && (iq + fq + requests)[0] == iq[0]
  {
  }

  /** What each queue keeps, and what it passes on. */
  lemma StepParts(s: CkptState, fetch: bool, returned: bool, issued: bool)
      returns (fq: seq<nat>, decoded: seq<nat>, requests: seq<nat>, moved: seq<nat>)
    requires CkptShape(s) && (issued ==> s.iq != [])
    ensures s.fq == decoded + fq && s.requests == moved + requests
    ensures var s' := CkptStep(s, fetch, returned, issued, None);
            && CkptShape(s')
            && s'.iq == (if issued then s.iq[1..] else s.iq) + decoded
            && s'.fq == fq + moved
            && s'.requests == requests + if Fetches(s, fetch, None) then [s.nextCkptId] else []
  {
    fq, decoded := if Decodes(s) then s.fq[1..] else s.fq, if Decodes(s) then [s.fq[0]] else [];
    requests := if Moves(s, returned) then s.requests[1..] else s.requests;
    moved := if Moves(s, returned) then [s.requests[0]] else [];
  }

  /** Whatever moves between the queues: an issue takes the oldest id, and a fetch adds the next one. */
  lemma {:induction false} FrontMoves(s: CkptState, fetch: bool, returned: bool, issued: bool)
    requires CkptShape(s) && (issued ==> s.iq != [])
    ensures var s' := CkptStep(s, fetch, returned, issued, None);
            && CkptShape(s')
            && Front(s') == (if issued then Front(s)[1..] else Front(s))
                            + if Fetches(s, fetch, None) then [s.nextCkptId] else []
  {
    hide CkptStep, Fetches, Moves, Decodes, CkptShape;
    var fq, decoded, requests, moved := StepParts(s, fetch, returned, issued);
    PassedAlong(if issued then s.iq[1..] else s.iq, decoded, fq, moved, requests,
                if Fetches(s, fetch, None) then [s.nextCkptId] else []);
    if issued {
      OldestTaken(s.iq, s.fq, s.requests);
    }
  }

  lemma {:induction false} CkptIssue(s: CkptState, h: History, f: Flight, fetch: bool, returned: bool)
    requires CkptInv(s, h) && s.iq != [] && f.entry.ckptId == s.iq[0] && |h.flight| < ROB_CAP
    ensures CkptInv(CkptStep(s, fetch, returned, true, None), Issued(h, f))
  {
    hide IdAt, CkptShape, CkptStep, Fetches;
    var s', h' := CkptStep(s, fetch, returned, true, None), Issued(h, f);
    FrontMoves(s, fetch, returned, true);
    NextId(s, fetch, returned, true);
    assert Front(s)[0] == s.iq[0];
    IdsAfterIssue(h, f);
    IdAfter(h.firstCkpt, |h.flight| + |Front(s)|);
    forall j | 0 <= j < |Front(s')| ensures Front(s')[j] == IdAt(h'.firstCkpt, |h'.flight| + j) {
      if j + 1 < |Front(s)| {
        assert Front(s')[j] == Front(s)[j + 1];
      }
    }
  }

  lemma NextId(s: CkptState, fetch: bool, returned: bool, issued: bool)
    requires issued ==> s.iq != []
    ensures CkptStep(s, fetch, returned, issued, None).nextCkptId
         == if Fetches(s, fetch, None) then (s.nextCkptId + 1) % CKPT_CAP else s.nextCkptId
  {
  }

  lemma {:induction false} CkptFetch(s: CkptState, h: History, fetch: bool, returned: bool)
    requires CkptInv(s, h)
    ensures CkptInv(CkptStep(s, fetch, returned, false, None), h)
  {
    hide IdAt, CkptShape, CkptStep, Fetches;
    FrontMoves(s, fetch, returned, false);
    NextId(s, fetch, returned, false);
    IdAfter(h.firstCkpt, |h.flight| + |Front(s)|);
  }

  lemma {:induction false} CkptSquash(s: CkptState, h: History, fetch: bool, returned: bool, squash: Squash, j: nat)
    requires CkptInv(s, h) && j < |h.flight| && squash.ckptId == h.flight[j].entry.ckptId
    ensures CkptInv(CkptStep(s, fetch, returned, false, Some(squash)), Squashed(h, j))
  {
    hide IdAt;
    assert h.flight[j].entry.ckptId == IdAt(h.firstCkpt, j);
    IdAfter(h.firstCkpt, j);
  }

  lemma {:induction false} CkptCommit(s: CkptState, h: History)
    requires CkptInv(s, h) && h.flight != []
    ensures CkptInv(s, Committed(h))
  {
    var h', n := Committed(h), |h.flight| - 1;
    IdsAfterCommit(h);
    IdAfterCommit(h.firstCkpt, n + |Front(s)|);
    forall j | 0 <= j < |Front(s)| ensures Front(s)[j] == IdAt(h'.firstCkpt, n + j) {
      IdAfterCommit(h.firstCkpt, n + j);
    }
  }

  function FlightIds(h: History): seq<nat> {
    seq(|h.flight|, i requires 0 <= i < |h.flight| => h.flight[i].entry.ckptId)
  }

  lemma FrontIsShort(s: CkptState)
    requires CkptShape(s)
    ensures |Front(s)| <= FRONT_CAP
  {
  }

  /** No two live instructions hold the same checkpoint id, in flight or in front. */
  lemma {:induction false} LiveIdsAreDistinct(s: CkptState, h: History)
    requires CkptInv(s, h)
    ensures var live := FlightIds(h) + Front(s);
            && (forall i, j :: 0 <= i < j < |live| ==> live[i] != live[j])
            && s.nextCkptId !in live
  {
    var live := FlightIds(h) + Front(s);
    FrontIsShort(s);
    forall i | 0 <= i < |live| ensures live[i] == IdAt(h.firstCkpt, i) {
      if i >= |h.flight| {
        assert live[i] == Front(s)[i - |h.flight|];
      }
    }
    forall i, j | 0 <= i < j < |live| ensures live[i] != live[j] {
      IdsDiffer(h.firstCkpt, i, j);
    }
    forall i | 0 <= i < |live| ensures live[i] != s.nextCkptId {
      IdsDiffer(h.firstCkpt, i, |live|);
    }
  }
}
