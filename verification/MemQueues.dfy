/**
  The store queue and the load queue as rings of eight entries. Their scans over ring positions
  are proved to compute what StoreForwarding says about the queue as a sequence.
 */
module MemQueues {
  import opened Bits
  import opened Capacities
  import opened StoreForwarding
  import opened Tags

  type Position = p: nat | p < QUEUE_CAP

  /** The number of positions from one to another, going upwards. */
  function Ahead(from: Position, to: Position): Position {
    (to - from + QUEUE_CAP) % QUEUE_CAP
  }

  /** The position k steps on. */
  function Step(from: Position, k: nat): Position {
    (from + k) % QUEUE_CAP
  }

  /** The entries from head on, up to tail. */
  function Unrolled<T>(queue: seq<T>, head: Position, tail: Position): (r: seq<T>)
    requires |queue| == QUEUE_CAP
    ensures |r| == Ahead(head, tail)
    ensures forall k :: 0 <= k < |r| ==> r[k] == queue[Step(head, k)]
  {
    seq(Ahead(head, tail), k requires 0 <= k < QUEUE_CAP => queue[Step(head, k)])
  }

  /** The test whether a position is in use. */
  predicate Active(head: Position, tail: Position, index: Position) {
    head != tail && Ahead(head, index) < Ahead(head, tail)
  }

  /** The masks written as comparisons. */
  lemma AheadIs(from: Position, to: Position)
    ensures Ahead(from, to) == if to >= from then to - from else to - from + QUEUE_CAP
  {
  }

  lemma StepIs(from: Position, k: nat)
    requires k < QUEUE_CAP
    ensures Step(from, k) == if from + k < QUEUE_CAP then from + k else from + k - QUEUE_CAP
  {
  }

  /** Stepping and counting undo each other. */
  lemma StepAhead(from: Position, to: Position, k: nat)
    requires k < QUEUE_CAP
    ensures Ahead(from, Step(from, k)) == k
    ensures Step(from, Ahead(from, to)) == to
  {
    hide Step, Ahead;
    StepIs(from, k);
    AheadIs(from, Step(from, k));
    AheadIs(from, to);
    StepIs(from, Ahead(from, to));
  }

  /** Position k from the head is in use exactly when k entries precede it. */
  lemma ActiveIsWithin(head: Position, tail: Position, k: nat)
    requires k < QUEUE_CAP
    ensures Active(head, tail, Step(head, k)) <==> k < Ahead(head, tail)
  {
    hide Step, Ahead;
    StepAhead(head, tail, k);
    AheadIs(head, tail);
  }

  /** Different steps reach different positions. */
  lemma StepsDiffer(from: Position, k: nat, l: nat)
    requires k < QUEUE_CAP && l < QUEUE_CAP
    ensures Step(from, k) == Step(from, l) <==> k == l
  {
    hide Step, Ahead;
    StepAhead(from, from, k);
    StepAhead(from, from, l);
  }

  /** From a position in use, the k-th one on is in use, before the tail, exactly when the contents reach that far. */
  lemma YoungerPositions(head: Position, tail: Position, index: Position, k: nat)
    requires Active(head, tail, index) && 0 < k < QUEUE_CAP
    ensures Step(index, k) != index
    ensures Active(head, tail, Step(index, k)) && Ahead(index, Step(index, k)) < Ahead(index, tail)
       <==> Ahead(head, index) + k < Ahead(head, tail)
    ensures Ahead(head, index) + k < Ahead(head, tail) ==> Step(head, Ahead(head, index) + k) == Step(index, k)
  {
    hide Step, Ahead;
    StepIs(index, k);
    AheadIs(head, index);
    AheadIs(head, tail);
    AheadIs(head, Step(index, k));
    AheadIs(index, Step(index, k));
    AheadIs(index, tail);
    if Ahead(head, index) + k < QUEUE_CAP {
      StepIs(head, Ahead(head, index) + k);
    }
  }

  /** Writing at the tail and advancing it appends. */
  lemma Pushed<T>(queue: seq<T>, head: Position, tail: Position, e: T)
    requires |queue| == QUEUE_CAP && (tail + 1) % QUEUE_CAP != head
    ensures Unrolled(queue[tail := e], head, (tail + 1) % QUEUE_CAP) == Unrolled(queue, head, tail) + [e]
  {
    hide Unrolled, Step, Ahead;
    var n, now := Ahead(head, tail), Unrolled(queue[tail := e], head, (tail + 1) % QUEUE_CAP);
    StepAhead(head, tail, n);
    assert |now| == n + 1 by {
      AheadIs(head, tail);
      AheadIs(head, (tail + 1) % QUEUE_CAP);
    }
    forall k | 0 <= k < n ensures now[k] == Unrolled(queue, head, tail)[k] {
      StepsDiffer(head, k, n);
    }
  }

  /** Advancing the head drops the oldest entry. */
  lemma Popped<T>(queue: seq<T>, head: Position, tail: Position)
    requires |queue| == QUEUE_CAP && head != tail
    ensures Unrolled(queue, (head + 1) % QUEUE_CAP, tail) == Unrolled(queue, head, tail)[1..]
  {
    hide Unrolled, Step, Ahead;
    var now := Unrolled(queue, (head + 1) % QUEUE_CAP, tail);
    AheadIs(head, tail);
    AheadIs((head + 1) % QUEUE_CAP, tail);
    forall k | 0 <= k < |now| ensures now[k] == Unrolled(queue, head, tail)[k + 1] {
      StepIs((head + 1) % QUEUE_CAP, k);
      StepIs(head, k + 1);
    }
  }

  /** A write to one position in use changes one entry. */
  lemma Written<T>(was: seq<T>, now: seq<T>, head: Position, tail: Position, index: Position)
    requires |was| == |now| == QUEUE_CAP && now == was[index := now[index]] && Active(head, tail, index)
    ensures Unrolled(now, head, tail) == Unrolled(was, head, tail)[Ahead(head, index) := now[index]]
  {
    hide Step, Ahead;
    StepAhead(head, index, 0);
    forall k | 0 <= k < Ahead(head, tail) && k != Ahead(head, index)
      ensures Unrolled(now, head, tail)[k] == Unrolled(was, head, tail)[k]
    {
      StepsDiffer(head, k, Ahead(head, index));
    }
  }

  const EMPTY_STORE := SQEntry(0, 0, 0, 0, false, false, false)
  const NO_NOTIFY := StoreNotify(false, 0, 0, 0, false, 0, false, 0)

  class SQ {
    const queue: array<SQEntry>
    var head: Position
    var tail: Position

    ghost predicate Valid()
      reads {}
    {
      queue.Length == QUEUE_CAP
    }

    function Contents(): (r: seq<SQEntry>)
      requires Valid()
      reads `head, `tail, queue
    {
      Unrolled(queue[..], head, tail)
    }

    constructor ()
      ensures Valid() && fresh(queue) && Contents() == [] && head == 0
    {
      queue := new SQEntry[QUEUE_CAP](i => EMPTY_STORE);
      head, tail := 0, 0;
    }

    predicate IsActive(index: Position)
      reads `head, `tail
    {
      Active(head, tail, index)
    }

    predicate IsEmpty()
      reads `head, `tail
    {
      tail == head
    }

    predicate IsFull()
      reads `head, `tail
    {
      (tail + 1) % QUEUE_CAP == head
    }

    /** One place stays free: seven stores fill the queue. */
    lemma FullMeansSeven()
      requires Valid()
      ensures IsFull() <==> |Contents()| == QUEUE_CAP - 1
      ensures IsEmpty() <==> Contents() == []
    {
    }

    method PushStore(robTag: nat, nBytes: nat)
      requires Valid() && !IsFull()
      modifies `tail, queue
      ensures Contents() == old(Contents()) + [EMPTY_STORE.(robTag := robTag, nBytes := nBytes)]
      ensures tail == (old(tail) + 1) % QUEUE_CAP
    {
      var entry := EMPTY_STORE.(robTag := robTag, nBytes := nBytes);
      Pushed(queue[..], head, tail, entry);
      queue[tail] := entry;
      tail := (tail + 1) % QUEUE_CAP;
    }

    method Pop()
      requires Valid() && !IsEmpty()
      modifies `head
      ensures Contents() == old(Contents())[1..] && head == (old(head) + 1) % QUEUE_CAP
    {
      Popped(queue[..], head, tail);
      head := (head + 1) % QUEUE_CAP;
    }

    method Flush(tailSnapshot: Position)
      requires Valid() && Ahead(head, tailSnapshot) <= Ahead(head, tail)
      modifies `tail
      ensures Contents() == old(Contents())[..Ahead(head, tailSnapshot)] && tail == tailSnapshot
    {
      tail := tailSnapshot;
    }

    method WriteAddress(address: u32, index: Position)
      requires Valid() && IsActive(index)
      modifies queue
      ensures var p := Ahead(head, index);
              Contents() == old(Contents())[p := old(Contents())[p].(address := address, isAddressReady := true)]
    {
      queue[index] := queue[index].(address := address, isAddressReady := true);
      Written(old(queue[..]), queue[..], head, tail, index);
    }

    method WriteValue(value: i32, index: Position)
      requires Valid() && IsActive(index)
      modifies queue
      ensures var p := Ahead(head, index);
              Contents() == old(Contents())[p := old(Contents())[p].(value := value, isValueReady := true)]
    {
      queue[index] := queue[index].(value := value, isValueReady := true);
      Written(old(queue[..]), queue[..], head, tail, index);
    }

    /** The answer to a load, found by scanning the ring from the oldest store on. */
    method ReplyToLoadRequest(addr: u32, loadTag: nat) returns (reply: StoreResponse)
      requires Valid()
      ensures reply.valid <==> exists j: nat :: AnsweredBy(Contents(), addr, loadTag, j)
      ensures reply.valid ==>
                exists j: nat :: AnsweredBy(Contents(), addr, loadTag, j) && reply.value == Contents()[j].value
    {
      hide Step, Ahead, Unrolled, IsOlder;
      ghost var q := Contents();
      ghost var seen := Visible(q, loadTag);
      var youngestSameAddrOrder, youngestUnknownOrder, forwardValue := -1, -1, 0;
      var foundSameAddr, sameAddrValueReady, reachedYoungerStore := false, false, false;
      for k := 0 to QUEUE_CAP
        invariant reachedYoungerStore <==> seen < k && seen < |q|
        invariant -1 <= youngestUnknownOrder < seen && youngestUnknownOrder < k
        invariant youngestUnknownOrder >= 0 ==> !q[youngestUnknownOrder].isAddressReady
        invariant forall j :: youngestUnknownOrder < j < k && 0 <= j < seen ==> q[j].isAddressReady
        invariant -1 <= youngestSameAddrOrder < seen && youngestSameAddrOrder < k
        invariant youngestSameAddrOrder >= 0 ==> KnownSame(q[youngestSameAddrOrder], addr)
        invariant forall j :: youngestSameAddrOrder < j < k && 0 <= j < seen ==> !KnownSame(q[j], addr)
        invariant foundSameAddr <==> youngestSameAddrOrder >= 0
        invariant foundSameAddr ==> sameAddrValueReady == q[youngestSameAddrOrder].isValueReady
        invariant foundSameAddr && sameAddrValueReady ==> forwardValue == q[youngestSameAddrOrder].value
      {
        var index := Step(head, k);
        ActiveIsWithin(head, tail, k);
        if !IsActive(index) {
          continue;
        }
        if !queue[index].isCommitted && IsOlder(ROB_CAP, loadTag, queue[index].robTag) {
          reachedYoungerStore := true;
        }
        if reachedYoungerStore {
          continue;
        }
        if !queue[index].isAddressReady {
          youngestUnknownOrder := k;
        } else if queue[index].address == addr {
          youngestSameAddrOrder := k;
          foundSameAddr := true;
          sameAddrValueReady := queue[index].isValueReady;
          if queue[index].isValueReady {
            forwardValue := queue[index].value;
          }
        }
      }
      reply := StoreResponse(sameAddrValueReady && foundSameAddr && youngestSameAddrOrder > youngestUnknownOrder,
                             forwardValue);
      if reply.valid {
        assert AnsweredBy(q, addr, loadTag, youngestSameAddrOrder);
      }
    }

    /** The oldest younger stores at the same known address and without an address, scanning from a store on. */
    method ScanYounger(index: Position, address: u32)
        returns (foundKnownSame: bool, knownSame: nat, foundUnknown: bool, unknown: nat)
      requires Valid() && IsActive(index)
      ensures forall value: i32 ::
                Describes(StoreNotify(true, queue[index].robTag, address, value, foundKnownSame, knownSame,
                                      foundUnknown, unknown),
                          Contents(), Ahead(head, index), address, value)
    {
      hide Step, Ahead, Unrolled;
      ghost var q, p := Contents(), Ahead(head, index);
      StepAhead(head, index, 0);
      foundKnownSame, knownSame, foundUnknown, unknown := false, queue[index].robTag, false, queue[index].robTag;
      for k := 1 to QUEUE_CAP + 1
        invariant foundKnownSame ==> exists j: nat :: FirstKnownSame(q, p, address, j) && knownSame == q[j].robTag
        invariant !foundKnownSame ==> forall j :: p < j < p + k && j < |q| ==> !KnownSame(q[j], address)
        invariant foundUnknown ==> exists j: nat :: FirstUnknown(q, p, j) && unknown == q[j].robTag
        invariant !foundUnknown ==> forall j :: p < j < p + k && j < |q| ==> q[j].isAddressReady
      {
        var i := Step(index, k);
        if k < QUEUE_CAP {
          YoungerPositions(head, tail, index, k);
        } else {
          FullCircle(index);
        }
        if i == index || !IsActive(i) {
          continue;
        }
        if Ahead(index, i) >= Ahead(index, tail) {
          continue;
        }
        assert q[p + k] == queue[i];
        if queue[i].address == address && queue[i].isAddressReady && !foundKnownSame {
          assert FirstKnownSame(q, p, address, p + k);
          knownSame, foundKnownSame := queue[i].robTag, true;
        } else if !queue[i].isAddressReady && !foundUnknown {
          assert FirstUnknown(q, p, p + k);
          unknown, foundUnknown := queue[i].robTag, true;
        }
      }
    }

    /** The notice for the value that arrives at a store. */
    method PlanDataForward(index: Position, value: i32) returns (notify: StoreNotify)
      requires Valid() && IsActive(index)
      ensures DataNotice(notify, Contents(), Ahead(head, index), value)
    {
      hide Describes;
      StepAhead(head, index, 0);
      if !queue[index].isAddressReady {
        return NO_NOTIFY;
      }
      var foundKnownSame, knownSame, foundUnknown, unknown := ScanYounger(index, queue[index].address);
      notify := StoreNotify(true, queue[index].robTag, queue[index].address, value, foundKnownSame, knownSame,
                            foundUnknown, unknown);
    }

    /** The notice for the address that arrives at a store. */
    method PlanAddressForward(index: Position, address: u32) returns (notify: StoreNotify)
      requires Valid() && IsActive(index)
      ensures AddressNotice(notify, Contents(), Ahead(head, index), address)
    {
      hide Describes;
      StepAhead(head, index, 0);
      if !queue[index].isValueReady {
        return NO_NOTIFY;
      }
      var foundKnownSame, knownSame, foundUnknown, unknown := ScanYounger(index, address);
      notify := StoreNotify(true, queue[index].robTag, address, queue[index].value, foundKnownSame, knownSame,
                            foundUnknown, unknown);
    }

    /** A load may go to the cache unless an older uncommitted store is known to write its address. */
    method CanDispatchLoad(addr: u32, loadTag: nat) returns (b: bool)
      requires Valid()
      ensures b <==> NoneHoldsBack(Contents(), addr, loadTag)
    {
      hide Step, Ahead, Unrolled;
      ghost var q := Contents();
      var hasSameAddressStore := false;
      for k := 0 to QUEUE_CAP
        invariant hasSameAddressStore <==> exists j :: 0 <= j < k && j < |q| && HoldsBack(q[j], addr, loadTag)
      {
        if hasSameAddressStore {
          continue;
        }
        var cur := Step(head, k);
        ActiveIsWithin(head, tail, k);
        if !IsActive(cur) {
          continue;
        }
        assert q[k] == queue[cur];
        if queue[cur].isCommitted {
          continue;
        }
        if !IsOlder(ROB_CAP, queue[cur].robTag, loadTag) {
          continue;
        }
        if queue[cur].isAddressReady && queue[cur].address == addr {
          hasSameAddressStore := true;
        }
      }
      b := !hasSameAddressStore;
    }
  }

  predicate NoneHoldsBack(stores: seq<SQEntry>, addr: u32, loadTag: nat) {
    forall k :: 0 <= k < |stores| ==> !HoldsBack(stores[k], addr, loadTag)
  }

  predicate HoldsBack(e: SQEntry, addr: u32, loadTag: nat) {
    !e.isCommitted && IsOlder(ROB_CAP, e.robTag, loadTag) && KnownSame(e, addr)
  }

  lemma FullCircle(index: Position)
    ensures Step(index, QUEUE_CAP) == index
  {
  }

  const EMPTY_LOAD := LQEntry(0, 0, 0, 0, false, NOTREADY, false, false)

  class LQ {
    const queue: array<LQEntry>
    var head: Position
    var tail: Position

    ghost predicate Valid()
      reads {}
    {
      queue.Length == QUEUE_CAP
    }

    function Contents(): (r: seq<LQEntry>)
      requires Valid()
      reads `head, `tail, queue
    {
      Unrolled(queue[..], head, tail)
    }

    constructor ()
      ensures Valid() && fresh(queue) && Contents() == []
    {
      queue := new LQEntry[QUEUE_CAP](i => EMPTY_LOAD);
      head, tail := 0, 0;
    }

    predicate IsActive(index: Position)
      reads `head, `tail
    {
      Active(head, tail, index)
    }

    predicate IsFull()
      reads `head, `tail
    {
      (tail + 1) % QUEUE_CAP == head
    }

    method PushLoad(robTag: nat, nBytes: nat, isUnsigned: bool)
      requires Valid() && !IsFull()
      modifies `tail, queue
      ensures Contents()
           == old(Contents()) + [EMPTY_LOAD.(robTag := robTag, nBytes := nBytes, isUnsigned := isUnsigned)]
      ensures tail == (old(tail) + 1) % QUEUE_CAP
    {
      var entry := EMPTY_LOAD.(robTag := robTag, nBytes := nBytes, isUnsigned := isUnsigned);
      Pushed(queue[..], head, tail, entry);
      queue[tail] := entry;
      tail := (tail + 1) % QUEUE_CAP;
    }

    method Pop()
      requires Valid() && head != tail
      modifies `head
      ensures Contents() == old(Contents())[1..] && head == (old(head) + 1) % QUEUE_CAP
    {
      Popped(queue[..], head, tail);
      head := (head + 1) % QUEUE_CAP;
    }

    method Flush(tailSnapshot: Position)
      requires Valid() && Ahead(head, tailSnapshot) <= Ahead(head, tail)
      modifies `tail
      ensures Contents() == old(Contents())[..Ahead(head, tailSnapshot)] && tail == tailSnapshot
    {
      tail := tailSnapshot;
    }

    method WriteAddress(address: u32, index: Position)
      requires Valid() && IsActive(index)
      modifies queue
      ensures var p := Ahead(head, index);
              Contents() == old(Contents())[p := old(Contents())[p].(address := address, isAddressReady := true)]
    {
      queue[index] := queue[index].(address := address, isAddressReady := true);
      Written(old(queue[..]), queue[..], head, tail, index);
    }

    method WriteValue(value: i32, index: Position)
      requires Valid()
      modifies queue
      ensures queue[..] == old(queue[..])[index := Filled(old(queue[index]), value)]
    {
      queue[index] := queue[index].(value := value, valueState := READY, isCDBBroadcast := false);
    }

    /** A reply from the cache only counts for the load that is still waiting for it. */
    method WriteValueIfFetching(robTag: nat, index: Position, value: i32)
      requires Valid()
      modifies queue
      ensures queue[..] == if old(queue[index]).robTag == robTag && old(queue[index]).valueState.FETCHING?
                           then old(queue[..])[index := Filled(old(queue[index]), value)] else old(queue[..])
    {
      if queue[index].robTag != robTag {
        return;
      }
      if !queue[index].valueState.FETCHING? {
        return;
      }
      WriteValue(value, index);
    }

    /** Every load that takes the notice gets its value; all others stay as they are. */
    method ApplyStoreForward(notify: StoreNotify)
      requires Valid()
      modifies queue
      ensures |Contents()| == |old(Contents())|
      ensures forall k :: 0 <= k < |Contents()| ==> Contents()[k] == Forwarded(old(Contents())[k], notify)
    {
      hide Step, Ahead, IsOlder;
      ghost var was, n := queue[..], Ahead(head, tail);
      var k := 0;
      while k < QUEUE_CAP
        invariant 0 <= k <= QUEUE_CAP
        invariant forall j :: k <= j < QUEUE_CAP ==> queue[Step(head, j)] == was[Step(head, j)]
        invariant forall j :: 0 <= j < k && j < n ==> queue[Step(head, j)] == Forwarded(was[Step(head, j)], notify)
      {
        var i := Step(head, k);
        ActiveIsWithin(head, tail, k);
        if !IsActive(i) {
          break;
        }
        forall j | 0 <= j < QUEUE_CAP && j != k ensures Step(head, j) != i {
          StepsDiffer(head, j, k);
        }
        k := k + 1;
        if !queue[i].isAddressReady {
          continue;
        }
        if queue[i].address != notify.addr {
          continue;
        }
        if !IsOlder(ROB_CAP, notify.storeTag, queue[i].robTag) {
          continue;
        }
        var blocked :=
          || (notify.foundKnownSame && IsOlder(ROB_CAP, notify.knownSameAddressOldestTag, queue[i].robTag))
          || (notify.foundUnknown && IsOlder(ROB_CAP, notify.unknownOldestTag, queue[i].robTag));
        if !blocked {
          WriteValue(notify.value, i);
        }
      }
    }
  }

  /** A load whose value has arrived. */
  function Filled(load: LQEntry, value: i32): LQEntry {
    load.(value := value, valueState := READY, isCDBBroadcast := false)
  }

  function Forwarded(load: LQEntry, notify: StoreNotify): LQEntry {
    if Takes(load, notify) then Filled(load, notify.value) else load
  }

  /** A load in flight; its tag is no store's. */
  ghost predicate InFlight(load: LQEntry, stores: seq<SQEntry>, oldest: nat, c: nat) {
    Live(ROB_CAP, oldest, load.robTag) && forall l :: c <= l < |stores| ==> stores[l].robTag != load.robTag
  }
}
