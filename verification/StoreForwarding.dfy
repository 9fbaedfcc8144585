/**
  What forwarding from stores to loads means on queues written as sequences, oldest first: the
  answer to a load that asks, and the notice a store sends when its address or value arrives.
 */
module StoreForwarding {
  import opened Bits
  import opened Capacities
  import opened Tags

  datatype SQEntry = SQEntry(robTag: nat, address: u32, value: i32, nBytes: nat, isAddressReady: bool,
                             isValueReady: bool, isCommitted: bool)

  datatype ValueState = NOTREADY | FETCHING | READY

  datatype LQEntry = LQEntry(robTag: nat, address: u32, value: i32, nBytes: nat, isAddressReady: bool,
                             valueState: ValueState, isUnsigned: bool, isCDBBroadcast: bool)

  datatype StoreResponse = StoreResponse(valid: bool, value: i32)

  datatype StoreNotify = StoreNotify(valid: bool, storeTag: nat, addr: u32, value: i32, foundKnownSame: bool,
                                     knownSameAddressOldestTag: nat, foundUnknown: bool, unknownOldestTag: nat)

  // ---------- The answer to a load

  /** A load must not look past this store: it is uncommitted and younger than the load. */
  predicate Stops(e: SQEntry, loadTag: nat) {
    !e.isCommitted && IsOlder(ROB_CAP, loadTag, e.robTag)
  }

  /** The stores a load looks at: those in front of the first one that stops it. */
  function Visible(stores: seq<SQEntry>, loadTag: nat): (n: nat)
    ensures n <= |stores|
    ensures forall k :: 0 <= k < n ==> !Stops(stores[k], loadTag)
    ensures n < |stores| ==> Stops(stores[n], loadTag)
  {
    if stores == [] || Stops(stores[0], loadTag) then 0
    else 1 + Visible(stores[1..], loadTag)
  }

  /** A store that a load from addr has to heed: its address is not known yet, or is the same. */
  predicate Concerns(e: SQEntry, addr: u32) {
    !e.isAddressReady || e.address == addr
  }

  /** j is the last store among the first n that concerns the address. */
  predicate LastConcern(stores: seq<SQEntry>, n: nat, addr: u32, j: nat)
    requires n <= |stores|
  {
    j < n && Concerns(stores[j], addr) && forall k :: j < k < n ==> !Concerns(stores[k], addr)
  }

  /** The load is answered by store j: the last store it has to heed, with address and value known. */
  predicate AnsweredBy(stores: seq<SQEntry>, addr: u32, loadTag: nat, j: nat) {
    && LastConcern(stores, Visible(stores, loadTag), addr, j)
    && stores[j].isAddressReady && stores[j].isValueReady
  }

  // ---------- The notice of a store

  /** Another store, at a known and equal address. */
  predicate KnownSame(e: SQEntry, addr: u32) {
    e.isAddressReady && e.address == addr
  }

  predicate FirstKnownSame(stores: seq<SQEntry>, p: nat, addr: u32, j: nat) {
    p < j < |stores| && KnownSame(stores[j], addr) && forall k :: p < k < j ==> !KnownSame(stores[k], addr)
  }

  predicate FirstUnknown(stores: seq<SQEntry>, p: nat, j: nat) {
    p < j < |stores| && !stores[j].isAddressReady && forall k :: p < k < j ==> stores[k].isAddressReady
  }

  /** The notice tells of the oldest younger store at the same address, and of the oldest younger one without any. */
  ghost predicate Describes(notify: StoreNotify, stores: seq<SQEntry>, p: nat, addr: u32, value: i32)
    requires p < |stores|
  {
    && notify.valid && notify.storeTag == stores[p].robTag && notify.addr == addr && notify.value == value
    && (notify.foundKnownSame <==> exists j :: p < j < |stores| && KnownSame(stores[j], addr))
    && (notify.foundKnownSame ==>
          exists j: nat ::
            FirstKnownSame(stores, p, addr, j) && notify.knownSameAddressOldestTag == stores[j].robTag)
    && (notify.foundUnknown <==> exists j :: p < j < |stores| && !stores[j].isAddressReady)
    && (notify.foundUnknown ==>
          exists j: nat :: FirstUnknown(stores, p, j) && notify.unknownOldestTag == stores[j].robTag)
  }

  /** The load takes the value of a notice. */
  predicate Takes(load: LQEntry, notify: StoreNotify) {
    && load.isAddressReady && load.address == notify.addr && IsOlder(ROB_CAP, notify.storeTag, load.robTag)
    && !(notify.foundKnownSame && IsOlder(ROB_CAP, notify.knownSameAddressOldestTag, load.robTag))
    && !(notify.foundUnknown && IsOlder(ROB_CAP, notify.unknownOldestTag, load.robTag))
  }

  // ---------- Queue order is age order

  /**
    Stores up to c have committed; the others are live instructions, each older than the ones
    behind it. head is the oldest live tag.
   */
  predicate InOrder(stores: seq<SQEntry>, head: nat, c: nat) {
    && c <= |stores|
    && (forall k :: 0 <= k < c ==> stores[k].isCommitted)
    && (forall k :: c <= k < |stores| ==> !stores[k].isCommitted && Live(ROB_CAP, head, stores[k].robTag))
    && (forall k, l :: c <= k < l < |stores| ==> IsOlder(ROB_CAP, stores[k].robTag, stores[l].robTag))
  }

  /** In an ordered queue a load sees exactly the committed stores and the ones older than itself. */
  lemma {:induction false} VisibleAreOlder(stores: seq<SQEntry>, head: nat, c: nat, loadTag: nat, k: nat)
    requires InOrder(stores, head, c) && Live(ROB_CAP, head, loadTag) && k < |stores|
    requires forall l :: c <= l < |stores| ==> stores[l].robTag != loadTag
    ensures k < Visible(stores, loadTag) <==> k < c || IsOlder(ROB_CAP, stores[k].robTag, loadTag)
  {
    hide IsOlder, Live;
    var n := Visible(stores, loadTag);
    if k >= c {
      AgesOf(stores, head, c, loadTag, k);
      if n <= k {
        if n < c {
          assert false;
        }
        AgesOf(stores, head, c, loadTag, n);
        if n < k {
          assert IsOlder(ROB_CAP, stores[n].robTag, stores[k].robTag);
          LiveTagsAreOrdered(ROB_CAP, head, stores[n].robTag, stores[k].robTag);
        }
      } else {
        assert !Stops(stores[k], loadTag);
      }
    }
  }

  /** Age of an uncommitted store against the age of a load. */
  lemma {:induction false} AgesOf(stores: seq<SQEntry>, head: nat, c: nat, loadTag: nat, k: nat)
    requires InOrder(stores, head, c) && Live(ROB_CAP, head, loadTag) && c <= k < |stores|
    requires stores[k].robTag != loadTag
    ensures var age, loadAge := SeqDistance(ROB_CAP, head, stores[k].robTag), SeqDistance(ROB_CAP, head, loadTag);
            && (IsOlder(ROB_CAP, stores[k].robTag, loadTag) <==> age < loadAge)
            && (IsOlder(ROB_CAP, loadTag, stores[k].robTag) <==> loadAge < age)
            && age != loadAge
  {
    hide IsOlder, Live, SeqDistance;
    LiveTagsAreOrdered(ROB_CAP, head, stores[k].robTag, loadTag);
    LiveTagsAreOrdered(ROB_CAP, head, loadTag, stores[k].robTag);
  }

  /** The oldest younger store at the same address is older than the load if and only if the load sees any. */
  lemma {:induction false} KnownSameBlocks(stores: seq<SQEntry>, head: nat, c: nat, p: nat, addr: u32, value: i32,
                                           notify: StoreNotify, loadTag: nat)
    requires InOrder(stores, head, c) && c <= p < |stores| && Describes(notify, stores, p, addr, value)
    requires Live(ROB_CAP, head, loadTag) && forall l :: c <= l < |stores| ==> stores[l].robTag != loadTag
    ensures (notify.foundKnownSame && IsOlder(ROB_CAP, notify.knownSameAddressOldestTag, loadTag))
       <==> exists k :: p < k < Visible(stores, loadTag) && KnownSame(stores[k], addr)
  {
    hide IsOlder, Live, KnownSame;
    if notify.foundKnownSame {
      var j: nat :| FirstKnownSame(stores, p, addr, j) && notify.knownSameAddressOldestTag == stores[j].robTag;
      FirstDecides(stores, head, c, j, loadTag);
      forall k | p < k < Visible(stores, loadTag) && KnownSame(stores[k], addr) ensures j <= k {
      }
    }
  }

  lemma {:induction false} UnknownBlocks(stores: seq<SQEntry>, head: nat, c: nat, p: nat, addr: u32, value: i32,
                                         notify: StoreNotify, loadTag: nat)
    requires InOrder(stores, head, c) && c <= p < |stores| && Describes(notify, stores, p, addr, value)
    requires Live(ROB_CAP, head, loadTag) && forall l :: c <= l < |stores| ==> stores[l].robTag != loadTag
    ensures (notify.foundUnknown && IsOlder(ROB_CAP, notify.unknownOldestTag, loadTag))
       <==> exists k :: p < k < Visible(stores, loadTag) && !stores[k].isAddressReady
  {
    hide IsOlder, Live, KnownSame;
    if notify.foundUnknown {
      var j: nat :| FirstUnknown(stores, p, j) && notify.unknownOldestTag == stores[j].robTag;
      FirstDecides(stores, head, c, j, loadTag);
      forall k | p < k < Visible(stores, loadTag) && !stores[k].isAddressReady ensures j <= k {
      }
    }
  }

  /** A store is older than the load if and only if the load sees it. */
  lemma {:induction false} FirstDecides(stores: seq<SQEntry>, head: nat, c: nat, j: nat, loadTag: nat)
    requires InOrder(stores, head, c) && c <= j < |stores|
    requires Live(ROB_CAP, head, loadTag) && forall l :: c <= l < |stores| ==> stores[l].robTag != loadTag
    ensures IsOlder(ROB_CAP, stores[j].robTag, loadTag) <==> j < Visible(stores, loadTag)
  {
    hide IsOlder, Live;
    VisibleAreOlder(stores, head, c, loadTag, j);
  }

  /** Filling in an address or a value changes neither the order nor what a load sees. */
  lemma {:induction false} UpdateKeepsOrder(stores: seq<SQEntry>, updated: seq<SQEntry>, head: nat, c: nat,
                                            loadTag: nat)
    requires InOrder(stores, head, c) && |updated| == |stores|
    requires forall k :: 0 <= k < |stores| ==>
               updated[k].robTag == stores[k].robTag && updated[k].isCommitted == stores[k].isCommitted
    ensures InOrder(updated, head, c) && Visible(updated, loadTag) == Visible(stores, loadTag)
  {
    hide IsOlder, Live;
    VisibleAgrees(stores, updated, loadTag);
  }

  lemma {:induction false} VisibleAgrees(stores: seq<SQEntry>, updated: seq<SQEntry>, loadTag: nat)
    requires |updated| == |stores|
    requires forall k :: 0 <= k < |stores| ==>
               updated[k].robTag == stores[k].robTag && updated[k].isCommitted == stores[k].isCommitted
    ensures Visible(updated, loadTag) == Visible(stores, loadTag)
  {
    hide IsOlder;
    if stores != [] && !Stops(stores[0], loadTag) {
      VisibleAgrees(stores[1..], updated[1..], loadTag);
    }
  }

  /**
    Push and pull agree: when the value (or the address) of an uncommitted store arrives, the
    notice it sends is taken by an address-ready load exactly when the load, asking the updated
    queue, would be answered by that store.
   */
  lemma {:induction false} PushAgreesWithPull(stores: seq<SQEntry>, updated: seq<SQEntry>, head: nat, c: nat, p: nat,
                                              addr: u32, value: i32, notify: StoreNotify, load: LQEntry)
    requires InOrder(stores, head, c) && c <= p < |stores|
    requires updated == stores[p := stores[p].(address := addr, isAddressReady := true, value := value,
                                               isValueReady := true)]
    requires Describes(notify, stores, p, addr, value)
    requires load.isAddressReady && Live(ROB_CAP, head, load.robTag)
    requires forall l :: c <= l < |stores| ==> stores[l].robTag != load.robTag
    ensures Takes(load, notify) <==> AnsweredBy(updated, load.address, load.robTag, p)
  {
    hide IsOlder, Live, InOrder;
    UpdateKeepsOrder(stores, updated, head, c, load.robTag);
    FirstDecides(stores, head, c, p, load.robTag);
    KnownSameBlocks(stores, head, c, p, addr, value, notify, load.robTag);
    UnknownBlocks(stores, head, c, p, addr, value, notify, load.robTag);
    assert forall k :: p < k < |stores| ==> updated[k] == stores[k];
  }

  /** What a store sends when its value arrives: nothing as long as its address is unknown. */
  ghost predicate DataNotice(notify: StoreNotify, stores: seq<SQEntry>, p: nat, value: i32)
    requires p < |stores|
  {
    if stores[p].isAddressReady then Describes(notify, stores, p, stores[p].address, value) else !notify.valid
  }

  /** What a store sends when its address arrives: nothing as long as its value is not there. */
  ghost predicate AddressNotice(notify: StoreNotify, stores: seq<SQEntry>, p: nat, addr: u32)
    requires p < |stores|
  {
    if stores[p].isValueReady then Describes(notify, stores, p, addr, stores[p].value) else !notify.valid
  }

  lemma {:induction false} DataForwardAgrees(stores: seq<SQEntry>, head: nat, c: nat, p: nat, value: i32,
                                             notify: StoreNotify, load: LQEntry)
    requires InOrder(stores, head, c) && c <= p < |stores| && DataNotice(notify, stores, p, value)
    requires load.isAddressReady && Live(ROB_CAP, head, load.robTag)
    requires forall l :: c <= l < |stores| ==> stores[l].robTag != load.robTag
    ensures notify.valid && Takes(load, notify)
       <==> AnsweredBy(stores[p := stores[p].(value := value, isValueReady := true)], load.address, load.robTag, p)
  {
    hide IsOlder, Live, InOrder, Describes, Takes;
    var updated := stores[p := stores[p].(value := value, isValueReady := true)];
    if stores[p].isAddressReady {
      assert notify.valid by { DescribesIsValid(notify, stores, p, stores[p].address, value); }
      PushAgreesWithPull(stores, updated, head, c, p, stores[p].address, value, notify, load);
    }
  }

  lemma {:induction false} AddressForwardAgrees(stores: seq<SQEntry>, head: nat, c: nat, p: nat, addr: u32,
                                                notify: StoreNotify, load: LQEntry)
    requires InOrder(stores, head, c) && c <= p < |stores| && AddressNotice(notify, stores, p, addr)
    requires load.isAddressReady && Live(ROB_CAP, head, load.robTag)
    requires forall l :: c <= l < |stores| ==> stores[l].robTag != load.robTag
    ensures notify.valid && Takes(load, notify)
       <==> AnsweredBy(stores[p := stores[p].(address := addr, isAddressReady := true)], load.address, load.robTag, p)
  {
    hide IsOlder, Live, InOrder, Describes, Takes;
    var updated := stores[p := stores[p].(address := addr, isAddressReady := true)];
    if stores[p].isValueReady {
      assert notify.valid by { DescribesIsValid(notify, stores, p, addr, stores[p].value); }
      PushAgreesWithPull(stores, updated, head, c, p, addr, stores[p].value, notify, load);
    }
  }

  lemma DescribesIsValid(notify: StoreNotify, stores: seq<SQEntry>, p: nat, addr: u32, value: i32)
    requires p < |stores| && Describes(notify, stores, p, addr, value)
    ensures notify.valid && notify.addr == addr && notify.value == value
  {
  }

  // ---------- What keeps the queue in order

  /** A store issued now is younger than all others. */
  lemma {:induction false} PushKeepsOrder(stores: seq<SQEntry>, head: nat, c: nat, e: SQEntry)
    requires InOrder(stores, head, c) && !e.isCommitted && Live(ROB_CAP, head, e.robTag)
    requires forall k :: c <= k < |stores| ==> IsOlder(ROB_CAP, stores[k].robTag, e.robTag)
    ensures InOrder(stores + [e], head, c)
  {
    hide IsOlder, Live;
  }

  /** The oldest store leaves once it has committed. */
  lemma {:induction false} PopKeepsOrder(stores: seq<SQEntry>, head: nat, c: nat)
    requires InOrder(stores, head, c) && c > 0
    ensures InOrder(stores[1..], head, c - 1)
  {
    hide IsOlder, Live;
  }

  /** A squash cuts off the youngest stores. */
  lemma {:induction false} FlushKeepsOrder(stores: seq<SQEntry>, head: nat, c: nat, n: nat)
    requires InOrder(stores, head, c) && c <= n <= |stores|
    ensures InOrder(stores[..n], head, c)
  {
    hide IsOlder, Live;
  }

  /** The instruction at the head commits: a store joins the committed ones, any other leaves the queue alone. */
  lemma {:induction false} CommitKeepsOrder(stores: seq<SQEntry>, head: nat, c: nat)
    requires InOrder(stores, head, c)
    ensures var next := NextTag(ROB_CAP, head);
            if c < |stores| && stores[c].robTag == head
            then InOrder(stores[c := stores[c].(isCommitted := true)], next, c + 1)
            else InOrder(stores, next, c)
  {
    hide IsOlder, Live, SeqDistance, NextTag;
    forall k | c <= k < |stores| && stores[k].robTag != head
      ensures Live(ROB_CAP, NextTag(ROB_CAP, head), stores[k].robTag)
    {
      LiveAfterRetire(ROB_CAP, head, stores[k].robTag);
    }
    forall k | c < k < |stores| ensures stores[k].robTag != head {
      HeadIsOldest(head, stores[c].robTag, stores[k].robTag);
    }
  }

  /** No live tag is older than the head. */
  lemma HeadIsOldest(head: nat, a: nat, b: nat)
    requires Live(ROB_CAP, head, a) && Live(ROB_CAP, head, b) && IsOlder(ROB_CAP, a, b)
    ensures b != head
  {
    hide Slot, Epoch, IsOlder;
    LiveTagsAreOrdered(ROB_CAP, head, a, b);
  }
}
