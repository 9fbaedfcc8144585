/**
  Forwarding in a whole tick: the values that arrive at stores, and the one address that arrives at
  a store or at a load, are all judged on the queues as they were at the start of the tick. Which
  loads are served, and exactly which ones are missed.
 */
module ForwardingTick {
  import opened Bits
  import opened Capacities
  import opened MemQueues
  import opened Options
  import opened StoreForwarding
  import opened StoreQueueTick
  import opened Tags

  // ---------- The events of a tick, positions counted from the oldest store

  datatype AddressEvent = AddressEvent(at: nat, addr: u32)

  function Learned(e: SQEntry, k: nat, values: map<nat, i32>, address: Option<AddressEvent>): SQEntry {
    var valued := if k in values then e.(value := values[k], isValueReady := true) else e;
    if address.Some? && address.value.at == k
    then valued.(address := address.value.addr, isAddressReady := true)
    else valued
  }

  /** The queue after all events. */
  function WithEvents(stores: seq<SQEntry>, values: map<nat, i32>, address: Option<AddressEvent>): (r: seq<SQEntry>)
    ensures |r| == |stores|
    ensures forall k :: 0 <= k < |stores| ==> r[k] == Learned(stores[k], k, values, address)
  {
    seq(|stores|, k requires 0 <= k < |stores| => Learned(stores[k], k, values, address))
  }

  /** Values and addresses arrive once, at stores that have not committed. */
  predicate Fresh(stores: seq<SQEntry>, c: nat, values: map<nat, i32>, address: Option<AddressEvent>) {
    && (forall k :: k in values ==> c <= k < |stores| && !stores[k].isValueReady)
    && (address.Some? ==> c <= address.value.at < |stores| && !stores[address.value.at].isAddressReady)
  }

  /** An address arrives at a store that the load sees, at position p or behind it. */
  predicate AddressFrom(stores: seq<SQEntry>, address: Option<AddressEvent>, loadTag: nat, p: nat) {
    address.Some? && p <= address.value.at < Visible(stores, loadTag)
  }

  /** A load in flight that has its address. */
  ghost predicate Asks(load: LQEntry, stores: seq<SQEntry>, oldest: nat, c: nat) {
    load.isAddressReady && InFlight(load, stores, oldest, c)
  }

  // ---------- What a single notice reaches

  lemma {:induction false} EventsKeepSight(stores: seq<SQEntry>, oldest: nat, c: nat, values: map<nat, i32>,
                                           address: Option<AddressEvent>, loadTag: nat)
    requires InOrder(stores, oldest, c)
    ensures Visible(WithEvents(stores, values, address), loadTag) == Visible(stores, loadTag)
  {
    hide InOrder, IsOlder;
    UpdateKeepsOrder(stores, WithEvents(stores, values, address), oldest, c, loadTag);
  }

  /** What taking a notice means, in terms of the queue it was planned on. */
  lemma {:induction false} TakesMeans(stores: seq<SQEntry>, oldest: nat, c: nat, p: nat, addr: u32, value: i32,
                                      notify: StoreNotify, load: LQEntry)
    requires InOrder(stores, oldest, c) && c <= p < |stores| && Describes(notify, stores, p, addr, value)
    requires Asks(load, stores, oldest, c)
    ensures Takes(load, notify)
       <==> && load.address == addr && p < Visible(stores, load.robTag)
            && forall k :: p < k < Visible(stores, load.robTag) ==> !Concerns(stores[k], addr)
  {
    hide IsOlder, Live, InOrder;
    FirstDecides(stores, oldest, c, p, load.robTag);
    KnownSameBlocks(stores, oldest, c, p, addr, value, notify, load.robTag);
    UnknownBlocks(stores, oldest, c, p, addr, value, notify, load.robTag);
  }

  /**
    The notice for a value is taken exactly by the loads that the queue after all events answers
    with this store, unless an address arrives at the same store or at a younger one they see.
   */
  lemma {:induction false} ValueNoticeReaches(stores: seq<SQEntry>, oldest: nat, c: nat, values: map<nat, i32>,
                                              address: Option<AddressEvent>, p: nat, notify: StoreNotify,
                                              load: LQEntry)
    requires InOrder(stores, oldest, c) && Fresh(stores, c, values, address)
    requires p in values && DataNotice(notify, stores, p, values[p]) && Asks(load, stores, oldest, c)
    ensures notify.valid && Takes(load, notify)
       <==> && AnsweredBy(WithEvents(stores, values, address), load.address, load.robTag, p)
            && !AddressFrom(stores, address, load.robTag, p)
    ensures notify.valid ==> notify.value == WithEvents(stores, values, address)[p].value
  {
    hide IsOlder, Live, InOrder, Describes, Takes, InFlight;
    EventsKeepSight(stores, oldest, c, values, address, load.robTag);
    if stores[p].isAddressReady {
      DescribesIsValid(notify, stores, p, stores[p].address, values[p]);
      TakesMeans(stores, oldest, c, p, stores[p].address, values[p], notify, load);
    }
  }

  /** The notice for an address is taken by all loads that this store answers, unless its value arrives too. */
  lemma {:induction false} AddressNoticeReaches(stores: seq<SQEntry>, oldest: nat, c: nat, values: map<nat, i32>,
                                                address: Option<AddressEvent>, notify: StoreNotify, load: LQEntry)
    requires InOrder(stores, oldest, c) && Fresh(stores, c, values, address)
    requires address.Some? && AddressNotice(notify, stores, address.value.at, address.value.addr)
    requires Asks(load, stores, oldest, c)
    ensures notify.valid && Takes(load, notify)
       <==> && AnsweredBy(WithEvents(stores, values, address), load.address, load.robTag, address.value.at)
            && address.value.at !in values
    ensures notify.valid ==> notify.value == WithEvents(stores, values, address)[address.value.at].value
  {
    hide IsOlder, Live, InOrder, Describes, Takes, InFlight;
    var z, addr := address.value.at, address.value.addr;
    EventsKeepSight(stores, oldest, c, values, address, load.robTag);
    if stores[z].isValueReady {
      DescribesIsValid(notify, stores, z, addr, stores[z].value);
      TakesMeans(stores, oldest, c, z, addr, stores[z].value, notify, load);
    }
  }

  // ---------- Which loads are served

  /** A notice about store p reaches the load. */
  predicate Reaches(stores: seq<SQEntry>, values: map<nat, i32>, address: Option<AddressEvent>, loadTag: nat, p: nat) {
    || (p in values && !AddressFrom(stores, address, loadTag, p))
    || (p !in values && address.Some? && address.value.at == p)
  }

  /** The load is given the value of store p. */
  predicate ServedBy(stores: seq<SQEntry>, values: map<nat, i32>, address: Option<AddressEvent>, load: LQEntry, p: nat)
  {
    && AnsweredBy(WithEvents(stores, values, address), load.address, load.robTag, p)
    && Reaches(stores, values, address, load.robTag, p)
  }

  /** A load is answered by one store at most. */
  lemma AnswerIsUnique(stores: seq<SQEntry>, addr: u32, loadTag: nat, p: nat, q: nat)
    requires AnsweredBy(stores, addr, loadTag, p) && AnsweredBy(stores, addr, loadTag, q)
    ensures p == q
  {
  }

  /**
    The exact condition under which forwarding misses a load: a load that store p answers after the
    tick, and did not answer before, is served if and only if no address arrives at a younger store
    it sees, nor at p itself together with the value.
   */
  lemma {:induction false} NewAnswersAreServed(stores: seq<SQEntry>, oldest: nat, c: nat, values: map<nat, i32>,
                                               address: Option<AddressEvent>, load: LQEntry, p: nat)
    requires InOrder(stores, oldest, c) && Fresh(stores, c, values, address) && Asks(load, stores, oldest, c)
    requires AnsweredBy(WithEvents(stores, values, address), load.address, load.robTag, p)
    requires !AnsweredBy(stores, load.address, load.robTag, p)
    ensures ServedBy(stores, values, address, load, p)
       <==> !AddressFrom(stores, address, load.robTag, if p in values then p else p + 1)
  {
    hide IsOlder, Live, InOrder, InFlight;
    var after, seen := WithEvents(stores, values, address), Visible(stores, load.robTag);
    EventsKeepSight(stores, oldest, c, values, address, load.robTag);
    if p !in values && !(address.Some? && address.value.at == p) {
      assert after[p] == stores[p];
      var k :| p < k < seen && Concerns(stores[k], load.address);
      assert !Concerns(after[k], load.address);
    }
  }

  const BLANK := SQEntry(0, 0, 0, 4, false, false, false)

  /** Value and address of a store arrive together: both notices are silent, and the load behind it is missed. */
  lemma {:induction false} BothTogetherAreMissed(dataNotice: StoreNotify, addressNotice: StoreNotify)
    requires DataNotice(dataNotice, [BLANK], 0, 7) && AddressNotice(addressNotice, [BLANK], 0, 64)
    ensures InOrder([BLANK], 0, 0) && Fresh([BLANK], 0, map[0 := 7], Some(AddressEvent(0, 64)))
    ensures AnsweredBy(WithEvents([BLANK], map[0 := 7], Some(AddressEvent(0, 64))), 64, 1, 0)
    ensures !dataNotice.valid && !addressNotice.valid
  {
    hide IsOlder, Live;
    SmallTags();
    assert !Stops(BLANK, 1);
    EventsKeepSight([BLANK], 0, 0, map[0 := 7], Some(AddressEvent(0, 64)), 1);
  }

  lemma SmallTag(n: nat)
    requires n < ROB_CAP
    ensures Encode(ROB_CAP, n) == n
  {
    hide FieldSize;
  }

  lemma SmallTags()
    ensures IsOlder(ROB_CAP, 0, 1) && !IsOlder(ROB_CAP, 1, 0) && Live(ROB_CAP, 0, 0)
  {
    hide FieldSize, IsOlder, SeqDistance, Slot, Encode;
    SmallTag(0);
    SmallTag(1);
    OlderIsEarlier(ROB_CAP, 0, 1);
    OlderIsEarlier(ROB_CAP, 1, 0);
    DecodeEncoded(ROB_CAP, 0);
    DistanceIsExact(ROB_CAP, 0, 0);
  }

  // ---------- All notices of a tick

  /** The notice of one event, planned on the queue at the start of the tick. */
  ghost predicate Planned(notify: StoreNotify, stores: seq<SQEntry>, values: map<nat, i32>,
                          address: Option<AddressEvent>, ofValue: bool, p: nat)
  {
    && p < |stores|
    && if ofValue then p in values && DataNotice(notify, stores, p, values[p])
       else address.Some? && address.value.at == p && AddressNotice(notify, stores, p, address.value.addr)
  }

  /** A load after it has been offered some notices, one after the other. */
  function Offered(load: LQEntry, notices: seq<StoreNotify>): (r: LQEntry)
    ensures r.isAddressReady == load.isAddressReady && r.address == load.address && r.robTag == load.robTag
  {
    if notices == [] then load
    else
      var n := |notices| - 1;
      var before := Offered(load, notices[..n]);
      if notices[n].valid then Forwarded(before, notices[n]) else before
  }

  predicate TakesValid(load: LQEntry, notify: StoreNotify) {
    notify.valid && Takes(load, notify)
  }

  /** If all notices that the load takes carry one value, it ends up with that value; if it takes none, it stays. */
  lemma {:induction false} OfferedIs(load: LQEntry, notices: seq<StoreNotify>, value: i32)
    requires forall i :: 0 <= i < |notices| && TakesValid(load, notices[i]) ==> notices[i].value == value
    ensures Offered(load, notices)
         == if exists i :: 0 <= i < |notices| && TakesValid(load, notices[i]) then Filled(load, value) else load
  {
    hide Takes;
    if notices != [] {
      var n := |notices| - 1;
      OfferedIs(load, notices[..n], value);
      SameTakes(load, Offered(load, notices[..n]), notices[n]);
      assert forall i :: 0 <= i < n ==> notices[..n][i] == notices[i];
    }
  }

  lemma SameTakes(load: LQEntry, other: LQEntry, notify: StoreNotify)
    requires other.isAddressReady == load.isAddressReady && other.address == load.address
    requires other.robTag == load.robTag
    ensures Takes(other, notify) == Takes(load, notify)
  {
  }

  /** It is the notice of some event. */
  ghost predicate OfEvent(notify: StoreNotify, stores: seq<SQEntry>, values: map<nat, i32>,
                          address: Option<AddressEvent>)
  {
    exists ofValue: bool, p: nat :: Planned(notify, stores, values, address, ofValue, p)
  }

  /** One of them is the notice of this event. */
  ghost predicate Contains(notices: seq<StoreNotify>, stores: seq<SQEntry>, values: map<nat, i32>,
                           address: Option<AddressEvent>, ofValue: bool, p: nat)
  {
    exists i :: 0 <= i < |notices| && Planned(notices[i], stores, values, address, ofValue, p)
  }

  /** These are the notices of all events of the tick. */
  ghost predicate AllPlanned(notices: seq<StoreNotify>, stores: seq<SQEntry>, values: map<nat, i32>,
                             address: Option<AddressEvent>)
  {
    && (forall i :: 0 <= i < |notices| ==> OfEvent(notices[i], stores, values, address))
    && (forall p: nat :: p in values ==> Contains(notices, stores, values, address, true, p))
    && (address.Some? ==> Contains(notices, stores, values, address, false, address.value.at))
  }

  /** A notice is taken exactly by the loads that its store serves. */
  lemma {:induction false} NoticeServes(stores: seq<SQEntry>, oldest: nat, c: nat, values: map<nat, i32>,
                                        address: Option<AddressEvent>, notify: StoreNotify, ofValue: bool, p: nat,
                                        load: LQEntry)
    requires InOrder(stores, oldest, c) && Fresh(stores, c, values, address) && Asks(load, stores, oldest, c)
    requires Planned(notify, stores, values, address, ofValue, p)
    ensures TakesValid(load, notify) ==> ServedBy(stores, values, address, load, p)
    ensures ofValue == (p in values) && ServedBy(stores, values, address, load, p) ==> TakesValid(load, notify)
    ensures notify.valid ==> notify.value == WithEvents(stores, values, address)[p].value
  {
    hide IsOlder, Live, InOrder, InFlight, Takes, AnsweredBy, DataNotice, AddressNotice;
    if ofValue {
      ValueNoticeReaches(stores, oldest, c, values, address, p, notify, load);
    } else {
      AddressNoticeReaches(stores, oldest, c, values, address, notify, load);
    }
  }

  /** What a load holds after the tick: the value of the store that serves it, or what it held. */
  ghost predicate Delivered(was: LQEntry, now: LQEntry, stores: seq<SQEntry>, values: map<nat, i32>,
                            address: Option<AddressEvent>) {
    && (forall p: nat :: ServedBy(stores, values, address, was, p) ==>
          now == Filled(was, WithEvents(stores, values, address)[p].value))
    && ((forall p: nat :: !ServedBy(stores, values, address, was, p)) ==> now == was)
  }

  /** Applying all notices serves exactly the loads that a notice reaches. */
  lemma {:induction false} NoticesDeliver(stores: seq<SQEntry>, oldest: nat, c: nat, values: map<nat, i32>,
                                          address: Option<AddressEvent>, notices: seq<StoreNotify>, load: LQEntry)
    requires InOrder(stores, oldest, c) && Fresh(stores, c, values, address) && Asks(load, stores, oldest, c)
    requires AllPlanned(notices, stores, values, address)
    ensures Delivered(load, Offered(load, notices), stores, values, address)
  {
    hide IsOlder, Live, InOrder, InFlight, Takes, Planned, Fresh;
    if p: nat :| ServedBy(stores, values, address, load, p) {
      var value := WithEvents(stores, values, address)[p].value;
      forall i | 0 <= i < |notices| && TakesValid(load, notices[i]) ensures notices[i].value == value {
        var ofValue: bool, q: nat :| Planned(notices[i], stores, values, address, ofValue, q);
        NoticeServes(stores, oldest, c, values, address, notices[i], ofValue, q, load);
        AnswerIsUnique(WithEvents(stores, values, address), load.address, load.robTag, p, q);
      }
      assert Contains(notices, stores, values, address, p in values, p);
      var i :| 0 <= i < |notices| && Planned(notices[i], stores, values, address, p in values, p);
      NoticeServes(stores, oldest, c, values, address, notices[i], p in values, p, load);
      OfferedIs(load, notices, value);
      forall q: nat | ServedBy(stores, values, address, load, q) ensures q == p {
        AnswerIsUnique(WithEvents(stores, values, address), load.address, load.robTag, p, q);
      }
    } else {
      forall i | 0 <= i < |notices| ensures !TakesValid(load, notices[i]) {
        var ofValue: bool, q: nat :| Planned(notices[i], stores, values, address, ofValue, q);
        NoticeServes(stores, oldest, c, values, address, notices[i], ofValue, q, load);
      }
      OfferedIs(load, notices, 0);
    }
  }

  lemma {:induction false} NoAddressNoService(load: LQEntry, notices: seq<StoreNotify>)
    requires !load.isAddressReady
    ensures Offered(load, notices) == load
  {
    if notices != [] {
      NoAddressNoService(load, notices[..|notices| - 1]);
    }
  }

  // ---------- The load whose own address arrives

  /** It asks the queue at the start of the tick, so it misses exactly the values that arrive with its address. */
  lemma {:induction false} OwnAddressIsAnswered(stores: seq<SQEntry>, oldest: nat, c: nat, values: map<nat, i32>,
                                                addr: u32, loadTag: nat, p: nat)
    requires InOrder(stores, oldest, c) && Fresh(stores, c, values, None)
    requires AnsweredBy(WithEvents(stores, values, None), addr, loadTag, p)
    ensures AnsweredBy(stores, addr, loadTag, p) <==> p !in values
    ensures p !in values ==> stores[p].value == WithEvents(stores, values, None)[p].value
  {
    hide IsOlder, Live, InOrder;
    EventsKeepSight(stores, oldest, c, values, None, loadTag);
  }

  // ---------- The tick of the two queues

  /** What the address unit delivers in a tick: an address for a store, or one for a load, or nothing. */
  datatype Address = NoAddress | ForStore(index: Position, address: u32)
    | ForLoad(loadIndex: Position, loadAddress: u32, robTag: nat)

  function Arrivals(head: Position, values: seq<ValueWrite>): map<nat, i32> {
    if values == [] then map[]
    else
      var n := |values| - 1;
      Arrivals(head, values[..n])[Ahead(head, values[n].index) := values[n].value]
  }

  function StoreAddress(head: Position, arriving: Address): Option<AddressEvent> {
    if arriving.ForStore? then Some(AddressEvent(Ahead(head, arriving.index), arriving.address)) else None
  }

  lemma {:induction false} ArrivalsStep(head: Position, values: seq<ValueWrite>, n: nat)
    requires n < |values|
    ensures Arrivals(head, values[..n + 1])
         == Arrivals(head, values[..n])[Ahead(head, values[n].index) := values[n].value]
  {
    assert values[..n + 1][..n] == values[..n];
  }

  predicate Distinct(values: seq<ValueWrite>) {
    forall i, j :: 0 <= i < j < |values| ==> values[i].index != values[j].index
  }

  /** Positions that arrive, and only they, are in the map; each with its own value. */
  lemma {:induction false} ArrivalsAre(head: Position, values: seq<ValueWrite>)
    requires Distinct(values)
    ensures forall i :: 0 <= i < |values| ==>
              Ahead(head, values[i].index) in Arrivals(head, values)
              && Arrivals(head, values)[Ahead(head, values[i].index)] == values[i].value
    ensures forall p :: p in Arrivals(head, values) ==>
              exists i :: 0 <= i < |values| && p == Ahead(head, values[i].index)
  {
    hide Ahead;
    if values != [] {
      var n := |values| - 1;
      ArrivalsAre(head, values[..n]);
      forall i | 0 <= i < n ensures Ahead(head, values[i].index) != Ahead(head, values[n].index) {
        AheadIs(head, values[i].index);
        AheadIs(head, values[n].index);
      }
      assert forall i :: 0 <= i < n ==> values[..n][i] == values[i];
    }
  }

  lemma ValuePlanned(notify: StoreNotify, stores: seq<SQEntry>, values: map<nat, i32>, address: Option<AddressEvent>,
                     p: nat, value: i32)
    requires p < |stores| && p in values && values[p] == value && DataNotice(notify, stores, p, value)
    ensures Planned(notify, stores, values, address, true, p)
  {
  }

  lemma AddressPlanned(notify: StoreNotify, stores: seq<SQEntry>, values: map<nat, i32>,
                       address: Option<AddressEvent>, p: nat, addr: u32)
    requires p < |stores| && address == Some(AddressEvent(p, addr)) && AddressNotice(notify, stores, p, addr)
    ensures Planned(notify, stores, values, address, false, p)
  {
  }

  /** The notices of the values, in order, and the one of the address make up all notices of the tick. */
  lemma {:induction false} PlanIsComplete(notices: seq<StoreNotify>, stores: seq<SQEntry>, head: Position,
                                          values: seq<ValueWrite>, arriving: Address)
    requires Distinct(values) && |notices| == |values| + if arriving.ForStore? then 1 else 0
    requires forall k :: 0 <= k < |values| ==>
               Planned(notices[k], stores, Arrivals(head, values), StoreAddress(head, arriving), true,
                       Ahead(head, values[k].index))
    requires arriving.ForStore? ==>
               Planned(notices[|values|], stores, Arrivals(head, values), StoreAddress(head, arriving), false,
                       Ahead(head, arriving.index))
    ensures AllPlanned(notices, stores, Arrivals(head, values), StoreAddress(head, arriving))
  {
    hide Ahead, Arrivals, Planned, OfEvent, Contains;
    var arrivals, address := Arrivals(head, values), StoreAddress(head, arriving);
    ArrivalsAre(head, values);
    forall k | 0 <= k < |values|
      ensures OfEvent(notices[k], stores, arrivals, address)
      ensures Contains(notices, stores, arrivals, address, true, Ahead(head, values[k].index))
    {
      OneOfThem(notices, stores, arrivals, address, true, Ahead(head, values[k].index), k);
    }
    if arriving.ForStore? {
      OneOfThem(notices, stores, arrivals, address, false, Ahead(head, arriving.index), |values|);
    }
  }

  lemma OneOfThem(notices: seq<StoreNotify>, stores: seq<SQEntry>, values: map<nat, i32>,
                  address: Option<AddressEvent>, ofValue: bool, p: nat, i: nat)
    requires i < |notices| && Planned(notices[i], stores, values, address, ofValue, p)
    ensures OfEvent(notices[i], stores, values, address) && Contains(notices, stores, values, address, ofValue, p)
  {
    hide Planned;
  }

  /** The notices of all events, planned one after the other on the same queue. */
  method Plan(sq: SQ, values: seq<ValueWrite>, arriving: Address) returns (notices: seq<StoreNotify>)
    requires sq.Valid() && Distinct(values) && forall i :: 0 <= i < |values| ==> sq.IsActive(values[i].index)
    requires arriving.ForStore? ==> sq.IsActive(arriving.index)
    ensures AllPlanned(notices, sq.Contents(), Arrivals(sq.head, values), StoreAddress(sq.head, arriving))
  {
    hide Ahead, Step, Unrolled, DataNotice, AddressNotice, Arrivals, Planned, AllPlanned;
    ghost var stores, arrivals, address := sq.Contents(), Arrivals(sq.head, values), StoreAddress(sq.head, arriving);
    ArrivalsAre(sq.head, values);
    notices := [];
    for i := 0 to |values|
      invariant |notices| == i
      invariant forall k :: 0 <= k < i ==>
                  Planned(notices[k], stores, arrivals, address, true, Ahead(sq.head, values[k].index))
    {
      ActiveIsInside(sq.head, sq.tail, values[i].index);
      var notify := sq.PlanDataForward(values[i].index, values[i].value);
      ValuePlanned(notify, stores, arrivals, address, Ahead(sq.head, values[i].index), values[i].value);
      notices := notices + [notify];
    }
    if arriving.ForStore? {
      ActiveIsInside(sq.head, sq.tail, arriving.index);
      var notify := sq.PlanAddressForward(arriving.index, arriving.address);
      AddressPlanned(notify, stores, arrivals, address, Ahead(sq.head, arriving.index), arriving.address);
      notices := notices + [notify];
    }
    PlanIsComplete(notices, stores, sq.head, values, arriving);
  }

  /** Every load is offered all valid notices, in turn. */
  method ApplyAll(lq: LQ, notices: seq<StoreNotify>)
    requires lq.Valid()
    modifies lq.queue
    ensures |lq.Contents()| == |old(lq.Contents())|
    ensures forall k :: 0 <= k < |lq.Contents()| ==> lq.Contents()[k] == Offered(old(lq.Contents())[k], notices)
  {
    hide Takes, Unrolled, Offered, Forwarded;
    ghost var was := lq.Contents();
    OfferedNothing();
    for i := 0 to |notices|
      invariant |lq.Contents()| == |was|
      invariant forall k :: 0 <= k < |was| ==> lq.Contents()[k] == Offered(was[k], notices[..i])
    {
      forall k | 0 <= k < |was| ensures Offered(was[k], notices[..i + 1])
        == if notices[i].valid then Forwarded(Offered(was[k], notices[..i]), notices[i])
           else Offered(was[k], notices[..i])
      {
        OfferedStep(was[k], notices, i);
      }
      if notices[i].valid {
        lq.ApplyStoreForward(notices[i]);
      }
    }
    assert notices[..|notices|] == notices;
  }

  lemma OfferedNothing()
    ensures forall load: LQEntry :: Offered(load, []) == load
  {
  }

  lemma {:induction false} OfferedStep(load: LQEntry, notices: seq<StoreNotify>, n: nat)
    requires n < |notices|
    ensures Offered(load, notices[..n + 1])
         == if notices[n].valid then Forwarded(Offered(load, notices[..n]), notices[n]) else Offered(load, notices[..n])
  {
    hide Takes;
    assert notices[..n + 1][..n] == notices[..n];
  }

  /** All events are written. */
  method WriteEvents(sq: SQ, values: seq<ValueWrite>, arriving: Address)
    requires sq.Valid() && forall i :: 0 <= i < |values| ==> sq.IsActive(values[i].index)
    requires arriving.ForStore? ==> sq.IsActive(arriving.index)
    modifies sq.queue
    ensures sq.Contents()
         == WithEvents(old(sq.Contents()), Arrivals(sq.head, values), StoreAddress(sq.head, arriving))
  {
    hide Ahead, Step, Unrolled, Arrivals;
    ghost var stores := sq.Contents();
    NothingArrives(stores, sq.head);
    for i := 0 to |values|
      invariant sq.Contents() == WithEvents(stores, Arrivals(sq.head, values[..i]), None)
    {
      ArrivalsStep(sq.head, values, i);
      ActiveIsInside(sq.head, sq.tail, values[i].index);
      sq.WriteValue(values[i].value, values[i].index);
      ValueStep(stores, Arrivals(sq.head, values[..i]), Ahead(sq.head, values[i].index), values[i].value);
    }
    assert values[..|values|] == values;
    if arriving.ForStore? {
      ActiveIsInside(sq.head, sq.tail, arriving.index);
      sq.WriteAddress(arriving.address, arriving.index);
      AddressStep(stores, Arrivals(sq.head, values), Ahead(sq.head, arriving.index), arriving.address);
    }
  }

  lemma NothingArrives(stores: seq<SQEntry>, head: Position)
    ensures WithEvents(stores, Arrivals(head, []), None) == stores
  {
  }

  lemma ValueStep(stores: seq<SQEntry>, values: map<nat, i32>, p: nat, value: i32)
    requires p < |stores|
    ensures var before, after := WithEvents(stores, values, None), WithEvents(stores, values[p := value], None);
            after == before[p := before[p].(value := value, isValueReady := true)]
  {
  }

  lemma AddressStep(stores: seq<SQEntry>, values: map<nat, i32>, p: nat, addr: u32)
    requires p < |stores|
    ensures var before := WithEvents(stores, values, None);
            var after := WithEvents(stores, values, Some(AddressEvent(p, addr)));
            after == before[p := before[p].(address := addr, isAddressReady := true)]
  {
  }

  /** Load k is the one whose address arrives. */
  predicate IsOwn(head: Position, arriving: Address, k: nat) {
    arriving.ForLoad? && k == Ahead(head, arriving.loadIndex)
  }

  /** A load that has just learnt its address, and the value the store queue answers with, if it answers. */
  ghost predicate Answered(was: LQEntry, now: LQEntry, stores: seq<SQEntry>, addr: u32, loadTag: nat) {
    var load := was.(address := addr, isAddressReady := true);
    && (forall j: nat :: AnsweredBy(stores, addr, loadTag, j) ==> now == Filled(load, stores[j].value))
    && ((forall j: nat :: !AnsweredBy(stores, addr, loadTag, j)) ==> now == load)
  }

  /** The load takes its address and the reply of the store queue. */
  method Learn(lq: LQ, index: Position, address: u32, reply: StoreResponse)
    requires lq.Valid() && lq.IsActive(index)
    modifies lq.queue
    ensures var load := old(lq.Contents())[Ahead(lq.head, index)].(address := address, isAddressReady := true);
            lq.Contents() == old(lq.Contents())[Ahead(lq.head, index) :=
                                                  if reply.valid then Filled(load, reply.value) else load]
  {
    hide Ahead, Step, Unrolled;
    ActiveIsInside(lq.head, lq.tail, index);
    lq.WriteAddress(address, index);
    if reply.valid {
      ghost var before, load := lq.queue[..], lq.Contents()[Ahead(lq.head, index)];
      StepAhead(lq.head, index, 0);
      lq.WriteValue(reply.value, index);
      MemQueues.Written(before, lq.queue[..], lq.head, lq.tail, index);
    }
  }

  lemma OwnPosition(queue: seq<LQEntry>, head: Position, tail: Position, index: Position)
    requires |queue| == QUEUE_CAP && Active(head, tail, index)
    ensures Ahead(head, index) < |Unrolled(queue, head, tail)|
    ensures Unrolled(queue, head, tail)[Ahead(head, index)] == queue[index]
  {
    hide Ahead, Step;
    StepAhead(head, index, 0);
  }

  lemma AnswerAgrees(was: LQEntry, reply: StoreResponse, stores: seq<SQEntry>, addr: u32, loadTag: nat)
    requires reply.valid <==> exists j: nat :: AnsweredBy(stores, addr, loadTag, j)
    requires reply.valid ==> exists j: nat :: AnsweredBy(stores, addr, loadTag, j) && reply.value == stores[j].value
    ensures var load := was.(address := addr, isAddressReady := true);
            Answered(was, if reply.valid then Filled(load, reply.value) else load, stores, addr, loadTag)
  {
    if reply.valid {
      var i: nat :| AnsweredBy(stores, addr, loadTag, i) && reply.value == stores[i].value;
      forall j: nat | AnsweredBy(stores, addr, loadTag, j) ensures j == i {
        AnswerIsUnique(stores, addr, loadTag, i, j);
      }
    }
  }

  /**
    The forwarding of a tick. Everything is decided on the queues at its start: the notices of all
    stores that learn something, and the answer to the load that learns its address.
   */
  method Forward(sq: SQ, lq: LQ, values: seq<ValueWrite>, arriving: Address, ghost oldest: nat, ghost c: nat)
    requires sq.Valid() && lq.Valid() && InOrder(sq.Contents(), oldest, c)
    requires Distinct(values) && forall i :: 0 <= i < |values| ==> sq.IsActive(values[i].index)
    requires arriving.ForStore? ==> sq.IsActive(arriving.index)
    requires arriving.ForLoad? ==>
               lq.IsActive(arriving.loadIndex) && !lq.queue[arriving.loadIndex].isAddressReady
    requires Fresh(sq.Contents(), c, Arrivals(sq.head, values), StoreAddress(sq.head, arriving))
    modifies sq.queue, lq.queue
    ensures sq.Contents()
         == WithEvents(old(sq.Contents()), Arrivals(sq.head, values), StoreAddress(sq.head, arriving))
    ensures |lq.Contents()| == |old(lq.Contents())|
    ensures forall k :: 0 <= k < |lq.Contents()| && Asks(old(lq.Contents())[k], old(sq.Contents()), oldest, c) ==>
              Delivered(old(lq.Contents())[k], lq.Contents()[k], old(sq.Contents()), Arrivals(sq.head, values),
                        StoreAddress(sq.head, arriving))
    ensures forall k :: 0 <= k < |lq.Contents()| && !old(lq.Contents())[k].isAddressReady ==>
              if IsOwn(lq.head, arriving, k)
              then Answered(old(lq.Contents())[k], lq.Contents()[k], old(sq.Contents()), arriving.loadAddress,
                            arriving.robTag)
              else lq.Contents()[k] == old(lq.Contents())[k]
  {
    hide Ahead, Step, Unrolled, Arrivals, InOrder, AllPlanned, Delivered, Fresh, Offered, InFlight, IsOlder;
    ghost var stores, loads := sq.Contents(), lq.Contents();
    ghost var arrivals, address := Arrivals(sq.head, values), StoreAddress(sq.head, arriving);
    var notices := Plan(sq, values, arriving);
    var reply := StoreResponse(false, 0);
    if arriving.ForLoad? {
      reply := sq.ReplyToLoadRequest(arriving.loadAddress, arriving.robTag);
      assert sq.Contents() == stores;
      OwnPosition(lq.queue[..], lq.head, lq.tail, arriving.loadIndex);
      AnswerAgrees(loads[Ahead(lq.head, arriving.loadIndex)], reply, stores, arriving.loadAddress, arriving.robTag);
    }
    ApplyAll(lq, notices);
    forall k | 0 <= k < |loads| && !loads[k].isAddressReady ensures Offered(loads[k], notices) == loads[k] {
      NoAddressNoService(loads[k], notices);
    }
    forall k | 0 <= k < |loads| && Asks(loads[k], stores, oldest, c)
      ensures Delivered(loads[k], Offered(loads[k], notices), stores, arrivals, address)
    {
      NoticesDeliver(stores, oldest, c, arrivals, address, notices, loads[k]);
    }
    if arriving.ForLoad? {
      Learn(lq, arriving.loadIndex, arriving.loadAddress, reply);
    }
    WriteEvents(sq, values, arriving);
  }
}
