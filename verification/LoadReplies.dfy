/**
  Who gets the replies of the cache. A reply names a load by its place in the queue and its tag; both
  may have been taken over by another load in the meantime. Loads are numbered here as they are
  issued, so that it can be said which load asked, which load is answered, and which one never is.
 */
module LoadReplies {
  import opened Bits
  import opened Capacities
  import FlushArbiter
  import opened ForwardingTick
  import LQT = LoadQueueTick
  import opened MemoryArbiter
  import opened MemQueues
  import opened Options
  import Rename
  import opened StoreForwarding
  import opened Tags

  /** The load that asked: its place, its tag and its number. */
  datatype Asked = Asked(index: Position, robTag: nat, id: nat)

  /** The cache as the load queue sees it: free, serving a miss (of a load, or of a store), or showing a reply. */
  datatype Cache = Free | Busy(asked: Option<Asked>) | Replying(load: Asked, value: i32)

  datatype State = State(loads: seq<LQEntry>, head: Position, ids: seq<nat>, next: nat, cache: Cache)

  /**
    A tick: squash is the tag of a squash, storeSent tells whether a store goes to the cache, and
    answered whether what the cache works on, or is given now, is done at the end of the tick.
   */
  datatype Event = Event(input: LQT.Input, squash: Option<nat>, storeSent: bool, answered: bool, value: i32)

  /** The load whose request is under way. */
  function Outstanding(cache: Cache): Option<Asked> {
    match cache
    case Free => None
    case Busy(asked) => asked
    case Replying(load, _) => Some(load)
  }

  /** The reply that the load queue sees: none if the squash of the tick covers it. */
  function ReplyOf(cache: Cache, squash: Option<nat>): Option<LQT.Reply> {
    if cache.Replying? && (squash.None? || IsOlder(ROB_CAP, cache.load.robTag, squash.value))
    then Some(LQT.Reply(cache.load.index, cache.load.robTag, cache.value))
    else None
  }

  /** The place of the load that is sent. */
  function SentAt(st: State, e: Event): nat
    requires e.input.sent.Some?
  {
    Ahead(st.head, e.input.sent.value)
  }

  /** A load is sent to a free cache, and it is one that waits; replies are those of the cache. */
  predicate Fits(st: State, e: Event) {
    && |st.loads| == |st.ids| < QUEUE_CAP
    && (e.input.issue.Some? ==> |st.loads| < QUEUE_CAP - 1 && e.input.restored.None?)
    && e.input.reply == ReplyOf(st.cache, e.squash)
    && (e.input.sent.Some? || e.storeSent ==> !st.cache.Busy?)
    && (e.input.sent.Some? ==> SentAt(st, e) < |st.loads| && Waiting(st.loads[SentAt(st, e)]))
    && (e.input.own.Some? ==>
          var k := Ahead(st.head, e.input.own.value.index);
          k < |st.loads| && !st.loads[k].isAddressReady)
    && (e.input.retires ==> st.loads != [] && e.input.restored.None?)
    && (e.input.restored.Some? ==> Ahead(st.head, e.input.restored.value) <= |st.loads|)
  }

  function CacheStep(st: State, e: Event): Cache
    requires Fits(st, e)
  {
    if st.cache.Busy? then
      if !e.answered then st.cache
      else if st.cache.asked.Some? then Replying(st.cache.asked.value, e.value)
      else Free
    else if e.input.sent.Some? then
      var k := SentAt(st, e);
      var asked := Asked(e.input.sent.value, st.loads[k].robTag, st.ids[k]);
      if e.answered then Replying(asked, e.value) else Busy(Some(asked))
    else if e.storeSent && !e.answered then Busy(None)
    else Free
  }

  function Next(st: State, e: Event): State
    requires Fits(st, e)
  {
    var ids := if e.input.issue.Some? then st.ids + [st.next] else st.ids;
    State(LQT.LoadStep(st.loads, st.head, e.input),
          if e.input.retires then (st.head + 1) % QUEUE_CAP else st.head,
          LQT.Left(LQT.Kept(ids, st.head, e.input.restored), e.input.retires),
          if e.input.issue.Some? then st.next + 1 else st.next,
          CacheStep(st, e))
  }

  // ---------- What holds in every state

  /** Numbers grow along the queue. */
  predicate Numbered(st: State) {
    && |st.ids| == |st.loads| < QUEUE_CAP
    && (forall k :: 0 <= k < |st.ids| ==> st.ids[k] < st.next)
    && (forall i, j :: 0 <= i < j < |st.ids| ==> st.ids[i] < st.ids[j])
  }

  /** The load at place k, and the request under way. */
  predicate Linked(st: State, asked: Asked, k: nat)
    requires k < |st.loads| == |st.ids| < QUEUE_CAP
  {
    && (Step(st.head, k) == asked.index && st.loads[k].valueState.FETCHING? ==> st.ids[k] == asked.id)
    && (st.ids[k] == asked.id ==>
          Step(st.head, k) == asked.index && st.loads[k].robTag == asked.robTag && !st.loads[k].valueState.NOTREADY?)
  }

  /** A load that is fetching at the place that asked is the one that asked. */
  predicate Sound(st: State) {
    && Numbered(st)
    && (Outstanding(st.cache).Some? ==>
          && Outstanding(st.cache).value.id < st.next
          && forall k :: 0 <= k < |st.loads| ==> Linked(st, Outstanding(st.cache).value, k))
  }

  /** Where a load of the next state was before: the number of loads that have left in front of it. */
  function Gone(e: Event): nat {
    if e.input.retires then 1 else 0
  }

  /** Loads and numbers of the next state, in terms of the present one. */
  lemma {:induction false} NextAt(st: State, e: Event, k: nat)
    requires Fits(st, e) && k < |Next(st, e).loads|
    ensures |Next(st, e).ids| == |Next(st, e).loads| < QUEUE_CAP
    ensures Step(Next(st, e).head, k) == Step(st.head, k + Gone(e))
    ensures var d := Gone(e);
            && k + d < |LQT.WithIssue(st.loads, e.input.issue)| < QUEUE_CAP
            && Next(st, e).loads[k]
               == LQT.LoadAfter(LQT.WithIssue(st.loads, e.input.issue)[k + d], Step(st.head, k + d), e.input)
            && Next(st, e).ids[k] == (if e.input.issue.Some? then st.ids + [st.next] else st.ids)[k + d]
    ensures k + Gone(e) < |st.loads| || (k + Gone(e) == |st.loads| && e.input.issue.Some?)
    ensures e.input.restored.Some? ==> k < Ahead(st.head, e.input.restored.value)
  {
    hide Ahead, LQT.LoadAfter;
    StepTwice(st.head, k);
  }

  lemma StepTwice(head: Position, k: nat)
    ensures Step((head + 1) % QUEUE_CAP, k) == Step(head, k + 1)
  {
  }

  lemma {:induction false} SameLengths(st: State, e: Event)
    requires Fits(st, e)
    ensures |Next(st, e).ids| == |Next(st, e).loads| < QUEUE_CAP
  {
    hide Ahead, LQT.LoadAfter;
  }

  /** Notices and addresses leave tag and place alone, and never make a load wait again. */
  lemma {:induction false} LearnedKeeps(load: LQEntry, at: Position, input: LQT.Input)
    ensures var l := LQT.Learned(load, at, input);
            && l.robTag == load.robTag
            && (l.valueState == load.valueState || l.valueState.READY?)
            && ((!load.isAddressReady && (input.own.Some? ==> input.own.value.index != at)) ==> l == load)
  {
    OfferedKeeps(load, input.notices);
    if !load.isAddressReady {
      NoAddressNoService(load, input.notices);
    }
  }

  lemma {:induction false} OfferedKeeps(load: LQEntry, notices: seq<StoreNotify>)
    ensures Offered(load, notices).valueState == load.valueState || Offered(load, notices).valueState.READY?
  {
    hide Takes;
    if notices != [] {
      OfferedKeeps(load, notices[..|notices| - 1]);
    }
  }

  /** What a tick may do to the state of a load. */
  lemma {:induction false} AfterKeeps(load: LQEntry, at: Position, input: LQT.Input)
    ensures var l := LQT.LoadAfter(load, at, input);
            && l.robTag == load.robTag
            && (l.valueState.FETCHING? ==> load.valueState.FETCHING? || input.sent == Some(at))
            && (l.valueState.NOTREADY? ==> load.valueState.NOTREADY? && input.sent != Some(at))
  {
    hide LQT.Learned;
    LearnedKeeps(load, at, input);
  }

  /** The load at a place in use is found there. */
  lemma PlaceOf(head: Position, index: Position, k: nat)
    requires k < QUEUE_CAP
    ensures Step(head, k) == index <==> k == Ahead(head, index)
  {
    hide Step, Ahead;
    StepAhead(head, index, k);
  }

  lemma {:induction false} NumbersGrow(st: State, e: Event)
    requires Fits(st, e) && Numbered(st)
    ensures Numbered(Next(st, e))
  {
    hide Ahead, LQT.LoadAfter, Step;
    SameLengths(st, e);
    forall k | 0 <= k < |Next(st, e).ids| ensures Next(st, e).ids[k] < Next(st, e).next {
      NextAt(st, e, k);
    }
    forall i, j | 0 <= i < j < |Next(st, e).ids| ensures Next(st, e).ids[i] < Next(st, e).ids[j] {
      NextAt(st, e, i);
      NextAt(st, e, j);
    }
  }

  /** What asks after the tick asked before, or has just been sent. */
  lemma {:induction false} AsksNext(st: State, e: Event)
    requires Fits(st, e) && Numbered(st)
    ensures Outstanding(CacheStep(st, e)).Some? ==>
              var asked := Outstanding(CacheStep(st, e)).value;
              if e.input.sent.Some?
              then asked == Asked(e.input.sent.value, st.loads[SentAt(st, e)].robTag, st.ids[SentAt(st, e)])
              else Outstanding(st.cache) == Some(asked)
    ensures e.input.sent.Some? ==> Outstanding(CacheStep(st, e)).Some?
  {
    hide Ahead;
  }

  /** The link of a load that was in the queue. */
  lemma {:induction false} LinkKept(st: State, e: Event, k: nat)
    requires Fits(st, e) && Sound(st) && Outstanding(CacheStep(st, e)).Some?
    requires k < |Next(st, e).loads| && k + Gone(e) < |st.loads|
    ensures |Next(st, e).ids| == |Next(st, e).loads| < QUEUE_CAP
    ensures Linked(Next(st, e), Outstanding(CacheStep(st, e)).value, k)
  {
    hide Ahead, LQT.LoadAfter, Step, LQT.LoadStep, LQT.Kept, LQT.Left, CacheStep;
    var was := k + Gone(e);
    NextAt(st, e, k);
    AsksNext(st, e);
    AfterKeeps(st.loads[was], Step(st.head, was), e.input);
    if e.input.sent.Some? {
      PlaceOf(st.head, e.input.sent.value, was);
      assert st.ids[was] == st.ids[SentAt(st, e)] ==> was == SentAt(st, e);
    } else {
      assert Linked(st, Outstanding(st.cache).value, was);
    }
  }

  /** A load that has just been issued has not asked. */
  lemma {:induction false} LinkOfNew(st: State, e: Event, k: nat)
    requires Fits(st, e) && Sound(st) && Outstanding(CacheStep(st, e)).Some?
    requires k < |Next(st, e).loads| && k + Gone(e) == |st.loads|
    ensures |Next(st, e).ids| == |Next(st, e).loads| < QUEUE_CAP
    ensures Linked(Next(st, e), Outstanding(CacheStep(st, e)).value, k)
  {
    hide Ahead, LQT.LoadAfter, Step;
    NextAt(st, e, k);
    AsksNext(st, e);
    var place := Step(st.head, |st.loads|);
    AfterKeeps(LQT.WithIssue(st.loads, e.input.issue)[|st.loads|], place, e.input);
    if e.input.sent.Some? {
      PlaceOf(st.head, e.input.sent.value, |st.loads|);
    }
  }

  /** Every tick keeps this. */
  lemma {:induction false} StepKeepsSound(st: State, e: Event)
    requires Fits(st, e) && Sound(st)
    ensures Sound(Next(st, e))
  {
    hide Ahead, Step, LQT.LoadStep, LQT.Kept, LQT.Left, Linked;
    NumbersGrow(st, e);
    SameLengths(st, e);
    AsksNext(st, e);
    if Outstanding(CacheStep(st, e)).Some? {
      forall k | 0 <= k < |Next(st, e).loads| ensures Linked(Next(st, e), Outstanding(CacheStep(st, e)).value, k) {
        NextAt(st, e, k);
        if k + Gone(e) < |st.loads| {
          LinkKept(st, e, k);
        } else {
          LinkOfNew(st, e, k);
        }
      }
    }
  }

  // ---------- Replies that go astray

  /** The load at place k takes the reply of the tick. */
  predicate Takes(st: State, e: Event, k: nat)
    requires k < |st.loads| < QUEUE_CAP
  {
    var at := Step(st.head, k);
    LQT.TakesReply(LQT.WithSent(LQT.Learned(st.loads[k], at, e.input), at, e.input.sent), at, e.input.reply)
  }

  /** The load that is sent in this tick has the place and the tag that the reply names. */
  predicate SentForReply(st: State, e: Event) {
    && e.input.sent.Some? && e.input.reply.Some? && e.input.sent.value == e.input.reply.value.index
    && SentAt(st, e) < |st.loads| && st.loads[SentAt(st, e)].robTag == e.input.reply.value.robTag
  }

  /** A load that takes the reply and did not ask. */
  predicate Astray(st: State, e: Event, k: nat)
    requires |st.loads| == |st.ids| < QUEUE_CAP
  {
    k < |st.loads| && st.cache.Replying? && Takes(st, e, k) && st.ids[k] != st.cache.load.id
  }

  /**
    A reply reaches a load that did not ask for it if and only if the load that is sent to the cache
    in the very tick of the reply has the same place and the same tag as the one that asked.
   */
  lemma {:induction false} RepliesGoAstray(st: State, e: Event)
    requires Fits(st, e) && Sound(st)
    ensures (exists k: nat :: Astray(st, e, k)) <==> SentForReply(st, e)
  {
    hide Ahead, Step, LQT.Learned;
    if SentForReply(st, e) {
      var k := SentAt(st, e);
      PlaceOf(st.head, e.input.sent.value, k);
      LearnedKeeps(st.loads[k], Step(st.head, k), e.input);
      SentDidNotAsk(st, e, k);
      assert Astray(st, e, k);
    }
    forall k: nat | Astray(st, e, k) ensures SentForReply(st, e) {
      PlaceOf(st.head, st.cache.load.index, k);
      LearnedKeeps(st.loads[k], Step(st.head, k), e.input);
      AskedIsLinked(st, k);
    }
  }

  lemma AskedIsLinked(st: State, k: nat)
    requires Sound(st) && st.cache.Replying? && k < |st.loads|
    ensures Linked(st, st.cache.load, k)
  {
    hide Step, Linked;
  }

  /** A load that waits has not asked. */
  lemma SentDidNotAsk(st: State, e: Event, k: nat)
    requires Fits(st, e) && Sound(st) && st.cache.Replying? && e.input.sent.Some? && k == SentAt(st, e)
    ensures st.ids[k] != st.cache.load.id
  {
    hide Ahead, Step;
    AskedIsLinked(st, k);
  }

  /** A load that has just been issued takes no reply. */
  lemma {:induction false} NewTakesNothing(st: State, e: Event)
    requires Fits(st, e) && e.input.issue.Some?
    ensures var at := Step(st.head, |st.loads|);
            var blank := LQT.WithIssue(st.loads, e.input.issue)[|st.loads|];
            LQT.LoadAfter(blank, at, e.input).valueState.NOTREADY?
  {
    hide Ahead, Step, LQT.Learned;
    var at, blank := Step(st.head, |st.loads|), LQT.WithIssue(st.loads, e.input.issue)[|st.loads|];
    if e.input.own.Some? {
      PlaceOf(st.head, e.input.own.value.index, |st.loads|);
    }
    if e.input.sent.Some? {
      PlaceOf(st.head, e.input.sent.value, |st.loads|);
    }
    LearnedKeeps(blank, at, e.input);
  }

  // ---------- Replies that are lost

  /** The load is fetching, but its request is not under way. */
  predicate Stranded(st: State, k: nat)
    requires |st.loads| == |st.ids|
  {
    && k < |st.loads| && st.loads[k].valueState.FETCHING?
    && !(Outstanding(st.cache).Some? && Outstanding(st.cache).value.id == st.ids[k])
  }

  predicate NoneStranded(st: State)
    requires |st.loads| == |st.ids|
  {
    forall k :: 0 <= k < |st.loads| ==> !Stranded(st, k)
  }

  /** The reply to the load at place k is there, but the squash of the tick covers it, and no notice serves the load. */
  predicate LosesReply(st: State, e: Event, k: nat)
    requires k < |st.loads| == |st.ids| < QUEUE_CAP
  {
    && st.cache.Replying? && st.cache.load.id == st.ids[k] && e.input.reply.None?
    && LQT.Learned(st.loads[k], Step(st.head, k), e.input).valueState.FETCHING?
  }

  /**
    A load waits for ever if and only if the squash of the tick covers its reply and yet leaves the
    load in the queue.
   */
  lemma {:induction false} RepliesAreLost(st: State, e: Event, k: nat)
    requires Fits(st, e) && Sound(st) && NoneStranded(st) && k < |Next(st, e).loads|
    ensures |Next(st, e).ids| == |Next(st, e).loads|
    ensures Stranded(Next(st, e), k) <==> k + Gone(e) < |st.loads| && LosesReply(st, e, k + Gone(e))
  {
    hide Ahead, Step, LQT.Learned, LQT.LoadStep, LQT.Kept, LQT.Left;
    var at := k + Gone(e);
    NextAt(st, e, k);
    AsksNext(st, e);
    if at == |st.loads| {
      NewTakesNothing(st, e);
    } else {
      LearnedKeeps(st.loads[at], Step(st.head, at), e.input);
      assert !Stranded(st, at);
      if e.input.sent.Some? {
        PlaceOf(st.head, e.input.sent.value, at);
      }
      if st.cache.Replying? {
        AskedIsLinked(st, at);
      }
    }
  }

  /** The squash of the tick keeps the load at place k exactly if the load is not younger than what it names. */
  predicate KeepsByAge(st: State, e: Event, k: nat)
    requires k < |st.loads|
  {
    && e.squash.Some? && e.input.restored.Some?
    && (k < Ahead(st.head, e.input.restored.value) <==> !IsOlder(ROB_CAP, e.squash.value, st.loads[k].robTag))
  }

  /**
    Among live loads it is the load that the squash itself names: a load that has to be read again, whose reply
    is there in the tick of its squash.
   */
  lemma {:induction false} NamedLoadIsLost(st: State, e: Event, k: nat, oldest: nat)
    requires Fits(st, e) && Sound(st) && NoneStranded(st) && k < |Next(st, e).loads| && k < |st.loads|
    requires KeepsByAge(st, e, k) && Live(ROB_CAP, oldest, e.squash.value) && Live(ROB_CAP, oldest, st.loads[k].robTag)
    ensures |Next(st, e).ids| == |Next(st, e).loads|
    ensures Stranded(Next(st, e), k)
       <==> && st.cache.Replying? && st.cache.load.id == st.ids[k] && st.loads[k].robTag == e.squash.value
            && LQT.Learned(st.loads[k], Step(st.head, k), e.input).valueState.FETCHING?
  {
    hide Ahead, Step, LQT.Learned, LQT.LoadStep, LQT.Kept, LQT.Left, Live, IsOlder, SeqDistance;
    RepliesAreLost(st, e, k);
    NextAt(st, e, k);
    if st.cache.Replying? {
      AskedIsLinked(st, k);
    }
    LiveTagsAreOrdered(ROB_CAP, oldest, st.loads[k].robTag, e.squash.value);
    LiveTagsAreOrdered(ROB_CAP, oldest, e.squash.value, st.loads[k].robTag);
  }

  // ---------- Runs

  const EMPTY := State([], 0, [], 0, Free)

  /** The state after the given ticks, if each of them fits. */
  function After(events: seq<Event>): (r: Option<State>)
    ensures r.Some? ==> Sound(r.value)
  {
    if events == [] then Some(EMPTY)
    else
      var n := |events| - 1;
      match After(events[..n])
      case None => None
      case Some(st) =>
        if Fits(st, events[n]) then
          StepKeepsSound(st, events[n]);
          Some(Next(st, events[n]))
        else None
  }

  lemma {:induction false} AfterNext(events: seq<Event>, e: Event)
    requires After(events).Some? && Fits(After(events).value, e)
    ensures After(events + [e]) == Some(Next(After(events).value, e))
  {
    hide Fits, Next, Sound;
    assert (events + [e])[..|events|] == events;
  }

  const NOTHING := LQT.Input(None, [], None, None, false, None, None, None)
  const QUIET := Event(NOTHING, None, false, false, 0)
  const ISSUE := QUIET.(input := NOTHING.(issue := Some(LQT.LoadIssue(1, 4, false))))
  const SEND := QUIET.(input := NOTHING.(sent := Some(0)))

  function AddressOf(address: u32): Event {
    QUIET.(input := NOTHING.(own := Some(LQT.OwnAddress(0, address, StoreResponse(false, 0)))))
  }

  function WithTag(address: u32, isAddressReady: bool, valueState: ValueState): LQEntry {
    LQEntry(1, address, 0, 4, isAddressReady, valueState, false, false)
  }

  function One(load: LQEntry, id: nat, cache: Cache): State {
    State([load], 0, [id], id + 1, cache)
  }

  /** A load under tag 1 has been sent to the cache and misses. */
  function Missed(): State {
    One(WithTag(64, true, FETCHING), 0, Busy(Some(Asked(0, 1, 0))))
  }

  lemma {:induction false} Issued(id: nat, cache: Cache)
    requires !cache.Replying?
    ensures var st := State([], 0, [], id, cache);
            && Fits(st, ISSUE)
            && Next(st, ISSUE) == One(WithTag(0, false, NOTREADY), id, if cache.Busy? then cache else Free)
  {
    assert LQT.LoadStep([], 0, ISSUE.input) == [WithTag(0, false, NOTREADY)];
  }

  lemma {:induction false} Addressed(id: nat, cache: Cache, address: u32)
    requires !cache.Replying?
    ensures var st := One(WithTag(0, false, NOTREADY), id, cache);
            && Fits(st, AddressOf(address))
            && Next(st, AddressOf(address))
               == One(WithTag(address, true, NOTREADY), id, if cache.Busy? then cache else Free)
  {
    assert Ahead(0, 0) == 0 && Step(0, 0) == 0;
    assert LQT.LoadStep([WithTag(0, false, NOTREADY)], 0, AddressOf(address).input)
        == [WithTag(address, true, NOTREADY)];
  }

  lemma {:induction false} Sent()
    ensures var st := One(WithTag(64, true, NOTREADY), 0, Free); Fits(st, SEND) && Next(st, SEND) == Missed()
  {
    assert Ahead(0, 0) == 0 && Step(0, 0) == 0;
    assert LQT.LoadStep([WithTag(64, true, NOTREADY)], 0, SEND.input) == [WithTag(64, true, FETCHING)];
  }

  /** Some ticks in which nothing happens. */
  function Quiets(n: nat): seq<Event> {
    if n == 0 then [] else Quiets(n - 1) + [QUIET]
  }

  /** Nothing changes in them while the cache works or is free. */
  lemma {:induction false} Rests(events: seq<Event>, st: State, n: nat)
    requires After(events) == Some(st) && Fits(st, QUIET) && Next(st, QUIET) == st
    ensures After(events + Quiets(n)) == Some(st)
  {
    hide Fits, Next, Sound, After;
    if n == 0 {
      assert events + Quiets(0) == events;
    } else {
      Rests(events, st, n - 1);
      AfterNext(events + Quiets(n - 1), QUIET);
      assert events + Quiets(n) == events + Quiets(n - 1) + [QUIET];
    }
  }

  lemma {:induction false} QuietChangesNothing(load: LQEntry, id: nat, cache: Cache)
    requires !cache.Replying?
    ensures var st := One(load, id, cache); Fits(st, QUIET) && Next(st, QUIET) == st
    ensures var st := State([], 0, [], id, cache); Fits(st, QUIET) && Next(st, QUIET) == st
  {
    assert LQT.LoadStep([load], 0, NOTHING) == [load] && LQT.LoadStep([], 0, NOTHING) == [];
  }

  /** Issue, a tick for the address unit, the address, and the load is sent. */
  function MissRun(): seq<Event> {
    [] + [ISSUE] + Quiets(1) + [AddressOf(64)] + [SEND]
  }

  lemma {:induction false} MissHappens()
    ensures After(MissRun()) == Some(Missed())
  {
    hide Fits, Next, Sound, Quiets;
    Issued(0, Free);
    AfterNext([], ISSUE);
    QuietChangesNothing(WithTag(0, false, NOTREADY), 0, Free);
    Rests([] + [ISSUE], One(WithTag(0, false, NOTREADY), 0, Free), 1);
    Addressed(0, Free, 64);
    AfterNext([] + [ISSUE] + Quiets(1), AddressOf(64));
    Sent();
    AfterNext([] + [ISSUE] + Quiets(1) + [AddressOf(64)], SEND);
  }

  const SQUASH_OLDER := QUIET.(squash := Some(0), input := NOTHING.(restored := Some(0)))
  const SQUASH_IT := QUIET.(squash := Some(1), input := NOTHING.(restored := Some(1)))
  const ANSWER := QUIET.(answered := true, value := 7)
  const MISSING := Asked(0, 1, 0)

  lemma {:induction false} Squashed()
    ensures Fits(Missed(), SQUASH_OLDER) && Next(Missed(), SQUASH_OLDER) == State([], 0, [], 1, Busy(Some(MISSING)))
  {
    assert Ahead(0, 0) == 0;
    assert LQT.LoadStep(Missed().loads, 0, SQUASH_OLDER.input) == [];
  }

  lemma {:induction false} Answers(load: LQEntry, id: nat)
    ensures var st := One(load, id, Busy(Some(MISSING)));
            Fits(st, ANSWER) && Next(st, ANSWER) == One(load, id, Replying(MISSING, 7))
  {
    assert LQT.LoadStep([load], 0, ANSWER.input) == [load];
  }

  /** In the tick in which the reply is there, the new load is sent to the cache. */
  function ReplyAndSend(): Event {
    SEND.(input := SEND.input.(reply := Some(LQT.Reply(0, 1, 7))))
  }

  /** The miss takes 22 ticks; after the squash there is time to fetch and to issue again. */
  function AstrayRun(): seq<Event> {
    MissRun() + [SQUASH_OLDER] + Quiets(8) + [ISSUE] + Quiets(1) + [AddressOf(128)] + Quiets(9) + [ANSWER]
  }

  lemma {:induction false} AstrayRunIs()
    ensures After(AstrayRun()) == Some(One(WithTag(128, true, NOTREADY), 1, Replying(MISSING, 7)))
  {
    hide Fits, Next, Sound, MissRun, Quiets;
    var waiting := Busy(Some(MISSING));
    var blank, again := One(WithTag(0, false, NOTREADY), 1, waiting), One(WithTag(128, true, NOTREADY), 1, waiting);
    MissHappens();
    Squashed();
    AfterNext(MissRun(), SQUASH_OLDER);
    QuietChangesNothing(WithTag(0, false, NOTREADY), 1, waiting);
    QuietChangesNothing(WithTag(128, true, NOTREADY), 1, waiting);
    var gone := MissRun() + [SQUASH_OLDER];
    Rests(gone, State([], 0, [], 1, waiting), 8);
    Issued(1, waiting);
    AfterNext(gone + Quiets(8), ISSUE);
    var issued := gone + Quiets(8) + [ISSUE];
    Rests(issued, blank, 1);
    Addressed(1, waiting, 128);
    AfterNext(issued + Quiets(1), AddressOf(128));
    Rests(issued + Quiets(1) + [AddressOf(128)], again, 9);
    Answers(WithTag(128, true, NOTREADY), 1);
    AfterNext(issued + Quiets(1) + [AddressOf(128)] + Quiets(9), ANSWER);
  }

  /**
    A run from the empty queue: a load misses, an older squash removes it, the path is fetched again
    and a load with the same tag enters the same place. It is sent when the cache is free again, and
    is given the value that was read for the other address.
   */
  lemma {:induction false} AReplyGoesAstray()
    ensures After(AstrayRun()).Some? && Fits(After(AstrayRun()).value, ReplyAndSend())
    ensures Astray(After(AstrayRun()).value, ReplyAndSend(), 0)
  {
    hide After, AstrayRun;
    AstrayRunIs();
    var st := One(WithTag(128, true, NOTREADY), 1, Replying(MISSING, 7));
    assert Ahead(0, 0) == 0 && Step(0, 0) == 0;
    assert Fits(st, ReplyAndSend());
    RepliesGoAstray(st, ReplyAndSend());
  }

  /** A run in which a load is squashed for itself in the tick of its reply, and waits for ever. */
  lemma {:induction false} AReplyIsLost()
    ensures var run := MissRun() + Quiets(21) + [ANSWER] + [SQUASH_IT];
            After(run).Some? && |After(run).value.loads| == |After(run).value.ids| && Stranded(After(run).value, 0)
  {
    hide After, MissRun, Quiets;
    MissHappens();
    QuietChangesNothing(WithTag(64, true, FETCHING), 0, Busy(Some(MISSING)));
    Rests(MissRun(), Missed(), 21);
    Answers(WithTag(64, true, FETCHING), 0);
    AfterNext(MissRun() + Quiets(21), ANSWER);
    var st := One(WithTag(64, true, FETCHING), 0, Replying(MISSING, 7));
    assert Ahead(0, 1) == 1;
    assert !IsOlder(ROB_CAP, 1, 1);
    assert Fits(st, SQUASH_IT);
    AfterNext(MissRun() + Quiets(21) + [ANSWER], SQUASH_IT);
    assert LQT.LoadStep(st.loads, 0, SQUASH_IT.input) == st.loads;
  }

  // ---------- Values that are overwritten

  /** A load that is given its value in this tick keeps it exactly if it is not the load that is sent. */
  lemma {:induction false} SentLoadLosesValue(load: LQEntry, at: Position, input: LQT.Input)
    requires LQT.Learned(load, at, input).valueState.READY? && input.reply.None?
    ensures LQT.LoadAfter(load, at, input).valueState.READY? <==> input.sent != Some(at)
    ensures input.sent != Some(at) ==> LQT.LoadAfter(load, at, input).value == LQT.Learned(load, at, input).value
  {
    hide LQT.Learned;
  }

  /**
    A load that may be sent is served by an uncommitted store only if the address of that store
    arrives in this very tick, and its value was there before.
   */
  lemma {:induction false} ServedAndSent(stores: seq<SQEntry>, oldest: nat, c: nat, values: map<nat, i32>,
                                         address: Option<AddressEvent>, load: LQEntry, squash: Option<nat>, p: nat)
    requires InOrder(stores, oldest, c) && Fresh(stores, c, values, address) && Asks(load, stores, oldest, c)
    requires c <= p && ServedBy(stores, values, address, load, p)
    ensures LoadMayLeave(stores, load, squash) ==> address.Some? && address.value.at == p && p !in values
  {
    hide IsOlder, Live, Visible;
    EventsKeepSight(stores, oldest, c, values, address, load.robTag);
    FirstDecides(stores, oldest, c, p, load.robTag);
    if !(address.Some? && address.value.at == p) {
      assert HoldsBack(stores[p], load.address, load.robTag);
    }
  }

  /** The detector of memory-order violations overlooks it: at the start of the tick the load has not started. */
  lemma {:induction false} SentLoadIsOverlooked(load: LQEntry, seen: FlushArbiter.Input,
                                                squash: Option<FlushArbiter.SquashInfo>)
    requires Rename.RobShape(seen.rob) && seen.store.Some? && Waiting(load)
    ensures !FlushArbiter.Violates(load, seen, squash)
  {
  }

  const STORE_7 := SQEntry(0, 0, 7, 4, false, true, false)

  /** A load and an older store to its address that it is served by and sent past in one tick. */
  lemma {:induction false} ForwardedValueIsOverwritten()
    ensures var load, address := WithTag(64, true, NOTREADY), Some(AddressEvent(0, 64));
            && InOrder([STORE_7], 0, 0) && Fresh([STORE_7], 0, map[], address) && Asks(load, [STORE_7], 0, 0)
            && LoadMayLeave([STORE_7], load, None) && ServedBy([STORE_7], map[], address, load, 0)
  {
    hide IsOlder, Live;
    SmallTags();
    SmallTagIsLive();
    assert !Stops(STORE_7, 1);
    EventsKeepSight([STORE_7], 0, 0, map[], Some(AddressEvent(0, 64)), 1);
  }

  lemma SmallTagIsLive()
    ensures Live(ROB_CAP, 0, 1)
  {
    hide FieldSize, SeqDistance, Slot, Encode;
    SmallTag(0);
    SmallTag(1);
    DecodeEncoded(ROB_CAP, 0);
    DecodeEncoded(ROB_CAP, 1);
    DistanceIsExact(ROB_CAP, 0, 1);
  }
}
