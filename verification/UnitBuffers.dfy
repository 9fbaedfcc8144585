/**
  Stations and result buffers as the branch, arithmetic and address units have them: a few places,
  each free or taken. A result leaves when it is the oldest of its buffer.
 */
module UnitBuffers {
  import opened Bits
  import opened Capacities
  import opened Options
  import opened Rename
  import opened RenameCore
  import opened RenameInvariants
  import opened RenameTheorems
  import opened ResultUnits
  import opened Tags

  /** The capacity of all stations and buffers of the three units. */
  const PLACES: nat := 4

  datatype Result = Result(robTag: nat, value: i32)

  function TagsIn(results: set<Result>): (tags: set<nat>)
    ensures forall r :: r in results ==> r.robTag in tags
    ensures forall tag :: tag in tags ==> exists r :: r in results && r.robTag == tag
  {
    set r | r in results :: r.robTag
  }

  predicate AllLive(tags: set<nat>, oldest: nat) {
    forall tag :: tag in tags ==> Live(ROB_CAP, oldest, tag)
  }

  predicate IsOldest(tags: set<nat>, tag: nat) {
    tag in tags && forall other :: other in tags ==> !IsOlder(ROB_CAP, other, tag)
  }

  function AsSet<T>(x: Option<T>): set<T> {
    if x.Some? then {x.value} else {}
  }

  /** What a buffer keeps in a squash. */
  function Older(results: set<Result>, squash: Option<nat>): set<Result> {
    set r | r in results && (squash.Some? ==> IsOlder(ROB_CAP, r.robTag, squash.value))
  }

  /** What is delivered: the oldest result; onto the result bus goes only what the squash does not cover. */
  ghost predicate Delivered(results: set<Result>, head: Option<Result>, onBus: bool, squash: Option<nat>,
                            oldest: nat)
  {
    var tags := TagsIn(results);
    && (head.Some? ==>
          && head.value in results && (AllLive(tags, oldest) ==> IsOldest(tags, head.value.robTag))
          && (onBus && squash.Some? ==> IsOlder(ROB_CAP, head.value.robTag, squash.value)))
    && (head.None? && results != {} ==>
          && onBus && squash.Some?
          && (AllLive(tags, oldest) ==>
                exists tag :: IsOldest(tags, tag) && !IsOlder(ROB_CAP, tag, squash.value)))
  }

  /** What is not older than the best one is not older than a better one. */
  lemma BetterThanBest(oldest: nat, tag: nat, best: nat, better: nat)
    requires Live(ROB_CAP, oldest, tag) && Live(ROB_CAP, oldest, best) && Live(ROB_CAP, oldest, better)
    requires tag == better || !IsOlder(ROB_CAP, tag, best)
    requires best == better || IsOlder(ROB_CAP, better, best)
    ensures !IsOlder(ROB_CAP, tag, better)
  {
    hide IsOlder, SeqDistance;
    LiveTagsAreOrdered(ROB_CAP, oldest, tag, best);
    LiveTagsAreOrdered(ROB_CAP, oldest, better, best);
    LiveTagsAreOrdered(ROB_CAP, oldest, tag, better);
  }

  class ResultBuffer {
    const outputBuffer: array<Result>
    const slotValid: array<bool>

    /** Every tag is there once. */
    ghost predicate Valid()
      reads outputBuffer, slotValid
    {
      && outputBuffer.Length == PLACES && slotValid.Length == PLACES
      && forall i, j :: 0 <= i < j < PLACES && slotValid[i] && slotValid[j] ==>
           outputBuffer[i].robTag != outputBuffer[j].robTag
    }

    ghost function Contents(): (results: set<Result>)
      requires Valid()
      reads outputBuffer, slotValid
    {
      set i | 0 <= i < PLACES && slotValid[i] :: outputBuffer[i]
    }

    constructor ()
      ensures Valid() && fresh(outputBuffer) && fresh(slotValid) && Contents() == {}
    {
      outputBuffer := new Result[PLACES](i => Result(0, 0));
      slotValid := new bool[PLACES](i => false);
    }

    predicate IsFull()
      requires Valid()
      reads outputBuffer, slotValid
    {
      forall i :: 0 <= i < PLACES ==> slotValid[i]
    }

    /** The result goes to the first free place. */
    method Push(result: Result)
      requires Valid() && !IsFull() && result.robTag !in TagsIn(Contents())
      modifies outputBuffer, slotValid
      ensures Valid() && Contents() == old(Contents()) + {result}
    {
      var i := 0;
      while slotValid[i]
        invariant 0 <= i < PLACES && forall k :: 0 <= k < i ==> slotValid[k]
        decreases PLACES - i
      {
        i := i + 1;
      }
      outputBuffer[i] := result;
      slotValid[i] := true;
      assert forall r :: r in Contents() ==> r == result || r in old(Contents());
      assert forall k :: 0 <= k < PLACES && k != i ==> outputBuffer[k] == old(outputBuffer[k]);
      assert outputBuffer[i] == result && forall r :: r in old(Contents()) ==> r in Contents();
    }

    /** The oldest result; the tags are compared with the best one so far. */
    method Head(ghost oldest: nat) returns (head: Option<Result>)
      requires Valid()
      ensures head.None? <==> Contents() == {}
      ensures head.Some? ==> head.value in Contents()
      ensures head.Some? && AllLive(TagsIn(Contents()), oldest) ==> IsOldest(TagsIn(Contents()), head.value.robTag)
    {
      hide IsOlder, Live;
      head := None;
      for i := 0 to PLACES
        invariant head.None? <==> forall k :: 0 <= k < i ==> !slotValid[k]
        invariant head.Some? ==> head.value in Contents()
        invariant head.Some? && AllLive(TagsIn(Contents()), oldest) ==>
                    forall k :: 0 <= k < i && slotValid[k] ==>
                      !IsOlder(ROB_CAP, outputBuffer[k].robTag, head.value.robTag)
      {
        if slotValid[i] && (head.None? || IsOlder(ROB_CAP, outputBuffer[i].robTag, head.value.robTag)) {
          if AllLive(TagsIn(Contents()), oldest) {
            var best := if head.Some? then head.value.robTag else outputBuffer[i].robTag;
            forall k | 0 <= k <= i && slotValid[k]
              ensures !IsOlder(ROB_CAP, outputBuffer[k].robTag, outputBuffer[i].robTag)
            {
              BetterThanBest(oldest, outputBuffer[k].robTag, best, outputBuffer[i].robTag);
            }
          }
          head := Some(outputBuffer[i]);
        }
      }
    }

    /** The result with this tag is there no more. */
    method Remove(result: Result)
      requires Valid() && result in Contents()
      modifies slotValid
      ensures Valid() && Contents() == old(Contents()) - {result}
    {
      var i := 0;
      while !(slotValid[i] && outputBuffer[i].robTag == result.robTag)
        invariant 0 <= i < PLACES
        invariant forall k :: 0 <= k < i ==> !(slotValid[k] && outputBuffer[k].robTag == result.robTag)
        decreases PLACES - i
      {
        i := i + 1;
      }
      slotValid[i] := false;
      assert forall r :: r in Contents() ==> r in old(Contents()) && r != result;
    }

    method Flush(tag: nat)
      requires Valid()
      modifies slotValid
      ensures Valid() && Contents() == Older(old(Contents()), Some(tag))
    {
      hide IsOlder;
      for i := 0 to PLACES
        invariant forall k :: 0 <= k < PLACES ==>
                    slotValid[k] == (old(slotValid[k]) && (k < i ==> IsOlder(ROB_CAP, outputBuffer[k].robTag, tag)))
      {
        if slotValid[i] && !IsOlder(ROB_CAP, outputBuffer[i].robTag, tag) {
          slotValid[i] := false;
        }
      }
    }

    method Deliver(onBus: bool, squash: Option<nat>, ghost oldest: nat) returns (head: Option<Result>)
      requires Valid()
      ensures Delivered(Contents(), head, onBus, squash, oldest) && (head.Some? ==> head.value in Contents())
    {
      hide IsOlder, Live;
      head := Head(oldest);
      if onBus && head.Some? && squash.Some? && !IsOlder(ROB_CAP, head.value.robTag, squash.value) {
        head := None;
      }
    }

    /**
      One tick: a result that has been computed comes in, the oldest of those there at the start
      leaves, and a squash drops what is not older.
     */
    method Tick(computed: Option<Result>, onBus: bool, squash: Option<nat>, ghost oldest: nat)
        returns (head: Option<Result>)
      requires Valid() && (computed.Some? ==> !IsFull() && computed.value.robTag !in TagsIn(Contents()))
      modifies outputBuffer, slotValid
      ensures Valid() && Delivered(old(Contents()), head, onBus, squash, oldest)
      ensures Contents() == Older(old(Contents()) + AsSet(computed) - AsSet(head), squash)
    {
      hide IsOlder, Delivered, TagsIn;
      head := Deliver(onBus, squash, oldest);
      ghost var start := Contents();
      if computed.Some? {
        Push(computed.value);
      }
      assert Contents() == start + AsSet(computed);
      if head.Some? {
        Remove(head.value);
      }
      assert Contents() == start + AsSet(computed) - AsSet(head);
      if squash.Some? {
        Flush(squash.value);
      }
    }
  }

  /** What a station keeps in a squash: also the instruction that the squash names. */
  function NotYounger(tags: set<nat>, squash: Option<nat>): set<nat> {
    set tag | tag in tags && (squash.Some? ==> !IsOlder(ROB_CAP, squash.value, tag))
  }

  class Station {
    const robTag: array<nat>
    const free: array<bool>

    /** Every tag is there once. */
    ghost predicate Valid()
      reads robTag, free
    {
      && robTag.Length == PLACES && free.Length == PLACES
      && forall i, j :: 0 <= i < j < PLACES && !free[i] && !free[j] ==> robTag[i] != robTag[j]
    }

    ghost function Waiting(): (tags: set<nat>)
      requires Valid()
      reads robTag, free
    {
      set i | 0 <= i < PLACES && !free[i] :: robTag[i]
    }

    constructor ()
      ensures Valid() && fresh(robTag) && fresh(free) && Waiting() == {}
    {
      robTag := new nat[PLACES](i => 0xFF);
      free := new bool[PLACES](i => true);
    }

    method Issue(slot: nat, tag: nat)
      requires Valid() && slot < PLACES && free[slot] && tag !in Waiting()
      modifies robTag, free
      ensures Valid() && Waiting() == old(Waiting()) + {tag}
      ensures forall i :: 0 <= i < PLACES && i != slot ==> robTag[i] == old(robTag[i]) && free[i] == old(free[i])
    {
      robTag[slot] := tag;
      free[slot] := false;
      assert forall t :: t in Waiting() ==> t == tag || t in old(Waiting());
      forall t | t in old(Waiting()) ensures t in Waiting() {
        var i :| 0 <= i < PLACES && old(!free[i]) && old(robTag[i]) == t;
        assert i != slot && robTag[i] == t;
      }
      assert robTag[slot] == tag;
    }

    method Release(slot: nat)
      requires Valid() && slot < PLACES && !free[slot]
      modifies free
      ensures Valid() && Waiting() == old(Waiting()) - {robTag[slot]}
    {
      free[slot] := true;
      assert forall t :: t in Waiting() ==> t in old(Waiting()) && t != robTag[slot];
    }

    method Flush(tag: nat)
      requires Valid()
      modifies free
      ensures Valid() && Waiting() == NotYounger(old(Waiting()), Some(tag))
    {
      hide IsOlder;
      for i := 0 to PLACES
        invariant forall k :: 0 <= k < PLACES ==>
                    free[k] == (old(free[k]) || (k < i && IsOlder(ROB_CAP, tag, robTag[k])))
      {
        if !free[i] && IsOlder(ROB_CAP, tag, robTag[i]) {
          free[i] := true;
        }
      }
    }

    /** One tick: an instruction enters a free place, another one leaves for its unit, and a squash frees places. */
    method Tick(issue: Option<(nat, nat)>, dispatched: Option<nat>, squash: Option<nat>)
      requires Valid() && (dispatched.Some? ==> dispatched.value < PLACES && !free[dispatched.value])
      requires issue.Some? ==> issue.value.0 < PLACES && free[issue.value.0] && issue.value.1 !in Waiting()
      modifies robTag, free
      ensures Valid()
      ensures Waiting() == NotYounger(old(Waiting()) + (if issue.Some? then {issue.value.1} else {})
                                      - (if dispatched.Some? then {old(robTag[dispatched.value])} else {}), squash)
    {
      hide IsOlder;
      if issue.Some? {
        Issue(issue.value.0, issue.value.1);
      }
      if dispatched.Some? {
        Release(dispatched.value);
      }
      if squash.Some? {
        Flush(squash.value);
      }
    }
  }

  // ---------- Stations and buffers hold the work

  /** The work at a place. */
  function TagsAt(w: Work, place: Place): set<nat> {
    set tag | tag in w && w[tag] == place
  }

  /** What is dispatched from the station of a unit: at most one instruction. */
  predicate DispatchedFrom(w: Work, e: Event, unit: Kind, dispatched: Option<nat>) {
    forall tag :: tag in w ==> (tag in e.dispatched && w[tag].unit == unit <==> dispatched == Some(tag))
  }

  /** A station holds after its tick what the work step says. */
  lemma {:induction false} StationHoldsWork(w: Work, e: Event, squash: Option<nat>, unit: Kind,
                                            dispatched: Option<nat>)
    requires EventFits(w, e, squash) && DispatchedFrom(w, e, unit, dispatched)
    requires dispatched.Some? ==> dispatched.value in w
    ensures var issued := if e.issued.Some? && e.issued.value.1 == unit then {e.issued.value.0} else {};
            TagsAt(WorkStep(w, e, squash), Place(unit, false))
            == NotYounger(TagsAt(w, Place(unit, false)) + issued - AsSet(dispatched), squash)
  {
    hide IsOlder;
  }

  /** What a buffer delivers: its oldest result, if the squash does not keep it from the result bus. */
  predicate Delivers(w: Work, unit: Kind, squash: Option<nat>, head: Option<nat>) {
    forall tag :: tag in TagsAt(w, Place(unit, true)) ==> (Leaves(w, tag, squash) <==> head == Some(tag))
  }

  /** So does a buffer. */
  lemma {:induction false} BufferHoldsWork(w: Work, e: Event, squash: Option<nat>, unit: Kind,
                                           dispatched: Option<nat>, head: Option<nat>)
    requires EventFits(w, e, squash) && DispatchedFrom(w, e, unit, dispatched)
    requires (dispatched.Some? ==> dispatched.value in w) && Delivers(w, unit, squash, head)
    requires head.Some? ==> head.value in TagsAt(w, Place(unit, true))
    ensures var kept := TagsAt(w, Place(unit, true)) + AsSet(dispatched) - AsSet(head);
            TagsAt(WorkStep(w, e, squash), Place(unit, true))
            == set tag | tag in kept && (squash.Some? ==> IsOlder(ROB_CAP, tag, squash.value))
  {
    hide IsOlder;
  }

  /** Work for instructions in flight has live tags. */
  lemma {:induction false} HeldWorkIsLive(s: RobState, h: History, w: Work)
    requires RobInv(s, h) && AllHeld(s, h, w)
    ensures AllLive(w.Keys, s.head)
  {
    hide RobInv, Live;
    RobInvGivesShape(s, h);
    forall tag | tag in w.Keys ensures Live(ROB_CAP, s.head, tag) {
      assert Held(s, h, tag);
      var i: nat :| IsWorkOf(s, h, tag, i);
      LiveTagDistance(s, h, i);
    }
  }

  /** The oldest result is the one that leaves, and there is only one. */
  lemma {:induction false} HeadDelivers(w: Work, unit: Kind, squash: Option<nat>, tags: set<nat>, head: Option<nat>,
                                        oldest: nat)
    requires tags == TagsAt(w, Place(unit, true)) && AllLive(tags, oldest)
    requires head.Some? ==> IsOldest(tags, head.value)
    requires head.Some? && unit.ARITHMETIC? && squash.Some? ==> IsOlder(ROB_CAP, head.value, squash.value)
    requires head.None? ==>
               || tags == {}
               || (unit.ARITHMETIC? && squash.Some?
                   && exists tag :: IsOldest(tags, tag) && !IsOlder(ROB_CAP, tag, squash.value))
    ensures Delivers(w, unit, squash, head)
  {
    hide IsOlder, Live;
    if tags != {} {
      var first :| IsOldest(tags, first) && (head.Some? ==> first == head.value)
                   && (head.None? ==> unit.ARITHMETIC? && squash.Some? && !IsOlder(ROB_CAP, first, squash.value));
      forall tag | tag in tags ensures IsFirst(w, tag) <==> tag == first {
        LiveTagsAreOrderedHere(oldest, tag, first);
      }
    }
  }

  lemma LiveTagsAreOrderedHere(oldest: nat, a: nat, b: nat)
    requires Live(ROB_CAP, oldest, a) && Live(ROB_CAP, oldest, b)
    ensures a == b || IsOlder(ROB_CAP, a, b) || IsOlder(ROB_CAP, b, a)
  {
    hide IsOlder, SeqDistance;
    LiveTagsAreOrdered(ROB_CAP, oldest, a, b);
    LiveTagsAreOrdered(ROB_CAP, oldest, b, a);
  }
}
