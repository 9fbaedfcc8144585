/**
  Branch unit, arithmetic unit and address unit. In each of them an instruction waits in a station
  for its operands, then its result waits in a buffer until it is the oldest one there. All that is
  in a station or in a buffer is an instruction in flight that has not completed.
 */
module ResultUnits {
  import opened Capacities
  import opened Options
  import opened Rename
  import opened RenameCore
  import opened RenameInvariants
  import opened Tags
  import UnguardedIssue

  datatype Kind = BRANCHES | ARITHMETIC | ADDRESSES

  /** Where the work for a tag is: in the station of its unit, or finished and in its buffer. */
  datatype Place = Place(unit: Kind, finished: bool)

  type Work = map<nat, Place>

  /** What is issued to a station, and what goes from there to its unit. */
  datatype Event = Event(issued: Option<(nat, Kind)>, dispatched: set<nat>)

  // ---------- One tick

  /** The oldest result of its buffer. */
  predicate IsFirst(w: Work, tag: nat) {
    tag in w && w[tag].finished && forall other :: other in w && w[other] == w[tag] ==> !IsOlder(ROB_CAP, other, tag)
  }

  /** It is delivered; the result bus carries none that the squash covers, the other two units drop theirs anyway. */
  predicate Leaves(w: Work, tag: nat, squash: Option<nat>) {
    IsFirst(w, tag) && (w[tag].unit.ARITHMETIC? && squash.Some? ==> IsOlder(ROB_CAP, tag, squash.value))
  }

  /** Stations keep the instruction that the squash names, buffers do not. */
  predicate Survives(place: Place, tag: nat, squash: Option<nat>) {
    squash.Some? ==>
      if place.finished then IsOlder(ROB_CAP, tag, squash.value) else !IsOlder(ROB_CAP, squash.value, tag)
  }

  function Entered(w: Work, issued: Option<(nat, Kind)>): Work {
    if issued.Some? then w[issued.value.0 := Place(issued.value.1, false)] else w
  }

  function PlaceAfter(w: Work, e: Event, tag: nat): Place
    requires tag in Entered(w, e.issued)
  {
    var place := Entered(w, e.issued)[tag];
    if tag in e.dispatched then place.(finished := true) else place
  }

  function WorkStep(w: Work, e: Event, squash: Option<nat>): Work {
    map tag | tag in Entered(w, e.issued) && !Leaves(w, tag, squash) && Survives(PlaceAfter(w, e, tag), tag, squash) ::
      PlaceAfter(w, e, tag)
  }

  /** What is dispatched waits in a station and is not covered by the squash; nothing is issued with a squash. */
  predicate EventFits(w: Work, e: Event, squash: Option<nat>) {
    && (e.issued.Some? ==> squash.None? && e.issued.value.0 !in w)
    && (forall tag :: tag in e.dispatched ==>
          tag in w && !w[tag].finished && (squash.Some? ==> IsOlder(ROB_CAP, tag, squash.value)))
  }

  /** Another result of the same buffer is older. */
  predicate Waits(w: Work, tag: nat)
    requires tag in w
  {
    exists other :: other in w && w[other] == w[tag] && IsOlder(ROB_CAP, other, tag)
  }

  /**
    What becomes of the work for a tag: dispatched work is finished; what is not stays in its station
    unless it is younger than the squash; a result waits while its buffer holds an older one, unless
    the squash covers it; what is issued enters its station.
   */
  lemma {:induction false} WorkAfterTick(w: Work, e: Event, squash: Option<nat>, tag: nat)
    requires EventFits(w, e, squash)
    ensures var w' := WorkStep(w, e, squash);
            && (tag in w && tag in e.dispatched ==> tag in w' && w'[tag] == Place(w[tag].unit, true))
            && (tag in w && tag !in e.dispatched && !w[tag].finished ==>
                  (tag in w' <==> (squash.Some? ==> !IsOlder(ROB_CAP, squash.value, tag))))
            && (tag in w && w[tag].finished ==>
                  (tag in w' <==> Waits(w, tag) && (squash.Some? ==> IsOlder(ROB_CAP, tag, squash.value))))
            && (tag in w && tag in w' && tag !in e.dispatched ==> w'[tag] == w[tag])
            && (e.issued.Some? ==> e.issued.value.0 in w' && w'[e.issued.value.0] == Place(e.issued.value.1, false))
            && (tag in w' ==> tag in w || (e.issued.Some? && tag == e.issued.value.0))
  {
    hide IsOlder;
  }

  // ---------- Work is for instructions in flight

  predicate IsWorkOf(s: RobState, h: History, tag: nat, i: nat)
    requires RobShape(s)
  {
    && i < |h.flight| && h.flight[i].entry.tag == tag && h.flight[i].executes
    && !UnguardedIssue.Completed(s, h, i)
  }

  /** The instruction with this tag is in flight, executes and has not completed. */
  ghost predicate Held(s: RobState, h: History, tag: nat)
    requires RobShape(s)
  {
    exists i: nat :: IsWorkOf(s, h, tag, i)
  }

  ghost predicate AllHeld(s: RobState, h: History, w: Work)
    requires RobShape(s)
  {
    forall tag :: tag in w ==> Held(s, h, tag)
  }

  /** Of all work, only that of the results delivered now is reported, and nothing that is being issued is. */
  predicate Reported(w: Work, s: CoreState, input: Input) {
    forall k :: 0 <= k < |input.ready| ==>
      && input.ready[k].tag != s.rob.nextTag
      && (input.ready[k].tag in w ==> Leaves(w, input.ready[k].tag, SquashTag(input)))
  }

  function SquashTag(input: Input): Option<nat> {
    if input.squash.Some? then Some(input.squash.value.tag) else None
  }

  /** What is issued to a station is the instruction that the core issues. */
  predicate SameIssue(s: CoreState, input: Input, e: Event)
    requires CoreShape(s) && InputFits(s, input)
  {
    e.issued.Some? ==>
      BuildPacket(s, input).Some? && Executes(input.uop.value) && e.issued.value.0 == s.rob.nextTag
  }

  /** Older work that stays is left alone by the tick. */
  lemma {:induction false} StayingIsLeftAlone(w: Work, s: CoreState, input: Input, e: Event, tag: nat)
    requires EventFits(w, e, SquashTag(input)) && Reported(w, s, input)
    requires tag in w && tag in WorkStep(w, e, SquashTag(input))
    ensures UnguardedIssue.LeavesAlone(input, tag)
  {
    hide IsFirst;
  }

  lemma HeldWaits(s: RobState, h: History, tag: nat) returns (f: Flight)
    requires RobShape(s) && Held(s, h, tag)
    ensures UnguardedIssue.Waits(s, h, f) && f.entry.tag == tag && f.executes
  {
    var i: nat :| IsWorkOf(s, h, tag, i);
    f := h.flight[i];
    assert UnguardedIssue.WaitsAt(s, h, f, i);
  }

  lemma WaitsIsHeld(s: RobState, h: History, f: Flight)
    requires RobShape(s) && UnguardedIssue.Waits(s, h, f) && f.executes
    ensures Held(s, h, f.entry.tag)
  {
    var i: nat :| UnguardedIssue.WaitsAt(s, h, f, i);
    assert IsWorkOf(s, h, f.entry.tag, i);
  }

  lemma {:induction false} HeldStays(s: CoreState, h: History, input: Input, now: nat, tag: nat)
    requires CoreInv(s, h) && CoreShape(s) && Legal(s, h, input) && RobShape(CoreStep(s, input).rob)
    requires Held(s.rob, h, tag) && UnguardedIssue.LeavesAlone(input, tag)
    ensures Held(CoreStep(s, input).rob, HistoryStep(s, h, input, now), tag)
  {
    hide CoreInv, CoreShape, Legal, CoreStep, HistoryStep, Held, UnguardedIssue.Waits, UnguardedIssue.LeavesAlone;
    ShapeOfBuffer(s);
    LegalIsOffered(s, h, input);
    var f := HeldWaits(s.rob, h, tag);
    UnguardedIssue.KeepsWaiting(s, h, input, now, f);
    WaitsIsHeld(CoreStep(s, input).rob, HistoryStep(s, h, input, now), f);
  }

  lemma ShapeOfBuffer(s: CoreState)
    requires CoreShape(s)
    ensures RobShape(s.rob)
  {
  }

  /** What goes to a station has not completed. */
  lemma {:induction false} IssuedIsHeld(s: CoreState, h: History, input: Input, now: nat)
    requires CoreInv(s, h) && CoreShape(s) && Legal(s, h, input)
    requires BuildPacket(s, input).Some? && Executes(input.uop.value)
    requires UnguardedIssue.LeavesAlone(input, s.rob.nextTag)
    ensures RobShape(CoreStep(s, input).rob)
    ensures Held(CoreStep(s, input).rob, HistoryStep(s, h, input, now), s.rob.nextTag)
  {
    hide CoreInv, CoreStep, HistoryStep, Held, UnguardedIssue.Waits, UnguardedIssue.LeavesAlone, Slot, RatShape,
      PrfShape, CkptShape, RobShape, RobFull, Observe, Safe;
    UnguardedIssue.IssuedWaits(s, h, input, now);
    WaitsIsHeld(CoreStep(s, input).rob, HistoryStep(s, h, input, now), NewFlight(s, input, now));
  }

  /** In every tick all work is for instructions in flight that have not completed. */
  lemma {:induction false} WorkStaysHeld(w: Work, s: CoreState, h: History, input: Input, e: Event, now: nat)
    requires CoreInv(s, h) && CoreShape(s) && Legal(s, h, input) && AllHeld(s.rob, h, w)
    requires EventFits(w, e, SquashTag(input)) && SameIssue(s, input, e) && Reported(w, s, input)
    requires RobShape(CoreStep(s, input).rob)
    ensures AllHeld(CoreStep(s, input).rob, HistoryStep(s, h, input, now), WorkStep(w, e, SquashTag(input)))
  {
    hide CoreInv, CoreShape, CoreStep, HistoryStep, Held, UnguardedIssue.LeavesAlone, BuildPacket, Legal, Leaves,
      Survives, PlaceAfter;
    ShapeOfBuffer(s);
    LegalIsOffered(s, h, input);
    var w' := WorkStep(w, e, SquashTag(input));
    forall tag | tag in w' ensures Held(CoreStep(s, input).rob, HistoryStep(s, h, input, now), tag) {
      if tag in w {
        StayingIsLeftAlone(w, s, input, e, tag);
        HeldStays(s, h, input, now, tag);
      } else {
        IssueIsLeftAlone(w, s, input, e);
        IssuedIsHeld(s, h, input, now);
      }
    }
  }

  lemma IssueIsLeftAlone(w: Work, s: CoreState, input: Input, e: Event)
    requires EventFits(w, e, SquashTag(input)) && Reported(w, s, input) && e.issued.Some?
    ensures UnguardedIssue.LeavesAlone(input, s.rob.nextTag)
  {
    hide Leaves;
  }
}
