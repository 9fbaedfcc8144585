/**
  Packed sequence tags: an epoch bit above a slot field that counts 0 .. cap-1. Reorder-buffer tags
  and free-list sequence numbers share this form; the capacity need not be a power of two.
 */
module Tags {
  import opened Arithmetic
  import opened Bits

  /** The slot field holds the values below this power of two. */
  function FieldSize(cap: nat): (size: nat)
    requires cap > 0
    ensures size > 0
  {
    Pow2(BitWidth(cap - 1))
  }

  function Slot(cap: nat, tag: nat): nat
    requires cap > 0
  {
    tag % FieldSize(cap)
  }

  function Epoch(cap: nat, tag: nat): nat
    requires cap > 0
  {
    tag / FieldSize(cap) % 2
  }

  /** The complement of a tag among all codes, with the slot cleared. */
  function Flipped(size: nat, tag: nat): nat
    requires size > 0
  {
    var complement := 2 * size - 1 - tag % (2 * size);
    complement - complement % size
  }

  /** The tag after this one: past the last slot the epoch flips and the slot restarts. */
  function NextTag(cap: nat, tag: nat): nat
    requires cap > 0
  {
    if Slot(cap, tag) == cap - 1
    then Flipped(FieldSize(cap), tag)
    else (tag + 1) % (2 * FieldSize(cap))
  }

  predicate IsOlder(cap: nat, a: nat, b: nat)
    requires cap > 0
  {
    if Epoch(cap, a) != Epoch(cap, b)
    then Slot(cap, a) > Slot(cap, b)
    else Slot(cap, a) < Slot(cap, b)
  }

  /** The distance between two tags, put together from slots and epochs. */
  function SeqDistance(cap: nat, from: nat, to: nat): int
    requires cap > 0
  {
    FieldDistance(cap, Epoch(cap, from), Slot(cap, from), Epoch(cap, to), Slot(cap, to))
  }

  function FieldDistance(cap: nat, fromEpoch: nat, fromSlot: nat, toEpoch: nat, toSlot: nat): int {
    var indexDistance := toSlot - fromSlot;
    var distance := if toEpoch > fromEpoch then indexDistance + cap
                    else if toEpoch < fromEpoch then indexDistance - cap
                    else indexDistance;
    if distance < 0 then distance + 2 * cap else distance
  }

  /** The tag of the n-th allocation. */
  function Encode(cap: nat, n: nat): nat
    requires cap > 0
  {
    n / cap % 2 * FieldSize(cap) + n % cap
  }

  lemma FieldIsWideEnough(cap: nat)
    requires cap > 0
    ensures cap <= FieldSize(cap)
  {
    if cap > 1 {
      BitWidthBounds(cap - 1);
    }
  }

  /** Slot and epoch of an encoded tag. */
  lemma DecodeEncoded(cap: nat, n: nat)
    requires cap > 0
    ensures Slot(cap, Encode(cap, n)) == n % cap < cap
    ensures Epoch(cap, Encode(cap, n)) == n / cap % 2
    ensures Encode(cap, n) < 2 * FieldSize(cap)
  {
    FieldIsWideEnough(cap);
    DivMod(n, cap);
    var f, e := FieldSize(cap), n / cap % 2;
    assert Encode(cap, n) == f * e + n % cap;
    DivModUnique(Encode(cap, n), f, e, n % cap);
  }

  lemma FirstTag(cap: nat)
    requires cap > 0
    ensures Encode(cap, 0) == 0
  {
    hide FieldSize;
    DivModUnique(0, cap, 0, 0);
  }

  /** The successor of a tag in terms of its epoch and slot. */
  lemma SuccessorOfFields(size: nat, cap: nat, epoch: nat, slot: nat, tag: nat)
    requires slot < cap <= size && epoch < 2 && tag == size * epoch + slot
    ensures slot == cap - 1 ==> Flipped(size, tag) == size * (1 - epoch)
    ensures slot < cap - 1 ==> (tag + 1) % (2 * size) == size * epoch + slot + 1
  {
    DivModUnique(tag, 2 * size, 0, tag);
    if slot == cap - 1 {
      var complement := 2 * size - 1 - tag;
      assert complement == size * (1 - epoch) + (size - 1 - slot);
      DivModUnique(complement, size, 1 - epoch, size - 1 - slot);
    } else {
      DivModUnique(tag + 1, 2 * size, 0, tag + 1);
    }
  }

  /** Advancing n by one advances the tag by one. */
  lemma NextOfEncoded(cap: nat, n: nat)
    requires cap > 0
    ensures NextTag(cap, Encode(cap, n)) == Encode(cap, n + 1)
  {
    hide Slot, Epoch, FieldSize, Flipped;
    DecodeEncoded(cap, n);
    FieldIsWideEnough(cap);
    var epoch, slot := n / cap % 2, n % cap;
    SuccessorOfFields(FieldSize(cap), cap, epoch, slot, Encode(cap, n));
    Successor(cap, n);
    EpochFlips(n / cap);
  }

  lemma EpochFlips(round: nat)
    ensures (round + 1) % 2 == 1 - round % 2
  {
  }

  lemma Successor(cap: nat, n: nat)
    requires cap > 0
    ensures n % cap == cap - 1 ==> (n + 1) / cap == n / cap + 1 && (n + 1) % cap == 0
    ensures n % cap != cap - 1 ==> (n + 1) / cap == n / cap && (n + 1) % cap == n % cap + 1
  {
    DivMod(n, cap);
    if n % cap == cap - 1 {
      DivModUnique(n + 1, cap, n / cap + 1, 0);
    } else {
      DivModUnique(n + 1, cap, n / cap, n % cap + 1);
    }
  }

  /** Slots and epochs of two allocations fewer than cap apart. */
  lemma OrderOfFields(cap: nat, a: nat, round: nat, slot: nat, b: nat, round': nat, slot': nat)
    requires a <= b < a + cap && slot < cap && slot' < cap
    requires || (round' == round && slot' - slot == b - a)
             || (round' == round + 1 && slot' + cap - slot == b - a)
    ensures (if round % 2 != round' % 2 then slot > slot' else slot < slot') <==> a < b
    ensures !(if round % 2 != round' % 2 then slot' > slot else slot' < slot)
    ensures round % 2 == round' % 2 && slot == slot' <==> a == b
  {
    EpochFlips(round);
  }

  /** Two tags with known fields compare as their allocations. */
  lemma TagsCompare(cap: nat, tag: nat, n: nat, round: nat, slot: nat, tag': nat, n': nat, round': nat, slot': nat)
    requires 0 < cap && n <= n' < n + cap
    requires Slot(cap, tag) == slot < cap && Epoch(cap, tag) == round % 2
    requires Slot(cap, tag') == slot' < cap && Epoch(cap, tag') == round' % 2
    requires || (round' == round && slot' - slot == n' - n)
             || (round' == round + 1 && slot' + cap - slot == n' - n)
    ensures (IsOlder(cap, tag, tag') <==> n < n') && !IsOlder(cap, tag', tag)
    ensures tag == tag' ==> n == n'
  {
    hide Slot, Epoch;
    OrderOfFields(cap, n, round, slot, n', round', slot');
  }

  /** Round and slot of an allocation, and the fields of its tag. */
  lemma FieldsOf(cap: nat, n: nat) returns (round: nat, slot: nat)
    requires cap > 0
    ensures n == cap * round + slot && slot < cap
    ensures Slot(cap, Encode(cap, n)) == slot && Epoch(cap, Encode(cap, n)) == round % 2
  {
    hide Slot, Epoch, Encode;
    DecodeEncoded(cap, n);
    DivMod(n, cap);
    round, slot := n / cap, n % cap;
  }

  /** Allocations at most one capacity apart are in the same round or in adjacent ones. */
  lemma AdjacentRounds(cap: nat, a: nat, round: nat, slot: nat, b: nat, round': nat, slot': nat)
    requires a <= b <= a + cap && a == cap * round + slot && slot < cap && b == cap * round' + slot' && slot' < cap
    ensures || (round' == round && slot' - slot == b - a)
            || (round' == round + 1 && slot' + cap - slot == b - a)
  {
    assert cap * (round' - round) == b - a + slot - slot';
    MulLess(cap, round' - round, 2);
    MulLess(cap, -1, round' - round);
  }

  /** For allocations fewer than cap apart, tags compare as the allocations were ordered. */
  lemma OlderIsEarlier(cap: nat, a: nat, b: nat)
    requires cap > 0 && a < b + cap && b < a + cap
    ensures IsOlder(cap, Encode(cap, a), Encode(cap, b)) <==> a < b
    ensures Encode(cap, a) == Encode(cap, b) <==> a == b
  {
    hide Slot, Epoch, Encode, IsOlder;
    var round, slot := FieldsOf(cap, a);
    var round', slot' := FieldsOf(cap, b);
    if a <= b {
      AdjacentRounds(cap, a, round, slot, b, round', slot');
      TagsCompare(cap, Encode(cap, a), a, round, slot, Encode(cap, b), b, round', slot');
    } else {
      AdjacentRounds(cap, b, round', slot', a, round, slot);
      TagsCompare(cap, Encode(cap, b), b, round', slot', Encode(cap, a), a, round, slot);
    }
  }

  /** Head and next tag agree only when no tag is live, and share a slot otherwise only when all are. */
  lemma FullAndEmpty(cap: nat, head: nat, live: nat)
    requires cap > 0 && live <= cap
    ensures Encode(cap, head) == Encode(cap, head + live) <==> live == 0
    ensures Slot(cap, Encode(cap, head)) == Slot(cap, Encode(cap, head + live)) <==> live == 0 || live == cap
  {
    hide Slot, Epoch, Encode;
    var round, slot := FieldsOf(cap, head);
    var round', slot' := FieldsOf(cap, head + live);
    AdjacentRounds(cap, head, round, slot, head + live, round', slot');
    EpochFlips(round);
  }

  /** The packed distance is the distance of the allocations modulo two rounds. */
  lemma {:induction false} DistanceIsExact(cap: nat, from: nat, to: nat)
    requires cap > 0
    ensures SeqDistance(cap, Encode(cap, from), Encode(cap, to)) == (to - from) % (2 * cap)
  {
    var q, r, q', r' := from / cap, from % cap, to / cap, to % cap;
    assert FieldDistance(cap, q % 2, r, q' % 2, r') == (to - from) % (2 * cap) by {
      DivMod(from, cap);
      DivMod(to, cap);
      DistanceOfRounds(cap, from, q, r, to, q', r');
    }
    assert SeqDistance(cap, Encode(cap, from), Encode(cap, to)) == FieldDistance(cap, q % 2, r, q' % 2, r') by {
      DecodeEncoded(cap, from);
      DecodeEncoded(cap, to);
    }
  }

  lemma SeqDistanceIsNat(cap: nat, from: nat, to: nat)
    requires cap > 0 && Slot(cap, from) < cap && Slot(cap, to) < cap
    ensures 0 <= SeqDistance(cap, from, to) < 2 * cap
  {
    hide Slot;
    EpochIsBit(cap, from);
    EpochIsBit(cap, to);
  }

  lemma EpochIsBit(cap: nat, tag: nat)
    requires cap > 0
    ensures Epoch(cap, tag) < 2
  {
    hide FieldSize;
  }

  lemma {:induction false} DistanceOfRounds(cap: nat, n: nat, q: nat, r: nat, n': nat, q': nat, r': nat)
    requires cap > 0 && n == cap * q + r && r < cap && n' == cap * q' + r' && r' < cap
    ensures FieldDistance(cap, q % 2, r, q' % 2, r') == (n' - n) % (2 * cap)
  {
    var k := q' / 2 - q / 2;
    var crossed := q' % 2 - q % 2;
    ScaleRounds(cap, q, q', k, crossed);
    ModOfOffset(n' - n, 2 * cap, k, r' - r + cap * crossed);
  }

  lemma ScaleRounds(cap: int, q: int, q': int, k: int, crossed: int)
    requires q' == q + 2 * k + crossed && -1 <= crossed <= 1
    ensures cap * q' == cap * q + 2 * cap * k + cap * crossed
    ensures cap * crossed == if crossed > 0 then cap else if crossed < 0 then -cap else 0
  {
    assert cap * q' == cap * (q + (2 * k + crossed));
    assert cap * (2 * k + crossed) == cap * (2 * k) + cap * crossed;
    MulAssociative(cap, 2, k);
  }

  lemma ModOfOffset(x: int, m: int, k: int, offset: int)
    requires m > 0 && -m <= offset < m && x == m * k + offset
    ensures x % m == if offset < 0 then offset + m else offset
  {
    if offset < 0 {
      assert x == m * (k - 1) + (offset + m);
      DivModUnique(x, m, k - 1, offset + m);
    } else {
      DivModUnique(x, m, k, offset);
    }
  }

  // ---------- Ages relative to the oldest live tag

  predicate WellFormed(cap: nat, tag: nat)
    requires cap > 0
  {
    Slot(cap, tag) < cap && tag < 2 * FieldSize(cap)
  }

  /** A tag fewer than cap allocations after head. */
  predicate Live(cap: nat, head: nat, tag: nat)
    requires cap > 0
  {
    WellFormed(cap, head) && WellFormed(cap, tag) && 0 <= SeqDistance(cap, head, tag) < cap
  }

  lemma TagOfFields(cap: nat, tag: nat)
    requires cap > 0 && tag < 2 * FieldSize(cap)
    ensures Epoch(cap, tag) == tag / FieldSize(cap) < 2 && tag == FieldSize(cap) * Epoch(cap, tag) + Slot(cap, tag)
  {
    var size := FieldSize(cap);
    DivMod(tag, size);
    MulLess(size, tag / size, 2);
  }

  /** Live tags are ordered as their distances from the oldest one. */
  lemma LiveTagsAreOrdered(cap: nat, head: nat, a: nat, b: nat)
    requires cap > 0 && Live(cap, head, a) && Live(cap, head, b)
    ensures IsOlder(cap, a, b) <==> SeqDistance(cap, head, a) < SeqDistance(cap, head, b)
    ensures a == b <==> SeqDistance(cap, head, a) == SeqDistance(cap, head, b)
  {
    hide FieldSize, Slot, Epoch;
    TagOfFields(cap, head);
    TagOfFields(cap, a);
    TagOfFields(cap, b);
  }

  /** A well-formed tag is the tag of an allocation. */
  lemma WellFormedIsEncoded(cap: nat, tag: nat)
    requires cap > 0 && WellFormed(cap, tag)
    ensures tag == Encode(cap, cap * Epoch(cap, tag) + Slot(cap, tag))
  {
    hide FieldSize, Slot, Epoch;
    TagOfFields(cap, tag);
    DivModUnique(cap * Epoch(cap, tag) + Slot(cap, tag), cap, Epoch(cap, tag), Slot(cap, tag));
  }

  lemma FieldsOfNext(cap: nat, tag: nat)
    requires cap > 0 && WellFormed(cap, tag)
    ensures WellFormed(cap, NextTag(cap, tag))
    ensures if Slot(cap, tag) == cap - 1
            then Slot(cap, NextTag(cap, tag)) == 0 && Epoch(cap, NextTag(cap, tag)) == 1 - Epoch(cap, tag)
            else Slot(cap, NextTag(cap, tag)) == Slot(cap, tag) + 1 && Epoch(cap, NextTag(cap, tag)) == Epoch(cap, tag)
  {
    hide FieldSize, Slot, Epoch, Encode, NextTag;
    TagOfFields(cap, tag);
    var e, s := Epoch(cap, tag), Slot(cap, tag);
    var n := cap * e + s;
    WellFormedIsEncoded(cap, tag);
    NextOfEncoded(cap, n);
    DecodeEncoded(cap, n + 1);
    DivModUnique(n, cap, e, s);
    Successor(cap, n);
    EpochFlips(e);
  }

  /** The successor of any tag with a proper slot has one as well. */
  lemma NextSlotInRange(cap: nat, tag: nat)
    requires cap > 0 && Slot(cap, tag) < cap
    ensures Slot(cap, NextTag(cap, tag)) < cap
  {
    hide FieldSize;
    var size := FieldSize(cap);
    if Slot(cap, tag) == cap - 1 {
      var complement := 2 * size - 1 - tag % (2 * size);
      DivMod(complement, size);
      DivModUnique(complement - complement % size, size, complement / size, 0);
    } else {
      FieldIsWideEnough(cap);
      DivMod(tag, size);
      DivModUnique(tag + 1, size, tag / size, tag % size + 1);
      DivMod(tag + 1, 2 * size);
      var k := (tag + 1) / (2 * size);
      MulAssociative(2, size, k);
      ModEqual(tag + 1, (tag + 1) % (2 * size), 2 * k, size);
    }
  }

  /** When the oldest tag retires, every other live tag stays live and comes one closer. */
  lemma LiveAfterRetire(cap: nat, head: nat, tag: nat)
    requires cap > 0 && Live(cap, head, tag) && tag != head
    ensures Live(cap, NextTag(cap, head), tag)
    ensures SeqDistance(cap, NextTag(cap, head), tag) == SeqDistance(cap, head, tag) - 1
  {
    hide FieldSize, Slot, Epoch, NextTag;
    TagOfFields(cap, head);
    TagOfFields(cap, tag);
    FieldsOfNext(cap, head);
    TagOfFields(cap, NextTag(cap, head));
  }
}
