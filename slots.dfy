/** The cutting of a template's range into appointments: starting at the range's
    start, a slot of `d` minutes is emitted while it still ends at or before the
    range's end. Times are minutes since midnight of the chosen date; both bounds
    lie on that date, so a range whose end is not after its start yields nothing. */
module Schedule {

  /** The slots, as (start, end) pairs, that the `while current + d <= end` loop
      visits when it starts at `s`. */
  function Slots(s: int, e: int, d: nat): seq<(int, int)>
    requires d > 0
    decreases e - s
  {
    if s + d <= e then [(s, s + d)] + Slots(s + d, e, d) else []
  }

  /** The number of slots: the whole number of durations that fit in the range,
      and none for an empty or reversed range. */
  function SlotCount(s: int, e: int, d: nat): nat
    requires d > 0
  {
    if s <= e then (e - s) / d else 0
  }

  lemma {:induction false} SlotsLength(s: int, e: int, d: nat)
    requires d > 0
    ensures |Slots(s, e, d)| == SlotCount(s, e, d)
    decreases e - s
  {
    if s + d <= e {
      SlotsLength(s + d, e, d);
      var q := (e - (s + d)) / d;
      DivBounds(e - (s + d), d);
      DivUnique(e - s, d, q + 1);
    } else if s <= e {
      DivUnique(e - s, d, 0);
    }
  }

  /** Slot `k` starts `k` durations after the start and lasts one duration. */
  lemma {:induction false} SlotAt(s: int, e: int, d: nat, k: nat)
    requires d > 0 && k < |Slots(s, e, d)|
    ensures Slots(s, e, d)[k] == (s + k * d, s + (k + 1) * d)
    decreases e - s
  {
    if k > 0 {
      SlotAt(s + d, e, d, k - 1);
      assert s + d + (k - 1) * d == s + k * d;
      assert s + d + k * d == s + (k + 1) * d;
    }
  }

  /** Every slot lies inside the range, and what is left after the last slot is
      shorter than one duration: no partial trailing slot is emitted and no
      whole one is missed. */
  lemma SlotsCover(s: int, e: int, d: nat)
    requires d > 0
    ensures forall k :: 0 <= k < |Slots(s, e, d)| ==> s <= Slots(s, e, d)[k].0 && Slots(s, e, d)[k].1 <= e
    ensures s <= e ==> s + |Slots(s, e, d)| * d <= e < s + (|Slots(s, e, d)| + 1) * d
  {
    var r := Slots(s, e, d);
    SlotsLength(s, e, d);
    forall k | 0 <= k < |r| ensures s <= r[k].0 && r[k].1 <= e {
      SlotAt(s, e, d, k);
      assert (k + 1) * d <= |r| * d by { MulMono(k + 1, |r|, d); }
      assert |r| * d <= e - s by { DivBounds(e - s, d); }
    }
    if s <= e {
      DivBounds(e - s, d);
    }
  }

  lemma MulMono(a: nat, b: nat, d: nat)
    requires a <= b
    ensures a * d <= b * d
  {
  }

  lemma DivBounds(x: int, d: int)
    requires d > 0
    ensures (x / d) * d <= x < (x / d + 1) * d
  {
  }

  lemma MulBelowOne(a: int, d: int)
    requires d > 0 && a * d < d
    ensures a < 1
  {
  }

  lemma DivUnique(x: int, d: int, q: int)
    requires d > 0 && q * d <= x < (q + 1) * d
    ensures x / d == q
  {
    var q0 := x / d;
    DivBounds(x, d);
    assert (q - q0) * d < d;
    assert (q0 - q) * d < d;
    MulBelowOne(q - q0, d);
    MulBelowOne(q0 - q, d);
  }

  /** An end that is not after the start, such as a template ending at
      12:00 AM, gives no slot at all. */
  lemma EmptyRange(s: int, e: int, d: nat)
    requires d > 0 && e <= s
    ensures Slots(s, e, d) == []
  {
  }

  /** Consecutive slots touch: each one starts where the previous one ends. */
  lemma SlotsConsecutive(s: int, e: int, d: nat, k: nat)
    requires d > 0 && k + 1 < |Slots(s, e, d)|
    ensures Slots(s, e, d)[k].1 == Slots(s, e, d)[k + 1].0
  {
    SlotAt(s, e, d, k);
    SlotAt(s, e, d, k + 1);
  }

  /** Later slots start later: no two slots of one template coincide. */
  lemma SlotsIncreasing(s: int, e: int, d: nat, i: nat, j: nat)
    requires d > 0 && i < j < |Slots(s, e, d)|
    ensures Slots(s, e, d)[i].0 < Slots(s, e, d)[j].0
  {
    SlotAt(s, e, d, i);
    SlotAt(s, e, d, j);
    MulMono(i + 1, j, d);
    assert (i + 1) * d == i * d + d;
  }
}
