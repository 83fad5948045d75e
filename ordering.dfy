/** The orders the list views ask the database for. A text column is taken to
    sort by code point, as a binary collation does, so `time_slot` keys sort as text, not as times of day; rows that tie on
    every key may come back in either order. */
module Ordering {
  import opened Text
  import opened Clock
  import opened BookingsModels
  import opened Tables

  datatype Order =
    | DateSlotAsc    // order_by("date", "time_slot")
    | DateSlotDesc   // order_by("-date", "-time_slot")
    | UpdatedDesc    // order_by("-updated_at")
    | SlotAsc        // order_by("time_slot")

  /** `a` may come before `b`. */
  predicate Before(o: Order, a: Appointment, b: Appointment) {
    match o
    case DateSlotAsc => a.date < b.date || (a.date == b.date && StrLe(a.timeSlot, b.timeSlot))
    case DateSlotDesc => a.date > b.date || (a.date == b.date && StrLe(b.timeSlot, a.timeSlot))
    case UpdatedDesc => a.updatedAt >= b.updatedAt
    case SlotAsc => StrLe(a.timeSlot, b.timeSlot)
  }

  lemma BeforeTotal(o: Order, a: Appointment, b: Appointment)
    ensures Before(o, a, b) || Before(o, b, a)
  {
    StrLeTotal(a.timeSlot, b.timeSlot);
  }

  lemma BeforeTrans(o: Order, a: Appointment, b: Appointment, c: Appointment)
    requires Before(o, a, b) && Before(o, b, c)
    ensures Before(o, a, c)
  {
    if a.date == b.date == c.date {
      if o.DateSlotAsc? || o.SlotAsc? { StrLeTrans(a.timeSlot, b.timeSlot, c.timeSlot); }
      if o.DateSlotDesc? { StrLeTrans(c.timeSlot, b.timeSlot, a.timeSlot); }
    }
    if o.SlotAsc? { StrLeTrans(a.timeSlot, b.timeSlot, c.timeSlot); }
  }

  predicate Sorted(o: Order, s: seq<Appointment>) {
    forall i, j :: 0 <= i < j < |s| ==> Before(o, s[i], s[j])
  }

  /** `y` may come before every row of `s`. */
  predicate FirstOf(o: Order, y: Appointment, s: seq<Appointment>) {
    forall k :: 0 <= k < |s| ==> Before(o, y, s[k])
  }

  lemma FirstOfByMultiset(o: Order, y: Appointment, s: seq<Appointment>, t: seq<Appointment>)
    requires FirstOf(o, y, s) && multiset(t) <= multiset(s)
    ensures FirstOf(o, y, t)
  {
    forall k | 0 <= k < |t| ensures Before(o, y, t[k]) {
      assert t[k] in multiset(t);
      assert t[k] in multiset(s);
      var i :| 0 <= i < |s| && s[i] == t[k];
    }
  }

  /** A row that may precede every row of a sorted list can be put in front. */
  lemma ConsSorted(o: Order, y: Appointment, t: seq<Appointment>)
    requires Sorted(o, t) && FirstOf(o, y, t)
    ensures Sorted(o, [y] + t)
  {
    var r := [y] + t;
    forall i, j | 0 <= i < j < |r| ensures Before(o, r[i], r[j]) {
      if i == 0 { assert r[j] == t[j - 1]; } else { assert r[i] == t[i - 1] && r[j] == t[j - 1]; }
    }
  }

  /** A row before the head of a sorted list is before all of it. */
  lemma BeforeHead(o: Order, x: Appointment, s: seq<Appointment>)
    requires Sorted(o, s) && s != [] && Before(o, x, s[0])
    ensures FirstOf(o, x, s)
  {
    forall k | 0 <= k < |s| ensures Before(o, x, s[k]) {
      if k > 0 { BeforeTrans(o, x, s[0], s[k]); }
    }
  }

  /** The head of a sorted list may precede the rest of it. */
  lemma HeadFirst(o: Order, s: seq<Appointment>)
    requires Sorted(o, s) && s != []
    ensures FirstOf(o, s[0], s[1..]) && Sorted(o, s[1..])
  {
    forall k | 0 <= k < |s[1..]| ensures Before(o, s[0], s[1..][k]) { assert s[1..][k] == s[k + 1]; }
    forall i, j | 0 <= i < j < |s[1..]| ensures Before(o, s[1..][i], s[1..][j]) {
      assert s[1..][i] == s[i + 1] && s[1..][j] == s[j + 1];
    }
  }

  /** Insertion into a sorted list keeps it sorted and adds exactly one row. */
  function Insert(o: Order, x: Appointment, s: seq<Appointment>): (r: seq<Appointment>)
    requires Sorted(o, s)
    ensures Sorted(o, r) && multiset(r) == multiset(s) + multiset{x}
  {
    if s == [] || Before(o, x, s[0]) then
      assert FirstOf(o, x, s) by { if s != [] { BeforeHead(o, x, s); } }
      ConsSorted(o, x, s);
      [x] + s
    else
      HeadFirst(o, s);
      var t := Insert(o, x, s[1..]);
      assert FirstOf(o, s[0], t) by {
        BeforeTotal(o, x, s[0]);
        InsertedFirst(o, s[0], x, s[1..], t);
      }
      ConsSorted(o, s[0], t);
      assert s == [s[0]] + s[1..];
      [s[0]] + t
  }

  lemma InsertedFirst(o: Order, y: Appointment, x: Appointment, s: seq<Appointment>, t: seq<Appointment>)
    requires FirstOf(o, y, s) && Before(o, y, x) && multiset(t) == multiset(s) + multiset{x}
    ensures FirstOf(o, y, t)
  {
    var u := s + [x];
    assert FirstOf(o, y, u) by {
      forall k | 0 <= k < |u| ensures Before(o, y, u[k]) { if k < |s| { assert u[k] == s[k]; } }
    }
    FirstOfByMultiset(o, y, u, t);
  }

  /** The rows of `s` in order `o` (`.order_by(...)`): a sorted permutation. */
  function Sort(o: Order, s: seq<Appointment>): (r: seq<Appointment>)
    ensures Sorted(o, r) && multiset(r) == multiset(s)
  {
    if s == [] then []
    else
      assert s == [s[0]] + s[1..];
      Insert(o, s[0], Sort(o, s[1..]))
  }

  /** `.filter(p).order_by(o)`: exactly the rows satisfying `p`, each as often
      as in the table, in order `o`. */
  function Query(o: Order, apps: seq<Appointment>, p: Appointment -> bool): (r: seq<Appointment>)
    ensures Sorted(o, r)
    ensures forall x :: multiset(r)[x] == if p(x) then multiset(apps)[x] else 0
  {
    assert forall x :: multiset(Filter(apps, p))[x] == if p(x) then multiset(apps)[x] else 0 by {
      forall x ensures multiset(Filter(apps, p))[x] == if p(x) then multiset(apps)[x] else 0 {
        FilterCount(apps, p, x);
      }
    }
    Sort(o, Filter(apps, p))
  }

  /** Replacing one row of the table replaces it in the query's result when it
      (or its replacement) satisfies the condition: a count of each row. */
  lemma QueryUpdate(o: Order, apps: seq<Appointment>, p: Appointment -> bool, i: nat, v: Appointment, y: Appointment)
    requires i < |apps|
    ensures multiset(Query(o, apps[i := v], p))[y] + (if p(y) && y == apps[i] then 1 else 0) ==
      multiset(Query(o, apps, p))[y] + (if p(y) && y == v then 1 else 0)
  {
    var before, after := multiset(apps), multiset(apps[i := v]);
    MultisetUpdate(apps, i, v);
    assert before[apps[i]] >= 1;
    assert after[y] + (if y == apps[i] then 1 else 0) == before[y] + (if y == v then 1 else 0);
    assert multiset(Query(o, apps[i := v], p))[y] == if p(y) then after[y] else 0;
    assert multiset(Query(o, apps, p))[y] == if p(y) then before[y] else 0;
  }

  /** Text order is not time order: a 1 PM slot sorts before a 9 AM slot. */
  lemma TextOrderIsNotTimeOrder()
    ensures StrLe(SlotKey(780, 840), SlotKey(540, 600)) && 780 > 540
  {
    var a, b := SlotKey(780, 840), SlotKey(540, 600);
    assert FormatClock(780)[..2] == "01";
    assert FormatClock(540)[..2] == "09";
    assert a[0] == '0' && b[0] == '0' && a[1] == '1' && b[1] == '9';
    assert a[1..][0] != b[1..][0];
  }
}
