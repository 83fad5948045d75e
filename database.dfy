/** The tables the views read and write: organizations, time-slot templates,
    holidays and appointments, each kept in id order so that the first matching
    row is `.first()`. One counter hands out the ids of new rows. */
module Database {
  import opened Text
  import opened StaffModels
  import opened BookingsModels
  import opened StaffForms
  import opened Tables

  /** The most `Booked` appointments one user may hold at one organization. */
  const MaxActivePerOrg: nat := 2

  // ---------------------------------------------------------------- ids

  function OrgId(o: Organization): nat { o.id }
  function TemplateId(t: TimeSlot): nat { t.id }
  function HolidayId(h: Holiday): nat { h.id }
  function AppointmentId(a: Appointment): nat { a.id }

  /** Every id is below the counter and the rows are in increasing id order. */
  predicate IdsOk<T>(s: seq<T>, id: T -> nat, next: nat) {
    (forall i :: 0 <= i < |s| ==> id(s[i]) < next) && (forall i, j :: 0 <= i < j < |s| ==> id(s[i]) < id(s[j]))
  }

  lemma IdsRaise<T>(s: seq<T>, id: T -> nat, next: nat, next': nat)
    requires IdsOk(s, id, next) && next <= next'
    ensures IdsOk(s, id, next')
  {
  }

  /** A row appended under the counter's value keeps the order once the
      counter moves past it. */
  lemma IdsAppend<T>(s: seq<T>, x: T, id: T -> nat, next: nat)
    requires IdsOk(s, id, next) && id(x) == next
    ensures IdsOk(s + [x], id, next + 1)
  {
    var r := s + [x];
    forall i | 0 <= i < |r| ensures id(r[i]) < next + 1 { if i < |s| { assert r[i] == s[i]; } }
    forall i, j | 0 <= i < j < |r| ensures id(r[i]) < id(r[j]) {
      assert r[i] == s[i];
      if j < |s| { assert r[j] == s[j]; }
    }
  }

  /** Rewriting one row without changing its id keeps the ids in order. */
  lemma IdsUpdate<T>(s: seq<T>, k: nat, x: T, id: T -> nat, next: nat)
    requires IdsOk(s, id, next) && k < |s| && id(x) == id(s[k])
    ensures IdsOk(s[k := x], id, next)
  {
  }

  /** Removing one row keeps the ids increasing and below the counter. */
  lemma IdsRemove<T>(s: seq<T>, k: nat, id: T -> nat, next: nat)
    requires IdsOk(s, id, next) && k < |s|
    ensures IdsOk(s[..k] + s[k + 1..], id, next)
  {
    var r := s[..k] + s[k + 1..];
    forall a | 0 <= a < |r| ensures r[a] == s[if a < k then a else a + 1] { }
  }

  /** Removing rows keeps the ids in order. */
  lemma IdsFilter<T>(s: seq<T>, p: T -> bool, id: T -> nat, next: nat)
    requires IdsOk(s, id, next)
    ensures IdsOk(Filter(s, p), id, next)
  {
    FilterPairwise(s, p, (a: T, b: T) => id(a) < id(b));
    forall i | 0 <= i < |Filter(s, p)| ensures id(Filter(s, p)[i]) < next {
      FilterIn(s, p, Filter(s, p)[i]);
    }
  }

  // ---------------------------------------------------------------- appointment queries

  /** Two rows book the same slot key of the same organization on the same day. */
  predicate SameSlot(a: Appointment, b: Appointment) {
    a.org == b.org && a.date == b.date && a.timeSlot == b.timeSlot
  }

  /** Some appointment, of any status, holds the slot key (`.filter(org=...,
      date=..., time_slot=...).exists()`). */
  predicate Taken(apps: seq<Appointment>, org: nat, date: int, slot: string) {
    exists i :: 0 <= i < |apps| && apps[i].org == org && apps[i].date == date && apps[i].timeSlot == slot
  }

  /** The user's `Booked` appointments at the organization. */
  function BookedAt(apps: seq<Appointment>, user: nat, org: nat): nat {
    Count(apps, (a: Appointment) => a.user == user && a.org == org && a.status == Booked)
  }

  /** No two rows hold the same slot key. */
  predicate OneRowPerSlot(apps: seq<Appointment>) {
    forall i, j :: 0 <= i < j < |apps| ==> !SameSlot(apps[i], apps[j])
  }

  /** No user holds more than the allowed number of `Booked` rows at one
      organization. */
  predicate WithinCap(apps: seq<Appointment>) {
    forall i :: 0 <= i < |apps| ==> BookedAt(apps, apps[i].user, apps[i].org) <= MaxActivePerOrg
  }

  /** Every row with the given id gets the status, and the save time `now`. */
  function SetStatus(apps: seq<Appointment>, id: nat, st: Status, now: int): (r: seq<Appointment>)
    ensures |r| == |apps|
    ensures forall k :: 0 <= k < |r| ==> SameBooking(apps[k], r[k])
    ensures forall k :: 0 <= k < |r| ==> r[k] == if apps[k].id == id then WithStatus(apps[k], st, now) else apps[k]
  {
    seq(|apps|, k requires 0 <= k < |apps| => if apps[k].id == id then WithStatus(apps[k], st, now) else apps[k])
  }

  /** A status change frees no slot and takes none: `Taken` is the same before
      and after, because it does not look at the status. */
  lemma SetStatusKeepsTaken(apps: seq<Appointment>, id: nat, st: Status, now: int, org: nat, date: int, slot: string)
    ensures Taken(SetStatus(apps, id, st, now), org, date, slot) <==> Taken(apps, org, date, slot)
  {
    var r := SetStatus(apps, id, st, now);
    if Taken(apps, org, date, slot) {
      var i :| 0 <= i < |apps| && apps[i].org == org && apps[i].date == date && apps[i].timeSlot == slot;
      assert SameBooking(apps[i], r[i]);
    }
    if Taken(r, org, date, slot) {
      var i :| 0 <= i < |r| && r[i].org == org && r[i].date == date && r[i].timeSlot == slot;
      assert SameBooking(apps[i], r[i]);
    }
  }

  /** A status change keeps one row per slot key, and a change to anything but
      `Booked` keeps every user within the cap. */
  lemma SetStatusKeepsInvariants(apps: seq<Appointment>, id: nat, st: Status, now: int, next: nat)
    requires OneRowPerSlot(apps) && WithinCap(apps) && IdsOk(apps, AppointmentId, next) && st != Booked
    ensures OneRowPerSlot(SetStatus(apps, id, st, now)) && WithinCap(SetStatus(apps, id, st, now))
    ensures IdsOk(SetStatus(apps, id, st, now), AppointmentId, next)
  {
    var r := SetStatus(apps, id, st, now);
    forall i, j | 0 <= i < j < |r| ensures !SameSlot(r[i], r[j]) {
      assert SameBooking(apps[i], r[i]) && SameBooking(apps[j], r[j]);
    }
    forall i | 0 <= i < |r| ensures BookedAt(r, r[i].user, r[i].org) <= MaxActivePerOrg {
      var u, o := r[i].user, r[i].org;
      assert SameBooking(apps[i], r[i]);
      var p := (a: Appointment) => a.user == u && a.org == o && a.status == Booked;
      forall k | 0 <= k < |r| ensures p(r[k]) ==> p(apps[k]) {
        assert SameBooking(apps[k], r[k]);
      }
      CountPointwise(r, apps, p);
    }
  }

  /** Appending a row whose slot key is free keeps one row per slot key, and
      appending a `Booked` row for a user below the cap keeps everyone within it. */
  lemma AppendKeepsInvariants(apps: seq<Appointment>, a: Appointment)
    requires OneRowPerSlot(apps) && WithinCap(apps)
    requires !Taken(apps, a.org, a.date, a.timeSlot)
    requires BookedAt(apps, a.user, a.org) < MaxActivePerOrg
    ensures OneRowPerSlot(apps + [a]) && WithinCap(apps + [a])
  {
    var r := apps + [a];
    forall i, j | 0 <= i < j < |r| ensures !SameSlot(r[i], r[j]) {
      if j == |apps| {
        assert r[i] == apps[i];
      } else {
        assert r[i] == apps[i] && r[j] == apps[j];
      }
    }
    forall i | 0 <= i < |r| ensures BookedAt(r, r[i].user, r[i].org) <= MaxActivePerOrg {
      var u, o := r[i].user, r[i].org;
      var p := (x: Appointment) => x.user == u && x.org == o && x.status == Booked;
      CountAppend(apps, a, p);
      if i < |apps| { assert r[i] == apps[i]; }
    }
  }

  /** Removing rows keeps one row per slot key, the cap and the id order. */
  lemma FilterKeepsInvariants(apps: seq<Appointment>, p: Appointment -> bool, next: nat)
    requires OneRowPerSlot(apps) && WithinCap(apps) && IdsOk(apps, AppointmentId, next)
    ensures OneRowPerSlot(Filter(apps, p)) && WithinCap(Filter(apps, p)) && IdsOk(Filter(apps, p), AppointmentId, next)
  {
    var r := Filter(apps, p);
    FilterPairwise(apps, p, (a: Appointment, b: Appointment) => !SameSlot(a, b));
    IdsFilter(apps, p, AppointmentId, next);
    forall i | 0 <= i < |r| ensures BookedAt(r, r[i].user, r[i].org) <= MaxActivePerOrg {
      FilterIn(apps, p, r[i]);
      var m :| 0 <= m < |apps| && apps[m] == r[i];
      var u, o := r[i].user, r[i].org;
      var q := (x: Appointment) => x.user == u && x.org == o && x.status == Booked;
      var pq := (x: Appointment) => p(x) && q(x);
      FilterFilter(apps, p, q, pq);
      CountMono(apps, pq, q);
      FilterFilter(apps, q, p, (x: Appointment) => q(x) && p(x));
    }
  }

  // ---------------------------------------------------------------- the store

  class Store {
    var orgs: seq<Organization>
    var templates: seq<TimeSlot>
    var holidays: seq<Holiday>
    var appointments: seq<Appointment>
    var nextId: nat

    /** Ids are unique, in table order and below the counter; every
        organization's service status is consistent and its duration was one the
        form permits; one row per slot key; every user within the cap. */
    ghost predicate Valid()
      reads this
    {
      && IdsOk(orgs, OrgId, nextId) && IdsOk(templates, TemplateId, nextId)
      && IdsOk(holidays, HolidayId, nextId) && IdsOk(appointments, AppointmentId, nextId)
      && (forall i :: 0 <= i < |orgs| ==> ServiceStatusConsistent(orgs[i]) && ValidDuration(orgs[i].duration))
      && OneRowPerSlot(appointments) && WithinCap(appointments)
    }

    constructor ()
      ensures Valid()
      ensures orgs == [] && templates == [] && holidays == [] && appointments == []
    {
      orgs, templates, holidays, appointments, nextId := [], [], [], [], 1;
    }
  }
}
