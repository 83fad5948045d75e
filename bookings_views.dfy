/** The customer's own pages: the branch search, the lists of their active and
    past appointments, and cancelling one of them. The signed-in user is a
    parameter. */
module BookingsViews {
  import opened Text
  import opened StaffModels
  import opened BookingsModels
  import opened Tables
  import opened Ordering
  import opened Database

  // ---------------------------------------------------------------- book_appointment (branch search)

  /** An active organization whose service type and location equal the query's,
      ignoring case (`__iexact`). */
  predicate BranchMatches(o: Organization, serviceType: string, location: string) {
    o.isActive && EqualsIgnoreCase(o.serviceType, serviceType) && EqualsIgnoreCase(o.location, location)
  }

  /** The branches listed for a search: none until both fields are filled in,
      then exactly the matching active organizations, in table order. */
  function Branches(orgs: seq<Organization>, serviceType: string, location: string): (r: seq<Organization>)
    ensures serviceType == [] || location == [] ==> r == []
    ensures forall o :: o in r <==> serviceType != [] && location != [] && o in orgs && BranchMatches(o, serviceType, location)
  {
    if serviceType != [] && location != [] then
      var p := (o: Organization) => BranchMatches(o, serviceType, location);
      assert forall o :: o in Filter(orgs, p) <==> o in orgs && p(o) by {
        forall o ensures o in Filter(orgs, p) <==> o in orgs && p(o) { FilterIn(orgs, p, o); }
      }
      Filter(orgs, p)
    else []
  }

  /** The listed branches keep the table's id order. */
  lemma BranchesInIdOrder(orgs: seq<Organization>, serviceType: string, location: string, next: nat)
    requires IdsOk(orgs, OrgId, next)
    ensures IdsOk(Branches(orgs, serviceType, location), OrgId, next)
  {
    if serviceType != [] && location != [] {
      IdsFilter(orgs, (o: Organization) => BranchMatches(o, serviceType, location), OrgId, next);
    }
  }

  lemma {:induction false} LowerTwice(s: string)
    ensures Lower(Lower(s)) == Lower(s)
  {
    assert forall k :: 0 <= k < |s| ==> LowerChar(LowerChar(s[k])) == LowerChar(s[k]);
  }

  /** The case of what the customer typed does not change the listed branches. */
  lemma BranchSearchIgnoresCase(orgs: seq<Organization>, serviceType: string, location: string)
    ensures Branches(orgs, Lower(serviceType), Lower(location)) == Branches(orgs, serviceType, location)
  {
    LowerTwice(serviceType);
    LowerTwice(location);
    if serviceType != [] && location != [] {
      FilterSame(orgs, (o: Organization) => BranchMatches(o, Lower(serviceType), Lower(location)),
                 (o: Organization) => BranchMatches(o, serviceType, location));
    }
  }

  // ---------------------------------------------------------------- active_appointments and appointment_history

  predicate OwnBooked(a: Appointment, user: nat) { a.user == user && a.status == Booked }

  predicate OwnPast(a: Appointment, user: nat) { a.user == user && a.status != Booked }

  /** The user's `Booked` appointments by date, then slot text. */
  function Active(apps: seq<Appointment>, user: nat): seq<Appointment> {
    Query(DateSlotAsc, apps, (a: Appointment) => OwnBooked(a, user))
  }

  /** The user's other appointments, latest date first, then slot text descending. */
  function Past(apps: seq<Appointment>, user: nat): seq<Appointment> {
    Query(DateSlotDesc, apps, (a: Appointment) => OwnPast(a, user))
  }

  /** Each of the user's rows is on exactly one of the two lists, once per
      occurrence in the table, and nobody else's row is on either; both lists are
      sorted. */
  lemma ActiveAndPastPartition(apps: seq<Appointment>, user: nat, x: Appointment)
    ensures Sorted(DateSlotAsc, Active(apps, user)) && Sorted(DateSlotDesc, Past(apps, user))
    ensures multiset(Active(apps, user))[x] + multiset(Past(apps, user))[x] == if x.user == user then multiset(apps)[x] else 0
    ensures multiset(Active(apps, user))[x] > 0 ==> x.status == Booked
    ensures multiset(Past(apps, user))[x] > 0 ==> x.status != Booked
  {
  }

  /** Under the booking cap, no organization appears more than twice on the
      user's active list. */
  lemma ActiveWithinCap(apps: seq<Appointment>, user: nat, org: nat)
    requires WithinCap(apps)
    ensures Count(Active(apps, user), (a: Appointment) => a.org == org) <= MaxActivePerOrg
  {
    var act := Active(apps, user);
    var own := (a: Appointment) => OwnBooked(a, user);
    var at := (a: Appointment) => a.org == org;
    var both := (a: Appointment) => a.user == user && a.org == org && a.status == Booked;
    assert multiset(Filter(act, at)) == multiset(Filter(apps, both)) by {
      forall x ensures multiset(Filter(act, at))[x] == multiset(Filter(apps, both))[x] {
        FilterCount(act, at, x);
        FilterCount(apps, both, x);
      }
    }
    assert |Filter(act, at)| == |multiset(Filter(act, at))|;
    assert Count(act, at) == BookedAt(apps, user, org);
    var f := Filter(apps, both);
    if f != [] {
      FilterIn(apps, both, f[0]);
      var i :| 0 <= i < |apps| && apps[i] == f[0];
    }
  }

  // ---------------------------------------------------------------- cancel_appointment

  /** `get_object_or_404(Appointment, id=..., user=...)`: the position of the
      user's own row with that id. */
  function OwnRow(apps: seq<Appointment>, user: nat, id: nat): (r: Option<nat>)
    ensures r.Some? ==> r.value < |apps| && apps[r.value].id == id && apps[r.value].user == user
    ensures r.None? ==> forall k :: 0 <= k < |apps| ==> apps[k].id != id || apps[k].user != user
  {
    IndexWhere(apps, (a: Appointment) => a.id == id && a.user == user)
  }

  datatype CancelResult = CancelNotFound | ToActiveList

  /** With unique ids, saving the user's row changes exactly the row with that
      id. */
  lemma OwnRowUpdate(apps: seq<Appointment>, user: nat, id: nat, now: int, next: nat)
    requires IdsOk(apps, AppointmentId, next) && OwnRow(apps, user, id).Some?
    ensures var i := OwnRow(apps, user, id).value;
      apps[i := WithStatus(apps[i], Cancelled, now)] == SetStatus(apps, id, Cancelled, now)
  {
    var i := OwnRow(apps, user, id).value;
    var r, t := apps[i := WithStatus(apps[i], Cancelled, now)], SetStatus(apps, id, Cancelled, now);
    forall k | 0 <= k < |r| ensures r[k] == t[k] {
      if k != i { assert AppointmentId(apps[k]) != AppointmentId(apps[i]); }
    }
  }

  /** `cancel_appointment`: a row that is not the user's is the not-found
      answer. Otherwise a POST saves it as `Cancelled`, whatever its status was,
      and anything else changes nothing; both go back to the active list. */
  method Cancel(db: Store, user: nat, id: nat, isPost: bool, now: int) returns (r: CancelResult)
    requires db.Valid()
    modifies db
    ensures db.Valid()
    ensures db.orgs == old(db.orgs) && db.templates == old(db.templates) && db.holidays == old(db.holidays)
    ensures db.nextId == old(db.nextId)
    ensures r == CancelNotFound <==> OwnRow(old(db.appointments), user, id).None?
    ensures r == CancelNotFound || !isPost ==> db.appointments == old(db.appointments)
    ensures r == ToActiveList && isPost ==> db.appointments == SetStatus(old(db.appointments), id, Cancelled, now)
  {
    var found := OwnRow(db.appointments, user, id);
    if found.None? { return CancelNotFound; }
    if isPost {
      var i := found.value;
      OwnRowUpdate(db.appointments, user, id, now, db.nextId);
      SetStatusKeepsInvariants(db.appointments, id, Cancelled, now, db.nextId);
      db.appointments := db.appointments[i := WithStatus(db.appointments[i], Cancelled, now)];
    }
    return ToActiveList;
  }

  /** Cancelling a row of the user takes it off the active list if it was
      there and puts its cancelled form on the past list, in place of the row
      itself if that was already past; every other row stays where it was. Stated
      as the number of times each row `y` occurs. */
  lemma CancelMovesRow(apps: seq<Appointment>, user: nat, id: nat, now: int, next: nat, y: Appointment)
    requires IdsOk(apps, AppointmentId, next) && OwnRow(apps, user, id).Some?
    ensures var was := apps[OwnRow(apps, user, id).value];
      var after := SetStatus(apps, id, Cancelled, now);
      && multiset(Active(after, user))[y] + (if y == was && was.status == Booked then 1 else 0)
         == multiset(Active(apps, user))[y]
      && multiset(Past(after, user))[y] + (if y == was && was.status != Booked then 1 else 0)
         == multiset(Past(apps, user))[y] + (if y == WithStatus(was, Cancelled, now) then 1 else 0)
  {
    var i := OwnRow(apps, user, id).value;
    OwnRowUpdate(apps, user, id, now, next);
    QueryUpdate(DateSlotAsc, apps, (a: Appointment) => OwnBooked(a, user), i, WithStatus(apps[i], Cancelled, now), y);
    QueryUpdate(DateSlotDesc, apps, (a: Appointment) => OwnPast(a, user), i, WithStatus(apps[i], Cancelled, now), y);
  }
}
