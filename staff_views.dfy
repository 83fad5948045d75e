/** The staff side: serving and skipping appointments, the template, holiday
    and service switches of the slots page, replacing templates when the
    service is edited, registering a service, and the staff lists and
    dashboard. */
module StaffViews {
  import opened Text
  import opened StaffModels
  import opened BookingsModels
  import opened StaffForms
  import opened Tables
  import opened Ordering
  import opened Database
  import opened UsersViews

  // ---------------------------------------------------------------- the staff member's organization

  /** `Organization.objects.filter(staff=...).first()`: the position of the
      staff member's first organization. */
  function StaffOrg(orgs: seq<Organization>, staff: nat): (r: Option<nat>)
    ensures r.Some? ==> r.value < |orgs| && orgs[r.value].staff == staff
    ensures r.Some? ==> forall k :: 0 <= k < r.value ==> orgs[k].staff != staff
    ensures r.None? ==> forall k :: 0 <= k < |orgs| ==> orgs[k].staff != staff
  {
    IndexWhere(orgs, (o: Organization) => o.staff == staff)
  }

  // ---------------------------------------------------------------- status changes

  /** The table after `get_object_or_404(Appointment, id=id)` is given status
      `st` and saved at `now`; unchanged when there is no such row. */
  function AfterStatus(apps: seq<Appointment>, id: nat, st: Status, now: int): (r: seq<Appointment>)
    ensures |r| == |apps|
  {
    match IndexWhere(apps, (a: Appointment) => a.id == id)
    case None => apps
    case Some(i) => apps[i := WithStatus(apps[i], st, now)]
  }

  /** With unique ids, the change reaches exactly the row with that id, from
      whatever status it had: the row keeps its booking, takes the new status and
      the save time, and every other row stays as it was. */
  lemma AfterStatusIsSetStatus(apps: seq<Appointment>, id: nat, st: Status, now: int, next: nat)
    requires IdsOk(apps, AppointmentId, next)
    ensures AfterStatus(apps, id, st, now) == SetStatus(apps, id, st, now)
  {
    var r, t := AfterStatus(apps, id, st, now), SetStatus(apps, id, st, now);
    var found := IndexWhere(apps, (a: Appointment) => a.id == id);
    forall k | 0 <= k < |r| ensures r[k] == t[k] {
      if found.Some? && k != found.value {
        assert AppointmentId(apps[k]) != AppointmentId(apps[found.value]);
      }
    }
  }

  /** A second status change overrides the first: only the last one counts. */
  lemma LastStatusWins(apps: seq<Appointment>, id: nat, st1: Status, t1: int, st2: Status, t2: int)
    ensures AfterStatus(AfterStatus(apps, id, st1, t1), id, st2, t2) == AfterStatus(apps, id, st2, t2)
  {
    var p := (a: Appointment) => a.id == id;
    var found := IndexWhere(apps, p);
    if found.Some? {
      var i := found.value;
      var mid := apps[i := WithStatus(apps[i], st1, t1)];
      IndexWhereFirst(mid, p, i);
      assert mid[i := WithStatus(mid[i], st2, t2)] == apps[i := WithStatus(apps[i], st2, t2)];
    }
  }

  /** `updated_at`-free view of what a status change leaves behind: the row of
      that id, if any, has status `st`. */
  lemma AfterStatusSets(apps: seq<Appointment>, id: nat, st: Status, now: int, k: nat)
    requires k < |apps| && apps[k].id == id
    ensures AfterStatus(apps, id, st, now)[k].status == st || exists j :: 0 <= j < k && apps[j].id == id
  {
  }

  /** A row's status change keeps one row per slot key, every user within the
      cap and the ids in order, for every status but `Booked`. */
  lemma AfterStatusKeepsInvariants(apps: seq<Appointment>, id: nat, st: Status, now: int, next: nat)
    requires OneRowPerSlot(apps) && WithinCap(apps) && IdsOk(apps, AppointmentId, next) && st != Booked
    ensures OneRowPerSlot(AfterStatus(apps, id, st, now)) && WithinCap(AfterStatus(apps, id, st, now))
    ensures IdsOk(AfterStatus(apps, id, st, now), AppointmentId, next)
  {
    AfterStatusIsSetStatus(apps, id, st, now, next);
    SetStatusKeepsInvariants(apps, id, st, now, next);
  }

  /** The organization whose dashboard a status change redirects to. */
  function RedirectOrg(apps: seq<Appointment>, id: nat): (r: Option<nat>)
    ensures r.Some? <==> exists k :: 0 <= k < |apps| && apps[k].id == id
  {
    match IndexWhere(apps, (a: Appointment) => a.id == id)
    case None => None
    case Some(i) => Some(apps[i].org)
  }

  /** `staff_serve` and `staff_skip`: look the appointment up by id alone, give it
      the status and save it. Nothing checks which staff member asks, nor the
      status it had. `None` is the not-found answer. */
  method ChangeStatus(db: Store, id: nat, st: Status, now: int) returns (org: Option<nat>)
    requires db.Valid() && st != Booked
    modifies db
    ensures db.Valid()
    ensures db.orgs == old(db.orgs) && db.templates == old(db.templates) && db.holidays == old(db.holidays)
    ensures db.nextId == old(db.nextId)
    ensures db.appointments == AfterStatus(old(db.appointments), id, st, now)
    ensures org == RedirectOrg(old(db.appointments), id)
  {
    AfterStatusKeepsInvariants(db.appointments, id, st, now, db.nextId);
    var found := IndexWhere(db.appointments, (a: Appointment) => a.id == id);
    if found.None? { return None; }
    var i := found.value;
    var appointment := db.appointments[i];
    db.appointments := db.appointments[i := WithStatus(appointment, st, now)];
    return Some(appointment.org);
  }

  method Serve(db: Store, id: nat, now: int) returns (org: Option<nat>)
    requires db.Valid()
    modifies db
    ensures db.Valid()
    ensures db.orgs == old(db.orgs) && db.templates == old(db.templates) && db.holidays == old(db.holidays)
    ensures db.nextId == old(db.nextId)
    ensures db.appointments == AfterStatus(old(db.appointments), id, Completed, now)
    ensures org == RedirectOrg(old(db.appointments), id)
  {
    org := ChangeStatus(db, id, Completed, now);
  }

  method Skip(db: Store, id: nat, now: int) returns (org: Option<nat>)
    requires db.Valid()
    modifies db
    ensures db.Valid()
    ensures db.orgs == old(db.orgs) && db.templates == old(db.templates) && db.holidays == old(db.holidays)
    ensures db.nextId == old(db.nextId)
    ensures db.appointments == AfterStatus(old(db.appointments), id, Missed, now)
    ensures org == RedirectOrg(old(db.appointments), id)
  {
    org := ChangeStatus(db, id, Missed, now);
  }

  // ---------------------------------------------------------------- templates (staff_slots)

  /** The position of this organization's template with that id
      (`get_object_or_404(TimeSlot, id=..., organization=org)`). */
  function TemplateIndex(ts: seq<TimeSlot>, org: nat, id: nat): (r: Option<nat>)
    ensures r.Some? ==> r.value < |ts| && ts[r.value].id == id && ts[r.value].org == org
    ensures r.None? ==> forall k :: 0 <= k < |ts| ==> ts[k].id != id || ts[k].org != org
  {
    IndexWhere(ts, (t: TimeSlot) => t.id == id && t.org == org)
  }

  /** `TimeSlot.objects.create(organization=org, slot_range=...)`: a new active
      template under the next id. */
  method InsertTemplate(db: Store, org: nat, slotRange: string)
    requires db.Valid()
    modifies db
    ensures db.Valid()
    ensures db.orgs == old(db.orgs) && db.holidays == old(db.holidays) && db.appointments == old(db.appointments)
    ensures db.templates == old(db.templates) + [NewTimeSlot(old(db.nextId), org, slotRange)] && db.nextId == old(db.nextId) + 1
  {
    var t := NewTimeSlot(db.nextId, org, slotRange);
    IdsAppend(db.templates, t, TemplateId, db.nextId);
    IdsRaise(db.orgs, OrgId, db.nextId, db.nextId + 1);
    IdsRaise(db.holidays, HolidayId, db.nextId, db.nextId + 1);
    IdsRaise(db.appointments, AppointmentId, db.nextId, db.nextId + 1);
    db.templates := db.templates + [t];
    db.nextId := db.nextId + 1;
  }

  /** `add`: a non-empty range text becomes a new active template of the
      organization, as typed: nothing validates it. An empty one adds nothing. */
  method AddTemplate(db: Store, org: nat, slotRange: string)
    requires db.Valid()
    modifies db
    ensures db.Valid()
    ensures db.orgs == old(db.orgs) && db.holidays == old(db.holidays) && db.appointments == old(db.appointments)
    ensures slotRange == [] ==> db.templates == old(db.templates) && db.nextId == old(db.nextId)
    ensures slotRange != [] ==>
      db.templates == old(db.templates) + [NewTimeSlot(old(db.nextId), org, slotRange)] && db.nextId == old(db.nextId) + 1
  {
    if slotRange != [] {
      InsertTemplate(db, org, slotRange);
    }
  }

  /** `edit`: the organization's template with that id gets the new range text
      and keeps everything else; every other template is untouched. `false` is
      the not-found answer, with nothing changed. */
  method EditTemplate(db: Store, org: nat, id: nat, slotRange: string) returns (found: bool)
    requires db.Valid()
    modifies db
    ensures db.Valid()
    ensures db.orgs == old(db.orgs) && db.holidays == old(db.holidays) && db.appointments == old(db.appointments)
    ensures db.nextId == old(db.nextId)
    ensures found <==> TemplateIndex(old(db.templates), org, id).Some?
    ensures !found ==> db.templates == old(db.templates)
    ensures found ==> var i := TemplateIndex(old(db.templates), org, id).value;
      |db.templates| == |old(db.templates)|
      && db.templates[i] == old(db.templates)[i].(slotRange := slotRange)
      && forall k :: 0 <= k < |db.templates| && k != i ==> db.templates[k] == old(db.templates)[k]
  {
    var index := TemplateIndex(db.templates, org, id);
    if index.None? { return false; }
    var i := index.value;
    var slot := db.templates[i];
    IdsUpdate(db.templates, i, slot.(slotRange := slotRange), TemplateId, db.nextId);
    db.templates := db.templates[i := slot.(slotRange := slotRange)];
    return true;
  }

  /** `delete`: the organization's template with that id is removed and the
      others stay, in order. `false` is the not-found answer. */
  method DeleteTemplate(db: Store, org: nat, id: nat) returns (found: bool)
    requires db.Valid()
    modifies db
    ensures db.Valid()
    ensures db.orgs == old(db.orgs) && db.holidays == old(db.holidays) && db.appointments == old(db.appointments)
    ensures db.nextId == old(db.nextId)
    ensures found <==> TemplateIndex(old(db.templates), org, id).Some?
    ensures !found ==> db.templates == old(db.templates)
    ensures found ==> var i := TemplateIndex(old(db.templates), org, id).value;
      db.templates == old(db.templates)[..i] + old(db.templates)[i + 1..]
  {
    var index := TemplateIndex(db.templates, org, id);
    if index.None? { return false; }
    var i := index.value;
    var ts := db.templates;
    IdsRemove(ts, i, TemplateId, db.nextId);
    db.templates := ts[..i] + ts[i + 1..];
    return true;
  }

  /** Under unique ids a deleted template no longer appears, and the remaining
      rows together with it are exactly the rows there were before. */
  lemma DeleteTemplateRemovesOne(ts: seq<TimeSlot>, i: nat, next: nat)
    requires i < |ts| && IdsOk(ts, TemplateId, next)
    ensures ts[i] !in ts[..i] + ts[i + 1..]
    ensures multiset(ts[..i] + ts[i + 1..]) + multiset{ts[i]} == multiset(ts)
  {
    var r := ts[..i] + ts[i + 1..];
    forall a | 0 <= a < |r| ensures r[a] != ts[i] {
      if a < i { assert r[a] == ts[a]; } else { assert r[a] == ts[a + 1]; }
    }
    assert ts == ts[..i] + [ts[i]] + ts[i + 1..];
  }

  // ---------------------------------------------------------------- holidays (staff_slots)

  /** `add_holiday`: one new holiday row for the date; a date the database
      cannot read (`None`) is an error and adds nothing. */
  method AddHoliday(db: Store, org: nat, date: Option<int>) returns (ok: bool)
    requires db.Valid()
    modifies db
    ensures db.Valid()
    ensures db.orgs == old(db.orgs) && db.templates == old(db.templates) && db.appointments == old(db.appointments)
    ensures ok <==> date.Some?
    ensures !ok ==> db.holidays == old(db.holidays) && db.nextId == old(db.nextId)
    ensures ok ==> db.holidays == old(db.holidays) + [Holiday(old(db.nextId), org, date.value)] && db.nextId == old(db.nextId) + 1
  {
    if date.None? { return false; }
    var h := Holiday(db.nextId, org, date.value);
    IdsAppend(db.holidays, h, HolidayId, db.nextId);
    IdsRaise(db.orgs, OrgId, db.nextId, db.nextId + 1);
    IdsRaise(db.templates, TemplateId, db.nextId, db.nextId + 1);
    IdsRaise(db.appointments, AppointmentId, db.nextId, db.nextId + 1);
    db.holidays := db.holidays + [h];
    db.nextId := db.nextId + 1;
    return true;
  }

  /** Adding a holiday makes that day a holiday of the organization and changes
      no other day of any organization. */
  lemma AddedHoliday(hs: seq<Holiday>, h: Holiday, org: nat, date: int)
    ensures HasHoliday(hs + [h], org, date) <==> HasHoliday(hs, org, date) || (h.org == org && h.date == date)
  {
    var r := hs + [h];
    if HasHoliday(hs, org, date) {
      var i :| 0 <= i < |hs| && hs[i].org == org && hs[i].date == date;
      assert r[i] == hs[i];
    }
    if h.org == org && h.date == date { assert r[|hs|] == h; }
    if HasHoliday(r, org, date) {
      var i :| 0 <= i < |r| && r[i].org == org && r[i].date == date;
      if i < |hs| { assert r[i] == hs[i]; }
    }
  }

  /** The rows `delete_holiday` keeps: all but this organization's row with
      that id (`.filter(id=..., organization=org).delete()`; no row, no change). */
  function KeptHolidays(hs: seq<Holiday>, org: nat, id: nat): (r: seq<Holiday>)
    ensures forall k :: 0 <= k < |r| ==> r[k].id != id || r[k].org != org
    ensures forall h :: h in r <==> h in hs && (h.id != id || h.org != org)
  {
    var p := (h: Holiday) => h.id != id || h.org != org;
    FilterSatisfies(hs, p);
    assert forall h :: h in Filter(hs, p) <==> h in hs && p(h) by {
      forall h ensures h in Filter(hs, p) <==> h in hs && p(h) { FilterIn(hs, p, h); }
    }
    Filter(hs, p)
  }

  method DeleteHoliday(db: Store, org: nat, id: nat)
    requires db.Valid()
    modifies db
    ensures db.Valid()
    ensures db.orgs == old(db.orgs) && db.templates == old(db.templates) && db.appointments == old(db.appointments)
    ensures db.nextId == old(db.nextId)
    ensures db.holidays == KeptHolidays(old(db.holidays), org, id)
  {
    IdsFilter(db.holidays, (h: Holiday) => h.id != id || h.org != org, HolidayId, db.nextId);
    db.holidays := KeptHolidays(db.holidays, org, id);
  }

  /** Removing one organization's holiday row leaves every other
      organization's days as they were. */
  lemma DeletedHolidayOtherOrgs(hs: seq<Holiday>, org: nat, id: nat, other: nat, date: int)
    requires other != org
    ensures HasHoliday(KeptHolidays(hs, org, id), other, date) <==> HasHoliday(hs, other, date)
  {
    var r := KeptHolidays(hs, org, id);
    if HasHoliday(hs, other, date) {
      var i :| 0 <= i < |hs| && hs[i].org == other && hs[i].date == date;
      assert hs[i] in r;
      var j :| 0 <= j < |r| && r[j] == hs[i];
    }
    if HasHoliday(r, other, date) {
      var i :| 0 <= i < |r| && r[i].org == other && r[i].date == date;
      assert r[i] in hs;
      var j :| 0 <= j < |hs| && hs[j] == r[i];
    }
  }

  // ---------------------------------------------------------------- the service switch (staff_slots)

  /** `toggle_service`: the service switches state, recording `today` when it
      is switched off and forgetting it when switched on. */
  function Toggled(o: Organization, today: int): (r: Organization)
    ensures r.isActive == !o.isActive && ServiceStatusConsistent(r)
    ensures !r.isActive ==> r.disabledSince == Some(today)
    ensures r == o.(isActive := r.isActive, disabledSince := r.disabledSince)
  {
    var active := !o.isActive;
    o.(isActive := active, disabledSince := if active then None else Some(today))
  }

  /** Switching twice gives back the state: an active service is exactly as it
      was; a switched-off one is off again, dated by the second switch. */
  lemma ToggleTwice(o: Organization, t1: int, t2: int)
    requires ServiceStatusConsistent(o)
    ensures Toggled(Toggled(o, t1), t2).isActive == o.isActive
    ensures o.isActive ==> Toggled(Toggled(o, t1), t2) == o
    ensures !o.isActive ==> Toggled(Toggled(o, t1), t2) == o.(disabledSince := Some(t2))
  {
  }

  method ToggleService(db: Store, org: nat, today: int)
    requires db.Valid()
    modifies db
    ensures db.Valid()
    ensures db.templates == old(db.templates) && db.holidays == old(db.holidays) && db.appointments == old(db.appointments)
    ensures db.nextId == old(db.nextId)
    ensures match IndexWhere(old(db.orgs), (o: Organization) => o.id == org)
      case None => db.orgs == old(db.orgs)
      case Some(k) => db.orgs == old(db.orgs)[k := Toggled(old(db.orgs)[k], today)]
  {
    var found := IndexWhere(db.orgs, (o: Organization) => o.id == org);
    if found.None? { return; }
    var k := found.value;
    IdsUpdate(db.orgs, k, Toggled(db.orgs[k], today), OrgId, db.nextId);
    db.orgs := db.orgs[k := Toggled(db.orgs[k], today)];
  }

  /** Once switched off, the customer's pages answer not found for the
      organization. */
  lemma SwitchedOffIsNotFound(orgs: seq<Organization>, k: nat, today: int, next: nat)
    requires k < |orgs| && orgs[k].isActive && IdsOk(orgs, OrgId, next)
    ensures ActiveOrg(orgs[k := Toggled(orgs[k], today)], orgs[k].id).None?
  {
    var r := orgs[k := Toggled(orgs[k], today)];
    forall j | 0 <= j < |r| ensures r[j].id != orgs[k].id || !r[j].isActive {
      if j != k { assert OrgId(orgs[j]) != OrgId(orgs[k]); }
    }
  }

  // ---------------------------------------------------------------- replacing templates (staff_edit_service)

  function StrippedNonBlank(x: string): Option<string> {
    if Strip(x) != [] then Some(Strip(x)) else None
  }

  /** The submitted range texts that are kept: each stripped, blank ones
      dropped, in submission order. */
  function Kept(submitted: seq<string>): seq<string> {
    FilterMap(submitted, StrippedNonBlank)
  }

  /** The kept texts are the stripped forms of the submitted texts that are not
      blank, one each and in order; none is blank or padded. */
  lemma KeptTexts(submitted: seq<string>)
    ensures |Kept(submitted)| == |Filter(submitted, (x: string) => Strip(x) != [])|
    ensures forall k :: 0 <= k < |Kept(submitted)| ==>
      Kept(submitted)[k] == Strip(Filter(submitted, (x: string) => Strip(x) != [])[k])
    ensures forall k :: 0 <= k < |Kept(submitted)| ==> Kept(submitted)[k] != [] && IsStripped(Kept(submitted)[k])
  {
    FilterMapAt(submitted, StrippedNonBlank, (x: string) => Strip(x) != []);
  }

  /** New active templates for the organization under consecutive ids from
      `next`, one per range text, in order. */
  function Fresh(org: nat, ranges: seq<string>, next: nat): (r: seq<TimeSlot>)
    ensures |r| == |ranges|
    ensures forall k :: 0 <= k < |r| ==> r[k] == NewTimeSlot(next + k, org, ranges[k])
  {
    seq(|ranges|, k requires 0 <= k < |ranges| => NewTimeSlot(next + k, org, ranges[k]))
  }

  /** One more range text adds one template at the end, under the next id. */
  lemma FreshSnoc(base: seq<TimeSlot>, org: nat, ranges: seq<string>, x: string, next: nat)
    ensures base + Fresh(org, ranges + [x], next) == base + Fresh(org, ranges, next) + [NewTimeSlot(next + |ranges|, org, x)]
  {
    var a, b := Fresh(org, ranges + [x], next), Fresh(org, ranges, next) + [NewTimeSlot(next + |ranges|, org, x)];
    assert |a| == |b|;
    forall k | 0 <= k < |a| ensures a[k] == b[k] {
      if k < |ranges| { assert (ranges + [x])[k] == ranges[k]; }
    }
    assert a == b;
  }

  /** Fresh templates appended at the counter keep the ids in order. */
  lemma FreshIds(ts: seq<TimeSlot>, org: nat, ranges: seq<string>, next: nat)
    requires IdsOk(ts, TemplateId, next)
    ensures IdsOk(ts + Fresh(org, ranges, next), TemplateId, next + |ranges|)
  {
    var r := ts + Fresh(org, ranges, next);
    forall i, j | 0 <= i < j < |r| ensures TemplateId(r[i]) < TemplateId(r[j]) {
      if j >= |ts| && i < |ts| { assert r[i] == ts[i]; }
      if j < |ts| { assert r[i] == ts[i] && r[j] == ts[j]; }
    }
    forall i | 0 <= i < |r| ensures TemplateId(r[i]) < next + |ranges| {
      if i < |ts| { assert r[i] == ts[i]; }
    }
  }

  function OtherTemplates(ts: seq<TimeSlot>, org: nat): seq<TimeSlot> {
    Filter(ts, (t: TimeSlot) => t.org != org)
  }

  /** `staff_edit_service` on submission: the organization's address, contact,
      location and description take the submitted values; its templates are
      deleted and one is created per non-blank submitted text, stripped, in
      order. `false` is the answer for a staff member without an organization. */
  method EditService(db: Store, staff: nat, address: string, contact: string, location: string,
                     description: string, submitted: seq<string>)
    returns (found: bool)
    requires db.Valid()
    modifies db
    ensures db.Valid()
    ensures db.holidays == old(db.holidays) && db.appointments == old(db.appointments)
    ensures found <==> StaffOrg(old(db.orgs), staff).Some?
    ensures !found ==> db.orgs == old(db.orgs) && db.templates == old(db.templates) && db.nextId == old(db.nextId)
    ensures found ==> var k := StaffOrg(old(db.orgs), staff).value; var o := old(db.orgs)[k];
      && db.orgs == old(db.orgs)[k := o.(branchAddress := address, phoneNumber := contact, location := location, serviceType := description)]
      && db.templates == OtherTemplates(old(db.templates), o.id) + Fresh(o.id, Kept(submitted), old(db.nextId))
      && db.nextId == old(db.nextId) + |Kept(submitted)|
  {
    var index := StaffOrg(db.orgs, staff);
    if index.None? { return false; }
    var k := index.value;
    var o := db.orgs[k];
    var edited := o.(branchAddress := address, phoneNumber := contact, location := location, serviceType := description);
    IdsUpdate(db.orgs, k, edited, OrgId, db.nextId);
    db.orgs := db.orgs[k := edited];

    IdsFilter(db.templates, (t: TimeSlot) => t.org != o.id, TemplateId, db.nextId);
    db.templates := OtherTemplates(db.templates, o.id);
    CreateKept(db, o.id, submitted);
    return true;
  }

  /** The creation loop of `staff_edit_service`: a template per submitted text
      that is not blank once stripped, holding the stripped text. */
  method CreateKept(db: Store, org: nat, submitted: seq<string>)
    requires db.Valid()
    modifies db
    ensures db.Valid()
    ensures db.orgs == old(db.orgs) && db.holidays == old(db.holidays) && db.appointments == old(db.appointments)
    ensures db.templates == old(db.templates) + Fresh(org, Kept(submitted), old(db.nextId))
    ensures db.nextId == old(db.nextId) + |Kept(submitted)|
  {
    ghost var base := db.templates;
    ghost var start := db.nextId;
    ghost var made: seq<string> := [];
    var i := 0;
    while i < |submitted|
      invariant 0 <= i <= |submitted|
      invariant made == Kept(submitted[..i])
      invariant db.templates == base + Fresh(org, made, start)
      invariant db.nextId == start + |made|
      invariant db.Valid()
      invariant db.orgs == old(db.orgs) && db.holidays == old(db.holidays) && db.appointments == old(db.appointments)
    {
      KeptStep(submitted, i);
      var stripped := StrippedNonBlank(submitted[i]);
      CreateOne(db, org, stripped, base, made, start);
      if stripped.Some? {
        made := made + [stripped.value];
      }
      i := i + 1;
    }
    assert submitted[..|submitted|] == submitted;
  }

  /** One pass of the creation loop: a template for the text when it is not
      blank once stripped. */
  method CreateOne(db: Store, org: nat, stripped: Option<string>, ghost base: seq<TimeSlot>, ghost made: seq<string>, ghost start: nat)
    requires db.Valid()
    requires db.templates == base + Fresh(org, made, start) && db.nextId == start + |made|
    modifies db
    ensures db.Valid()
    ensures db.orgs == old(db.orgs) && db.holidays == old(db.holidays) && db.appointments == old(db.appointments)
    ensures stripped.None? ==> db.templates == old(db.templates) && db.nextId == old(db.nextId)
    ensures stripped.Some? ==>
      db.templates == base + Fresh(org, made + [stripped.value], start) && db.nextId == start + |made| + 1
  {
    if stripped.Some? {
      FreshSnoc(base, org, made, stripped.value, start);
      InsertTemplate(db, org, stripped.value);
    }
  }

  /** One more submitted text adds its template, when it is not blank, at the
      end and under the next id. */
  lemma KeptStep(submitted: seq<string>, i: nat)
    requires i < |submitted|
    ensures StrippedNonBlank(submitted[i]).None? ==> Kept(submitted[..i + 1]) == Kept(submitted[..i])
    ensures StrippedNonBlank(submitted[i]).Some? ==>
      Kept(submitted[..i + 1]) == Kept(submitted[..i]) + [StrippedNonBlank(submitted[i]).value]
  {
    assert submitted[..i + 1] == submitted[..i] + [submitted[i]];
    FilterMapSnoc(submitted[..i], submitted[i], StrippedNonBlank);
  }

  /** After the replacement the organization's templates are exactly the kept
      texts, in order, and every other organization's templates are as they
      were. */
  lemma ReplacedTemplates(ts: seq<TimeSlot>, org: nat, submitted: seq<string>, next: nat, other: nat)
    requires other != org
    ensures var r := OtherTemplates(ts, org) + Fresh(org, Kept(submitted), next);
      && OrgTemplates(r, org) == Fresh(org, Kept(submitted), next)
      && OrgTemplates(r, other) == OrgTemplates(ts, other)
  {
    var created := Fresh(org, Kept(submitted), next);
    ReplacedBy(ts, org, created, other);
  }

  /** Deleting an organization's templates and appending templates of that
      organization leaves it with exactly the appended ones. */
  lemma ReplacedBy(ts: seq<TimeSlot>, org: nat, created: seq<TimeSlot>, other: nat)
    requires other != org && forall k :: 0 <= k < |created| ==> created[k].org == org
    ensures var r := OtherTemplates(ts, org) + created;
      && OrgTemplates(r, org) == created
      && OrgTemplates(r, other) == OrgTemplates(ts, other)
  {
    var rest := OtherTemplates(ts, org);
    var mine := (t: TimeSlot) => t.org == org;
    var theirs := (t: TimeSlot) => t.org == other;
    var notMine := (t: TimeSlot) => t.org != org;
    FilterConcat(rest, created, mine);
    FilterConcat(rest, created, theirs);
    FilterAll(created, mine);
    FilterSatisfies(ts, notMine);
    FilterNone(rest, mine);
    FilterNone(created, theirs);
    FilterFilter(ts, notMine, theirs, theirs);
  }

  // ---------------------------------------------------------------- registering a service (service_register2)

  datatype StaffPasswordVerdict = StaffPasswordOk | WeakPassword | PasswordsDiffer

  /** The staff password rule: at least 8 characters with a letter and a digit,
      then equal to its confirmation. */
  function StaffPasswordCheck(password: string, confirm: string): (r: StaffPasswordVerdict)
    ensures r == StaffPasswordOk <==>
      |password| >= 8 && HasAsciiLetter(password) && HasAsciiDigit(password) && password == confirm
    ensures r == WeakPassword <==> !(|password| >= 8 && HasAsciiLetter(password) && HasAsciiDigit(password))
  {
    if |password| < 8 || !HasAsciiLetter(password) || !HasAsciiDigit(password) then WeakPassword
    else if password != confirm then PasswordsDiffer
    else StaffPasswordOk
  }

  /** Every password the staff rule accepts, the customer rule accepts too. */
  lemma StaffRuleIsStricter(password: string, confirm: string)
    requires StaffPasswordCheck(password, confirm) == StaffPasswordOk
    ensures UserPasswordCheck(password, confirm) == PasswordOk
  {
  }

  /** `Organization.objects.create(...)` under the next id. */
  method InsertOrg(db: Store, o: Organization)
    requires db.Valid() && o.id == db.nextId && ServiceStatusConsistent(o) && ValidDuration(o.duration)
    modifies db
    ensures db.Valid()
    ensures db.orgs == old(db.orgs) + [o] && db.nextId == old(db.nextId) + 1
    ensures db.templates == old(db.templates) && db.holidays == old(db.holidays) && db.appointments == old(db.appointments)
  {
    IdsAppend(db.orgs, o, OrgId, db.nextId);
    IdsRaise(db.templates, TemplateId, db.nextId, db.nextId + 1);
    IdsRaise(db.holidays, HolidayId, db.nextId, db.nextId + 1);
    IdsRaise(db.appointments, AppointmentId, db.nextId, db.nextId + 1);
    db.orgs := db.orgs + [o];
    db.nextId := db.nextId + 1;
  }

  /** The creation loop of `service_register2`: one active template per range
      text, as cleaned, in order. */
  method CreateAll(db: Store, org: nat, slotData: seq<string>)
    requires db.Valid()
    modifies db
    ensures db.Valid()
    ensures db.orgs == old(db.orgs) && db.holidays == old(db.holidays) && db.appointments == old(db.appointments)
    ensures db.templates == old(db.templates) + Fresh(org, slotData, old(db.nextId))
    ensures db.nextId == old(db.nextId) + |slotData|
  {
    ghost var base, start := db.templates, db.nextId;
    var i := 0;
    while i < |slotData|
      invariant 0 <= i <= |slotData|
      invariant db.templates == base + Fresh(org, slotData[..i], start)
      invariant db.nextId == start + i
      invariant db.Valid()
      invariant db.orgs == old(db.orgs) && db.holidays == old(db.holidays) && db.appointments == old(db.appointments)
    {
      assert slotData[..i + 1] == slotData[..i] + [slotData[i]];
      FreshSnoc(base, org, slotData[..i], slotData[i], start);
      InsertTemplate(db, org, slotData[i]);
      i := i + 1;
    }
    assert slotData[..|slotData|] == slotData;
  }

  datatype RegisterResult = PasswordRefused(verdict: StaffPasswordVerdict) | NoOrgData | Registered(org: nat)

  /** `service_register2` after its e-mail checks: the password rule, then the
      organization from the cleaned first-step data and one active template per
      cleaned range text, in order. Without first-step data no organization and
      no template is created; the staff account, which is not modelled here, is
      saved before that check. */
  method RegisterService(db: Store, staff: nat, password: string, confirm: string,
                         orgData: Option<OrgData>, slotData: seq<string>, now: int)
    returns (r: RegisterResult)
    requires db.Valid()
    requires orgData.Some? ==> ValidDuration(orgData.value.duration)
    modifies db
    ensures db.Valid()
    ensures db.holidays == old(db.holidays) && db.appointments == old(db.appointments)
    ensures StaffPasswordCheck(password, confirm) != StaffPasswordOk ==> r == PasswordRefused(StaffPasswordCheck(password, confirm))
    ensures StaffPasswordCheck(password, confirm) == StaffPasswordOk && orgData.None? ==> r == NoOrgData
    ensures !r.Registered? ==> db.orgs == old(db.orgs) && db.templates == old(db.templates) && db.nextId == old(db.nextId)
    ensures StaffPasswordCheck(password, confirm) == StaffPasswordOk && orgData.Some? ==>
      var d := orgData.value;
      && r == Registered(old(db.nextId))
      && db.orgs == old(db.orgs) + [NewOrganization(old(db.nextId), staff, d.orgName, d.serviceType, d.location,
                                                     d.branchAddress, d.phoneNumber, d.workingHours, d.duration, now)]
      && db.templates == old(db.templates) + Fresh(old(db.nextId), slotData, old(db.nextId) + 1)
      && db.nextId == old(db.nextId) + 1 + |slotData|
  {
    var verdict := StaffPasswordCheck(password, confirm);
    if verdict != StaffPasswordOk { return PasswordRefused(verdict); }
    if orgData.None? { return NoOrgData; }
    var d := orgData.value;
    var orgId := db.nextId;
    var o := NewOrganization(orgId, staff, d.orgName, d.serviceType, d.location, d.branchAddress, d.phoneNumber,
                             d.workingHours, d.duration, now);
    InsertOrg(db, o);
    CreateAll(db, orgId, slotData);
    return Registered(orgId);
  }

  // ---------------------------------------------------------------- lists

  /** The date filter of the appointments list (`?filter=`); any other value
      filters nothing. */
  datatype DateFilter = AnyDate | TodayOnly | UpcomingOnly

  /** A name matches a search text case-insensitively; an empty search matches
      every name. */
  predicate NameMatches(name: string, search: string) {
    search == [] || ContainsIgnoreCase(name, search)
  }

  predicate DatePasses(f: DateFilter, date: int, today: int) {
    match f
    case AnyDate => true
    case TodayOnly => date == today
    case UpcomingOnly => date > today
  }

  /** A row of the staff appointments list. */
  predicate Upcoming(a: Appointment, org: nat, f: DateFilter, search: string, today: int) {
    a.org == org && a.status == Booked && DatePasses(f, a.date, today) && NameMatches(a.name, search)
  }

  /** `staff_appointments`: the organization's `Booked` rows that pass the date
      filter and the search, by date then slot text. */
  function AppointmentList(apps: seq<Appointment>, org: nat, f: DateFilter, search: string, today: int): seq<Appointment> {
    Query(DateSlotAsc, apps, (a: Appointment) => Upcoming(a, org, f, search, today))
  }

  /** The list holds exactly the matching rows, each as often as in the table,
      sorted. */
  lemma AppointmentListContents(apps: seq<Appointment>, org: nat, f: DateFilter, search: string, today: int, x: Appointment)
    ensures Sorted(DateSlotAsc, AppointmentList(apps, org, f, search, today))
    ensures multiset(AppointmentList(apps, org, f, search, today))[x] ==
      if x.org == org && x.status == Booked && DatePasses(f, x.date, today) && NameMatches(x.name, search)
      then multiset(apps)[x] else 0
  {
  }

  /** `delete` on the appointments list: the organization's row with that id is
      removed, and no other. */
  method DeleteAppointment(db: Store, org: nat, id: nat)
    requires db.Valid()
    modifies db
    ensures db.Valid()
    ensures db.orgs == old(db.orgs) && db.templates == old(db.templates) && db.holidays == old(db.holidays)
    ensures db.nextId == old(db.nextId)
    ensures forall x :: multiset(db.appointments)[x] ==
                        if x.id == id && x.org == org then 0 else multiset(old(db.appointments))[x]
  {
    var keep := (a: Appointment) => !(a.id == id && a.org == org);
    FilterKeepsInvariants(db.appointments, keep, db.nextId);
    forall x ensures multiset(Filter(db.appointments, keep))[x] == if keep(x) then multiset(db.appointments)[x] else 0 {
      FilterCount(db.appointments, keep, x);
    }
    db.appointments := Filter(db.appointments, keep);
  }

  predicate Handled(a: Appointment, org: nat, search: string) {
    a.org == org && a.status != Booked && NameMatches(a.name, search)
  }

  /** `staff_history`: the organization's rows no longer `Booked`, matching the
      search, most recently saved first. */
  function History(apps: seq<Appointment>, org: nat, search: string): seq<Appointment> {
    Query(UpdatedDesc, apps, (a: Appointment) => Handled(a, org, search))
  }

  lemma HistoryContents(apps: seq<Appointment>, org: nat, search: string, x: Appointment)
    ensures Sorted(UpdatedDesc, History(apps, org, search))
    ensures multiset(History(apps, org, search))[x] ==
      if x.org == org && x.status != Booked && NameMatches(x.name, search) then multiset(apps)[x] else 0
  {
  }

  /** Without a search, the appointments list and the history together hold
      each of the organization's rows exactly once. */
  lemma ListsPartitionOrg(apps: seq<Appointment>, org: nat, today: int, x: Appointment)
    requires x.org == org
    ensures multiset(AppointmentList(apps, org, AnyDate, "", today))[x] + multiset(History(apps, org, ""))[x]
      == multiset(apps)[x]
  {
  }

  // ---------------------------------------------------------------- dashboard

  datatype DashboardView = DashboardView(
    todayCount: nat, upcomingCount: nat, completedCount: nat, missedCount: nat, todays: seq<Appointment>)

  function CountStatus(apps: seq<Appointment>, org: nat, st: Status): nat {
    Count(apps, (a: Appointment) => a.org == org && a.status == st)
  }

  function CountLater(apps: seq<Appointment>, org: nat, today: int): nat {
    Count(apps, (a: Appointment) => a.org == org && a.date > today && a.status == Booked)
  }

  /** `staff_dashboard`, for an organization of the asking staff member: today's
      rows of any status by slot text, and the counts. */
  function Dashboard(orgs: seq<Organization>, apps: seq<Appointment>, staff: nat, org: nat, today: int): (r: Option<DashboardView>)
    ensures r.Some? <==> exists k :: 0 <= k < |orgs| && orgs[k].id == org && orgs[k].staff == staff
    ensures r.Some? ==> r.value.todayCount == |r.value.todays| && Sorted(SlotAsc, r.value.todays)
    ensures r.Some? ==> forall x :: multiset(r.value.todays)[x] == if x.org == org && x.date == today then multiset(apps)[x] else 0
  {
    match IndexWhere(orgs, (o: Organization) => o.id == org && o.staff == staff)
    case None => None
    case Some(_) =>
      var todays := Query(SlotAsc, apps, (a: Appointment) => a.org == org && a.date == today);
      Some(DashboardView(|todays|, CountLater(apps, org, today), CountStatus(apps, org, Completed),
                         CountStatus(apps, org, Missed), todays))
  }

  /** Serving a row of the organization that was not yet completed raises the
      completed count by one; serving a completed row again leaves it. */
  lemma ServingCounts(apps: seq<Appointment>, i: nat, now: int, next: nat)
    requires i < |apps| && IdsOk(apps, AppointmentId, next)
    ensures CountStatus(AfterStatus(apps, apps[i].id, Completed, now), apps[i].org, Completed)
      == CountStatus(apps, apps[i].org, Completed) + (if apps[i].status == Completed then 0 else 1)
  {
    var p := (a: Appointment) => a.id == apps[i].id;
    forall k | 0 <= k < i ensures !p(apps[k]) { assert AppointmentId(apps[k]) < AppointmentId(apps[i]); }
    IndexWhereFirst(apps, p, i);
    CountUpdate(apps, i, WithStatus(apps[i], Completed, now), (a: Appointment) => a.org == apps[i].org && a.status == Completed);
  }

  /** Serving or skipping a `Booked` row of a later day takes it off the
      upcoming count. */
  lemma HandlingLeavesUpcoming(apps: seq<Appointment>, i: nat, st: Status, now: int, today: int, next: nat)
    requires i < |apps| && IdsOk(apps, AppointmentId, next) && st != Booked
    requires apps[i].status == Booked && apps[i].date > today
    ensures CountLater(AfterStatus(apps, apps[i].id, st, now), apps[i].org, today) + 1 == CountLater(apps, apps[i].org, today)
  {
    var p := (a: Appointment) => a.id == apps[i].id;
    forall k | 0 <= k < i ensures !p(apps[k]) { assert AppointmentId(apps[k]) < AppointmentId(apps[i]); }
    IndexWhereFirst(apps, p, i);
    CountUpdate(apps, i, WithStatus(apps[i], st, now),
                (a: Appointment) => a.org == apps[i].org && a.date > today && a.status == Booked);
  }
}
