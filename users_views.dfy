/** The customer's side: the branch page that lists a day's slots and takes a
    booking, the slot listing of `book_slot`, and the registration password
    rules. */
module UsersViews {
  import opened Text
  import opened Clock
  import opened Schedule
  import opened StaffModels
  import opened BookingsModels
  import opened StaffForms
  import opened Tables
  import opened Database

  /** One listed slot: its key, whether it may be booked, and whether it belongs
      to a switched-off template. */
  datatype SlotEntry = SlotEntry(slotStr: string, available: bool, disabled: bool)

  /** The slots cut from one template, under the template's text. */
  datatype Group = Group(title: string, slots: seq<SlotEntry>)

  // ---------------------------------------------------------------- one template

  /** The entry for the slot from `a` to `b`: available exactly when no
      appointment of any status holds its key. */
  function Entry(apps: seq<Appointment>, org: nat, date: int, a: int, b: int): (r: SlotEntry)
    requires IsMinuteOfDay(a) && IsMinuteOfDay(b)
    ensures r.slotStr == SlotKey(a, b) && !r.disabled
    ensures r.available <==> !Taken(apps, org, date, r.slotStr)
  {
    var key := SlotKey(a, b);
    SlotEntry(key, !Taken(apps, org, date, key), false)
  }

  /** The entries the slot loop lists for a template read as `s` to `e`. */
  function Entries(apps: seq<Appointment>, org: nat, date: int, s: int, e: int, d: nat): seq<SlotEntry>
    requires d > 0 && 0 <= s && e < 1440
    decreases e - s
  {
    if s + d <= e then [Entry(apps, org, date, s, s + d)] + Entries(apps, org, date, s + d, e, d) else []
  }

  /** The entries are the slots of `Schedule.Slots`, one for one and in order:
      each lists its slot's key and is available exactly when no appointment of
      any status holds that key. */
  lemma {:induction false} EntriesFollowSlots(apps: seq<Appointment>, org: nat, date: int, s: int, e: int, d: nat)
    requires d > 0 && IsMinuteOfDay(s) && IsMinuteOfDay(e)
    ensures |Entries(apps, org, date, s, e, d)| == |Slots(s, e, d)|
    ensures forall k :: 0 <= k < |Slots(s, e, d)| ==>
      && s <= Slots(s, e, d)[k].0 < Slots(s, e, d)[k].1 <= e
      && Entries(apps, org, date, s, e, d)[k] == Entry(apps, org, date, Slots(s, e, d)[k].0, Slots(s, e, d)[k].1)
    decreases e - s
  {
    if s + d <= e {
      EntriesFollowSlots(apps, org, date, s + d, e, d);
      var en, sl := Entries(apps, org, date, s + d, e, d), Slots(s + d, e, d);
      assert Entries(apps, org, date, s, e, d) == [Entry(apps, org, date, s, s + d)] + en;
      assert Slots(s, e, d) == [(s, s + d)] + sl;
      forall k | 0 < k < |Slots(s, e, d)|
        ensures Slots(s, e, d)[k] == sl[k - 1] && Entries(apps, org, date, s, e, d)[k] == en[k - 1]
      {
      }
    }
  }

  /** As many entries are listed as whole slots fit between the two times. */
  lemma EntriesCount(apps: seq<Appointment>, org: nat, date: int, s: int, e: int, d: nat)
    requires d > 0 && IsMinuteOfDay(s) && IsMinuteOfDay(e)
    ensures |Entries(apps, org, date, s, e, d)| == SlotCount(s, e, d)
  {
    EntriesFollowSlots(apps, org, date, s, e, d);
    SlotsLength(s, e, d);
  }

  /** Entry `k` of a template is the slot starting `k` durations after its
      start. */
  lemma EntryAt(apps: seq<Appointment>, org: nat, date: int, s: int, e: int, d: nat, k: nat)
    requires d > 0 && IsMinuteOfDay(s) && IsMinuteOfDay(e) && k < |Entries(apps, org, date, s, e, d)|
    ensures IsMinuteOfDay(s + k * d) && IsMinuteOfDay(s + (k + 1) * d)
    ensures Entries(apps, org, date, s, e, d)[k].slotStr == SlotKey(s + k * d, s + (k + 1) * d)
    ensures Entries(apps, org, date, s, e, d)[k].available <==> !Taken(apps, org, date, SlotKey(s + k * d, s + (k + 1) * d))
  {
    EntriesFollowSlots(apps, org, date, s, e, d);
    SlotAt(s, e, d, k);
  }

  /** No slot key is listed twice for one template. */
  lemma EntriesDistinct(apps: seq<Appointment>, org: nat, date: int, s: int, e: int, d: nat, i: nat, j: nat)
    requires d > 0 && IsMinuteOfDay(s) && IsMinuteOfDay(e)
    requires i < j < |Entries(apps, org, date, s, e, d)|
    ensures Entries(apps, org, date, s, e, d)[i].slotStr != Entries(apps, org, date, s, e, d)[j].slotStr
  {
    EntriesFollowSlots(apps, org, date, s, e, d);
    var sl := Slots(s, e, d);
    SlotsIncreasing(s, e, d, i, j);
    if Entries(apps, org, date, s, e, d)[i].slotStr == Entries(apps, org, date, s, e, d)[j].slotStr {
      SlotKeyInjective(sl[i].0, sl[i].1, sl[j].0, sl[j].1);
    }
  }

  /** Appending the entry of the first slot moves the boundary between listed and
      remaining entries by one slot. */
  lemma AppendStep(entries: seq<SlotEntry>, entry: SlotEntry, apps: seq<Appointment>, org: nat, date: int, current: int, e: int, d: nat)
    requires d > 0 && IsMinuteOfDay(current) && IsMinuteOfDay(e) && current + d <= e
    requires entry == Entry(apps, org, date, current, current + d)
    ensures (entries + [entry]) + Entries(apps, org, date, current + d, e, d) == entries + Entries(apps, org, date, current, e, d)
  {
    ghost var later := Entries(apps, org, date, current + d, e, d);
    assert Entries(apps, org, date, current, e, d) == [entry] + later;
    assert entries + ([entry] + later) == (entries + [entry]) + later;
  }

  /** The `while current + d <= end` loop of the branch page: each pass looks
      up the key of the slot starting at `current` and moves on by `d`. */
  method ExpandTemplate(apps: seq<Appointment>, org: nat, date: int, s: int, e: int, d: nat)
    returns (entries: seq<SlotEntry>)
    requires d > 0 && IsMinuteOfDay(s) && IsMinuteOfDay(e)
    ensures entries == Entries(apps, org, date, s, e, d)
  {
    entries := [];
    var current := s;
    while current + d <= e
      invariant IsMinuteOfDay(current)
      invariant entries + Entries(apps, org, date, current, e, d) == Entries(apps, org, date, s, e, d)
      decreases e - current
    {
      entries := SlotPass(apps, org, date, current, e, d, entries);
      current := current + d;
    }
  }

  /** One pass of the slot loop: the entry of the slot starting at `current`
      goes on the end of the list. */
  method SlotPass(apps: seq<Appointment>, org: nat, date: int, current: int, e: int, d: nat, entries: seq<SlotEntry>)
    returns (entries': seq<SlotEntry>)
    requires d > 0 && IsMinuteOfDay(current) && IsMinuteOfDay(e) && current + d <= e
    ensures entries' + Entries(apps, org, date, current + d, e, d) == entries + Entries(apps, org, date, current, e, d)
  {
    var next := current + d;
    var slotStr := SlotKey(current, next);
    var booked := Taken(apps, org, date, slotStr);
    var entry := SlotEntry(slotStr, !booked, false);
    entries' := entries + [entry];
    AppendStep(entries, entry, apps, org, date, current, e, d);
  }

  // ---------------------------------------------------------------- the branch page

  /** A template whose text splits into two readable times. */
  predicate Parses(t: TimeSlot) { ParseTemplate(t.slotRange).Some? }

  /** The group a template contributes on the branch page, or none when its text
      does not read. */
  function TemplateGroup(apps: seq<Appointment>, org: nat, date: int, d: nat, t: TimeSlot): (r: Option<Group>)
    requires d > 0
    ensures r.Some? <==> Parses(t)
    ensures r.Some? ==> r.value.title == t.slotRange
  {
    match ParseTemplate(t.slotRange)
    case None => None
    case Some(b) => Some(Group(t.slotRange, Entries(apps, org, date, b.0, b.1, d)))
  }

  /** The groups of the branch page for the templates `ts`, in order. */
  function Groups(apps: seq<Appointment>, org: nat, date: int, d: nat, ts: seq<TimeSlot>): seq<Group>
    requires d > 0
  {
    FilterMap(ts, (t: TimeSlot) => TemplateGroup(apps, org, date, d, t))
  }

  /** Exactly the readable templates contribute, one group each, in order: a
      template that does not read is skipped and the ones after it still count. */
  lemma GroupsOfReadable(apps: seq<Appointment>, org: nat, date: int, d: nat, ts: seq<TimeSlot>)
    requires d > 0
    ensures |Groups(apps, org, date, d, ts)| == |Filter(ts, Parses)|
    ensures forall k :: 0 <= k < |Groups(apps, org, date, d, ts)| ==>
      TemplateGroup(apps, org, date, d, Filter(ts, Parses)[k]).Some?
      && Groups(apps, org, date, d, ts)[k] == TemplateGroup(apps, org, date, d, Filter(ts, Parses)[k]).value
  {
    FilterMapAt(ts, (t: TimeSlot) => TemplateGroup(apps, org, date, d, t), Parses);
  }

  /** Templates processed one after another: the groups of a concatenation are
      the concatenation of the groups. */
  lemma GroupsConcat(apps: seq<Appointment>, org: nat, date: int, d: nat, a: seq<TimeSlot>, b: seq<TimeSlot>)
    requires d > 0
    ensures Groups(apps, org, date, d, a + b) == Groups(apps, org, date, d, a) + Groups(apps, org, date, d, b)
  {
    FilterMapConcat(a, b, (t: TimeSlot) => TemplateGroup(apps, org, date, d, t));
  }

  /** The organization's templates (`org.time_slots.all()`), in id order. */
  function OrgTemplates(ts: seq<TimeSlot>, org: nat): (r: seq<TimeSlot>)
    ensures forall k :: 0 <= k < |r| ==> r[k].org == org
  {
    FilterSatisfies(ts, (t: TimeSlot) => t.org == org);
    Filter(ts, (t: TimeSlot) => t.org == org)
  }

  /** What the page shows for a day: the groups, and whether it is a holiday. */
  datatype DayView = DayView(groups: seq<Group>, holiday: bool)

  /** The day's listing: nothing without a readable date; on a holiday the flag
      and no groups, whatever the templates; otherwise the groups of the
      organization's templates. */
  function DaySlots(apps: seq<Appointment>, hs: seq<Holiday>, ts: seq<TimeSlot>, org: Organization, date: Option<int>): (r: DayView)
    requires org.duration > 0
    ensures r.holiday <==> date.Some? && HasHoliday(hs, org.id, date.value)
    ensures r.holiday ==> r.groups == []
  {
    match date
    case None => DayView([], false)
    case Some(day) =>
      if HasHoliday(hs, org.id, day) then DayView([], true)
      else DayView(Groups(apps, org.id, day, org.duration, OrgTemplates(ts, org.id)), false)
  }

  /** The branch page's listing loop over the organization's templates: a
      template that does not read is passed over with `continue`. */
  method ListDay(apps: seq<Appointment>, hs: seq<Holiday>, ts: seq<TimeSlot>, org: Organization, date: Option<int>)
    returns (view: DayView)
    requires org.duration > 0
    ensures view == DaySlots(apps, hs, ts, org, date)
  {
    if date.None? { return DayView([], false); }
    var day := date.value;
    if HasHoliday(hs, org.id, day) { return DayView([], true); }
    var groups := ListGroups(apps, org.id, day, org.duration, OrgTemplates(ts, org.id));
    return DayView(groups, false);
  }

  /** The loop itself, over the organization's templates `slots`. */
  method ListGroups(apps: seq<Appointment>, org: nat, day: int, d: nat, slots: seq<TimeSlot>) returns (groups: seq<Group>)
    requires d > 0
    ensures groups == Groups(apps, org, day, d, slots)
  {
    groups := [];
    var i := 0;
    while i < |slots|
      invariant 0 <= i <= |slots|
      invariant groups == Groups(apps, org, day, d, slots[..i])
    {
      groups := DayPass(apps, org, day, d, slots, i, groups);
      i := i + 1;
    }
    assert slots[..|slots|] == slots;
  }

  /** One pass of the branch page's listing loop: the template's group, if its
      text reads, goes after the groups of the templates before it. */
  method DayPass(apps: seq<Appointment>, org: nat, day: int, d: nat, slots: seq<TimeSlot>, i: nat, groups: seq<Group>)
    returns (groups': seq<Group>)
    requires d > 0 && i < |slots| && groups == Groups(apps, org, day, d, slots[..i])
    ensures groups' == Groups(apps, org, day, d, slots[..i + 1])
  {
    var t := slots[i];
    assert slots[..i + 1] == slots[..i] + [t];
    FilterMapSnoc(slots[..i], t, (t: TimeSlot) => TemplateGroup(apps, org, day, d, t));
    var bounds := ParseTemplate(t.slotRange);
    if bounds.None? { return groups; }
    var entries := ExpandTemplate(apps, org, day, bounds.value.0, bounds.value.1, d);
    return groups + [Group(t.slotRange, entries)];
  }

  // ---------------------------------------------------------------- booking

  /** Why a booking was refused. */
  datatype Refusal = MissingField | BadPhone | HolidayDate | SlotTaken | CapReached

  /** The verdict of the booking guards: a refusal, a date the parser rejects
      (an uncaught error), or admission with the stripped name and phone. */
  datatype Verdict = Refuse(reason: Refusal) | DateError | Admit(name: string, phone: string, date: int)

  /** The booking guards, in the order the page applies them. The name and phone
      are stripped; `date` is what the date text parses to, if anything. */
  function Admission(apps: seq<Appointment>, hs: seq<Holiday>, org: nat, user: nat,
                     rawName: string, rawPhone: string, dateText: string, date: Option<int>, slot: string): (r: Verdict)
    ensures r == Refuse(MissingField) <==> Strip(rawName) == [] || Strip(rawPhone) == [] || dateText == [] || slot == []
    ensures r == Refuse(BadPhone) <==>
      Strip(rawName) != [] && Strip(rawPhone) != [] && dateText != [] && slot != [] && !TenDigits(Strip(rawPhone))
    ensures r.Admit? <==>
      && Strip(rawName) != [] && TenDigits(Strip(rawPhone)) && dateText != [] && slot != []
      && date.Some? && !HasHoliday(hs, org, date.value) && !Taken(apps, org, date.value, slot)
      && BookedAt(apps, user, org) < MaxActivePerOrg
    ensures r.Admit? ==> r == Admit(Strip(rawName), Strip(rawPhone), date.value)
    ensures r == DateError <==>
      Strip(rawName) != [] && TenDigits(Strip(rawPhone)) && dateText != [] && slot != [] && date.None?
    ensures r == Refuse(HolidayDate) <==>
      && Strip(rawName) != [] && TenDigits(Strip(rawPhone)) && dateText != [] && slot != []
      && date.Some? && HasHoliday(hs, org, date.value)
    ensures r == Refuse(SlotTaken) <==>
      && Strip(rawName) != [] && TenDigits(Strip(rawPhone)) && dateText != [] && slot != []
      && date.Some? && !HasHoliday(hs, org, date.value) && Taken(apps, org, date.value, slot)
    ensures r == Refuse(CapReached) <==>
      && Strip(rawName) != [] && TenDigits(Strip(rawPhone)) && dateText != [] && slot != []
      && date.Some? && !HasHoliday(hs, org, date.value) && !Taken(apps, org, date.value, slot)
      && BookedAt(apps, user, org) >= MaxActivePerOrg
  {
    var name, phone := Strip(rawName), Strip(rawPhone);
    if name == [] || phone == [] || dateText == [] || slot == [] then Refuse(MissingField)
    else if !TenDigits(phone) then Refuse(BadPhone)
    else if date.None? then DateError
    else if HasHoliday(hs, org, date.value) then Refuse(HolidayDate)
    else if Taken(apps, org, date.value, slot) then Refuse(SlotTaken)
    else if BookedAt(apps, user, org) >= MaxActivePerOrg then Refuse(CapReached)
    else Admit(name, phone, date.value)
  }

  /** A cancelled appointment still holds its slot: whoever asks for that key on
      that day is never admitted, however the other guards turn out. */
  lemma CancelledRowStillBlocks(apps: seq<Appointment>, hs: seq<Holiday>, i: nat, user: nat,
                                rawName: string, rawPhone: string, dateText: string)
    requires i < |apps| && apps[i].status == Cancelled
    ensures !Admission(apps, hs, apps[i].org, user, rawName, rawPhone, dateText, Some(apps[i].date), apps[i].timeSlot).Admit?
  {
  }

  /** Cancelling and booking again does not give the slot back: after the
      status change the same request is refused at the slot guard. */
  lemma CancelThenRebookRefused(apps: seq<Appointment>, hs: seq<Holiday>, i: nat, now: int, user: nat,
                                rawName: string, rawPhone: string, dateText: string)
    requires i < |apps| && !HasHoliday(hs, apps[i].org, apps[i].date)
    requires Strip(rawName) != [] && TenDigits(Strip(rawPhone)) && dateText != [] && apps[i].timeSlot != []
    ensures Admission(SetStatus(apps, apps[i].id, Cancelled, now), hs, apps[i].org, user, rawName, rawPhone,
                      dateText, Some(apps[i].date), apps[i].timeSlot) == Refuse(SlotTaken)
  {
    SetStatusKeepsTaken(apps, apps[i].id, Cancelled, now, apps[i].org, apps[i].date, apps[i].timeSlot);
  }

  /** A holiday refuses the booking even when the slot is also taken: the
      holiday guard comes first. */
  lemma HolidayBeforeSlot(apps: seq<Appointment>, hs: seq<Holiday>, org: nat, user: nat,
                          rawName: string, rawPhone: string, dateText: string, date: int, slot: string)
    requires Strip(rawName) != [] && TenDigits(Strip(rawPhone)) && dateText != [] && slot != []
    requires HasHoliday(hs, org, date)
    ensures Admission(apps, hs, org, user, rawName, rawPhone, dateText, Some(date), slot) == Refuse(HolidayDate)
  {
  }

  /** A taken slot is reported as taken even to a user at the cap: the slot
      guard comes before the cap guard. */
  lemma SlotBeforeCap(apps: seq<Appointment>, hs: seq<Holiday>, org: nat, user: nat,
                      rawName: string, rawPhone: string, dateText: string, date: int, slot: string)
    requires Strip(rawName) != [] && TenDigits(Strip(rawPhone)) && dateText != [] && slot != []
    requires !HasHoliday(hs, org, date) && Taken(apps, org, date, slot)
    ensures Admission(apps, hs, org, user, rawName, rawPhone, dateText, Some(date), slot) == Refuse(SlotTaken)
  {
  }

  /** The row an admitted booking inserts. */
  function BookedRow(v: Verdict, id: nat, user: nat, org: nat, slot: string, now: int): (a: Appointment)
    requires v.Admit?
    ensures a.status == Booked && a.org == org && a.user == user && a.timeSlot == slot
    ensures a.name == v.name && a.phone == v.phone && a.date == v.date && a.id == id && a.updatedAt == now
  {
    NewAppointment(id, user, org, v.name, v.date, slot, v.phone, now)
  }

  /** Inserting an admitted booking keeps one row per slot key and every user
      within the cap, and the inserted phone fits its column. */
  lemma AdmittedRowKeepsInvariants(apps: seq<Appointment>, hs: seq<Holiday>, org: nat, user: nat,
                                   rawName: string, rawPhone: string, dateText: string, date: Option<int>,
                                   slot: string, id: nat, now: int)
    requires OneRowPerSlot(apps) && WithinCap(apps)
    requires Admission(apps, hs, org, user, rawName, rawPhone, dateText, date, slot).Admit?
    ensures var a := BookedRow(Admission(apps, hs, org, user, rawName, rawPhone, dateText, date, slot), id, user, org, slot, now);
      OneRowPerSlot(apps + [a]) && WithinCap(apps + [a]) && |a.phone| <= PhoneMaxLength
  {
    var v := Admission(apps, hs, org, user, rawName, rawPhone, dateText, date, slot);
    AppendKeepsInvariants(apps, BookedRow(v, id, user, org, slot, now));
  }

  /** The active organization with that id (`get_object_or_404(..., is_active=True)`). */
  function ActiveOrg(orgs: seq<Organization>, id: nat): (r: Option<Organization>)
    ensures r.Some? ==> r.value in orgs && r.value.id == id && r.value.isActive
    ensures r.None? ==> forall k :: 0 <= k < |orgs| ==> orgs[k].id != id || !orgs[k].isActive
  {
    match IndexWhere(orgs, (o: Organization) => o.id == id && o.isActive)
    case None => None
    case Some(i) => Some(orgs[i])
  }

  /** A booking submission: the raw name and phone, the date text (the
      submitted one, else the query's) and what it parses to, if anything, and
      the chosen slot key. */
  datatype BookingPost = BookingPost(userName: string, phone: string, dateText: string, date: Option<int>, selectedSlot: string)

  /** What the branch page answers: not found, the page itself, the page again
      with an error and the day's groups, a redirect back with an error, an
      uncaught error, or the confirmation. */
  datatype BranchResult =
    | NotFound
    | Shown(view: DayView)
    | Refused(reason: Refusal, groups: seq<Group>)
    | Redirected(reason: Refusal)
    | ServerError
    | Confirmed(appointment: Appointment)

  /** A holiday and a full cap send the user back to the page; the other
      refusals render it again with the listing already built. */
  function RefusalAnswer(why: Refusal, view: DayView): (r: BranchResult)
    ensures r.Redirected? <==> why == HolidayDate || why == CapReached
    ensures r.Redirected? || r.Refused?
    ensures r.reason == why
    ensures r.Refused? ==> r.groups == view.groups
  {
    if why == HolidayDate || why == CapReached then Redirected(why) else Refused(why, view.groups)
  }

  /** A booking submission: the guards, then one new `Booked` row under the
      next id when they all pass. Only the appointment table and the id counter
      can change. */
  method Submit(db: Store, orgId: nat, user: nat, p: BookingPost, now: int) returns (v: Verdict, booked: Option<Appointment>)
    requires db.Valid()
    modifies db
    ensures db.Valid()
    ensures db.orgs == old(db.orgs) && db.templates == old(db.templates) && db.holidays == old(db.holidays)
    ensures v == Admission(old(db.appointments), old(db.holidays), orgId, user, p.userName, p.phone, p.dateText, p.date, p.selectedSlot)
    ensures v.Admit? ==>
      && booked == Some(BookedRow(v, old(db.nextId), user, orgId, p.selectedSlot, now))
      && db.appointments == old(db.appointments) + [booked.value] && db.nextId == old(db.nextId) + 1
    ensures !v.Admit? ==> booked == None && db.appointments == old(db.appointments) && db.nextId == old(db.nextId)
  {
    v := Admission(db.appointments, db.holidays, orgId, user, p.userName, p.phone, p.dateText, p.date, p.selectedSlot);
    if !v.Admit? { return v, None; }
    var a := BookedRow(v, db.nextId, user, orgId, p.selectedSlot, now);
    AdmittedRowKeepsInvariants(db.appointments, db.holidays, orgId, user, p.userName, p.phone, p.dateText, p.date,
                               p.selectedSlot, db.nextId, now);
    InsertAppointment(db, a);
    return v, Some(a);
  }

  /** `Appointment.objects.create`: the row goes at the end under the next id. */
  method InsertAppointment(db: Store, a: Appointment)
    requires db.Valid() && a.id == db.nextId
    requires OneRowPerSlot(db.appointments + [a]) && WithinCap(db.appointments + [a])
    modifies db
    ensures db.Valid()
    ensures db.appointments == old(db.appointments) + [a] && db.nextId == old(db.nextId) + 1
    ensures db.orgs == old(db.orgs) && db.templates == old(db.templates) && db.holidays == old(db.holidays)
  {
    IdsAppend(db.appointments, a, AppointmentId, db.nextId);
    IdsRaise(db.orgs, OrgId, db.nextId, db.nextId + 1);
    IdsRaise(db.templates, TemplateId, db.nextId, db.nextId + 1);
    IdsRaise(db.holidays, HolidayId, db.nextId, db.nextId + 1);
    db.appointments := db.appointments + [a];
    db.nextId := db.nextId + 1;
  }

  /** The branch page: look the organization up, list the day, and on a
      submission run the booking guards, inserting one `Booked` row when they
      all pass. */
  method BranchDetails(db: Store, orgId: nat, user: nat, listDate: Option<int>, post: Option<BookingPost>, now: int)
    returns (r: BranchResult)
    requires db.Valid()
    modifies db
    ensures db.Valid()
    ensures db.orgs == old(db.orgs) && db.templates == old(db.templates) && db.holidays == old(db.holidays)
    ensures ActiveOrg(old(db.orgs), orgId).None? || post.None? ==>
      db.appointments == old(db.appointments) && db.nextId == old(db.nextId)
    ensures ActiveOrg(old(db.orgs), orgId).None? ==> r == NotFound
    ensures ActiveOrg(old(db.orgs), orgId).Some? ==>
      var view := DaySlots(old(db.appointments), old(db.holidays), old(db.templates), ActiveOrg(old(db.orgs), orgId).value, listDate);
      match post
      case None => r == Shown(view)
      case Some(p) =>
        match Admission(old(db.appointments), old(db.holidays), orgId, user, p.userName, p.phone, p.dateText, p.date, p.selectedSlot)
        case Refuse(why) =>
          r == RefusalAnswer(why, view) && db.appointments == old(db.appointments) && db.nextId == old(db.nextId)
        case DateError => r == ServerError && db.appointments == old(db.appointments) && db.nextId == old(db.nextId)
        case Admit(name, phone, date) =>
          && r == Confirmed(BookedRow(Admit(name, phone, date), old(db.nextId), user, orgId, p.selectedSlot, now))
          && db.appointments == old(db.appointments) + [r.appointment] && db.nextId == old(db.nextId) + 1
  {
    var found := ActiveOrg(db.orgs, orgId);
    if found.None? { return NotFound; }
    var org := found.value;
    var k :| 0 <= k < |db.orgs| && db.orgs[k] == org;
    var view := ListDay(db.appointments, db.holidays, db.templates, org, listDate);
    if post.None? { return Shown(view); }
    var v, booked := Submit(db, orgId, user, post.value, now);
    match v {
      case Refuse(why) => return RefusalAnswer(why, view);
      case DateError => return ServerError;
      case Admit(_, _, _) => return Confirmed(booked.value);
    }
  }

  // ---------------------------------------------------------------- book_slot

  /** The group `book_slot` builds for a template: the single disabled entry of
      a switched-off template, the slots of an active one, or `None` where
      reading an active template's text raises. */
  function ListingGroup(apps: seq<Appointment>, org: nat, date: int, d: nat, t: TimeSlot): (r: Option<Group>)
    requires d > 0
    ensures !t.isActive ==> r == Some(Group(t.slotRange, [SlotEntry(t.slotRange, false, true)]))
    ensures t.isActive ==> r == TemplateGroup(apps, org, date, d, t)
  {
    if !t.isActive then Some(Group(t.slotRange, [SlotEntry(t.slotRange, false, true)]))
    else TemplateGroup(apps, org, date, d, t)
  }

  /** All of `book_slot`'s groups, or `None` when one template makes it raise. */
  function Listing(apps: seq<Appointment>, org: nat, date: int, d: nat, ts: seq<TimeSlot>): Option<seq<Group>>
    requires d > 0
  {
    MapAll(ts, (t: TimeSlot) => ListingGroup(apps, org, date, d, t))
  }

  /** `book_slot` fails exactly when some active template does not read, and
      otherwise lists one group per template, in order. */
  lemma ListingFails(apps: seq<Appointment>, org: nat, date: int, d: nat, ts: seq<TimeSlot>)
    requires d > 0
    ensures Listing(apps, org, date, d, ts).None? <==> exists k :: 0 <= k < |ts| && ts[k].isActive && !Parses(ts[k])
    ensures Listing(apps, org, date, d, ts).Some? ==> |Listing(apps, org, date, d, ts).value| == |ts|
  {
    var f := (t: TimeSlot) => ListingGroup(apps, org, date, d, t);
    MapAllNone(ts, f);
    assert forall k :: 0 <= k < |ts| ==> (f(ts[k]).None? <==> ts[k].isActive && !Parses(ts[k]));
  }

  /** When every template is active, `book_slot`'s groups are the branch page's
      groups. */
  lemma ListingAgreesWithBranch(apps: seq<Appointment>, org: nat, date: int, d: nat, ts: seq<TimeSlot>)
    requires d > 0
    requires forall k :: 0 <= k < |ts| ==> ts[k].isActive
    ensures Listing(apps, org, date, d, ts).Some? ==> Listing(apps, org, date, d, ts).value == Groups(apps, org, date, d, ts)
  {
    var f := (t: TimeSlot) => ListingGroup(apps, org, date, d, t);
    var g := (t: TimeSlot) => TemplateGroup(apps, org, date, d, t);
    assert forall k :: 0 <= k < |ts| ==> f(ts[k]) == g(ts[k]);
    if MapAll(ts, f).Some? {
      MapAllIsFilterMap(ts, f, g);
    }
  }

  /** `book_slot`'s loop over the templates: a switched-off one gets its
      disabled entry, an active one its slots, and one that does not read ends
      the request with an error. */
  method ListTemplates(apps: seq<Appointment>, org: nat, day: int, d: nat, slots: seq<TimeSlot>)
    returns (r: Option<seq<Group>>)
    requires d > 0
    ensures r == Listing(apps, org, day, d, slots)
  {
    var groups: seq<Group> := [];
    var i := 0;
    while i < |slots|
      invariant 0 <= i <= |slots|
      invariant Listing(apps, org, day, d, slots[..i]) == Some(groups)
    {
      var next := ListingPass(apps, org, day, d, slots, i, groups);
      if next.None? {
        ListingFailsOnward(apps, org, day, d, slots, i + 1);
        return None;
      }
      groups := next.value;
      i := i + 1;
    }
    assert slots[..|slots|] == slots;
    return Some(groups);
  }

  /** One pass of `book_slot`'s loop: template `i`'s group goes after the
      groups of the templates before it, or the request fails here. */
  method ListingPass(apps: seq<Appointment>, org: nat, day: int, d: nat, slots: seq<TimeSlot>, i: nat, groups: seq<Group>)
    returns (r: Option<seq<Group>>)
    requires d > 0 && i < |slots| && Listing(apps, org, day, d, slots[..i]) == Some(groups)
    ensures r == Listing(apps, org, day, d, slots[..i + 1])
  {
    var t := slots[i];
    assert slots[..i + 1] == slots[..i] + [t];
    MapAllSnoc(slots[..i], t, (t: TimeSlot) => ListingGroup(apps, org, day, d, t));
    if !t.isActive { return Some(groups + [Group(t.slotRange, [SlotEntry(t.slotRange, false, true)])]); }
    var bounds := ParseTemplate(t.slotRange);
    if bounds.None? { return None; }
    var entries := ExpandTemplate(apps, org, day, bounds.value.0, bounds.value.1, d);
    return Some(groups + [Group(t.slotRange, entries)]);
  }

  /** Once a template has made `book_slot` fail, the later ones do not matter. */
  lemma ListingFailsOnward(apps: seq<Appointment>, org: nat, day: int, d: nat, slots: seq<TimeSlot>, n: nat)
    requires d > 0 && n <= |slots| && Listing(apps, org, day, d, slots[..n]).None?
    ensures Listing(apps, org, day, d, slots).None?
  {
    MapAllConcat(slots[..n], slots[n..], (t: TimeSlot) => ListingGroup(apps, org, day, d, t));
    assert slots[..n] + slots[n..] == slots;
  }

  /** What `book_slot` keeps in the session for the confirmation step. */
  datatype BookingInfo = BookingInfo(userName: string, phone: string, orgId: nat, date: string)

  datatype ListingResult =
    | ListingNotFound
    | ListingForm
    | ListingError
    | HolidayRedirect
    | Listed(groups: seq<Group>, info: BookingInfo)

  /** `book_slot`: look the organization up; on a submission refuse a holiday,
      then build every template's group and hand back what goes into the
      session. No table is written: it takes no store it could change. */
  method BookSlot(orgs: seq<Organization>, apps: seq<Appointment>, hs: seq<Holiday>, ts: seq<TimeSlot>,
                  orgId: nat, isPost: bool, userName: string, phone: string, dateText: string, date: Option<int>)
    returns (r: ListingResult)
    requires forall k :: 0 <= k < |orgs| ==> orgs[k].duration > 0
    ensures ActiveOrg(orgs, orgId).None? ==> r == ListingNotFound
    ensures ActiveOrg(orgs, orgId).Some? ==>
      var org := ActiveOrg(orgs, orgId).value;
      if !isPost then r == ListingForm
      else if date.None? then r == ListingError
      else if HasHoliday(hs, orgId, date.value) then r == HolidayRedirect
      else match Listing(apps, orgId, date.value, org.duration, OrgTemplates(ts, orgId))
        case None => r == ListingError
        case Some(gs) => r == Listed(gs, BookingInfo(userName, phone, orgId, dateText))
  {
    var found := ActiveOrg(orgs, orgId);
    if found.None? { return ListingNotFound; }
    var org := found.value;
    var k :| 0 <= k < |orgs| && orgs[k] == org;
    if !isPost { return ListingForm; }
    if date.None? { return ListingError; }
    if HasHoliday(hs, orgId, date.value) { return HolidayRedirect; }
    var listing := ListTemplates(apps, orgId, date.value, org.duration, OrgTemplates(ts, orgId));
    if listing.None? { return ListingError; }
    return Listed(listing.value, BookingInfo(userName, phone, orgId, dateText));
  }

  // ---------------------------------------------------------------- registration

  predicate HasAsciiLetter(s: string) { exists k :: 0 <= k < |s| && IsAsciiLetter(s[k]) }

  predicate HasAsciiDigit(s: string) { exists k :: 0 <= k < |s| && IsDigit(s[k]) }

  datatype PasswordVerdict = PasswordOk | TooShort | NeedsLetterAndDigit | Mismatch

  /** The customer registration's password rules, checked in this order: at
      least 4 characters, a letter and a digit, equal to its confirmation. */
  function UserPasswordCheck(password: string, confirm: string): (r: PasswordVerdict)
    ensures r == PasswordOk <==> |password| >= 4 && HasAsciiLetter(password) && HasAsciiDigit(password) && password == confirm
    ensures r == TooShort <==> |password| < 4
    ensures r == NeedsLetterAndDigit <==> |password| >= 4 && !(HasAsciiLetter(password) && HasAsciiDigit(password))
    ensures r == Mismatch <==>
      |password| >= 4 && HasAsciiLetter(password) && HasAsciiDigit(password) && password != confirm
  {
    if |password| < 4 then TooShort
    else if !HasAsciiLetter(password) || !HasAsciiDigit(password) then NeedsLetterAndDigit
    else if password != confirm then Mismatch
    else PasswordOk
  }
}
