/** The staff side's records (organization, time-slot template, holiday) and the
    two regex validators declared on their fields. The validators run only when
    a model instance is fully cleaned; the views create rows directly, so here
    they are predicates that other modules compare against. */
module StaffModels {
  import opened Text

  /** The service types an organization may declare. */
  const ServiceChoices: seq<string> := ["clinic", "salon", "consultancy", "hospital"]

  /** One organization (a branch offering a service). `duration` is the
      appointment length in minutes; `disabledSince` is a day number. */
  datatype Organization = Organization(
    id: nat,
    staff: nat,
    orgName: string,
    serviceType: string,
    location: string,
    branchAddress: string,
    phoneNumber: string,
    workingHours: string,
    duration: nat,
    createdAt: int,
    isActive: bool,
    disabledSince: Option<int>)

  /** A time-slot template: a range text such as "09:00 AM - 01:00 PM". */
  datatype TimeSlot = TimeSlot(id: nat, org: nat, slotRange: string, isActive: bool)

  /** A day on which an organization takes no bookings. Nothing makes (org, date)
      unique. */
  datatype Holiday = Holiday(id: nat, org: nat, date: int)

  /** The service is switched off exactly when it records the day it was. */
  predicate ServiceStatusConsistent(o: Organization) {
    o.isActive <==> o.disabledSince.None?
  }

  /** A new organization starts active, with no disabling date. */
  function NewOrganization(id: nat, staff: nat, orgName: string, serviceType: string, location: string,
                           branchAddress: string, phoneNumber: string, workingHours: string,
                           duration: nat, now: int): (o: Organization)
    ensures o.isActive && o.disabledSince == None && ServiceStatusConsistent(o)
    ensures o.id == id && o.staff == staff && o.duration == duration && o.createdAt == now
    ensures o.orgName == orgName && o.serviceType == serviceType && o.location == location
    ensures o.branchAddress == branchAddress && o.phoneNumber == phoneNumber && o.workingHours == workingHours
  {
    Organization(id, staff, orgName, serviceType, location, branchAddress, phoneNumber, workingHours,
                 duration, now, true, None)
  }

  /** A new template starts active. */
  function NewTimeSlot(id: nat, org: nat, slotRange: string): (t: TimeSlot)
    ensures t.isActive && t.id == id && t.org == org && t.slotRange == slotRange
  {
    TimeSlot(id, org, slotRange, true)
  }

  // ---------------------------------------------------------------- phone_validator

  /** Ten ASCII digits. */
  predicate TenDigits(s: string) { |s| == 10 && AllDigits(s) }

  /** `^\d{10}$` as a validator applies it: `$` also matches just before one
      final newline. */
  predicate PhoneValidator(s: string) {
    TenDigits(s) || (|s| == 11 && TenDigits(s[..10]) && s[10] == '\n')
  }

  /** On text without a line break the validator accepts exactly ten digits. */
  lemma PhoneValidatorExact(s: string)
    requires '\n' !in s
    ensures PhoneValidator(s) <==> TenDigits(s)
  {
    if |s| == 11 { assert s[10] in s; }
  }

  // ---------------------------------------------------------------- time_range_validator

  /** `0?[1-9]|1[0-2]`: an hour of one or two digits. */
  predicate ModelHour(h: string) {
    (|h| == 1 && '1' <= h[0] <= '9')
    || (|h| == 2 && h[0] == '0' && '1' <= h[1] <= '9')
    || (|h| == 2 && h[0] == '1' && '0' <= h[1] <= '2')
  }

  /** A time whose hour has `n` characters: hour ':' `[0-5][0-9]`, at most one
      whitespace, then AM or PM in capitals. */
  predicate ModelTimeAt(t: string, n: nat) {
    n + 5 <= |t| <= n + 6 && ModelHour(t[..n]) && t[n] == ':'
    && '0' <= t[n + 1] <= '5' && IsDigit(t[n + 2])
    && (|t| == n + 6 ==> IsSpace(t[n + 3]))
    && t[|t| - 2..] in {"AM", "PM"}
  }

  /** `(0?[1-9]|1[0-2]):[0-5][0-9]\s?(AM|PM)`. */
  predicate ModelTime(t: string) { ModelTimeAt(t, 1) || ModelTimeAt(t, 2) }

  /** The final time, which `$` lets one newline follow. */
  predicate ModelTimeAtEnd(t: string) {
    ModelTime(t) || (|t| > 0 && t[|t| - 1] == '\n' && ModelTime(t[..|t| - 1]))
  }

  /** `^T\s*-\s*T$` with T the time above. No time contains '-', so a match has
      exactly one '-'; the first time ends in 'M' and the second starts with a
      digit, so the whitespace runs around '-' are what `rstrip` and `lstrip`
      remove from the two sides. */
  predicate TimeRangeValidator(s: string) {
    var parts := Split(s, '-');
    |parts| == 2 && ModelTime(RStrip(parts[0])) && ModelTimeAtEnd(LStrip(parts[1]))
  }

  // ---------------------------------------------------------------- holidays

  /** A holiday row exists for the organization and date: an existence test, so
      how many rows there are does not matter. */
  predicate HasHoliday(hs: seq<Holiday>, org: nat, date: int) {
    exists i :: 0 <= i < |hs| && hs[i].org == org && hs[i].date == date
  }

  /** Adding a holiday that is already recorded changes no day's holiday status. */
  lemma DuplicateHolidayInert(hs: seq<Holiday>, h: Holiday, org: nat, date: int)
    requires HasHoliday(hs, h.org, h.date)
    ensures HasHoliday(hs + [h], org, date) <==> HasHoliday(hs, org, date)
  {
    var hs2 := hs + [h];
    if HasHoliday(hs2, org, date) {
      var i :| 0 <= i < |hs2| && hs2[i].org == org && hs2[i].date == date;
      if i == |hs| {
        var j :| 0 <= j < |hs| && hs[j].org == h.org && hs[j].date == h.date;
        assert hs[j].org == org && hs[j].date == date;
      } else {
        assert hs[i] == hs2[i];
      }
    }
    if HasHoliday(hs, org, date) {
      var i :| 0 <= i < |hs| && hs[i].org == org && hs[i].date == date;
      assert hs2[i] == hs[i];
    }
  }
}
