/** The registration forms: the organization form's field checks and its
    `clean_phone_number` and `clean_working_hours` hooks, and the template form's
    `clean_slot_range` hook. A text field first strips its input, then refuses
    an empty value or one over its maximum length; the hook then strips again and
    matches the value against its regular expression. */
module StaffForms {
  import opened Text
  import opened Clock
  import opened Schedule
  import opened StaffModels

  /** The outcome of cleaning a field: its cleaned value, or a validation error. */
  datatype Cleaned<T> = Accepted(value: T) | Rejected

  const TimeRangeMaxLength: nat := 50
  const PhoneFieldMaxLength: nat := 15
  const MinDuration: int := 5
  const MaxDuration: int := 180

  // ---------------------------------------------------------------- the range grammar

  /** `0[1-9]|1[0-2]`: a two-digit hour. */
  predicate FormHour(h: string) {
    |h| == 2 && ((h[0] == '0' && '1' <= h[1] <= '9') || (h[0] == '1' && '0' <= h[1] <= '2'))
  }

  /** `(0[1-9]|1[0-2]):[0-5][0-9]\s?(AM|PM)`, matched ignoring case. */
  predicate FormTime(t: string) {
    7 <= |t| <= 8 && FormHour(t[..2]) && t[2] == ':' && '0' <= t[3] <= '5' && IsDigit(t[4])
    && (|t| == 8 ==> IsSpace(t[5]))
    && Lower(t[|t| - 2..]) in {"am", "pm"}
  }

  /** The final time, which `$` lets one newline follow. */
  predicate FormTimeAtEnd(t: string) {
    FormTime(t) || (|t| > 0 && t[|t| - 1] == '\n' && FormTime(t[..|t| - 1]))
  }

  /** `^T\s-\sT$` with T the time above: exactly one '-' (no time contains one),
      with exactly one whitespace character on each side of it. */
  predicate FormRange(s: string) {
    var parts := Split(s, '-');
    |parts| == 2 && |parts[0]| > 0 && |parts[1]| > 0
    && IsSpace(parts[0][|parts[0]| - 1]) && IsSpace(parts[1][0])
    && FormTime(parts[0][..|parts[0]| - 1]) && FormTimeAtEnd(parts[1][1..])
  }

  /** A matching range is 17 to 20 characters long. */
  lemma FormRangeLength(s: string)
    requires FormRange(s)
    ensures 17 <= |s| <= 20
  {
    SplitTwoParts(s, '-');
  }

  /** Only a final newline could follow the second time, and a stripped value
      has none: on stripped text the range is exactly time, space, '-', space,
      time. */
  lemma FormRangeStripped(s: string)
    requires FormRange(s) && IsStripped(s)
    ensures FormTime(Split(s, '-')[1][1..])
  {
    var parts := Split(s, '-');
    SplitTwoParts(s, '-');
    var t := parts[1][1..];
    assert |t| > 0;
    assert s[|s| - 1] == t[|t| - 1];
    assert t[|t| - 1] != '\n';
  }

  // ---------------------------------------------------------------- field cleaning

  /** A text field: strip, refuse an empty value, then run the field's
      validators, which refuse an over-long value and one holding a NUL
      character. */
  function CharField(raw: string, maxLength: nat): (r: Cleaned<string>)
    ensures r.Accepted? <==> 0 < |Strip(raw)| <= maxLength && '\0' !in Strip(raw)
    ensures r.Accepted? ==> r.value == Strip(raw)
  {
    var v := Strip(raw);
    if v == [] || |v| > maxLength || '\0' in v then Rejected else Accepted(v)
  }

  /** No time of the form's grammar holds a NUL character. */
  lemma FormTimeNoNul(t: string)
    requires FormTime(t)
    ensures '\0' !in t
  {
    var m := t[|t| - 2..];
    var l := Lower(m);
    assert l[0] == LowerChar(m[0]) && l[1] == LowerChar(m[1]);
    forall k | 0 <= k < |t| ensures t[k] != '\0' {
      if k < 2 {
        assert t[k] == t[..2][k];
      } else if k >= |t| - 2 {
        assert t[k] == m[k - (|t| - 2)];
      }
    }
  }

  lemma FormTimeAtEndNoNul(t: string)
    requires FormTimeAtEnd(t)
    ensures '\0' !in t
  {
    if !FormTime(t) {
      var u := t[..|t| - 1];
      FormTimeNoNul(u);
      forall k | 0 <= k < |t| ensures t[k] != '\0' {
        if k < |u| { assert t[k] == u[k]; }
      }
    }
  }

  /** No range of the form's grammar holds a NUL character, so the field's NUL
      check never refuses one. */
  lemma FormRangeNoNul(s: string)
    requires FormRange(s)
    ensures '\0' !in s
  {
    var parts := Split(s, '-');
    SplitTwoParts(s, '-');
    var a, b := parts[0], parts[1];
    var a', b' := a[..|a| - 1], b[1..];
    FormTimeNoNul(a');
    FormTimeAtEndNoNul(b');
    forall k | 0 <= k < |s| ensures s[k] != '\0' {
      if k < |a'| {
        assert s[k] == a[k] == a'[k];
      } else if k == |a'| {
        assert s[k] == a[|a| - 1];
      } else if k == |a| {
        assert s[k] == '-';
      } else if k == |a| + 1 {
        assert s[k] == b[0];
      } else {
        assert s[k] == b[k - |a| - 1] == b'[k - |a| - 2];
      }
    }
  }

  /** `clean_slot_range` on its 50-character field, and equally
      `clean_working_hours`: a value is accepted exactly when its stripped text
      is a range of the grammar, and the stripped text is what is kept. */
  function CleanTimeRange(raw: string): (r: Cleaned<string>)
    ensures r.Accepted? <==> FormRange(Strip(raw))
    ensures r.Accepted? ==> r.value == Strip(raw)
  {
    StripIdempotent(raw);
    assert FormRange(Strip(raw)) ==> |Strip(raw)| <= TimeRangeMaxLength && '\0' !in Strip(raw) by {
      if FormRange(Strip(raw)) { FormRangeLength(Strip(raw)); FormRangeNoNul(Strip(raw)); }
    }
    match CharField(raw, TimeRangeMaxLength)
    case Rejected => Rejected
    case Accepted(v) =>
      var s := Strip(v);
      if FormRange(s) then Accepted(s) else Rejected
  }

  /** Cleaning a cleaned range gives it back unchanged. */
  lemma CleanTimeRangeIdempotent(raw: string)
    requires CleanTimeRange(raw).Accepted?
    ensures CleanTimeRange(CleanTimeRange(raw).value) == CleanTimeRange(raw)
  {
    StripIdempotent(raw);
  }

  /** `clean_phone_number` on its 15-character field: exactly ten ASCII digits
      once stripped. */
  function CleanPhoneNumber(raw: string): (r: Cleaned<string>)
    ensures r.Accepted? <==> TenDigits(Strip(raw))
    ensures r.Accepted? ==> r.value == Strip(raw)
  {
    match CharField(raw, PhoneFieldMaxLength)
    case Rejected => Rejected
    case Accepted(v) =>
      var tail := TenDigits(v[..|v| - 1]) && |v| == 11 && v[10] == '\n';
      assert tail ==> !IsStripped(v);
      if TenDigits(v) || tail then Accepted(v) else Rejected
  }

  /** The duration field's bounds. */
  predicate ValidDuration(d: int) { MinDuration <= d <= MaxDuration }

  /** A permitted duration is positive, so the slot loop advances, and a day holds
      at most 287 slots of it. */
  lemma DurationBoundsSlots(s: int, e: int, d: nat)
    requires ValidDuration(d) && IsMinuteOfDay(s) && IsMinuteOfDay(e)
    ensures d > 0 && |Slots(s, e, d)| <= 287
  {
    SlotsLength(s, e, d);
    if s <= e {
      FewDurations(e - s, d);
    }
  }

  /** At most 287 whole durations of five minutes or more fit in a day. */
  lemma FewDurations(x: int, d: nat)
    requires 0 <= x < 1440 && MinDuration <= d
    ensures x / d <= 287
  {
    var q := x / d;
    DivBounds(x, d);
    MulMono(5, d, q);
    assert 5 * q <= d * q <= x;
  }

  /** The cleaned fields of the organization form. */
  datatype OrgData = OrgData(
    orgName: string,
    serviceType: string,
    location: string,
    branchAddress: string,
    phoneNumber: string,
    workingHours: string,
    duration: nat)

  /** The raw submission of the organization form; the duration is given as
      the integer it was read as. */
  datatype OrgSubmission = OrgSubmission(
    orgName: string,
    serviceType: string,
    location: string,
    branchAddress: string,
    phoneNumber: string,
    workingHours: string,
    duration: int)

  /** The whole organization form: every field must clean, the service type must
      be one of the choices, and the duration must lie in its bounds. */
  function CleanOrganizationForm(f: OrgSubmission): (r: Cleaned<OrgData>)
    ensures r.Accepted? <==>
      && 0 < |Strip(f.orgName)| <= 100 && '\0' !in Strip(f.orgName)
      && f.serviceType in ServiceChoices
      && 0 < |Strip(f.location)| <= 150 && '\0' !in Strip(f.location)
      && 0 < |Strip(f.branchAddress)| <= 200 && '\0' !in Strip(f.branchAddress)
      && TenDigits(Strip(f.phoneNumber))
      && FormRange(Strip(f.workingHours))
      && ValidDuration(f.duration)
    ensures r.Accepted? ==>
      && r.value.orgName == Strip(f.orgName)
      && r.value.location == Strip(f.location)
      && r.value.branchAddress == Strip(f.branchAddress)
      && r.value.phoneNumber == Strip(f.phoneNumber)
      && r.value.workingHours == Strip(f.workingHours)
      && r.value.serviceType == f.serviceType
      && r.value.duration == f.duration
  {
    var name, loc, addr := CharField(f.orgName, 100), CharField(f.location, 150), CharField(f.branchAddress, 200);
    var phone, hours := CleanPhoneNumber(f.phoneNumber), CleanTimeRange(f.workingHours);
    if name.Accepted? && f.serviceType in ServiceChoices && loc.Accepted? && addr.Accepted?
       && phone.Accepted? && hours.Accepted? && ValidDuration(f.duration)
    then Accepted(OrgData(name.value, f.serviceType, loc.value, addr.value, phone.value, hours.value, f.duration))
    else Rejected
  }

  // ---------------------------------------------------------------- against the model validator

  /** A letter that the form accepts in either case. */
  predicate NoLowerCase(s: string) { forall k :: 0 <= k < |s| ==> !('a' <= s[k] <= 'z') }

  lemma FormTimeInModel(t: string)
    requires FormTime(t) && NoLowerCase(t)
    ensures ModelTime(t) && t[|t| - 1] == 'M'
  {
    var m := t[|t| - 2..];
    assert m[0] == t[|t| - 2] && m[1] == t[|t| - 1];
    var l := Lower(m);
    assert l == "am" || l == "pm";
    assert LowerChar(m[0]) == l[0] && LowerChar(m[1]) == l[1];
    assert m[1] == 'M';
    assert m[0] == 'A' || m[0] == 'P';
    assert m == [m[0], m[1]];
    assert ModelTimeAt(t, 2);
  }

  lemma FormTimeAtEndInModel(t: string)
    requires FormTimeAtEnd(t) && NoLowerCase(t)
    ensures ModelTimeAtEnd(t)
  {
    if FormTime(t) {
      FormTimeInModel(t);
    } else {
      var u := t[..|t| - 1];
      assert forall k :: 0 <= k < |u| ==> u[k] == t[k];
      FormTimeInModel(u);
    }
  }

  /** The pieces of a text without lower-case letters have none either. */
  lemma NoLowerCaseInParts(s: string, p0: string, p1: string)
    requires s == p0 + ['-'] + p1 && NoLowerCase(s) && |p0| > 0 && |p1| > 0
    ensures NoLowerCase(p0[..|p0| - 1]) && NoLowerCase(p1[1..])
  {
    forall k | 0 <= k < |p0| - 1 ensures !('a' <= p0[k] <= 'z') { assert p0[k] == s[k]; }
    forall k | 1 <= k < |p1| ensures !('a' <= p1[k] <= 'z') { assert p1[k] == s[|p0| + 1 + k]; }
  }

  /** One trailing whitespace character after a non-space goes with `rstrip`. */
  lemma RStripOne(p: string)
    requires |p| >= 2 && IsSpace(p[|p| - 1]) && !IsSpace(p[|p| - 2])
    ensures RStrip(p) == p[..|p| - 1]
  {
    assert p[|p| - 1..] == [p[|p| - 1]];
    TrailingSpaceIs(p, 1);
  }

  /** One leading whitespace character before a non-space goes with `lstrip`. */
  lemma LStripOne(p: string)
    requires |p| >= 2 && IsSpace(p[0]) && !IsSpace(p[1])
    ensures LStrip(p) == p[1..]
  {
    assert p[..1] == [p[0]];
    LeadingSpaceIs(p, 1);
  }

  /** With the meridiems in capitals, every range the form accepts is also
      accepted by the model's validator, which allows more: a one-digit hour and
      any whitespace around '-'. */
  lemma FormRangeInModel(s: string)
    requires FormRange(s) && NoLowerCase(s)
    ensures TimeRangeValidator(s)
  {
    var parts := Split(s, '-');
    SplitTwoParts(s, '-');
    NoLowerCaseInParts(s, parts[0], parts[1]);
    PartsInModel(parts[0], parts[1]);
  }

  /** The two sides of a form range, each a time with one whitespace character
      next to the '-', strip to times the model's validator accepts. */
  lemma PartsInModel(p0: string, p1: string)
    requires |p0| > 0 && |p1| > 0 && IsSpace(p0[|p0| - 1]) && IsSpace(p1[0])
    requires FormTime(p0[..|p0| - 1]) && FormTimeAtEnd(p1[1..])
    requires NoLowerCase(p0[..|p0| - 1]) && NoLowerCase(p1[1..])
    ensures ModelTime(RStrip(p0)) && ModelTimeAtEnd(LStrip(p1))
  {
    var a, b := p0[..|p0| - 1], p1[1..];
    FormTimeInModel(a);
    FormTimeAtEndInModel(b);
    assert p0[|p0| - 2] == a[|a| - 1];
    RStripOne(p0);
    assert p1[1] == b[0] && IsDigit(b[0]);
    LStripOne(p1);
  }
}

/** Concrete submissions that show where the form's grammar, the model's
    validator and the slot parser part ways. */
module StaffFormsExamples {
  import opened Text
  import opened Clock
  import opened ClockExamples
  import opened StaffForms

  lemma SplitTenAmRange()
    ensures Split("9:00 AM - 10:00 AM", '-') == ["9:00 AM ", " 10:00 AM"]
  {
    assert "9:00 AM - 10:00 AM" == "9:00 AM " + ['-'] + " 10:00 AM";
    SplitTwo("9:00 AM ", '-', " 10:00 AM");
  }

  lemma StripTenAmRange()
    ensures Strip("9:00 AM - 10:00 AM") == "9:00 AM - 10:00 AM"
  {
    StripPadded([], "9:00 AM - 10:00 AM", []);
    assert [] + "9:00 AM - 10:00 AM" + [] == "9:00 AM - 10:00 AM";
  }

  /** The form refuses a one-digit hour, although the slot parser reads it. */
  lemma SingleDigitHourRejected()
    ensures CleanTimeRange("9:00 AM - 10:00 AM") == Rejected
    ensures ParseTemplate("9:00 AM - 10:00 AM").Some?
  {
    SplitTenAmRange();
    StripTenAmRange();
    var t := "9:00 AM ";
    assert t[..|t| - 1][2] == '0';
    SingleDigitHourParses();
  }

  lemma SplitCompactRange()
    ensures Split("9:00-8:00PM", '-') == ["9:00", "8:00PM"]
  {
    assert "9:00-8:00PM" == "9:00" + ['-'] + "8:00PM";
    SplitTwo("9:00", '-', "8:00PM");
  }

  lemma StripCompactRange()
    ensures Strip("9:00-8:00PM") == "9:00-8:00PM"
  {
    StripPadded([], "9:00-8:00PM", []);
    assert [] + "9:00-8:00PM" + [] == "9:00-8:00PM";
  }

  /** The form refuses a range with no space around '-'. */
  lemma MissingSpaceRejected()
    ensures CleanTimeRange("9:00-8:00PM") == Rejected
  {
    SplitCompactRange();
    StripCompactRange();
  }

  lemma SplitCompactMeridiem()
    ensures Split("09:00AM - 10:00AM", '-') == ["09:00AM ", " 10:00AM"]
  {
    assert "09:00AM - 10:00AM" == "09:00AM " + ['-'] + " 10:00AM";
    SplitTwo("09:00AM ", '-', " 10:00AM");
  }

  lemma StripCompactMeridiem()
    ensures Strip("09:00AM - 10:00AM") == "09:00AM - 10:00AM"
  {
    StripPadded([], "09:00AM - 10:00AM", []);
    assert [] + "09:00AM - 10:00AM" + [] == "09:00AM - 10:00AM";
  }

  lemma CompactTimesMatch()
    ensures FormTime("09:00AM") && FormTime("10:00AM")
  {
    assert Lower("AM") == "am";
  }

  lemma CompactRangeMatches()
    ensures FormRange("09:00AM - 10:00AM")
  {
    SplitCompactMeridiem();
    CompactTimesMatch();
    var p0, p1 := "09:00AM ", " 10:00AM";
    assert p0[..|p0| - 1] == "09:00AM";
    assert p1[1..] == "10:00AM";
  }

  /** The form accepts a range with no space before the meridiems, and the slot
      parser then reads no slot from it. */
  lemma AcceptedRangeNeedNotParse()
    ensures CleanTimeRange("09:00AM - 10:00AM") == Accepted("09:00AM - 10:00AM")
    ensures ParseTemplate("09:00AM - 10:00AM") == None
  {
    StripCompactMeridiem();
    CompactRangeMatches();
    CompactMeridiemDoesNotParse();
  }
}
