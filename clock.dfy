/** Times of day as `branch_details` and `book_slot` handle them: a template
    half is read with `strptime(..., "%I:%M %p")`, a slot bound is written with
    `strftime("%I:%M %p")`, and a slot's key joins two written bounds with an
    en-dash. A time of day is a number of minutes since midnight, 0..1439. */
module Clock {
  import opened Text

  predicate IsMinuteOfDay(m: int) { 0 <= m < 1440 }

  // ---------------------------------------------------------------- strftime

  function TwoDigits(n: nat): (r: string)
    requires n < 100
    ensures |r| == 2 && AllDigits(r)
    ensures DigitValue(r[0]) * 10 + DigitValue(r[1]) == n
  {
    [DigitChar(n / 10), DigitChar(n % 10)]
  }

  /** The 12-hour clock hour, 1..12, of a 24-hour hour. */
  function Hour12(h: nat): (r: nat)
    ensures 1 <= r <= 12
  {
    if h % 12 == 0 then 12 else h % 12
  }

  /** `strftime("%I:%M %p")` in the C locale: zero-padded 12-hour hour, colon,
      zero-padded minute, one space, upper-case AM or PM. */
  function FormatClock(m: int): (r: string)
    requires IsMinuteOfDay(m)
    ensures |r| == 8 && r[2] == ':' && r[5] == ' ' && r[7] == 'M'
  {
    var h := m / 60;
    TwoDigits(Hour12(h)) + ":" + TwoDigits(m % 60) + " " + (if h < 12 then "AM" else "PM")
  }

  // ---------------------------------------------------------------- strptime

  /** The `%I` field: `1[0-2]|0[1-9]|[1-9]`. */
  function HourToken(h: string): (r: Option<nat>)
    ensures r.Some? ==> 1 <= r.value <= 12 && 1 <= |h| <= 2 && AllDigits(h)
  {
    if |h| == 2 && h[0] == '1' && '0' <= h[1] <= '2' then Some(10 + DigitValue(h[1]))
    else if |h| == 2 && h[0] == '0' && '1' <= h[1] <= '9' then Some(DigitValue(h[1]))
    else if |h| == 1 && '1' <= h[0] <= '9' then Some(DigitValue(h[0]))
    else None
  }

  /** The `%M` field: `[0-5]\d|\d`. */
  function MinuteToken(m: string): (r: Option<nat>)
    ensures r.Some? ==> r.value < 60 && 1 <= |m| <= 2 && AllDigits(m)
  {
    if |m| == 2 && '0' <= m[0] <= '5' && IsDigit(m[1]) then Some(DigitValue(m[0]) * 10 + DigitValue(m[1]))
    else if |m| == 1 && IsDigit(m[0]) then Some(DigitValue(m[0]))
    else None
  }

  /** The `%p` field, matched ignoring case: `Some(true)` for PM. */
  function MeridiemToken(p: string): Option<bool> {
    if |p| == 2 && LowerChar(p[1]) == 'm' && LowerChar(p[0]) == 'a' then Some(false)
    else if |p| == 2 && LowerChar(p[1]) == 'm' && LowerChar(p[0]) == 'p' then Some(true)
    else None
  }

  /** `strptime`'s conversion of a 12-hour hour and meridiem to a 24-hour hour. */
  function To24(h: nat, pm: bool): (r: nat)
    requires 1 <= h <= 12
    ensures r < 24 && (r < 12 <==> !pm)
  {
    if pm then (if h == 12 then 12 else h + 12) else (if h == 12 then 0 else h)
  }

  /** Index of the first ':' (or |s| if there is none). */
  function ColonIndex(s: string): (i: nat)
    ensures i <= |s| && ':' !in s[..i] && (i < |s| ==> s[i] == ':')
  {
    if |s| == 0 || s[0] == ':' then 0
    else
      var i := 1 + ColonIndex(s[1..]);
      assert s[..i] == [s[0]] + s[1..][..i - 1];
      i
  }

  /** Length of the leading run of ASCII digits. */
  function DigitRun(s: string): (n: nat)
    ensures n <= |s| && AllDigits(s[..n]) && (n < |s| ==> !IsDigit(s[n]))
  {
    if |s| > 0 && IsDigit(s[0]) then
      var n := 1 + DigitRun(s[1..]);
      assert s[..n] == [s[0]] + s[1..][..n - 1];
      n
    else 0
  }

  /** `strptime(s, "%I:%M %p").time()` as a partial function: the format's space
      stands for one or more whitespace characters, the whole string must be
      consumed, and nothing else is accepted. The hour is the text before the
      first colon, the minute the digit run after it, then a non-empty
      whitespace run and a two-letter meridiem ending the string. */
  function ParseClock(s: string): (r: Option<int>)
    ensures r.Some? ==> IsMinuteOfDay(r.value)
  {
    var i := ColonIndex(s);
    if i == |s| then None else ParseFields(s, i, i + 1 + DigitRun(s[i + 1..]))
  }

  /** The fields once the colon is at `i` and the minute's digits end at `j`:
      the hour before the colon, the minute between, at least one whitespace
      character, and the meridiem as the last two characters. */
  function ParseFields(s: string, i: nat, j: nat): (r: Option<int>)
    requires i < j <= |s|
    ensures r.Some? ==> IsMinuteOfDay(r.value)
  {
    if |s| - j < 3 then None
    else
      var h, mm, ap := HourToken(s[..i]), MinuteToken(s[i + 1..j]), MeridiemToken(s[|s| - 2..]);
      if h.None? || mm.None? || ap.None? || !AllSpace(s[j..|s| - 2]) then None
      else Some(To24(h.value, ap.value) * 60 + mm.value)
  }

  /** `s` has the shape hour ':' minute whitespace+ meridiem with the hour ending
      before index `i` and the minute ending before index `j`. */
  ghost predicate ClockShape(s: string, i: int, j: int) {
    && 0 < i && i + 1 < j && j + 2 < |s|
    && HourToken(s[..i]).Some? && s[i] == ':' && MinuteToken(s[i + 1..j]).Some?
    && AllSpace(s[j..|s| - 2]) && MeridiemToken(s[|s| - 2..]).Some?
  }

  /** The value that a string of that shape stands for. */
  ghost function ShapeValue(s: string, i: int, j: int): int
    requires ClockShape(s, i, j)
  {
    To24(HourToken(s[..i]).value, MeridiemToken(s[|s| - 2..]).value) * 60 + MinuteToken(s[i + 1..j]).value
  }

  lemma {:induction false} ColonIndexIs(s: string, i: nat)
    requires i < |s| && s[i] == ':' && AllDigits(s[..i])
    ensures ColonIndex(s) == i
  {
    if i > 0 {
      assert s[..i][0] == s[0];
      var u := s[1..][..i - 1];
      assert forall k :: 0 <= k < i - 1 ==> u[k] == s[..i][k + 1];
      ColonIndexIs(s[1..], i - 1);
    }
  }

  lemma {:induction false} DigitRunIs(s: string, n: nat)
    requires n < |s| && AllDigits(s[..n]) && !IsDigit(s[n])
    ensures DigitRun(s) == n
  {
    if n > 0 {
      assert s[..n][0] == s[0];
      var u := s[1..][..n - 1];
      assert forall k :: 0 <= k < n - 1 ==> u[k] == s[..n][k + 1];
      DigitRunIs(s[1..], n - 1);
    }
  }

  /** The parser accepts exactly the strings of the clock grammar, and reads
      each one as the time its fields denote. */
  lemma ParseClockGrammar(s: string)
    ensures ParseClock(s).Some? <==> exists i, j :: ClockShape(s, i, j)
    ensures forall i, j :: ClockShape(s, i, j) ==> ParseClock(s) == Some(ShapeValue(s, i, j))
  {
    if ParseClock(s).Some? {
      var i := ColonIndex(s);
      var j := i + 1 + DigitRun(s[i + 1..]);
      SuffixSlices(s, i + 1, j);
      assert ClockShape(s, i, j);
    }
    forall i, j | ClockShape(s, i, j) ensures ParseClock(s) == Some(ShapeValue(s, i, j)) {
      ShapeParses(s, i, j);
    }
  }

  /** Slices of a suffix are slices of the whole. */
  lemma SuffixSlices<T>(s: seq<T>, a: nat, b: nat)
    requires a <= b <= |s|
    ensures s[a..][..b - a] == s[a..b] && s[a..][b - a..] == s[b..]
  {
  }

  lemma ShapeParses(s: string, i: int, j: int)
    requires ClockShape(s, i, j)
    ensures ParseClock(s) == Some(ShapeValue(s, i, j))
  {
    ColonIndexIs(s, i);
    SuffixSlices(s, i + 1, j);
    assert s[j..|s| - 2][0] == s[j];
    DigitRunIs(s[i + 1..], j - i - 1);
  }

  /** The two digits written for an hour of the 12-hour clock read back as it. */
  lemma HourDigits(n: nat)
    requires 1 <= n <= 12
    ensures HourToken(TwoDigits(n)) == Some(n)
  {
  }

  /** The two digits written for a minute read back as it. */
  lemma MinuteDigits(n: nat)
    requires n < 60
    ensures MinuteToken(TwoDigits(n)) == Some(n)
  {
    var t := TwoDigits(n);
    assert DigitValue(t[0]) == n / 10;
  }

  /** The fields of a written time of day. */
  lemma FormatClockFields(m: int)
    requires IsMinuteOfDay(m)
    ensures var s := FormatClock(m);
      && s[..2] == TwoDigits(Hour12(m / 60)) && s[2] == ':' && s[3..5] == TwoDigits(m % 60)
      && s[5..6] == " " && s[6..] == (if m / 60 < 12 then "AM" else "PM")
  {
  }

  /** Reading back a written time of day gives the same time of day. */
  lemma ClockRoundTrip(m: int)
    requires IsMinuteOfDay(m)
    ensures ParseClock(FormatClock(m)) == Some(m)
  {
    var s := FormatClock(m);
    var h := m / 60;
    FormatClockFields(m);
    HourDigits(Hour12(h));
    MinuteDigits(m % 60);
    assert s[3..5] == s[2 + 1..5];
    assert s[|s| - 2..] == s[6..];
    assert MeridiemToken(s[6..]) == Some(h >= 12);
    assert ClockShape(s, 2, 5);
    assert To24(Hour12(h), h >= 12) == h;
    ShapeParses(s, 2, 5);
  }

  /** Distinct times of day are written differently. */
  lemma FormatClockInjective(a: int, b: int)
    requires IsMinuteOfDay(a) && IsMinuteOfDay(b) && FormatClock(a) == FormatClock(b)
    ensures a == b
  {
    ClockRoundTrip(a);
    ClockRoundTrip(b);
  }

  // ---------------------------------------------------------------- templates and keys

  /** The en-dash that separates the two bounds of a slot key. */
  const EnDash: char := '\U{2013}'

  /** `f"{start:%I:%M %p} – {end:%I:%M %p}"`: the display string of a slot and the
      value stored in `Appointment.time_slot`. */
  function SlotKey(a: int, b: int): (r: string)
    requires IsMinuteOfDay(a) && IsMinuteOfDay(b)
    ensures |r| == 19 && r[..8] == FormatClock(a) && r[11..] == FormatClock(b)
  {
    FormatClock(a) + [' ', EnDash, ' '] + FormatClock(b)
  }

  /** Equal keys name equal slots: matching bookings by key string is matching by bounds. */
  lemma SlotKeyInjective(a: int, b: int, c: int, d: int)
    requires IsMinuteOfDay(a) && IsMinuteOfDay(b) && IsMinuteOfDay(c) && IsMinuteOfDay(d)
    requires SlotKey(a, b) == SlotKey(c, d)
    ensures a == c && b == d
  {
    FormatClockInjective(a, c);
    FormatClockInjective(b, d);
  }

  /** Both halves of a template read, or nothing. */
  function BothHalves(a: Option<int>, b: Option<int>): Option<(int, int)> {
    if a.Some? && b.Some? then Some((a.value, b.value)) else None
  }

  /** `[t.strip() for t in slot_range.split("-")]` unpacked into two halves,
      each read with `strptime`; `None` where the source raises. */
  function ParseTemplate(range: string): (r: Option<(int, int)>)
    ensures r.Some? ==> IsMinuteOfDay(r.value.0) && IsMinuteOfDay(r.value.1)
  {
    var parts := Split(range, '-');
    if |parts| != 2 then None
    else BothHalves(ParseClock(Strip(parts[0])), ParseClock(Strip(parts[1])))
  }

  /** A template with one hyphen is read half by half. */
  lemma TemplateHalves(a: string, b: string)
    requires '-' !in a && '-' !in b
    ensures ParseTemplate(a + "-" + b) == BothHalves(ParseClock(Strip(a)), ParseClock(Strip(b)))
  {
    assert a + "-" + b == a + ['-'] + b;
    SplitTwo(a, '-', b);
  }

  lemma NoDashInClock(m: int)
    requires IsMinuteOfDay(m)
    ensures '-' !in FormatClock(m) + " " && '-' !in " " + FormatClock(m)
  {
    var f := FormatClock(m);
    assert forall k :: 0 <= k < 8 ==> f[k] != '-' by {
      assert f[..2] == TwoDigits(Hour12(m / 60)) && f[3..5] == TwoDigits(m % 60);
      assert f[6] == 'A' || f[6] == 'P';
      assert forall k :: 0 <= k < 2 ==> f[k] == f[..2][k] && f[k + 3] == f[3..5][k];
    }
    assert forall k :: 0 <= k < 9 ==> (f + " ")[k] != '-';
    assert forall k :: 0 <= k < 9 ==> (" " + f)[k] != '-';
  }

  lemma Regroup(x: string, y: string)
    ensures x + " - " + y == (x + " ") + "-" + (" " + y)
  {
  }

  /** A template written in the canonical `"%I:%M %p - %I:%M %p"` form parses back
      to the two times it was written from. */
  lemma TemplateRoundTrip(a: int, b: int)
    requires IsMinuteOfDay(a) && IsMinuteOfDay(b)
    ensures ParseTemplate(FormatClock(a) + " - " + FormatClock(b)) == Some((a, b))
  {
    var fa, fb := FormatClock(a), FormatClock(b);
    ClockStripped(a);
    ClockStripped(b);
    StripBlankAfter(fa);
    StripBlankBefore(fb);
    NoDashInClock(a);
    NoDashInClock(b);
    TemplateHalves(fa + " ", " " + fb);
    ClockRoundTrip(a);
    ClockRoundTrip(b);
    Regroup(fa, fb);
  }

  /** A written time neither starts nor ends with whitespace. */
  lemma ClockStripped(m: int)
    requires IsMinuteOfDay(m)
    ensures IsStripped(FormatClock(m))
  {
    FormatClockFields(m);
    var f := FormatClock(m);
    assert f[0] == f[..2][0];
  }

  lemma StripBlankAfter(t: string)
    requires IsStripped(t)
    ensures Strip(t + " ") == t
  {
    StripPadded([], t, " ");
    assert [] + t + " " == t + " ";
  }

  lemma StripBlankBefore(t: string)
    requires IsStripped(t)
    ensures Strip(" " + t) == t
  {
    StripPadded(" ", t, []);
    assert " " + t + [] == " " + t;
  }
}

/** Worked examples of the clock grammar on concrete templates. */
module ClockExamples {
  import opened Text
  import opened Clock

  lemma CompactClockDoesNotParse()
    ensures ParseClock("09:00AM") == None
  {
    var h := "09:00AM";
    ColonIndexIs(h, 2);
    assert h[3..] == "00AM";
    DigitRunIs(h[3..], 2);
  }

  lemma StripCompactNine()
    ensures Strip("09:00AM ") == "09:00AM"
  {
    StripPadded([], "09:00AM", " ");
    assert [] + "09:00AM" + " " == "09:00AM ";
  }

  /** `strptime` needs whitespace before the meridiem, so the compact form that the
      registration form admits is not a parseable template. */
  lemma CompactMeridiemDoesNotParse()
    ensures ParseTemplate("09:00AM - 10:00AM") == None
  {
    assert "09:00AM - 10:00AM" == "09:00AM " + "-" + " 10:00AM";
    TemplateHalves("09:00AM ", " 10:00AM");
    StripCompactNine();
    CompactClockDoesNotParse();
  }

  lemma StripNine()
    ensures Strip("9:00") == "9:00"
  {
    StripPadded([], "9:00", []);
    assert [] + "9:00" + [] == "9:00";
  }

  lemma NineNoMeridiem()
    ensures ParseClock("9:00") == None
  {
    ParseClockGrammar("9:00");
  }

  /** A half without a meridiem is not read. */
  lemma MissingMeridiemDoesNotParse()
    ensures ParseTemplate("9:00-8:00PM") == None
  {
    assert "9:00-8:00PM" == "9:00" + "-" + "8:00PM";
    TemplateHalves("9:00", "8:00PM");
    StripNine();
    NineNoMeridiem();
  }

  lemma NineAm()
    ensures ParseClock("9:00 AM") == Some(540)
  {
    assert ClockShape("9:00 AM", 1, 4);
    ShapeParses("9:00 AM", 1, 4);
  }

  lemma TenAm()
    ensures ParseClock("10:00 AM") == Some(600)
  {
    ClockRoundTrip(600);
    assert FormatClock(600) == "10:00 AM";
  }

  lemma StripNineAm()
    ensures Strip("9:00 AM ") == "9:00 AM"
  {
    StripPadded([], "9:00 AM", " ");
    assert [] + "9:00 AM" + " " == "9:00 AM ";
  }

  lemma StripTenAm()
    ensures Strip(" 10:00 AM") == "10:00 AM"
  {
    StripPadded(" ", "10:00 AM", []);
    assert " " + "10:00 AM" + [] == " 10:00 AM";
  }

  /** `strptime` reads a single-digit hour, which the registration form rejects. */
  lemma SingleDigitHourParses()
    ensures ParseTemplate("9:00 AM - 10:00 AM") == Some((540, 600))
  {
    assert "9:00 AM - 10:00 AM" == "9:00 AM " + "-" + " 10:00 AM";
    TemplateHalves("9:00 AM ", " 10:00 AM");
    NineAm();
    TenAm();
    StripNineAm();
    StripTenAm();
  }

  lemma ZeroNineAm()
    ensures ParseClock("09:00 AM") == Some(540)
  {
    ClockRoundTrip(540);
    assert FormatClock(540) == "09:00 AM";
  }

  lemma MidnightAm()
    ensures ParseClock("12:00 AM") == Some(0)
  {
    ClockRoundTrip(0);
    assert FormatClock(0) == "12:00 AM";
  }

  lemma StripZeroNineAm()
    ensures Strip("09:00 AM ") == "09:00 AM"
  {
    StripPadded([], "09:00 AM", " ");
    assert [] + "09:00 AM" + " " == "09:00 AM ";
  }

  lemma StripMidnightAm()
    ensures Strip(" 12:00 AM") == "12:00 AM"
  {
    StripPadded(" ", "12:00 AM", []);
    assert " " + "12:00 AM" + [] == " 12:00 AM";
  }

  /** An end of 12:00 AM is midnight at the start of the day, before any start. */
  lemma MidnightEndParses()
    ensures ParseTemplate("09:00 AM - 12:00 AM") == Some((540, 0))
  {
    assert "09:00 AM - 12:00 AM" == "09:00 AM " + "-" + " 12:00 AM";
    TemplateHalves("09:00 AM ", " 12:00 AM");
    ZeroNineAm();
    MidnightAm();
    StripZeroNineAm();
    StripMidnightAm();
  }
}
