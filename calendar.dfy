/** The calendar-event result: its date check and its fields. Start and end dates follow the
    DATE and DATE-TIME forms of RFC 2445 (section 4.3.4 and 4.3.5): eight digits, optionally
    followed by `T`, six digits and, for UTC, `Z`. Java's `null` is `None`. */
module CalendarResult {
  import opened Base

  /** The characters at `lo .. hi` are all digits, checked one at a time from `lo` as the
      source's loops do. */
  predicate DigitsIn(s: string, lo: nat, hi: nat)
    requires lo <= hi <= |s|
    ensures DigitsIn(s, lo, hi) <==> (forall k :: lo <= k < hi ==> IsAsciiDigit(s[k]))
    decreases hi - lo
  {
    lo == hi || (IsAsciiDigit(s[lo]) && DigitsIn(s, lo + 1, hi))
  }

  /** `validateDate` on a non-null date: it passes exactly when this holds. */
  predicate ValidDate(date: string)
  {
    var length := |date|;
    (length == 8 || length == 15 || length == 16)
    && DigitsIn(date, 0, 8)
    && (length > 8 ==>
          date[8] == 'T'
          && DigitsIn(date, 9, 15)
          && (length == 16 ==> date[15] == 'Z'))
  }

  /** `validateDate`: a null date passes. */
  predicate ValidOptionalDate(date: Option<string>)
  {
    date.None? || ValidDate(date.value)
  }

  /** A date in its parts: the eight date digits, the six time digits of a DATE-TIME and
      whether that time is in UTC. */
  datatype DateValue = DateValue(day: string, time: Option<string>, utc: bool)

  predicate AllDigits(s: string)
  {
    forall k :: 0 <= k < |s| ==> IsAsciiDigit(s[k])
  }

  predicate WellFormed(v: DateValue)
  {
    |v.day| == 8 && AllDigits(v.day)
    && (v.time.Some? ==> |v.time.value| == 6 && AllDigits(v.time.value))
    && (v.utc ==> v.time.Some?)
  }

  /** The RFC 2445 text of a date. */
  function Format(v: DateValue): string
  {
    v.day + match v.time {
      case None => ""
      case Some(t) => "T" + t + (if v.utc then "Z" else "")
    }
  }

  /** The parts of a date string of one of the three lengths. */
  function Parts(date: string): DateValue
    requires |date| >= 8 && (|date| > 8 ==> |date| >= 15)
  {
    DateValue(date[..8], if |date| > 8 then Some(date[9..15]) else None, |date| == 16)
  }

  /** Every well-formed date passes the check. */
  lemma FormatValid(v: DateValue)
    requires WellFormed(v)
    ensures ValidDate(Format(v))
  {
    var s := Format(v);
    assert s[..8] == v.day;
    if v.time.Some? {
      assert s[9..15] == v.time.value;
    }
  }

  /** Every date that passes the check is the text of a well-formed date, namely of its parts,
      so the check accepts exactly the three RFC 2445 forms. */
  lemma ValidDateIsFormatted(date: string)
    requires ValidDate(date)
    ensures WellFormed(Parts(date)) && Format(Parts(date)) == date
  {
    var v := Parts(date);
    if |date| > 8 {
      assert date == date[..8] + "T" + date[9..15] + date[15..];
    } else {
      assert date == date[..8];
    }
  }

  /** Both directions together: a date passes exactly when it formats some well-formed date. */
  lemma ValidDateIffFormatted(date: string)
    ensures ValidDate(date) <==> exists v :: WellFormed(v) && Format(v) == date
  {
    if ValidDate(date) {
      ValidDateIsFormatted(date);
    }
    if exists v :: WellFormed(v) && Format(v) == date {
      var v :| WellFormed(v) && Format(v) == date;
      FormatValid(v);
    }
  }

  /** The calendar event as constructed; every field but `start` may be null. */
  datatype CalendarParsedResult = CalendarParsedResult(
    summary: Option<string>,
    start: string,
    end: Option<string>,
    location: Option<string>,
    attendee: Option<string>,
    title: Option<string>)
  {
    function GetSummary(): Option<string> { summary }
    function GetStart(): string { start }
    function GetEnd(): Option<string> { end }
    function GetLocation(): Option<string> { location }
    function GetAttendee(): Option<string> { attendee }
    function GetTitle(): Option<string> { title }
  }

  /** The constructor: it fails on a null start and on a start or end the date check refuses,
      and otherwise keeps every argument as given, which the getters return. */
  function NewCalendarParsedResult(
    summary: Option<string>, start: Option<string>, end: Option<string>,
    location: Option<string>, attendee: Option<string>, title: Option<string>
  ): (r: Outcome<CalendarParsedResult>)
    ensures r.Ok? <==> start.Some? && ValidDate(start.value) && ValidOptionalDate(end)
    ensures r.Ok? ==>
      && r.value.GetSummary() == summary && Some(r.value.GetStart()) == start
      && r.value.GetEnd() == end && r.value.GetLocation() == location
      && r.value.GetAttendee() == attendee && r.value.GetTitle() == title
  {
    if start.None? then Fail("IllegalArgumentException")
    else if !ValidDate(start.value) || !ValidOptionalDate(end) then Fail("IllegalArgumentException")
    else Ok(CalendarParsedResult(summary, start.value, end, location, attendee, title))
  }
}
