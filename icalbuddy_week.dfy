/**
 * The icalBuddy variant of the weekly calendar fetch,
 * scripts/fetch_calendar_week_icalbuddy.py: the command line handed to
 * icalBuddy, the reading of its `|@|`-separated output lines into events,
 * and the week payload with plain `YYYY-MM-DD` bounds. Date-time fields are
 * read as in the main fetch script, except that a day-only field is
 * stripped first and an all-day flag is `yes` only.
 */
module IcalbuddyWeek {
  import opened Wrappers
  import opened Text
  import opened Json
  import opened Dates
  import opened Steps
  import opened FetchCalendar
  import Archive

  // ------------------------------------------------------------- command

  /** The properties asked for, in the order the fields come out, and the `-po` argument naming them. */
  const PropertyNames: seq<string> := ["title", "calendarName", "allDayEvent", "datetime", "location", "notes"]
  const Properties := Join(PropertyNames, ",")

  /** The command of `run_icalbuddy` before any calendar filter is put in. */
  function BaseCommand(start: Date, end: Date): (cmd: seq<string>)
    requires ValidDate(start) && ValidDate(end)
    ensures |cmd| == 13
  {
    ["icalBuddy", "-b", "", "--dateFormat", "%Y-%m-%d", "--timeFormat", "%H:%M",
     "-po", Properties, "-ps", FieldSep,
     "eventsFrom:" + DateText(start), "to:" + DateText(end)]
  }

  /** `cmd[1:1] = ["-ic", ",".join(calendars)]` when a non-empty calendar list is given. */
  function Command(start: Date, end: Date, calendars: Option<seq<string>>): (cmd: seq<string>)
    requires ValidDate(start) && ValidDate(end)
    ensures calendars.Some? && |calendars.value| > 0 ==>
      (|cmd| == 15 && cmd[1] == "-ic" && cmd[2] == Join(calendars.value, ",")
       && cmd[..1] + cmd[3..] == BaseCommand(start, end))
    ensures calendars.None? || |calendars.value| == 0 ==> cmd == BaseCommand(start, end)
  {
    var base := BaseCommand(start, end);
    if calendars.Some? && |calendars.value| > 0 then
      var cmd := base[..1] + ["-ic", Join(calendars.value, ",")] + base[1..];
      assert cmd[..1] + cmd[3..] == base;
      cmd
    else base
  }

  /**
   * Whatever the filter, the command asks for the six properties in the
   * order the line reader expects, separated by the `|@|` it splits on, and
   * its last two arguments name the first and the last day of the window,
   * as `YYYY-MM-DD` those days read back from.
   */
  lemma CommandWindow(start: Date, end: Date, calendars: Option<seq<string>>)
    requires ValidDate(start) && ValidDate(end)
    ensures var cmd := Command(start, end, calendars); var n := |cmd|;
      && n >= 13 && cmd[0] == "icalBuddy"
      && cmd[n - 6] == "-po" && cmd[n - 5] == Properties && cmd[n - 4] == "-ps" && cmd[n - 3] == FieldSep
      && cmd[n - 2] == "eventsFrom:" + DateText(start) && cmd[n - 1] == "to:" + DateText(end)
    ensures Split(Properties, ",") == PropertyNames
    ensures ParseDateText(DateText(start)) == Some(start) && ParseDateText(DateText(end)) == Some(end)
  {
    var cmd := Command(start, end, calendars);
    var base := BaseCommand(start, end);
    var n := |cmd|;
    assert cmd[n - 6..] == base[7..] by {
      if n == 15 {
        assert cmd[3..] == base[1..];
      }
    }
    ParseDateTextRoundTrip(start);
    ParseDateTextRoundTrip(end);
    PropertiesInOrder();
  }

  lemma PropertiesInOrder()
    ensures Split(Properties, ",") == PropertyNames
  {
    assert forall p <- PropertyNames :: ',' !in p;
    SplitJoin(PropertyNames, ',');
  }

  /** Calendar names without commas come back out of the `-ic` argument when it is split on commas. */
  lemma CalendarFilterReadsBack(start: Date, end: Date, calendars: seq<string>)
    requires ValidDate(start) && ValidDate(end) && |calendars| > 0
    requires forall c <- calendars :: ',' !in c
    ensures Split(Command(start, end, Some(calendars))[2], ",") == calendars
  {
    SplitJoin(calendars, ',');
  }

  // ----------------------------------------------------------- date-times

  /**
   * `parse_datetime`: a field with `" - "` is read as in the main fetch
   * script and keeps the flag; otherwise the stripped field is a day and the
   * event is all-day.
   */
  function ParseDatetime(dt: string, flag: bool, tz: UtcOffset): (r: Result<Times>)
    ensures r.Ok? ==> (
      && ValidDateTime(r.value.start) && ValidDateTime(r.value.end)
      && r.value.start.offset == Some(tz) && r.value.end.offset == Some(tz))
    ensures r.Ok? ==> r.value.allday == (flag || !Contains(dt, " - "))
  {
    if Contains(dt, " - ") then SpanTimes(dt, flag, tz) else DayTimes(Strip(dt), tz)
  }

  /** With a span, both times sit on the day the part before the first space names. */
  lemma ParseDatetimeSpan(dt: string, flag: bool, tz: UtcOffset)
    requires Contains(dt, " - ") && ParseDatetime(dt, flag, tz).Ok?
    ensures var t, day := ParseDatetime(dt, flag, tz).value, SplitOnce(dt, " ")[0];
      && t.start.DateOf() == t.end.DateOf() && t.allday == flag
      && |day| >= 10 && ParseDateText(day[..10]) == Some(t.start.DateOf())
  {
    assert ParseDatetime(dt, flag, tz) == SpanTimes(dt, flag, tz);
    SpanOnOneDay(dt, flag, tz);
  }

  /**
   * Without a span, the stripped field is exactly one day's `YYYY-MM-DD`
   * and the event is all-day, from that day's first to its last second.
   */
  lemma ParseDatetimeDay(dt: string, flag: bool, tz: UtcOffset, t: Times)
    requires !Contains(dt, " - ") && ParseDatetime(dt, flag, tz) == Ok(t)
    ensures t.allday && |Strip(dt)| == 10 && ParseDateText(Strip(dt)) == Some(t.start.DateOf())
    ensures t.start == DateTime(t.start.year, t.start.month, t.start.day, 0, 0, 0, Some(tz))
    ensures t.end == DateTime(t.start.year, t.start.month, t.start.day, 23, 59, 59, Some(tz))
  {
    assert ParseDatetime(dt, flag, tz) == DayTimes(Strip(dt), tz);
    DayField(Strip(dt), tz);
  }

  /** On a field without surrounding whitespace both fetch scripts read the same times. */
  lemma AgreesWithMainFetch(dt: string, flag: bool, tz: UtcOffset)
    requires Strip(dt) == dt
    ensures ParseDatetime(dt, flag, tz) == FieldTimes(dt, flag, tz)
  {
  }

  // ---------------------------------------------------------------- lines

  /** One stripped output line of icalBuddy (lines 57-72). */
  function IcalLine(line: string, tz: UtcOffset): (r: LineResult)
    ensures r.Emit? ==> InZone(r.event, tz)
  {
    var parts := Split(line, FieldSep);
    if |parts| < 6 then Skip
    else
      match ParseDatetime(parts[3], AsciiLower(parts[2]) == "yes", tz)
      case Err(m) => Crash(m)
      case Ok(t) => Emit(CalEvent(parts[0], parts[1], t.start, t.end, t.allday, parts[4], parts[5]))
  }

  /**
   * A line of fewer than six fields yields nothing; one whose date-time
   * field parses yields the event of its first six fields, all-day when the
   * flag reads `yes` in any case or the field has no span; one whose field
   * does not parse raises.
   */
  lemma IcalLineCases(line: string, tz: UtcOffset)
    ensures var parts := Split(line, FieldSep); var r := IcalLine(line, tz);
      && (|parts| < 6 <==> r == Skip)
      && (r.Crash? <==> |parts| >= 6 && ParseDatetime(parts[3], AsciiLower(parts[2]) == "yes", tz).Err?)
      && (r.Emit? ==> (
        && r.event.title == parts[0] && r.event.calendar == parts[1]
        && r.event.location == parts[4] && r.event.notes == parts[5]
        && r.event.allday == (AsciiLower(parts[2]) == "yes" || !Contains(parts[3], " - "))))
  {
  }

  /** `IcalLine` for a fixed offset. */
  function IcalParser(tz: UtcOffset): string -> LineResult {
    line => IcalLine(line, tz)
  }

  /** The events of icalBuddy's output lines: the stripped non-empty lines, in order, until one raises. */
  function ReadOutput(output: seq<string>, tz: UtcOffset): Result<seq<CalEvent>> {
    Collect(StripAll(output), IcalParser(tz))
  }

  /** Every event comes from its own non-empty output line and is in the local offset. */
  lemma ReadOutputEvents(output: seq<string>, tz: UtcOffset)
    requires ReadOutput(output, tz).Ok?
    ensures var events := ReadOutput(output, tz).value;
      && |events| <= |StripAll(output)| <= |output|
      && (forall e <- events :: InZone(e, tz))
      && (forall e <- events :: exists line <- StripAll(output) :: IcalLine(line, tz) == Emit(e))
  {
    var lines := StripAll(output);
    var f := IcalParser(tz);
    CollectEvents(lines, f);
    forall e <- ReadOutput(output, tz).value
      ensures InZone(e, tz) && exists line <- lines :: IcalLine(line, tz) == Emit(e)
    {
      var i :| 0 <= i < |lines| && f(lines[i]) == Emit(e);
      assert IcalLine(lines[i], tz) == Emit(e);
    }
  }

  /**
   * `run_icalbuddy` around the command: without icalBuddy on the path it
   * raises; `check_output` raises when the command exits with a non-zero
   * `status`; otherwise the output lines are read in order.
   */
  method RunIcalbuddy(found: bool, status: int, output: seq<string>, tz: UtcOffset) returns (r: Result<seq<CalEvent>>)
    ensures !found ==> r.Err?
    ensures found && status != 0 ==> r.Err?
    ensures found && status == 0 ==> r == ReadOutput(output, tz)
  {
    if !found {
      return Err("icalBuddy not found");
    }
    if status != 0 {
      return Err("icalBuddy exited with a non-zero status");
    }
    var lines := StripAll(output);
    var f := IcalParser(tz);
    var events: seq<CalEvent> := [];
    var i := 0;
    while i < |lines|
      invariant 0 <= i <= |lines|
      invariant Collect(lines[..i], f) == Ok(events)
    {
      var outcome := f(lines[i]);
      CollectStep(lines, i, f, events);
      if outcome.Crash? {
        return Err(outcome.reason);
      } else if outcome.Emit? {
        events := events + [outcome.event];
      }
      i := i + 1;
    }
    assert lines[..i] == lines;
    r := Ok(events);
  }

  // -------------------------------------------------------------- payload

  /** The payload of `main` (lines 106-114): plain `YYYY-MM-DD` bounds and source `icalBuddy`. */
  function IcalPayload(start: Date, end: Date, events: seq<CalEvent>, calendars: Option<seq<string>>, tz: UtcOffset): (p: Payload)
    requires ValidDate(start) && ValidDate(end)
    requires forall i :: 0 <= i < |events| ==> InZone(events[i], tz)
    ensures p.count == |events| == |p.events| && p.events == ToObjects(events, tz)
    ensures p.week == IsoWeekStr(start) && p.source == "icalBuddy"
    ensures p.calendars == if calendars.Some? && |calendars.value| > 0 then Only(calendars.value) else All
  {
    Payload(IsoWeekStr(start), DateText(start), DateText(end), ToObjects(events, tz), |events|, "icalBuddy",
            if calendars.Some? && |calendars.value| > 0 then Only(calendars.value) else All)
  }

  /** The bounds are the start day and the day a week later, and read back as those days. */
  lemma IcalPayloadWindow(start: Date, end: Date, events: seq<CalEvent>, calendars: Option<seq<string>>, tz: UtcOffset)
    requires ValidDate(start) && EndDay(start) == Ok(end)
    requires forall i :: 0 <= i < |events| ==> InZone(events[i], tz)
    ensures var p := IcalPayload(start, end, events, calendars, tz);
      && |p.start| == 10 && |p.end| == 10
      && ParseDateText(p.start) == Some(start) && ParseDateText(p.end) == Some(end)
      && Ordinal(end) == Ordinal(start) + 7
  {
    ParseDateTextRoundTrip(start);
    ParseDateTextRoundTrip(end);
  }

  /** `week-<ISO week>-icalbuddy.json`. */
  function IcalFileName(start: Date): (name: string)
    requires ValidDate(start)
  {
    "week-" + IsoWeekStr(start) + "-icalbuddy.json"
  }

  /**
   * The archive builder's file-name pattern takes the main fetch's week
   * files and passes over this script's `-icalbuddy` files, although its
   * `week-*.json` glob lists both.
   */
  lemma ArchiveSkipsIcalFiles(start: Date)
    requires ValidDate(start) && 1000 <= IsoCalendar(start).year <= 9999
    ensures Archive.NameMatches(WeekFileName(start))
    ensures !Archive.NameMatches(IcalFileName(start))
  {
    var c := IsoCalendar(start);
    var weekText := IsoWeekStr(start);
    NatToStringFourDigits(c.year);
    assert weekText == Pad4(c.year) + "-W" + Pad2(c.week);
    var plain := WeekFileName(start);
    assert plain[5..9] == Pad4(c.year) && plain[9..11] == "-W" && plain[11..13] == Pad2(c.week);
    assert plain[13..18] == ".json";
    var ical := IcalFileName(start);
    assert ical[13..18] == "-ical";
  }
}
