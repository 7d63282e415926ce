/**
 * `fetch_calendar.py`: turns the attributed lines icalBuddy prints for one
 * week into event records. A line is either `|@|`-separated fields
 * (title, calendar, all-day flag, date-time, location, notes) or, as a
 * fallback, free text holding `@YYYY-MM-DD at H:MM - H:MM`. The week's
 * events are then filtered by calendar name, failing open, and wrapped in
 * the week payload.
 */
module FetchCalendar {
  import opened Wrappers
  import opened Text
  import opened Json
  import opened Dates
  import opened Steps

  // ------------------------------------------------------------ the record

  /** One parsed event: the seven fields of the dictionaries the script emits, with its date-times unrendered. */
  datatype CalEvent = CalEvent(title: string, calendar: string, start: DateTime, end: DateTime,
                               allday: bool, location: string, notes: string)

  /** The date-times of an event are ones Python can represent, in the fixed offset `tz`. */
  predicate InZone(e: CalEvent, tz: UtcOffset) {
    && ValidDateTime(e.start) && ValidDateTime(e.end)
    && e.start.offset == Some(tz) && e.end.offset == Some(tz)
  }

  /** The event as the dictionary written to the week file, date-times in `isoformat()`. */
  function ToObject(e: CalEvent): (o: Object)
    requires ValidDateTime(e.start) && ValidDateTime(e.end)
    ensures o.Keys == {"title", "calendar", "start", "end", "allday", "location", "notes"}
    ensures Get(o, "title") == Text(e.title) && Get(o, "calendar") == Text(e.calendar)
    ensures Get(o, "location") == Text(e.location) && Get(o, "notes") == Text(e.notes)
    ensures Get(o, "allday") == Flag(e.allday)
    ensures Get(o, "start") == Text(IsoFormat(e.start)) && Get(o, "end") == Text(IsoFormat(e.end))
  {
    map["title" := Text(e.title), "calendar" := Text(e.calendar), "start" := Text(IsoFormat(e.start)),
        "end" := Text(IsoFormat(e.end)), "allday" := Flag(e.allday), "location" := Text(e.location),
        "notes" := Text(e.notes)]
  }

  /** The date-times written for an event read back as the event's own. */
  lemma ToObjectReadsBack(e: CalEvent)
    requires ValidDateTime(e.start) && ValidDateTime(e.end)
    ensures ParseIso(Str(Get(ToObject(e), "start"))) == Some(e.start)
    ensures ParseIso(Str(Get(ToObject(e), "end"))) == Some(e.end)
  {
    ParseIsoRoundTrip(e.start);
    ParseIsoRoundTrip(e.end);
  }

  /** What one line yields: nothing, an event, or the exception that ends the run. */
  type LineResult = Outcome<CalEvent>

  // ------------------------------------------------------------- cleaning

  /** The text `"\u0001f9e8"` of the script: the control character U+0001 followed by `f9e8`. */
  const Marker: string := ['\U{1}'] + "f9e8"

  /** `clean_line`: every non-overlapping occurrence of the marker removed in one pass, then `strip()`. */
  function CleanLine(line: string): (r: string)
    ensures |r| == 0 || (!IsSpace(r[0]) && !IsSpace(r[|r| - 1]))
  {
    Strip(Replace(line, Marker, ""))
  }

  /** Removing the marker is splitting on it and joining the pieces back together. */
  lemma CleanLineJoinsPieces(line: string)
    ensures CleanLine(line) == Strip(Join(Split(line, Marker), ""))
  {
    ReplaceIsJoinSplit(line, Marker, "");
  }

  /** A line without the marker is only stripped, and cleaning it twice changes nothing more. */
  lemma CleanLineWithoutMarker(line: string)
    requires '\U{1}' !in line
    ensures CleanLine(line) == Strip(line)
    ensures CleanLine(CleanLine(line)) == CleanLine(line)
  {
    SplitWithoutSep(line, Marker);
    ReplaceIsJoinSplit(line, Marker, "");
    var c := Strip(line);
    assert forall k :: 0 <= k < |c| ==> c[k] in line by {
      var i := StripStart(line);
      forall k | 0 <= k < |c| ensures c[k] in line {
        assert c[k] == line[i + k];
      }
    }
    SplitWithoutSep(c, Marker);
    ReplaceIsJoinSplit(c, Marker, "");
    StripIdempotent(line);
  }

  // ------------------------------------------------------------ date-times

  /** `datetime.fromisoformat(text).replace(tzinfo=tz)`, or the `ValueError` it raises. */
  function ParseLocal(text: string, tz: UtcOffset): (r: Result<DateTime>)
    ensures r.Ok? <==> ParseIso(text).Some?
    ensures r.Ok? ==> (ValidDateTime(r.value) && r.value.offset == Some(tz) && r.value == WithOffset(ParseIso(text).value, tz))
  {
    match ParseIso(text)
    case None => Err("Invalid isoformat string: " + text)
    case Some(t) => Ok(WithOffset(t, tz))
  }

  /** The start, end and all-day flag read from a date-time field (lines 120-128). */
  datatype Times = Times(start: DateTime, end: DateTime, allday: bool)

  /** Both texts read in the local offset, the first exception raised otherwise. */
  function ParseBoth(a: string, b: string, tz: UtcOffset): (r: Result<(DateTime, DateTime)>)
    ensures r.Ok? <==> ParseIso(a).Some? && ParseIso(b).Some?
    ensures r.Ok? ==> r.value.0 == WithOffset(ParseIso(a).value, tz) && r.value.1 == WithOffset(ParseIso(b).value, tz)
  {
    match (ParseLocal(a, tz), ParseLocal(b, tz))
    case (Ok(s), Ok(e)) => Ok((s, e))
    case (Err(m), _) => Err(m)
    case (_, Err(m)) => Err(m)
  }

  /** `day_part, times = dt_field.split(" ", 1)` and `t1, t2 = times.split(" - ")`, both times read on `day_part`. */
  function SpanTimes(dt: string, flag: bool, tz: UtcOffset): (r: Result<Times>)
    ensures r.Ok? ==> r.value.allday == flag
  {
    var halves := SplitOnce(dt, " ");
    var day := halves[0];
    var times := if |halves| == 2 then halves[1] else "";
    var clocks := Split(times, " - ");
    if |clocks| != 2 then Err("cannot unpack " + times)
    else match ParseBoth(day + " " + (clocks[0] + ":00"), day + " " + (clocks[1] + ":00"), tz)
      case Ok((s, e)) => Ok(Times(s, e, flag))
      case Err(m) => Err(m)
  }

  /** A day field: from `00:00:00` to `23:59:59` of `day`, all-day. */
  function DayTimes(day: string, tz: UtcOffset): (r: Result<Times>)
    ensures r.Ok? ==> r.value.allday
  {
    match ParseBoth(day + " " + Midnight, day + " " + LastSecond, tz)
    case Ok((s, e)) => Ok(Times(s, e, true))
    case Err(m) => Err(m)
  }

  /**
   * A field with `" - "` is `day start - end`: both times on `day`, and the
   * all-day flag as given. Otherwise the field is a day and the event is
   * all-day. Texts that do not split that way, or do not parse, raise.
   */
  function FieldTimes(dt: string, flag: bool, tz: UtcOffset): (r: Result<Times>)
    ensures r.Ok? ==> (
      && ValidDateTime(r.value.start) && ValidDateTime(r.value.end)
      && r.value.start.offset == Some(tz) && r.value.end.offset == Some(tz))
    ensures r.Ok? ==> r.value.allday == (flag || !Contains(dt, " - "))
  {
    if Contains(dt, " - ") then SpanTimes(dt, flag, tz) else DayTimes(dt, tz)
  }

  /** A span's start and end fall on the same day: the one the first ten characters of its day part name. */
  lemma SpanOnOneDay(dt: string, flag: bool, tz: UtcOffset)
    requires SpanTimes(dt, flag, tz).Ok?
    ensures var t, day := SpanTimes(dt, flag, tz).value, SplitOnce(dt, " ")[0];
      && t.start.DateOf() == t.end.DateOf()
      && |day| >= 10 && ParseDateText(day[..10]) == Some(t.start.DateOf())
  {
    var halves := SplitOnce(dt, " ");
    var day := halves[0];
    var times := if |halves| == 2 then halves[1] else "";
    var clocks := Split(times, " - ");
    ParsedDatePrefix(day, clocks[0] + ":00", ParseIso(day + " " + (clocks[0] + ":00")).value);
    ParsedDatePrefix(day, clocks[1] + ":00", ParseIso(day + " " + (clocks[1] + ":00")).value);
  }

  /** A field without a span is a `YYYY-MM-DD` day; the event runs from its first to its last second. */
  lemma DayField(day: string, tz: UtcOffset)
    requires DayTimes(day, tz).Ok?
    ensures var t := DayTimes(day, tz).value;
      && |day| == 10 && ParseDateText(day) == Some(t.start.DateOf()) && t.end.DateOf() == t.start.DateOf()
      && t.start == DateTime(t.start.year, t.start.month, t.start.day, 0, 0, 0, Some(tz))
      && t.end == DateTime(t.start.year, t.start.month, t.start.day, 23, 59, 59, Some(tz))
  {
    DayBoundsClocks();
    ParsedDayAtClock(day, Midnight, ParseIso(day + " " + Midnight).value);
    ParsedDayAtClock(day, LastSecond, ParseIso(day + " " + LastSecond).value);
  }

  // -------------------------------------------------------- attributed lines

  const FieldSep := "|@|"

  /** `str(allday_txt).lower() in ["yes", "true"]`. */
  predicate AllDayText(s: string) {
    AsciiLower(s) == "yes" || AsciiLower(s) == "true"
  }

  /** One `|@|`-separated line (lines 111-143). */
  function AttributedOutcome(line: string, sample: Option<Date>, tz: UtcOffset): (r: LineResult)
    ensures r.Emit? ==> InZone(r.event, tz)
    ensures r.Emit? && sample.Some? ==> r.event.start.DateOf() == sample.value
  {
    var parts := Split(line, FieldSep);
    if |parts| < 6 then Skip
    else
      match FieldTimes(parts[3], AllDayText(parts[2]), tz)
      case Err(m) => Crash(m)
      case Ok(t) =>
        if sample.Some? && t.start.DateOf() != sample.value then Skip
        else Emit(CalEvent(parts[0], parts[1], t.start, t.end, t.allday, parts[4], parts[5]))
  }

  /**
   * A line of fewer than six fields yields nothing. Otherwise the event takes
   * the first six fields in order and ignores the rest; it is all-day when
   * the flag says `yes` or `true` in any case, or when the date-time field has
   * no span.
   */
  lemma AttributedFields(line: string, sample: Option<Date>, tz: UtcOffset)
    ensures |Split(line, FieldSep)| < 6 ==> AttributedOutcome(line, sample, tz) == Skip
    ensures var r := AttributedOutcome(line, sample, tz); var parts := Split(line, FieldSep);
      r.Emit? ==> (
        && |parts| >= 6
        && r.event.title == parts[0] && r.event.calendar == parts[1]
        && r.event.location == parts[4] && r.event.notes == parts[5]
        && r.event.allday == (AllDayText(parts[2]) || !Contains(parts[3], " - ")))
  {
  }

  // --------------------------------------------------------- fallback lines

  /** The index of the first non-whitespace character at or after `i`. */
  function SpacesFrom(s: string, i: nat): (j: nat)
    requires i <= |s|
    ensures i <= j <= |s| && (forall k :: i <= k < j ==> IsSpace(s[k])) && (j < |s| ==> !IsSpace(s[j]))
    decreases |s| - i
  {
    if i == |s| || !IsSpace(s[i]) then i else SpacesFrom(s, i + 1)
  }

  /** `\d{4}-\d{2}-\d{2}` over ASCII digits. */
  predicate DateShape(d: string) {
    |d| == 10 && AllDigits(d[..4]) && d[4] == '-' && AllDigits(d[5..7]) && d[7] == '-' && AllDigits(d[8..10])
  }

  /**
   * Where `\d{1,2}:\d{2}` over ASCII digits starting at `i` ends. Two digits are tried first;
   * one digit is tried only when the second character is the colon.
   */
  function ClockEnd(s: string, i: nat): (r: Option<nat>)
    ensures r.Some? ==> (
      && i + 4 <= r.value <= |s| && r.value <= i + 5
      && s[r.value - 3] == ':' && AllDigits(s[i..r.value - 3]) && AllDigits(s[r.value - 2..r.value]))
  {
    if i + 5 <= |s| && AllDigits(s[i..i + 2]) && s[i + 2] == ':' && AllDigits(s[i + 3..i + 5]) then Some(i + 5)
    else if i + 4 <= |s| && IsDigit(s[i]) && s[i + 1] == ':' && AllDigits(s[i + 2..i + 4]) then
      assert s[i..i + 1] == [s[i]];
      Some(i + 4)
    else None
  }

  /** The three groups of the fallback pattern. */
  datatype Inline = Inline(date: string, t1: string, t2: string)

  /** The fallback pattern `@date\s+at\s+t1\s*-\s*t2` matched at index `i`. */
  function MatchAt(s: string, i: nat): (r: Option<Inline>)
    ensures r.Some? ==> (i + 11 <= |s| && s[i] == '@' && DateShape(r.value.date) && r.value.date == s[i + 1..i + 11])
  {
    if !(i + 11 <= |s| && s[i] == '@' && DateShape(s[i + 1..i + 11])) then None
    else
      var j := SpacesFrom(s, i + 11);
      if j == i + 11 || !(j + 2 <= |s| && s[j..j + 2] == "at") then None
      else
        var k := SpacesFrom(s, j + 2);
        if k == j + 2 then None
        else match ClockEnd(s, k)
          case None => None
          case Some(e1) =>
            var m := SpacesFrom(s, e1);
            if !(m < |s| && s[m] == '-') then None
            else
              var n := SpacesFrom(s, m + 1);
              match ClockEnd(s, n)
              case None => None
              case Some(e2) => Some(Inline(s[i + 1..i + 11], s[k..e1], s[n..e2]))
  }

  /** The pattern matches at no index in `[lo, hi)`. */
  predicate NoMatchIn(s: string, lo: nat, hi: nat) {
    forall k :: lo <= k < hi ==> MatchAt(s, k).None?
  }

  /** `re.search`: the leftmost index at or after `from` where the pattern matches. */
  function SearchFrom(s: string, from: nat): (r: Option<(nat, Inline)>)
    ensures r.Some? ==> (
      && from <= r.value.0 < |s| && MatchAt(s, r.value.0) == Some(r.value.1)
      && NoMatchIn(s, from, r.value.0))
    ensures r.None? ==> NoMatchIn(s, from, |s|)
    decreases |s| - from
  {
    if from >= |s| then None
    else
      var here := MatchAt(s, from);
      if here.Some? then Some((from, here.value))
      else
        var r := SearchFrom(s, from + 1);
        assert r.Some? ==> NoMatchIn(s, from, r.value.0) by {
          if r.Some? { NoMatchExtend(s, from, r.value.0); }
        }
        assert r.None? ==> NoMatchIn(s, from, |s|) by {
          if r.None? { NoMatchExtend(s, from, |s|); }
        }
        r
  }

  lemma NoMatchExtend(s: string, from: nat, hi: nat)
    requires from < hi && MatchAt(s, from).None? && NoMatchIn(s, from + 1, hi)
    ensures NoMatchIn(s, from, hi)
  {
  }

  /** `line.split("@", 2)[2]` when there are two `@`s, else `""`. */
  function AfterSecondAt(line: string): string {
    var parts := Split(line, "@");
    if |parts| > 2 then Join(parts[2..], "@") else ""
  }

  /** Splitting at the first occurrence `i` of a character. */
  lemma SplitAtFirst(s: string, c: char, i: nat)
    requires IndexOfChar(s, c) == Some(i)
    ensures Split(s, [c]) == [s[..i]] + Split(s[i + 1..], [c])
  {
    var head, tail := s[..i], s[i + 1..];
    assert c !in head && [c][0] == c;
    assert s == head + [c] + tail;
    SplitAfterPart(head, [c], tail);
  }

  /** The title of a fallback line is its text before the first `@`; the location all text after the second. */
  lemma FallbackFields(line: string)
    requires '@' in line
    ensures var a := IndexOfChar(line, '@').value;
      && SplitOnce(line, "@")[0] == line[..a]
      && var rest := line[a + 1..];
      && ('@' !in rest ==> AfterSecondAt(line) == "")
      && ('@' in rest ==> AfterSecondAt(line) == rest[IndexOfChar(rest, '@').value + 1..])
  {
    var a := IndexOfChar(line, '@').value;
    var rest := line[a + 1..];
    SplitAtFirst(line, '@', a);
    if '@' in rest {
      SecondAtLocation(line, line[..a], rest, IndexOfChar(rest, '@').value);
    } else {
      SplitWithoutSep(rest, "@");
      assert Split(line, "@") == [line[..a]] + [rest];
    }
  }

  /** With a second `@` at index `b` of the text after the first, the location is the text after it. */
  lemma SecondAtLocation(line: string, head: string, rest: string, b: nat)
    requires Split(line, "@") == [head] + Split(rest, "@")
    requires IndexOfChar(rest, '@') == Some(b)
    ensures AfterSecondAt(line) == rest[b + 1..]
  {
    var tail := rest[b + 1..];
    var tailParts := Split(tail, "@");
    SplitAtFirst(rest, '@', b);
    var parts := Split(line, "@");
    assert parts == [head, rest[..b]] + tailParts;
    assert parts[2..] == tailParts;
    JoinSplit(tail, "@");
  }

  /** The event of a fallback line once the pattern has matched with groups `m`. */
  function FallbackEvent(line: string, m: Inline, sample: Option<Date>, tz: UtcOffset): (r: LineResult)
    ensures r.Emit? ==> InZone(r.event, tz)
    ensures r.Emit? && sample.Some? ==> r.event.start.DateOf() == sample.value
    ensures r.Emit? ==> (
      && r.event.title == Strip(SplitOnce(line, "@")[0]) && r.event.location == AfterSecondAt(line)
      && r.event.calendar == "" && r.event.notes == "" && !r.event.allday)
  {
    match ParseBoth(m.date + " " + (m.t1 + ":00"), m.date + " " + (m.t2 + ":00"), tz)
    case Err(e) => Crash(e)
    case Ok((s, e)) =>
      if sample.Some? && s.DateOf() != sample.value then Skip
      else Emit(CalEvent(Strip(SplitOnce(line, "@")[0]), "", s, e, false, AfterSecondAt(line), ""))
  }

  /** A line without `|@|` (lines 83-110). */
  function FallbackOutcome(line: string, sample: Option<Date>, tz: UtcOffset): (r: LineResult)
    ensures r.Emit? ==> InZone(r.event, tz)
    ensures r.Emit? && sample.Some? ==> r.event.start.DateOf() == sample.value
  {
    match SearchFrom(line, 0)
    case None => Skip
    case Some((_, m)) => FallbackEvent(line, m, sample, tz)
  }

  /**
   * A line the pattern does not match yields nothing. A matching one yields
   * an event titled with the stripped text before the first `@`, located at
   * the text after the second `@` (or nowhere), with no calendar, no notes
   * and not all-day.
   */
  lemma FallbackEventFields(line: string, sample: Option<Date>, tz: UtcOffset)
    ensures SearchFrom(line, 0).None? ==> FallbackOutcome(line, sample, tz) == Skip
    ensures var r := FallbackOutcome(line, sample, tz);
      r.Emit? ==> (
        && '@' in line
        && r.event.title == Strip(line[..IndexOfChar(line, '@').value]) && r.event.location == AfterSecondAt(line)
        && r.event.calendar == "" && r.event.notes == "" && !r.event.allday)
  {
    if SearchFrom(line, 0).Some? {
      var at := SearchFrom(line, 0).value.0;
      assert line[at] == '@';
      FallbackFields(line);
    }
  }

  /** A fallback event starts and ends on the matched date. */
  lemma FallbackOnMatchedDate(line: string, m: Inline, sample: Option<Date>, tz: UtcOffset)
    requires DateShape(m.date) && FallbackEvent(line, m, sample, tz).Emit?
    ensures var e := FallbackEvent(line, m, sample, tz).event;
      ParseDateText(m.date) == Some(e.start.DateOf()) && e.end.DateOf() == e.start.DateOf()
  {
    ParsedDatePrefix(m.date, m.t1 + ":00", ParseIso(m.date + " " + (m.t1 + ":00")).value);
    ParsedDatePrefix(m.date, m.t2 + ":00", ParseIso(m.date + " " + (m.t2 + ":00")).value);
    assert m.date[..10] == m.date;
  }

  // ------------------------------------------------------------ the loop

  /** What one raw line yields in `parse_lines`. */
  function LineOutcome(raw: string, sample: Option<Date>, tz: UtcOffset): (r: LineResult)
    ensures CleanLine(raw) == "" ==> r == Skip
    ensures r.Emit? ==> InZone(r.event, tz)
    ensures r.Emit? && sample.Some? ==> r.event.start.DateOf() == sample.value
  {
    var line := CleanLine(raw);
    if line == "" then Skip
    else if !Contains(line, FieldSep) then FallbackOutcome(line, sample, tz)
    else AttributedOutcome(line, sample, tz)
  }

  /** `LineOutcome` for a fixed sample day and offset. */
  function LineParser(sample: Option<Date>, tz: UtcOffset): string -> LineResult {
    raw => LineOutcome(raw, sample, tz)
  }

  /** The result of `parse_lines`. */
  function ParseAll(lines: seq<string>, sample: Option<Date>, tz: UtcOffset): Result<seq<CalEvent>> {
    Collect(lines, LineParser(sample, tz))
  }

  /** Every parsed event is in the local offset and, given a sample day, starts on it. */
  lemma ParseAllEvents(lines: seq<string>, sample: Option<Date>, tz: UtcOffset)
    requires ParseAll(lines, sample, tz).Ok?
    ensures var events := ParseAll(lines, sample, tz).value;
      && |events| <= |lines|
      && (forall e <- events :: InZone(e, tz))
      && (sample.Some? ==> forall e <- events :: e.start.DateOf() == sample.value)
  {
    var f := LineParser(sample, tz);
    CollectEvents(lines, f);
    forall e <- ParseAll(lines, sample, tz).value
      ensures InZone(e, tz) && (sample.Some? ==> e.start.DateOf() == sample.value)
    {
      var i :| 0 <= i < |lines| && f(lines[i]) == Emit(e);
      assert LineOutcome(lines[i], sample, tz) == Emit(e);
    }
  }

  /** `parse_lines`: the lines in order, skipping what yields nothing; a raised exception ends the run. */
  method ParseLines(lines: seq<string>, sample: Option<Date>, tz: UtcOffset) returns (r: Result<seq<CalEvent>>)
    ensures r == ParseAll(lines, sample, tz)
  {
    var f := LineParser(sample, tz);
    var events: seq<CalEvent> := [];
    var i := 0;
    while i < |lines|
      invariant 0 <= i <= |lines|
      invariant Collect(lines[..i], f) == Ok(events)
    {
      var outcome := f(lines[i]);
      CollectStep(lines, i, f, events);
      if outcome.Crash? {
        return Err(outcome.reason);
      } else if outcome.Emit? {
        events := events + [outcome.event];
      }
      i := i + 1;
    }
    assert lines[..i] == lines;
    r := Ok(events);
  }

  // ------------------------------------------------------ calendar filter

  /** `any(cal in e["calendar"] for cal in allow)`. */
  predicate Allowed(e: CalEvent, allow: seq<string>) {
    exists i :: 0 <= i < |allow| && Contains(e.calendar, allow[i])
  }

  /** The events whose calendar name contains one of `allow`, in order, each as many times as it occurs. */
  function Matching(events: seq<CalEvent>, allow: seq<string>): (r: seq<CalEvent>)
    ensures |r| <= |events|
    ensures forall e :: e in r <==> e in events && Allowed(e, allow)
    ensures forall e :: multiset(r)[e] == if Allowed(e, allow) then multiset(events)[e] else 0
    ensures |r| > 0 <==> exists e <- events :: Allowed(e, allow)
  {
    if |events| == 0 then []
    else
      var rest := Matching(events[1..], allow);
      assert events == [events[0]] + events[1..];
      if Allowed(events[0], allow) then [events[0]] + rest else rest
  }

  /** Filtering event by event keeps their order: the matches of a concatenation are the concatenation of the matches. */
  lemma {:induction false} MatchingConcat(a: seq<CalEvent>, b: seq<CalEvent>, allow: seq<string>)
    ensures Matching(a + b, allow) == Matching(a, allow) + Matching(b, allow)
  {
    if |a| > 0 {
      assert (a + b)[0] == a[0];
      assert (a + b)[1..] == a[1..] + b;
      MatchingConcat(a[1..], b, allow);
    } else {
      assert a + b == b;
    }
  }

  /** The `allow_cals` filter of `main`: the matching events, unless none match. */
  function FilterCalendars(events: seq<CalEvent>, allow: Option<seq<string>>): seq<CalEvent> {
    if allow.None? || |allow.value| == 0 then events
    else
      var filtered := Matching(events, allow.value);
      if |filtered| > 0 then filtered else events
  }

  /**
   * The filter fails open: it keeps exactly the events of an allowed
   * calendar when there is one, and otherwise everything; a week with
   * events never loses them all.
   */
  lemma FilterFailsOpen(events: seq<CalEvent>, allow: Option<seq<string>>)
    ensures var r := FilterCalendars(events, allow);
      && (|events| > 0 ==> |r| > 0)
      && (forall e <- r :: e in events)
      && (allow.Some? && (exists e <- events :: Allowed(e, allow.value)) ==>
            && r == Matching(events, allow.value)
            && forall e :: e in r <==> e in events && Allowed(e, allow.value))
      && ((allow.None? || !(exists e <- events :: Allowed(e, allow.value))) ==> r == events)
  {
    if allow.Some? && (exists e <- events :: Allowed(e, allow.value)) {
      var e :| e in events && Allowed(e, allow.value);
      assert e in Matching(events, allow.value);
    }
  }

  /** `[c.strip() for c in args.cals.split(",")] if args.cals else None`. */
  function AllowList(arg: Option<string>): (r: Option<seq<string>>)
    ensures arg.None? || arg == Some("") <==> r.None?
    ensures r.Some? ==> (|r.value| == |Split(arg.value, ",")|
      && forall i :: 0 <= i < |r.value| ==> r.value[i] == Strip(Split(arg.value, ",")[i]))
  {
    if arg.None? || arg.value == "" then None
    else
      var parts := Split(arg.value, ",");
      Some(seq(|parts|, i requires 0 <= i < |parts| => Strip(parts[i])))
  }

  // ---------------------------------------------------------------- week

  /** A `--start` written as a day's ISO text starts the week on that day. */
  lemma StartDayGiven(today: Date, d: Date)
    requires ValidDate(today) && ValidDate(d)
    ensures StartDay(today, Some(DateText(d))) == Ok(d)
  {
    ParseDateTextRoundTrip(d);
  }

  /** `date.fromisoformat(args.start)` for a `YYYY-MM-DD` text, or the Monday of `today`'s week. */
  function StartDay(today: Date, arg: Option<string>): (r: Result<Date>)
    requires ValidDate(today)
    ensures r.Ok? ==> ValidDate(r.value)
    ensures arg.None? || arg == Some("") ==> (r.Ok? && Weekday(r.value) == 0
      && Ordinal(today) - 6 <= Ordinal(r.value) <= Ordinal(today))
    ensures arg.Some? && arg.value != "" ==>
      (r.Ok? <==> |arg.value| == 10 && ParseDateText(arg.value).Some?)
    ensures arg.Some? && arg.value != "" && r.Ok? ==> ParseDateText(arg.value) == Some(r.value)
  {
    if arg.None? || arg.value == "" then
      WeekMonday(today);
      Ok(AddDays(today, -Weekday(today)))
    else if |arg.value| != 10 then Err("Invalid isoformat string: " + arg.value)
    else match ParseDateText(arg.value)
      case None => Err("Invalid isoformat string: " + arg.value)
      case Some(d) => Ok(d)
  }

  /** `start_day + timedelta(days=7)`, or the `OverflowError` past year 9999. */
  function EndDay(start: Date): (r: Result<Date>)
    requires ValidDate(start)
    ensures r.Ok? <==> Ordinal(start) + 7 <= MaxOrdinal
    ensures r.Ok? ==> ValidDate(r.value) && Ordinal(r.value) == Ordinal(start) + 7
  {
    OrdinalRange(start);
    if Ordinal(start) + 7 <= MaxOrdinal then Ok(AddDays(start, 7)) else Err("date value out of range")
  }

  /** `datetime.combine(d, datetime.min.time(), tzinfo=timezone.utc).isoformat()`. */
  function UtcMidnight(d: Date): (r: string)
    requires ValidDate(d)
    ensures r == DateText(d) + "T00:00:00+00:00"
  {
    var t := DateTime(d.year, d.month, d.day, 0, 0, 0, Some(0));
    assert Pad2(0) == "00";
    IsoFormat(t)
  }

  /** `allow_cals or "all"`. */
  datatype Calendars = All | Only(names: seq<string>)

  /** The week file written by `main`. */
  datatype Payload = Payload(week: string, start: string, end: string, events: seq<Object>, count: nat,
                             source: string, calendars: Calendars)

  /** The rows of a week file, one per event, in order. */
  function ToObjects(events: seq<CalEvent>, tz: UtcOffset): (r: seq<Object>)
    requires forall i :: 0 <= i < |events| ==> InZone(events[i], tz)
    ensures |r| == |events|
  {
    seq(|events|, i requires 0 <= i < |events| && InZone(events[i], tz) => ToObject(events[i]))
  }

  /** The payload of `main` (lines 183-191) for the week starting `start` and ending `end`. */
  function BuildPayload(start: Date, end: Date, events: seq<CalEvent>, allow: Option<seq<string>>, tz: UtcOffset): (p: Payload)
    requires ValidDate(start) && ValidDate(end) && Ordinal(end) == Ordinal(start) + 7
    requires forall e <- events :: InZone(e, tz)
    ensures p.count == |events| == |p.events| && p.events == ToObjects(events, tz)
    ensures p.week == IsoWeekStr(start) && p.source == "icalbuddy"
    ensures p.start == UtcMidnight(start) && p.end == UtcMidnight(end)
    ensures p.calendars == if allow.Some? && |allow.value| > 0 then Only(allow.value) else All
  {
    Payload(IsoWeekStr(start), UtcMidnight(start), UtcMidnight(end), ToObjects(events, tz), |events|, "icalbuddy",
            if allow.Some? && |allow.value| > 0 then Only(allow.value) else All)
  }

  /** The payload's end is the first midnight after its seven days, and its week label names the week of its start. */
  lemma PayloadWindow(start: Date, end: Date, events: seq<CalEvent>, allow: Option<seq<string>>, tz: UtcOffset)
    requires ValidDate(start) && EndDay(start) == Ok(end)
    requires forall e <- events :: InZone(e, tz)
    ensures var p := BuildPayload(start, end, events, allow, tz);
      && ParseIso(p.start) == Some(DateTime(start.year, start.month, start.day, 0, 0, 0, Some(0)))
      && ParseIso(p.end) == Some(DateTime(end.year, end.month, end.day, 0, 0, 0, Some(0)))
      && Ordinal(end) - Ordinal(start) == 7
  {
    ParseIsoRoundTrip(DateTime(start.year, start.month, start.day, 0, 0, 0, Some(0)));
    ParseIsoRoundTrip(DateTime(end.year, end.month, end.day, 0, 0, 0, Some(0)));
  }

  /** `week-<ISO week>.json`, the week file of `main` (line 194). */
  function WeekFileName(start: Date): string
    requires ValidDate(start)
  {
    "week-" + IsoWeekStr(start) + ".json"
  }
}
