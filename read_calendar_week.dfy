/**
 * scripts/read_calendar_week.py: reads one week file written by the fetch
 * scripts and turns its events into the rows of the day and week views:
 * date, `HH:MM` bounds, a clamped duration in minutes and defaulted text
 * fields, sorted by (date, start, title).
 */
module ReadCalendarWeek {
  import opened Wrappers
  import opened Text
  import opened Json
  import opened Dates
  import opened Steps
  import opened Sorting

  // ------------------------------------------------------------ week labels

  /**
   * `week_start_from_label`: `label.split("-W")` must give exactly a year
   * and a week, both read by `int()`, and `date.fromisocalendar` must
   * accept them; the result is that week's Monday. Each failure raises.
   */
  function WeekStartFromLabel(weekText: string): (r: Result<Date>)
    ensures r.Ok? ==> ValidDate(r.value) && Weekday(r.value) == 0
  {
    var parts := Split(weekText, "-W");
    if |parts| != 2 then Err("not enough values to unpack")
    else match (ParseInt(parts[0]), ParseInt(parts[1]))
      case (Some(y), Some(w)) =>
        (match FromIsoCalendar(y, w, 1)
         case Some(d) => FromIsoCalendarMonday(y, w); Ok(d)
         case None => Err("invalid ISO calendar week"))
      case _ => Err("invalid literal for int() with base 10")
  }

  /** `parse_week`: the argument itself when it names an ISO week, the argparse error otherwise. */
  function ParseWeek(value: string): (r: Result<string>)
    ensures r.Ok? ==> r.value == value
  {
    if WeekStartFromLabel(value).Ok? then Ok(value) else Err("week must be like 2025-W50")
  }

  /**
   * A label is accepted exactly when it splits on `-W` into two integers
   * forming a week that `fromisocalendar` accepts; its start is then the
   * Monday of that ISO week.
   */
  lemma ParseWeekAccepts(value: string)
    ensures var parts := Split(value, "-W");
      ParseWeek(value).Ok? <==>
        (&& |parts| == 2 && ParseInt(parts[0]).Some? && ParseInt(parts[1]).Some?
         && IsoWeekAccepted(ParseInt(parts[0]).value, ParseInt(parts[1]).value))
    ensures ParseWeek(value).Ok? <==> WeekStartFromLabel(value).Ok?
    ensures ParseWeek(value).Ok? ==> var parts := Split(value, "-W");
      IsoCalendar(WeekStartFromLabel(value).value)
        == IsoWeekDate(ParseInt(parts[0]).value, ParseInt(parts[1]).value, 1)
  {
    var parts := Split(value, "-W");
    if |parts| == 2 && ParseInt(parts[0]).Some? && ParseInt(parts[1]).Some? {
      var y, w := ParseInt(parts[0]).value, ParseInt(parts[1]).value;
      if IsoWeekAccepted(y, w) {
        FromIsoCalendarMonday(y, w);
      }
    }
  }

  /** Text of digits only, with no `-`, is one part when split on `-W`. */
  lemma SplitDigitsOnWeekMark(s: string)
    requires AllDigits(s)
    ensures Split(s, "-W") == [s]
  {
    assert forall i :: 0 <= i < |s| ==> s[i] != '-';
    SplitWithoutSep(s, "-W");
  }

  /** `int()` reads a zero-padded two-digit number back. */
  lemma ParseIntPad2(n: nat)
    requires n < 100
    ensures ParseInt(Pad2(n)) == Some(n)
  {
    var t := Pad2(n);
    assert !IsSpace(t[0]) && !IsSpace(t[1]);
    StripOfTrimmed(t);
  }

  /** The label of week `w` of a non-negative year splits on `-W` into the year's and the week's digits, which `int()` reads back. */
  lemma IsoWeekLabelReads(y: nat, w: nat)
    requires w < 100
    ensures Split(IsoWeekLabel(y, w), "-W") == [NatToString(y), Pad2(w)]
    ensures ParseInt(NatToString(y)) == Some(y) && ParseInt(Pad2(w)) == Some(w)
  {
    var ys := NatToString(y);
    assert forall i :: 0 <= i < |ys| ==> ys[i] != '-';
    SplitAfterPart(ys, "-W", Pad2(w));
    SplitDigitsOnWeekMark(Pad2(w));
    ParseIntNatToString(y);
    ParseIntPad2(w);
  }

  /**
   * The label `iso_week_str` writes for any date is accepted, and its week
   * starts on the Monday on or before that date.
   */
  lemma IsoWeekStrRoundTrip(d: Date)
    requires ValidDate(d)
    ensures ParseWeek(IsoWeekStr(d)) == Ok(IsoWeekStr(d))
    ensures 1 <= Ordinal(d) - Weekday(d) <= MaxOrdinal
    ensures WeekStartFromLabel(IsoWeekStr(d)) == Ok(AddDays(d, -Weekday(d)))
  {
    var c := IsoCalendar(d);
    IsoCalendarRoundTrip(d);
    var weekText := IsoWeekStr(d);
    assert weekText == IsoWeekLabel(c.year, c.week);
    IsoWeekLabelReads(c.year, c.week);
    assert Split(weekText, "-W") == [NatToString(c.year), Pad2(c.week)];
    assert WeekStartFromLabel(weekText) == Ok(FromIsoCalendar(c.year, c.week, 1).value);
  }

  /** The default `--week`: the label of the Monday of `today`'s week names that Monday's week. */
  lemma DefaultWeekRoundTrip(today: Date)
    requires ValidDate(today)
    ensures 1 <= Ordinal(today) - Weekday(today) <= MaxOrdinal
    ensures var monday := AddDays(today, -Weekday(today));
      && ParseWeek(IsoWeekStr(monday)) == Ok(IsoWeekStr(monday))
      && WeekStartFromLabel(IsoWeekStr(monday)) == Ok(monday)
  {
    IsoWeekStrRoundTrip(today);
    var monday := AddDays(today, -Weekday(today));
    SameWeekLabel(today, monday);
  }

  /** `main`'s default week: the ISO week of the Monday of the current week. */
  function DefaultWeek(today: Date): (weekText: string)
    requires ValidDate(today)
    ensures 1 <= Ordinal(today) - Weekday(today) <= MaxOrdinal
    ensures ParseWeek(weekText) == Ok(weekText)
    ensures WeekStartFromLabel(weekText) == Ok(AddDays(today, -Weekday(today)))
  {
    DefaultWeekRoundTrip(today);
    IsoWeekStr(AddDays(today, -Weekday(today)))
  }

  /** A date and the Monday of its week have the same ISO week label. */
  lemma SameWeekLabel(d: Date, monday: Date)
    requires ValidDate(d) && ValidDate(monday) && Ordinal(monday) == Ordinal(d) - Weekday(d)
    ensures IsoWeekStr(monday) == IsoWeekStr(d)
  {
    var c := IsoCalendar(d);
    IsoCalendarRoundTrip(d);
    IsoCalendarWeekMonday(d);
    IsoCalendarOfWeekMonday(monday, c.year, c.week);
  }

  // --------------------------------------------------------------- loading

  /**
   * `load_events`: `data.get` raises on a file that is not an object and
   * iterating `true` raises; otherwise the object entries of the list, and
   * none for a falsy value or a string, whose characters are not objects.
   */
  function LoadEvents(data: WeekData): (r: Result<seq<Object>>)
    ensures r.Err? <==> data.NotAnObject? || data.events == Scalar(Flag(true))
    ensures r.Ok? && data.events.Listed? ==> r.value == Objects(data.events.items)
    ensures r.Ok? && data.events.Scalar? ==> r.value == []
  {
    if data.NotAnObject? then Err("'list' object has no attribute 'get'")
    else match Iterated(data.events)
      case None => Err("'bool' object is not iterable")
      case Some(items) =>
        NoObjects(items);
        Ok(Objects(items))
  }

  /** Entries none of which is an object keep nothing. */
  lemma {:induction false} NoObjects(items: seq<Item>)
    ensures (forall i :: 0 <= i < |items| ==> items[i].NonObject?) ==> Objects(items) == []
  {
    if |items| > 0 {
      NoObjects(items[1..]);
    }
  }

  /** The objects among `items`, in order. */
  function Objects(items: seq<Item>): (r: seq<Object>)
    ensures |r| <= |items|
  {
    if |items| == 0 then []
    else
      var rest := Objects(items[1..]);
      if items[0].Obj? then [items[0].fields] + rest else rest
  }

  /** The kept entries are exactly the object entries, each kept as many times as it occurs. */
  lemma {:induction false} ObjectsCount(items: seq<Item>)
    ensures forall o :: multiset(Objects(items))[o] == multiset(items)[Obj(o)]
    ensures forall o :: o in Objects(items) <==> Obj(o) in items
  {
    if |items| > 0 {
      ObjectsCount(items[1..]);
      assert items == [items[0]] + items[1..];
    }
  }

  /** Keeping the objects entry by entry keeps their order: the objects of a concatenation are the concatenation of the objects. */
  lemma {:induction false} ObjectsConcat(a: seq<Item>, b: seq<Item>)
    ensures Objects(a + b) == Objects(a) + Objects(b)
  {
    if |a| > 0 {
      assert (a + b)[0] == a[0];
      assert (a + b)[1..] == a[1..] + b;
      ObjectsConcat(a[1..], b);
      if a[0].Obj? {
        assert [a[0].fields] + (Objects(a[1..]) + Objects(b)) == ([a[0].fields] + Objects(a[1..])) + Objects(b);
      }
    } else {
      assert a + b == b;
    }
  }

  // ----------------------------------------------------------- normalising

  /** A row of the day and week views. */
  datatype Row = Row(date: string, start: string, end: string, title: Value, calendar: Value,
                     category: Value, durationMinutes: nat, notes: Value)

  /**
   * The row `normalize_events` builds from event `e` whose bounds parsed to
   * `s` and `t`: the start's date and both `HH:MM` clocks, the whole minutes
   * between them floored and never negative, and the text fields defaulted
   * by `or`, the category falling back to the calendar.
   */
  function RowOf(e: Object, s: DateTime, t: DateTime): (row: Row)
    requires ValidDateTime(s) && ValidDateTime(t) && Subtractable(s, t)
    ensures row.date == DateText(s.DateOf()) && row.start == ClockText(s) && row.end == ClockText(t)
    ensures row.durationMinutes * 60 <= (if SecondsBetween(s, t) > 0 then SecondsBetween(s, t) else 0)
    ensures SecondsBetween(s, t) >= 0 ==> SecondsBetween(s, t) < (row.durationMinutes + 1) * 60
    ensures row.title == (if Truthy(Get(e, "title")) then Get(e, "title") else Text(""))
    ensures row.calendar == (if Truthy(Get(e, "calendar")) then Get(e, "calendar") else Text(""))
    ensures row.notes == (if Truthy(Get(e, "notes")) then Get(e, "notes") else Text(""))
    ensures row.category == (if Truthy(Get(e, "category")) then Get(e, "category")
                             else if Truthy(Get(e, "calendar")) then Get(e, "calendar") else Text(""))
  {
    Row(DateText(s.DateOf()), ClockText(s), ClockText(t),
        OrElse(Get(e, "title"), Text("")), OrElse(Get(e, "calendar"), Text("")),
        OrElse(OrElse(Get(e, "category"), Get(e, "calendar")), Text("")),
        ClampedMinutes(s, t), OrElse(Get(e, "notes"), Text("")))
  }

  /**
   * One pass of `normalize_events`' loop: nothing when the start or the end
   * is missing, empty or not ISO text; the `TypeError` of subtracting a naive
   * from an aware date-time; otherwise the event's row.
   */
  function NormalizeEvent(e: Object): (r: Outcome<Row>)
    ensures r.Skip? <==>
      (|| !Truthy(Get(e, "start")) || !Truthy(Get(e, "end"))
       || ParseIso(Str(Get(e, "start"))).None? || ParseIso(Str(Get(e, "end"))).None?)
    ensures !r.Skip? ==>
      var s, t := ParseIso(Str(Get(e, "start"))).value, ParseIso(Str(Get(e, "end"))).value;
      && (r.Crash? <==> !Subtractable(s, t))
      && (r.Emit? ==> r.event == RowOf(e, s, t))
  {
    var startRaw, endRaw := Get(e, "start"), Get(e, "end");
    if !Truthy(startRaw) || !Truthy(endRaw) then Skip
    else match (ParseIso(Str(startRaw)), ParseIso(Str(endRaw)))
      case (Some(s), Some(t)) =>
        if !Subtractable(s, t) then Crash("can't subtract offset-naive and offset-aware datetimes")
        else Emit(RowOf(e, s, t))
      case _ => Skip
  }

  /** The sort key `(x["date"], x["start"], x["title"])`. */
  function RowKey(r: Row): seq<string> {
    [r.date, r.start, Str(r.title)]
  }

  /** The rows of `events`, in event order, before sorting. */
  function Rows(events: seq<Object>): Result<seq<Row>> {
    Collect(events, NormalizeEvent)
  }

  /**
   * Two rows tie on date and start while one title is `True` and the other
   * a string. Python's tuple comparison then compares the titles with `<`,
   * which raises `TypeError`; a comparison sort cannot order such a group
   * without comparing a `True` title with a string one, because the two
   * kinds meet somewhere in the group's sorted order.
   */
  predicate MixedTitles(rows: seq<Row>) {
    exists i, j :: 0 <= i < j < |rows| && rows[i].date == rows[j].date && rows[i].start == rows[j].start
      && rows[i].title.Text? != rows[j].title.Text?
  }

  /**
   * `normalize_events`: one row per event that has both bounds, in order,
   * then sorted by (date, start, title); an uncaught exception in the loop,
   * or the `TypeError` of comparing a `True` title with a string one, ends
   * the run.
   */
  method NormalizeEvents(events: seq<Object>) returns (r: Result<seq<Row>>)
    ensures r.Ok? <==> Rows(events).Ok? && !MixedTitles(Rows(events).value)
    ensures r.Ok? ==> r.value == SortBy(Rows(events).value, RowKey, false)
    ensures r.Ok? ==> SortedBy(r.value, RowKey, false) && multiset(r.value) == multiset(Rows(events).value)
    ensures r.Ok? ==> |r.value| <= |events|
  {
    var normalized: seq<Row> := [];
    var i := 0;
    while i < |events|
      invariant 0 <= i <= |events|
      invariant Collect(events[..i], NormalizeEvent) == Ok(normalized)
    {
      var outcome := NormalizeEvent(events[i]);
      CollectStep(events, i, NormalizeEvent, normalized);
      if outcome.Crash? {
        return Err(outcome.reason);
      } else if outcome.Emit? {
        normalized := normalized + [outcome.event];
      }
      i := i + 1;
    }
    assert events[..i] == events;
    if MixedTitles(normalized) {
      return Err("'<' not supported between instances of 'str' and 'bool'");
    }
    CollectEvents(events, NormalizeEvent);
    SortBySorted(normalized, RowKey, false);
    SortByPermutes(normalized, RowKey, false);
    normalized := SortBy(normalized, RowKey, false);
    r := Ok(normalized);
  }

  /**
   * Every row comes from an event of its own whose bounds parse, and no
   * duration is negative; rows that tie on (date, start, title) keep the
   * order of their events.
   */
  lemma RowsFromEvents(events: seq<Object>, k: seq<string>)
    requires Rows(events).Ok?
    ensures var rows := Rows(events).value;
      && |rows| <= |events|
      && (forall x <- rows :: exists i :: (0 <= i < |events| && NormalizeEvent(events[i]) == Emit(x)
            && ParseIso(Str(Get(events[i], "start"))).Some? && ParseIso(Str(Get(events[i], "end"))).Some?))
      && WithKey(SortBy(rows, RowKey, false), RowKey, k) == WithKey(rows, RowKey, k)
  {
    CollectEvents(events, NormalizeEvent);
    SortByStable(Rows(events).value, RowKey, k, false);
  }

  /**
   * Events whose titles are strings, or falsy, as the fetch scripts write
   * them, never give rows with mixed title kinds, so only the loop can
   * make `normalize_events` raise.
   */
  lemma StringTitlesNeverMix(events: seq<Object>)
    requires forall e <- events :: !Get(e, "title").Flag? || !Get(e, "title").b
    requires Rows(events).Ok?
    ensures forall x <- Rows(events).value :: x.title.Text?
    ensures !MixedTitles(Rows(events).value)
  {
    CollectEvents(events, NormalizeEvent);
    var rows := Rows(events).value;
    forall x <- rows ensures x.title.Text? {
      var i :| 0 <= i < |events| && NormalizeEvent(events[i]) == Emit(x);
      assert events[i] in events;
      RowTitleIsText(events[i]);
    }
    assert !MixedTitles(rows) by {
      forall i, j | 0 <= i < j < |rows| ensures rows[i].title.Text? && rows[j].title.Text? {
        assert rows[i] in rows && rows[j] in rows;
      }
    }
  }

  /** A row's title is a string unless the event's title is `True`. */
  lemma RowTitleIsText(e: Object)
    requires !Get(e, "title").Flag? || !Get(e, "title").b
    requires NormalizeEvent(e).Emit?
    ensures NormalizeEvent(e).event.title.Text?
  {
  }

  // --------------------------------------------------------------- payload

  /** The `meta` of the payload. */
  datatype Meta = Meta(week: string, selectedDay: Option<string>, source: string, eventCount: nat)

  /** The payload `build_payload` returns. */
  datatype View = View(periods: seq<string>, day: seq<Row>, week: seq<Row>, meta: Meta)

  /** `[evt for evt in events if evt["date"] == day]`: each row of that day as many times as it occurs. */
  function RowsOn(events: seq<Row>, day: string): (r: seq<Row>)
    ensures |r| <= |events|
    ensures forall x :: x in r <==> x in events && x.date == day
    ensures forall x :: multiset(r)[x] == if x.date == day then multiset(events)[x] else 0
  {
    if |events| == 0 then []
    else
      var rest := RowsOn(events[1..], day);
      assert events == [events[0]] + events[1..];
      assert forall x :: x in events <==> x == events[0] || x in events[1..];
      if events[0].date == day then [events[0]] + rest else rest
  }

  /** Selecting row by row keeps the rows' order: the rows of a day in a concatenation are the concatenation of its rows in each part. */
  lemma {:induction false} RowsOnConcat(a: seq<Row>, b: seq<Row>, day: string)
    ensures RowsOn(a + b, day) == RowsOn(a, day) + RowsOn(b, day)
  {
    if |a| > 0 {
      assert (a + b)[0] == a[0];
      assert (a + b)[1..] == a[1..] + b;
      RowsOnConcat(a[1..], b, day);
    } else {
      assert a + b == b;
    }
  }

  /** `day_label or (week_start_from_label(week_label).isoformat() if events else None)`. */
  function SelectedDay(weekLabel: string, dayLabel: Option<string>, events: seq<Row>): Result<Option<string>> {
    if dayLabel.Some? && dayLabel.value != "" then Ok(dayLabel)
    else if |events| == 0 then Ok(None)
    else match WeekStartFromLabel(weekLabel)
      case Ok(d) => Ok(Some(DateText(d)))
      case Err(m) => Err(m)
  }

  /**
   * `build_payload`: the day view holds exactly the rows of the selected
   * day, which is the given day, else the Monday of the labelled week when
   * there are rows, else none; the week view holds every row.
   */
  function BuildPayload(weekLabel: string, dayLabel: Option<string>, events: seq<Row>, source: string): (r: Result<View>)
    ensures r.Err? <==> (dayLabel.None? || dayLabel.value == "") && |events| > 0 && WeekStartFromLabel(weekLabel).Err?
    ensures r.Ok? ==> r.value.periods == ["day", "week"] && r.value.week == events
    ensures r.Ok? ==> r.value.meta.week == weekLabel && r.value.meta.eventCount == |events| && r.value.meta.source == source
    ensures r.Ok? ==> (r.value.meta.selectedDay.None? <==> (dayLabel.None? || dayLabel.value == "") && |events| == 0)
    ensures r.Ok? && dayLabel.Some? && dayLabel.value != "" ==> r.value.meta.selectedDay == dayLabel
    ensures r.Ok? && (dayLabel.None? || dayLabel.value == "") && |events| > 0 ==>
      r.value.meta.selectedDay == Some(DateText(WeekStartFromLabel(weekLabel).value))
    ensures r.Ok? && r.value.meta.selectedDay.Some? ==>
      && r.value.day == RowsOn(events, r.value.meta.selectedDay.value)
      && forall x :: x in r.value.day <==> x in events && x.date == r.value.meta.selectedDay.value
    ensures r.Ok? && r.value.meta.selectedDay.None? ==> r.value.day == []
  {
    match SelectedDay(weekLabel, dayLabel, events)
    case Err(m) => Err(m)
    case Ok(day) =>
      var rows := if day.Some? && day.value != "" then RowsOn(events, day.value) else [];
      assert day.Some? ==> day.value != "";
      Ok(View(["day", "week"], rows, events, Meta(weekLabel, day, source, |events|)))
  }
}
