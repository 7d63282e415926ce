/**
 * scripts/build_weekly.py: condenses a week file into the calendar block of
 * the weekly dashboard (rows newest first, minutes per calendar, how many
 * events carry notes) and lets the minutes per calendar stand in for the
 * ActivityWatch category cards.
 */
module BuildWeekly {
  import opened Wrappers
  import opened Json
  import opened Dates
  import opened Steps
  import opened Sorting

  /** The calendar name of an event without a (truthy) calendar: "uncategorised". */
  const Unfiled := "未分类"

  /** A row of the weekly calendar block. */
  datatype Row = Row(date: string, start: string, end: string, title: Value, category: Value,
                     calendar: Value, durationMinutes: nat, notes: Value)

  // ------------------------------------------------------------ one event

  /** `evt[k]` exists, is text, and `datetime.fromisoformat` reads it. */
  predicate HasIsoBound(e: Object, k: string) {
    k in e && e[k].Text? && ParseIso(e[k].s).Some?
  }

  /** The `try` block of the loop succeeds: the entry is an object with both bounds readable. */
  predicate Readable(item: Item) {
    item.Obj? && HasIsoBound(item.fields, "start") && HasIsoBound(item.fields, "end")
  }

  function Bound(e: Object, k: string): (t: DateTime)
    requires HasIsoBound(e, k)
    ensures ValidDateTime(t)
  {
    ParseIso(e[k].s).value
  }

  /**
   * The row built from event `e` whose bounds read as `s` and `t`: the
   * start's date and both `HH:MM` clocks, whole minutes floored and never
   * negative, the calendar (or the unfiled name) as both category and
   * calendar, and title and notes as `dict.get` with `""` for a missing key.
   */
  function RowFrom(e: Object, s: DateTime, t: DateTime): (row: Row)
    requires ValidDateTime(s) && ValidDateTime(t) && Subtractable(s, t)
    ensures row.date == DateText(s.DateOf()) && row.start == ClockText(s) && row.end == ClockText(t)
    ensures row.durationMinutes * 60 <= (if SecondsBetween(s, t) > 0 then SecondsBetween(s, t) else 0)
    ensures SecondsBetween(s, t) >= 0 ==> SecondsBetween(s, t) < (row.durationMinutes + 1) * 60
    ensures row.category == row.calendar
    ensures row.calendar == (if Truthy(Get(e, "calendar")) then Get(e, "calendar") else Text(Unfiled))
    ensures row.title == (if "title" in e then e["title"] else Text(""))
    ensures row.notes == (if "notes" in e then e["notes"] else Text(""))
    ensures Truthy(row.notes) <==> Truthy(Get(e, "notes"))
  {
    var name := OrElse(Get(e, "calendar"), Text(Unfiled));
    Row(DateText(s.DateOf()), ClockText(s), ClockText(t), GetOr(e, "title", Text("")), name, name,
        ClampedMinutes(s, t), GetOr(e, "notes", Text("")))
  }

  /**
   * One pass of `normalize_calendar`'s loop: a missing key, a bound that is
   * not text or not ISO, or an entry that is not an object is caught and
   * skipped; subtracting a naive from an aware bound raises past the `try`.
   */
  function CalendarRow(item: Item): (r: Outcome<Row>)
    ensures r.Skip? <==> !Readable(item)
    ensures !r.Skip? ==>
      var e := item.fields;
      && (r.Crash? <==> !Subtractable(Bound(e, "start"), Bound(e, "end")))
      && (r.Emit? ==> r.event == RowFrom(e, Bound(e, "start"), Bound(e, "end")))
  {
    match item
    case NonObject => Skip
    case Obj(e) =>
      if !HasIsoBound(e, "start") || !HasIsoBound(e, "end") then Skip
      else
        var s, t := Bound(e, "start"), Bound(e, "end");
        if !Subtractable(s, t) then Crash("can't subtract offset-naive and offset-aware datetimes")
        else Emit(RowFrom(e, s, t))
  }

  /**
   * What the loop over `cal_data.get("events") or []` meets: `None` when
   * `cal_data.get` raises on a file that is not an object or the value is
   * `true`, which cannot be iterated; both raise before the `try`.
   */
  function EventsOf(data: WeekData): (r: Option<seq<Item>>)
    ensures r.None? <==> data.NotAnObject? || data.events == Scalar(Flag(true))
    ensures data.WeekObject? && data.events.Listed? ==> r == Some(data.events.items)
  {
    if data.NotAnObject? then None else Iterated(data.events)
  }

  /** The rows of the loop, in event order, before sorting. */
  function Rows(data: WeekData): Result<seq<Row>> {
    match EventsOf(data)
    case None => Err("calendar events cannot be iterated")
    case Some(items) => Collect(items, CalendarRow)
  }

  /** A falsy `events` or a string in its place yields no rows: every character is skipped by the `except`. */
  lemma ScalarEventsNoRows(data: WeekData)
    requires data.WeekObject? && data.events.Scalar? && data.events.v != Flag(true)
    ensures Rows(data) == Ok([])
  {
    SkippedAll(EventsOf(data).value);
  }

  /** Entries none of which is an object collect to no rows. */
  lemma {:induction false} SkippedAll(items: seq<Item>)
    requires forall i :: 0 <= i < |items| ==> items[i].NonObject?
    ensures Collect(items, CalendarRow) == Ok([])
  {
    if |items| > 0 {
      SkippedAll(items[..|items| - 1]);
    }
  }

  // ---------------------------------------------------- totals and counts

  /** `category_totals`: its keys in first-insertion order, and the minutes under each. */
  datatype Totals = Totals(names: seq<Value>, minutes: map<Value, nat>)

  /** What every dict satisfies: each key listed once, and the listed keys are the keys. */
  ghost predicate WellFormed(t: Totals) {
    && (forall i, j :: 0 <= i < j < |t.names| ==> t.names[i] != t.names[j])
    && (forall n :: n in t.minutes <==> n in t.names)
  }

  /** `category_totals[name] = category_totals.get(name, 0) + m`. */
  function AddMinutes(t: Totals, name: Value, m: nat): (r: Totals)
    ensures r.minutes.Keys == t.minutes.Keys + {name}
    ensures r.minutes[name] == (if name in t.minutes then t.minutes[name] else 0) + m
    ensures forall n :: n in t.minutes && n != name ==> r.minutes[n] == t.minutes[n]
    ensures r.names == if name in t.minutes then t.names else t.names + [name]
  {
    if name in t.minutes then Totals(t.names, t.minutes[name := t.minutes[name] + m])
    else Totals(t.names + [name], t.minutes[name := m])
  }

  /** Adding minutes keeps a dict well formed. */
  lemma AddMinutesWellFormed(t: Totals, name: Value, m: nat)
    requires WellFormed(t)
    ensures WellFormed(AddMinutes(t, name, m))
  {
    if name !in t.minutes {
      var names := t.names + [name];
      assert forall n :: n in names <==> n in t.names || n == name;
    }
  }

  /** The totals after the loop has seen `rows`. */
  function TotalsOf(rows: seq<Row>): Totals {
    if |rows| == 0 then Totals([], map[])
    else
      var last := rows[|rows| - 1];
      AddMinutes(TotalsOf(rows[..|rows| - 1]), last.category, last.durationMinutes)
  }

  /** The minutes of the rows of category `c`. */
  function MinutesIn(rows: seq<Row>, c: Value): nat {
    if |rows| == 0 then 0
    else MinutesIn(rows[..|rows| - 1], c) + (if rows[|rows| - 1].category == c then rows[|rows| - 1].durationMinutes else 0)
  }

  /** The minutes of all `rows`. */
  function TotalMinutes(rows: seq<Row>): nat {
    if |rows| == 0 then 0 else TotalMinutes(rows[..|rows| - 1]) + rows[|rows| - 1].durationMinutes
  }

  /** How many `rows` have truthy notes. */
  function NotesCount(rows: seq<Row>): nat {
    if |rows| == 0 then 0 else NotesCount(rows[..|rows| - 1]) + (if Truthy(rows[|rows| - 1].notes) then 1 else 0)
  }

  /** The minutes listed under `names`. */
  function SumOver(names: seq<Value>, minutes: map<Value, nat>): nat
    requires forall n <- names :: n in minutes
  {
    if |names| == 0 then 0 else SumOver(names[..|names| - 1], minutes) + minutes[names[|names| - 1]]
  }

  /** The totals are a well-formed dict. */
  lemma {:induction false} TotalsWellFormed(rows: seq<Row>)
    ensures WellFormed(TotalsOf(rows))
  {
    if |rows| > 0 {
      var last := rows[|rows| - 1];
      TotalsWellFormed(rows[..|rows| - 1]);
      AddMinutesWellFormed(TotalsOf(rows[..|rows| - 1]), last.category, last.durationMinutes);
    }
  }

  /** The keys of the totals are the categories that occur among the rows. */
  lemma {:induction false} TotalsKeys(rows: seq<Row>)
    ensures TotalsOf(rows).minutes.Keys == (set r <- rows :: r.category)
  {
    if |rows| > 0 {
      var init, last := rows[..|rows| - 1], rows[|rows| - 1];
      TotalsKeys(init);
      assert rows == init + [last];
      assert (set r <- rows :: r.category) == (set r <- init :: r.category) + {last.category};
    }
  }

  /** Under each key the totals hold the minutes of the rows of that category. */
  lemma {:induction false} TotalsMinutes(rows: seq<Row>)
    ensures forall c <- TotalsOf(rows).minutes :: TotalsOf(rows).minutes[c] == MinutesIn(rows, c)
  {
    if |rows| > 0 {
      var init, last := rows[..|rows| - 1], rows[|rows| - 1];
      TotalsMinutes(init);
      TotalsKeys(init);
      var t0 := TotalsOf(init);
      var t := AddMinutes(t0, last.category, last.durationMinutes);
      assert TotalsOf(rows) == t;
      forall c <- t.minutes
        ensures t.minutes[c] == MinutesIn(rows, c)
      {
        assert MinutesIn(rows, c) == MinutesIn(init, c) + (if last.category == c then last.durationMinutes else 0);
        if c !in t0.minutes {
          MinutesInAbsent(init, c);
        }
      }
    }
  }

  /**
   * The totals hold one key per category that occurs among the rows, each
   * once, and under each key the minutes of the rows of that category.
   */
  lemma TotalsPerCategory(rows: seq<Row>)
    ensures var t := TotalsOf(rows);
      && WellFormed(t)
      && t.minutes.Keys == (set r <- rows :: r.category)
      && (forall c <- t.minutes :: t.minutes[c] == MinutesIn(rows, c))
  {
    TotalsWellFormed(rows);
    TotalsKeys(rows);
    TotalsMinutes(rows);
  }

  /** A category no row has has no minutes. */
  lemma {:induction false} MinutesInAbsent(rows: seq<Row>, c: Value)
    requires c !in (set r <- rows :: r.category)
    ensures MinutesIn(rows, c) == 0
  {
    if |rows| > 0 {
      var init := rows[..|rows| - 1];
      assert rows[|rows| - 1] in rows;
      assert (set r <- init :: r.category) <= (set r <- rows :: r.category);
      MinutesInAbsent(init, c);
    }
  }

  /** No rows, no totals; at least one row, at least one total. */
  lemma TotalsEmptyIffNoRows(rows: seq<Row>)
    ensures |TotalsOf(rows).names| == 0 <==> |rows| == 0
  {
    if |rows| > 0 {
      TotalsPerCategory(rows);
      var t := TotalsOf(rows);
      assert rows[0].category in t.minutes.Keys;
    }
  }

  /** Raising the minutes of a listed key raises the sum by as much. */
  lemma {:induction false} SumOverRaise(names: seq<Value>, minutes: map<Value, nat>, k: Value, d: nat)
    requires forall i, j :: 0 <= i < j < |names| ==> names[i] != names[j]
    requires forall n <- names :: n in minutes
    requires k in names
    ensures SumOver(names, minutes[k := minutes[k] + d]) == SumOver(names, minutes) + d
  {
    var m2 := minutes[k := minutes[k] + d];
    var init, last := names[..|names| - 1], names[|names| - 1];
    if last == k {
      assert k !in init;
      SumOverIgnores(init, minutes, k, minutes[k] + d);
    } else {
      assert names == init + [last];
      SumOverRaise(init, minutes, k, d);
    }
  }

  /** Listing a new key with `v` minutes adds `v` to the sum. */
  lemma SumOverAppend(names: seq<Value>, minutes: map<Value, nat>, k: Value, v: nat)
    requires forall n <- names :: n in minutes
    requires k !in names
    ensures SumOver(names + [k], minutes[k := v]) == SumOver(names, minutes) + v
  {
    var names' := names + [k];
    assert names'[..|names'| - 1] == names;
    SumOverIgnores(names, minutes, k, v);
  }

  /** The sum over `names` does not see a key that is not listed. */
  lemma {:induction false} SumOverIgnores(names: seq<Value>, minutes: map<Value, nat>, k: Value, v: nat)
    requires forall n <- names :: n in minutes
    requires k !in names
    ensures SumOver(names, minutes[k := v]) == SumOver(names, minutes)
  {
    if |names| > 0 {
      assert names == names[..|names| - 1] + [names[|names| - 1]];
      SumOverIgnores(names[..|names| - 1], minutes, k, v);
    }
  }

  /** The totals add up to the minutes of all rows. */
  lemma {:induction false} TotalsSum(rows: seq<Row>)
    ensures WellFormed(TotalsOf(rows))
    ensures SumOver(TotalsOf(rows).names, TotalsOf(rows).minutes) == TotalMinutes(rows)
  {
    TotalsWellFormed(rows);
    if |rows| > 0 {
      var init, last := rows[..|rows| - 1], rows[|rows| - 1];
      TotalsSum(init);
      SumAfterAdd(TotalsOf(init), last.category, last.durationMinutes);
    }
  }

  /** Adding `m` minutes under any name adds `m` to the sum of a dict. */
  lemma SumAfterAdd(t: Totals, name: Value, m: nat)
    requires WellFormed(t)
    ensures WellFormed(AddMinutes(t, name, m))
    ensures var r := AddMinutes(t, name, m); SumOver(r.names, r.minutes) == SumOver(t.names, t.minutes) + m
  {
    AddMinutesWellFormed(t, name, m);
    var r := AddMinutes(t, name, m);
    if name in t.minutes {
      assert name in t.names;
      SumOverRaise(t.names, t.minutes, name, m);
      assert r.minutes == t.minutes[name := t.minutes[name] + m];
    } else {
      assert name !in t.names;
      SumOverAppend(t.names, t.minutes, name, m);
      assert r.minutes == t.minutes[name := m];
    }
  }

  /** Events the loop reads whose notes are truthy. */
  function NotedEvents(items: seq<Item>): nat {
    if |items| == 0 then 0
    else
      var last := items[|items| - 1];
      NotedEvents(items[..|items| - 1])
        + (if CalendarRow(last).Emit? && Truthy(Get(last.fields, "notes")) then 1 else 0)
  }

  /** `notes_count` counts the emitted events whose `notes` is truthy. */
  lemma {:induction false} NotesCountCountsEvents(items: seq<Item>)
    requires Collect(items, CalendarRow).Ok?
    ensures NotesCount(Collect(items, CalendarRow).value) == NotedEvents(items)
  {
    if |items| > 0 {
      var init := items[..|items| - 1];
      NotesCountCountsEvents(init);
      var rows := Collect(init, CalendarRow).value;
      var last := CalendarRow(items[|items| - 1]);
      if last.Emit? {
        assert (rows + [last.event])[..|rows|] == rows;
      }
    }
  }

  // -------------------------------------------------------------- the loop

  /** What one more row does to the totals and the notes count. */
  lemma AppendRow(rows: seq<Row>, row: Row)
    ensures TotalsOf(rows + [row]) == AddMinutes(TotalsOf(rows), row.category, row.durationMinutes)
    ensures NotesCount(rows + [row]) == NotesCount(rows) + if Truthy(row.notes) then 1 else 0
  {
    assert (rows + [row])[..|rows|] == rows;
  }

  /** The calendar block `normalize_calendar` returns. */
  datatype CalendarView = CalendarView(week: seq<Row>, month: seq<Row>, year: seq<Row>, totals: Totals, notesCount: nat)

  /** The sort key `(x["date"], x["start"])`. */
  function WeekKey(r: Row): seq<string> {
    [r.date, r.start]
  }

  /**
   * `normalize_calendar`: the rows of the readable events sorted by
   * (date, start) with `reverse=True`, empty month and year lists, the
   * minutes per calendar and the count of events with notes.
   */
  method NormalizeCalendar(data: WeekData) returns (r: Result<CalendarView>)
    ensures r.Ok? <==> Rows(data).Ok?
    ensures r.Ok? ==> var rows := Rows(data).value;
      && r.value.week == SortBy(rows, WeekKey, true)
      && SortedBy(r.value.week, WeekKey, true) && multiset(r.value.week) == multiset(rows)
      && r.value.month == [] && r.value.year == []
      && r.value.totals == TotalsOf(rows)
      && r.value.notesCount == NotesCount(rows)
  {
    var loaded := EventsOf(data);
    if loaded.None? {
      return Err("calendar events cannot be iterated");
    }
    r := NormalizeEntries(loaded.value);
  }

  /** `normalize_calendar`'s loop and sort over the entries it iterates. */
  method NormalizeEntries(items: seq<Item>) returns (r: Result<CalendarView>)
    ensures r.Ok? <==> Collect(items, CalendarRow).Ok?
    ensures r.Ok? ==> var rows := Collect(items, CalendarRow).value;
      && r.value.week == SortBy(rows, WeekKey, true)
      && SortedBy(r.value.week, WeekKey, true) && multiset(r.value.week) == multiset(rows)
      && r.value.month == [] && r.value.year == []
      && r.value.totals == TotalsOf(rows)
      && r.value.notesCount == NotesCount(rows)
  {
    var norm: seq<Row> := [];
    var totals := Totals([], map[]);
    var notesCount := 0;
    var i := 0;
    while i < |items|
      invariant 0 <= i <= |items|
      invariant Collect(items[..i], CalendarRow) == Ok(norm)
      invariant totals == TotalsOf(norm)
      invariant notesCount == NotesCount(norm)
    {
      var outcome := CalendarRow(items[i]);
      CollectStep(items, i, CalendarRow, norm);
      if outcome.Crash? {
        return Err(outcome.reason);
      } else if outcome.Emit? {
        var row := outcome.event;
        AppendRow(norm, row);
        if Truthy(row.notes) {
          notesCount := notesCount + 1;
        }
        totals := AddMinutes(totals, row.category, row.durationMinutes);
        norm := norm + [row];
      }
      i := i + 1;
    }
    assert items[..i] == items;
    SortBySorted(norm, WeekKey, true);
    SortByPermutes(norm, WeekKey, true);
    r := Ok(CalendarView(SortBy(norm, WeekKey, true), [], [], totals, notesCount));
  }

  /**
   * Every row comes from a readable event of its own, and rows that share
   * (date, start) keep the order of their events.
   */
  lemma RowsFromEvents(data: WeekData, k: seq<string>)
    requires Rows(data).Ok?
    ensures var items, rows := EventsOf(data).value, Rows(data).value;
      && |rows| <= |items|
      && (forall x <- rows :: exists i :: (0 <= i < |items| && CalendarRow(items[i]) == Emit(x) && Readable(items[i])))
      && WithKey(SortBy(rows, WeekKey, true), WeekKey, k) == WithKey(rows, WeekKey, k)
  {
    CollectEvents(EventsOf(data).value, CalendarRow);
    SortByStable(Rows(data).value, WeekKey, k, true);
  }

  /**
   * Sorting the whole (date, start) pair with `reverse=True` puts later
   * dates first and, within one date, later starts first as well.
   */
  lemma NewestFirst(week: seq<Row>)
    requires SortedBy(week, WeekKey, true)
    ensures forall i, j :: 0 <= i < j < |week| ==>
      && !StrLt(week[i].date, week[j].date)
      && (week[i].date == week[j].date ==> !StrLt(week[i].start, week[j].start))
  {
    forall i, j | 0 <= i < j < |week|
      ensures !StrLt(week[i].date, week[j].date)
      ensures week[i].date == week[j].date ==> !StrLt(week[i].start, week[j].start)
    {
      var a, b := WeekKey(week[i]), WeekKey(week[j]);
      assert !KeyLt(a, b);
      assert a[1..] == [week[i].start] && b[1..] == [week[j].start];
      assert a[1..][1..] == [] && b[1..][1..] == [];
    }
  }

  // ------------------------------------------------------------ the payload

  /** A category card: the calendar's minutes, a zero baseline and a `None` change. */
  datatype Card = Card(name: Value, durationMinutes: nat, baselineMinutes: nat, changePct: Value)

  /** The `activitywatch` block: the calendar's cards for every period, or the loaded aggregate. */
  datatype Activity<A> = FromCalendar(day: seq<Card>, week: seq<Card>, month: seq<Card>, year: seq<Card>)
                       | Loaded(aggregate: A)

  /** The `meta` block. */
  datatype Meta = Meta(calendarSource: string, notesCount: nat)

  /** The payload injected into the page; mood and incidents pass through as loaded. */
  datatype Payload<A, M, I> = Payload(periods: seq<string>, activitywatch: Activity<A>, mood: M, incidents: I,
                                        calendar: CalendarView, meta: Meta)

  /** One card per key of `t`, in key order. */
  predicate CardsOf(cards: seq<Card>, t: Totals)
    requires WellFormed(t)
  {
    && |cards| == |t.names|
    && forall i :: 0 <= i < |cards| ==> cards[i] == Card(t.names[i], t.minutes[t.names[i]], 0, Null)
  }

  /** The card loop of `build_payload`: one card per `category_totals` item. */
  method CalendarCards(t: Totals) returns (cards: seq<Card>)
    requires WellFormed(t)
    ensures CardsOf(cards, t)
  {
    cards := [];
    var i := 0;
    while i < |t.names|
      invariant 0 <= i <= |t.names|
      invariant |cards| == i
      invariant forall j :: 0 <= j < i ==> cards[j] == Card(t.names[j], t.minutes[t.names[j]], 0, Null)
    {
      var name := t.names[i];
      cards := cards + [Card(name, t.minutes[name], 0, Null)];
      i := i + 1;
    }
  }

  /**
   * The cards built from the rows' totals name each category of the rows
   * exactly once and carry that category's minutes.
   */
  lemma CardsSummariseRows(cards: seq<Card>, rows: seq<Row>)
    requires WellFormed(TotalsOf(rows)) && CardsOf(cards, TotalsOf(rows))
    ensures forall i, j :: 0 <= i < j < |cards| ==> cards[i].name != cards[j].name
    ensures (set c <- cards :: c.name) == (set r <- rows :: r.category)
    ensures forall c <- cards :: c.durationMinutes == MinutesIn(rows, c.name) && c.baselineMinutes == 0
  {
    TotalsPerCategory(rows);
    var t := TotalsOf(rows);
    forall c <- cards
      ensures c.name in t.names && c.durationMinutes == MinutesIn(rows, c.name) && c.baselineMinutes == 0
    {
      var i :| 0 <= i < |cards| && cards[i] == c;
      assert c.name == t.names[i];
    }
    forall n <- t.names
      ensures n in (set c <- cards :: c.name)
    {
      var i :| 0 <= i < |t.names| && t.names[i] == n;
      assert cards[i].name == n;
    }
  }

  /**
   * `build_payload`: the calendar block of the events, the cards that stand
   * in for every period when the calendar has any category (the loaded
   * aggregate otherwise), and the source and notes count in `meta`.
   */
  method BuildPayload<A, M, I>(data: WeekData, calendarPath: Option<string>, aw: A, mood: M, incidents: I)
    returns (r: Result<Payload<A, M, I>>)
    ensures r.Ok? <==> Rows(data).Ok?
    ensures r.Ok? ==> var rows, p := Rows(data).value, r.value;
      && p.periods == ["week", "month", "year"]
      && p.mood == mood && p.incidents == incidents
      && p.calendar.week == SortBy(rows, WeekKey, true) && p.calendar.month == [] && p.calendar.year == []
      && p.calendar.totals == TotalsOf(rows) && p.calendar.notesCount == NotesCount(rows)
      && (p.activitywatch.Loaded? <==> |rows| == 0)
      && (p.activitywatch.Loaded? ==> p.activitywatch.aggregate == aw)
      && (p.activitywatch.FromCalendar? ==>
            && WellFormed(TotalsOf(rows)) && CardsOf(p.activitywatch.day, TotalsOf(rows))
            && p.activitywatch.week == p.activitywatch.day
            && p.activitywatch.month == p.activitywatch.day
            && p.activitywatch.year == p.activitywatch.day)
      && p.meta == Meta(if calendarPath.Some? then calendarPath.value else "mock", NotesCount(rows))
  {
    var normalized := NormalizeCalendar(data);
    if normalized.Err? {
      return Err(normalized.reason);
    }
    var cal := normalized.value;
    TotalsPerCategory(Rows(data).value);
    TotalsEmptyIffNoRows(Rows(data).value);
    var cards := CalendarCards(cal.totals);
    var activity: Activity<A>;
    if |cards| > 0 {
      activity := FromCalendar(cards, cards, cards, cards);
    } else {
      activity := Loaded(aw);
    }
    var source := if calendarPath.Some? then calendarPath.value else "mock";
    r := Ok(Payload(["week", "month", "year"], activity, mood, incidents, cal, Meta(source, cal.notesCount)));
  }
}
