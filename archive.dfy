/**
 * The yearly calendar archive of scripts/build_calendar_archive.py: week
 * files are merged into one flat list of the target year's events, repeats
 * of a (title, start, end) key are dropped and the ones that are not
 * week-boundary overlaps are reported, the list is sorted by start, cut
 * into at most nine size-bounded chunks and described in a review report.
 */
module Archive {
  import opened Wrappers
  import opened Text
  import opened Json
  import opened Dates
  import opened Sorting

  // ------------------------------------------------------------ week labels

  /**
   * `parse_week_label`: drop one leading `week-`, then read a
   * `DDDD-WDD` prefix of ASCII digits as (year, week); anything after it is ignored.
   */
  function ParseWeekLabel(s: string): (r: Option<(int, int)>)
    ensures r.Some? ==> 0 <= r.value.0 <= 9999 && 0 <= r.value.1 <= 99
  {
    var txt := if StartsWith(s, "week-") then s[5..] else s;
    if |txt| >= 8 && AllDigits(txt[..4]) && txt[4] == '-' && txt[5] == 'W' && AllDigits(txt[6..8]) then
      DigitsValueBelow(txt[..4]);
      DigitsValueBelow(txt[6..8]);
      Some((DigitsValue(txt[..4]), DigitsValue(txt[6..8])))
    else None
  }

  /** A `YYYY-Www` label, with or without the `week-` prefix and whatever follows it, reads back as its year and week. */
  lemma ParseWeekLabelReads(y: nat, w: nat, rest: string)
    requires y <= 9999 && w <= 99
    ensures ParseWeekLabel(Pad4(y) + "-W" + Pad2(w) + rest) == Some((y, w))
    ensures ParseWeekLabel("week-" + Pad4(y) + "-W" + Pad2(w) + rest) == Some((y, w))
  {
    var body := Pad4(y) + "-W" + Pad2(w) + rest;
    assert body[..4] == Pad4(y);
    assert body[6..8] == Pad2(w);
    assert !StartsWith(body, "week-") by {
      assert IsDigit(body[0]);
    }
    var prefixed := "week-" + body;
    assert prefixed == "week-" + Pad4(y) + "-W" + Pad2(w) + rest;
    assert StartsWith(prefixed, "week-") && prefixed[5..] == body;
  }

  /** Only one `week-` is dropped: a doubled prefix never parses. */
  lemma ParseWeekLabelStripsOnce(rest: string)
    ensures ParseWeekLabel("week-week-" + rest) == None
  {
    var s := "week-week-" + rest;
    assert StartsWith(s, "week-");
    assert s[5..][0] == 'w';
  }

  /** `weeks_are_adjacent`: consecutive week numbers in one year, or week 52/53 next to week 1 of the following year. */
  predicate WeeksAreAdjacent(w1: string, w2: string) {
    var a := ParseWeekLabel(w1);
    var b := ParseWeekLabel(w2);
    if a.None? || b.None? then false
    else
      var (y1, wk1) := a.value;
      var (y2, wk2) := b.value;
      if y1 == y2 then wk1 - wk2 == 1 || wk2 - wk1 == 1
      else if y1 + 1 == y2 && (wk1 == 52 || wk1 == 53) && wk2 == 1 then true
      else if y2 + 1 == y1 && (wk2 == 52 || wk2 == 53) && wk1 == 1 then true
      else false
  }

  /** Adjacency does not depend on the order of the two labels, never relates a label to itself and needs both to parse. */
  lemma WeeksAreAdjacentBasics(w1: string, w2: string)
    ensures WeeksAreAdjacent(w1, w2) == WeeksAreAdjacent(w2, w1)
    ensures !WeeksAreAdjacent(w1, w1)
    ensures ParseWeekLabel(w1).None? || ParseWeekLabel(w2).None? ==> !WeeksAreAdjacent(w1, w2)
  {
  }

  /**
   * For labels that parse: in one year, adjacency is a week-number
   * difference of exactly 1; across years it is (Y, 52 or 53) next to
   * (Y+1, 1), in either order.
   */
  lemma WeeksAreAdjacentCases(w1: string, w2: string, y1: int, k1: int, y2: int, k2: int)
    requires ParseWeekLabel(w1) == Some((y1, k1)) && ParseWeekLabel(w2) == Some((y2, k2))
    ensures y1 == y2 ==> (WeeksAreAdjacent(w1, w2) <==> (k1 - k2 == 1 || k2 - k1 == 1))
    ensures y1 + 1 == y2 ==> (WeeksAreAdjacent(w1, w2) <==> ((k1 == 52 || k1 == 53) && k2 == 1))
    ensures y2 + 1 == y1 ==> (WeeksAreAdjacent(w1, w2) <==> ((k2 == 52 || k2 == 53) && k1 == 1))
    ensures y1 - y2 > 1 || y2 - y1 > 1 ==> !WeeksAreAdjacent(w1, w2)
  {
  }

  /** The label of ISO week `w` of a four-digit year parses back to (y, w). */
  lemma IsoWeekLabelParses(y: int, w: nat)
    requires 1000 <= y <= 9999 && w <= 99
    ensures ParseWeekLabel(IsoWeekLabel(y, w)) == Some((y, w))
    ensures ParseWeekLabel("week-" + IsoWeekLabel(y, w)) == Some((y, w))
  {
    NatToStringFourDigits(y);
    ParseWeekLabelReads(y, w, "");
    assert Pad4(y) + "-W" + Pad2(w) + "" == IsoWeekLabel(y, w);
  }

  /** Every ISO week is adjacent to the one after it, in either order of the labels. */
  lemma ConsecutiveIsoWeeksAdjacent(y: int, w: nat)
    requires 1000 <= y < MaxYear && IsoWeekAccepted(y, w)
    ensures var (y2, w2) := NextIsoWeek(y, w);
      0 <= w2 < 100 && WeeksAreAdjacent(IsoWeekLabel(y, w), IsoWeekLabel(y2, w2))
  {
    WeeksInYearFacts(y);
    var (y2, w2) := NextIsoWeek(y, w);
    IsoWeekLabelParses(y, w);
    IsoWeekLabelParses(y2, w2);
  }

  /**
   * The `week` label the fetch scripts write for the week starting `d`
   * parses back to its ISO year and week, and the labels of two weeks
   * seven days apart are adjacent: a run of weekly fetches is what the
   * archive's overlap rule is written for.
   */
  lemma FetchedWeeksAdjacent(d: Date, e: Date)
    requires ValidDate(d) && ValidDate(e) && Ordinal(e) == Ordinal(d) + 7
    requires IsoCalendar(d).year >= 1000
    ensures var c := IsoCalendar(d); ParseWeekLabel(IsoWeekStr(d)) == Some((c.year, c.week))
    ensures WeeksAreAdjacent(IsoWeekStr(d), IsoWeekStr(e))
  {
    var c, c2 := IsoCalendar(d), IsoCalendar(e);
    WeekAfter(d, e);
    WeeksInYearFacts(c.year);
    IsoWeekLabelParses(c.year, c.week);
    IsoWeekLabelParses(c2.year, c2.week);
    WeeksAreAdjacentCases(IsoWeekStr(d), IsoWeekStr(e), c.year, c.week, c2.year, c2.week);
  }

  /**
   * The cross-year rule also accepts week 52 of a 53-week year next to week
   * 1 of the next year, though two weeks lie between their Mondays.
   */
  lemma AdjacencyAcrossWeek53(y: int)
    requires 1000 <= y < MaxYear && WeeksInYear(y) == 53
    ensures WeeksAreAdjacent(IsoWeekLabel(y, 52), IsoWeekLabel(y + 1, 1))
    ensures Week1Monday(y + 1) == IsoWeekOrdinal(y, 52, 1) + 14
  {
    WeeksInYearFacts(y);
    IsoWeekLabelParses(y, 52);
    IsoWeekLabelParses(y + 1, 1);
  }

  // --------------------------------------------------------------- dedup key

  /** `parse_start` / `parse_end`: the field, if truthy, read by `fromisoformat(str(...))`. */
  function ParseField(e: Object, k: string): (r: Option<DateTime>)
    ensures r.Some? ==> Truthy(Get(e, k)) && ParseIso(Str(Get(e, k))) == r && ValidDateTime(r.value)
    ensures !Truthy(Get(e, k)) ==> r.None?
  {
    var raw := Get(e, k);
    if !Truthy(raw) then None else ParseIso(Str(raw))
  }

  /** One time component of the key: the normalised ISO text when the field parses, else the raw text or "". */
  function KeyTime(e: Object, k: string): string {
    match ParseField(e, k)
    case Some(t) => IsoFormat(t)
    case None => TextOr(e, k, "")
  }

  /** The `dedup_key` triple. */
  datatype Key = Key(title: string, start: string, end: string)

  /** `dedup_key(event)`: (title or "", normalised start, normalised end). */
  function DedupKey(e: Object): (r: Key)
    ensures r.title == TextOr(e, "title", "")
    ensures ParseField(e, "start").Some? ==> r.start == IsoFormat(ParseField(e, "start").value)
    ensures ParseField(e, "start").None? ==> r.start == TextOr(e, "start", "")
    ensures ParseField(e, "end").Some? ==> r.end == IsoFormat(ParseField(e, "end").value)
    ensures ParseField(e, "end").None? ==> r.end == TextOr(e, "end", "")
  {
    Key(TextOr(e, "title", ""), KeyTime(e, "start"), KeyTime(e, "end"))
  }

  /**
   * The key pins down the parsed time: two events whose key components for
   * a field agree, the first of which parses, parse to the same date-time.
   */
  lemma KeyTimeDeterminesTime(a: Object, b: Object, k: string)
    requires ParseField(a, k).Some? && KeyTime(a, k) == KeyTime(b, k)
    ensures ParseField(b, k) == ParseField(a, k)
  {
    var t := ParseField(a, k).value;
    ParseIsoRoundTrip(t);
    assert |IsoFormat(t)| >= 10;
    if ParseField(b, k).Some? {
      IsoFormatInjective(t, ParseField(b, k).value);
    }
  }

  /** Texts that denote the same instant in different ISO spellings give the same key. */
  lemma DedupKeyNormalises(a: Object, b: Object)
    requires TextOr(a, "title", "") == TextOr(b, "title", "")
    requires ParseField(a, "start").Some? && ParseField(a, "start") == ParseField(b, "start")
    requires ParseField(a, "end").Some? && ParseField(a, "end") == ParseField(b, "end")
    ensures DedupKey(a) == DedupKey(b)
  {
  }

  /** `should_exclude`: some non-empty token is a substring of the calendar name (or ""). */
  predicate ShouldExclude(e: Object, tokens: seq<string>) {
    exists i :: 0 <= i < |tokens| && tokens[i] != "" && Contains(TextOr(e, "calendar", ""), tokens[i])
  }

  /** The exclude list of `main`: the stripped, non-empty comma-separated names, none when the option is absent. */
  function ParseExcludeList(arg: Option<string>): (r: seq<string>)
    ensures forall t <- r :: t != "" && Strip(t) == t
  {
    SplitStripNonEmpty(arg.GetOr(""), ",")
  }

  /** Names free of commas and surrounding space, given comma-joined, come back as the same list. */
  lemma ParseExcludeListRoundTrip(names: seq<string>)
    requires forall t <- names :: t != "" && Strip(t) == t && ',' !in t
    ensures ParseExcludeList(Some(Join(names, ","))) == names
    ensures ParseExcludeList(None) == []
  {
    SplitStripNonEmptyJoin(names, ',');
    assert Split("", ",") == [""] by { assert !OccursAt("", ",", 0); }
  }

  // -------------------------------------------------------------- week files

  /** `PurePath.suffix`'s split point: the last `.`, unless it is the first or the last character. */
  function SuffixStart(name: string): (r: Option<nat>)
    ensures r.Some? ==> 0 < r.value < |name| - 1 && name[r.value] == '.' && '.' !in name[r.value + 1..]
    ensures r.None? ==> match LastIndexOfChar(name, '.') case None => true case Some(i) => i == 0 || i == |name| - 1
  {
    match LastIndexOfChar(name, '.')
    case Some(i) => if 0 < i < |name| - 1 then Some(i) else None
    case None => None
  }

  /** `PurePath.stem`. */
  function Stem(name: string): string {
    match SuffixStart(name)
    case Some(i) => name[..i]
    case None => name
  }

  /** `PurePath.suffix`. */
  function Suffix(name: string): string {
    match SuffixStart(name)
    case Some(i) => name[i..]
    case None => ""
  }

  lemma StemSuffix(name: string)
    ensures Stem(name) + Suffix(name) == name
  {
  }

  /** A week file found by the `week-*.json` glob: its path, file name and parsed content. */
  datatype WeekFile = WeekFile(path: string, name: string, data: WeekData)

  /** `re.match(r"week-(\d{4})-W\d{2}\.json", name)` over ASCII digits: a prefix match, so trailing text is allowed. */
  predicate NameMatches(name: string) {
    |name| >= 18 && name[..5] == "week-" && AllDigits(name[5..9]) && name[9..11] == "-W"
      && AllDigits(name[11..13]) && name[13..18] == ".json"
  }

  /** The entries the loop over `load_week`'s events meets, or none when they cannot be iterated. */
  function Entries(f: WeekFile): seq<Item> {
    if f.data.WeekObject? && Iterated(f.data.events).Some? then Iterated(f.data.events).value else []
  }

  /**
   * Reading a matching week file raises: `data.get` on a value that is not
   * an object, iterating `true`, or `event.get` in `parse_start` on an entry
   * that is not an object (a string's characters among them). Any of these
   * ends the whole build.
   */
  predicate Raises(f: WeekFile) {
    && NameMatches(f.name)
    && (|| f.data.NotAnObject? || (f.data.WeekObject? && Iterated(f.data.events).None?)
        || exists i :: 0 <= i < |Entries(f)| && Entries(f)[i].NonObject?)
  }

  /** `load_week`'s label: `str(data.get("week") or path.stem)`. */
  function WeekLabel(f: WeekFile): string {
    var week := if f.data.WeekObject? then f.data.week else Null;
    Str(if Truthy(week) then week else Text(Stem(f.name)))
  }

  /** One event met in a week file: the file's path and label, and the event. */
  datatype Occ = Occ(path: string, week: string, evt: Object)

  /** Events met in the entries `items` of the file at `path` labelled `week`, when every entry is an object. */
  function OccsOf(path: string, week: string, items: seq<Item>): (r: seq<Occ>)
    requires forall i :: 0 <= i < |items| ==> items[i].Obj?
    ensures |r| == |items| && forall i :: 0 <= i < |r| ==> r[i] == Occ(path, week, items[i].fields)
  {
    seq(|items|, i requires 0 <= i < |items| => Occ(path, week, items[i].fields))
  }

  /**
   * The events a week file contributes: every entry, in order, of a matching
   * file that does not raise; none from any other file (a file that raises
   * ends the build, which `BuildArchive` reports as an error).
   */
  function FileOccs(f: WeekFile): (r: seq<Occ>)
    ensures NameMatches(f.name) && !Raises(f) ==> |r| == |Entries(f)|
    ensures NameMatches(f.name) && !Raises(f) ==>
      forall i :: 0 <= i < |r| ==> Entries(f)[i].Obj? && r[i] == Occ(f.path, WeekLabel(f), Entries(f)[i].fields)
    ensures !NameMatches(f.name) || Raises(f) ==> r == []
  {
    if NameMatches(f.name) && !Raises(f) then OccsOf(f.path, WeekLabel(f), Entries(f)) else []
  }

  /** All events of the (already sorted) week files, in file order and then in-file order. */
  function Occurrences(fs: seq<WeekFile>): seq<Occ> {
    if |fs| == 0 then [] else Occurrences(fs[..|fs| - 1]) + FileOccs(fs[|fs| - 1])
  }

  // ------------------------------------------- keeping the first of each key

  /** The keys of the elements of `s` that `keep` lets through. */
  function KeysOf<T, K>(s: seq<T>, keep: T -> bool, key: T -> K): set<K> {
    if |s| == 0 then {}
    else KeysOf(s[..|s| - 1], keep, key) + (if keep(s[|s| - 1]) then {key(s[|s| - 1])} else {})
  }

  /** The first element of `s` that `keep` lets through with key `k`. */
  function FirstWith<T, K(==)>(s: seq<T>, keep: T -> bool, key: T -> K, k: K): (r: T)
    requires k in KeysOf(s, keep, key)
    ensures keep(r) && key(r) == k && r in s
  {
    var init := s[..|s| - 1];
    if k in KeysOf(init, keep, key) then FirstWith(init, keep, key, k) else s[|s| - 1]
  }

  /** Every element that is the first with its key, in order. */
  function Firsts<T, K(==)>(s: seq<T>, keep: T -> bool, key: T -> K): seq<T> {
    if |s| == 0 then []
    else
      var init, x := s[..|s| - 1], s[|s| - 1];
      Firsts(init, keep, key) + (if keep(x) && key(x) !in KeysOf(init, keep, key) then [x] else [])
  }

  /** What `report` says about each later element with an already-seen key, given the first one with that key. */
  function Repeats<T, K(==), U>(s: seq<T>, keep: T -> bool, key: T -> K, report: (T, T) -> seq<U>): seq<U> {
    if |s| == 0 then []
    else
      var init, x := s[..|s| - 1], s[|s| - 1];
      Repeats(init, keep, key, report)
        + (if keep(x) && key(x) in KeysOf(init, keep, key) then report(FirstWith(init, keep, key, key(x)), x) else [])
  }

  /** A map that holds, for every key met so far, `view` of the first element with that key. */
  ghost predicate Tracks<T, K, V>(seen: map<K, V>, s: seq<T>, keep: T -> bool, key: T -> K, view: T -> V) {
    && seen.Keys == KeysOf(s, keep, key)
    && forall k :: k in seen ==> seen[k] == view(FirstWith(s, keep, key, k))
  }

  lemma KeysOfSnoc<T, K>(p: seq<T>, x: T, keep: T -> bool, key: T -> K)
    ensures KeysOf(p + [x], keep, key) == KeysOf(p, keep, key) + (if keep(x) then {key(x)} else {})
  {
    assert (p + [x])[..|p|] == p;
  }

  /** An element appended later does not change which element was first with an earlier key. */
  lemma FirstWithSnoc<T, K>(p: seq<T>, x: T, keep: T -> bool, key: T -> K, k: K)
    requires k in KeysOf(p, keep, key)
    ensures k in KeysOf(p + [x], keep, key)
    ensures FirstWith(p + [x], keep, key, k) == FirstWith(p, keep, key, k)
  {
    assert (p + [x])[..|p|] == p;
  }

  /** An appended element with a new key is the first with that key. */
  lemma FirstWithNew<T, K>(p: seq<T>, x: T, keep: T -> bool, key: T -> K)
    requires keep(x) && key(x) !in KeysOf(p, keep, key)
    ensures key(x) in KeysOf(p + [x], keep, key)
    ensures FirstWith(p + [x], keep, key, key(x)) == x
  {
    assert (p + [x])[..|p|] == p;
  }

  lemma FirstsSnoc<T, K>(p: seq<T>, x: T, keep: T -> bool, key: T -> K)
    ensures Firsts(p + [x], keep, key)
      == Firsts(p, keep, key) + (if keep(x) && key(x) !in KeysOf(p, keep, key) then [x] else [])
  {
    assert (p + [x])[..|p|] == p;
  }

  lemma RepeatsSnoc<T, K, U>(p: seq<T>, x: T, keep: T -> bool, key: T -> K, report: (T, T) -> seq<U>)
    ensures Repeats(p + [x], keep, key, report) == Repeats(p, keep, key, report)
      + (if keep(x) && key(x) in KeysOf(p, keep, key) then report(FirstWith(p, keep, key, key(x)), x) else [])
  {
    assert (p + [x])[..|p|] == p;
  }

  /** Skipping an element, or meeting a key again, leaves the map tracking the longer sequence. */
  lemma TracksSkip<T, K, V>(seen: map<K, V>, p: seq<T>, x: T, keep: T -> bool, key: T -> K, view: T -> V)
    requires Tracks(seen, p, keep, key, view)
    requires !keep(x) || key(x) in seen
    ensures Tracks(seen, p + [x], keep, key, view)
  {
    KeysOfSnoc(p, x, keep, key);
    forall k | k in seen
      ensures seen[k] == view(FirstWith(p + [x], keep, key, k))
    {
      FirstWithSnoc(p, x, keep, key, k);
    }
  }

  /** Recording a new key's first element keeps the map tracking the longer sequence. */
  lemma TracksNew<T, K, V>(seen: map<K, V>, p: seq<T>, x: T, keep: T -> bool, key: T -> K, view: T -> V)
    requires Tracks(seen, p, keep, key, view)
    requires keep(x) && key(x) !in seen
    ensures Tracks(seen[key(x) := view(x)], p + [x], keep, key, view)
  {
    KeysOfSnoc(p, x, keep, key);
    var seen' := seen[key(x) := view(x)];
    forall k | k in seen'
      ensures seen'[k] == view(FirstWith(p + [x], keep, key, k))
    {
      if k == key(x) {
        FirstWithNew(p, x, keep, key);
      } else {
        FirstWithSnoc(p, x, keep, key, k);
      }
    }
  }

  /** Every element kept is one `keep` lets through and the first with its key. */
  lemma {:induction false} FirstsAreFirst<T, K>(s: seq<T>, keep: T -> bool, key: T -> K)
    ensures var f := Firsts(s, keep, key);
      forall i :: 0 <= i < |f| ==> keep(f[i]) && key(f[i]) in KeysOf(s, keep, key)
                                   && f[i] == FirstWith(s, keep, key, key(f[i]))
  {
    if |s| > 0 {
      var init, x := s[..|s| - 1], s[|s| - 1];
      assert s == init + [x];
      FirstsAreFirst(init, keep, key);
      FirstsSnoc(init, x, keep, key);
      var f0 := Firsts(init, keep, key);
      forall i | 0 <= i < |f0|
        ensures key(f0[i]) in KeysOf(s, keep, key)
        ensures FirstWith(s, keep, key, key(f0[i])) == FirstWith(init, keep, key, key(f0[i]))
      {
        FirstWithSnoc(init, x, keep, key, key(f0[i]));
      }
      if keep(x) && key(x) !in KeysOf(init, keep, key) {
        FirstWithNew(init, x, keep, key);
      }
    }
  }

  /** The kept elements have pairwise different keys, one for each key met. */
  lemma {:induction false} FirstsDistinct<T, K>(s: seq<T>, keep: T -> bool, key: T -> K)
    ensures var f := Firsts(s, keep, key);
      && (forall i :: 0 <= i < |f| ==> key(f[i]) in KeysOf(s, keep, key))
      && (forall i, j :: 0 <= i < j < |f| ==> key(f[i]) != key(f[j]))
      && |f| == |KeysOf(s, keep, key)|
  {
    if |s| > 0 {
      var init, x := s[..|s| - 1], s[|s| - 1];
      assert s == init + [x];
      FirstsDistinct(init, keep, key);
      FirstsSnoc(init, x, keep, key);
      KeysOfSnoc(init, x, keep, key);
    }
  }

  /** The keys met are exactly the keys of the elements `keep` lets through. */
  lemma {:induction false} KeysOfMembers<T, K>(s: seq<T>, keep: T -> bool, key: T -> K, k: K)
    ensures k in KeysOf(s, keep, key) <==> exists i :: 0 <= i < |s| && keep(s[i]) && key(s[i]) == k
  {
    if |s| > 0 {
      var init, x := s[..|s| - 1], s[|s| - 1];
      KeysOfMembers(init, keep, key, k);
      if exists i :: 0 <= i < |s| && keep(s[i]) && key(s[i]) == k {
        var i :| 0 <= i < |s| && keep(s[i]) && key(s[i]) == k;
        if i < |init| { assert init[i] == s[i]; }
      }
      if exists i :: 0 <= i < |init| && keep(init[i]) && key(init[i]) == k {
        var i :| 0 <= i < |init| && keep(init[i]) && key(init[i]) == k;
        assert s[i] == init[i];
      }
    }
  }

  /** The first element with each key met is among those kept. */
  lemma {:induction false} FirstsCover<T, K>(s: seq<T>, keep: T -> bool, key: T -> K, k: K)
    requires k in KeysOf(s, keep, key)
    ensures FirstWith(s, keep, key, k) in Firsts(s, keep, key)
  {
    var init, x := s[..|s| - 1], s[|s| - 1];
    if k in KeysOf(init, keep, key) {
      FirstsCover(init, keep, key, k);
    }
  }

  /** With no key met twice, nothing is reported. */
  lemma {:induction false} RepeatsNone<T, K, U>(s: seq<T>, keep: T -> bool, key: T -> K, report: (T, T) -> seq<U>)
    requires forall i, j :: 0 <= i < j < |s| && keep(s[i]) && keep(s[j]) ==> key(s[i]) != key(s[j])
    ensures Repeats(s, keep, key, report) == []
  {
    if |s| > 0 {
      var init, x := s[..|s| - 1], s[|s| - 1];
      assert forall i, j :: 0 <= i < j < |init| && keep(init[i]) && keep(init[j]) ==> key(init[i]) != key(init[j]) by {
        forall i, j | 0 <= i < j < |init| ensures init[i] == s[i] && init[j] == s[j] { }
      }
      RepeatsNone(init, keep, key, report);
      if keep(x) {
        KeysOfMembers(init, keep, key, key(x));
        forall i | 0 <= i < |init| && keep(init[i])
          ensures key(init[i]) != key(x)
        {
          assert init[i] == s[i] && x == s[|s| - 1];
        }
      }
    }
  }

  /**
   * What `Firsts` keeps: elements of `s` that `keep` lets through, no two
   * with the same key, and one for every key met.
   */
  lemma FirstsSummary<T, K>(s: seq<T>, keep: T -> bool, key: T -> K)
    ensures var f := Firsts(s, keep, key);
      && (forall i :: 0 <= i < |f| ==> f[i] in s && keep(f[i]))
      && (forall i, j :: 0 <= i < j < |f| ==> key(f[i]) != key(f[j]))
      && (forall x :: x in s && keep(x) ==> exists i :: 0 <= i < |f| && key(f[i]) == key(x))
  {
    var f := Firsts(s, keep, key);
    FirstsAreFirst(s, keep, key);
    FirstsDistinct(s, keep, key);
    forall i | 0 <= i < |f| ensures f[i] in s {
      assert f[i] == FirstWith(s, keep, key, key(f[i]));
    }
    forall x | x in s && keep(x)
      ensures exists i :: 0 <= i < |f| && key(f[i]) == key(x)
    {
      var n :| 0 <= n < |s| && s[n] == x;
      KeysOfMembers(s, keep, key, key(x));
      FirstsCover(s, keep, key, key(x));
      var first := FirstWith(s, keep, key, key(x));
      var i :| 0 <= i < |f| && f[i] == first;
    }
  }

  // ---------------------------------------------------- the merge, specified

  /** An event the year and the exclude list let through. */
  predicate Eligible(o: Occ, year: int, exclude: seq<string>) {
    && ParseField(o.evt, "start").Some?
    && ParseField(o.evt, "start").value.year == year
    && !(|exclude| > 0 && ShouldExclude(o.evt, exclude))
  }

  function Keep(year: int, exclude: seq<string>): Occ -> bool {
    o => Eligible(o, year, exclude)
  }

  function KeyOf(o: Occ): Key { DedupKey(o.evt) }

  /** The date of an event's start (only asked of eligible events, whose start parses). */
  function StartDate(o: Occ): Date {
    match ParseField(o.evt, "start")
    case Some(t) => t.DateOf()
    case None => Date(MinYear, 1, 1)
  }

  /** The record `build_archive` keeps: the event with `source_week` and `source_file` added. */
  function Annotate(o: Occ): Object {
    o.evt["source_week" := Text(o.week)]["source_file" := Text(o.path)]
  }

  /** What is kept of each first-seen key: file, week label and start date. */
  datatype Seen = Seen(file: string, week: string, date: Date)

  function SeenOf(o: Occ): Seen {
    Seen(o.path, o.week, StartDate(o))
  }

  /** A reported repeat: the repeat's title, start and end fields, its file, and the file of the first occurrence. */
  datatype Duplicate = Duplicate(title: Value, start: Value, end: Value, currentFile: string, firstSeenFile: string)

  /** Whether a repeat `o` of `first` is a week-boundary overlap: same start date and adjacent week labels. */
  predicate Overlap(first: Seen, o: Occ) {
    first.date == StartDate(o) && WeeksAreAdjacent(first.week, o.week)
  }

  /** The report line for repeat `o` of `first`: none for a week-boundary overlap. */
  function ReportOf(first: Occ, o: Occ): seq<Duplicate> {
    if Overlap(SeenOf(first), o) then []
    else [Duplicate(Get(o.evt, "title"), Get(o.evt, "start"), Get(o.evt, "end"), o.path, first.path)]
  }

  /**
   * A repeat always falls on the first occurrence's start date, because the
   * key holds the normalised start; so a repeat goes unreported exactly
   * when the two week labels are adjacent.
   */
  lemma RepeatIsSameDay(first: Occ, o: Occ)
    requires ParseField(first.evt, "start").Some? && KeyOf(first) == KeyOf(o)
    ensures StartDate(first) == StartDate(o)
    ensures ReportOf(first, o) == [] <==> WeeksAreAdjacent(first.week, o.week)
  {
    KeyTimeDeterminesTime(first.evt, o.evt, "start");
  }

  function AnnotateAll(s: seq<Occ>): (r: seq<Object>)
    ensures |r| == |s| && forall i :: 0 <= i < |s| ==> r[i] == Annotate(s[i])
  {
    if |s| == 0 then [] else AnnotateAll(s[..|s| - 1]) + [Annotate(s[|s| - 1])]
  }

  lemma AnnotateAllSnoc(s: seq<Occ>, x: Occ)
    ensures AnnotateAll(s + [x]) == AnnotateAll(s) + [Annotate(x)]
  {
    assert (s + [x])[..|s|] == s;
  }

  /** The archive's events before sorting: the first eligible event of each key, annotated, in order. */
  function Kept(occ: seq<Occ>, year: int, exclude: seq<string>): seq<Object> {
    AnnotateAll(Firsts(occ, Keep(year, exclude), KeyOf))
  }

  /** The reported repeats. */
  function Reported(occ: seq<Occ>, year: int, exclude: seq<string>): seq<Duplicate> {
    Repeats(occ, Keep(year, exclude), KeyOf, ReportOf)
  }

  /** The sort key `e.get("start") or ""`, as a one-element tuple. */
  function StartKey(e: Object): seq<string> {
    [TextOr(e, "start", "")]
  }

  // ------------------------------------------------------- the merge, as code

  /** The state of the merge after a prefix `p` of the events. */
  ghost predicate MergedUpTo(p: seq<Occ>, year: int, exclude: seq<string>,
                             seen: map<Key, Seen>, events: seq<Object>, duplicates: seq<Duplicate>) {
    && Tracks(seen, p, Keep(year, exclude), KeyOf, SeenOf)
    && events == Kept(p, year, exclude)
    && duplicates == Reported(p, year, exclude)
  }

  /** The body of `build_archive`'s inner loop, for one event `o.evt` met in file `o.path` of week `o.week`. */
  method MergeEvent(year: int, exclude: seq<string>, o: Occ, ghost p: seq<Occ>,
                    seen: map<Key, Seen>, events: seq<Object>, duplicates: seq<Duplicate>)
    returns (seen': map<Key, Seen>, events': seq<Object>, duplicates': seq<Duplicate>)
    requires MergedUpTo(p, year, exclude, seen, events, duplicates)
    ensures MergedUpTo(p + [o], year, exclude, seen', events', duplicates')
  {
    seen', events', duplicates' := seen, events, duplicates;
    ghost var keep := Keep(year, exclude);
    FirstsSnoc(p, o, keep, KeyOf);
    AnnotateAllSnoc(Firsts(p, keep, KeyOf), o);
    RepeatsSnoc(p, o, keep, KeyOf, ReportOf);
    var startDt := ParseField(o.evt, "start");
    if startDt.None? || startDt.value.year != year {
      TracksSkip(seen, p, o, keep, KeyOf, SeenOf);
      return;
    }
    if |exclude| > 0 && ShouldExclude(o.evt, exclude) {
      TracksSkip(seen, p, o, keep, KeyOf, SeenOf);
      return;
    }
    var key := DedupKey(o.evt);
    if key in seen {
      var first := seen[key];
      TracksSkip(seen, p, o, keep, KeyOf, SeenOf);
      var sameDay := first.date == startDt.value.DateOf();
      if sameDay && WeeksAreAdjacent(first.week, o.week) {
        return;
      }
      duplicates' := duplicates + [Duplicate(Get(o.evt, "title"), Get(o.evt, "start"), Get(o.evt, "end"), o.path, first.file)];
      return;
    }
    TracksNew(seen, p, o, keep, KeyOf, SeenOf);
    seen' := seen[key := Seen(o.path, o.week, startDt.value.DateOf())];
    events' := events + [Annotate(o)];
  }

  /** Extending the prefix of entries by one extends the occurrences by that entry's. */
  lemma OccsOfSnoc(before: seq<Occ>, path: string, week: string, items: seq<Item>, j: nat)
    requires j < |items| && forall k :: 0 <= k <= j ==> items[k].Obj?
    ensures before + OccsOf(path, week, items[..j + 1])
         == before + OccsOf(path, week, items[..j]) + [Occ(path, week, items[j].fields)]
  {
    assert OccsOf(path, week, items[..j + 1]) == OccsOf(path, week, items[..j]) + [Occ(path, week, items[j].fields)];
  }

  /** A non-object entry in a matching file makes it raise. */
  lemma RaisesAtEntry(wf: WeekFile, j: nat)
    requires NameMatches(wf.name) && j < |Entries(wf)| && Entries(wf)[j].NonObject?
    ensures Raises(wf)
  {
  }

  /** A matching object file with a list of object entries does not raise, and contributes all of them. */
  lemma AllEntriesKept(wf: WeekFile)
    requires NameMatches(wf.name) && wf.data.WeekObject? && Iterated(wf.data.events).Some?
    requires forall k :: 0 <= k < |Entries(wf)| ==> Entries(wf)[k].Obj?
    ensures !Raises(wf) && FileOccs(wf) == OccsOf(wf.path, WeekLabel(wf), Entries(wf))
  {
  }

  /**
   * `build_archive`'s `load_week` and inner loop for one week file whose
   * name matches; `raised` says that the file made the build raise.
   */
  method MergeWeek(year: int, exclude: seq<string>, wf: WeekFile, ghost before: seq<Occ>,
                   seen0: map<Key, Seen>, events0: seq<Object>, duplicates0: seq<Duplicate>)
    returns (raised: bool, seen: map<Key, Seen>, events: seq<Object>, duplicates: seq<Duplicate>)
    requires NameMatches(wf.name)
    requires MergedUpTo(before, year, exclude, seen0, events0, duplicates0)
    ensures raised == Raises(wf)
    ensures !raised ==> MergedUpTo(before + FileOccs(wf), year, exclude, seen, events, duplicates)
  {
    seen, events, duplicates := seen0, events0, duplicates0;
    if wf.data.NotAnObject? || Iterated(wf.data.events).None? {
      return true, seen, events, duplicates;
    }
    var weekLabel := WeekLabel(wf);
    var entries := Entries(wf);
    assert before + OccsOf(wf.path, weekLabel, entries[..0]) == before;
    var j := 0;
    while j < |entries|
      invariant 0 <= j <= |entries|
      invariant forall k :: 0 <= k < j ==> entries[k].Obj?
      invariant MergedUpTo(before + OccsOf(wf.path, weekLabel, entries[..j]), year, exclude, seen, events, duplicates)
    {
      if entries[j].NonObject? {
        RaisesAtEntry(wf, j);
        return true, seen, events, duplicates;
      }
      var o := Occ(wf.path, weekLabel, entries[j].fields);
      ghost var done := before + OccsOf(wf.path, weekLabel, entries[..j]);
      OccsOfSnoc(before, wf.path, weekLabel, entries, j);
      seen, events, duplicates := MergeEvent(year, exclude, o, done, seen, events, duplicates);
      j := j + 1;
    }
    AllEntriesKept(wf);
    assert entries[..|entries|] == entries;
    return false, seen, events, duplicates;
  }

  lemma OccurrencesStep(files: seq<WeekFile>, i: nat)
    requires i < |files|
    ensures Occurrences(files[..i + 1]) == Occurrences(files[..i]) + FileOccs(files[i])
    ensures !NameMatches(files[i].name) ==> Occurrences(files[..i + 1]) == Occurrences(files[..i])
  {
    assert files[..i + 1][..i] == files[..i];
  }

  /** Whether one of the week files `fs` raises. */
  predicate AnyRaises(fs: seq<WeekFile>) {
    |fs| > 0 && (AnyRaises(fs[..|fs| - 1]) || Raises(fs[|fs| - 1]))
  }

  /** `AnyRaises` holds exactly when some file raises. */
  lemma {:induction false} AnyRaisesExists(fs: seq<WeekFile>)
    ensures AnyRaises(fs) <==> exists f <- fs :: Raises(f)
  {
    if |fs| > 0 {
      var init := fs[..|fs| - 1];
      AnyRaisesExists(init);
      assert fs == init + [fs[|fs| - 1]];
      assert forall f <- init :: f in fs;
    }
  }

  /**
   * `build_archive`'s outer loop over the week files, in the order the
   * sorted glob gives them; `raised` says that one of them made it raise.
   */
  method MergeFiles(year: int, files: seq<WeekFile>, exclude: seq<string>)
    returns (raised: bool, events: seq<Object>, duplicates: seq<Duplicate>)
    ensures raised == AnyRaises(files)
    ensures !raised ==> events == Kept(Occurrences(files), year, exclude)
    ensures !raised ==> duplicates == Reported(Occurrences(files), year, exclude)
  {
    var seen: map<Key, Seen> := map[];
    events, duplicates := [], [];
    var i := 0;
    while i < |files|
      invariant 0 <= i <= |files|
      invariant !AnyRaises(files[..i])
      invariant MergedUpTo(Occurrences(files[..i]), year, exclude, seen, events, duplicates)
    {
      var wf := files[i];
      OccurrencesStep(files, i);
      assert files[..i + 1][..i] == files[..i];
      if NameMatches(wf.name) {
        raised, seen, events, duplicates := MergeWeek(year, exclude, wf, Occurrences(files[..i]), seen, events, duplicates);
        if raised {
          AnyRaisesFrom(files, i);
          return;
        }
      }
      i := i + 1;
    }
    assert files[..|files|] == files;
    raised := false;
  }

  /** A file that raises makes every longer prefix raise. */
  lemma {:induction false} AnyRaisesFrom(fs: seq<WeekFile>, i: nat)
    requires i < |fs| && Raises(fs[i])
    ensures AnyRaises(fs)
    decreases |fs|
  {
    if i < |fs| - 1 {
      assert fs[..|fs| - 1][i] == fs[i];
      AnyRaisesFrom(fs[..|fs| - 1], i);
    }
  }

  /**
   * `build_archive`: keeps the first event of each key, reports the repeats
   * that are not week-boundary overlaps, then sorts the kept events by
   * start. It raises exactly when one of the matching week files does.
   */
  method BuildArchive(year: int, files: seq<WeekFile>, exclude: seq<string>)
    returns (r: Result<(seq<Object>, seq<Duplicate>)>)
    ensures r.Err? <==> exists f <- files :: Raises(f)
    ensures r.Ok? ==> r.value.0 == SortBy(Kept(Occurrences(files), year, exclude), StartKey, false)
    ensures r.Ok? ==> r.value.1 == Reported(Occurrences(files), year, exclude)
    ensures r.Ok? ==> SortedBy(r.value.0, StartKey, false)
    ensures r.Ok? ==> multiset(r.value.0) == multiset(Kept(Occurrences(files), year, exclude))
  {
    var raised, events, duplicates := MergeFiles(year, files, exclude);
    AnyRaisesExists(files);
    if raised {
      return Err("a week file is not a list of event objects");
    }
    SortBySorted(events, StartKey, false);
    SortByPermutes(events, StartKey, false);
    r := Ok((SortBy(events, StartKey, false), duplicates));
  }

  // ------------------------------------------------ what the archive holds

  /**
   * The archive's events are the first eligible occurrence of each key met,
   * annotated with its week and file, in the order the files and their
   * events were read: no two share a key and every eligible key is there.
   */
  lemma KeptIsFirstOfEachKey(occ: seq<Occ>, year: int, exclude: seq<string>)
    ensures var f := Firsts(occ, Keep(year, exclude), KeyOf);
      && Kept(occ, year, exclude) == AnnotateAll(f)
      && (forall i :: 0 <= i < |f| ==> f[i] in occ && Eligible(f[i], year, exclude))
      && (forall i, j :: 0 <= i < j < |f| ==> KeyOf(f[i]) != KeyOf(f[j]))
      && (forall o :: o in occ && Eligible(o, year, exclude) ==> exists i :: 0 <= i < |f| && KeyOf(f[i]) == KeyOf(o))
  {
    FirstsSummary(occ, Keep(year, exclude), KeyOf);
  }

  /** Week files in which no key occurs twice among the eligible events give an empty dedup report. */
  lemma NoRepeatsNoReport(occ: seq<Occ>, year: int, exclude: seq<string>)
    requires forall i, j ::
      (0 <= i < j < |occ| && Eligible(occ[i], year, exclude) && Eligible(occ[j], year, exclude)) ==> KeyOf(occ[i]) != KeyOf(occ[j])
    ensures Reported(occ, year, exclude) == []
  {
    RepeatsNone(occ, Keep(year, exclude), KeyOf, ReportOf);
  }

  /** The record kept adds `source_week` and `source_file` and leaves every other field of the event as it was. */
  lemma AnnotateKeepsFields(o: Occ, k: string)
    ensures Get(Annotate(o), "source_week") == Text(o.week) && Get(Annotate(o), "source_file") == Text(o.path)
    ensures k != "source_week" && k != "source_file" ==> (k in Annotate(o) <==> k in o.evt) && Get(Annotate(o), k) == Get(o.evt, k)
  {
  }

  /** Sorting by start is stable: events with the same start keep the order they were read in. */
  lemma ArchiveOrderStable(occ: seq<Occ>, year: int, exclude: seq<string>, start: string)
    ensures WithKey(SortBy(Kept(occ, year, exclude), StartKey, false), StartKey, [start])
         == WithKey(Kept(occ, year, exclude), StartKey, [start])
  {
    SortByStable(Kept(occ, year, exclude), StartKey, [start], false);
  }

  // --------------------------------------------------------------- chunking

  /** Megabytes as `split_events` measures them: characters of the JSON text over 1024 * 1024. */
  predicate Full(c: seq<Object>, maxMb: real, size: seq<Object> -> nat) {
    (size(c) as real) / 1048576.0 >= maxMb
  }

  function Flatten(cs: seq<seq<Object>>): seq<Object> {
    if |cs| == 0 then [] else Flatten(cs[..|cs| - 1]) + cs[|cs| - 1]
  }

  lemma FlattenSnoc(cs: seq<seq<Object>>, c: seq<Object>)
    ensures Flatten(cs + [c]) == Flatten(cs) + c
  {
    assert (cs + [c])[..|cs|] == cs;
  }

  /** No non-empty proper prefix of `c` is full. */
  predicate NoFullPrefix(c: seq<Object>, maxMb: real, size: seq<Object> -> nat) {
    forall k :: 0 < k < |c| ==> !Full(c[..k], maxMb, size)
  }

  /** A chunk `split_events` closes: full, and full at no shorter prefix. */
  predicate FirstFull(c: seq<Object>, maxMb: real, size: seq<Object> -> nat) {
    |c| > 0 && Full(c, maxMb, size) && NoFullPrefix(c, maxMb, size)
  }

  /**
   * The chunks `split_events` cuts `events` into: one empty chunk for no
   * events; otherwise one to nine non-empty chunks that concatenate to the
   * events, every chunk but the last closed at its first full prefix, and
   * the last full at no proper prefix unless it is the ninth.
   */
  predicate Chunking(events: seq<Object>, chunks: seq<seq<Object>>, maxMb: real, size: seq<Object> -> nat) {
    && (|events| == 0 ==> chunks == [events])
    && (|events| > 0 ==> 1 <= |chunks| <= 9 && Flatten(chunks) == events)
    && (|events| > 0 ==> forall i :: 0 <= i < |chunks| ==> |chunks[i]| > 0)
    && (forall i :: 0 <= i < |chunks| - 1 ==> FirstFull(chunks[i], maxMb, size))
    && (|events| > 0 && |chunks| < 9 ==> NoFullPrefix(chunks[|chunks| - 1], maxMb, size))
  }

  /**
   * `split_events`: events are added to the current chunk one by one, and
   * the chunk is closed as soon as its JSON text reaches `max_mb`, while
   * fewer than eight chunks are closed; the rest goes into the last chunk.
   * `size(c)` stands for `len(json.dumps(c, ensure_ascii=False))`.
   */
  method SplitEvents(events: seq<Object>, maxMb: real, size: seq<Object> -> nat) returns (chunks: seq<seq<Object>>)
    ensures Chunking(events, chunks, maxMb, size)
  {
    if |events| == 0 {
      return [events];
    }
    chunks := [];
    var current: seq<Object> := [];
    var i := 0;
    while i < |events|
      invariant 0 <= i <= |events|
      invariant |chunks| <= 8
      invariant Flatten(chunks) + current == events[..i]
      invariant forall c :: 0 <= c < |chunks| ==> FirstFull(chunks[c], maxMb, size)
      invariant |chunks| < 8 ==> forall k :: 0 < k <= |current| ==> !Full(current[..k], maxMb, size)
      invariant i > 0 && |chunks| < 8 ==> |current| > 0 || |chunks| > 0
    {
      var before := current;
      current := current + [events[i]];
      assert current[..|before|] == before;
      assert events[..i + 1] == events[..i] + [events[i]];
      if Full(current, maxMb, size) && |chunks| < 8 {
        assert FirstFull(current, maxMb, size) by {
          forall k | 0 < k < |current| ensures !Full(current[..k], maxMb, size) {
            assert current[..k] == before[..k];
          }
        }
        FlattenSnoc(chunks, current);
        chunks := chunks + [current];
        current := [];
      } else if |chunks| < 8 {
        forall k | 0 < k <= |current| ensures !Full(current[..k], maxMb, size) {
          if k < |current| { assert current[..k] == before[..k]; } else { assert current[..k] == current; }
        }
      }
      i := i + 1;
    }
    assert events[..|events|] == events;
    if |current| > 0 {
      FlattenSnoc(chunks, current);
      chunks := chunks + [current];
    }
  }

  // ---------------------------------------------------------------- outputs

  /** A `pathlib.Path`: the directory part (with its trailing separator, or empty) and the final `name`. */
  datatype FilePath = FilePath(dir: string, name: string)

  /** `str(p)`. */
  function PathText(p: FilePath): string { p.dir + p.name }

  /** `output.with_name(f"{output.stem}-{idx}{output.suffix}")`. */
  function ChunkPath(output: FilePath, idx: nat): (r: FilePath)
    ensures r.dir == output.dir
  {
    FilePath(output.dir, Stem(output.name) + "-" + NatToString(idx) + Suffix(output.name))
  }

  /** The files `write_outputs` writes for `count` chunks: `output` alone, or `output`'s stem numbered from 1. */
  function OutputPaths(output: FilePath, count: nat): seq<FilePath> {
    if count == 1 then [output] else seq(count, (i: nat) => ChunkPath(output, i + 1))
  }

  /** Numbered chunk files never collide: distinct indices give distinct names. */
  lemma ChunkPathsDistinct(output: FilePath, i: nat, j: nat)
    requires i != j
    ensures ChunkPath(output, i) != ChunkPath(output, j)
  {
    var a, b := NatToString(i), NatToString(j);
    var stem, suffix := Stem(output.name) + "-", Suffix(output.name);
    var n1, n2 := stem + a + suffix, stem + b + suffix;
    if |a| == |b| {
      assert n1[|stem|..|stem| + |a|] == a;
      assert n2[|stem|..|stem| + |b|] == b;
    }
  }

  /** One line of the dedup report per duplicate. */
  function DuplicateLine(d: Duplicate): string {
    "- " + Str(d.title) + " | " + Str(d.start) + " → " + Str(d.end)
      + " | first: " + d.firstSeenFile + " | dup: " + d.currentFile
  }

  /** The header lines, up to the blank line after `exclude_calendars`. */
  function ReportHeader(year: int, outputs: seq<FilePath>, exclude: seq<string>, generated: string): (r: seq<string>)
    ensures |r| == 6 && r[0] == "# Calendar Dedup Review" && r[5] == ""
  {
    [ "# Calendar Dedup Review",
      "- year: " + IntToString(year),
      "- generated: " + generated,
      "- outputs: " + Join(PathTexts(outputs), ", "),
      "- exclude_calendars: " + (if |exclude| > 0 then Join(exclude, ", ") else "none"),
      "" ]
  }

  function PathTexts(ps: seq<FilePath>): (r: seq<string>)
    ensures |r| == |ps| && forall i :: 0 <= i < |ps| ==> r[i] == PathText(ps[i])
  {
    seq(|ps|, i requires 0 <= i < |ps| => PathText(ps[i]))
  }

  const DuplicatesHeading := "## Duplicates detected (title+start+end)"
  const ReviewRequest := "请人工确认是否为同一事件，必要时调整源周文件或保留重复。"
  const NoDuplicatesHeading := "## No duplicates detected (key: title+start+end)"
  const NothingToDo := "无需人工处理。"

  /** One line per duplicate, in order. */
  function DuplicateLines(duplicates: seq<Duplicate>): (r: seq<string>)
    ensures |r| == |duplicates| && forall i :: 0 <= i < |r| ==> r[i] == DuplicateLine(duplicates[i])
  {
    seq(|duplicates|, i requires 0 <= i < |duplicates| => DuplicateLine(duplicates[i]))
  }

  /** The lines of the dedup report below `header`. */
  function ReportLines(header: seq<string>, duplicates: seq<Duplicate>): seq<string> {
    header
      + if |duplicates| > 0 then [DuplicatesHeading] + DuplicateLines(duplicates) + ["", ReviewRequest]
        else [NoDuplicatesHeading, NothingToDo]
  }

  /** The dedup report: its lines joined by newlines. */
  function DedupReport(year: int, outputs: seq<FilePath>, exclude: seq<string>, generated: string,
                       duplicates: seq<Duplicate>): string {
    Join(ReportLines(ReportHeader(year, outputs, exclude, generated), duplicates), "\n")
  }

  /**
   * Below the header come the duplicates heading, one line per duplicate in
   * order, a blank line and the review request.
   */
  lemma ReportListsDuplicates(header: seq<string>, duplicates: seq<Duplicate>)
    requires |duplicates| > 0
    ensures var lines := ReportLines(header, duplicates);
      && |lines| == |header| + 3 + |duplicates|
      && lines[..|header|] == header
      && lines[|header|] == DuplicatesHeading
      && (forall i :: 0 <= i < |duplicates| ==> lines[|header| + 1 + i] == DuplicateLine(duplicates[i]))
      && lines[|lines| - 2] == "" && lines[|lines| - 1] == ReviewRequest
  {
    var body := DuplicateLines(duplicates);
    var lines := ReportLines(header, duplicates);
    assert lines == header + [DuplicatesHeading] + body + ["", ReviewRequest];
    ReportLayout(header, body, lines);
  }

  /** Where the parts of `header + [heading] + body + ["", request]` sit. */
  lemma ReportLayout(header: seq<string>, body: seq<string>, lines: seq<string>)
    requires lines == header + [DuplicatesHeading] + body + ["", ReviewRequest]
    ensures |lines| == |header| + 3 + |body|
    ensures lines[..|header|] == header && lines[|header|] == DuplicatesHeading
    ensures forall i :: 0 <= i < |body| ==> lines[|header| + 1 + i] == body[i]
    ensures lines[|lines| - 2] == "" && lines[|lines| - 1] == ReviewRequest
  {
    var pre := header + [DuplicatesHeading];
    assert lines == (pre + body) + ["", ReviewRequest];
    assert lines[..|header|] == pre[..|header|];
    forall i | 0 <= i < |body| ensures lines[|header| + 1 + i] == body[i] {
      assert lines[|pre| + i] == (pre + body)[|pre| + i];
    }
  }

  /** Without duplicates the header is followed by the no-duplicates heading and the all-clear line only. */
  lemma ReportWithoutDuplicates(header: seq<string>)
    ensures var lines := ReportLines(header, []);
      lines == header + [NoDuplicatesHeading, NothingToDo]
  {
  }

  /** Reading the report back line by line gives its lines, when no field holds a newline. */
  lemma ReportSplitsIntoLines(header: seq<string>, duplicates: seq<Duplicate>)
    requires forall l <- ReportLines(header, duplicates) :: '\n' !in l
    ensures Split(Join(ReportLines(header, duplicates), "\n"), "\n") == ReportLines(header, duplicates)
  {
    SplitJoin(ReportLines(header, duplicates), '\n');
  }

  /** The report text `write_outputs` writes below `header`. */
  method ReportText(header: seq<string>, duplicates: seq<Duplicate>) returns (text: string)
    ensures text == Join(ReportLines(header, duplicates), "\n")
  {
    var lines := header;
    if |duplicates| > 0 {
      lines := lines + [DuplicatesHeading];
      var d := 0;
      while d < |duplicates|
        invariant 0 <= d <= |duplicates|
        invariant lines == header + [DuplicatesHeading] + DuplicateLines(duplicates[..d])
      {
        assert DuplicateLines(duplicates[..d + 1]) == DuplicateLines(duplicates[..d]) + [DuplicateLine(duplicates[d])];
        lines := lines + [DuplicateLine(duplicates[d])];
        d := d + 1;
      }
      assert duplicates[..d] == duplicates;
      lines := lines + ["", ReviewRequest];
      assert lines == header + ([DuplicatesHeading] + DuplicateLines(duplicates) + ["", ReviewRequest]);
    } else {
      lines := lines + [NoDuplicatesHeading, NothingToDo];
    }
    text := Join(lines, "\n");
  }

  /** A file `write_outputs` writes: its path and the events it holds. */
  datatype Written = Written(path: FilePath, events: seq<Object>)

  function PathsOf(ws: seq<Written>): (r: seq<FilePath>)
    ensures |r| == |ws| && forall i :: 0 <= i < |ws| ==> r[i] == ws[i].path
  {
    seq(|ws|, i requires 0 <= i < |ws| => ws[i].path)
  }

  function EventsOf(ws: seq<Written>): (r: seq<seq<Object>>)
    ensures |r| == |ws| && forall i :: 0 <= i < |ws| ==> r[i] == ws[i].events
  {
    seq(|ws|, i requires 0 <= i < |ws| => ws[i].events)
  }

  /** The numbered files of a split archive: chunk `i` goes to `<stem>-<i+1><suffix>`. */
  method NameChunks(output: FilePath, chunks: seq<seq<Object>>) returns (written: seq<Written>)
    ensures |written| == |chunks|
    ensures forall i :: 0 <= i < |chunks| ==> written[i] == Written(ChunkPath(output, i + 1), chunks[i])
  {
    written := [];
    var idx := 0;
    while idx < |chunks|
      invariant 0 <= idx <= |chunks|
      invariant |written| == idx
      invariant forall i :: 0 <= i < idx ==> written[i] == Written(ChunkPath(output, i + 1), chunks[i])
    {
      written := written + [Written(ChunkPath(output, idx + 1), chunks[idx])];
      idx := idx + 1;
    }
  }

  /** A numbered chunk file is never `output` itself. */
  lemma ChunkPathIsNotOutput(output: FilePath, idx: nat)
    ensures ChunkPath(output, idx) != output
  {
    StemSuffix(output.name);
    assert |ChunkPath(output, idx).name| > |output.name|;
  }

  /**
   * `write_outputs`: the chunks go to `output`, or, when there is more than
   * one, to `<stem>-<idx><suffix>` beside it; then the dedup report text.
   * `with_name` fails on a path with an empty name. `generated` is the
   * current time, `size` the JSON length measure of `split_events`.
   */
  method WriteOutputs(year: int, events: seq<Object>, duplicates: seq<Duplicate>, output: FilePath,
                      maxMb: real, exclude: seq<string>, size: seq<Object> -> nat, generated: string)
    returns (r: Result<(seq<Written>, string)>)
    ensures r.Ok? ==> var (written, report) := r.value;
      && 1 <= |written| <= 9
      && Chunking(events, EventsOf(written), maxMb, size)
      && PathsOf(written) == OutputPaths(output, |written|)
      && (|written| == 1 <==> written[0].path == output)
      && (forall i, j :: 0 <= i < j < |written| ==> written[i].path != written[j].path)
      && report == DedupReport(year, PathsOf(written), exclude, generated, duplicates)
    ensures |events| == 0 ==> r.Ok? && r.value.0 == [Written(output, [])]
    ensures r.Err? ==> output.name == ""
    ensures output.name != "" ==> r.Ok?
  {
    var chunks := SplitEvents(events, maxMb, size);
    var written: seq<Written>;
    if |chunks| == 1 {
      written := [Written(output, chunks[0])];
    } else {
      if output.name == "" {
        return Err("has an empty name");
      }
      written := NameChunks(output, chunks);
      forall i, j | 0 <= i < j < |written| ensures written[i].path != written[j].path {
        ChunkPathsDistinct(output, i + 1, j + 1);
      }
      ChunkPathIsNotOutput(output, 1);
      assert PathsOf(written) == OutputPaths(output, |written|);
    }
    assert EventsOf(written) == chunks;
    var header := ReportHeader(year, PathsOf(written), exclude, generated);
    var report := ReportText(header, duplicates);
    r := Ok((written, report));
  }
}
