/**
 * The mood-log appender: the score clamp and the comma-separated tag list
 * of one mood record. The score is a Python float, modelled as a `real`;
 * the JSONL append itself is file output and is not modelled.
 */
module LogMood {
  import opened Wrappers
  import opened Text
  import opened Dates

  const MinScore: real := 1.0
  const MaxScore: real := 10.0

  /** `ensure_range`: the score clamped into [1, 10]. */
  function EnsureRange(score: real): (r: real)
    ensures MinScore <= r <= MaxScore
    ensures MinScore <= score <= MaxScore ==> r == score
    ensures score < MinScore ==> r == MinScore
    ensures score > MaxScore ==> r == MaxScore
  {
    var capped := if score < MaxScore then score else MaxScore;
    if MinScore > capped then MinScore else capped
  }

  /** Clamping twice is clamping once. */
  lemma EnsureRangeIdempotent(score: real)
    ensures EnsureRange(EnsureRange(score)) == EnsureRange(score)
  {
  }

  /** A higher score never clamps to a lower one. */
  lemma EnsureRangeMonotone(a: real, b: real)
    requires a <= b
    ensures EnsureRange(a) <= EnsureRange(b)
  {
  }

  /** `[t.strip() for t in tags.split(",") if t.strip()] if tags else []`. */
  function ParseTags(tags: string): (r: seq<string>)
    ensures forall t <- r :: t != "" && Strip(t) == t && ',' !in t
    ensures tags == "" ==> r == []
  {
    if tags == "" then [] else
      var r := SplitStripNonEmpty(tags, ",");
      SplitPartsFree(tags, ',');
      StripAllFree(Split(tags, ","), ',');
      r
  }

  /** No part of a split on a one-character separator contains that character. */
  lemma {:induction false} SplitPartsFree(s: string, c: char)
    ensures forall p <- Split(s, [c]) :: c !in p
    decreases |s|
  {
    if StartsWith(s, [c]) {
      SplitPartsFree(s[1..], c);
    } else if |s| > 0 {
      SplitPartsFree(s[1..], c);
      var rest := Split(s[1..], [c]);
      assert s[0] != c by { assert !(s[..1] == [c]); }
      assert forall p <- rest[1..] :: p in rest;
    }
  }

  /** Stripping keeps a character out of a part that does not contain it. */
  lemma {:induction false} StripAllFree(parts: seq<string>, c: char)
    requires forall p <- parts :: c !in p
    ensures forall t <- StripAll(parts) :: c !in t
  {
    if |parts| > 0 {
      var t := Strip(parts[0]);
      assert forall k :: 0 <= k < |t| ==> t[k] in parts[0] by {
        var i := StripStart(parts[0]);
        forall k | 0 <= k < |t| ensures t[k] in parts[0] { assert t[k] == parts[0][i + k]; }
      }
      assert forall p <- parts[1..] :: p in parts;
      StripAllFree(parts[1..], c);
    }
  }

  /** Tags written out comma-separated are read back as the same tags, in the same order. */
  lemma ParseTagsRoundTrip(items: seq<string>)
    requires forall t <- items :: t != "" && Strip(t) == t && ',' !in t
    ensures ParseTags(Join(items, ",")) == items
  {
    SplitStripNonEmptyJoin(items, ',');
  }

  /** The day slot offered by `--slot`. */
  datatype Slot = Morning | Noon | Evening

  /** One JSONL record. */
  datatype MoodRecord = MoodRecord(day: string, slot: Slot, score: real, tags: seq<string>, notes: string)

  /**
   * The record `main` appends. `day` is `--day`, or today's date in ISO
   * form when it is not given; `today` is passed in for the clock.
   */
  function MakeRecord(day: Option<string>, today: Date, slot: Slot, score: real, tags: string, notes: string): (r: MoodRecord)
    requires ValidDate(today)
    ensures day.None? ==> |r.day| == 10 && ParseDateText(r.day) == Some(today)
    ensures day.Some? ==> r.day == day.value
    ensures r.score == EnsureRange(score) && MinScore <= r.score <= MaxScore
    ensures r.tags == ParseTags(tags) && forall t <- r.tags :: t != "" && Strip(t) == t
    ensures r.slot == slot && r.notes == notes
  {
    var text := if day.Some? then day.value else DateText(today);
    ParseDateTextRoundTrip(today);
    MoodRecord(text, slot, EnsureRange(score), ParseTags(tags), notes)
  }
}
