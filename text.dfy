/**
 * Python string operations used by the calendar scripts: `in`, `startswith`,
 * `split`, `join`, `replace`, `strip`, `lower`, `int()` and zero-padded
 * decimal formatting, each with the properties the rest of the model relies on.
 */
module Text {
  import opened Wrappers

  // ---------------------------------------------------------------- search

  /** `sub` occurs in `s` starting at index `i`. */
  predicate OccursAt(s: string, sub: string, i: nat) {
    i + |sub| <= |s| && s[i..i + |sub|] == sub
  }

  /** `sub in s`. */
  predicate Contains(s: string, sub: string) {
    exists i: nat :: i <= |s| && OccursAt(s, sub, i)
  }

  /** `s.startswith(p)`. */
  predicate StartsWith(s: string, p: string) {
    |p| <= |s| && s[..|p|] == p
  }

  /** The first index of character `c` in `s`. */
  function IndexOfChar(s: string, c: char): (r: Option<nat>)
    ensures r.Some? ==> r.value < |s| && s[r.value] == c && c !in s[..r.value]
    ensures r.None? <==> c !in s
  {
    if |s| == 0 then None
    else if s[0] == c then Some(0)
    else match IndexOfChar(s[1..], c)
      case None => None
      case Some(k) => assert s[1..][..k] == s[1..k + 1]; Some(k + 1)
  }

  /** `s.rfind(c)`: the last index of character `c` in `s`. */
  function LastIndexOfChar(s: string, c: char): (r: Option<nat>)
    ensures r.Some? ==> r.value < |s| && s[r.value] == c && c !in s[r.value + 1..]
    ensures r.None? <==> c !in s
  {
    if |s| == 0 then None
    else if s[|s| - 1] == c then Some(|s| - 1)
    else
      var init := s[..|s| - 1];
      assert s == init + [s[|s| - 1]];
      match LastIndexOfChar(init, c)
      case None => None
      case Some(k) =>
        assert init[k + 1..] == s[k + 1..|s| - 1];
        assert s[k + 1..] == s[k + 1..|s| - 1] + [s[|s| - 1]];
        Some(k)
  }

  // ---------------------------------------------------------- split / join

  /**
   * `s.split(sep)` for a non-empty separator: scanning left to right, every
   * occurrence of `sep` that does not overlap an earlier one ends a part.
   */
  function Split(s: string, sep: string): (parts: seq<string>)
    requires |sep| > 0
    ensures |parts| >= 1
    decreases |s|
  {
    if StartsWith(s, sep) then [""] + Split(s[|sep|..], sep)
    else if |s| == 0 then [""]
    else
      var rest := Split(s[1..], sep);
      [[s[0]] + rest[0]] + rest[1..]
  }

  /** `sep.join(parts)`. */
  function Join(parts: seq<string>, sep: string): string {
    if |parts| == 0 then ""
    else if |parts| == 1 then parts[0]
    else parts[0] + sep + Join(parts[1..], sep)
  }

  lemma JoinCons(head: string, tail: seq<string>, sep: string)
    requires |tail| >= 1
    ensures Join([head] + tail, sep) == head + sep + Join(tail, sep)
  {
    assert ([head] + tail)[1..] == tail;
  }

  /** Putting text in front of the first part puts it in front of the joined text. */
  lemma JoinPrefixFirst(prefix: string, parts: seq<string>, sep: string)
    requires |parts| >= 1
    ensures Join([prefix + parts[0]] + parts[1..], sep) == prefix + Join(parts, sep)
  {
    if |parts| > 1 {
      JoinCons(prefix + parts[0], parts[1..], sep);
      assert parts == [parts[0]] + parts[1..];
      JoinCons(parts[0], parts[1..], sep);
    }
  }

  /** Splitting and re-joining on the same separator gives back the original text. */
  lemma {:induction false} JoinSplit(s: string, sep: string)
    requires |sep| > 0
    ensures Join(Split(s, sep), sep) == s
    decreases |s|
  {
    if StartsWith(s, sep) {
      JoinSplit(s[|sep|..], sep);
      JoinCons("", Split(s[|sep|..], sep), sep);
      assert s == sep + s[|sep|..];
    } else if |s| > 0 {
      JoinSplit(s[1..], sep);
      JoinPrefixFirst([s[0]], Split(s[1..], sep), sep);
      assert s == [s[0]] + s[1..];
    }
  }

  /** Text that never holds the separator's first character is a single part. */
  lemma {:induction false} SplitWithoutSep(p: string, sep: string)
    requires |sep| > 0 && sep[0] !in p
    ensures Split(p, sep) == [p]
    decreases |p|
  {
    if |p| > 0 {
      assert !StartsWith(p, sep) by { if |sep| <= |p| { assert p[..|sep|][0] == p[0]; } }
      SplitWithoutSep(p[1..], sep);
      assert [p[0]] + p[1..] == p;
    } else {
      assert !StartsWith(p, sep);
    }
  }

  /** A first part that never holds the separator's first character splits off before the separator. */
  lemma {:induction false} SplitAfterPart(p: string, sep: string, rest: string)
    requires |sep| > 0 && sep[0] !in p
    ensures Split(p + sep + rest, sep) == [p] + Split(rest, sep)
    decreases |p|
  {
    var s := p + sep + rest;
    if |p| == 0 {
      assert s[..|sep|] == sep;
      assert s[|sep|..] == rest;
    } else {
      assert !StartsWith(s, sep) by { assert s[..|sep|][0] == p[0]; }
      assert s[1..] == p[1..] + sep + rest;
      SplitAfterPart(p[1..], sep, rest);
      assert [p[0]] + p[1..] == p;
    }
  }

  /** Joining parts that do not hold the one-character separator and splitting again gives the parts back. */
  lemma {:induction false} SplitJoin(parts: seq<string>, c: char)
    requires |parts| >= 1
    requires forall p <- parts :: c !in p
    ensures Split(Join(parts, [c]), [c]) == parts
  {
    if |parts| == 1 {
      SplitWithoutSep(parts[0], [c]);
    } else {
      JoinCons(parts[0], parts[1..], [c]);
      assert parts == [parts[0]] + parts[1..];
      SplitAfterPart(parts[0], [c], Join(parts[1..], [c]));
      SplitJoin(parts[1..], c);
    }
  }

  /** `s.split(sep, 1)`: the text before the first occurrence and, if there is one, everything after it. */
  function SplitOnce(s: string, sep: string): (parts: seq<string>)
    requires |sep| > 0
    ensures 1 <= |parts| <= 2
    ensures parts[0] == Split(s, sep)[0]
    ensures Join(parts, sep) == s
  {
    var all := Split(s, sep);
    JoinSplit(s, sep);
    if |all| == 1 then [s]
    else
      JoinCons(all[0], all[1..], sep);
      assert all == [all[0]] + all[1..];
      [all[0], Join(all[1..], sep)]
  }

  // --------------------------------------------------------------- replace

  /** `s.replace(pat, rep)` for a non-empty pattern: one left-to-right pass over non-overlapping occurrences. */
  function Replace(s: string, pat: string, rep: string): string
    requires |pat| > 0
    decreases |s|
  {
    if |s| == 0 then ""
    else if StartsWith(s, pat) then rep + Replace(s[|pat|..], pat, rep)
    else [s[0]] + Replace(s[1..], pat, rep)
  }

  /** Replacing is splitting on the pattern and joining with the replacement, as in Python. */
  lemma {:induction false} ReplaceIsJoinSplit(s: string, pat: string, rep: string)
    requires |pat| > 0
    ensures Replace(s, pat, rep) == Join(Split(s, pat), rep)
    decreases |s|
  {
    if |s| == 0 {
    } else if StartsWith(s, pat) {
      ReplaceIsJoinSplit(s[|pat|..], pat, rep);
      JoinCons("", Split(s[|pat|..], pat), rep);
    } else {
      ReplaceIsJoinSplit(s[1..], pat, rep);
      JoinPrefixFirst([s[0]], Split(s[1..], pat), rep);
    }
  }

  // ------------------------------------------------------------ whitespace

  /** The characters Python's `str.isspace` accepts, which `strip()` and `\s` remove or match. */
  predicate IsSpace(c: char) {
    var n := c as int;
    n == 0x20 || (0x09 <= n <= 0x0D) || (0x1C <= n <= 0x1F) || n == 0x85 || n == 0xA0
    || n == 0x1680 || (0x2000 <= n <= 0x200A) || n == 0x2028 || n == 0x2029
    || n == 0x202F || n == 0x205F || n == 0x3000
  }

  /** The index of the first non-whitespace character of `s` (or `|s|`). */
  function StripStart(s: string): (i: nat)
    ensures i <= |s| && (forall k :: 0 <= k < i ==> IsSpace(s[k])) && (i < |s| ==> !IsSpace(s[i]))
  {
    if |s| == 0 || !IsSpace(s[0]) then 0 else 1 + StripStart(s[1..])
  }

  /** One past the last non-whitespace character of `s` at or after `from` (or `from`). */
  function StripEnd(s: string, from: nat): (j: nat)
    requires from <= |s|
    ensures from <= j <= |s| && (forall k :: j <= k < |s| ==> IsSpace(s[k])) && (j > from ==> !IsSpace(s[j - 1]))
  {
    if |s| == from || !IsSpace(s[|s| - 1]) then |s| else StripEnd(s[..|s| - 1], from)
  }

  /** `s.strip()`: `s` without its leading and trailing whitespace. */
  function Strip(s: string): (r: string)
    ensures |r| == 0 || (!IsSpace(r[0]) && !IsSpace(r[|r| - 1]))
  {
    var i := StripStart(s);
    s[i..StripEnd(s, i)]
  }

  /** A text that neither starts nor ends with whitespace is its own strip; so stripping twice changes nothing. */
  lemma StripOfTrimmed(s: string)
    requires |s| == 0 || (!IsSpace(s[0]) && !IsSpace(s[|s| - 1]))
    ensures Strip(s) == s
  {
    assert StripStart(s) == 0;
    assert StripEnd(s, 0) == |s|;
  }

  lemma StripIdempotent(s: string)
    ensures Strip(Strip(s)) == Strip(s)
  {
    StripOfTrimmed(Strip(s));
  }

  // ------------------------------------------------------------------ case

  /** Lower-cases the ASCII letters A to Z; every other character is kept. */
  function AsciiLower(s: string): (r: string)
    ensures |r| == |s|
    ensures forall i :: 0 <= i < |s| ==> r[i] == if 'A' <= s[i] <= 'Z' then (s[i] as int + 32) as char else s[i]
  {
    if |s| == 0 then "" else
      var c := s[0];
      [if 'A' <= c <= 'Z' then (c as int + 32) as char else c] + AsciiLower(s[1..])
  }

  // ---------------------------------------------------------------- digits

  predicate IsDigit(c: char) { '0' <= c <= '9' }

  predicate AllDigits(s: string) { forall i :: 0 <= i < |s| ==> IsDigit(s[i]) }

  function DigitValue(c: char): nat requires IsDigit(c) { c as int - '0' as int }

  function DigitChar(n: nat): (c: char)
    requires n < 10
    ensures IsDigit(c) && DigitValue(c) == n
  {
    ('0' as int + n) as char
  }

  /** The number a run of decimal digits denotes (leading zeros allowed). */
  function DigitsValue(s: string): nat
    requires AllDigits(s)
  {
    if |s| == 0 then 0 else DigitsValue(s[..|s| - 1]) * 10 + DigitValue(s[|s| - 1])
  }

  /** `str(n)` for a natural number: its digits, without leading zeros. */
  function NatToString(n: nat): (r: string)
    ensures |r| >= 1 && AllDigits(r) && DigitsValue(r) == n
    ensures |r| > 1 ==> r[0] != '0'
  {
    if n < 10 then [DigitChar(n)]
    else
      var r := NatToString(n / 10) + [DigitChar(n % 10)];
      assert r[..|r| - 1] == NatToString(n / 10);
      r
  }

  /** `str(i)` for an integer. */
  function IntToString(i: int): (r: string)
    ensures i >= 0 ==> r == NatToString(i)
    ensures i < 0 ==> r == "-" + NatToString(-i)
  {
    if i < 0 then "-" + NatToString(-i) else NatToString(i)
  }

  /** `f"{n:02d}"` for `n < 100`. */
  function Pad2(n: nat): (r: string)
    requires n < 100
    ensures |r| == 2 && AllDigits(r) && DigitsValue(r) == n
  {
    var r := [DigitChar(n / 10), DigitChar(n % 10)];
    assert r[..1][..0] == [];
    assert DigitsValue(r[..1]) == n / 10;
    r
  }

  /** Appending two digits multiplies the value of the leading digits by a hundred. */
  lemma DigitsValueAppend2(a: string, b: string)
    requires AllDigits(a) && AllDigits(b) && |b| == 2
    ensures AllDigits(a + b) && DigitsValue(a + b) == DigitsValue(a) * 100 + DigitsValue(b)
  {
    var ab := a + b;
    var a1 := a + b[..1];
    assert AllDigits(ab) by {
      forall i | 0 <= i < |ab| ensures IsDigit(ab[i]) {
        if i < |a| { assert ab[i] == a[i]; } else { assert ab[i] == b[i - |a|]; }
      }
    }
    assert ab[..|ab| - 1] == a1 && ab[|ab| - 1] == b[1];
    assert a1[..|a1| - 1] == a && a1[|a1| - 1] == b[0];
    assert DigitsValue(a1) == DigitsValue(a) * 10 + DigitValue(b[0]);
    assert b[..1][..0] == [];
    assert DigitsValue(b[..1]) == DigitValue(b[0]);
    assert DigitsValue(b) == DigitValue(b[0]) * 10 + DigitValue(b[1]);
  }

  /** `f"{n:04d}"` for `n < 10000`. */
  function Pad4(n: nat): (r: string)
    requires n < 10000
    ensures |r| == 4 && AllDigits(r) && DigitsValue(r) == n
  {
    var r := Pad2(n / 100) + Pad2(n % 100);
    DigitsValueAppend2(Pad2(n / 100), Pad2(n % 100));
    r
  }

  /** `str(n)` of a four-digit number is its zero-free four-digit rendering. */
  lemma NatToStringFourDigits(n: nat)
    requires 1000 <= n <= 9999
    ensures NatToString(n) == Pad4(n)
  {
    assert n / 10 / 10 == n / 100;
    assert n / 100 / 10 == n / 1000;
    assert n % 100 / 10 == n / 10 % 10 && n % 100 % 10 == n % 10;
    assert NatToString(n / 1000) == [DigitChar(n / 1000)];
    assert NatToString(n / 100) == [DigitChar(n / 1000), DigitChar(n / 100 % 10)];
    assert NatToString(n / 10) == [DigitChar(n / 1000), DigitChar(n / 100 % 10), DigitChar(n / 10 % 10)];
    assert Pad4(n) == [DigitChar(n / 1000), DigitChar(n / 100 % 10), DigitChar(n / 10 % 10), DigitChar(n % 10)];
  }

  function Pow10(k: nat): nat {
    if k == 0 then 1 else 10 * Pow10(k - 1)
  }

  /** `k` decimal digits denote a number below `10^k`. */
  lemma {:induction false} DigitsValueBelow(s: string)
    requires AllDigits(s)
    ensures DigitsValue(s) < Pow10(|s|)
  {
    if |s| > 0 {
      DigitsValueBelow(s[..|s| - 1]);
    }
  }

  /**
   * Python's `int(s)` on text: surrounding whitespace, an optional sign and
   * at least one ASCII digit. Any other text raises, which is `None` here.
   */
  function ParseInt(s: string): (r: Option<int>)
  {
    var t := Strip(s);
    if |t| > 0 && (t[0] == '-' || t[0] == '+') then
      var body := t[1..];
      if |body| > 0 && AllDigits(body) then
        var v: int := if t[0] == '-' then -(DigitsValue(body) as int) else DigitsValue(body) as int;
        Some(v)
      else None
    else if |t| > 0 && AllDigits(t) then Some(DigitsValue(t))
    else None
  }

  // ------------------------------------------------------- split, strip, filter

  /** Python's `int()` reads back what `str()` wrote for a natural number. */
  lemma ParseIntNatToString(n: nat)
    ensures ParseInt(NatToString(n)) == Some(n)
  {
    var t := NatToString(n);
    StripOfTrimmed(t);
  }

  /** `[p.strip() for p in s.split(sep) if p.strip()]`. */
  function SplitStripNonEmpty(s: string, sep: string): (r: seq<string>)
    requires |sep| > 0
    ensures forall t <- r :: t != "" && Strip(t) == t
  {
    StripAll(Split(s, sep))
  }

  /** The stripped, non-empty parts, in their order. */
  function StripAll(parts: seq<string>): (r: seq<string>)
    ensures |r| <= |parts|
    ensures forall t <- r :: t != "" && Strip(t) == t
  {
    if |parts| == 0 then []
    else
      var t := Strip(parts[0]);
      StripIdempotent(parts[0]);
      if t == "" then StripAll(parts[1..]) else [t] + StripAll(parts[1..])
  }

  /** Each result is the strip of a part, and every part that strips to non-empty text is kept. */
  lemma {:induction false} StripAllMembers(parts: seq<string>)
    ensures forall t <- StripAll(parts) :: exists p <- parts :: Strip(p) == t
    ensures forall p <- parts :: Strip(p) != "" ==> Strip(p) in StripAll(parts)
  {
    if |parts| > 0 {
      var rest := parts[1..];
      var t := Strip(parts[0]);
      StripAllMembers(rest);
      assert StripAll(parts) == (if t == "" then StripAll(rest) else [t] + StripAll(rest));
      forall x <- StripAll(parts)
        ensures exists p <- parts :: Strip(p) == x
      {
        if x in StripAll(rest) {
          var p :| p in rest && Strip(p) == x;
          assert p in parts;
        } else {
          assert Strip(parts[0]) == x;
        }
      }
      forall p <- parts | Strip(p) != ""
        ensures Strip(p) in StripAll(parts)
      {
        var k :| 0 <= k < |parts| && parts[k] == p;
        if k > 0 {
          assert rest[k - 1] == p;
        }
      }
    }
  }

  /** Stripping part by part keeps the order of the parts: the result for a concatenation is the concatenation of the results. */
  lemma {:induction false} StripAllConcat(a: seq<string>, b: seq<string>)
    ensures StripAll(a + b) == StripAll(a) + StripAll(b)
  {
    if |a| > 0 {
      var t := Strip(a[0]);
      assert (a + b)[0] == a[0];
      assert (a + b)[1..] == a[1..] + b;
      StripAllConcat(a[1..], b);
      assert StripAll(a + b) == (if t == "" then StripAll(a[1..] + b) else [t] + StripAll(a[1..] + b));
      assert StripAll(a) == (if t == "" then StripAll(a[1..]) else [t] + StripAll(a[1..]));
    } else {
      assert a + b == b;
    }
  }

  /** Stripped, non-empty items free of the one-character separator, joined with it, are split back into the same items. */
  lemma {:induction false} SplitStripNonEmptyJoin(items: seq<string>, c: char)
    requires forall t <- items :: t != "" && Strip(t) == t && c !in t
    ensures SplitStripNonEmpty(Join(items, [c]), [c]) == items
  {
    if |items| == 0 {
      assert Split("", [c]) == [""] by { assert !OccursAt("", [c], 0); }
    } else {
      SplitJoin(items, c);
      StripAllKeeps(items);
    }
  }

  lemma {:induction false} StripAllKeeps(items: seq<string>)
    requires forall t <- items :: t != "" && Strip(t) == t
    ensures StripAll(items) == items
  {
    if |items| > 0 {
      assert forall t <- items[1..] :: t in items;
      StripAllKeeps(items[1..]);
    }
  }
}
