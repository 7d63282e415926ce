/**
 * Python's ordering of strings and of tuples of strings, and the stable
 * `list.sort(key=..., reverse=...)` the scripts apply to event rows.
 */
module Sorting {

  /** Python's `a < b` on `str`: lexicographic by code point, a proper prefix first. */
  predicate StrLt(a: string, b: string)
    decreases |a|
  {
    |b| > 0 && (|a| == 0 || a[0] < b[0] || (a[0] == b[0] && StrLt(a[1..], b[1..])))
  }

  lemma {:induction false} StrLtIrreflexive(a: string)
    ensures !StrLt(a, a)
    decreases |a|
  {
    if |a| > 0 {
      StrLtIrreflexive(a[1..]);
    }
  }

  lemma {:induction false} StrLtTransitive(a: string, b: string, c: string)
    requires StrLt(a, b) && StrLt(b, c)
    ensures StrLt(a, c)
    decreases |a|
  {
    if |a| > 0 && a[0] == b[0] && b[0] == c[0] {
      StrLtTransitive(a[1..], b[1..], c[1..]);
    }
  }

  lemma {:induction false} StrLtTotal(a: string, b: string)
    ensures a == b || StrLt(a, b) || StrLt(b, a)
    decreases |a|
  {
    if |a| > 0 && |b| > 0 && a[0] == b[0] {
      StrLtTotal(a[1..], b[1..]);
      if a[1..] == b[1..] {
        assert a == [a[0]] + a[1..];
        assert b == [b[0]] + b[1..];
      }
    }
  }

  /** Python's `<` on tuples of strings: the first differing component decides, a proper prefix first. */
  predicate KeyLt(a: seq<string>, b: seq<string>)
    decreases |a|
  {
    |b| > 0 && (|a| == 0 || StrLt(a[0], b[0]) || (a[0] == b[0] && KeyLt(a[1..], b[1..])))
  }

  lemma {:induction false} KeyLtIrreflexive(a: seq<string>)
    ensures !KeyLt(a, a)
    decreases |a|
  {
    if |a| > 0 {
      StrLtIrreflexive(a[0]);
      KeyLtIrreflexive(a[1..]);
    }
  }

  lemma {:induction false} KeyLtTransitive(a: seq<string>, b: seq<string>, c: seq<string>)
    requires KeyLt(a, b) && KeyLt(b, c)
    ensures KeyLt(a, c)
    decreases |a|
  {
    if |a| > 0 {
      if StrLt(a[0], b[0]) && StrLt(b[0], c[0]) {
        StrLtTransitive(a[0], b[0], c[0]);
      } else if a[0] == b[0] && b[0] == c[0] {
        KeyLtTransitive(a[1..], b[1..], c[1..]);
      }
    }
  }

  lemma {:induction false} KeyLtTotal(a: seq<string>, b: seq<string>)
    ensures a == b || KeyLt(a, b) || KeyLt(b, a)
    decreases |a|
  {
    if |a| > 0 && |b| > 0 {
      StrLtTotal(a[0], b[0]);
      if a[0] == b[0] {
        KeyLtTotal(a[1..], b[1..]);
        if a[1..] == b[1..] {
          assert a == [a[0]] + a[1..];
          assert b == [b[0]] + b[1..];
        }
      }
    }
  }

  /** Whether key `a` sorts strictly before key `b`: ascending, or descending when `reverse=True`. */
  predicate Precedes(a: seq<string>, b: seq<string>, descending: bool) {
    if descending then KeyLt(b, a) else KeyLt(a, b)
  }

  /** Both orderings are strict total orders on keys. */
  lemma PrecedesOrder(a: seq<string>, b: seq<string>, c: seq<string>, descending: bool)
    ensures !Precedes(a, a, descending)
    ensures Precedes(a, b, descending) && Precedes(b, c, descending) ==> Precedes(a, c, descending)
    ensures a == b || Precedes(a, b, descending) || Precedes(b, a, descending)
  {
    KeyLtIrreflexive(a);
    KeyLtTotal(a, b);
    if Precedes(a, b, descending) && Precedes(b, c, descending) {
      if descending { KeyLtTransitive(c, b, a); } else { KeyLtTransitive(a, b, c); }
    }
  }

  lemma PrecedesAsymmetric(a: seq<string>, b: seq<string>, descending: bool)
    ensures Precedes(a, b, descending) ==> !Precedes(b, a, descending)
  {
    PrecedesOrder(a, b, a, descending);
  }

  /** "Not strictly before" is transitive too. */
  lemma NotPrecedesTransitive(a: seq<string>, b: seq<string>, c: seq<string>, descending: bool)
    requires !Precedes(c, b, descending) && !Precedes(b, a, descending)
    ensures !Precedes(c, a, descending)
  {
    PrecedesOrder(a, b, c, descending);
    PrecedesOrder(c, a, b, descending);
  }

  /** No element is followed by one whose key sorts strictly before its own. */
  ghost predicate SortedBy<T>(s: seq<T>, key: T -> seq<string>, descending: bool) {
    forall i, j :: 0 <= i < j < |s| ==> !Precedes(key(s[j]), key(s[i]), descending)
  }

  /** No element of `s` has a key strictly before `k`. */
  ghost predicate NoneBefore<T>(s: seq<T>, key: T -> seq<string>, k: seq<string>, descending: bool) {
    forall i :: 0 <= i < |s| ==> !Precedes(key(s[i]), k, descending)
  }

  /** The elements of `s` whose key is `k`, in order. */
  function WithKey<T>(s: seq<T>, key: T -> seq<string>, k: seq<string>): (r: seq<T>)
    ensures |r| <= |s|
  {
    if |s| == 0 then []
    else (if key(s[0]) == k then [s[0]] else []) + WithKey(s[1..], key, k)
  }

  /** Places `x` before the first element whose key does not sort strictly before its own. */
  function Insert<T>(x: T, s: seq<T>, key: T -> seq<string>, descending: bool): (r: seq<T>)
    ensures |r| == |s| + 1
  {
    if |s| == 0 || !Precedes(key(s[0]), key(x), descending) then [x] + s
    else [s[0]] + Insert(x, s[1..], key, descending)
  }

  /** `sorted(s, key=key, reverse=descending)`: Python's sort is stable in both directions. */
  function SortBy<T>(s: seq<T>, key: T -> seq<string>, descending: bool): (r: seq<T>)
    ensures |r| == |s|
  {
    if |s| == 0 then [] else Insert(s[0], SortBy(s[1..], key, descending), key, descending)
  }

  lemma {:induction false} InsertPermutes<T>(x: T, s: seq<T>, key: T -> seq<string>, descending: bool)
    ensures multiset(Insert(x, s, key, descending)) == multiset(s) + multiset{x}
    decreases |s|
  {
    if |s| > 0 && Precedes(key(s[0]), key(x), descending) {
      InsertPermutes(x, s[1..], key, descending);
      assert s == [s[0]] + s[1..];
    }
  }

  lemma {:induction false} InsertNoneBefore<T>(x: T, s: seq<T>, key: T -> seq<string>, k: seq<string>, descending: bool)
    requires NoneBefore(s, key, k, descending) && !Precedes(key(x), k, descending)
    ensures NoneBefore(Insert(x, s, key, descending), key, k, descending)
    decreases |s|
  {
    if |s| > 0 && Precedes(key(s[0]), key(x), descending) {
      InsertNoneBefore(x, s[1..], key, k, descending);
      var t := Insert(x, s[1..], key, descending);
      assert Insert(x, s, key, descending) == [s[0]] + t;
    }
  }

  lemma {:induction false} InsertSorted<T>(x: T, s: seq<T>, key: T -> seq<string>, descending: bool)
    requires SortedBy(s, key, descending)
    ensures SortedBy(Insert(x, s, key, descending), key, descending)
    decreases |s|
  {
    var r := Insert(x, s, key, descending);
    if |s| == 0 {
    } else if !Precedes(key(s[0]), key(x), descending) {
      assert r == [x] + s;
      forall i, j | 0 <= i < j < |r|
        ensures !Precedes(key(r[j]), key(r[i]), descending)
      {
        if i == 0 && j > 1 {
          NotPrecedesTransitive(key(x), key(s[0]), key(s[j - 1]), descending);
        }
      }
    } else {
      var t := Insert(x, s[1..], key, descending);
      assert r == [s[0]] + t;
      InsertSorted(x, s[1..], key, descending);
      PrecedesAsymmetric(key(s[0]), key(x), descending);
      assert NoneBefore(s[1..], key, key(s[0]), descending) by {
        forall i | 0 <= i < |s[1..]|
          ensures !Precedes(key(s[1..][i]), key(s[0]), descending)
        {
          assert s[1..][i] == s[i + 1];
        }
      }
      InsertNoneBefore(x, s[1..], key, key(s[0]), descending);
      forall i, j | 0 <= i < j < |r|
        ensures !Precedes(key(r[j]), key(r[i]), descending)
      {
        if i == 0 {
          assert r[j] == t[j - 1];
        } else {
          assert r[i] == t[i - 1] && r[j] == t[j - 1];
        }
      }
    }
  }

  /** Inserting never reorders elements that share a key: `x` lands before every element with its key. */
  lemma {:induction false} InsertStable<T>(x: T, s: seq<T>, key: T -> seq<string>, k: seq<string>, descending: bool)
    ensures WithKey(Insert(x, s, key, descending), key, k) == (if key(x) == k then [x] else []) + WithKey(s, key, k)
    decreases |s|
  {
    if |s| == 0 || !Precedes(key(s[0]), key(x), descending) {
      var r := Insert(x, s, key, descending);
      assert r[1..] == s;
    } else {
      var t := Insert(x, s[1..], key, descending);
      var r := [s[0]] + t;
      assert r[1..] == t;
      InsertStable(x, s[1..], key, k, descending);
      PrecedesOrder(key(s[0]), key(x), key(x), descending);
    }
  }

  /** `SortBy` orders by key. */
  lemma {:induction false} SortBySorted<T>(s: seq<T>, key: T -> seq<string>, descending: bool)
    ensures SortedBy(SortBy(s, key, descending), key, descending)
    decreases |s|
  {
    if |s| > 0 {
      SortBySorted(s[1..], key, descending);
      InsertSorted(s[0], SortBy(s[1..], key, descending), key, descending);
    }
  }

  /** `SortBy` is a permutation. */
  lemma {:induction false} SortByPermutes<T>(s: seq<T>, key: T -> seq<string>, descending: bool)
    ensures multiset(SortBy(s, key, descending)) == multiset(s)
    decreases |s|
  {
    if |s| > 0 {
      SortByPermutes(s[1..], key, descending);
      InsertPermutes(s[0], SortBy(s[1..], key, descending), key, descending);
      assert s == [s[0]] + s[1..];
    }
  }

  /** `SortBy` is stable: the elements sharing any one key keep their input order. */
  lemma {:induction false} SortByStable<T>(s: seq<T>, key: T -> seq<string>, k: seq<string>, descending: bool)
    ensures WithKey(SortBy(s, key, descending), key, k) == WithKey(s, key, k)
    decreases |s|
  {
    if |s| > 0 {
      SortByStable(s[1..], key, k, descending);
      InsertStable(s[0], SortBy(s[1..], key, descending), key, k, descending);
    }
  }
}
