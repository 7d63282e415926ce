/**
 * scripts/export_bear_notes.py: the joins behind exporting Bear notes to
 * Markdown. The rows of the SQL queries are inputs; from them the script
 * builds a note lookup, a title index, per-note tags, backlinks and
 * attachments, resolves `[[wiki links]]` against the title index, selects
 * the notes to export and writes each with a front-matter header.
 */
module ExportBear {
  import opened Wrappers
  import opened Text

  /** Python truthiness of an `Optional[str]` column: present and not empty. */
  predicate Filled(o: Option<string>) {
    o.Some? && o.value != ""
  }

  const BearOpenNote := "bear://x-callback-url/open-note?id="

  /** The `bear_link` of a note: the open-note URL when the identifier is truthy, `None` otherwise. */
  function BearLink(identifier: Option<string>): (r: Option<string>)
    ensures r.Some? <==> Filled(identifier)
    ensures r.Some? ==> StartsWith(r.value, BearOpenNote) && r.value[|BearOpenNote|..] == identifier.value
  {
    if Filled(identifier) then Some(BearOpenNote + identifier.value) else None
  }

  // ----------------------------------------------------- dicts built in loops

  /** A dict of lists built with `setdefault(k, []).append(v)`: its keys in insertion order, and the lists. */
  datatype Groups<K, V> = Groups(keys: seq<K>, lists: map<K, seq<V>>)

  /** What every such dict satisfies: each key listed once, and the listed keys are the keys. */
  ghost predicate Valid<K, V>(g: Groups<K, V>) {
    && (forall i, j :: 0 <= i < j < |g.keys| ==> g.keys[i] != g.keys[j])
    && g.lists.Keys == (set k <- g.keys)
  }

  /** `g.setdefault(k, []).append(v)`. */
  function SetDefaultAppend<K, V>(g: Groups<K, V>, k: K, v: V): (r: Groups<K, V>)
    ensures k in r.lists && r.lists[k] == (if k in g.lists then g.lists[k] else []) + [v]
    ensures r.lists.Keys == g.lists.Keys + {k}
    ensures forall k2 :: k2 in g.lists && k2 != k ==> r.lists[k2] == g.lists[k2]
  {
    if k in g.lists then Groups(g.keys, g.lists[k := g.lists[k] + [v]])
    else Groups(g.keys + [k], g.lists[k := [v]])
  }

  lemma SetDefaultAppendValid<K, V>(g: Groups<K, V>, k: K, v: V)
    requires Valid(g)
    ensures Valid(SetDefaultAppend(g, k, v))
  {
    if k !in g.lists {
      var keys := g.keys + [k];
      assert (set k2 <- keys) == (set k2 <- g.keys) + {k};
    }
  }

  /** The dict after appending each pair's value under its key, in order. */
  function GroupAll<K, V>(pairs: seq<(K, V)>): Groups<K, V> {
    if |pairs| == 0 then Groups([], map[])
    else
      var last := pairs[|pairs| - 1];
      SetDefaultAppend(GroupAll(pairs[..|pairs| - 1]), last.0, last.1)
  }

  /** The keys of the pairs. */
  function KeysOf<K, V>(pairs: seq<(K, V)>): set<K> {
    if |pairs| == 0 then {} else KeysOf(pairs[..|pairs| - 1]) + {pairs[|pairs| - 1].0}
  }

  /** A key is a key of the pairs exactly when some pair has it. */
  lemma {:induction false} KeysOfIndex<K, V>(pairs: seq<(K, V)>)
    ensures forall k :: k in KeysOf(pairs) <==> exists i :: 0 <= i < |pairs| && pairs[i].0 == k
  {
    if |pairs| > 0 {
      var init := pairs[..|pairs| - 1];
      KeysOfIndex(init);
      assert forall i :: 0 <= i < |init| ==> init[i] == pairs[i];
    }
  }

  /** The values paired with `k`, in order. */
  function ValuesOf<K(==), V>(pairs: seq<(K, V)>, k: K): (r: seq<V>)
    ensures |r| <= |pairs|
  {
    if |pairs| == 0 then []
    else
      var last := pairs[|pairs| - 1];
      ValuesOf(pairs[..|pairs| - 1], k) + (if last.0 == k then [last.1] else [])
  }

  /** A key with no pair has no values. */
  lemma {:induction false} ValuesOfAbsent<K, V>(pairs: seq<(K, V)>, k: K)
    requires k !in KeysOf(pairs)
    ensures ValuesOf(pairs, k) == []
  {
    if |pairs| > 0 {
      ValuesOfAbsent(pairs[..|pairs| - 1], k);
    }
  }

  /** The index of the first pair with key `k`. */
  function FirstIndex<K(==), V>(pairs: seq<(K, V)>, k: K): (i: nat)
    requires k in KeysOf(pairs)
    ensures i < |pairs| && pairs[i].0 == k
    ensures forall j :: 0 <= j < i ==> pairs[j].0 != k
  {
    var init := pairs[..|pairs| - 1];
    if k in KeysOf(init) then
      var i := FirstIndex(init, k);
      assert pairs[i] == init[i];
      assert forall j :: 0 <= j < i ==> pairs[j] == init[j];
      i
    else
      KeysOfIndex(init);
      assert forall j :: 0 <= j < |init| ==> pairs[j] == init[j];
      |pairs| - 1
  }

  lemma {:induction false} GroupAllValid<K, V>(pairs: seq<(K, V)>)
    ensures Valid(GroupAll(pairs))
  {
    if |pairs| > 0 {
      var last := pairs[|pairs| - 1];
      GroupAllValid(pairs[..|pairs| - 1]);
      SetDefaultAppendValid(GroupAll(pairs[..|pairs| - 1]), last.0, last.1);
    }
  }

  lemma {:induction false} GroupAllKeys<K, V>(pairs: seq<(K, V)>)
    ensures GroupAll(pairs).lists.Keys == KeysOf(pairs)
  {
    if |pairs| > 0 {
      var init, last := pairs[..|pairs| - 1], pairs[|pairs| - 1];
      GroupAllKeys(init);
    }
  }

  lemma {:induction false} GroupAllLists<K, V>(pairs: seq<(K, V)>)
    ensures forall k <- GroupAll(pairs).lists :: GroupAll(pairs).lists[k] == ValuesOf(pairs, k)
  {
    if |pairs| > 0 {
      var init, last := pairs[..|pairs| - 1], pairs[|pairs| - 1];
      GroupAllLists(init);
      GroupAllKeys(init);
      var g0 := GroupAll(init);
      var g := SetDefaultAppend(g0, last.0, last.1);
      assert GroupAll(pairs) == g;
      forall k <- g.lists
        ensures g.lists[k] == ValuesOf(pairs, k)
      {
        if k !in g0.lists {
          ValuesOfAbsent(init, k);
        }
      }
    }
  }

  lemma {:induction false} GroupAllOrder<K, V>(pairs: seq<(K, V)>)
    ensures forall k <- GroupAll(pairs).keys :: k in KeysOf(pairs)
    ensures var keys := GroupAll(pairs).keys;
      forall i, j :: 0 <= i < j < |keys| ==> FirstIndex(pairs, keys[i]) < FirstIndex(pairs, keys[j])
  {
    GroupAllKeys(pairs);
    GroupAllValid(pairs);
    if |pairs| > 0 {
      var init, last := pairs[..|pairs| - 1], pairs[|pairs| - 1];
      GroupAllOrder(init);
      GroupAllKeys(init);
      GroupAllValid(init);
      var g0 := GroupAll(init);
      var keys := GroupAll(pairs).keys;
      if last.0 !in g0.lists {
        assert keys == g0.keys + [last.0];
        forall i, j | 0 <= i < j < |keys|
          ensures FirstIndex(pairs, keys[i]) < FirstIndex(pairs, keys[j])
        {
          assert keys[i] == g0.keys[i];
          if j < |g0.keys| {
            assert keys[j] == g0.keys[j];
          }
        }
      }
    }
  }

  /**
   * The grouped dict: each key of some pair listed once, in order of first
   * appearance, with the values paired with it in order.
   */
  lemma GroupAllSpec<K, V>(pairs: seq<(K, V)>)
    ensures var g := GroupAll(pairs);
      && Valid(g)
      && g.lists.Keys == KeysOf(pairs)
      && (forall k <- g.lists :: g.lists[k] == ValuesOf(pairs, k))
  {
    GroupAllValid(pairs);
    GroupAllKeys(pairs);
    GroupAllLists(pairs);
  }

  /** The pairs `f` yields for `rows`, in order; rows it yields nothing for are skipped. */
  function Emitted<R, K, V>(rows: seq<R>, f: R -> Option<(K, V)>): seq<(K, V)> {
    if |rows| == 0 then []
    else
      var last := f(rows[|rows| - 1]);
      Emitted(rows[..|rows| - 1], f) + (if last.Some? then [last.value] else [])
  }

  /** Every emitted pair comes from a row, and every row's pair is emitted. */
  lemma {:induction false} EmittedMembers<R, K, V>(rows: seq<R>, f: R -> Option<(K, V)>)
    ensures forall p :: p in Emitted(rows, f) <==> exists i :: 0 <= i < |rows| && f(rows[i]) == Some(p)
  {
    if |rows| > 0 {
      var init := rows[..|rows| - 1];
      EmittedMembers(init, f);
      forall p
        ensures p in Emitted(rows, f) <==> exists i :: 0 <= i < |rows| && f(rows[i]) == Some(p)
      {
        if exists i :: 0 <= i < |rows| && f(rows[i]) == Some(p) {
          var i :| 0 <= i < |rows| && f(rows[i]) == Some(p);
          if i < |init| {
            assert init[i] == rows[i];
          }
        }
        if p in Emitted(init, f) {
          var i :| 0 <= i < |init| && f(init[i]) == Some(p);
          assert rows[i] == init[i];
        }
      }
    }
  }

  /** The pair a row yields is emitted. */
  lemma EmittedHas<R, K, V>(rows: seq<R>, f: R -> Option<(K, V)>, i: nat)
    requires i < |rows| && f(rows[i]).Some?
    ensures f(rows[i]).value in Emitted(rows, f)
  {
    EmittedMembers(rows, f);
    assert f(rows[i]) == Some(f(rows[i]).value);
  }

  /** One more row: its pair, if any, is appended. */
  lemma EmitStep<R, K, V>(rows: seq<R>, i: nat, f: R -> Option<(K, V)>)
    requires i < |rows|
    ensures Emitted(rows[..i + 1], f) == Emitted(rows[..i], f) + (if f(rows[i]).Some? then [f(rows[i]).value] else [])
  {
    assert rows[..i + 1][..i] == rows[..i];
  }

  /** One more pair: its value is appended under its key. */
  lemma GroupStep<K, V>(pairs: seq<(K, V)>, p: (K, V))
    ensures GroupAll(pairs + [p]) == SetDefaultAppend(GroupAll(pairs), p.0, p.1)
  {
    assert (pairs + [p])[..|pairs|] == pairs;
  }

  /** One more row of a grouping loop: the row's pair, if any, is appended under its key. */
  lemma GroupEmitStep<R, K, V>(rows: seq<R>, i: nat, f: R -> Option<(K, V)>)
    requires i < |rows|
    ensures GroupAll(Emitted(rows[..i + 1], f)) ==
      (if f(rows[i]).Some? then SetDefaultAppend(GroupAll(Emitted(rows[..i], f)), f(rows[i]).value.0, f(rows[i]).value.1)
       else GroupAll(Emitted(rows[..i], f)))
  {
    EmitStep(rows, i, f);
    var ps := Emitted(rows[..i], f);
    if f(rows[i]).Some? {
      var p := f(rows[i]).value;
      assert Emitted(rows[..i + 1], f) == ps + [p];
      GroupStep(ps, p);
    } else {
      assert Emitted(rows[..i + 1], f) == ps;
    }
  }

  /** A dict comprehension `{k: v for ...}`: a later pair with the same key overwrites an earlier one. */
  function LastWins<K, V>(pairs: seq<(K, V)>): map<K, V> {
    if |pairs| == 0 then map[]
    else
      var last := pairs[|pairs| - 1];
      LastWins(pairs[..|pairs| - 1])[last.0 := last.1]
  }

  /** Each key of some pair is present, with the value of the last pair that has that key. */
  lemma {:induction false} LastWinsSpec<K, V>(pairs: seq<(K, V)>)
    ensures LastWins(pairs).Keys == KeysOf(pairs)
    ensures forall k <- LastWins(pairs) :: exists i :: (0 <= i < |pairs| && pairs[i] == (k, LastWins(pairs)[k])
      && forall j :: i < j < |pairs| ==> pairs[j].0 != k)
  {
    if |pairs| > 0 {
      var init, last := pairs[..|pairs| - 1], pairs[|pairs| - 1];
      LastWinsSpec(init);
      var m := LastWins(pairs);
      forall k <- m
        ensures exists i :: (0 <= i < |pairs| && pairs[i] == (k, m[k])
          && forall j :: i < j < |pairs| ==> pairs[j].0 != k)
      {
        if k == last.0 {
          assert pairs[|pairs| - 1] == (k, m[k]);
        } else {
          var i :| 0 <= i < |init| && init[i] == (k, LastWins(init)[k])
            && forall j :: i < j < |init| ==> init[j].0 != k;
          assert pairs[i] == init[i];
          assert forall j :: i < j < |pairs| - 1 ==> pairs[j] == init[j];
        }
      }
    }
  }

  /** Every row yields a pair: the pairs are the rows' pairs, in order. */
  lemma {:induction false} AllEmitted<R, K, V>(rows: seq<R>, f: R -> Option<(K, V)>)
    requires forall i :: 0 <= i < |rows| ==> f(rows[i]).Some?
    ensures |Emitted(rows, f)| == |rows|
    ensures forall i :: 0 <= i < |rows| ==> Emitted(rows, f)[i] == f(rows[i]).value
  {
    if |rows| > 0 {
      var init := rows[..|rows| - 1];
      assert forall i :: 0 <= i < |init| ==> init[i] == rows[i];
      AllEmitted(init, f);
    }
  }

  /** A key of a dict built from every row is that of a row, the last one with it, whose value it holds. */
  lemma LastWinsWitness<R, K, V>(rows: seq<R>, f: R -> Option<(K, V)>, k: K) returns (i: nat)
    requires forall i :: 0 <= i < |rows| ==> f(rows[i]).Some?
    requires k in LastWins(Emitted(rows, f))
    ensures i < |rows| && f(rows[i]).value == (k, LastWins(Emitted(rows, f))[k])
    ensures forall j :: i < j < |rows| ==> f(rows[j]).value.0 != k
  {
    var ps := Emitted(rows, f);
    AllEmitted(rows, f);
    LastWinsSpec(ps);
    i :| 0 <= i < |ps| && ps[i] == (k, LastWins(ps)[k]) && forall j :: i < j < |ps| ==> ps[j].0 != k;
  }

  /** Every row's key is a key of a dict built from every row. */
  lemma LastWinsHas<R, K, V>(rows: seq<R>, f: R -> Option<(K, V)>, i: nat)
    requires forall i :: 0 <= i < |rows| ==> f(rows[i]).Some?
    requires i < |rows|
    ensures f(rows[i]).value.0 in LastWins(Emitted(rows, f))
  {
    var ps := Emitted(rows, f);
    AllEmitted(rows, f);
    LastWinsSpec(ps);
    KeysOfHas(ps, i);
  }

  /** A key of the pairs is that of some pair. */
  lemma {:induction false} KeysOfWitness<K, V>(pairs: seq<(K, V)>, k: K) returns (j: nat)
    requires k in KeysOf(pairs)
    ensures j < |pairs| && pairs[j].0 == k
  {
    var init := pairs[..|pairs| - 1];
    if k in KeysOf(init) {
      j := KeysOfWitness(init, k);
      assert pairs[j] == init[j];
    } else {
      j := |pairs| - 1;
    }
  }

  /** The key of every pair is a key of the pairs. */
  lemma {:induction false} KeysOfHas<K, V>(pairs: seq<(K, V)>, j: nat)
    requires j < |pairs|
    ensures pairs[j].0 in KeysOf(pairs)
  {
    var init := pairs[..|pairs| - 1];
    if j < |init| {
      KeysOfHas(init, j);
      assert pairs[j] == init[j];
    }
  }

  /** Each emitted pair is yielded by some row. */
  lemma {:induction false} EmittedWitness<R, K, V>(rows: seq<R>, f: R -> Option<(K, V)>, j: nat) returns (i: nat)
    requires j < |Emitted(rows, f)|
    ensures i < |rows| && f(rows[i]) == Some(Emitted(rows, f)[j])
  {
    var init := rows[..|rows| - 1];
    var ps0 := Emitted(init, f);
    if j < |ps0| {
      i := EmittedWitness(init, f, j);
      assert rows[i] == init[i];
    } else {
      i := |rows| - 1;
    }
  }

  /** The pair each yielding row yields is emitted. */
  lemma {:induction false} EmittedIndex<R, K, V>(rows: seq<R>, f: R -> Option<(K, V)>, i: nat) returns (j: nat)
    requires i < |rows| && f(rows[i]).Some?
    ensures j < |Emitted(rows, f)| && Emitted(rows, f)[j] == f(rows[i]).value
  {
    var init := rows[..|rows| - 1];
    if i < |init| {
      assert init[i] == rows[i];
      j := EmittedIndex(init, f, i);
    } else {
      j := |Emitted(init, f)|;
    }
  }

  /** A key of a grouped dict is yielded by some row. */
  lemma GroupedKeyWitness<R, K, V>(rows: seq<R>, f: R -> Option<(K, V)>, k: K) returns (i: nat)
    requires k in GroupAll(Emitted(rows, f)).lists
    ensures i < |rows| && f(rows[i]).Some? && f(rows[i]).value.0 == k
  {
    var ps := Emitted(rows, f);
    GroupAllKeys(ps);
    var j := KeysOfWitness(ps, k);
    i := EmittedWitness(rows, f, j);
  }

  /** The key every yielding row yields is a key of the grouped dict. */
  lemma GroupedKeyHas<R, K, V>(rows: seq<R>, f: R -> Option<(K, V)>, i: nat)
    requires i < |rows| && f(rows[i]).Some?
    ensures f(rows[i]).value.0 in GroupAll(Emitted(rows, f)).lists
  {
    var ps := Emitted(rows, f);
    GroupAllKeys(ps);
    var j := EmittedIndex(rows, f, i);
    KeysOfHas(ps, j);
  }

  /** The pair every yielding row yields is listed in the grouped dict. */
  lemma GroupedValueHas<R, K, V>(rows: seq<R>, f: R -> Option<(K, V)>, i: nat)
    requires i < |rows| && f(rows[i]).Some?
    ensures var g := GroupAll(Emitted(rows, f));
      f(rows[i]).value.0 in g.lists && f(rows[i]).value.1 in g.lists[f(rows[i]).value.0]
  {
    var ps := Emitted(rows, f);
    GroupAllKeys(ps);
    GroupAllLists(ps);
    var j := EmittedIndex(rows, f, i);
    KeysOfHas(ps, j);
    assert ps[j] in ps;
    ValuesOfHas(ps, ps[j].0, ps[j].1);
  }

  /** Each value a grouped dict lists under `k` is yielded by some row under `k`. */
  lemma GroupedValueWitness<R, K, V>(rows: seq<R>, f: R -> Option<(K, V)>, k: K, v: V) returns (i: nat)
    requires k in GroupAll(Emitted(rows, f)).lists && v in GroupAll(Emitted(rows, f)).lists[k]
    ensures i < |rows| && f(rows[i]) == Some((k, v))
  {
    var ps := Emitted(rows, f);
    GroupAllLists(ps);
    ValuesOfFrom(ps, k, v);
    var j :| 0 <= j < |ps| && ps[j] == (k, v);
    i := EmittedWitness(rows, f, j);
  }

  // --------------------------------------------------------------- notes

  /** A row of the note query: `Z_PK`, `ZTITLE` and `ZUNIQUEIDENTIFIER`. */
  datatype NoteRow = NoteRow(pk: int, title: Option<string>, identifier: Option<string>)

  /** The `{"title", "identifier"}` record the lookup and the title index hold. */
  datatype NoteInfo = NoteInfo(title: Option<string>, identifier: Option<string>)

  function InfoOf(r: NoteRow): NoteInfo {
    NoteInfo(r.title, r.identifier)
  }

  /** `lookup[pk] = {...}`, for every row. */
  function LookupPair(r: NoteRow): Option<(int, NoteInfo)> {
    Some((r.pk, InfoOf(r)))
  }

  /** `title_index.setdefault(title, []).append({...})`, only for truthy titles. */
  function TitleEntry(r: NoteRow): Option<(string, NoteInfo)> {
    if Filled(r.title) then Some((r.title.value, InfoOf(r))) else None
  }

  /** `fetch_note_lookup`: every note by primary key, and the notes under each truthy title in row order. */
  method FetchNoteLookup(rows: seq<NoteRow>) returns (lookup: map<int, NoteInfo>, titleIndex: Groups<string, NoteInfo>)
    ensures lookup == LastWins(Emitted(rows, LookupPair))
    ensures titleIndex == GroupAll(Emitted(rows, TitleEntry))
  {
    lookup := map[];
    titleIndex := Groups([], map[]);
    var i := 0;
    while i < |rows|
      invariant 0 <= i <= |rows|
      invariant lookup == LastWins(Emitted(rows[..i], LookupPair))
      invariant titleIndex == GroupAll(Emitted(rows[..i], TitleEntry))
    {
      var r := rows[i];
      EmitStep(rows, i, LookupPair);
      GroupEmitStep(rows, i, TitleEntry);
      var ps := Emitted(rows[..i], LookupPair);
      assert (ps + [(r.pk, InfoOf(r))])[..|ps|] == ps;
      lookup := lookup[r.pk := InfoOf(r)];
      if Filled(r.title) {
        assert TitleEntry(rows[i]) == Some((r.title.value, InfoOf(r)));
        titleIndex := SetDefaultAppend(titleIndex, r.title.value, InfoOf(r));
      } else {
        assert TitleEntry(rows[i]).None?;
      }
      i := i + 1;
    }
    assert rows[..i] == rows;
  }

  /**
   * The lookup has every primary key of the rows, with the record of the
   * last row that has it.
   */
  lemma NoteLookupLastWins(rows: seq<NoteRow>)
    ensures var lookup := LastWins(Emitted(rows, LookupPair));
      forall pk :: pk in lookup <==> exists i :: 0 <= i < |rows| && rows[i].pk == pk
    ensures var lookup := LastWins(Emitted(rows, LookupPair));
      forall pk <- lookup :: exists i :: (0 <= i < |rows| && rows[i].pk == pk && lookup[pk] == InfoOf(rows[i])
        && forall j :: i < j < |rows| ==> rows[j].pk != pk)
  {
    var f := LookupPair;
    var m := LastWins(Emitted(rows, f));
    forall pk
      ensures pk in m <==> exists i :: 0 <= i < |rows| && rows[i].pk == pk
    {
      if pk in m {
        var i := LastWinsWitness(rows, f, pk);
      }
      if exists i :: 0 <= i < |rows| && rows[i].pk == pk {
        var i :| 0 <= i < |rows| && rows[i].pk == pk;
        LastWinsHas(rows, f, i);
      }
    }
    forall pk <- m
      ensures exists i :: (0 <= i < |rows| && rows[i].pk == pk && m[pk] == InfoOf(rows[i])
        && forall j :: i < j < |rows| ==> rows[j].pk != pk)
    {
      var i := LastWinsWitness(rows, f, pk);
    }
  }

  /** The title index has exactly the truthy titles, each with the records of its rows, in row order. */
  lemma TitleIndexSpec(rows: seq<NoteRow>)
    ensures var g := GroupAll(Emitted(rows, TitleEntry));
      && Valid(g)
      && (forall t :: t in g.lists <==> exists i :: 0 <= i < |rows| && rows[i].title == Some(t) && t != "")
      && (forall t <- g.lists :: g.lists[t] == ValuesOf(Emitted(rows, TitleEntry), t))
  {
    var f := TitleEntry;
    var g := GroupAll(Emitted(rows, f));
    GroupAllSpec(Emitted(rows, f));
    forall t
      ensures t in g.lists <==> exists i :: 0 <= i < |rows| && rows[i].title == Some(t) && t != ""
    {
      if t in g.lists {
        var i := GroupedKeyWitness(rows, f, t);
        assert f(rows[i]).Some?;
      }
      if exists i :: 0 <= i < |rows| && rows[i].title == Some(t) && t != "" {
        var i :| 0 <= i < |rows| && rows[i].title == Some(t) && t != "";
        TitledHas(rows, i);
      }
    }
  }

  /** The truthy title of a row is indexed. */
  lemma TitledHas(rows: seq<NoteRow>, i: nat)
    requires i < |rows| && Filled(rows[i].title)
    ensures rows[i].title.value in GroupAll(Emitted(rows, TitleEntry)).lists
  {
    assert TitleEntry(rows[i]) == Some((rows[i].title.value, InfoOf(rows[i])));
    GroupedKeyHas(rows, TitleEntry, i);
  }

  // ---------------------------------------------------------------- tags

  /** A tag's `ZTITLE`, which may be NULL. */
  type TagTitle = Option<string>

  /** A row of the tag query: `Z_PK` and `ZTITLE`. */
  datatype TagRow = TagRow(pk: int, title: TagTitle)

  function TagPair(r: TagRow): Option<(int, TagTitle)> {
    Some((r.pk, r.title))
  }

  /** `fetch_tags`: `{r["Z_PK"]: r["ZTITLE"] for r in rows}`. */
  function FetchTags(rows: seq<TagRow>): map<int, TagTitle> {
    LastWins(Emitted(rows, TagPair))
  }

  /** Every tag key of the rows is present, with the title of the last row that has it. */
  lemma FetchTagsSpec(rows: seq<TagRow>)
    ensures forall pk :: pk in FetchTags(rows) <==> exists i :: 0 <= i < |rows| && rows[i].pk == pk
    ensures forall pk <- FetchTags(rows) :: exists i :: (0 <= i < |rows| && rows[i] == TagRow(pk, FetchTags(rows)[pk])
      && forall j :: i < j < |rows| ==> rows[j].pk != pk)
  {
    var f := TagPair;
    var m := LastWins(Emitted(rows, f));
    assert FetchTags(rows) == m;
    forall pk
      ensures pk in m <==> exists i :: 0 <= i < |rows| && rows[i].pk == pk
    {
      if pk in m {
        var i := LastWinsWitness(rows, f, pk);
      }
      if exists i :: 0 <= i < |rows| && rows[i].pk == pk {
        var i :| 0 <= i < |rows| && rows[i].pk == pk;
        LastWinsHas(rows, f, i);
      }
    }
    forall pk <- m
      ensures exists i :: (0 <= i < |rows| && rows[i] == TagRow(pk, m[pk])
        && forall j :: i < j < |rows| ==> rows[j].pk != pk)
    {
      var i := LastWinsWitness(rows, f, pk);
      assert rows[i] == TagRow(rows[i].pk, rows[i].title);
    }
  }

  /** A row of the note-tag join: the note and the tag. */
  datatype TagLink = TagLink(notePk: int, tagPk: int)

  /** `if r["tag_pk"] in tags: note_tags.setdefault(r["note_pk"], []).append(tags[r["tag_pk"]])`. */
  function NoteTagEntry(tags: map<int, TagTitle>): TagLink -> Option<(int, TagTitle)> {
    (r: TagLink) => if r.tagPk in tags then Some((r.notePk, tags[r.tagPk])) else None
  }

  lemma NoteTagEntryOf(tags: map<int, TagTitle>, r: TagLink)
    ensures NoteTagEntry(tags)(r) == if r.tagPk in tags then Some((r.notePk, tags[r.tagPk])) else None
  {
  }

  /** `fetch_note_tags`: the titles of each note's known tags, in row order. */
  method FetchNoteTags(links: seq<TagLink>, tags: map<int, TagTitle>) returns (noteTags: Groups<int, TagTitle>)
    ensures noteTags == GroupAll(Emitted(links, NoteTagEntry(tags)))
  {
    noteTags := Groups([], map[]);
    var i := 0;
    while i < |links|
      invariant 0 <= i <= |links|
      invariant noteTags == GroupAll(Emitted(links[..i], NoteTagEntry(tags)))
    {
      var r := links[i];
      GroupEmitStep(links, i, NoteTagEntry(tags));
      if r.tagPk in tags {
        assert NoteTagEntry(tags)(links[i]) == Some((r.notePk, tags[r.tagPk]));
        noteTags := SetDefaultAppend(noteTags, r.notePk, tags[r.tagPk]);
      } else {
        assert NoteTagEntry(tags)(links[i]).None?;
      }
      i := i + 1;
    }
    assert links[..i] == links;
  }

  /**
   * A note has tags exactly when some row links it to a known tag, and each
   * of its tags is the title of a known tag some row links it to.
   */
  lemma NoteTagsKnown(links: seq<TagLink>, tags: map<int, TagTitle>)
    ensures var g := GroupAll(Emitted(links, NoteTagEntry(tags)));
      && Valid(g)
      && (forall n :: n in g.lists <==> exists i :: 0 <= i < |links| && links[i].notePk == n && links[i].tagPk in tags)
      && (forall n <- g.lists :: forall t <- g.lists[n] ::
            exists i :: 0 <= i < |links| && links[i].notePk == n && links[i].tagPk in tags && tags[links[i].tagPk] == t)
  {
    var f := NoteTagEntry(tags);
    var g := GroupAll(Emitted(links, f));
    GroupAllValid(Emitted(links, f));
    forall n
      ensures n in g.lists <==> exists i :: 0 <= i < |links| && links[i].notePk == n && links[i].tagPk in tags
    {
      if n in g.lists {
        var i := GroupedKeyWitness(links, f, n);
        assert links[i].tagPk in tags && links[i].notePk == n;
      }
      if exists i :: 0 <= i < |links| && links[i].notePk == n && links[i].tagPk in tags {
        var i :| 0 <= i < |links| && links[i].notePk == n && links[i].tagPk in tags;
        assert f(links[i]) == Some((n, tags[links[i].tagPk]));
        GroupedKeyHas(links, f, i);
      }
    }
    forall n <- g.lists, t <- g.lists[n]
      ensures exists i :: 0 <= i < |links| && links[i].notePk == n && links[i].tagPk in tags && tags[links[i].tagPk] == t
    {
      var i := GroupedValueWitness(links, f, n, t);
      assert links[i].tagPk in tags && links[i].notePk == n && tags[links[i].tagPk] == t;
    }
  }

  /** A value listed under `k` comes from a pair `(k, v)`. */
  lemma {:induction false} ValuesOfFrom<K, V>(pairs: seq<(K, V)>, k: K, v: V)
    requires v in ValuesOf(pairs, k)
    ensures (k, v) in pairs
  {
    var init, last := pairs[..|pairs| - 1], pairs[|pairs| - 1];
    assert pairs == init + [last];
    if v in ValuesOf(init, k) {
      ValuesOfFrom(init, k, v);
    }
  }

  // ------------------------------------------------------------ backlinks

  /** A row of the backlink query: the note linked to, and the note holding the link. */
  datatype LinkRow = LinkRow(target: int, linker: int)

  /** A backlink record: the linking note's title, identifier and Bear link. */
  datatype Backlink = Backlink(title: Option<string>, identifier: Option<string>, bearLink: Option<string>)

  /** The record of a backlink from the note `info` describes. */
  function BacklinkOf(info: NoteInfo): (b: Backlink)
    ensures b.title == info.title && b.identifier == info.identifier
    ensures b.bearLink.Some? <==> Filled(info.identifier)
  {
    Backlink(info.title, info.identifier, BearLink(info.identifier))
  }

  /** A backlink row counts only when both of its notes are in the lookup. */
  function BacklinkEntry(lookup: map<int, NoteInfo>): LinkRow -> Option<(int, Backlink)> {
    (r: LinkRow) => if r.target in lookup && r.linker in lookup then Some((r.target, BacklinkOf(lookup[r.linker]))) else None
  }

  /** `fetch_backlinks`: for each known note, the known notes linking to it, in row order. */
  method FetchBacklinks(rows: seq<LinkRow>, lookup: map<int, NoteInfo>) returns (backlinks: Groups<int, Backlink>)
    ensures backlinks == GroupAll(Emitted(rows, BacklinkEntry(lookup)))
  {
    backlinks := Groups([], map[]);
    var i := 0;
    while i < |rows|
      invariant 0 <= i <= |rows|
      invariant backlinks == GroupAll(Emitted(rows[..i], BacklinkEntry(lookup)))
    {
      var r := rows[i];
      GroupEmitStep(rows, i, BacklinkEntry(lookup));
      if r.target in lookup && r.linker in lookup {
        var entry := BacklinkOf(lookup[r.linker]);
        assert BacklinkEntry(lookup)(rows[i]) == Some((r.target, entry));
        backlinks := SetDefaultAppend(backlinks, r.target, entry);
      } else {
        assert BacklinkEntry(lookup)(rows[i]).None?;
      }
      i := i + 1;
    }
    assert rows[..i] == rows;
  }

  /** Every backlink is recorded under a known note and describes a known note linking to it. */
  lemma BacklinksKnown(rows: seq<LinkRow>, lookup: map<int, NoteInfo>)
    ensures var g := GroupAll(Emitted(rows, BacklinkEntry(lookup)));
      && Valid(g)
      && (forall n :: n in g.lists <==> exists i :: (0 <= i < |rows| && rows[i].target == n
            && rows[i].target in lookup && rows[i].linker in lookup))
      && (forall n <- g.lists :: forall b <- g.lists[n] ::
            exists i :: (0 <= i < |rows| && rows[i].target == n && n in lookup && rows[i].linker in lookup
              && b == BacklinkOf(lookup[rows[i].linker])))
  {
    var f := BacklinkEntry(lookup);
    var g := GroupAll(Emitted(rows, f));
    GroupAllValid(Emitted(rows, f));
    forall n
      ensures n in g.lists <==> exists i :: (0 <= i < |rows| && rows[i].target == n
            && rows[i].target in lookup && rows[i].linker in lookup)
    {
      if n in g.lists {
        var i := GroupedKeyWitness(rows, f, n);
        assert rows[i].target == n && rows[i].target in lookup && rows[i].linker in lookup;
      }
      if exists i :: 0 <= i < |rows| && rows[i].target == n && rows[i].target in lookup && rows[i].linker in lookup {
        var i :| 0 <= i < |rows| && rows[i].target == n && rows[i].target in lookup && rows[i].linker in lookup;
        assert f(rows[i]) == Some((n, BacklinkOf(lookup[rows[i].linker])));
        GroupedKeyHas(rows, f, i);
      }
    }
    forall n <- g.lists, b <- g.lists[n]
      ensures exists i :: (0 <= i < |rows| && rows[i].target == n && n in lookup && rows[i].linker in lookup
              && b == BacklinkOf(lookup[rows[i].linker]))
    {
      var i := GroupedValueWitness(rows, f, n, b);
      assert rows[i].target == n && n in lookup && rows[i].linker in lookup && b == BacklinkOf(lookup[rows[i].linker]);
    }
  }

  // ---------------------------------------------------------- attachments

  /** A row of the file query: the note, the file's identifier and its name, any of them missing. */
  datatype FileRow = FileRow(note: Option<int>, uid: Option<string>, fileName: Option<string>)

  /** An attachment record. */
  datatype Attachment = Attachment(path: string, fileLink: string)

  /** `os.path.join(a, b)` on POSIX: an absolute `b` replaces `a`; otherwise a `/` is inserted unless `a` is empty or ends in one. */
  function PathJoin(a: string, b: string): (r: string)
    ensures StartsWith(b, "/") ==> r == b
    ensures !StartsWith(b, "/") && a != "" && a[|a| - 1] != '/' ==> r == a + "/" + b
    ensures !StartsWith(b, "/") && (a == "" || a[|a| - 1] == '/') ==> r == a + b
  {
    if StartsWith(b, "/") then b
    else if a == "" || a[|a| - 1] == '/' then a + b
    else a + "/" + b
  }

  /** `os.path.join(files_base, uid, fname)`, and the `file://` link to it. */
  function AttachmentOf(base: string, uid: string, fileName: string): (a: Attachment)
    ensures a.path == PathJoin(PathJoin(base, uid), fileName)
    ensures a.fileLink == "file://" + a.path
  {
    var path := PathJoin(PathJoin(base, uid), fileName);
    Attachment(path, "file://" + path)
  }

  /** Rows with any missing column are skipped. */
  function AttachmentEntry(base: string): FileRow -> Option<(int, Attachment)> {
    (r: FileRow) => if r.note.None? || r.uid.None? || r.fileName.None? then None
         else Some((r.note.value, AttachmentOf(base, r.uid.value, r.fileName.value)))
  }

  lemma AttachmentEntryOf(base: string, r: FileRow)
    ensures AttachmentEntry(base)(r).Some? <==> r.note.Some? && r.uid.Some? && r.fileName.Some?
    ensures AttachmentEntry(base)(r).Some? ==>
      AttachmentEntry(base)(r).value == (r.note.value, AttachmentOf(base, r.uid.value, r.fileName.value))
  {
  }

  /** `fetch_attachments`: each note's files, in row order. */
  method FetchAttachments(rows: seq<FileRow>, base: string) returns (attachments: Groups<int, Attachment>)
    ensures attachments == GroupAll(Emitted(rows, AttachmentEntry(base)))
  {
    attachments := Groups([], map[]);
    var i := 0;
    while i < |rows|
      invariant 0 <= i <= |rows|
      invariant attachments == GroupAll(Emitted(rows[..i], AttachmentEntry(base)))
    {
      var r := rows[i];
      GroupEmitStep(rows, i, AttachmentEntry(base));
      if !(r.note.None? || r.uid.None? || r.fileName.None?) {
        var entry := AttachmentOf(base, r.uid.value, r.fileName.value);
        assert AttachmentEntry(base)(rows[i]) == Some((r.note.value, entry));
        attachments := SetDefaultAppend(attachments, r.note.value, entry);
      } else {
        assert AttachmentEntry(base)(rows[i]).None?;
      }
      i := i + 1;
    }
    assert rows[..i] == rows;
  }

  /** A note has attachments exactly when some row with all three columns names it. */
  lemma AttachmentNotes(rows: seq<FileRow>, base: string)
    ensures var g := GroupAll(Emitted(rows, AttachmentEntry(base)));
      && Valid(g)
      && (forall n :: n in g.lists <==> exists i :: (0 <= i < |rows| && rows[i].note == Some(n)
            && rows[i].uid.Some? && rows[i].fileName.Some?))
  {
    var f := AttachmentEntry(base);
    var g := GroupAll(Emitted(rows, f));
    GroupAllValid(Emitted(rows, f));
    forall n
      ensures n in g.lists <==> exists i :: (0 <= i < |rows| && rows[i].note == Some(n)
            && rows[i].uid.Some? && rows[i].fileName.Some?)
    {
      if n in g.lists {
        var i := GroupedKeyWitness(rows, f, n);
        AttachmentEntryOf(base, rows[i]);
      }
      if exists i :: 0 <= i < |rows| && rows[i].note == Some(n) && rows[i].uid.Some? && rows[i].fileName.Some? {
        var i :| 0 <= i < |rows| && rows[i].note == Some(n) && rows[i].uid.Some? && rows[i].fileName.Some?;
        AttachmentEntryOf(base, rows[i]);
        GroupedKeyHas(rows, f, i);
      }
    }
  }

  /** Every attachment listed for a note is the file of a row naming that note. */
  lemma AttachmentsFromRows(rows: seq<FileRow>, base: string)
    ensures var g := GroupAll(Emitted(rows, AttachmentEntry(base)));
      forall n <- g.lists :: forall a <- g.lists[n] ::
        exists i :: (0 <= i < |rows| && rows[i].note == Some(n) && rows[i].uid.Some? && rows[i].fileName.Some?
          && a == AttachmentOf(base, rows[i].uid.value, rows[i].fileName.value))
  {
    var f := AttachmentEntry(base);
    var g := GroupAll(Emitted(rows, f));
    forall n <- g.lists, a <- g.lists[n]
      ensures exists i :: (0 <= i < |rows| && rows[i].note == Some(n) && rows[i].uid.Some? && rows[i].fileName.Some?
              && a == AttachmentOf(base, rows[i].uid.value, rows[i].fileName.value))
    {
      var i := GroupedValueWitness(rows, f, n, a);
      AttachmentEntryOf(base, rows[i]);
    }
  }

  /** With a base not ending in `/`, a uid free of `/` and a relative file name, the path is `base/uid/fname`. */
  lemma AttachmentPathPlain(base: string, uid: string, fileName: string)
    requires base != "" && base[|base| - 1] != '/'
    requires uid != "" && '/' !in uid
    requires !StartsWith(fileName, "/")
    ensures AttachmentOf(base, uid, fileName).path == base + "/" + uid + "/" + fileName
    ensures AttachmentOf(base, uid, fileName).fileLink == "file://" + base + "/" + uid + "/" + fileName
  {
    assert !StartsWith(uid, "/") by { assert uid[..1][0] == uid[0]; }
    var bu := base + "/" + uid;
    assert bu[|bu| - 1] == uid[|uid| - 1];
  }

  // -------------------------------------------------------- forward links

  /**
   * The end of the lazy group `(.+?)` of `\[\[(.+?)\]\]` whose first
   * character is at `j - 1`: the first `j` at which `]]` follows, every
   * character of the group before it not being a newline.
   */
  function CloseAt(text: string, j: nat): (r: Option<nat>)
    requires j >= 1
    ensures r.Some? ==> j <= r.value && OccursAt(text, "]]", r.value)
    decreases |text| - j
  {
    if j > |text| then None
    else if text[j - 1] == '\n' then None
    else if OccursAt(text, "]]", j) then Some(j)
    else CloseAt(text, j + 1)
  }

  /** The group ends at the first `]]`, and holds no newline. */
  lemma {:induction false} CloseAtSpec(text: string, j: nat)
    requires j >= 1 && CloseAt(text, j).Some?
    ensures forall m :: j - 1 <= m < CloseAt(text, j).value ==> text[m] != '\n'
    ensures forall m :: j <= m < CloseAt(text, j).value ==> !OccursAt(text, "]]", m)
    decreases |text| - j
  {
    if !OccursAt(text, "]]", j) {
      CloseAtSpec(text, j + 1);
    }
  }

  /** `re.findall(r"\[\[(.+?)\]\]", text)`: the groups of the successive non-overlapping matches, scanning from the left. */
  function Links(text: string): seq<string>
    decreases |text|
  {
    if text == [] then []
    else if OccursAt(text, "[[", 0) && CloseAt(text, 3).Some? then
      var j := CloseAt(text, 3).value;
      [text[2..j]] + Links(text[j + 2..])
    else Links(text[1..])
  }

  /** An occurrence in a suffix is an occurrence in the text. */
  lemma ContainsInSuffix(text: string, k: nat, sub: string)
    requires k <= |text| && Contains(text[k..], sub)
    ensures Contains(text, sub)
  {
    var i: nat :| i <= |text[k..]| && OccursAt(text[k..], sub, i);
    assert text[k + i..k + i + |sub|] == text[k..][i..i + |sub|];
    assert OccursAt(text, sub, k + i);
  }

  /** Every found link is non-empty, holds no newline, and appears in the text between `[[` and `]]`. */
  lemma {:induction false} LinksFound(text: string)
    ensures forall l <- Links(text) :: l != "" && '\n' !in l && Contains(text, "[[" + l + "]]")
    decreases |text|
  {
    if text != [] {
      if OccursAt(text, "[[", 0) && CloseAt(text, 3).Some? {
        var j := CloseAt(text, 3).value;
        var l := text[2..j];
        CloseAtSpec(text, 3);
        assert forall m :: 0 <= m < |l| ==> l[m] == text[2 + m];
        assert text[0..j + 2] == text[0..2] + l + text[j..j + 2];
        assert OccursAt(text, "[[" + l + "]]", 0);
        LinksFound(text[j + 2..]);
        forall l' <- Links(text[j + 2..])
          ensures Contains(text, "[[" + l' + "]]")
        {
          ContainsInSuffix(text, j + 2, "[[" + l' + "]]");
        }
      } else {
        LinksFound(text[1..]);
        forall l' <- Links(text[1..])
          ensures Contains(text, "[[" + l' + "]]")
        {
          ContainsInSuffix(text, 1, "[[" + l' + "]]");
        }
      }
    }
  }

  /** A link whose title has no `]` and no newline is found whole, and scanning goes on after it. */
  lemma LinkThenRest(t: string, rest: string)
    requires t != "" && ']' !in t && '\n' !in t
    ensures Links("[[" + t + "]]" + rest) == [t] + Links(rest)
  {
    var text := "[[" + t + "]]" + rest;
    CloseAtOfTitle(t, rest, 3);
    assert text[..2] == "[[";
    assert text[2..|t| + 2] == t;
    assert text[|t| + 4..] == rest;
  }

  lemma {:induction false} CloseAtOfTitle(t: string, rest: string, j: nat)
    requires t != "" && ']' !in t && '\n' !in t
    requires 3 <= j <= |t| + 2
    ensures CloseAt("[[" + t + "]]" + rest, j) == Some(|t| + 2)
    decreases |t| + 2 - j
  {
    var text := "[[" + t + "]]" + rest;
    assert text[j - 1] == t[j - 3];
    if j == |t| + 2 {
      assert text[j..j + 2] == "]]";
    } else {
      assert text[j] == t[j - 2];
      CloseAtOfTitle(t, rest, j + 1);
    }
  }

  /** Text without `[` holds no link. */
  lemma {:induction false} NoBracketNoLinks(text: string)
    requires '[' !in text
    ensures Links(text) == []
    decreases |text|
  {
    if text != [] {
      assert text[0] != '[';
      assert 2 <= |text| ==> text[0..2][0] == text[0];
      assert forall m :: 0 <= m < |text[1..]| ==> text[1..][m] == text[m + 1];
      NoBracketNoLinks(text[1..]);
    }
  }

  /** A forward link record. */
  datatype ForwardLink = ForwardLink(title: string, identifier: Option<string>, bearLink: Option<string>)

  /** The record of link `t`: the identifier of the first note titled `t`, if any, and its Bear link. */
  function ForwardOf(t: string, titleIndex: map<string, seq<NoteInfo>>): (f: ForwardLink)
    ensures f.title == t
    ensures f.identifier == (if t in titleIndex && |titleIndex[t]| > 0 then titleIndex[t][0].identifier else None)
    ensures f.bearLink == BearLink(f.identifier)
  {
    var matches := if t in titleIndex then titleIndex[t] else [];
    var identifier := if |matches| > 0 then matches[0].identifier else None;
    ForwardLink(t, identifier, if |matches| > 0 && Filled(identifier) then Some(BearOpenNote + identifier.value) else None)
  }

  /** `text or ""` for the note body. */
  function BodyOf(text: Option<string>): string {
    if text.Some? then text.value else ""
  }

  /** `resolve_forward_links`: one record per link found, in order, repeats kept. */
  method ResolveForwardLinks(text: Option<string>, titleIndex: map<string, seq<NoteInfo>>) returns (forward: seq<ForwardLink>)
    ensures |forward| == |Links(BodyOf(text))|
    ensures forall i :: 0 <= i < |forward| ==> forward[i] == ForwardOf(Links(BodyOf(text))[i], titleIndex)
  {
    var found := Links(BodyOf(text));
    forward := [];
    var i := 0;
    while i < |found|
      invariant 0 <= i <= |found|
      invariant |forward| == i
      invariant forall k :: 0 <= k < i ==> forward[k] == ForwardOf(found[k], titleIndex)
    {
      forward := forward + [ForwardOf(found[i], titleIndex)];
      i := i + 1;
    }
  }

  /** Through the title index of the notes, a link names the first note with its title. */
  lemma ForwardNamesFirstNote(rows: seq<NoteRow>, t: string)
    requires t != ""
    ensures var f := ForwardOf(t, GroupAll(Emitted(rows, TitleEntry)).lists);
      && ((exists i :: 0 <= i < |rows| && rows[i].title == Some(t)) ==>
            exists i :: (0 <= i < |rows| && rows[i].title == Some(t) && f.identifier == rows[i].identifier
              && forall j :: 0 <= j < i ==> rows[j].title != Some(t)))
      && ((forall i :: 0 <= i < |rows| ==> rows[i].title != Some(t)) ==> f.identifier.None? && f.bearLink.None?)
  {
    TitleIndexSpec(rows);
    var ps := Emitted(rows, TitleEntry);
    if exists i :: 0 <= i < |rows| && rows[i].title == Some(t) {
      var i := FirstTitled(rows, t);
      FirstTitledFirstValue(rows, t);
    }
  }

  /** The first row titled `t`. */
  function FirstTitled(rows: seq<NoteRow>, t: string): (i: nat)
    requires exists i :: 0 <= i < |rows| && rows[i].title == Some(t)
    ensures i < |rows| && rows[i].title == Some(t)
    ensures forall j :: 0 <= j < i ==> rows[j].title != Some(t)
  {
    if rows[0].title == Some(t) then 0
    else
      assert exists i :: 0 <= i < |rows[1..]| && rows[1..][i].title == Some(t) by {
        var i :| 0 <= i < |rows| && rows[i].title == Some(t);
        assert rows[1..][i - 1] == rows[i];
      }
      1 + FirstTitled(rows[1..], t)
  }

  /** The first record under a non-empty title is that of its first row. */
  lemma {:induction false} FirstTitledFirstValue(rows: seq<NoteRow>, t: string)
    requires t != "" && exists i :: 0 <= i < |rows| && rows[i].title == Some(t)
    ensures var vs := ValuesOf(Emitted(rows, TitleEntry), t);
      |vs| > 0 && vs[0] == InfoOf(rows[FirstTitled(rows, t)])
  {
    var init, last := rows[..|rows| - 1], rows[|rows| - 1];
    var ps := Emitted(rows, TitleEntry);
    var ps0 := Emitted(init, TitleEntry);
    assert ps == ps0 + (if TitleEntry(last).Some? then [TitleEntry(last).value] else []);
    if TitleEntry(last).Some? {
      assert (ps0 + [TitleEntry(last).value])[..|ps0|] == ps0;
    } else {
      assert ps == ps0;
    }
    assert ValuesOf(ps, t) == ValuesOf(ps0, t) + (if TitleEntry(last).Some? && TitleEntry(last).value.0 == t then [InfoOf(last)] else []);
    if exists i :: 0 <= i < |init| && init[i].title == Some(t) {
      FirstTitledFirstValue(init, t);
      FirstTitledPrefix(rows, init, t);
      assert rows[FirstTitled(init, t)] == init[FirstTitled(init, t)];
    } else {
      ValuesOfNoTitle(init, t);
      assert forall j :: 0 <= j < |rows| - 1 ==> rows[j].title != Some(t) by {
        forall j | 0 <= j < |rows| - 1
          ensures rows[j].title != Some(t)
        {
          assert rows[j] == init[j];
        }
      }
      assert last.title == Some(t);
      assert TitleEntry(last) == Some((t, InfoOf(last)));
    }
  }

  /** The first row titled `t` is the same in a prefix that has one. */
  lemma FirstTitledPrefix(rows: seq<NoteRow>, init: seq<NoteRow>, t: string)
    requires |init| <= |rows| && init == rows[..|init|]
    requires exists i :: 0 <= i < |init| && init[i].title == Some(t)
    ensures exists i :: 0 <= i < |rows| && rows[i].title == Some(t)
    ensures FirstTitled(rows, t) == FirstTitled(init, t)
  {
    var k := FirstTitled(init, t);
    assert rows[k] == init[k];
    assert forall j :: 0 <= j < k ==> rows[j].title != Some(t) by {
      forall j | 0 <= j < k
        ensures rows[j].title != Some(t)
      {
        assert rows[j] == init[j];
      }
    }
  }

  /** No row titled `t`, no record under it. */
  lemma {:induction false} ValuesOfNoTitle(rows: seq<NoteRow>, t: string)
    requires forall i :: 0 <= i < |rows| ==> rows[i].title != Some(t)
    ensures ValuesOf(Emitted(rows, TitleEntry), t) == []
  {
    if |rows| > 0 {
      var init, last := rows[..|rows| - 1], rows[|rows| - 1];
      assert forall i :: 0 <= i < |init| ==> init[i] == rows[i];
      ValuesOfNoTitle(init, t);
      var ps0 := Emitted(init, TitleEntry);
      var ps := Emitted(rows, TitleEntry);
      if TitleEntry(last).Some? {
        assert ps == ps0 + [TitleEntry(last).value];
        assert ps[..|ps| - 1] == ps0;
        assert TitleEntry(last).value.0 != t;
      } else {
        assert ps == ps0;
      }
    }
  }

  // ------------------------------------------------------------ selection

  /** Which of `select_note_pks`' branches runs. */
  datatype Branch = ByIds | ByTag | BySince | Everything

  /** Ids first when the list is non-empty, then a truthy tag, then a given day count, else all notes. */
  function BranchOf(ids: Option<seq<string>>, tagName: Option<string>, sinceDays: Option<int>): (b: Branch)
    ensures b == ByIds <==> ids.Some? && |ids.value| > 0
    ensures b == ByTag <==> !(ids.Some? && |ids.value| > 0) && Filled(tagName)
    ensures b == BySince <==> !(ids.Some? && |ids.value| > 0) && !Filled(tagName) && sinceDays.Some?
    ensures b == Everything <==> !(ids.Some? && |ids.value| > 0) && !Filled(tagName) && sinceDays.None?
  {
    if ids.Some? && |ids.value| > 0 then ByIds
    else if Filled(tagName) then ByTag
    else if sinceDays.Some? then BySince
    else Everything
  }

  /** `any(t in {tag, "#" + tag, "/" + tag} for t in tags)`; a NULL title is none of them. */
  predicate HasTag(tags: seq<TagTitle>, tag: string) {
    exists t <- tags :: t in {Some(tag), Some("#" + tag), Some("/" + tag)}
  }

  /** The notes, in key order, with one of the tag's spellings. */
  function Tagged(keys: seq<int>, lists: map<int, seq<TagTitle>>, tag: string): (r: seq<int>)
    requires forall k <- keys :: k in lists
    ensures forall k :: k in r <==> k in keys && HasTag(lists[k], tag)
  {
    if |keys| == 0 then []
    else
      var rest := Tagged(keys[..|keys| - 1], lists, tag);
      var k := keys[|keys| - 1];
      assert forall x :: x in keys <==> x in keys[..|keys| - 1] || x == k;
      rest + (if HasTag(lists[k], tag) then [k] else [])
  }

  /**
   * `select_note_pks`: the rows of the id query, the notes whose tags hold
   * the tag, the rows of the modification-date query, or every note's row.
   * The query results are inputs.
   */
  method SelectNotePks(tagsMap: Groups<int, TagTitle>, tagName: Option<string>, ids: Option<seq<string>>,
                       sinceDays: Option<int>, idRows: seq<int>, sinceRows: seq<int>, allRows: seq<int>)
    returns (pks: seq<int>)
    requires forall k <- tagsMap.keys :: k in tagsMap.lists
    ensures BranchOf(ids, tagName, sinceDays) == ByIds ==> pks == idRows
    ensures BranchOf(ids, tagName, sinceDays) == ByTag ==> pks == Tagged(tagsMap.keys, tagsMap.lists, tagName.value)
    ensures BranchOf(ids, tagName, sinceDays) == BySince ==> pks == sinceRows
    ensures BranchOf(ids, tagName, sinceDays) == Everything ==> pks == allRows
  {
    pks := [];
    if ids.Some? && |ids.value| > 0 {
      pks := idRows;
    } else if Filled(tagName) {
      var tag := tagName.value;
      var i := 0;
      while i < |tagsMap.keys|
        invariant 0 <= i <= |tagsMap.keys|
        invariant pks == Tagged(tagsMap.keys[..i], tagsMap.lists, tag)
      {
        var notePk := tagsMap.keys[i];
        assert tagsMap.keys[..i + 1][..i] == tagsMap.keys[..i];
        if HasTag(tagsMap.lists[notePk], tag) {
          pks := pks + [notePk];
        }
        i := i + 1;
      }
      assert tagsMap.keys[..i] == tagsMap.keys;
    } else if sinceDays.Some? {
      pks := sinceRows;
    } else {
      pks := allRows;
    }
  }

  /** The link points at a known tag spelled as `tag`, `#tag` or `/tag`. */
  predicate SpelledLink(l: TagLink, tags: map<int, TagTitle>, tag: string) {
    l.tagPk in tags && tags[l.tagPk] in {Some(tag), Some("#" + tag), Some("/" + tag)}
  }

  /** On the note-tag dict, the tag branch selects each note once, exactly when one of its known tags is a spelling of the tag. */
  lemma TaggedNotesSpec(links: seq<TagLink>, tags: map<int, TagTitle>, tag: string)
    ensures var g := GroupAll(Emitted(links, NoteTagEntry(tags)));
      && (forall k <- g.keys :: k in g.lists)
      && (forall i, j :: 0 <= i < j < |Tagged(g.keys, g.lists, tag)| ==>
            Tagged(g.keys, g.lists, tag)[i] != Tagged(g.keys, g.lists, tag)[j])
      && (forall n :: n in Tagged(g.keys, g.lists, tag) <==>
            exists i :: 0 <= i < |links| && links[i].notePk == n && SpelledLink(links[i], tags, tag))
  {
    var f := NoteTagEntry(tags);
    var g := GroupAll(Emitted(links, f));
    GroupAllValid(Emitted(links, f));
    assert forall k <- g.keys :: k in g.lists;
    TaggedDistinct(g.keys, g.lists, tag);
    forall n
      ensures n in Tagged(g.keys, g.lists, tag) <==>
            exists i :: 0 <= i < |links| && links[i].notePk == n && SpelledLink(links[i], tags, tag)
    {
      TaggedMember(links, tags, tag, n);
    }
  }

  /** One note is selected exactly when one of its links is spelled as asked. */
  lemma TaggedMember(links: seq<TagLink>, tags: map<int, TagTitle>, tag: string, n: int)
    ensures var g := GroupAll(Emitted(links, NoteTagEntry(tags)));
      && (forall k <- g.keys :: k in g.lists)
      && (n in Tagged(g.keys, g.lists, tag) <==>
            exists i :: 0 <= i < |links| && links[i].notePk == n && SpelledLink(links[i], tags, tag))
  {
    var f := NoteTagEntry(tags);
    var g := GroupAll(Emitted(links, f));
    GroupAllValid(Emitted(links, f));
    if n in Tagged(g.keys, g.lists, tag) {
      var i := TaggedWitness(links, tags, tag, n);
    }
    if exists i :: 0 <= i < |links| && links[i].notePk == n && SpelledLink(links[i], tags, tag) {
      var i :| 0 <= i < |links| && links[i].notePk == n && SpelledLink(links[i], tags, tag);
      TaggedHas(links, tags, tag, i);
    }
  }

  /** A selected note has a link to a tag spelled as asked. */
  lemma TaggedWitness(links: seq<TagLink>, tags: map<int, TagTitle>, tag: string, n: int) returns (i: nat)
    requires var g := GroupAll(Emitted(links, NoteTagEntry(tags)));
      (forall k <- g.keys :: k in g.lists) && n in Tagged(g.keys, g.lists, tag)
    ensures i < |links| && links[i].notePk == n && SpelledLink(links[i], tags, tag)
  {
    var f := NoteTagEntry(tags);
    var g := GroupAll(Emitted(links, f));
    var t :| t in g.lists[n] && t in {Some(tag), Some("#" + tag), Some("/" + tag)};
    i := GroupedValueWitness(links, f, n, t);
    NoteTagEntryOf(tags, links[i]);
  }

  /** A link to a tag spelled as asked selects its note. */
  lemma TaggedHas(links: seq<TagLink>, tags: map<int, TagTitle>, tag: string, i: nat)
    requires i < |links| && SpelledLink(links[i], tags, tag)
    ensures var g := GroupAll(Emitted(links, NoteTagEntry(tags)));
      (forall k <- g.keys :: k in g.lists) && links[i].notePk in Tagged(g.keys, g.lists, tag)
  {
    var f := NoteTagEntry(tags);
    var g := GroupAll(Emitted(links, f));
    GroupAllValid(Emitted(links, f));
    NoteTagEntryOf(tags, links[i]);
    GroupedValueHas(links, f, i);
    assert HasTag(g.lists[links[i].notePk], tag);
  }

  /** A pair's value is listed under its key. */
  lemma {:induction false} ValuesOfHas<K, V>(pairs: seq<(K, V)>, k: K, v: V)
    requires (k, v) in pairs
    ensures v in ValuesOf(pairs, k)
  {
    var init, last := pairs[..|pairs| - 1], pairs[|pairs| - 1];
    assert pairs == init + [last];
    if last != (k, v) {
      ValuesOfHas(init, k, v);
    }
  }

  /** Distinct keys give distinct selections. */
  lemma {:induction false} TaggedDistinct(keys: seq<int>, lists: map<int, seq<TagTitle>>, tag: string)
    requires forall k <- keys :: k in lists
    requires forall i, j :: 0 <= i < j < |keys| ==> keys[i] != keys[j]
    ensures var r := Tagged(keys, lists, tag); forall i, j :: 0 <= i < j < |r| ==> r[i] != r[j]
  {
    if |keys| > 0 {
      var init := keys[..|keys| - 1];
      TaggedDistinct(init, lists, tag);
      assert keys[|keys| - 1] !in init;
      assert keys[|keys| - 1] !in Tagged(init, lists, tag);
    }
  }

  // ---------------------------------------------------------- front matter

  /** A front-matter value: a list (with its `json.dumps` text), `None`, a boolean, or anything else by its `str()`. */
  datatype MetaValue = MList(json: string) | MNull | MBool(b: bool) | MText(s: string)

  /** The text after `key: `. */
  function Render(v: MetaValue): string {
    match v
    case MList(json) => json
    case MNull => "null"
    case MBool(b) => if b then "true" else "false"
    case MText(s) => s
  }

  function MetaLine(key: string, v: MetaValue): string {
    key + ": " + Render(v)
  }

  /** `---`, one line per meta entry in order, `---`. */
  function FrontMatter(meta: seq<(string, MetaValue)>): (lines: seq<string>)
    ensures |lines| == |meta| + 2 && lines[0] == "---" && lines[|lines| - 1] == "---"
    ensures forall i :: 0 <= i < |meta| ==> lines[i + 1] == MetaLine(meta[i].0, meta[i].1)
  {
    ["---"] + seq(|meta|, i requires 0 <= i < |meta| => MetaLine(meta[i].0, meta[i].1)) + ["---"]
  }

  /** The lines `---`, one per meta entry in order, and `---` are the front matter. */
  lemma FrontMatterLines(meta: seq<(string, MetaValue)>, lines: seq<string>)
    requires |lines| == |meta| + 2 && lines[0] == "---" && lines[|lines| - 1] == "---"
    requires forall k :: 0 <= k < |meta| ==> lines[k + 1] == MetaLine(meta[k].0, meta[k].1)
    ensures lines == FrontMatter(meta)
  {
    var f := FrontMatter(meta);
    forall k | 0 <= k < |lines|
      ensures lines[k] == f[k]
    {
      if 0 < k < |lines| - 1 {
        assert lines[k] == MetaLine(meta[k - 1].0, meta[k - 1].1);
      }
    }
  }

  /**
   * `write_note`: the file `note-<identifier or pk>.md` holding the front
   * matter joined by newlines, a blank line and the note's text.
   */
  method WriteNote(identifier: Option<string>, pk: int, text: Option<string>, meta: seq<(string, MetaValue)>)
    returns (fileName: string, content: string)
    ensures fileName == "note-" + (if Filled(identifier) then identifier.value else IntToString(pk)) + ".md"
    ensures content == Join(FrontMatter(meta), "\n") + "\n\n" + BodyOf(text)
  {
    fileName := "note-" + (if Filled(identifier) then identifier.value else IntToString(pk)) + ".md";
    var lines := ["---"];
    var i := 0;
    while i < |meta|
      invariant 0 <= i <= |meta|
      invariant |lines| == i + 1 && lines[0] == "---"
      invariant forall k :: 0 <= k < i ==> lines[k + 1] == MetaLine(meta[k].0, meta[k].1)
    {
      var (key, v) := meta[i];
      var rendered;
      match v {
        case MList(json) => rendered := json;
        case MNull => rendered := "null";
        case MBool(b) => rendered := if b then "true" else "false";
        case MText(s) => rendered := s;
      }
      assert rendered == Render(meta[i].1);
      lines := lines + [key + ": " + rendered];
      i := i + 1;
    }
    lines := lines + ["---"];
    FrontMatterLines(meta, lines);
    content := Join(lines, "\n") + "\n\n" + BodyOf(text);
  }

  /**
   * When no key or value holds a newline, the header of a written note
   * splits back into its lines, and the text follows it after one blank line.
   */
  lemma NoteReadsBack(meta: seq<(string, MetaValue)>, text: Option<string>)
    requires forall p <- meta :: '\n' !in MetaLine(p.0, p.1)
    ensures var header := Join(FrontMatter(meta), "\n");
      var content := header + "\n\n" + BodyOf(text);
      && Split(header, "\n") == FrontMatter(meta)
      && content[|header| + 2..] == BodyOf(text)
      && StartsWith(content, "---\n")
  {
    var lines := FrontMatter(meta);
    forall l <- lines
      ensures '\n' !in l
    {
      var i :| 0 <= i < |lines| && lines[i] == l;
      if 0 < i < |lines| - 1 {
        assert meta[i - 1] in meta;
      }
    }
    SplitJoin(lines, '\n');
    JoinCons("---", lines[1..], "\n");
    assert lines == ["---"] + lines[1..];
  }
}
