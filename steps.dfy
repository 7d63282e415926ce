/**
 * The shape shared by the scripts' row loops: each input yields nothing,
 * one result, or an exception that ends the whole run; the results are kept
 * in input order.
 */
module Steps {
  import opened Wrappers

  /** What one input yields: nothing (`continue`), a value appended to the output, or the exception raised. */
  datatype Outcome<+T> = Skip | Emit(event: T) | Crash(reason: string)

  /** The events `f` yields for `xs`, in order, or the first exception raised. */
  function Collect<A, T>(xs: seq<A>, f: A -> Outcome<T>): Result<seq<T>> {
    if |xs| == 0 then Ok([])
    else match Collect(xs[..|xs| - 1], f)
      case Err(m) => Err(m)
      case Ok(events) =>
        match f(xs[|xs| - 1])
        case Skip => Ok(events)
        case Emit(e) => Ok(events + [e])
        case Crash(m) => Err(m)
  }

  /** Every collected event comes from an input of its own: no more results than inputs. */
  lemma {:induction false} CollectEvents<A, T>(xs: seq<A>, f: A -> Outcome<T>)
    requires Collect(xs, f).Ok?
    ensures var events := Collect(xs, f).value;
      && |events| <= |xs|
      && (forall e <- events :: exists i :: 0 <= i < |xs| && f(xs[i]) == Emit(e))
  {
    if |xs| > 0 {
      var init := xs[..|xs| - 1];
      CollectEvents(init, f);
      forall e <- Collect(init, f).value
        ensures exists i :: 0 <= i < |xs| && f(xs[i]) == Emit(e)
      {
        var i :| 0 <= i < |init| && f(init[i]) == Emit(e);
        assert xs[i] == init[i];
      }
    }
  }

  /** Inputs are read independently: a run over `a + b` is the run over `a` followed by the run over `b`. */
  lemma {:induction false} CollectAppend<A, T>(a: seq<A>, b: seq<A>, f: A -> Outcome<T>)
    ensures Collect(a, f).Ok? && Collect(b, f).Ok?
      ==> Collect(a + b, f) == Ok(Collect(a, f).value + Collect(b, f).value)
    ensures Collect(a, f).Err? ==> Collect(a + b, f) == Collect(a, f)
    decreases |b|
  {
    if |b| == 0 {
      assert a + b == a;
      if Collect(a, f).Ok? {
        assert Collect(a, f).value + [] == Collect(a, f).value;
      }
    } else {
      var init, x := b[..|b| - 1], b[|b| - 1];
      assert (a + b)[..|a + b| - 1] == a + init;
      assert (a + b)[|a + b| - 1] == x;
      CollectAppend(a, init, f);
      var whole := Collect(a + init, f);
      assert Collect(a + b, f) == match whole
        case Err(m) => Err(m)
        case Ok(events) =>
          (match f(x)
           case Skip => Ok(events)
           case Emit(e) => Ok(events + [e])
           case Crash(m) => Err(m));
      if Collect(a, f).Ok? && Collect(b, f).Ok? {
        var ea, ei := Collect(a, f).value, Collect(init, f).value;
        if f(x).Emit? {
          assert ea + ei + [f(x).event] == ea + (ei + [f(x).event]);
        }
      }
    }
  }

  /** One turn of a row loop: the run so far grows by what input `i` yields, or ends with its exception. */
  lemma CollectStep<A, T>(xs: seq<A>, i: nat, f: A -> Outcome<T>, acc: seq<T>)
    requires i < |xs| && Collect(xs[..i], f) == Ok(acc)
    ensures f(xs[i]).Skip? ==> Collect(xs[..i + 1], f) == Ok(acc)
    ensures f(xs[i]).Emit? ==> Collect(xs[..i + 1], f) == Ok(acc + [f(xs[i]).event])
    ensures f(xs[i]).Crash? ==> Collect(xs, f) == Err(f(xs[i]).reason)
  {
    assert xs[..i + 1][..i] == xs[..i];
    if f(xs[i]).Crash? {
      assert Collect(xs[..i + 1], f) == Err(f(xs[i]).reason);
      CollectStopped(xs, i + 1, f);
    }
  }

  /** Once a prefix has raised, the whole run raises the same exception. */
  lemma CollectStopped<A, T>(xs: seq<A>, n: nat, f: A -> Outcome<T>)
    requires n <= |xs| && Collect(xs[..n], f).Err?
    ensures Collect(xs, f) == Collect(xs[..n], f)
  {
    CollectAppend(xs[..n], xs[n..], f);
    assert xs[..n] + xs[n..] == xs;
  }
}
