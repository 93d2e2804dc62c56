/** Loop shapes shared by several stages: "for i, x in enumerate(xs): out.extend(f(x, i))",
    and the same loop where a step may raise. */
module Lists {
  import opened Wrappers

  /** `out.extend(f(xs[k], base + k))` for every `k`, in order, where a step may raise: the
      loop succeeds exactly when every step does, and otherwise fails with its first failure. */
  function TryFlatMapFrom<T, U>(f: (T, nat) -> Result<seq<U>>, xs: seq<T>, base: nat): (r: Result<seq<U>>)
    ensures r.Ok? <==> forall k :: 0 <= k < |xs| ==> f(xs[k], base + k).Ok?
    ensures r.Err? ==> exists k :: FirstFailure(f, xs, base, k) && r.error == f(xs[k], base + k).error
  {
    if xs == [] then Ok([])
    else
      match f(xs[0], base)
      case Err(e) =>
        assert FirstFailure(f, xs, base, 0);
        Err(e)
      case Ok(head) =>
        var rest := TryFlatMapFrom(f, xs[1..], base + 1);
        assert forall k :: 1 <= k < |xs| ==> xs[k] == xs[1..][k - 1];
        match rest
        case Err(e) =>
          FirstFailureShift(f, xs, base, e);
          Err(e)
        case Ok(tail) => Ok(head + tail)
  }

  /** The loop over `a + b` is the loop over `a`, then the loop over `b` numbered on; the first
      failure of either ends it. */
  lemma {:induction false} TryFlatMapFromAppend<T, U>(f: (T, nat) -> Result<seq<U>>, a: seq<T>, b: seq<T>, base: nat)
    ensures var ra := TryFlatMapFrom(f, a, base);
            var rb := TryFlatMapFrom(f, b, base + |a|);
            TryFlatMapFrom(f, a + b, base) == if ra.Err? then ra else if rb.Err? then rb else Ok(ra.value + rb.value)
  {
    if a == [] {
      assert a + b == b;
      if TryFlatMapFrom(f, b, base).Ok? {
        assert [] + TryFlatMapFrom(f, b, base).value == TryFlatMapFrom(f, b, base).value;
      }
    } else {
      assert (a + b)[0] == a[0];
      assert (a + b)[1..] == a[1..] + b;
      TryFlatMapFromAppend(f, a[1..], b, base + 1);
      if f(a[0], base).Ok? && TryFlatMapFrom(f, a[1..], base + 1).Ok? && TryFlatMapFrom(f, b, base + |a|).Ok? {
        var h := f(a[0], base).value;
        var x := TryFlatMapFrom(f, a[1..], base + 1).value;
        var y := TryFlatMapFrom(f, b, base + |a|).value;
        assert h + (x + y) == (h + x) + y;
      }
    }
  }


  /** The same loop where each step may fail: the first failure ends it. */
  function TryFlatMap<T, U>(f: T -> Result<seq<U>>, xs: seq<T>): (r: Result<seq<U>>)
    ensures xs == [] ==> r == Ok([])
  {
    if xs == [] then Ok([])
    else
      match f(xs[0])
      case Err(e) => Err(e)
      case Ok(head) =>
        match TryFlatMap(f, xs[1..])
        case Err(e) => Err(e)
        case Ok(tail) => Ok(head + tail)
  }

  /** Over `a + b` the loop fails with the first failure of `a`, else the first of `b`, and
      otherwise yields the output of `a` followed by that of `b`. */
  lemma {:induction false} TryFlatMapAppend<T, U>(f: T -> Result<seq<U>>, a: seq<T>, b: seq<T>)
    ensures var ra := TryFlatMap(f, a);
            var rb := TryFlatMap(f, b);
            TryFlatMap(f, a + b) == if ra.Err? then ra else if rb.Err? then rb else Ok(ra.value + rb.value)
  {
    if a == [] {
      assert a + b == b;
      if TryFlatMap(f, b).Ok? {
        assert [] + TryFlatMap(f, b).value == TryFlatMap(f, b).value;
      }
    } else {
      assert (a + b)[0] == a[0];
      assert (a + b)[1..] == a[1..] + b;
      TryFlatMapAppend(f, a[1..], b);
      if f(a[0]).Ok? && TryFlatMap(f, a[1..]).Ok? && TryFlatMap(f, b).Ok? {
        var h := f(a[0]).value;
        var x := TryFlatMap(f, a[1..]).value;
        var y := TryFlatMap(f, b).value;
        assert h + (x + y) == (h + x) + y;
      }
    }
  }

  /** The loop succeeds exactly when every step does. */
  lemma {:induction false} TryFlatMapOk<T, U>(f: T -> Result<seq<U>>, xs: seq<T>)
    ensures TryFlatMap(f, xs).Ok? <==> forall k :: 0 <= k < |xs| ==> f(xs[k]).Ok?
  {
    if xs != [] {
      TryFlatMapOk(f, xs[1..]);
      assert forall k :: 1 <= k < |xs| ==> xs[k] == xs[1..][k - 1];
    }
  }

  /** A failure at `k` after successes only is the failure of the whole loop. */
  lemma {:induction false} TryFlatMapFirstError<T, U>(f: T -> Result<seq<U>>, xs: seq<T>, k: nat)
    requires k < |xs| && f(xs[k]).Err?
    requires forall j :: 0 <= j < k ==> f(xs[j]).Ok?
    ensures TryFlatMap(f, xs) == Err(f(xs[k]).error)
  {
    if k > 0 {
      assert f(xs[0]).Ok?;
      forall j | 0 <= j < k - 1
        ensures f(xs[1..][j]).Ok?
      {
        assert xs[1..][j] == xs[j + 1];
      }
      assert xs[1..][k - 1] == xs[k];
      TryFlatMapFirstError(f, xs[1..], k - 1);
    }
  }

  /** What a successful loop yields: exactly the elements the steps yield. */
  lemma {:induction false} TryFlatMapMembers<T, U>(f: T -> Result<seq<U>>, xs: seq<T>, y: U)
    requires TryFlatMap(f, xs).Ok?
    ensures y in TryFlatMap(f, xs).value <==> exists k :: 0 <= k < |xs| && f(xs[k]).Ok? && y in f(xs[k]).value
  {
    if xs != [] {
      var head := f(xs[0]).value;
      var rest := TryFlatMap(f, xs[1..]);
      TryFlatMapMembers(f, xs[1..], y);
      assert TryFlatMap(f, xs).value == head + rest.value;
      if y in TryFlatMap(f, xs).value {
        if y in head {
          assert f(xs[0]).Ok? && y in f(xs[0]).value;
        } else {
          assert y in rest.value;
          var k :| 0 <= k < |xs[1..]| && f(xs[1..][k]).Ok? && y in f(xs[1..][k]).value;
          assert xs[1..][k] == xs[k + 1];
        }
      }
      if exists k :: 0 <= k < |xs| && f(xs[k]).Ok? && y in f(xs[k]).value {
        var k :| 0 <= k < |xs| && f(xs[k]).Ok? && y in f(xs[k]).value;
        if k > 0 {
          assert xs[1..][k - 1] == xs[k];
          assert y in rest.value;
        }
      }
    }
  }

  /** A successful loop yields something exactly when one of its steps does. */
  lemma TryFlatMapNonEmpty<T, U>(f: T -> Result<seq<U>>, xs: seq<T>)
    requires TryFlatMap(f, xs).Ok?
    ensures TryFlatMap(f, xs).value != [] <==> exists k :: 0 <= k < |xs| && f(xs[k]).Ok? && f(xs[k]).value != []
  {
    var all := TryFlatMap(f, xs).value;
    if all != [] {
      TryFlatMapMembers(f, xs, all[0]);
    }
    if exists k :: 0 <= k < |xs| && f(xs[k]).Ok? && f(xs[k]).value != [] {
      var k :| 0 <= k < |xs| && f(xs[k]).Ok? && f(xs[k]).value != [];
      TryFlatMapMembers(f, xs, f(xs[k]).value[0]);
    }
  }

  /** Step `k` of the numbered loop succeeds and yields `y`. */
  ghost predicate YieldedAt<T, U>(f: (T, nat) -> Result<seq<U>>, xs: seq<T>, base: nat, y: U, k: int) {
    0 <= k < |xs| && f(xs[k], base + k).Ok? && y in f(xs[k], base + k).value
  }

  /** What a successful numbered loop yields: exactly the elements the steps yield. */
  lemma {:induction false} TryFlatMapFromMembers<T, U>(f: (T, nat) -> Result<seq<U>>, xs: seq<T>, base: nat, y: U)
    requires TryFlatMapFrom(f, xs, base).Ok?
    ensures y in TryFlatMapFrom(f, xs, base).value <==> exists k :: YieldedAt(f, xs, base, y, k)
  {
    if xs != [] {
      var head := f(xs[0], base).value;
      var rest := TryFlatMapFrom(f, xs[1..], base + 1).value;
      TryFlatMapFromMembers(f, xs[1..], base + 1, y);
      assert TryFlatMapFrom(f, xs, base).value == head + rest;
      if y in head + rest {
        if y in head {
          assert YieldedAt(f, xs, base, y, 0);
        } else {
          var k :| YieldedAt(f, xs[1..], base + 1, y, k);
          assert xs[1..][k] == xs[k + 1] && base + 1 + k == base + (k + 1);
          assert YieldedAt(f, xs, base, y, k + 1);
        }
      }
      if exists k :: YieldedAt(f, xs, base, y, k) {
        var k :| YieldedAt(f, xs, base, y, k);
        if k > 0 {
          assert xs[1..][k - 1] == xs[k] && base + 1 + (k - 1) == base + k;
          assert YieldedAt(f, xs[1..], base + 1, y, k - 1);
        }
      }
    }
  }

  /** A failed loop fails with the error of one of its steps. */
  lemma {:induction false} TryFlatMapError<T, U>(f: T -> Result<seq<U>>, xs: seq<T>)
    requires TryFlatMap(f, xs).Err?
    ensures exists k :: 0 <= k < |xs| && f(xs[k]).Err? && TryFlatMap(f, xs).error == f(xs[k]).error
  {
    if f(xs[0]).Err? {
      assert f(xs[0]).Err? && TryFlatMap(f, xs).error == f(xs[0]).error;
    } else {
      TryFlatMapError(f, xs[1..]);
      var k :| 0 <= k < |xs[1..]| && f(xs[1..][k]).Err? && TryFlatMap(f, xs[1..]).error == f(xs[1..][k]).error;
      assert xs[1..][k] == xs[k + 1];
    }
  }


  /** `f(xs[k], base + k)` fails at `k` and at no earlier position. */
  ghost predicate FirstFailure<T, U>(f: (T, nat) -> Result<U>, xs: seq<T>, base: nat, k: int) {
    && 0 <= k < |xs|
    && f(xs[k], base + k).Err?
    && forall j :: 0 <= j < k ==> f(xs[j], base + j).Ok?
  }

  lemma FirstFailureShift<T, U>(f: (T, nat) -> Result<U>, xs: seq<T>, base: nat, e: string)
    requires xs != [] && f(xs[0], base).Ok?
    requires exists k :: FirstFailure(f, xs[1..], base + 1, k) && e == f(xs[1..][k], base + 1 + k).error
    ensures exists k :: FirstFailure(f, xs, base, k) && e == f(xs[k], base + k).error
  {
    var k :| FirstFailure(f, xs[1..], base + 1, k) && e == f(xs[1..][k], base + 1 + k).error;
    assert xs[k + 1] == xs[1..][k];
    forall j | 0 <= j < k + 1
      ensures f(xs[j], base + j).Ok?
    {
      if j > 0 {
        assert xs[j] == xs[1..][j - 1];
      }
    }
  }

  /** `[f(x, base + k) for k, x in enumerate(xs)]` where a call may fail: the first failure
      ends the loop and is the result. */
  function TryMapFrom<T, U>(f: (T, nat) -> Result<U>, xs: seq<T>, base: nat): (r: Result<seq<U>>)
    ensures r.Ok? <==> forall k :: 0 <= k < |xs| ==> f(xs[k], base + k).Ok?
    ensures r.Ok? ==> |r.value| == |xs| && forall k :: 0 <= k < |xs| ==> r.value[k] == f(xs[k], base + k).value
    ensures r.Err? ==> exists k :: FirstFailure(f, xs, base, k) && r.error == f(xs[k], base + k).error
  {
    if xs == [] then Ok([])
    else
      match f(xs[0], base)
      case Err(e) =>
        assert FirstFailure(f, xs, base, 0);
        Err(e)
      case Ok(y) =>
        var rest := TryMapFrom(f, xs[1..], base + 1);
        assert forall k :: 1 <= k < |xs| ==> xs[k] == xs[1..][k - 1];
        match rest
        case Err(e) =>
          FirstFailureShift(f, xs, base, e);
          Err(e)
        case Ok(ys) => Ok([y] + ys)
  }
}
