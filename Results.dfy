/** Failure-compatible wrappers. The Kotlin source signals every failure with an
    exception; here an exception becomes an `Err` that travels up to the caller. */
module Results {

  datatype Option<+T> = None | Some(value: T)

  datatype Result<+T, +E> = Ok(value: T) | Err(error: E) {
    predicate IsFailure() { Err? }

    function PropagateFailure<U>(): Result<U, E>
      requires Err?
    {
      Err(error)
    }

    function Extract(): T
      requires Ok?
    {
      value
    }
  }

  /** Kotlin's `map` over a list with a function that may throw: `f` is applied
      to the elements in order and the first failure aborts the whole map. */
  function MapAll<A, B, E>(xs: seq<A>, f: A -> Result<B, E>): (r: Result<seq<B>, E>)
    ensures r.Ok? <==> forall k :: 0 <= k < |xs| ==> f(xs[k]).Ok?
    ensures r.Ok? ==> |r.value| == |xs| && forall k :: 0 <= k < |xs| ==> r.value[k] == f(xs[k]).value
    ensures r.Err? ==>
      exists k :: 0 <= k < |xs| && f(xs[k]).Err? && r.error == f(xs[k]).error
                  && forall j :: 0 <= j < k ==> f(xs[j]).Ok?
  {
    if xs == [] then Ok([])
    else
      match f(xs[0])
      case Err(e) => Err(e)
      case Ok(y) =>
        var rest := MapAll(xs[1..], f);
        if rest.Err? then
          assert exists k :: 0 <= k < |xs| && f(xs[k]).Err? && rest.error == f(xs[k]).error
                             && forall j :: 0 <= j < k ==> f(xs[j]).Ok? by {
            var k :| 0 <= k < |xs| - 1 && f(xs[1..][k]).Err? && rest.error == f(xs[1..][k]).error
                     && forall j :: 0 <= j < k ==> f(xs[1..][j]).Ok?;
            forall j | 0 <= j < k + 1 ensures f(xs[j]).Ok? {
              if j > 0 { assert xs[j] == xs[1..][j - 1]; }
            }
            assert xs[k + 1] == xs[1..][k];
          }
          Err(rest.error)
        else
          Ok([y] + rest.value)
  }

  /** Extending an all-`Ok` prefix by one element: `MapAll` of the longer prefix
      appends the new value, and a failing element is the error of the whole map. */
  lemma MapAllPrefix<A, B, E>(xs: seq<A>, i: nat, f: A -> Result<B, E>)
    requires i < |xs| && MapAll(xs[..i], f).Ok?
    ensures f(xs[i]).Ok? ==> MapAll(xs[..i + 1], f) == Ok(MapAll(xs[..i], f).value + [f(xs[i]).value])
    ensures f(xs[i]).Err? ==> MapAll(xs, f) == Err(f(xs[i]).error)
  {
    if f(xs[i]).Ok? {
      MapAllExtend(xs, i, f);
    } else {
      MapAllStops(xs, i, f);
    }
  }

  /** An all-`Ok` prefix followed by a success. */
  lemma MapAllExtend<A, B, E>(xs: seq<A>, i: nat, f: A -> Result<B, E>)
    requires i < |xs| && MapAll(xs[..i], f).Ok? && f(xs[i]).Ok?
    ensures MapAll(xs[..i + 1], f) == Ok(MapAll(xs[..i], f).value + [f(xs[i]).value])
  {
    var ys := xs[..i + 1];
    var prefix := MapAll(xs[..i], f);
    var longer := MapAll(ys, f);
    forall j | 0 <= j < i + 1 ensures f(ys[j]).Ok? {
      assert ys[j] == xs[j];
      if j < i {
        assert xs[..i][j] == xs[j];
      }
    }
    assert longer.value == prefix.value + [f(xs[i]).value] by {
      forall j | 0 <= j < i + 1 ensures longer.value[j] == (prefix.value + [f(xs[i]).value])[j] {
        assert ys[j] == xs[j];
        if j < i {
          assert xs[..i][j] == xs[j];
        }
      }
    }
  }

  /** An all-`Ok` prefix followed by a failure: that failure is the result. */
  lemma MapAllStops<A, B, E>(xs: seq<A>, i: nat, f: A -> Result<B, E>)
    requires i < |xs| && MapAll(xs[..i], f).Ok? && f(xs[i]).Err?
    ensures MapAll(xs, f) == Err(f(xs[i]).error)
  {
    forall j | 0 <= j < i ensures f(xs[j]).Ok? {
      assert xs[..i][j] == xs[j];
    }
    var whole := MapAll(xs, f);
    var k :| 0 <= k < |xs| && f(xs[k]).Err? && whole.error == f(xs[k]).error
             && forall j :: 0 <= j < k ==> f(xs[j]).Ok?;
    assert k == i;
  }

  /** `MapAll` over two elements that both succeed. */
  lemma MapAllPair<A, B, E>(x: A, y: A, f: A -> Result<B, E>)
    requires f(x).Ok? && f(y).Ok?
    ensures MapAll([x, y], f) == Ok([f(x).value, f(y).value])
  {
    var xs := [x, y];
    assert xs[0] == x && xs[1] == y;
    var r := MapAll(xs, f);
    assert r.Ok?;
    assert r.value == [f(x).value, f(y).value];
  }

  /** Maps that agree element by element give the same result. */
  lemma {:induction false} MapAllPointwise<A, A', B, E>(xs: seq<A>, ys: seq<A'>, f: A -> Result<B, E>, g: A' -> Result<B, E>)
    requires |xs| == |ys| && forall k :: 0 <= k < |xs| ==> f(xs[k]) == g(ys[k])
    ensures MapAll(xs, f) == MapAll(ys, g)
  {
    if xs != [] {
      assert f(xs[0]) == g(ys[0]);
      assert forall k :: 0 <= k < |xs| - 1 ==> xs[1..][k] == xs[k + 1] && ys[1..][k] == ys[k + 1];
      MapAllPointwise(xs[1..], ys[1..], f, g);
    }
  }
}
