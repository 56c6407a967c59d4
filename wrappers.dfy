/** Small failure-carrying datatypes shared by the models, and the one
    traversal they all need: apply a function that may fail to every element
    of a sequence, in order, stopping at the first failure (what a JavaScript
    `map` whose callback throws does). */
module Wrappers {

  datatype Option<+T> = None | Some(value: T)

  datatype Result<+T, +E> = Ok(value: T) | Err(error: E)

  /** Maps `f` over `xs` in order; the first element on which `f` fails
      decides the whole result, and no partial list is returned. */
  function MapAll<X, Y, E>(xs: seq<X>, f: X -> Result<Y, E>): (r: Result<seq<Y>, E>)
    ensures r.Ok? <==> forall i :: 0 <= i < |xs| ==> f(xs[i]).Ok?
    ensures r.Ok? ==> |r.value| == |xs| && forall i :: 0 <= i < |xs| ==> f(xs[i]) == Ok(r.value[i])
    ensures r.Err? ==> exists i :: 0 <= i < |xs| && f(xs[i]) == Err(r.error) && FirstFailure(xs, f, i)
    decreases |xs|
  {
    if xs == [] then Ok([])
    else
      match f(xs[0])
      case Err(e) => Err(e)
      case Ok(y) =>
        match MapAll(xs[1..], f)
        case Err(e) =>
          assert forall i :: 1 <= i < |xs| ==> xs[i] == xs[1..][i - 1];
          Err(e)
        case Ok(ys) =>
          assert forall i :: 1 <= i < |xs| ==> xs[i] == xs[1..][i - 1];
          Ok([y] + ys)
  }

  /** Every element before index `i` succeeds and the one at `i` fails. */
  predicate FirstFailure<X, Y, E>(xs: seq<X>, f: X -> Result<Y, E>, i: int)
  {
    0 <= i < |xs| && f(xs[i]).Err? && forall j :: 0 <= j < i ==> f(xs[j]).Ok?
  }

  /** Extending a successful prefix by a success extends the list. */
  lemma MapAllSnoc<X, Y, E>(xs: seq<X>, f: X -> Result<Y, E>, ys: seq<Y>, i: nat)
    requires i < |xs| && MapAll(xs[..i], f) == Ok(ys) && f(xs[i]).Ok?
    ensures MapAll(xs[..i + 1], f) == Ok(ys + [f(xs[i]).value])
  {
    var pre := xs[..i + 1];
    assert forall k :: 0 <= k < i ==> pre[k] == xs[..i][k];
    var r := MapAll(pre, f);
    assert r.Ok?;
    assert r.value == ys + [f(xs[i]).value];
  }

  /** A failure right after a successful prefix is the error of the whole
      map. */
  lemma MapAllFailsAt<X, Y, E>(xs: seq<X>, f: X -> Result<Y, E>, ys: seq<Y>, i: nat)
    requires i < |xs| && MapAll(xs[..i], f) == Ok(ys) && f(xs[i]).Err?
    ensures MapAll(xs, f) == Err(f(xs[i]).error)
  {
    assert forall k :: 0 <= k < i ==> xs[k] == xs[..i][k];
    assert FirstFailure(xs, f, i);
    var r := MapAll(xs, f);
    var j :| 0 <= j < |xs| && f(xs[j]) == Err(r.error) && FirstFailure(xs, f, j);
    FirstFailureUnique(xs, f, i, j);
  }

  /** When every element maps to the matching result, the map is that list. */
  lemma MapAllEvery<X, Y, E>(xs: seq<X>, f: X -> Result<Y, E>, ys: seq<Y>)
    requires |xs| == |ys| && forall i :: 0 <= i < |xs| ==> f(xs[i]) == Ok(ys[i])
    ensures MapAll(xs, f) == Ok(ys)
  {
    var r := MapAll(xs, f);
    assert r.Ok?;
    assert r.value == ys;
  }

  /** There is at most one first failure. */
  lemma FirstFailureUnique<X, Y, E>(xs: seq<X>, f: X -> Result<Y, E>, i: int, j: int)
    requires FirstFailure(xs, f, i) && FirstFailure(xs, f, j)
    ensures i == j
  {
  }
}
