/** Failure-carrying values shared by the model: `Option` for Python's `None`-or-value
    returns and `Result` for a computation that may raise a Python exception. */
module Wrappers {

  datatype Option<+T> = None | Some(value: T)

  datatype Result<+R, +E> = Success(value: R) | Failure(error: E) {

    predicate IsFailure() {
      Failure?
    }

    function PropagateFailure<U>(): Result<U, E>
      requires Failure?
    {
      Failure(error)
    }

    function Extract(): R
      requires Success?
    {
      value
    }
  }

  /** `[f(x) for x in xs]` where `f` may raise: the results in order, or the
      error of the first element that fails. */
  function MapAll<A, B, E>(xs: seq<A>, f: A -> Result<B, E>): (r: Result<seq<B>, E>)
    ensures r.Success? <==> forall k :: 0 <= k < |xs| ==> f(xs[k]).Success?
    ensures r.Success? ==> |r.value| == |xs| && forall k :: 0 <= k < |xs| ==> f(xs[k]) == Success(r.value[k])
    ensures r.Failure? ==>
              exists k :: 0 <= k < |xs| && f(xs[k]) == Failure(r.error) && forall j :: 0 <= j < k ==> f(xs[j]).Success?
  {
    if xs == [] then Success([])
    else
      match f(xs[0])
      case Failure(e) => Failure(e)
      case Success(y) =>
        match MapAll(xs[1..], f)
        case Failure(e) =>
          assert exists k :: 0 <= k < |xs| && f(xs[k]) == Failure(e) && forall j :: 0 <= j < k ==> f(xs[j]).Success? by {
            var k :| 0 <= k < |xs[1..]| && f(xs[1..][k]) == Failure(e) && forall j :: 0 <= j < k ==> f(xs[1..][j]).Success?;
            assert f(xs[k + 1]) == Failure(e);
            forall j | 0 < j < k + 1
              ensures f(xs[j]).Success?
            {
              assert xs[j] == xs[1..][j - 1];
            }
          }
          Failure(e)
        case Success(ys) =>
          assert forall k :: 0 < k < |xs| ==> xs[k] == xs[1..][k - 1];
          Success([y] + ys)
  }

  /** When every element maps to the matching element of `ys`, the list
      comprehension yields `ys`. */
  lemma MapAllSuccess<A, B, E>(xs: seq<A>, f: A -> Result<B, E>, ys: seq<B>)
    requires |ys| == |xs|
    requires forall k :: 0 <= k < |xs| ==> f(xs[k]) == Success(ys[k])
    ensures MapAll(xs, f) == Success(ys)
  {
    var r := MapAll(xs, f);
    assert r.Success?;
    forall k | 0 <= k < |xs|
      ensures r.value[k] == ys[k]
    {
      assert f(xs[k]) == Success(r.value[k]);
    }
    assert r.value == ys;
  }

  /** Two results of `MapAll` one after the other: the first error, or both lists. */
  function Then<B, E>(a: Result<seq<B>, E>, b: Result<seq<B>, E>): Result<seq<B>, E> {
    match a
    case Failure(e) => Failure(e)
    case Success(xs) =>
      match b
      case Failure(e) => Failure(e)
      case Success(ys) => Success(xs + ys)
  }

  /** Nothing in between two results leaves their combination unchanged. */
  lemma ThenNothing<B, E>(a: Result<seq<B>, E>, b: Result<seq<B>, E>)
    ensures Then(Then(a, Success([])), b) == Then(a, b)
  {
    if a.Success? {
      assert a.value + [] == a.value;
    }
  }

  /** Mapping a concatenation maps the parts in order. */
  lemma {:induction false} MapAllAppend<A, B, E>(xs: seq<A>, ys: seq<A>, f: A -> Result<B, E>)
    ensures MapAll(xs + ys, f) == Then(MapAll(xs, f), MapAll(ys, f))
  {
    if xs == [] {
      assert xs + ys == ys;
      match MapAll(ys, f)
      case Failure(e) =>
      case Success(ws) =>
        assert [] + ws == ws;
    } else {
      assert (xs + ys)[0] == xs[0];
      assert (xs + ys)[1..] == xs[1..] + ys;
      MapAllAppend(xs[1..], ys, f);
      match f(xs[0])
      case Failure(e) =>
      case Success(y) =>
        match MapAll(xs[1..], f)
        case Failure(e) =>
        case Success(zs) =>
          match MapAll(ys, f)
          case Failure(e) =>
          case Success(ws) =>
            assert [y] + (zs + ws) == [y] + zs + ws;
    }
  }

  /** Two list comprehensions whose elements map to the same results agree. */
  lemma {:induction false} MapAllPointwise<A, C, B, E>(xs: seq<A>, f: A -> Result<B, E>, ys: seq<C>, g: C -> Result<B, E>)
    requires |xs| == |ys|
    requires forall k :: 0 <= k < |xs| ==> f(xs[k]) == g(ys[k])
    ensures MapAll(xs, f) == MapAll(ys, g)
  {
    if xs != [] {
      assert forall k :: 0 <= k < |xs| - 1 ==> xs[1..][k] == xs[k + 1] && ys[1..][k] == ys[k + 1];
      MapAllPointwise(xs[1..], f, ys[1..], g);
    }
  }
}
