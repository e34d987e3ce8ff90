/** First-appearance order over sequences: the order a Python dict keeps its
    keys in, and the order of a list built by "append unless already present". */
module Sequences {

  /** The index of the first occurrence of `x` in `xs`. */
  function IndexOf<T(==)>(xs: seq<T>, x: T): (i: nat)
    requires x in xs
    ensures i < |xs| && xs[i] == x
    ensures forall j :: 0 <= j < i ==> xs[j] != x
  {
    if xs[0] == x then 0 else 1 + IndexOf(xs[1..], x)
  }

  /** Appending keeps the first occurrence of anything already present. */
  lemma IndexOfAppend<T>(xs: seq<T>, x: T, y: T)
    requires y in xs
    ensures y in xs + [x] && IndexOf(xs + [x], y) == IndexOf(xs, y)
  {
    var i := IndexOf(xs, y);
    var k := IndexOf(xs + [x], y);
    assert (xs + [x])[i] == y;
    assert xs[k] == y;
  }

  predicate NoDuplicates<T(==)>(xs: seq<T>) {
    forall i, j :: 0 <= i < j < |xs| ==> xs[i] != xs[j]
  }

  /** `r` holds the distinct elements of `xs`, each once, ordered by where they
      first appear in `xs`. */
  predicate FirstAppearanceOrder<T(==)>(r: seq<T>, xs: seq<T>) {
    && NoDuplicates(r)
    && (forall i :: 0 <= i < |r| ==> r[i] in xs)
    && (forall i :: 0 <= i < |xs| ==> xs[i] in r)
    && (forall i, j :: 0 <= i < j < |r| ==> r[i] in xs && r[j] in xs && IndexOf(xs, r[i]) < IndexOf(xs, r[j]))
  }

  /** The list built by `for x in xs: if x not in acc: acc.append(x)`. */
  function Dedup<T(==)>(xs: seq<T>): seq<T> {
    if xs == [] then []
    else
      var d := Dedup(xs[..|xs| - 1]);
      if xs[|xs| - 1] in d then d else d + [xs[|xs| - 1]]
  }

  /** Appending unless present keeps each element once, in first-appearance order. */
  lemma {:induction false} DedupFirstAppearance<T>(xs: seq<T>)
    ensures FirstAppearanceOrder(Dedup(xs), xs)
  {
    if xs != [] {
      var init := xs[..|xs| - 1];
      var x := xs[|xs| - 1];
      assert xs == init + [x];
      DedupFirstAppearance(init);
      var d := Dedup(init);
      forall y | y in init
        ensures y in xs && IndexOf(xs, y) == IndexOf(init, y)
      {
        IndexOfAppend(init, x, y);
      }
      if x !in d {
        var r := d + [x];
        assert IndexOf(xs, x) == |init| by {
          assert x !in init;
          assert xs[|init|] == x;
        }
        forall i, j | 0 <= i < j < |r|
          ensures r[i] in xs && r[j] in xs && IndexOf(xs, r[i]) < IndexOf(xs, r[j])
        {
          if j < |d| {
            assert r[i] == d[i] && r[j] == d[j];
          } else {
            assert r[i] == d[i] && d[i] in init;
          }
        }
      }
    }
  }

  /** Without its first element a duplicate-free sequence stays duplicate-free
      and no longer holds that element. */
  lemma NoDuplicatesTail<T>(xs: seq<T>)
    requires xs != [] && NoDuplicates(xs)
    ensures NoDuplicates(xs[1..]) && xs[0] !in xs[1..]
  {
    forall i, j | 0 <= i < j < |xs| - 1
      ensures xs[1..][i] != xs[1..][j]
    {
      assert xs[1..][i] == xs[i + 1] && xs[1..][j] == xs[j + 1];
    }
    forall i | 0 <= i < |xs| - 1
      ensures xs[1..][i] != xs[0]
    {
      assert xs[1..][i] == xs[i + 1];
    }
  }

  /** The lists one after another: what `acc += xs` over a list of lists builds. */
  function Concat<T>(xss: seq<seq<T>>): seq<T> {
    if xss == [] then [] else xss[0] + Concat(xss[1..])
  }

  /** Concatenating two runs of lists concatenates their concatenations. */
  lemma {:induction false} ConcatAppend<T>(a: seq<seq<T>>, b: seq<seq<T>>)
    ensures Concat(a + b) == Concat(a) + Concat(b)
  {
    if a == [] {
      assert a + b == b;
    } else {
      assert (a + b)[1..] == a[1..] + b;
      ConcatAppend(a[1..], b);
    }
  }
}
