/** The counting and ordering steps shared by `count_mons` and `count_moves`.
    A Python dict of counts is a sequence of (key, count) pairs in insertion
    order; `dict(sorted(d.items(), key=count))` is a stable sort by count. */
module Tally {
  import opened Sequences

  type Counts = seq<(string, nat)>

  function Keys(d: Counts): (ks: seq<string>)
    ensures |ks| == |d|
    ensures forall i :: 0 <= i < |d| ==> ks[i] == d[i].0
  {
    if d == [] then [] else [d[0].0] + Keys(d[1..])
  }

  /** `d[k] = d.get(k, 0) + 1`: an existing key is bumped in place, a new one is
      appended with count 1. */
  function Bump(d: Counts, k: string): Counts {
    if d == [] then [(k, 1)]
    else if d[0].0 == k then [(k, d[0].1 + 1)] + d[1..]
    else [d[0]] + Bump(d[1..], k)
  }

  /** The counting loop: every item, in order, bumps its key. */
  function Count(items: seq<string>): Counts {
    if items == [] then [] else Bump(Count(items[..|items| - 1]), items[|items| - 1])
  }

  /** Reference definition: the given keys, each paired with how often it occurs
      in `items`. */
  function Table(keys: seq<string>, items: seq<string>): (t: Counts)
    ensures Keys(t) == keys
  {
    if keys == [] then [] else [(keys[0], multiset(items)[keys[0]])] + Table(keys[1..], items)
  }

  /** One more item changes no other key's count. */
  lemma {:induction false} TableIgnoresOthers(keys: seq<string>, items: seq<string>, k: string)
    requires k !in keys
    ensures Table(keys, items + [k]) == Table(keys, items)
  {
    if keys != [] {
      TableIgnoresOthers(keys[1..], items, k);
    }
  }

  /** Bumping a key of the reference table gives the reference table of one more item. */
  lemma {:induction false} BumpTable(keys: seq<string>, items: seq<string>, k: string)
    requires NoDuplicates(keys)
    requires k !in keys ==> k !in items
    ensures Bump(Table(keys, items), k) == Table(if k in keys then keys else keys + [k], items + [k])
  {
    if keys == [] {
      BumpNewKey(items, k);
    } else if keys[0] == k {
      BumpFirstKey(keys, items);
    } else {
      NoDuplicatesTail(keys);
      BumpTable(keys[1..], items, k);
      BumpLaterKey(keys, items, k);
    }
  }

  /** A key not yet counted enters with count one. */
  lemma BumpNewKey(items: seq<string>, k: string)
    requires k !in items
    ensures Bump(Table([], items), k) == Table([k], items + [k])
  {
    assert multiset(items + [k])[k] == 1;
    assert Table([k], items + [k]) == [(k, 1)] + Table([], items + [k]);
  }

  /** Bumping the first key adds one to its count and leaves the rest alone. */
  lemma BumpFirstKey(keys: seq<string>, items: seq<string>)
    requires keys != [] && NoDuplicates(keys)
    ensures Bump(Table(keys, items), keys[0]) == Table(keys, items + [keys[0]])
  {
    var k := keys[0];
    var more := items + [k];
    NoDuplicatesTail(keys);
    TableIgnoresOthers(keys[1..], items, k);
    assert multiset(more)[k] == multiset(items)[k] + 1;
    assert Table(keys, items) == [(k, multiset(items)[k])] + Table(keys[1..], items);
    assert Table(keys, more) == [(k, multiset(more)[k])] + Table(keys[1..], more);
  }

  /** Bumping a later key keeps the first entry and bumps the rest. */
  lemma BumpLaterKey(keys: seq<string>, items: seq<string>, k: string)
    requires keys != [] && keys[0] != k
    requires Bump(Table(keys[1..], items), k) == Table(if k in keys[1..] then keys[1..] else keys[1..] + [k], items + [k])
    ensures Bump(Table(keys, items), k) == Table(if k in keys then keys else keys + [k], items + [k])
  {
    var more := items + [k];
    var first := (keys[0], multiset(items)[keys[0]]);
    var next := if k in keys then keys else keys + [k];
    var tail := if k in keys[1..] then keys[1..] else keys[1..] + [k];
    LaterKeyKeys(keys, k);
    assert Bump(Table(keys, items), k) == [first] + Bump(Table(keys[1..], items), k) by {
      var d := Table(keys, items);
      assert d == [first] + Table(keys[1..], items);
      assert d[1..] == Table(keys[1..], items);
    }
    assert Table(next, more) == [first] + Table(tail, more) by {
      assert multiset(more)[keys[0]] == multiset(items)[keys[0]];
    }
  }

  /** The key list after a later key is counted starts with the same key and
      continues with the tail's key list. */
  lemma LaterKeyKeys(keys: seq<string>, k: string)
    requires keys != [] && keys[0] != k
    ensures var next := if k in keys then keys else keys + [k];
            next != [] && next[0] == keys[0] && next[1..] == (if k in keys[1..] then keys[1..] else keys[1..] + [k])
  {
    assert keys == [keys[0]] + keys[1..];
    if k !in keys[1..] {
      assert (keys + [k])[1..] == keys[1..] + [k];
    }
  }

  /** The counting loop builds the reference table over the distinct items in
      first-appearance order: each key's count is its number of occurrences. */
  lemma {:induction false} CountIsTable(items: seq<string>)
    ensures Count(items) == Table(Dedup(items), items)
  {
    if items != [] {
      var init := items[..|items| - 1];
      var x := items[|items| - 1];
      assert items == init + [x];
      CountIsTable(init);
      DedupFirstAppearance(init);
      BumpTable(Dedup(init), init, x);
    }
  }

  /** The sum of the counts. */
  function Total(d: Counts): nat {
    if d == [] then 0 else d[0].1 + Total(d[1..])
  }

  lemma {:induction false} TotalBump(d: Counts, k: string)
    ensures Total(Bump(d, k)) == Total(d) + 1
  {
    if d != [] && d[0].0 != k {
      TotalBump(d[1..], k);
    }
  }

  /** The counts add up to the number of items counted. */
  lemma {:induction false} TotalCount(items: seq<string>)
    ensures Total(Count(items)) == |items|
  {
    if items != [] {
      TotalCount(items[..|items| - 1]);
      TotalBump(Count(items[..|items| - 1]), items[|items| - 1]);
    }
  }

  /** `sorted(..., key=count)` for `Ascending`, and with `reverse=True` for `Descending`. */
  datatype Order = Ascending | Descending

  /** A count `a` may stand before a count `b`. */
  predicate InOrder(order: Order, a: nat, b: nat) {
    match order
    case Ascending => a <= b
    case Descending => a >= b
  }

  predicate Sorted(order: Order, d: Counts) {
    forall i, j :: 0 <= i < j < |d| ==> InOrder(order, d[i].1, d[j].1)
  }

  /** Put `e` in front of the first entry it may precede, hence ahead of every
      entry with the same count. */
  function Insert(order: Order, e: (string, nat), d: Counts): Counts {
    if d == [] || InOrder(order, e.1, d[0].1) then [e] + d
    else [d[0]] + Insert(order, e, d[1..])
  }

  /** A stable sort by count, as Python's `sorted` is (also with `reverse=True`). */
  function Sort(order: Order, d: Counts): Counts {
    if d == [] then [] else Insert(order, d[0], Sort(order, d[1..]))
  }

  /** The entries with count `c`, in their order in `d`. */
  function WithCount(d: Counts, c: nat): Counts {
    if d == [] then [] else (if d[0].1 == c then [d[0]] else []) + WithCount(d[1..], c)
  }

  lemma {:induction false} InsertPermutes(order: Order, e: (string, nat), d: Counts)
    ensures multiset(Insert(order, e, d)) == multiset([e] + d)
    ensures Total(Insert(order, e, d)) == e.1 + Total(d)
  {
    if d != [] && !InOrder(order, e.1, d[0].1) {
      InsertPermutes(order, e, d[1..]);
      assert d == [d[0]] + d[1..];
    }
  }

  lemma {:induction false} InsertSorted(order: Order, e: (string, nat), d: Counts)
    requires Sorted(order, d)
    ensures Sorted(order, Insert(order, e, d))
  {
    if d != [] && !InOrder(order, e.1, d[0].1) {
      var rest := Insert(order, e, d[1..]);
      InsertSorted(order, e, d[1..]);
      InsertPermutes(order, e, d[1..]);
      var r := [d[0]] + rest;
      forall i, j | 0 <= i < j < |r|
        ensures InOrder(order, r[i].1, r[j].1)
      {
        if i == 0 {
          assert r[j] == rest[j - 1];
          assert r[j] in multiset(rest);
          assert r[j] == e || r[j] in d[1..];
        }
      }
    }
  }

  lemma {:induction false} InsertWithCount(order: Order, e: (string, nat), d: Counts, c: nat)
    ensures WithCount(Insert(order, e, d), c) == WithCount([e] + d, c)
  {
    if d != [] && !InOrder(order, e.1, d[0].1) {
      InsertWithCount(order, e, d[1..], c);
      assert ([e] + d[1..])[1..] == d[1..];
      assert ([e] + d)[1..] == d;
      assert ([d[0]] + Insert(order, e, d[1..]))[1..] == Insert(order, e, d[1..]);
    }
  }

  /** `Sort` orders by count, keeps the entries, and keeps the relative order of
      entries with equal counts. */
  lemma {:induction false} SortSpec(order: Order, d: Counts)
    ensures multiset(Sort(order, d)) == multiset(d)
    ensures Total(Sort(order, d)) == Total(d)
    ensures Sorted(order, Sort(order, d))
    ensures forall c :: WithCount(Sort(order, d), c) == WithCount(d, c)
  {
    if d != [] {
      var s := Sort(order, d[1..]);
      SortSpec(order, d[1..]);
      InsertPermutes(order, d[0], s);
      InsertSorted(order, d[0], s);
      assert d == [d[0]] + d[1..];
      forall c
        ensures WithCount(Sort(order, d), c) == WithCount(d, c)
      {
        InsertWithCount(order, d[0], s, c);
        assert ([d[0]] + s)[1..] == s;
      }
    }
  }

  /** Both keys occur in `items`, and `a` occurs first. */
  predicate SeenBefore(items: seq<string>, a: string, b: string) {
    a in items && b in items && IndexOf(items, a) < IndexOf(items, b)
  }

  /** The keys of `d` stand in the order they first appear in `items`. */
  predicate KeysInFirstAppearance(d: Counts, items: seq<string>) {
    forall i, j :: 0 <= i < j < |d| ==> SeenBefore(items, d[i].0, d[j].0)
  }

  lemma SuffixKeysInFirstAppearance(d: Counts, items: seq<string>)
    requires d != [] && KeysInFirstAppearance(d, items)
    ensures KeysInFirstAppearance(d[1..], items)
  {
    forall i, j | 0 <= i < j < |d[1..]|
      ensures SeenBefore(items, d[1..][i].0, d[1..][j].0)
    {
      assert d[1..][i] == d[i + 1] && d[1..][j] == d[j + 1];
    }
  }

  lemma {:induction false} WithCountMembers(d: Counts, c: nat)
    ensures forall i :: 0 <= i < |WithCount(d, c)| ==> WithCount(d, c)[i] in d && WithCount(d, c)[i].1 == c
    ensures forall i :: 0 <= i < |d| && d[i].1 == c ==> d[i] in WithCount(d, c)
  {
    if d != [] {
      WithCountMembers(d[1..], c);
      assert forall i :: 0 < i < |d| ==> d[i] == d[1..][i - 1];
    }
  }

  /** An entry whose key comes first, placed ahead of entries in key order drawn
      from `d`, keeps the key order. */
  lemma PrependKeepsOrder(d: Counts, tail: Counts, items: seq<string>)
    requires d != [] && KeysInFirstAppearance(d, items)
    requires KeysInFirstAppearance(tail, items)
    requires forall i :: 0 <= i < |tail| ==> tail[i] in d[1..]
    ensures KeysInFirstAppearance([d[0]] + tail, items)
  {
    var w := [d[0]] + tail;
    forall i, j | 0 <= i < j < |w|
      ensures SeenBefore(items, w[i].0, w[j].0)
    {
      if i == 0 {
        assert w[j] == tail[j - 1];
        var m :| 0 <= m < |d[1..]| && d[1..][m] == w[j];
        assert d[m + 1] == w[j];
      } else {
        assert w[i] == tail[i - 1] && w[j] == tail[j - 1];
      }
    }
    assert KeysInFirstAppearance(w, items);
  }

  /** Picking out the entries of one count keeps the key order. */
  lemma {:induction false} WithCountKeepsOrder(d: Counts, items: seq<string>, c: nat)
    requires KeysInFirstAppearance(d, items)
    ensures KeysInFirstAppearance(WithCount(d, c), items)
  {
    if d != [] {
      SuffixKeysInFirstAppearance(d, items);
      WithCountKeepsOrder(d[1..], items, c);
      var tail := WithCount(d[1..], c);
      if d[0].1 == c {
        WithCountMembers(d[1..], c);
        PrependKeepsOrder(d, tail, items);
        assert WithCount(d, c) == [d[0]] + tail;
      } else {
        assert WithCount(d, c) == tail;
      }
    }
  }

  /** If each count's entries keep first-appearance order, then any two entries
      with equal counts do. */
  lemma {:induction false} TiesInFirstAppearance(r: Counts, items: seq<string>)
    requires forall c :: KeysInFirstAppearance(WithCount(r, c), items)
    ensures forall i, j :: 0 <= i < j < |r| && r[i].1 == r[j].1 ==>
              SeenBefore(items, r[i].0, r[j].0)
  {
    if r != [] {
      forall c
        ensures KeysInFirstAppearance(WithCount(r[1..], c), items)
      {
        var w := WithCount(r, c);
        if r[0].1 == c {
          SuffixKeysInFirstAppearance(w, items);
          assert WithCount(r[1..], c) == w[1..];
        } else {
          assert WithCount(r[1..], c) == w;
        }
      }
      TiesInFirstAppearance(r[1..], items);
      forall i, j | 0 <= i < j < |r| && r[i].1 == r[j].1
        ensures SeenBefore(items, r[i].0, r[j].0)
      {
        assert r[j] == r[1..][j - 1];
        if i == 0 {
          var c := r[0].1;
          var w := WithCount(r, c);
          var tail := WithCount(r[1..], c);
          WithCountMembers(r[1..], c);
          var m :| 0 <= m < |tail| && tail[m] == r[j];
          assert w == [r[0]] + tail;
          assert w[0] == r[0] && w[m + 1] == r[j];
        } else {
          assert r[i] == r[1..][i - 1];
        }
      }
    }
  }

  /** What the counting-and-sorting step returns for `items`: every distinct item
      exactly once, with its number of occurrences, the counts summing to the
      number of items, ordered by count, and entries with equal counts in the
      order their keys first appear. */
  predicate RankedCount(r: Counts, items: seq<string>, order: Order) {
    && NoDuplicates(Keys(r))
    && (forall i :: 0 <= i < |r| ==> r[i].0 in items && r[i].1 == multiset(items)[r[i].0])
    && (forall i :: 0 <= i < |items| ==> items[i] in Keys(r))
    && Total(r) == |items|
    && Sorted(order, r)
    && (forall i, j :: 0 <= i < j < |r| && r[i].1 == r[j].1 ==> SeenBefore(items, r[i].0, r[j].0))
  }

  /** The `m`-th entry of the reference table. */
  lemma {:induction false} TableEntry(keys: seq<string>, items: seq<string>, m: nat)
    requires m < |keys|
    ensures m < |Table(keys, items)|
    ensures Table(keys, items)[m] == (keys[m], multiset(items)[keys[m]])
  {
    if m > 0 {
      TableEntry(keys[1..], items, m - 1);
    }
  }

  /** Every entry of a rearrangement of the counts table is a table entry: a
      counted item with its number of occurrences. */
  lemma PermutedTableEntries(r: Counts, keys: seq<string>, items: seq<string>)
    requires multiset(r) == multiset(Table(keys, items))
    requires forall i :: 0 <= i < |keys| ==> keys[i] in items
    ensures forall i :: 0 <= i < |r| ==> r[i].0 in items && r[i].1 == multiset(items)[r[i].0]
  {
    var counts := Table(keys, items);
    forall i | 0 <= i < |r|
      ensures r[i].0 in items && r[i].1 == multiset(items)[r[i].0]
    {
      assert r[i] in multiset(counts);
      var m :| 0 <= m < |counts| && counts[m] == r[i];
      TableEntry(keys, items, m);
    }
  }

  /** A rearrangement of the counts table has a key for every item. */
  lemma PermutedTableKeys(r: Counts, keys: seq<string>, items: seq<string>)
    requires multiset(r) == multiset(Table(keys, items))
    requires forall i :: 0 <= i < |items| ==> items[i] in keys
    ensures forall i :: 0 <= i < |items| ==> items[i] in Keys(r)
  {
    var counts := Table(keys, items);
    forall i | 0 <= i < |items|
      ensures items[i] in Keys(r)
    {
      var m :| 0 <= m < |keys| && keys[m] == items[i];
      TableEntry(keys, items, m);
      assert counts[m] in multiset(r);
      var n :| 0 <= n < |r| && r[n] == counts[m];
      assert Keys(r)[n] == items[i];
    }
  }

  /** With ties in first-appearance order, no key can appear twice. */
  lemma DistinctKeys(r: Counts, items: seq<string>)
    requires forall i :: 0 <= i < |r| ==> r[i].1 == multiset(items)[r[i].0]
    requires forall i, j :: 0 <= i < j < |r| && r[i].1 == r[j].1 ==>
               SeenBefore(items, r[i].0, r[j].0)
    ensures NoDuplicates(Keys(r))
  {
    forall i, j | 0 <= i < j < |r|
      ensures Keys(r)[i] != Keys(r)[j]
    {
      if r[i].0 == r[j].0 {
        assert r[i].1 == r[j].1;
      }
    }
  }

  /** The counts of `items`, sorted by count: `dict(sorted(counts.items(), ...))`. */
  function CountSorted(items: seq<string>, order: Order): (r: Counts)
    ensures RankedCount(r, items, order)
  {
    var counts := Count(items);
    CountIsTable(items);
    DedupFirstAppearance(items);
    TotalCount(items);
    var r := Sort(order, counts);
    SortSpec(order, counts);
    assert KeysInFirstAppearance(counts, items);
    forall c
      ensures KeysInFirstAppearance(WithCount(r, c), items)
    {
      WithCountKeepsOrder(counts, items, c);
    }
    TiesInFirstAppearance(r, items);
    PermutedTableEntries(r, Dedup(items), items);
    PermutedTableKeys(r, Dedup(items), items);
    DistinctKeys(r, items);
    r
  }

  /** Two ranked counts of the same items hold the same entries, whatever order
      each is sorted in. */
  lemma SameEntries(r1: Counts, o1: Order, r2: Counts, o2: Order, items: seq<string>)
    requires RankedCount(r1, items, o1) && RankedCount(r2, items, o2)
    ensures forall e :: e in r1 <==> e in r2
  {
    forall e | e in r1
      ensures e in r2
    {
      EntryInOther(r1, r2, items, o2, e);
    }
    forall e | e in r2
      ensures e in r1
    {
      EntryInOther(r2, r1, items, o1, e);
    }
  }

  lemma EntryInOther(r1: Counts, r2: Counts, items: seq<string>, o2: Order, e: (string, nat))
    requires forall i :: 0 <= i < |r1| ==> r1[i].0 in items && r1[i].1 == multiset(items)[r1[i].0]
    requires RankedCount(r2, items, o2)
    requires e in r1
    ensures e in r2
  {
    var i :| 0 <= i < |r1| && r1[i] == e;
    var j :| 0 <= j < |items| && items[j] == e.0;
    assert items[j] in Keys(r2);
    var n :| 0 <= n < |r2| && Keys(r2)[n] == e.0;
    assert r2[n] == e;
  }

  /** A counts table is empty exactly when nothing was counted. */
  lemma RankedEmpty(r: Counts, items: seq<string>, order: Order)
    requires RankedCount(r, items, order)
    ensures r == [] <==> items == []
  {
    if items != [] {
      assert items[0] in Keys(r);
    }
  }
}
