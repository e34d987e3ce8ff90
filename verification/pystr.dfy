/** The Python `str` operations the repository's parsers are built from, over
    `string` (a sequence of characters): `find`, `rfind`, `in`, `split`,
    `replace(c, "")`, `*` and slicing with Python's index normalisation. */
module PyStr {
  import opened Wrappers

  /** `sub` occurs in `s` starting at index `i`. */
  predicate OccursAt(s: string, sub: string, i: nat) {
    i + |sub| <= |s| && s[i..i + |sub|] == sub
  }

  /** An occurrence past index 0 is an occurrence in the tail. */
  lemma OccursInTail(s: string, sub: string)
    requires |s| > 0
    ensures forall j: nat :: 1 <= j ==> (OccursAt(s, sub, j) <==> OccursAt(s[1..], sub, j - 1))
  {
    forall j: nat | 1 <= j
      ensures OccursAt(s, sub, j) <==> OccursAt(s[1..], sub, j - 1)
    {
      if j + |sub| <= |s| {
        assert s[1..][j - 1..j - 1 + |sub|] == s[j..j + |sub|];
      }
    }
  }

  /** An occurrence that ends before the last character is an occurrence in the init. */
  lemma OccursInInit(s: string, sub: string)
    requires |s| > 0
    ensures forall j: nat :: j + |sub| < |s| ==> (OccursAt(s, sub, j) <==> OccursAt(s[..|s| - 1], sub, j))
  {
    forall j: nat | j + |sub| < |s|
      ensures OccursAt(s, sub, j) <==> OccursAt(s[..|s| - 1], sub, j)
    {
      assert s[..|s| - 1][j..j + |sub|] == s[j..j + |sub|];
    }
  }

  /** Python's `s.find(sub)`: the first index at which `sub` occurs (None stands for -1). */
  function Find(s: string, sub: string): (r: Option<nat>)
    ensures r.Some? ==> OccursAt(s, sub, r.value)
    ensures r.Some? ==> forall j: nat :: j < r.value ==> !OccursAt(s, sub, j)
    ensures r.None? ==> forall j: nat :: !OccursAt(s, sub, j)
    decreases |s|
  {
    if |s| < |sub| then None
    else if s[..|sub|] == sub then Some(0)
    else
      OccursInTail(s, sub);
      match Find(s[1..], sub)
      case None => None
      case Some(i) => Some(i + 1)
  }

  /** Python's `s.rfind(sub)`: the last index at which `sub` occurs (None stands for -1). */
  function RFind(s: string, sub: string): (r: Option<nat>)
    ensures r.Some? ==> OccursAt(s, sub, r.value)
    ensures r.Some? ==> forall j: nat :: r.value < j ==> !OccursAt(s, sub, j)
    ensures r.None? ==> forall j: nat :: !OccursAt(s, sub, j)
    decreases |s|
  {
    if |s| < |sub| then None
    else if s[|s| - |sub|..] == sub then Some(|s| - |sub|)
    else
      OccursInInit(s, sub);
      RFind(s[..|s| - 1], sub)
  }

  /** The integer Python's `find`/`rfind` return: the index, or -1 when absent. */
  function IndexOrMinusOne(r: Option<nat>): int {
    match r
    case Some(i) => i
    case None => -1
  }

  /** Python's `sub in s`. */
  predicate Contains(s: string, sub: string) {
    Find(s, sub).Some?
  }

  /** A one-character pattern occurs exactly where that character is. */
  lemma OccursChar(s: string, c: char)
    ensures forall j: nat :: OccursAt(s, [c], j) <==> j < |s| && s[j] == c
  {
  }

  /** `c in s` for a one-character string agrees with sequence membership. */
  lemma ContainsChar(s: string, c: char)
    ensures Contains(s, [c]) <==> c in s
  {
    OccursChar(s, c);
    if c in s {
      var j :| 0 <= j < |s| && s[j] == c;
      assert OccursAt(s, [c], j);
    }
  }

  /** The parts `Split` puts back together. */
  function Join(parts: seq<string>, sep: string): string {
    if |parts| == 0 then []
    else if |parts| == 1 then parts[0]
    else parts[0] + sep + Join(parts[1..], sep)
  }

  /** Joining peels off the last part as well as the first. */
  lemma {:induction false} JoinLast(parts: seq<string>, sep: string)
    requires |parts| >= 2
    ensures Join(parts, sep) == Join(parts[..|parts| - 1], sep) + sep + parts[|parts| - 1]
  {
    if |parts| > 2 {
      JoinLast(parts[1..], sep);
      assert parts[1..][..|parts| - 2] == parts[..|parts| - 1][1..];
    }
  }

  /** The text before the first occurrence of `sep` holds no occurrence of it. */
  lemma BeforeFirstIsClear(s: string, sep: string, i: nat)
    requires |sep| > 0 && Find(s, sep) == Some(i)
    ensures forall j: nat :: !OccursAt(s[..i], sep, j)
  {
    forall j: nat
      ensures !OccursAt(s[..i], sep, j)
    {
      if OccursAt(s[..i], sep, j) {
        assert s[..i][j..j + |sep|] == s[j..j + |sep|];
        assert OccursAt(s, sep, j);
      }
    }
  }

  /** Python's `s.split(sep)` for a non-empty separator: the pieces between the
      left-to-right, non-overlapping occurrences of `sep`. Joining them back with
      `sep` gives `s`, and no piece contains `sep`. */
  function Split(s: string, sep: string): (parts: seq<string>)
    requires |sep| > 0
    ensures |parts| >= 1
    ensures Join(parts, sep) == s
    ensures forall k: nat, j: nat :: k < |parts| ==> !OccursAt(parts[k], sep, j)
    decreases |s|
  {
    match Find(s, sep)
    case None => [s]
    case Some(i) =>
      BeforeFirstIsClear(s, sep, i);
      assert s == s[..i] + sep + s[i + |sep|..] by {
        assert s[i..i + |sep|] == sep;
        assert s == s[..i] + s[i..i + |sep|] + s[i + |sep|..];
      }
      [s[..i]] + Split(s[i + |sep|..], sep)
  }

  /** `Find` and `RFind` return the first and last occurrence, however these
      are established. */
  lemma FindIs(s: string, sub: string, i: nat)
    requires OccursAt(s, sub, i)
    requires forall j: nat :: j < i ==> !OccursAt(s, sub, j)
    ensures Find(s, sub) == Some(i)
  {
  }

  lemma RFindIs(s: string, sub: string, i: nat)
    requires OccursAt(s, sub, i)
    requires forall j: nat :: i < j ==> !OccursAt(s, sub, j)
    ensures RFind(s, sub) == Some(i)
  {
  }

  /** `find` reports -1 exactly when `rfind` does. */
  lemma FindNoneBoth(s: string, sub: string)
    ensures Find(s, sub).None? <==> RFind(s, sub).None?
  {
    if Find(s, sub).Some? {
      assert OccursAt(s, sub, Find(s, sub).value);
    }
    if RFind(s, sub).Some? {
      assert OccursAt(s, sub, RFind(s, sub).value);
    }
  }

  /** Splitting at a known first occurrence. */
  lemma SplitAt(s: string, sep: string, i: nat)
    requires |sep| > 0 && OccursAt(s, sep, i)
    requires forall j: nat :: j < i ==> !OccursAt(s, sep, j)
    ensures Split(s, sep) == [s[..i]] + Split(s[i + |sep|..], sep)
  {
    FindIs(s, sep, i);
  }

  /** A string without the separator splits into itself. */
  lemma SplitClear(s: string, sep: string)
    requires |sep| > 0
    requires forall j: nat :: !OccursAt(s, sep, j)
    ensures Split(s, sep) == [s]
  {
  }

  /** The first occurrence of a character in `a` is its first occurrence in
      anything `a` starts. */
  lemma FirstCharIn(a: string, t: string, c: char, i: nat)
    requires Find(a, [c]) == Some(i)
    ensures OccursAt(a + t, [c], i)
    ensures forall j: nat :: j < i ==> !OccursAt(a + t, [c], j)
  {
    OccursChar(a, c);
    OccursChar(a + t, c);
    assert (a + t)[i] == a[i];
    forall j: nat | j < i
      ensures !OccursAt(a + t, [c], j)
    {
      assert (a + t)[j] == a[j];
    }
  }

  /** Without the character in `a`, the first one in `a + [c] + b` is the joint. */
  lemma JointIsFirst(a: string, b: string, c: char)
    requires c !in a
    ensures OccursAt(a + [c] + b, [c], |a|)
    ensures forall j: nat :: j < |a| ==> !OccursAt(a + [c] + b, [c], j)
    ensures forall j: nat :: !OccursAt(a, [c], j)
  {
    var s := a + [c] + b;
    OccursChar(s, c);
    OccursChar(a, c);
    assert s[|a|] == c;
    forall j: nat | j < |a|
      ensures !OccursAt(s, [c], j)
    {
      assert s[j] == a[j];
    }
  }

  /** A string without the separator character splits into itself. */
  lemma SplitWithoutChar(s: string, c: char)
    ensures c !in s ==> Split(s, [c]) == [s]
  {
    if c !in s {
      OccursChar(s, c);
      SplitClear(s, [c]);
    }
  }

  /** Splitting on one character distributes over a join with that character. */
  lemma {:induction false} SplitCharJoin(a: string, b: string, c: char)
    ensures Split(a + [c] + b, [c]) == Split(a, [c]) + Split(b, [c])
    decreases |a|, 1
  {
    match Find(a, [c])
    case Some(i) => SplitCharJoinAt(a, b, c, i);
    case None =>
      ContainsChar(a, c);
      SplitCharJoinClear(a, b, c);
  }

  /** The case where `a` holds the character: both splits cut at its first
      occurrence, and the rest follows by induction. */
  lemma {:induction false} SplitCharJoinAt(a: string, b: string, c: char, i: nat)
    requires Find(a, [c]) == Some(i)
    ensures Split(a + [c] + b, [c]) == Split(a, [c]) + Split(b, [c])
    decreases |a|, 0
  {
    var rest := a[i + 1..];
    SplitFirstChar(a, c, i);
    SplitJoinFirstChar(a, b, c, i);
    SplitCharJoin(rest, b, c);
    ConsAppend(a[..i], Split(rest, [c]), Split(b, [c]));
  }

  lemma ConsAppend<T>(x: T, p: seq<T>, q: seq<T>)
    ensures [x] + (p + q) == ([x] + p) + q
  {
  }

  /** Splitting at the first occurrence of the character. */
  lemma SplitFirstChar(a: string, c: char, i: nat)
    requires Find(a, [c]) == Some(i)
    ensures Split(a, [c]) == [a[..i]] + Split(a[i + 1..], [c])
  {
  }

  /** A join with the character after `a` is cut first where `a` is. */
  lemma SplitJoinFirstChar(a: string, b: string, c: char, i: nat)
    requires Find(a, [c]) == Some(i)
    ensures Split(a + [c] + b, [c]) == [a[..i]] + Split(a[i + 1..] + [c] + b, [c])
  {
    var t := [c] + b;
    assert OccursAt(a, [c], i);
    FirstCharIn(a, t, c, i);
    SplitAt(a + t, [c], i);
    SliceAround(a, t, i);
    assert a + [c] + b == a + t;
    assert a[i + 1..] + [c] + b == a[i + 1..] + t;
  }

  /** Cutting `a + t` around a position inside `a`. */
  lemma SliceAround(a: string, t: string, i: nat)
    requires i < |a|
    ensures (a + t)[..i] == a[..i] && (a + t)[i + 1..] == a[i + 1..] + t
  {
  }

  /** The case where `a` lacks the character: the join's first occurrence is
      the joint itself. */
  lemma SplitCharJoinClear(a: string, b: string, c: char)
    requires c !in a
    ensures Split(a + [c] + b, [c]) == Split(a, [c]) + Split(b, [c])
  {
    var s := a + [c] + b;
    JointIsFirst(a, b, c);
    SplitClear(a, [c]);
    SplitAt(s, [c], |a|);
    assert s[..|a|] == a;
    assert s[|a| + 1..] == b;
  }

  /** Pieces free of a one-character separator are recovered by splitting their
      join: `sep.join(parts).split(sep) == parts`. */
  lemma {:induction false} SplitJoinChar(parts: seq<string>, c: char)
    requires |parts| >= 1
    requires forall k :: 0 <= k < |parts| ==> c !in parts[k]
    ensures Split(Join(parts, [c]), [c]) == parts
  {
    OccursChar(parts[0], c);
    if |parts| == 1 {
      SplitClear(parts[0], [c]);
    } else {
      SplitJoinChar(parts[1..], c);
      SplitCharJoin(parts[0], Join(parts[1..], [c]), c);
      SplitClear(parts[0], [c]);
    }
  }

  /** No piece of a split on one character contains that character. */
  lemma SplitCharPieces(s: string, c: char)
    ensures forall k :: 0 <= k < |Split(s, [c])| ==> c !in Split(s, [c])[k]
  {
    var parts := Split(s, [c]);
    forall k | 0 <= k < |parts|
      ensures c !in parts[k]
    {
      OccursChar(parts[k], c);
      forall j | 0 <= j < |parts[k]|
        ensures parts[k][j] != c
      {
        assert !OccursAt(parts[k], [c], j);
      }
    }
  }

  /** Python's `s.replace(c, "")` for a one-character `c`. */
  function RemoveChar(s: string, c: char): (r: string)
    ensures c !in r
    ensures forall d :: d != c ==> multiset(r)[d] == multiset(s)[d]
    ensures c !in s ==> r == s
  {
    if s == [] then []
    else
      assert s == [s[0]] + s[1..];
      (if s[0] == c then [] else [s[0]]) + RemoveChar(s[1..], c)
  }

  /** Python's `c * n` for a one-character string. */
  function Repeat(c: char, n: nat): (r: string)
    ensures |r| == n
    ensures forall i :: 0 <= i < n ==> r[i] == c
  {
    if n == 0 then [] else [c] + Repeat(c, n - 1)
  }

  /** Python's normalisation of a slice bound against a length `n`: a negative
      bound counts from the end, and the result is clamped to [0, n]. */
  function SliceBound(i: int, n: nat): (r: nat)
    ensures r <= n
    ensures 0 <= i <= n ==> r == i
    ensures i < 0 && 0 <= i + n ==> r == i + n
  {
    if i < 0 then (if i + n < 0 then 0 else i + n)
    else if i > n then n
    else i
  }

  /** Python's `s[a:b]`, where either bound may be negative or out of range. */
  function PySlice(s: string, a: int, b: int): (r: string)
    ensures 0 <= a <= b <= |s| ==> r == s[a..b]
    ensures |r| <= |s|
  {
    var lo := SliceBound(a, |s|);
    var hi := SliceBound(b, |s|);
    if lo < hi then s[lo..hi] else []
  }

  /** `s[a:-1]`: from `a` up to, not including, the last character. */
  lemma SliceToLast(s: string, a: nat)
    requires a < |s|
    ensures PySlice(s, a, -1) == s[a..|s| - 1]
  {
    assert SliceBound(-1, |s|) == |s| - 1;
    assert SliceBound(a, |s|) == a;
  }

  /** Python's `[x for x in xs if tag in x]`. */
  function Containing(xs: seq<string>, tag: string): (r: seq<string>)
    ensures forall k :: 0 <= k < |r| ==> Contains(r[k], tag) && r[k] in xs
    ensures forall k :: 0 <= k < |xs| && Contains(xs[k], tag) ==> xs[k] in r
    ensures |r| <= |xs|
  {
    if xs == [] then []
    else (if Contains(xs[0], tag) then [xs[0]] else []) + Containing(xs[1..], tag)
  }

  /** The filter distributes over concatenation and so keeps the order of lines. */
  lemma {:induction false} ContainingAppend(xs: seq<string>, ys: seq<string>, tag: string)
    ensures Containing(xs + ys, tag) == Containing(xs, tag) + Containing(ys, tag)
  {
    if xs != [] {
      assert (xs + ys)[0] == xs[0];
      assert (xs + ys)[1..] == xs[1..] + ys;
      ContainingAppend(xs[1..], ys, tag);
      var head := if Contains(xs[0], tag) then [xs[0]] else [];
      assert Containing(xs + ys, tag) == head + (Containing(xs[1..], tag) + Containing(ys, tag));
    } else {
      assert xs + ys == ys;
    }
  }

  /** An occurrence wholly inside the left part of a concatenation. */
  lemma OccursLeft(a: string, b: string, sub: string, j: nat)
    requires j + |sub| <= |a|
    ensures OccursAt(a + b, sub, j) <==> OccursAt(a, sub, j)
  {
    assert (a + b)[j..j + |sub|] == a[j..j + |sub|];
  }

  /** An occurrence in the right part of a concatenation. */
  lemma OccursRight(a: string, b: string, sub: string, j: nat)
    ensures OccursAt(a + b, sub, |a| + j) <==> OccursAt(b, sub, j)
  {
    if |a| + j + |sub| <= |a + b| {
      assert (a + b)[|a| + j..|a| + j + |sub|] == b[j..j + |sub|];
    }
  }

  /** A character that differs from the pattern's rules out an occurrence. */
  lemma Mismatch(s: string, sub: string, j: nat, k: nat)
    requires k < |sub| && j + k < |s| && s[j + k] != sub[k]
    ensures !OccursAt(s, sub, j)
  {
    if j + |sub| <= |s| {
      assert s[j..j + |sub|][k] == s[j + k];
    }
  }

  /** No occurrence covers a character the pattern does not contain. */
  lemma OccursAcross(s: string, sub: string, j: nat, m: nat)
    requires j <= m < j + |sub| && m < |s| && s[m] !in sub
    ensures !OccursAt(s, sub, j)
  {
  }

  /** A `|`-delimited field `x` other than `word` is not an occurrence of the
      tag `|word|`. */
  lemma FieldIsNotTag(s: string, j: nat, x: string, word: string)
    requires '|' !in x && '|' !in word && x != word
    requires j + |x| + 2 <= |s| && s[j] == '|' && s[j + 1..j + 1 + |x|] == x && s[j + 1 + |x|] == '|'
    ensures !OccursAt(s, "|" + word + "|", j)
  {
    var tag := "|" + word + "|";
    if j + |tag| <= |s| {
      var w := s[j..j + |tag|];
      if |x| < |word| {
        assert w[1 + |x|] == '|' && tag[1 + |x|] == word[|x|];
      } else if |x| > |word| {
        assert w[1 + |word|] == x[|word|] && tag[1 + |word|] == '|';
      } else {
        var v := w[1..1 + |x|];
        assert forall i :: 0 <= i < |x| ==> v[i] == x[i] by {
          forall i | 0 <= i < |x|
            ensures v[i] == x[i]
          {
            assert v[i] == s[j + 1 + i];
            assert x[i] == s[j + 1..j + 1 + |x|][i];
          }
        }
        assert v == x;
        assert tag[1..1 + |word|] == word;
      }
    }
  }

  /** The records, each preceded by the tag: `tag + r1 + tag + r2 + ...`. */
  function Tagged(tag: string, recs: seq<string>): string {
    if recs == [] then [] else tag + recs[0] + Tagged(tag, recs[1..])
  }

  /** Followed by the tag, the record shows no occurrence of the tag before its
      end: it holds none, and none starts inside it. */
  predicate TagFree(tag: string, r: string) {
    forall j: nat :: j < |r| ==> !OccursAt(r + tag, tag, j)
  }

  lemma TagFreeClear(tag: string, r: string)
    requires |tag| > 0 && TagFree(tag, r)
    ensures forall j: nat :: !OccursAt(r, tag, j)
  {
    forall j: nat
      ensures !OccursAt(r, tag, j)
    {
      if j + |tag| <= |r| {
        OccursLeft(r, tag, tag, j);
      }
    }
  }

  lemma {:induction false} SplitRecords(tag: string, r: string, rest: seq<string>)
    requires |tag| > 0 && TagFree(tag, r)
    requires forall k :: 0 <= k < |rest| ==> TagFree(tag, rest[k])
    ensures Split(r + Tagged(tag, rest), tag) == [r] + rest
    decreases |rest|
  {
    if rest == [] {
      assert r + Tagged(tag, rest) == r;
      TagFreeClear(tag, r);
      SplitClear(r, tag);
    } else {
      var more := rest[0] + Tagged(tag, rest[1..]);
      var s := r + (tag + more);
      assert r + Tagged(tag, rest) == s;
      forall j: nat | j < |r|
        ensures !OccursAt(s, tag, j)
      {
        assert s == (r + tag) + more;
        OccursLeft(r + tag, more, tag, j);
      }
      OccursRight(r, tag + more, tag, 0);
      assert OccursAt(tag + more, tag, 0) by {
        assert (tag + more)[..|tag|] == tag;
      }
      SplitAt(s, tag, |r|);
      assert s[..|r|] == r;
      assert s[|r| + |tag|..] == more;
      SplitRecords(tag, rest[0], rest[1..]);
      assert [rest[0]] + rest[1..] == rest;
    }
  }

  /** Splitting tagged records on their tag gives the empty text before the
      first tag, then the records. */
  lemma SplitTagged(tag: string, recs: seq<string>)
    requires |tag| > 0
    requires forall k :: 0 <= k < |recs| ==> TagFree(tag, recs[k])
    ensures Split(Tagged(tag, recs), tag) == [""] + recs
  {
    if recs == [] {
      SplitClear("", tag);
    } else {
      var more := recs[0] + Tagged(tag, recs[1..]);
      var s := tag + more;
      assert Tagged(tag, recs) == s;
      assert s[..|tag|] == tag;
      SplitAt(s, tag, 0);
      assert s[|tag|..] == more;
      SplitRecords(tag, recs[0], recs[1..]);
    }
  }

  /** Removing a character distributes over concatenation. */
  lemma {:induction false} RemoveCharAppend(a: string, b: string, c: char)
    ensures RemoveChar(a + b, c) == RemoveChar(a, c) + RemoveChar(b, c)
  {
    if a == [] {
      assert a + b == b;
    } else {
      assert (a + b)[0] == a[0];
      assert (a + b)[1..] == a[1..] + b;
      RemoveCharAppend(a[1..], b, c);
    }
  }

  /** Removing the separator from lines joined with it concatenates the lines. */
  lemma {:induction false} RemoveCharJoin(parts: seq<string>, c: char)
    requires forall k :: 0 <= k < |parts| ==> c !in parts[k]
    ensures RemoveChar(Join(parts, [c]), c) == Join(parts, [])
  {
    if |parts| > 1 {
      RemoveCharJoin(parts[1..], c);
      RemoveCharAppend(parts[0] + [c], Join(parts[1..], [c]), c);
      RemoveCharAppend(parts[0], [c], c);
      assert parts[0] + [c] + Join(parts[1..], [c]) == Join(parts, [c]);
    }
  }

  /** Every character of a piece of a join is a character of the join. */
  lemma {:induction false} JoinKeepsChars(parts: seq<string>, sep: string)
    ensures forall k, x :: 0 <= k < |parts| && x in parts[k] ==> x in Join(parts, sep)
  {
    if |parts| > 1 {
      JoinKeepsChars(parts[1..], sep);
      var j := Join(parts, sep);
      assert j == parts[0] + sep + Join(parts[1..], sep);
      forall k, x | 0 <= k < |parts| && x in parts[k]
        ensures x in j
      {
        if k > 0 {
          assert parts[k] == parts[1..][k - 1];
        }
      }
    }
  }

  /** A character in neither the pieces nor the separator is not in their join. */
  lemma {:induction false} JoinWithout(parts: seq<string>, sep: string, c: char)
    requires c !in sep
    requires forall k :: 0 <= k < |parts| ==> c !in parts[k]
    ensures c !in Join(parts, sep)
  {
    if |parts| > 1 {
      assert forall k :: 0 <= k < |parts| - 1 ==> parts[1..][k] == parts[k + 1];
      JoinWithout(parts[1..], sep, c);
    }
  }

  /** A piece of a split holds only characters of the split text. */
  lemma SplitKeepsChars(s: string, sep: string)
    requires |sep| > 0
    ensures forall k, x :: 0 <= k < |Split(s, sep)| && x in Split(s, sep)[k] ==> x in s
  {
    JoinKeepsChars(Split(s, sep), sep);
  }

  /** A join starts with whatever its first part starts with. */
  lemma JoinStartsWith(parts: seq<string>, sep: string, p: string)
    requires |parts| >= 1 && |p| <= |parts[0]| && parts[0][..|p|] == p
    ensures OccursAt(Join(parts, sep), p, 0)
  {
    if |parts| > 1 {
      assert Join(parts, sep) == parts[0] + (sep + Join(parts[1..], sep));
    }
  }

  /** A join ends with its last part. */
  lemma JoinEndsWith(parts: seq<string>, sep: string)
    requires |parts| >= 1
    ensures var j := Join(parts, sep);
            var last := parts[|parts| - 1];
            |last| <= |j| && j == j[..|j| - |last|] + last
  {
    if |parts| > 1 {
      JoinLast(parts, sep);
    }
  }

  /** Past a prefix, occurrences are those of the rest. */
  lemma NoneAfterPrefix(front: string, t: string, sub: string)
    requires forall j: nat :: 0 < j ==> !OccursAt(t, sub, j)
    ensures forall j: nat :: |front| < j ==> !OccursAt(front + t, sub, j)
  {
    forall j: nat | |front| < j
      ensures !OccursAt(front + t, sub, j)
    {
      var i: nat := j - |front|;
      OccursRight(front, t, sub, i);
      assert !OccursAt(t, sub, i);
    }
  }

  /** A text whose only occurrence of `sub` is at its start, after anything,
      puts the last occurrence there. */
  lemma RFindOnlyAtStart(front: string, t: string, sub: string)
    requires OccursAt(t, sub, 0)
    requires forall j: nat :: 0 < j ==> !OccursAt(t, sub, j)
    ensures RFind(front + t, sub) == Some(|front|)
  {
    OccursRight(front, t, sub, 0);
    NoneAfterPrefix(front, t, sub);
    RFindIs(front + t, sub, |front|);
  }
}
