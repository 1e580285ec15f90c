/**
 * The Kotlin list operations the data store and the registration lists use:
 * `indexOfFirst`, `find`, `filter`/`removeIf`, `remove(element)`, `mapNotNull`
 * and `list[index] = value`, as pure functions on sequences.
 */
module Seqs {
  import opened Errors

  predicate NoDuplicates<T(==)>(s: seq<T>) {
    forall i, j | 0 <= i < j < |s| :: s[i] != s[j]
  }

  /** `i` is the position of the first element of `s` satisfying `p`. */
  predicate IsFirst<T>(s: seq<T>, p: T -> bool, i: int) {
    0 <= i < |s| && p(s[i]) && forall j | 0 <= j < i :: !p(s[j])
  }

  /** `indexOfFirst(p)`, with `None` for Kotlin's -1. */
  function FirstIndex<T>(s: seq<T>, p: T -> bool): (r: Option<nat>)
    ensures r.Some? ==> r.value < |s| && p(s[r.value])
    ensures r.Some? ==> forall j | 0 <= j < r.value :: !p(s[j])
    ensures r.None? ==> forall j | 0 <= j < |s| :: !p(s[j])
    decreases |s|
  {
    if s == [] then None
    else if p(s[0]) then Some(0)
    else
      match FirstIndex(s[1..], p)
      case None => None
      case Some(i) => Some(i + 1)
  }

  /** `find(p)`: the first element satisfying `p`, if any. */
  function Find<T(==)>(s: seq<T>, p: T -> bool): (r: Option<T>)
    ensures r.Some? ==> r.value in s && p(r.value)
    ensures r.Some? ==> exists i :: IsFirst(s, p, i) && s[i] == r.value
    ensures r.None? <==> forall j | 0 <= j < |s| :: !p(s[j])
  {
    match FirstIndex(s, p)
    case None => None
    case Some(i) =>
      assert IsFirst(s, p, i);
      Some(s[i])
  }

  /** The first index satisfying `p` is the one before which nothing does. */
  lemma FirstIndexIs<T>(s: seq<T>, p: T -> bool, i: nat)
    requires i < |s| && p(s[i])
    requires forall j | 0 <= j < i :: !p(s[j])
    ensures FirstIndex(s, p) == Some(i)
  {
  }

  /** `indexOfFirst` returns exactly the first position satisfying `p`. */
  lemma FirstIndexIsFirst<T>(s: seq<T>, p: T -> bool)
    ensures forall j | 0 <= j < |s| :: IsFirst(s, p, j) <==> FirstIndex(s, p) == Some(j)
  {
    forall j | 0 <= j < |s| ensures IsFirst(s, p, j) <==> FirstIndex(s, p) == Some(j) {
      if FirstIndex(s, p).Some? && j > FirstIndex(s, p).value {
        assert p(s[FirstIndex(s, p).value]);
      }
    }
  }

  /** Appending finds the old first match, or else the new element if it matches. */
  lemma FirstIndexAppend<T>(s: seq<T>, x: T, p: T -> bool)
    ensures FirstIndex(s, p).Some? ==> FirstIndex(s + [x], p) == FirstIndex(s, p)
    ensures FirstIndex(s, p).None? && p(x) ==> FirstIndex(s + [x], p) == Some(|s|)
    ensures FirstIndex(s, p).None? && !p(x) ==> FirstIndex(s + [x], p).None?
  {
    var t := s + [x];
    match FirstIndex(s, p)
    case Some(i) =>
      assert t[i] == s[i];
      forall j | 0 <= j < i ensures !p(t[j]) {
        assert t[j] == s[j];
      }
      FirstIndexIs(t, p, i);
    case None =>
      forall j | 0 <= j < |s| ensures !p(t[j]) {
        assert t[j] == s[j];
      }
      assert t[|s|] == x;
      if p(x) {
        FirstIndexIs(t, p, |s|);
      }
  }

  /** Writing a matching element over the first match keeps it the first match. */
  lemma FirstIndexReplaced<T>(s: seq<T>, p: T -> bool, i: nat, x: T)
    requires FirstIndex(s, p) == Some(i) && p(x)
    ensures FirstIndex(s[i := x], p) == Some(i)
  {
    var t := s[i := x];
    forall j | 0 <= j < i ensures !p(t[j]) {
      assert t[j] == s[j];
    }
    FirstIndexIs(t, p, i);
  }

  /** Writing an element back over its replacement restores the list. */
  lemma WriteBack<T>(s: seq<T>, i: nat, x: T)
    requires i < |s|
    ensures s[i := x][i := s[i]] == s
  {
  }

  /** `find` after `add`: the old match if there was one, else the new element if it matches. */
  lemma FindAppend<T>(s: seq<T>, x: T, p: T -> bool)
    ensures Find(s + [x], p) == if Find(s, p).Some? then Find(s, p) else if p(x) then Some(x) else None
  {
    FirstIndexAppend(s, x, p);
    match FirstIndex(s, p)
    case Some(i) =>
      assert (s + [x])[i] == s[i];
    case None =>
      assert (s + [x])[|s|] == x;
  }

  /** `find` after writing a matching element over the first match finds that element. */
  lemma FindReplacedAt<T>(s: seq<T>, p: T -> bool, i: nat, x: T)
    requires FirstIndex(s, p) == Some(i) && p(x)
    ensures Find(s[i := x], p) == Some(x)
  {
    FirstIndexReplaced(s, p, i, x);
  }

  /** `find` after `ReplaceFirst` with a matching element: that element, if anything matched. */
  lemma FindReplaceFirst<T>(s: seq<T>, p: T -> bool, x: T)
    requires p(x)
    ensures Find(ReplaceFirst(s, p, x), p) == if Find(s, p).Some? then Some(x) else None
  {
    match FirstIndex(s, p)
    case None =>
    case Some(i) =>
      FindReplacedAt(s, p, i, x);
  }

  /** `filter(p)`; `removeIf(q)` is `Filter` with the negation of `q`. */
  function Filter<T(==)>(s: seq<T>, p: T -> bool): (r: seq<T>)
    ensures |r| <= |s|
    ensures forall j | 0 <= j < |r| :: r[j] in s && p(r[j])
    ensures forall j | 0 <= j < |s| && p(s[j]) :: s[j] in r
    decreases |s|
  {
    if s == [] then []
    else (if p(s[0]) then [s[0]] else []) + Filter(s[1..], p)
  }

  /** Filtering keeps relative order: it distributes over concatenation. */
  lemma {:induction false} FilterAppend<T>(a: seq<T>, b: seq<T>, p: T -> bool)
    ensures Filter(a + b, p) == Filter(a, p) + Filter(b, p)
    decreases |a|
  {
    if a == [] {
      assert a + b == b;
    } else {
      assert (a + b)[1..] == a[1..] + b;
      FilterAppend(a[1..], b, p);
    }
  }

  /** Filtering with a predicate every element meets changes nothing. */
  lemma {:induction false} FilterKeepsAll<T>(s: seq<T>, p: T -> bool)
    requires forall j | 0 <= j < |s| :: p(s[j])
    ensures Filter(s, p) == s
    decreases |s|
  {
    if s != [] {
      FilterKeepsAll(s[1..], p);
    }
  }

  /** Filtering with a predicate no element meets leaves nothing. */
  lemma FilterKeepsNone<T>(s: seq<T>, p: T -> bool)
    requires forall j | 0 <= j < |s| :: !p(s[j])
    ensures Filter(s, p) == []
  {
  }

  /**
   * A filter that keeps every element satisfying `p` leaves `find(p)`
   * unchanged.
   */
  lemma {:induction false} FindFiltered<T>(s: seq<T>, q: T -> bool, p: T -> bool)
    requires forall j | 0 <= j < |s| :: p(s[j]) ==> q(s[j])
    ensures Find(Filter(s, q), p) == Find(s, p)
    decreases |s|
  {
    if s != [] {
      FindFiltered(s[1..], q, p);
      var rest := Filter(s[1..], q);
      FindCons(s[0], s[1..], p);
      if q(s[0]) {
        assert Filter(s, q) == [s[0]] + rest;
        FindCons(s[0], rest, p);
      } else {
        assert Filter(s, q) == rest;
      }
    }
  }

  /** Filtering twice, the second time more strictly, is filtering once. */
  lemma {:induction false} FilterFilter<T>(s: seq<T>, q: T -> bool, p: T -> bool)
    requires forall j | 0 <= j < |s| :: p(s[j]) ==> q(s[j])
    ensures Filter(Filter(s, q), p) == Filter(s, p)
    decreases |s|
  {
    if s != [] {
      FilterFilter(s[1..], q, p);
      var rest := Filter(s[1..], q);
      if q(s[0]) {
        assert Filter(s, q) == [s[0]] + rest;
        assert ([s[0]] + rest)[1..] == rest;
      } else {
        assert Filter(s, q) == rest;
      }
    }
  }

  /** Two filters may be applied in either order. */
  lemma {:induction false} FilterCommute<T>(s: seq<T>, p: T -> bool, q: T -> bool)
    ensures Filter(Filter(s, p), q) == Filter(Filter(s, q), p)
    decreases |s|
  {
    if s != [] {
      FilterCommute(s[1..], p, q);
      var x, rp, rq := s[0], Filter(s[1..], p), Filter(s[1..], q);
      var px: seq<T> := if p(x) then [x] else [];
      var qx: seq<T> := if q(x) then [x] else [];
      assert Filter(s, p) == px + rp;
      assert Filter(s, q) == qx + rq;
      FilterAppend(px, rp, q);
      FilterAppend(qx, rq, p);
      assert Filter(px, q) == Filter(qx, p) by {
        if p(x) { assert Filter([x], q) == if q(x) then [x] else []; }
        if q(x) { assert Filter([x], p) == if p(x) then [x] else []; }
      }
    }
  }

  /** `find` on a list with a known head: the head if it matches, else `find` on the tail. */
  lemma FindCons<T>(x: T, s: seq<T>, p: T -> bool)
    ensures Find([x] + s, p) == if p(x) then Some(x) else Find(s, p)
  {
    var t := [x] + s;
    assert t[1..] == s;
  }

  /** `list[index] = x` at the first element satisfying `p`; nothing if none does. */
  function ReplaceFirst<T>(s: seq<T>, p: T -> bool, x: T): (r: seq<T>)
    ensures |r| == |s|
    ensures forall j | 0 <= j < |s| :: r[j] == if IsFirst(s, p, j) then x else s[j]
    ensures (forall j | 0 <= j < |s| :: !p(s[j])) ==> r == s
  {
    FirstIndexIsFirst(s, p);
    match FirstIndex(s, p)
    case None => s
    case Some(i) => s[i := x]
  }

  /**
   * Writing over one element with a value that `q` judges alike leaves the
   * first index satisfying `q` where it was.
   */
  lemma FirstIndexSameAt<T>(s: seq<T>, q: T -> bool, i: nat, x: T)
    requires i < |s| && q(x) == q(s[i])
    ensures FirstIndex(s[i := x], q) == FirstIndex(s, q)
  {
    var t := s[i := x];
    match FirstIndex(s, q)
    case Some(m) =>
      forall j | 0 <= j < m ensures !q(t[j]) {
        assert j != i ==> t[j] == s[j];
      }
      assert q(t[m]) by { assert m != i ==> t[m] == s[m]; }
      FirstIndexIs(t, q, m);
    case None =>
  }

  /**
   * `find(q)` after `ReplaceFirst`, when neither the replaced elements nor
   * the new one satisfy `q`: unchanged.
   */
  lemma FindReplaceOther<T>(s: seq<T>, p: T -> bool, x: T, q: T -> bool)
    requires !q(x)
    requires forall j | 0 <= j < |s| && p(s[j]) :: !q(s[j])
    ensures Find(ReplaceFirst(s, p, x), q) == Find(s, q)
  {
    match FirstIndex(s, p)
    case None =>
    case Some(i) =>
      FirstIndexSameAt(s, q, i, x);
  }

  /**
   * `MutableList.remove(x)`: drops the first element equal to `x`, keeping
   * the others in order.
   */
  function RemoveFirst<T(==)>(s: seq<T>, x: T): (r: seq<T>)
    ensures x !in s ==> r == s
    ensures x in s ==> |r| == |s| - 1
    ensures x in s ==> exists k :: RemovedAt(s, x, k, r)
    ensures multiset(r) == multiset(s) - multiset{x}
    decreases |s|
  {
    if s == [] then []
    else if s[0] == x then
      assert s == [s[0]] + s[1..];
      assert RemovedAt(s, x, 0, s[1..]);
      s[1..]
    else
      var rest := RemoveFirst(s[1..], x);
      assert s == [s[0]] + s[1..];
      RemoveFirstStep(s, x, rest);
      [s[0]] + rest
  }

  /** `r` is `s` without its element at `k`, the first `x` in `s`. */
  predicate RemovedAt<T(==)>(s: seq<T>, x: T, k: int, r: seq<T>) {
    0 <= k < |s| && s[k] == x && x !in s[..k] && r == s[..k] + s[k + 1..]
  }

  /** The first `x` of the tail, shifted by one, is the first `x` of a list whose head is not `x`. */
  lemma RemoveFirstStep<T>(s: seq<T>, x: T, rest: seq<T>)
    requires s != [] && s[0] != x
    requires x in s[1..] ==> exists k :: RemovedAt(s[1..], x, k, rest)
    ensures x in s ==> exists k :: RemovedAt(s, x, k, [s[0]] + rest)
  {
    if x in s {
      assert s == [s[0]] + s[1..];
      var k :| RemovedAt(s[1..], x, k, rest);
      assert s[..k + 1] == [s[0]] + s[1..][..k];
      assert s[k + 2..] == s[1..][k + 1..];
      assert RemovedAt(s, x, k + 1, [s[0]] + rest);
    }
  }

  /** On a list without duplicates, `remove(x)` leaves no `x` and no duplicate. */
  lemma {:induction false} RemoveFirstNoDuplicates<T>(s: seq<T>, x: T)
    requires NoDuplicates(s)
    ensures NoDuplicates(RemoveFirst(s, x)) && x !in RemoveFirst(s, x)
    decreases |s|
  {
    if s != [] {
      NoDuplicatesTail(s);
      if s[0] != x {
        var rest := RemoveFirst(s[1..], x);
        RemoveFirstNoDuplicates(s[1..], x);
        forall y | y in rest
          ensures y in s[1..]
        {
          assert y in multiset(rest);
          assert multiset(rest)[y] <= multiset(s[1..])[y];
          assert y in multiset(s[1..]);
        }
        NoDuplicatesCons(s[0], rest);
      }
    }
  }

  lemma NoDuplicatesTail<T>(s: seq<T>)
    requires NoDuplicates(s) && s != []
    ensures NoDuplicates(s[1..]) && s[0] !in s[1..]
  {
    forall i, j | 0 <= i < j < |s[1..]|
      ensures s[1..][i] != s[1..][j]
    {
      assert s[1..][i] == s[i + 1] && s[1..][j] == s[j + 1];
    }
  }

  lemma NoDuplicatesCons<T>(a: T, t: seq<T>)
    requires NoDuplicates(t) && a !in t
    ensures NoDuplicates([a] + t)
  {
    var s := [a] + t;
    forall i, j | 0 <= i < j < |s|
      ensures s[i] != s[j]
    {
      assert s[j] == t[j - 1];
      if i > 0 {
        assert s[i] == t[i - 1];
      }
    }
  }

  /** Without duplicates, removing the first `x` is filtering every `x` out. */
  lemma {:induction false} RemoveFirstIsFilter<T>(s: seq<T>, x: T, p: T -> bool)
    requires NoDuplicates(s)
    requires forall y :: p(y) <==> y != x
    ensures RemoveFirst(s, x) == Filter(s, p)
    decreases |s|
  {
    if s != [] {
      RemoveFirstIsFilter(s[1..], x, p);
      if s[0] == x {
        assert x !in s[1..];
        FilterKeepsAll(s[1..], p);
      }
    }
  }

  /** Removing an element just appended to a list that lacked it restores the list. */
  lemma {:induction false} RemoveFirstAppended<T>(s: seq<T>, x: T)
    requires x !in s
    ensures RemoveFirst(s + [x], x) == s
    decreases |s|
  {
    if s == [] {
    } else {
      assert (s + [x])[1..] == s[1..] + [x];
      RemoveFirstAppended(s[1..], x);
    }
  }

  /** `mapNotNull(f)`: applies `f` in order and drops the `null`s. */
  function MapNotNull<A, B>(s: seq<A>, f: A -> Option<B>): (r: seq<B>)
    ensures |r| <= |s|
    decreases |s|
  {
    if s == [] then []
    else (match f(s[0]) case Some(b) => [b] case None => []) + MapNotNull(s[1..], f)
  }

  /** `mapNotNull` distributes over concatenation. */
  lemma {:induction false} MapNotNullAppend<A, B>(a: seq<A>, b: seq<A>, f: A -> Option<B>)
    ensures MapNotNull(a + b, f) == MapNotNull(a, f) + MapNotNull(b, f)
    decreases |a|
  {
    if a == [] {
      assert a + b == b;
    } else {
      assert (a + b)[1..] == a[1..] + b;
      MapNotNullAppend(a[1..], b, f);
    }
  }

  /** When `f` never returns `null`, `mapNotNull` is a plain map. */
  lemma {:induction false} MapNotNullTotal<A, B>(s: seq<A>, f: A -> Option<B>)
    requires forall j | 0 <= j < |s| :: f(s[j]).Some?
    ensures |MapNotNull(s, f)| == |s|
    ensures forall j | 0 <= j < |s| :: MapNotNull(s, f)[j] == f(s[j]).value
    decreases |s|
  {
    if s != [] {
      MapNotNullTotal(s[1..], f);
    }
  }

  /** Every element of a `mapNotNull` result comes from a non-null `f(a)`, `a` in `s`. */
  lemma {:induction false} MapNotNullSources<A, B>(s: seq<A>, f: A -> Option<B>, b: B)
    requires b in MapNotNull(s, f)
    ensures exists j | 0 <= j < |s| :: f(s[j]) == Some(b)
    decreases |s|
  {
    if f(s[0]) == Some(b) {
    } else {
      MapNotNullSources(s[1..], f, b);
      var j :| 0 <= j < |s[1..]| && f(s[1..][j]) == Some(b);
      assert f(s[j + 1]) == Some(b);
    }
  }
}
