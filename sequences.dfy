/**
 * Order-preserving filtering (`Array.prototype.filter`) and the
 * "first k items, then +n more" display cap used by several views.
 */
module Sequences {

  /** `s.filter(p)`: the elements of `s` that satisfy `p`, in their original order. */
  function Filter<T>(s: seq<T>, p: T -> bool): (r: seq<T>)
    ensures |r| <= |s|
    ensures forall i :: 0 <= i < |r| ==> r[i] in s && p(r[i])
    ensures forall i :: 0 <= i < |s| && p(s[i]) ==> s[i] in r
  {
    if s == [] then []
    else (if p(s[0]) then [s[0]] else []) + Filter(s[1..], p)
  }

  /** Filtering distributes over concatenation: each element is judged on its own and keeps its place. */
  lemma {:induction false} FilterAppend<T>(a: seq<T>, b: seq<T>, p: T -> bool)
    ensures Filter(a + b, p) == Filter(a, p) + Filter(b, p)
  {
    if a == [] {
      assert a + b == b;
    } else {
      assert (a + b)[1..] == a[1..] + b;
      FilterAppend(a[1..], b, p);
    }
  }

  /** Filtering a single element keeps it exactly when it satisfies the predicate. */
  lemma FilterSingleton<T>(x: T, p: T -> bool)
    ensures Filter([x], p) == if p(x) then [x] else []
  {
    assert [x][1..] == [];
  }

  /** Filtering keeps order: two kept elements appear in the result in the order they had in the input. */
  lemma FilterKeepsOrder<T>(s: seq<T>, i: nat, j: nat, p: T -> bool)
    requires i < j < |s| && p(s[i]) && p(s[j])
    ensures exists a, b :: 0 <= a < b < |Filter(s, p)| && Filter(s, p)[a] == s[i] && Filter(s, p)[b] == s[j]
  {
    assert s == s[..j] + s[j..];
    FilterAppend(s[..j], s[j..], p);
    var front := Filter(s[..j], p);
    var back := Filter(s[j..], p);
    assert s[..j][i] == s[i] && s[j..][0] == s[j];
    var a :| 0 <= a < |front| && front[a] == s[i];
    var b :| 0 <= b < |back| && back[b] == s[j];
    assert (front + back)[|front| + b] == s[j];
    assert (front + back)[a] == s[i];
  }

  /** No element occurs twice. */
  predicate Distinct<T(==)>(s: seq<T>)
  {
    forall i, j :: 0 <= i < j < |s| ==> s[i] != s[j]
  }

  /** Filtering a list without repetitions gives a list without repetitions. */
  lemma {:induction false} FilterDistinct<T>(s: seq<T>, p: T -> bool)
    requires Distinct(s)
    ensures Distinct(Filter(s, p))
  {
    if s != [] {
      FilterDistinct(s[1..], p);
      assert s[0] !in s[1..];
      assert s[0] !in Filter(s[1..], p);
    }
  }

  /** A list without repetitions drawn from a finite set is no longer than that set. */
  lemma {:induction false} DistinctWithin<T>(s: seq<T>, within: set<T>)
    requires Distinct(s)
    requires forall x :: x in s ==> x in within
    ensures |s| <= |within|
  {
    if s != [] {
      assert s[0] !in s[1..];
      assert forall x :: x in s[1..] ==> x in within - {s[0]};
      DistinctWithin(s[1..], within - {s[0]});
    }
  }

  /** `items.slice(0, limit)`: the items a view renders. */
  function Shown<T>(items: seq<T>, limit: nat): (r: seq<T>)
    ensures |r| == if |items| <= limit then |items| else limit
    ensures r <= items
    ensures |items| <= limit ==> r == items
  {
    if |items| <= limit then items else items[..limit]
  }

  /** The `+n more` badge: present, with n the number of hidden items, exactly when more than `limit` items exist. */
  function MoreCount<T>(items: seq<T>, limit: nat): (r: nat)
    ensures r > 0 <==> |items| > limit
    ensures |items| > limit ==> r == |items| - limit
  {
    if |items| > limit then |items| - limit else 0
  }

  /** Shown items and the badge count together account for every item. */
  lemma ShownPlusMore<T>(items: seq<T>, limit: nat)
    ensures |Shown(items, limit)| + MoreCount(items, limit) == |items|
    ensures Shown(items, limit) + items[|Shown(items, limit)|..] == items
  {
  }
}
