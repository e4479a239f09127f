/** Python's string order, `sorted` over a set of strings, and a stable `sorted` with a key order. */
module Ordering {

  /** Code point by code point, a proper prefix first. */
  predicate Leq(a: string, b: string) {
    a == "" || (b != "" && (a[0] < b[0] || (a[0] == b[0] && Leq(a[1..], b[1..]))))
  }

  lemma {:induction false} LeqTotal(a: string, b: string)
    ensures Leq(a, b) || Leq(b, a)
    ensures Leq(a, b) && Leq(b, a) ==> a == b
  {
    if a != "" && b != "" {
      LeqTotal(a[1..], b[1..]);
      assert a == [a[0]] + a[1..] && b == [b[0]] + b[1..];
    }
  }

  lemma {:induction false} LeqTransitive(a: string, b: string, c: string)
    requires Leq(a, b) && Leq(b, c)
    ensures Leq(a, c)
  {
    if a != "" && a[0] == b[0] && b[0] == c[0] {
      LeqTransitive(a[1..], b[1..], c[1..]);
    }
  }

  /** The strings agree up to `k` and differ there, or one of them ends. */
  predicate PartAt(a: string, b: string, k: nat) {
    k <= |a| && k <= |b| && a[..k] == b[..k] && (k < |a| && k < |b| ==> a[k] != b[k])
  }

  /** Where two strings part, the smaller character, or the end, comes first. */
  lemma {:induction false} LeqAtParting(a: string, b: string, k: nat)
    requires PartAt(a, b, k) && (k < |a| || k < |b|)
    ensures Leq(a, b) <==> (k == |a| || (k < |b| && a[k] < b[k]))
  {
    if k > 0 {
      assert a[..k][0] == b[..k][0];
      assert a[1..][..k - 1] == a[..k][1..] && b[1..][..k - 1] == b[..k][1..];
      LeqAtParting(a[1..], b[1..], k - 1);
    }
  }

  predicate Least(s: set<string>, m: string) {
    m in s && forall x :: x in s ==> Leq(m, x)
  }

  lemma {:induction false} LeastExists(s: set<string>)
    requires s != {}
    ensures exists m :: Least(s, m)
  {
    var x :| x in s;
    LeqTotal(x, x);
    if s - {x} == {} {
      assert s == {x};
      assert Least(s, x);
    } else {
      LeastExists(s - {x});
      var m :| Least(s - {x}, m);
      LeqTotal(x, m);
      var least := if Leq(m, x) then m else x;
      forall y | y in s ensures Leq(least, y) {
        if y != x && least == x {
          LeqTransitive(x, m, y);
        }
      }
      assert Least(s, least);
    }
  }

  lemma LeastIsUnique(s: set<string>)
    ensures forall m, m' :: Least(s, m) && Least(s, m') ==> m == m'
  {
    forall m, m' | Least(s, m) && Least(s, m') ensures m == m' {
      LeqTotal(m, m');
    }
  }

  function SetOf(s: seq<string>): set<string> {
    set x | x in s
  }

  lemma SetOfMore(s: seq<string>, i: nat)
    requires i < |s|
    ensures SetOf(s[..i + 1]) == SetOf(s[..i]) + {s[i]}
  {
    assert s[..i + 1] == s[..i] + [s[i]];
  }

  predicate Ascending(r: seq<string>) {
    forall i, j :: 0 <= i < j < |r| ==> Leq(r[i], r[j]) && r[i] != r[j]
  }

  /** `sorted(s)` for a set of strings. */
  function SortSet(s: set<string>): (r: seq<string>)
    ensures forall x :: x in r <==> x in s
    ensures Ascending(r)
  {
    if s == {} then []
    else
      LeastExists(s);
      LeastIsUnique(s);
      var m :| Least(s, m);
      var rest := SortSet(s - {m});
      assert forall i :: 0 <= i < |rest| ==> rest[i] in rest;
      [m] + rest
  }

  lemma LeastComesFirst(s: set<string>, m: string)
    requires Least(s, m)
    ensures SortSet(s) == [m] + SortSet(s - {m})
  {
    LeastIsUnique(s);
  }

  /** `sorted(s)`, for a loop that needs to know no more than what it runs over. */
  method Sorted(s: set<string>) returns (r: seq<string>)
    ensures Ascending(r) && forall x :: x in r <==> x in s
  {
    r := SortSet(s);
  }

  lemma SortedEmpty(s: set<string>)
    ensures SortSet(s) == [] <==> s == {}
  {
    var sorted := SortSet(s);
    if sorted != [] {
      assert sorted[0] in s;
    }
    if x :| x in s {
      assert x in sorted;
    }
  }

  // ---------------------------------------------------------------- stable sort by an order

  ghost predicate Preorder<T(!new)>(leq: (T, T) -> bool) {
    (forall a, b :: leq(a, b) || leq(b, a)) &&
    (forall a, b, c :: leq(a, b) && leq(b, c) ==> leq(a, c))
  }

  predicate SortedBy<T>(s: seq<T>, leq: (T, T) -> bool) {
    forall i, j :: 0 <= i < j < |s| ==> leq(s[i], s[j])
  }

  function Insert<T>(x: T, s: seq<T>, leq: (T, T) -> bool): (r: seq<T>)
    ensures |r| == |s| + 1
    ensures multiset(r) == multiset(s) + multiset{x}
  {
    if s == [] then [x]
    else if leq(x, s[0]) then [x] + s
    else
      assert s == [s[0]] + s[1..];
      [s[0]] + Insert(x, s[1..], leq)
  }

  /** `sorted(s)` under `leq`: elements of equal rank keep their order. */
  function Sort<T>(s: seq<T>, leq: (T, T) -> bool): (r: seq<T>)
    ensures multiset(r) == multiset(s)
    ensures |r| == |s|
  {
    if s == [] then []
    else
      assert s == [s[0]] + s[1..];
      Insert(s[0], Sort(s[1..], leq), leq)
  }

  lemma SameElements<T>(a: seq<T>, b: seq<T>, x: T)
    requires multiset(a) == multiset(b)
    ensures x in a <==> x in b
  {
    assert x in a <==> x in multiset(a);
    assert x in b <==> x in multiset(b);
  }

  lemma {:induction false} InsertKeepsSorted<T(!new)>(x: T, s: seq<T>, leq: (T, T) -> bool)
    requires Preorder(leq) && SortedBy(s, leq)
    ensures SortedBy(Insert(x, s, leq), leq)
  {
    if s != [] && !leq(x, s[0]) {
      InsertKeepsSorted(x, s[1..], leq);
      var rest := Insert(x, s[1..], leq);
      forall j | 0 <= j < |rest| ensures leq(s[0], rest[j]) {
        assert rest[j] in multiset(rest);
        assert rest[j] in multiset(s[1..]) + multiset{x};
        assert rest[j] == x || rest[j] in s[1..];
      }
    }
  }

  lemma {:induction false} SortIsSorted<T(!new)>(s: seq<T>, leq: (T, T) -> bool)
    requires Preorder(leq)
    ensures SortedBy(Sort(s, leq), leq)
  {
    if s != [] {
      SortIsSorted(s[1..], leq);
      InsertKeepsSorted(s[0], Sort(s[1..], leq), leq);
    }
  }

  lemma FirstIsLeast<T(!new)>(a: seq<T>, leq: (T, T) -> bool, x: T)
    requires Preorder(leq) && SortedBy(a, leq) && x in a
    ensures leq(a[0], x)
  {
    var i :| 0 <= i < |a| && a[i] == x;
    assert leq(x, x);
  }

  /** Two sorted arrangements of the same elements agree when equal rank means equal. */
  lemma {:induction false} SortedIsUnique<T(!new)>(a: seq<T>, b: seq<T>, leq: (T, T) -> bool)
    requires Preorder(leq) && SortedBy(a, leq) && SortedBy(b, leq) && multiset(a) == multiset(b)
    requires forall x, y :: x in a && y in a && leq(x, y) && leq(y, x) ==> x == y
    ensures a == b
  {
    assert |multiset(a)| == |a| && |multiset(b)| == |b|;
    if a != [] {
      SameElements(b, a, b[0]);
      SameElements(a, b, a[0]);
      FirstIsLeast(a, leq, b[0]);
      FirstIsLeast(b, leq, a[0]);
      assert a[0] == b[0];
      TailsAgree(a, b);
      SortedIsUnique(a[1..], b[1..], leq);
    }
  }

  lemma TailsAgree<T>(a: seq<T>, b: seq<T>)
    requires a != [] && b != [] && a[0] == b[0] && multiset(a) == multiset(b)
    ensures multiset(a[1..]) == multiset(b[1..])
  {
    assert a == [a[0]] + a[1..] && b == [b[0]] + b[1..];
    assert multiset(a[1..]) == multiset(a) - multiset{a[0]};
    assert multiset(b[1..]) == multiset(b) - multiset{b[0]};
  }

  /** `[x for x in s if keep(x)]`. */
  function Filter<T(!new)>(s: seq<T>, keep: T -> bool): (r: seq<T>)
    ensures forall x :: x in r <==> x in s && keep(x)
    ensures |r| <= |s|
  {
    if s == [] then []
    else
      var rest := Filter(s[..|s| - 1], keep);
      assert s == s[..|s| - 1] + [s[|s| - 1]];
      if keep(s[|s| - 1]) then rest + [s[|s| - 1]] else rest
  }

  lemma {:induction false} FilterCounts<T(!new)>(s: seq<T>, keep: T -> bool, x: T)
    ensures multiset(Filter(s, keep))[x] == if keep(x) then multiset(s)[x] else 0
  {
    if s != [] {
      FilterCounts(s[..|s| - 1], keep, x);
      assert s == s[..|s| - 1] + [s[|s| - 1]];
    }
  }

  lemma FilterPermutes<T(!new)>(a: seq<T>, b: seq<T>, keep: T -> bool)
    requires multiset(a) == multiset(b)
    ensures multiset(Filter(a, keep)) == multiset(Filter(b, keep))
  {
    forall x ensures multiset(Filter(a, keep))[x] == multiset(Filter(b, keep))[x] {
      FilterCounts(a, keep, x);
      FilterCounts(b, keep, x);
    }
  }

  lemma {:induction false} FilterAppend<T(!new)>(a: seq<T>, b: seq<T>, keep: T -> bool)
    ensures Filter(a + b, keep) == Filter(a, keep) + Filter(b, keep)
  {
    if b == [] {
      assert a + b == a;
    } else {
      FilterAppend(a, b[..|b| - 1], keep);
      assert (a + b)[..|a + b| - 1] == a + b[..|b| - 1];
    }
  }

  lemma {:induction false} FilterKeepsSorted<T(!new)>(s: seq<T>, keep: T -> bool, leq: (T, T) -> bool)
    requires SortedBy(s, leq)
    ensures SortedBy(Filter(s, keep), leq)
  {
    if s != [] {
      var front, last := s[..|s| - 1], s[|s| - 1];
      FilterKeepsSorted(front, keep, leq);
      var rest := Filter(front, keep);
      forall i | 0 <= i < |rest| ensures leq(rest[i], last) {
        assert rest[i] in rest;
        var k :| 0 <= k < |front| && front[k] == rest[i];
        assert s[k] == rest[i];
      }
    }
  }

  lemma {:induction false} FilterAll<T(!new)>(s: seq<T>, keep: T -> bool)
    ensures (forall x :: x in s ==> keep(x)) ==> Filter(s, keep) == s
    ensures (forall x :: x in s ==> !keep(x)) ==> Filter(s, keep) == []
  {
    if s != [] {
      FilterAll(s[..|s| - 1], keep);
      assert s == s[..|s| - 1] + [s[|s| - 1]];
      assert s[|s| - 1] in s;
    }
  }

  /** A filter that drops nothing the next one keeps makes no difference to it. */
  lemma {:induction false} FilterSkips<T(!new)>(s: seq<T>, outer: T -> bool, inner: T -> bool)
    requires forall x :: x in s && inner(x) ==> outer(x)
    ensures Filter(Filter(s, outer), inner) == Filter(s, inner)
  {
    if s != [] {
      var front, last := s[..|s| - 1], s[|s| - 1];
      assert s == front + [last];
      FilterSkips(front, outer, inner);
    }
  }
}
