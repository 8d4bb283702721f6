/** Sequence vocabulary: first match, filtering, stable sorting, order-insensitive lists. */
module Sequences {
  import opened Wrappers

  predicate NoDuplicates<T(==)>(s: seq<T>) {
    forall i, j :: 0 <= i < j < |s| ==> s[i] != s[j]
  }

  lemma HeadTail<T>(s: seq<T>)
    requires s != []
    ensures s == [s[0]] + s[1..]
  {
  }

  lemma OneMore<T>(s: seq<T>, n: nat)
    requires n < |s|
    ensures s[..n + 1] == s[..n] + [s[n]]
  {
  }

  lemma InitLast<T>(s: seq<T>)
    requires s != []
    ensures s == s[..|s| - 1] + [s[|s| - 1]]
  {
  }

  lemma Associative<T>(a: seq<T>, b: seq<T>, c: seq<T>)
    ensures a + b + c == a + (b + c)
  {
  }

  lemma Around<T>(s: seq<T>, n: nat)
    requires n < |s|
    ensures s == s[..n] + [s[n]] + s[n + 1..]
  {
  }

  lemma RegroupBags<T>(a: multiset<T>, b: multiset<T>, c: multiset<T>)
    ensures a + (b + c) == a + b + c && a + (b + c) == b + (a + c)
  {
  }

  lemma TakeAwayBoth<T>(a: multiset<T>, b: multiset<T>, c: multiset<T>)
    ensures a - b - c == a - (b + c)
  {
  }

  /** The first match, as a query with at most one expected answer returns it. */
  function FirstIndex<T>(s: seq<T>, p: T -> bool): (r: Option<nat>)
    ensures r.Some? ==> r.value < |s| && p(s[r.value]) && forall j :: 0 <= j < r.value ==> !p(s[j])
    ensures r.None? ==> forall j :: 0 <= j < |s| ==> !p(s[j])
  {
    if s == [] then None
    else if p(s[0]) then Some(0)
    else
      var rest := FirstIndex(s[1..], p);
      assert forall j :: 1 <= j < |s| ==> s[j] == s[1..][j - 1];
      if rest.None? then None else Some(rest.value + 1)
  }

  function Filter<T(!new)>(s: seq<T>, p: T -> bool): (r: seq<T>)
    ensures |r| <= |s|
    ensures forall x :: x in r <==> x in s && p(x)
  {
    if s == [] then []
    else
      assert s == [s[0]] + s[1..];
      (if p(s[0]) then [s[0]] else []) + Filter(s[1..], p)
  }

  lemma FilterConcat<T(!new)>(a: seq<T>, b: seq<T>, p: T -> bool)
    ensures Filter(a + b, p) == Filter(a, p) + Filter(b, p)
  {
    if a == [] {
      assert a + b == b;
    } else {
      assert (a + b)[1..] == a[1..] + b;
      FilterConcat(a[1..], b, p);
    }
  }

  lemma FilterAll<T(!new)>(s: seq<T>, p: T -> bool)
    requires forall x :: x in s ==> p(x)
    ensures Filter(s, p) == s
  {
    if s != [] {
      FilterAll(s[1..], p);
    }
  }

  lemma {:induction false} FilterAlikeWithin<T(!new)>(s: seq<T>, p: T -> bool, q: T -> bool)
    requires forall x :: x in s ==> p(x) == q(x)
    ensures Filter(s, p) == Filter(s, q)
  {
    if s != [] {
      assert s[0] in s;
      FilterAlikeWithin(s[1..], p, q);
    }
  }

  lemma {:induction false} FilterKeepsDistinct<T(!new)>(s: seq<T>, p: T -> bool)
    requires NoDuplicates(s)
    ensures NoDuplicates(Filter(s, p))
  {
    if s != [] {
      assert forall i, j :: 0 <= i < j < |s[1..]| ==> s[1..][i] == s[i + 1] && s[1..][j] == s[j + 1];
      FilterKeepsDistinct(s[1..], p);
      assert s[0] !in s[1..];
    }
  }

  // ---------------------------------------------------------------- sorting

  predicate SortedBy<T>(s: seq<T>, key: T -> int) {
    forall i, j :: 0 <= i < j < |s| ==> key(s[i]) <= key(s[j])
  }

  /** Inserts before the first element whose key is not smaller. */
  function Insert<T>(x: T, s: seq<T>, key: T -> int): (r: seq<T>)
    ensures multiset(r) == multiset([x]) + multiset(s)
  {
    if s == [] || key(x) <= key(s[0]) then
      [x] + s
    else
      assert s == [s[0]] + s[1..];
      [s[0]] + Insert(x, s[1..], key)
  }

  lemma {:induction false} InsertKeepsSorted<T>(x: T, s: seq<T>, key: T -> int)
    requires SortedBy(s, key)
    ensures SortedBy(Insert(x, s, key), key)
  {
    if s != [] && key(x) > key(s[0]) {
      var tail := Insert(x, s[1..], key);
      InsertKeepsSorted(x, s[1..], key);
      forall i | 0 <= i < |tail| ensures key(s[0]) <= key(tail[i]) {
        assert tail[i] in multiset(tail);
      }
    }
  }

  /** `sorted(s, key=key)`: stable, ascending. */
  function SortBy<T>(s: seq<T>, key: T -> int): seq<T> {
    if s == [] then [] else Insert(s[0], SortBy(s[1..], key), key)
  }

  lemma {:induction false} SortByArranges<T(!new)>(s: seq<T>, key: T -> int)
    ensures multiset(SortBy(s, key)) == multiset(s)
    ensures SortedBy(SortBy(s, key), key)
    ensures |SortBy(s, key)| == |s| && forall x :: x in SortBy(s, key) <==> x in s
  {
    if s != [] {
      HeadTail(s);
      SortByArranges(s[1..], key);
      InsertKeepsSorted(s[0], SortBy(s[1..], key), key);
    }
    SameElements(SortBy(s, key), s);
  }

  lemma SameElements<T(!new)>(a: seq<T>, b: seq<T>)
    requires multiset(a) == multiset(b)
    ensures |a| == |b|
    ensures forall x :: x in a <==> x in b
  {
    assert |a| == |multiset(a)| == |multiset(b)| == |b|;
    assert forall x :: (x in a <==> x in multiset(a)) && (x in b <==> x in multiset(b));
  }

  /** The first of a sorted sequence has the least key. */
  lemma FirstIsLeast<T>(a: seq<T>, key: T -> int, x: T)
    requires SortedBy(a, key) && x in multiset(a)
    ensures a != [] && key(a[0]) <= key(x)
  {
    assert x in a;
  }

  lemma WithoutFirst<T>(a: seq<T>)
    requires a != []
    ensures multiset(a[1..]) == multiset(a) - multiset{a[0]}
  {
    assert a == [a[0]] + a[1..];
  }

  lemma SameFirst<T>(a: seq<T>, b: seq<T>, key: T -> int)
    requires multiset(a) == multiset(b) && a != [] && b != []
    requires SortedBy(a, key) && SortedBy(b, key)
    ensures a[0] in multiset(a) && b[0] in multiset(a) && key(a[0]) == key(b[0])
  {
    assert a[0] in multiset(b) && b[0] in multiset(a);
    FirstIsLeast(a, key, b[0]);
    FirstIsLeast(b, key, a[0]);
  }

  predicate KeyDecides<T(!new, ==)>(m: multiset<T>, key: T -> int) {
    forall x, y :: x in m && y in m && key(x) == key(y) ==> x == y
  }

  lemma RestDecides<T(!new)>(a: seq<T>, key: T -> int)
    requires a != [] && SortedBy(a, key) && KeyDecides(multiset(a), key)
    ensures SortedBy(a[1..], key) && KeyDecides(multiset(a[1..]), key)
  {
    WithoutFirst(a);
  }

  /** Two sorted arrangements of the same elements agree when no two elements share a key. */
  lemma {:induction false} SortedArrangementIsUnique<T(!new)>(a: seq<T>, b: seq<T>, key: T -> int)
    requires multiset(a) == multiset(b) && KeyDecides(multiset(a), key)
    requires SortedBy(a, key) && SortedBy(b, key)
    ensures a == b
    decreases |a|
  {
    SameElements(a, b);
    if a != [] {
      SameFirst(a, b, key);
      WithoutFirst(a);
      WithoutFirst(b);
      RestDecides(a, key);
      RestDecides(b, key);
      SortedArrangementIsUnique(a[1..], b[1..], key);
      HeadTail(a);
      HeadTail(b);
    }
  }

  lemma AppendKeepsDistinct<T>(s: seq<T>, x: T)
    requires NoDuplicates(s) && x !in s
    ensures NoDuplicates(s + [x])
  {
  }

  lemma DistinctMultiset<T>(s: seq<T>, x: T)
    requires NoDuplicates(s) && x in s
    ensures multiset(s)[x] == 1
  {
    var i :| 0 <= i < |s| && s[i] == x;
    assert s == s[..i] + [x] + s[i + 1..];
    assert x !in s[..i] && x !in s[i + 1..];
  }

  lemma {:induction false} NoDuplicatesByCount<T>(s: seq<T>)
    requires forall x :: x in s ==> multiset(s)[x] == 1
    ensures NoDuplicates(s)
  {
    forall i, j | 0 <= i < j < |s| && s[i] == s[j] ensures multiset(s)[s[i]] >= 2 {
      assert s == s[..i] + [s[i]] + s[i + 1..j] + [s[j]] + s[j + 1..];
    }
  }

  lemma PermutationKeepsDistinct<T(!new)>(a: seq<T>, b: seq<T>)
    requires multiset(a) == multiset(b) && NoDuplicates(a)
    ensures NoDuplicates(b)
  {
    forall x | x in b ensures multiset(b)[x] == 1 {
      assert x in multiset(b);
      DistinctMultiset(a, x);
    }
    NoDuplicatesByCount(b);
  }

  lemma SortKeepsDistinct<T(!new)>(s: seq<T>, key: T -> int)
    requires NoDuplicates(s)
    ensures NoDuplicates(SortBy(s, key))
  {
    SortByArranges(s, key);
    PermutationKeepsDistinct(s, SortBy(s, key));
  }

  function Elements<T(!new)>(s: seq<T>): set<T> {
    set x | x in s
  }

  /** A list without repeats has as many elements as the set of them. */
  lemma {:induction false} DistinctLength<T(!new)>(s: seq<T>)
    requires NoDuplicates(s)
    ensures |s| == |Elements(s)|
  {
    if s == [] {
      assert Elements(s) == {};
    } else {
      var rest, last := s[..|s| - 1], s[|s| - 1];
      DistinctLength(rest);
      assert Elements(s) == Elements(rest) + {last};
      assert last !in Elements(rest);
    }
  }
}
