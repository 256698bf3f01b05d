/** `stream().sorted(comparator)` for the comparators the services build: a
    comparison of one integer key, optionally `reversed()`. The stream sort
    is stable, so elements with equal keys keep their order in the input,
    also under a reversed comparator (`SortByStable`). */
module Sorting {

  /** Whether key `a` may precede key `b`. */
  predicate InOrder(a: int, b: int, descending: bool) {
    if descending then a >= b else a <= b
  }

  predicate SortedBy<T>(s: seq<T>, key: T -> int, descending: bool) {
    forall i, j :: 0 <= i < j < |s| ==> InOrder(key(s[i]), key(s[j]), descending)
  }

  /** A first element that may precede every other keeps a sorted list sorted. */
  lemma ConsSorted<T>(h: T, s: seq<T>, key: T -> int, descending: bool)
    requires SortedBy(s, key, descending)
    requires forall j :: 0 <= j < |s| ==> InOrder(key(h), key(s[j]), descending)
    ensures SortedBy([h] + s, key, descending)
  {
    var r := [h] + s;
    forall i, j | 0 <= i < j < |r|
      ensures InOrder(key(r[i]), key(r[j]), descending)
    {
      assert r[j] == s[j - 1];
      if i > 0 {
        assert r[i] == s[i - 1];
      }
    }
  }

  /** Every element of a list whose multiset is that of `s` plus `x`, past an
      `h` that may precede `x` and all of `s`, may follow `h`. */
  lemma AllFollow<T>(h: T, x: T, s: seq<T>, rest: seq<T>, key: T -> int, descending: bool)
    requires multiset(rest) == multiset(s) + multiset{x}
    requires InOrder(key(h), key(x), descending)
    requires forall j :: 0 <= j < |s| ==> InOrder(key(h), key(s[j]), descending)
    ensures forall j :: 0 <= j < |rest| ==> InOrder(key(h), key(rest[j]), descending)
  {
    forall j | 0 <= j < |rest|
      ensures InOrder(key(h), key(rest[j]), descending)
    {
      assert rest[j] in multiset(rest);
      if rest[j] != x {
        assert rest[j] in multiset(s);
        var m :| 0 <= m < |s| && s[m] == rest[j];
      }
    }
  }

  /** An `x` that must precede the first element of a sorted list may go
      in front of all of it. */
  lemma InsertFront<T>(x: T, s: seq<T>, key: T -> int, descending: bool)
    requires SortedBy(s, key, descending)
    requires s == [] || !InOrder(key(s[0]), key(x), descending)
    ensures SortedBy([x] + s, key, descending)
  {
    assert forall j :: 0 <= j < |s| ==> InOrder(key(x), key(s[j]), descending) by {
      if s != [] {
        assert forall j :: 0 < j < |s| ==> InOrder(key(s[0]), key(s[j]), descending);
      }
    }
    ConsSorted(x, s, key, descending);
  }

  lemma TailSorted<T>(s: seq<T>, key: T -> int, descending: bool)
    requires s != [] && SortedBy(s, key, descending)
    ensures SortedBy(s[1..], key, descending)
    ensures forall j :: 0 <= j < |s[1..]| ==> InOrder(key(s[0]), key(s[1..][j]), descending)
  {
    assert forall i :: 0 <= i < |s[1..]| ==> s[1..][i] == s[i + 1];
  }

  /** The first element of a sorted list, when it may precede `x`, may stay
      in front of `x` inserted into the rest. */
  lemma InsertBehind<T>(x: T, s: seq<T>, rest: seq<T>, key: T -> int, descending: bool)
    requires s != [] && SortedBy(s, key, descending) && InOrder(key(s[0]), key(x), descending)
    requires multiset(rest) == multiset(s[1..]) + multiset{x} && SortedBy(rest, key, descending)
    ensures SortedBy([s[0]] + rest, key, descending)
    ensures multiset([s[0]] + rest) == multiset(s) + multiset{x}
  {
    TailSorted(s, key, descending);
    AllFollow(s[0], x, s[1..], rest, key, descending);
    ConsSorted(s[0], rest, key, descending);
    assert s == [s[0]] + s[1..];
  }

  /** Puts `x` after every element that may precede it, which keeps equal
      keys in their arrival order. */
  function Insert<T>(x: T, s: seq<T>, key: T -> int, descending: bool): (r: seq<T>)
    requires SortedBy(s, key, descending)
    ensures multiset(r) == multiset(s) + multiset{x} && |r| == |s| + 1
    ensures SortedBy(r, key, descending)
  {
    if s == [] || !InOrder(key(s[0]), key(x), descending) then
      InsertFront(x, s, key, descending);
      [x] + s
    else
      RestSorted(s, key, descending);
      var rest := Insert(x, s[1..], key, descending);
      InsertBehind(x, s, rest, key, descending);
      [s[0]] + rest
  }

  /** The stable sort by `key`, ascending or descending. */
  function SortBy<T>(s: seq<T>, key: T -> int, descending: bool): (r: seq<T>)
    ensures multiset(r) == multiset(s) && |r| == |s|
    ensures SortedBy(r, key, descending)
    decreases |s|
  {
    if s == [] then []
    else
      assert s == s[..|s| - 1] + [s[|s| - 1]];
      Insert(s[|s| - 1], SortBy(s[..|s| - 1], key, descending), key, descending)
  }

  /** Inserting an element that may follow every element appends it. */
  lemma {:induction false} InsertLast<T>(x: T, s: seq<T>, key: T -> int, descending: bool)
    requires SortedBy(s, key, descending)
    requires forall j :: 0 <= j < |s| ==> InOrder(key(s[j]), key(x), descending)
    ensures Insert(x, s, key, descending) == s + [x]
    decreases |s|
  {
    if s != [] {
      InsertLast(x, s[1..], key, descending);
      assert [s[0]] + (s[1..] + [x]) == s + [x];
    }
  }

  lemma PrefixSorted<T>(s: seq<T>, n: nat, key: T -> int, descending: bool)
    requires SortedBy(s, key, descending) && n <= |s|
    ensures SortedBy(s[..n], key, descending)
  {
    assert forall i :: 0 <= i < n ==> s[..n][i] == s[i];
  }

  /** A sorted list is its sorted front and a last element that may follow
      all of it. */
  lemma SortedSplit<T>(s: seq<T>, init: seq<T>, last: T, key: T -> int, descending: bool)
    requires s == init + [last] && SortedBy(s, key, descending)
    ensures SortedBy(init, key, descending)
    ensures forall j :: 0 <= j < |init| ==> InOrder(key(init[j]), key(last), descending)
  {
    assert forall j :: 0 <= j < |init| ==> init[j] == s[j];
    assert s[|init|] == last;
    assert init == s[..|init|];
    PrefixSorted(s, |init|, key, descending);
  }

  lemma InitLast<T>(s: seq<T>)
    requires s != []
    ensures s[..|s| - 1] + [s[|s| - 1]] == s
  {
  }

  /** The sort inserts the last element into the sorted rest. */
  lemma SortBySnoc<T>(s: seq<T>, key: T -> int, descending: bool)
    requires s != []
    ensures SortBy(s, key, descending) == Insert(s[|s| - 1], SortBy(s[..|s| - 1], key, descending), key, descending)
  {
  }

  /** Sorting what is already in order changes nothing: the sort never
      swaps elements with equal keys. */
  lemma {:induction false} SortSortedIsIdentity<T>(s: seq<T>, key: T -> int, descending: bool)
    requires SortedBy(s, key, descending)
    ensures SortBy(s, key, descending) == s
    decreases |s|
  {
    if s != [] {
      var init, last := s[..|s| - 1], s[|s| - 1];
      InitLast(s);
      SortedSplit(s, init, last, key, descending);
      SortSortedIsIdentity(init, key, descending);
      InsertLast(last, init, key, descending);
      SortBySnoc(s, key, descending);
    }
  }

  /** Under a reversed comparator equal keys still keep their input order, so
      a descending sort is not the reverse of the ascending one: two elements
      with the same key come out in the same order either way. */
  lemma TiesKeepOrderBothWays<T>(a: T, b: T, key: T -> int)
    requires key(a) == key(b) && a != b
    ensures SortBy([a, b], key, false) == [a, b] == SortBy([a, b], key, true)
    ensures SortBy([a, b], key, true) != SortBy([a, b], key, false)[1..] + [a]
  {
    assert SortedBy([a, b], key, false) && SortedBy([a, b], key, true);
    SortSortedIsIdentity([a, b], key, false);
    SortSortedIsIdentity([a, b], key, true);
    assert [a, b][1..] + [a] == [b, a];
    assert [b, a][0] != [a, b][0];
  }

  /** The elements of `s` whose key is `k`, in the order of `s`. */
  function WithKey<T>(s: seq<T>, key: T -> int, k: int): seq<T> {
    if s == [] then []
    else (if key(s[0]) == k then [s[0]] else []) + WithKey(s[1..], key, k)
  }

  /** A list with no element of key `k` has none to give. */
  lemma {:induction false} WithKeyNone<T>(s: seq<T>, key: T -> int, k: int)
    requires forall j :: 0 <= j < |s| ==> key(s[j]) != k
    ensures WithKey(s, key, k) == []
    decreases |s|
  {
    if s != [] {
      assert forall j :: 0 <= j < |s[1..]| ==> s[1..][j] == s[j + 1];
      WithKeyNone(s[1..], key, k);
    }
  }

  lemma {:induction false} WithKeyAppend<T>(a: seq<T>, b: seq<T>, key: T -> int, k: int)
    ensures WithKey(a + b, key, k) == WithKey(a, key, k) + WithKey(b, key, k)
    decreases |a|
  {
    if a == [] {
      assert a + b == b;
    } else {
      var h := if key(a[0]) == k then [a[0]] else [];
      assert (a + b)[0] == a[0] && (a + b)[1..] == a[1..] + b;
      WithKeyAppend(a[1..], b, key, k);
      assert WithKey(a + b, key, k) == h + WithKey(a[1..] + b, key, k);
    }
  }

  lemma ConsWithKey<T>(h: T, t: seq<T>, key: T -> int, k: int)
    ensures WithKey([h] + t, key, k) == (if key(h) == k then [h] else []) + WithKey(t, key, k)
  {
    assert ([h] + t)[0] == h && ([h] + t)[1..] == t;
  }

  lemma RestSorted<T>(s: seq<T>, key: T -> int, descending: bool)
    requires s != [] && SortedBy(s, key, descending)
    ensures SortedBy(s[1..], key, descending)
  {
    TailSorted(s, key, descending);
  }

  /** An `x` that goes in front of a sorted list shares its key with none of it. */
  lemma InsertFrontWithKey<T>(x: T, s: seq<T>, key: T -> int, descending: bool, k: int)
    requires SortedBy(s, key, descending)
    requires s == [] || !InOrder(key(s[0]), key(x), descending)
    ensures WithKey([x] + s, key, k) == WithKey(s, key, k) + (if key(x) == k then [x] else [])
  {
    assert ([x] + s)[0] == x && ([x] + s)[1..] == s;
    if key(x) == k {
      forall j | 0 <= j < |s|
        ensures key(s[j]) != k
      {
        if j > 0 {
          assert InOrder(key(s[0]), key(s[j]), descending);
        }
      }
      WithKeyNone(s, key, k);
    }
  }

  /** Inserting `x` into a sorted list adds it behind every element with its
      key. */
  lemma {:induction false} InsertWithKey<T>(x: T, s: seq<T>, key: T -> int, descending: bool, k: int)
    requires SortedBy(s, key, descending)
    ensures WithKey(Insert(x, s, key, descending), key, k) ==
            WithKey(s, key, k) + (if key(x) == k then [x] else [])
    decreases |s|
  {
    if s == [] || !InOrder(key(s[0]), key(x), descending) {
      InsertFrontWithKey(x, s, key, descending, k);
    } else {
      RestSorted(s, key, descending);
      var rest := Insert(x, s[1..], key, descending);
      assert Insert(x, s, key, descending) == [s[0]] + rest;
      InsertWithKey(x, s[1..], key, descending, k);
      ConsWithKey(s[0], rest, key, k);
    }
  }

  /** The sort is stable: for every key, the elements with that key come out
      in the order they went in, in either direction. */
  lemma {:induction false} SortByStable<T>(s: seq<T>, key: T -> int, descending: bool, k: int)
    ensures WithKey(SortBy(s, key, descending), key, k) == WithKey(s, key, k)
    decreases |s|
  {
    if s != [] {
      var init, last := s[..|s| - 1], s[|s| - 1];
      InitLast(s);
      SortBySnoc(s, key, descending);
      SortByStable(init, key, descending, k);
      InsertWithKey(last, SortBy(init, key, descending), key, descending, k);
      WithKeyAppend(init, [last], key, k);
      assert [last][1..] == [];
    }
  }

  /** `SortByStable` for every key at once. */
  lemma SortByKeepsTies<T>(s: seq<T>, key: T -> int, descending: bool)
    ensures forall k :: WithKey(SortBy(s, key, descending), key, k) == WithKey(s, key, k)
  {
    forall k {
      SortByStable(s, key, descending, k);
    }
  }

  /** The elements with one key in a prefix of a list are the first of those
      in the whole list. */
  lemma WithKeyPrefix<T>(s: seq<T>, n: nat, key: T -> int, k: int)
    requires n <= |s|
    ensures var p := WithKey(s[..n], key, k); var w := WithKey(s, key, k);
      |p| <= |w| && p == w[..|p|]
  {
    assert s == s[..n] + s[n..];
    WithKeyAppend(s[..n], s[n..], key, k);
  }

  /** A slice of a sorted list is sorted and takes nothing the list lacks. */
  lemma SliceOfSorted<T>(s: seq<T>, lo: nat, hi: nat, key: T -> int, descending: bool)
    requires lo <= hi <= |s| && SortedBy(s, key, descending)
    ensures SortedBy(s[lo..hi], key, descending)
    ensures multiset(s[lo..hi]) <= multiset(s)
  {
    var c := s[lo..hi];
    assert forall i :: 0 <= i < |c| ==> c[i] == s[lo + i];
    assert s == s[..lo] + c + s[hi..];
    assert multiset(s) == multiset(s[..lo]) + multiset(c) + multiset(s[hi..]);
  }
}
