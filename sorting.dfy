/** `Array.prototype.sort` with a comparator that compares one string field
    of each element, as a stable sort (ECMAScript 2019 and later require
    stability). Insertion sort is the reference definition; the lemmas show
    that it is sorted, a permutation, stable, and the only sequence with
    those three properties, so any conforming sort yields the same result. */
module Sorting {
  import opened Text
  import opened Collections

  /** s is non-decreasing by key. */
  predicate Sorted<T>(s: seq<T>, key: T -> string)
  {
    forall i, j :: 0 <= i < j < |s| ==> Leq(key(s[i]), key(s[j]))
  }

  /** Places x before the first element whose key is not below x's, so x
      goes ahead of every element with the same key. */
  function Insert<T>(x: T, s: seq<T>, key: T -> string): (r: seq<T>)
    ensures |r| == |s| + 1
    ensures multiset(r) == multiset(s) + multiset{x}
  {
    if s == [] || Leq(key(x), key(s[0])) then [x] + s
    else
      assert s == [s[0]] + s[1..];
      [s[0]] + Insert(x, s[1..], key)
  }

  /** Stable sort by key: each element is inserted ahead of the equal-keyed
      elements that came after it in the input. */
  function SortBy<T>(s: seq<T>, key: T -> string): (r: seq<T>)
    ensures |r| == |s|
  {
    if s == [] then [] else Insert(s[0], SortBy(s[1..], key), key)
  }

  /** The result is ordered by key and is a rearrangement of the input. */
  lemma {:induction false} SortByIsSortedPermutation<T(!new)>(s: seq<T>, key: T -> string)
    ensures Sorted(SortBy(s, key), key)
    ensures multiset(SortBy(s, key)) == multiset(s)
    decreases |s|
  {
    if s != [] {
      SortByIsSortedPermutation(s[1..], key);
      InsertSorted(s[0], SortBy(s[1..], key), key);
      assert s == [s[0]] + s[1..];
    }
  }

  lemma {:induction false} InsertSorted<T(!new)>(x: T, s: seq<T>, key: T -> string)
    requires Sorted(s, key)
    ensures Sorted(Insert(x, s, key), key)
    decreases |s|
  {
    var r := Insert(x, s, key);
    if s == [] {
    } else if Leq(key(x), key(s[0])) {
      forall j | 1 <= j < |r| ensures Leq(key(x), key(r[j])) {
        if j > 1 {
          LeqTransitive(key(x), key(s[0]), key(s[j - 1]));
        }
      }
    } else {
      LeqTotal(key(x), key(s[0]));
      var tail := Insert(x, s[1..], key);
      assert Sorted(s[1..], key) by {
        forall i, j | 0 <= i < j < |s| - 1 ensures Leq(key(s[1..][i]), key(s[1..][j])) {
          assert s[1..][i] == s[i + 1] && s[1..][j] == s[j + 1];
        }
      }
      InsertSorted(x, s[1..], key);
      forall j | 0 <= j < |tail| ensures Leq(key(s[0]), key(tail[j])) {
        assert tail[j] in multiset(tail);
        if tail[j] != x {
          assert tail[j] in s[1..];
          var m :| 0 <= m < |s| - 1 && s[1..][m] == tail[j];
          assert s[m + 1] == tail[j];
        }
      }
      assert r == [s[0]] + tail;
    }
  }

  /** The elements of s whose key is k, in their order in s. */
  function WithKey<T>(s: seq<T>, key: T -> string, k: string): seq<T>
  {
    if s == [] then [] else (if key(s[0]) == k then [s[0]] else []) + WithKey(s[1..], key, k)
  }

  lemma WithKeyCons<T(!new)>(x: T, s: seq<T>, key: T -> string, k: string)
    ensures WithKey([x] + s, key, k) == (if key(x) == k then [x] else []) + WithKey(s, key, k)
  {
    assert ([x] + s)[1..] == s;
  }

  /** The first element with key k, if any, is an element of s. */
  lemma {:induction false} WithKeyHead<T(!new)>(s: seq<T>, key: T -> string, k: string)
    requires WithKey(s, key, k) != []
    ensures exists j :: 0 <= j < |s| && s[j] == WithKey(s, key, k)[0] && key(s[j]) == k
    decreases |s|
  {
    if key(s[0]) != k {
      WithKeyHead(s[1..], key, k);
      var j :| 0 <= j < |s| - 1 && s[1..][j] == WithKey(s[1..], key, k)[0] && key(s[1..][j]) == k;
      assert s[j + 1] == s[1..][j];
    }
  }

  /** Inserting x has, for every key, the effect of putting x in front. */
  lemma {:induction false} InsertStable<T(!new)>(x: T, s: seq<T>, key: T -> string, k: string)
    ensures WithKey(Insert(x, s, key), key, k) == WithKey([x] + s, key, k)
    decreases |s|
  {
    if s != [] && !Leq(key(x), key(s[0])) {
      var y, t := s[0], s[1..];
      LeqReflexive(key(x));
      assert key(y) != key(x);
      assert Insert(x, s, key) == [y] + Insert(x, t, key);
      assert s == [y] + t;
      var X := if key(x) == k then [x] else [];
      var Y := if key(y) == k then [y] else [];
      calc {
        WithKey(Insert(x, s, key), key, k);
        { WithKeyCons(y, Insert(x, t, key), key, k); }
        Y + WithKey(Insert(x, t, key), key, k);
        { InsertStable(x, t, key, k); WithKeyCons(x, t, key, k); }
        Y + (X + WithKey(t, key, k));
        X + (Y + WithKey(t, key, k));
        { WithKeyCons(y, t, key, k); }
        X + WithKey(s, key, k);
        { WithKeyCons(x, s, key, k); }
        WithKey([x] + s, key, k);
      }
    }
  }

  /** Stability: elements with equal keys keep their relative input order. */
  lemma {:induction false} SortStable<T(!new)>(s: seq<T>, key: T -> string, k: string)
    ensures WithKey(SortBy(s, key), key, k) == WithKey(s, key, k)
    decreases |s|
  {
    if s != [] {
      var rest := SortBy(s[1..], key);
      SortStable(s[1..], key, k);
      InsertStable(s[0], rest, key, k);
      WithKeyCons(s[0], rest, key, k);
      assert s == [s[0]] + s[1..];
      WithKeyCons(s[0], s[1..], key, k);
    }
  }

  lemma SortedTail<T(!new)>(s: seq<T>, key: T -> string)
    requires s != [] && Sorted(s, key)
    ensures Sorted(s[1..], key)
  {
    forall i, j | 0 <= i < j < |s| - 1 ensures Leq(key(s[1..][i]), key(s[1..][j])) {
      assert s[1..][i] == s[i + 1] && s[1..][j] == s[j + 1];
    }
  }

  /** Sorting an already sorted sequence changes nothing. */
  lemma {:induction false} SortSortedIsIdentity<T(!new)>(s: seq<T>, key: T -> string)
    requires Sorted(s, key)
    ensures SortBy(s, key) == s
    decreases |s|
  {
    if s != [] {
      SortedTail(s, key);
      SortSortedIsIdentity(s[1..], key);
      if |s| > 1 {
        assert Leq(key(s[0]), key(s[1]));
      }
      assert s == [s[0]] + s[1..];
    }
  }

  /** Two sorted sequences that agree, key by key, on their subsequences are
      equal. */
  lemma {:induction false} SortedAgreeingEqual<T(!new)>(r1: seq<T>, r2: seq<T>, key: T -> string)
    requires Sorted(r1, key) && Sorted(r2, key)
    requires forall k :: WithKey(r1, key, k) == WithKey(r2, key, k)
    ensures r1 == r2
    decreases |r1| + |r2|
  {
    if r1 == [] || r2 == [] {
      if r1 != [] {
        assert r1 == [r1[0]] + r1[1..];
        WithKeyCons(r1[0], r1[1..], key, key(r1[0]));
        assert false;
      } else if r2 != [] {
        assert r2 == [r2[0]] + r2[1..];
        WithKeyCons(r2[0], r2[1..], key, key(r2[0]));
        assert false;
      }
    } else {
      var a, b := r1[0], r2[0];
      assert r1 == [a] + r1[1..] && r2 == [b] + r2[1..];
      // a's key occurs in r2, so b's key is not above it; and vice versa.
      WithKeyCons(a, r1[1..], key, key(a));
      WithKeyCons(b, r2[1..], key, key(a));
      WithKeyCons(b, r2[1..], key, key(b));
      WithKeyCons(a, r1[1..], key, key(b));
      assert Leq(key(b), key(a)) by {
        WithKeyHead(r2, key, key(a));
        var j :| 0 <= j < |r2| && key(r2[j]) == key(a);
        LeqReflexive(key(b));
      }
      assert Leq(key(a), key(b)) by {
        WithKeyHead(r1, key, key(b));
        var j :| 0 <= j < |r1| && key(r1[j]) == key(b);
        LeqReflexive(key(a));
      }
      LeqAntisymmetric(key(a), key(b));
      assert WithKey(r1, key, key(a)) == WithKey(r2, key, key(a));
      assert a == b by {
        assert ([a] + WithKey(r1[1..], key, key(a)))[0] == a;
        assert ([b] + WithKey(r2[1..], key, key(a)))[0] == b;
      }
      forall k ensures WithKey(r1[1..], key, k) == WithKey(r2[1..], key, k) {
        WithKeyCons(a, r1[1..], key, k);
        WithKeyCons(b, r2[1..], key, k);
        assert WithKey(r1, key, k) == WithKey(r2, key, k);
        var A := if key(a) == k then [a] else [];
        assert (A + WithKey(r1[1..], key, k))[|A|..] == WithKey(r1[1..], key, k);
        assert (A + WithKey(r2[1..], key, k))[|A|..] == WithKey(r2[1..], key, k);
      }
      SortedTail(r1, key);
      SortedTail(r2, key);
      SortedAgreeingEqual(r1[1..], r2[1..], key);
    }
  }

  /** Any sorted sequence that keeps each key's elements in input order is
      the insertion sort's result: the reference definition pins down every
      stable sort. */
  lemma StableSortIsUnique<T(!new)>(s: seq<T>, r: seq<T>, key: T -> string)
    requires Sorted(r, key)
    requires forall k :: WithKey(r, key, k) == WithKey(s, key, k)
    ensures r == SortBy(s, key)
  {
    forall k ensures WithKey(r, key, k) == WithKey(SortBy(s, key), key, k) {
      SortStable(s, key, k);
    }
    SortByIsSortedPermutation(s, key);
    SortedAgreeingEqual(r, SortBy(s, key), key);
  }
}
