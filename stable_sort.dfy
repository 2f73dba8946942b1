/** What Python's `list.sort(key=..., reverse=True)` promises: the list ends up ordered by key,
    largest first, and items with equal keys keep their original relative order (the sort is stable,
    also in reverse mode). `SortByKeyDesc` is a reference definition (an insertion sort); the lemma
    `StableSortUnique` shows that any ordering with these two properties is that one. */
module StableSort {
  import Seqs

  /** Keys never increase from left to right. */
  predicate SortedDesc<T>(s: seq<T>, key: T -> real)
  {
    forall i, j :: 0 <= i < j < |s| ==> key(s[i]) >= key(s[j])
  }

  function KeyIs<T>(key: T -> real, k: real): T -> bool
  {
    x => key(x) == k
  }

  /** The items of `s` whose key is `k`, in their order in `s`. */
  function WithKey<T>(s: seq<T>, key: T -> real, k: real): seq<T>
  {
    Seqs.Filter(s, KeyIs(key, k))
  }

  /** Places `x` after every item of `t` whose key is at least `x`'s key. */
  function Insert<T>(t: seq<T>, x: T, key: T -> real): (r: seq<T>)
    ensures |r| == |t| + 1
  {
    if t == [] || key(t[|t| - 1]) >= key(x) then t + [x]
    else Insert(t[..|t| - 1], x, key) + [t[|t| - 1]]
  }

  lemma {:induction false} InsertMultiset<T>(t: seq<T>, x: T, key: T -> real)
    ensures multiset(Insert(t, x, key)) == multiset(t) + multiset{x}
  {
    if !(t == [] || key(t[|t| - 1]) >= key(x)) {
      var t' := t[..|t| - 1];
      InsertMultiset(t', x, key);
      assert t == t' + [t[|t| - 1]];
    }
  }

  lemma {:induction false} InsertSorted<T>(t: seq<T>, x: T, key: T -> real)
    requires SortedDesc(t, key)
    ensures SortedDesc(Insert(t, x, key), key)
  {
    if !(t == [] || key(t[|t| - 1]) >= key(x)) {
      var t', last := t[..|t| - 1], t[|t| - 1];
      InsertSorted(t', x, key);
      var u := Insert(t', x, key);
      InsertMultiset(t', x, key);
      forall i | 0 <= i < |u| ensures key(u[i]) >= key(last) {
        assert u[i] in multiset(u);
        if u[i] != x {
          assert u[i] in multiset(t');
          var j :| 0 <= j < |t'| && t'[j] == u[i];
          assert t[j] == u[i];
        }
      }
    }
  }

  /** Inserting `x` appends it to the run of items with its key and leaves every other run alone. */
  lemma {:induction false} InsertWithKey<T>(t: seq<T>, x: T, key: T -> real, k: real)
    ensures WithKey(Insert(t, x, key), key, k) == WithKey(t, key, k) + (if key(x) == k then [x] else [])
  {
    if t == [] || key(t[|t| - 1]) >= key(x) {
      assert (t + [x])[..|t|] == t;
    } else {
      var t', last := t[..|t| - 1], t[|t| - 1];
      InsertWithKey(t', x, key, k);
      var u := Insert(t', x, key);
      assert (u + [last])[..|u|] == u;
    }
  }

  /** The stable descending sort of `s`. */
  function SortByKeyDesc<T>(s: seq<T>, key: T -> real): (r: seq<T>)
    ensures |r| == |s|
    ensures SortedDesc(r, key)
    ensures multiset(r) == multiset(s)
    ensures forall k :: WithKey(r, key, k) == WithKey(s, key, k)
  {
    if s == [] then []
    else
      var s', x := s[..|s| - 1], s[|s| - 1];
      var t := SortByKeyDesc(s', key);
      InsertSorted(t, x, key);
      InsertMultiset(t, x, key);
      assert s == s' + [x];
      forall k ensures WithKey(Insert(t, x, key), key, k) == WithKey(s, key, k) {
        InsertWithKey(t, x, key, k);
      }
      Insert(t, x, key)
  }

  /** The position at which `Insert` places `x`. */
  function InsertIndex<T>(t: seq<T>, x: T, key: T -> real): (j: nat)
    ensures j <= |t|
  {
    if t == [] || key(t[|t| - 1]) >= key(x) then |t| else InsertIndex(t[..|t| - 1], x, key)
  }

  /** `Insert` puts `x` after a prefix that ends with an item whose key is at least `x`'s, and
      before a suffix whose keys are all smaller than `x`'s. */
  lemma {:induction false} InsertPlacement<T>(t: seq<T>, x: T, key: T -> real)
    ensures var j := InsertIndex(t, x, key);
      && Insert(t, x, key) == t[..j] + [x] + t[j..]
      && (j > 0 ==> key(t[j - 1]) >= key(x))
      && (forall i :: j <= i < |t| ==> key(t[i]) < key(x))
  {
    if t == [] || key(t[|t| - 1]) >= key(x) {
      assert t[..|t|] == t && t[|t|..] == [];
    } else {
      var t', last := t[..|t| - 1], t[|t| - 1];
      InsertPlacement(t', x, key);
      var j := InsertIndex(t', x, key);
      assert t[..j] == t'[..j];
      assert t[j..] == t'[j..] + [last];
      forall i | j <= i < |t| ensures key(t[i]) < key(x) {
        if i < |t'| { assert t[i] == t'[i]; }
      }
    }
  }

  /** Sorting one more item inserts it into the sorted order of the others. */
  lemma SortSnoc<T>(s: seq<T>, x: T, key: T -> real)
    ensures SortByKeyDesc(s + [x], key) == Insert(SortByKeyDesc(s, key), x, key)
  {
    assert (s + [x])[..|s|] == s;
  }

  /** In a sorted sequence every item before the insertion point has a key at least `x`'s. */
  lemma InsertPrefixKeys<T>(t: seq<T>, x: T, key: T -> real)
    requires SortedDesc(t, key)
    ensures forall i :: 0 <= i < InsertIndex(t, x, key) ==> key(t[i]) >= key(x)
  {
    InsertPlacement(t, x, key);
    var j := InsertIndex(t, x, key);
    forall i | 0 <= i < j ensures key(t[i]) >= key(x) {
      assert key(t[i]) >= key(t[j - 1]);
    }
  }

  /** The stable sort of `s + [x]` places `x` after every item of the sorted `s` whose key is at
      least its own, and before every item whose key is smaller. */
  lemma SortSnocPlacement<T>(s: seq<T>, x: T, key: T -> real)
    ensures var t := SortByKeyDesc(s, key);
      var j := InsertIndex(t, x, key);
      && SortByKeyDesc(s + [x], key) == t[..j] + [x] + t[j..]
      && (forall i :: 0 <= i < j ==> key(t[i]) >= key(x))
      && (forall i :: j <= i < |t| ==> key(t[i]) < key(x))
  {
    SortSnoc(s, x, key);
    var t := SortByKeyDesc(s, key);
    InsertPlacement(t, x, key);
    InsertPrefixKeys(t, x, key);
  }

  lemma WithKeyContains<T>(s: seq<T>, key: T -> real, i: int)
    requires 0 <= i < |s|
    ensures s[i] in WithKey(s, key, key(s[i]))
  {
    Seqs.FilterKeepsQualifying(s, KeyIs(key, key(s[i])), i);
  }

  /** Removing the last item removes it from its own run only. */
  lemma WithKeyLast<T>(s: seq<T>, key: T -> real, k: real)
    requires s != []
    ensures WithKey(s, key, k) == WithKey(s[..|s| - 1], key, k) + (if key(s[|s| - 1]) == k then [s[|s| - 1]] else [])
  {
  }

  /** An item of `b` bounds the key of `b`'s last item when `b` is sorted. */
  lemma LastKeyIsLeast<T>(b: seq<T>, key: T -> real, x: T)
    requires SortedDesc(b, key) && x in b
    ensures key(b[|b| - 1]) <= key(x)
  {
    var i :| 0 <= i < |b| && b[i] == x;
  }

  /** Two sorted orderings with the same runs end with the same item. */
  lemma SameLast<T>(a: seq<T>, b: seq<T>, key: T -> real)
    requires a != [] && b != []
    requires SortedDesc(a, key) && SortedDesc(b, key)
    requires WithKey(a, key, key(a[|a| - 1])) == WithKey(b, key, key(a[|a| - 1]))
    requires WithKey(a, key, key(b[|b| - 1])) == WithKey(b, key, key(b[|b| - 1]))
    ensures a[|a| - 1] == b[|b| - 1]
  {
    var x, y := a[|a| - 1], b[|b| - 1];
    WithKeyContains(a, key, |a| - 1);
    WithKeyContains(b, key, |b| - 1);
    LastKeyIsLeast(b, key, x);
    LastKeyIsLeast(a, key, y);
    var m := key(x);
    WithKeyLast(a, key, m);
    WithKeyLast(b, key, m);
    var fa, fb := WithKey(a[..|a| - 1], key, m), WithKey(b[..|b| - 1], key, m);
    assert fa + [x] == fb + [y];
    assert (fa + [x])[|fa|] == x;
  }

  /** Two sorted orderings with the same runs, with their common last item removed, still have the same runs. */
  lemma SameRunsWithoutLast<T>(a: seq<T>, b: seq<T>, key: T -> real, k: real)
    requires a != [] && b != [] && a[|a| - 1] == b[|b| - 1]
    requires WithKey(a, key, k) == WithKey(b, key, k)
    ensures WithKey(a[..|a| - 1], key, k) == WithKey(b[..|b| - 1], key, k)
  {
    var x := a[|a| - 1];
    WithKeyLast(a, key, k);
    WithKeyLast(b, key, k);
    if key(x) == k {
      var fa, fb := WithKey(a[..|a| - 1], key, k), WithKey(b[..|b| - 1], key, k);
      assert fa + [x] == fb + [x];
      assert (fa + [x])[..|fa|] == fa;
      assert (fb + [x])[..|fb|] == fb;
    } else {
      assert WithKey(a[..|a| - 1], key, k) + [] == WithKey(a[..|a| - 1], key, k);
      assert WithKey(b[..|b| - 1], key, k) + [] == WithKey(b[..|b| - 1], key, k);
    }
  }

  /** A sorted ordering that keeps every run of equal keys in input order is unique, so whatever
      algorithm the library uses, its result is `SortByKeyDesc`. */
  lemma {:induction false} StableSortUnique<T>(a: seq<T>, b: seq<T>, key: T -> real)
    requires SortedDesc(a, key) && SortedDesc(b, key)
    requires forall k :: WithKey(a, key, k) == WithKey(b, key, k)
    ensures a == b
    decreases |a| + |b|
  {
    if a == [] || b == [] {
      if a != [] {
        WithKeyContains(a, key, 0);
      } else if b != [] {
        WithKeyContains(b, key, 0);
      }
    } else {
      SameLast(a, b, key);
      var a', b' := a[..|a| - 1], b[..|b| - 1];
      forall k ensures WithKey(a', key, k) == WithKey(b', key, k) {
        SameRunsWithoutLast(a, b, key, k);
      }
      StableSortUnique(a', b', key);
      assert a == a' + [a[|a| - 1]] && b == b' + [b[|b| - 1]];
    }
  }

  /** Python's stable reverse sort yields exactly `SortByKeyDesc`. */
  lemma StableSortIsSortByKeyDesc<T>(s: seq<T>, r: seq<T>, key: T -> real)
    requires SortedDesc(r, key)
    requires forall k :: WithKey(r, key, k) == WithKey(s, key, k)
    ensures r == SortByKeyDesc(s, key)
  {
    var t := SortByKeyDesc(s, key);
    StableSortUnique(r, t, key);
  }
}
