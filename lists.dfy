/**
  The array operations the pages build their lists with: `filter`, the
  duplicate-free list `[...new Set(xs)]`, and the stable `sort` that every
  current JavaScript engine implements, specified by key.
*/
module Lists {

  /** `a` is what remains of `b` after deleting some of its elements. */
  predicate Subseq<T(==)>(a: seq<T>, b: seq<T>)
    decreases |b|
  {
    if a == [] then true
    else if b == [] then false
    else (a[|a| - 1] == b[|b| - 1] && Subseq(a[..|a| - 1], b[..|b| - 1])) || Subseq(a, b[..|b| - 1])
  }

  /** `Array.prototype.filter`: the elements that satisfy `p`, in their original order. */
  function Keep<T(==,!new)>(s: seq<T>, p: T -> bool): (r: seq<T>)
    ensures |r| <= |s|
    ensures forall x :: x in r <==> x in s && p(x)
    ensures Subseq(r, s)
    ensures (forall i :: 0 <= i < |s| ==> p(s[i])) ==> r == s
    ensures (forall i :: 0 <= i < |s| ==> !p(s[i])) ==> r == []
  {
    if s == [] then []
    else
      var r' := Keep(s[..|s| - 1], p);
      var x := s[|s| - 1];
      assert s == s[..|s| - 1] + [x];
      if p(x) then
        assert (r' + [x])[..|r'|] == r';
        r' + [x]
      else
        r'
  }

  /** Filtering a list extended by one element. */
  lemma KeepSnoc<T(!new)>(s: seq<T>, x: T, p: T -> bool)
    ensures Keep(s + [x], p) == Keep(s, p) + (if p(x) then [x] else [])
  {
    assert (s + [x])[..|s|] == s;
  }

  /** Filtering a four-element list keeps each element on its own. */
  lemma KeepFour<T(!new)>(a: T, b: T, c: T, d: T, p: T -> bool)
    ensures Keep([a, b, c, d], p)
         == (if p(a) then [a] else []) + (if p(b) then [b] else [])
          + (if p(c) then [c] else []) + (if p(d) then [d] else [])
  {
    KeepSnoc([], a, p);
    assert [] + [a] == [a];
    KeepSnoc([a], b, p);
    assert [a] + [b] == [a, b];
    KeepSnoc([a, b], c, p);
    assert [a, b] + [c] == [a, b, c];
    KeepSnoc([a, b, c], d, p);
    assert [a, b, c] + [d] == [a, b, c, d];
  }

  /** Two filters with complementary predicates split the list: every element
      lands in exactly one of them. */
  lemma {:induction false} KeepSplits<T(!new)>(s: seq<T>, p: T -> bool, q: T -> bool)
    requires forall x :: q(x) == !p(x)
    ensures multiset(Keep(s, p)) + multiset(Keep(s, q)) == multiset(s)
  {
    if s != [] {
      var s', x := s[..|s| - 1], s[|s| - 1];
      assert s == s' + [x];
      KeepSplits(s', p, q);
      KeepSnoc(s', x, p);
      KeepSnoc(s', x, q);
    }
  }

  // ---------------------------------------------------------------------------
  // Distinct values in first-appearance order

  predicate NoDuplicates<T(==)>(s: seq<T>) {
    forall i, j :: 0 <= i < j < |s| ==> s[i] != s[j]
  }

  /** The index of the first occurrence of `x` in `xs`. */
  function IndexOf<T(==)>(xs: seq<T>, x: T): (i: nat)
    requires x in xs
    ensures i < |xs| && xs[i] == x && x !in xs[..i]
  {
    if xs[0] == x then 0 else 1 + IndexOf(xs[1..], x)
  }

  lemma IndexOfUnique<T>(xs: seq<T>, x: T, i: nat)
    requires i < |xs| && xs[i] == x && x !in xs[..i]
    ensures IndexOf(xs, x) == i
  {
  }

  /** `[...new Set(xs)]`: each value of `xs` once. */
  function Distinct<T(==,!new)>(xs: seq<T>): (r: seq<T>)
    ensures forall x :: x in r <==> x in xs
    ensures NoDuplicates(r)
  {
    if xs == [] then []
    else
      var d := Distinct(xs[..|xs| - 1]);
      var x := xs[|xs| - 1];
      assert xs == xs[..|xs| - 1] + [x];
      if x in d then d else d + [x]
  }

  lemma DistinctSnoc<T(!new)>(xs: seq<T>, x: T)
    ensures Distinct(xs + [x]) == if x in xs then Distinct(xs) else Distinct(xs) + [x]
  {
    assert (xs + [x])[..|xs|] == xs;
  }

  /** `Distinct` lists the values in the order of their first appearance. */
  lemma {:induction false} DistinctInFirstAppearanceOrder<T(!new)>(xs: seq<T>)
    ensures forall i, j :: 0 <= i < j < |Distinct(xs)| ==>
      IndexOf(xs, Distinct(xs)[i]) < IndexOf(xs, Distinct(xs)[j])
  {
    if xs != [] {
      var ys := xs[..|xs| - 1];
      var y := xs[|xs| - 1];
      assert xs == ys + [y];
      DistinctInFirstAppearanceOrder(ys);
      var d := Distinct(ys);
      forall x | x in ys
        ensures IndexOf(xs, x) == IndexOf(ys, x)
      {
        var i := IndexOf(ys, x);
        assert xs[..i] == ys[..i];
        IndexOfUnique(xs, x, i);
      }
      if y !in d {
        assert xs[..|ys|] == ys;
        IndexOfUnique(xs, y, |ys|);
        forall i | 0 <= i < |d|
          ensures IndexOf(xs, Distinct(xs)[i]) < IndexOf(xs, y)
        {
          assert d[i] in ys;
        }
      }
    }
  }

  // ---------------------------------------------------------------------------
  // Stable sort by an integer key

  predicate SortedBy<T>(s: seq<T>, key: T -> int) {
    forall i, j :: 0 <= i < j < |s| ==> key(s[i]) <= key(s[j])
  }

  /** The elements of `s` whose key is `k`, in their order in `s`. */
  function WithKey<T>(s: seq<T>, key: T -> int, k: int): seq<T> {
    if s == [] then []
    else WithKey(s[..|s| - 1], key, k) + (if key(s[|s| - 1]) == k then [s[|s| - 1]] else [])
  }

  lemma WithKeySnoc<T>(s: seq<T>, x: T, key: T -> int, k: int)
    ensures WithKey(s + [x], key, k) == WithKey(s, key, k) + (if key(x) == k then [x] else [])
  {
    assert (s + [x])[..|s|] == s;
  }

  /** In a sorted list no element has a larger key than the last one. */
  lemma LastIsLargest<T>(s: seq<T>, key: T -> int)
    requires SortedBy(s, key) && s != []
    ensures forall z :: z in s ==> key(z) <= key(s[|s| - 1])
  {
    forall z | z in s
      ensures key(z) <= key(s[|s| - 1])
    {
      var i :| 0 <= i < |s| && s[i] == z;
    }
  }

  /** Inserts `x` after every element whose key is at most `key(x)`. */
  function Insert<T(==,!new)>(t: seq<T>, x: T, key: T -> int): (r: seq<T>)
    requires SortedBy(t, key)
    ensures |r| == |t| + 1
    ensures forall i :: 0 <= i < |r| ==> r[i] == x || r[i] in t
    ensures multiset(r) == multiset(t) + multiset{x}
    ensures SortedBy(r, key)
  {
    if t == [] || key(t[|t| - 1]) <= key(x) then t + [x]
    else
      var t' := t[..|t| - 1];
      var y := t[|t| - 1];
      assert t == t' + [y];
      LastIsLargest(t, key);
      Insert(t', x, key) + [y]
  }

  /** Stable ascending sort by `key`: `s.sort((a, b) => key(a) - key(b))`. */
  function SortBy<T(==,!new)>(s: seq<T>, key: T -> int): (r: seq<T>)
    ensures SortedBy(r, key)
    ensures multiset(r) == multiset(s)
    ensures |r| == |s|
  {
    if s == [] then []
    else
      assert s == s[..|s| - 1] + [s[|s| - 1]];
      Insert(SortBy(s[..|s| - 1], key), s[|s| - 1], key)
  }

  /** Sorting two elements given in descending key order swaps them. */
  lemma SortPairSwaps<T(!new)>(x: T, y: T, key: T -> int)
    requires key(y) < key(x)
    ensures SortBy([x, y], key) == [y, x]
  {
    assert [x, y][..1] == [x];
    assert [x][..0] == [];
    assert SortBy([x], key) == [x];
    assert Insert([x], y, key) == [y, x];
  }

  /** Appending `y`, whose key is above that of `x`, to a list whose elements
      of key `k` end with `x` when `x` has key `k`. */
  lemma InsertStableStep<T>(r': seq<T>, w: seq<T>, x: T, y: T, key: T -> int, k: int)
    requires WithKey(r', key, k) == w + (if key(x) == k then [x] else [])
    requires key(x) < key(y)
    ensures WithKey(r' + [y], key, k) == w + (if key(y) == k then [y] else []) + (if key(x) == k then [x] else [])
  {
    WithKeySnoc(r', y, key, k);
    if key(x) == k {
      assert w + [] + [x] == w + [x] + [];
    }
  }

  /** Inserting keeps the order among elements of one key, with `x` last among its own. */
  lemma {:induction false} InsertStable<T(!new)>(t: seq<T>, x: T, key: T -> int, k: int)
    requires SortedBy(t, key)
    ensures WithKey(Insert(t, x, key), key, k) == WithKey(t, key, k) + (if key(x) == k then [x] else [])
  {
    if t == [] || key(t[|t| - 1]) <= key(x) {
      WithKeySnoc(t, x, key, k);
      assert t + [x] == Insert(t, x, key);
    } else {
      var t' := t[..|t| - 1];
      var y := t[|t| - 1];
      InsertStable(t', x, key, k);
      var r' := Insert(t', x, key);
      assert Insert(t, x, key) == r' + [y];
      InsertStableStep(r', WithKey(t', key, k), x, y, key, k);
    }
  }

  /** `SortBy` is stable: among elements with equal keys, the input order is kept. */
  lemma {:induction false} SortByStable<T(!new)>(s: seq<T>, key: T -> int, k: int)
    ensures WithKey(SortBy(s, key), key, k) == WithKey(s, key, k)
  {
    if s != [] {
      var s' := s[..|s| - 1];
      var x := s[|s| - 1];
      assert s == s' + [x];
      SortByStable(s', key, k);
      InsertStable(SortBy(s', key), x, key, k);
      WithKeySnoc(s', x, key, k);
    }
  }

  /** An element of `s` is among the elements of its own key. */
  lemma {:induction false} InWithKey<T>(s: seq<T>, key: T -> int, z: T)
    requires z in s
    ensures z in WithKey(s, key, key(z))
  {
    var s' := s[..|s| - 1];
    assert s == s' + [s[|s| - 1]];
    if z != s[|s| - 1] {
      InWithKey(s', key, z);
    }
  }

  /** The elements of one key are elements of the list with that key. */
  lemma {:induction false} WithKeyMember<T>(s: seq<T>, key: T -> int, k: int, z: T)
    requires z in WithKey(s, key, k)
    ensures z in s && key(z) == k
  {
    var s' := s[..|s| - 1];
    assert s == s' + [s[|s| - 1]];
    if z in WithKey(s', key, k) {
      WithKeyMember(s', key, k, z);
    }
  }

  /** An element of one sorted list has a key no larger than the last of another
      sorted list that holds the same elements key by key. */
  lemma BelowLast<T>(r1: seq<T>, r2: seq<T>, key: T -> int, z: T)
    requires SortedBy(r2, key) && z in r1
    requires forall k :: WithKey(r1, key, k) == WithKey(r2, key, k)
    ensures r2 != [] && key(z) <= key(r2[|r2| - 1])
  {
    InWithKey(r1, key, z);
    assert WithKey(r1, key, key(z)) == WithKey(r2, key, key(z));
    WithKeyMember(r2, key, key(z), z);
    LastIsLargest(r2, key);
  }

  /** The last element of a list is the last of the elements of its key. */
  lemma WithKeyOfLast<T>(s: seq<T>, key: T -> int)
    requires s != []
    ensures var w := WithKey(s, key, key(s[|s| - 1]));
            w != [] && w[|w| - 1] == s[|s| - 1]
  {
    var w' := WithKey(s[..|s| - 1], key, key(s[|s| - 1]));
    assert WithKey(s, key, key(s[|s| - 1])) == w' + [s[|s| - 1]];
  }

  /** Two non-empty lists that end in elements of one key `k`, and agree on their
      elements of key `k`, end in the same element. */
  lemma SameLastOfKey<T>(r1: seq<T>, r2: seq<T>, key: T -> int)
    requires r1 != [] && r2 != [] && key(r1[|r1| - 1]) == key(r2[|r2| - 1])
    requires WithKey(r1, key, key(r1[|r1| - 1])) == WithKey(r2, key, key(r1[|r1| - 1]))
    ensures r1[|r1| - 1] == r2[|r2| - 1]
  {
    WithKeyOfLast(r1, key);
    WithKeyOfLast(r2, key);
  }

  /** Two sorted lists that hold the same elements key by key end with the same element. */
  lemma SameLast<T>(r1: seq<T>, r2: seq<T>, key: T -> int)
    requires SortedBy(r1, key) && SortedBy(r2, key) && r1 != [] && r2 != []
    requires forall k :: WithKey(r1, key, k) == WithKey(r2, key, k)
    ensures r1[|r1| - 1] == r2[|r2| - 1]
  {
    var a, b := r1[|r1| - 1], r2[|r2| - 1];
    BelowLast(r1, r2, key, a);
    BelowLast(r2, r1, key, b);
    assert WithKey(r1, key, key(a)) == WithKey(r2, key, key(a));
    SameLastOfKey(r1, r2, key);
  }

  /** A sorted list is determined by what it holds of each key, in order:
      two sorted lists that agree on every key are equal. */
  lemma {:induction false} SortedUnique<T>(r1: seq<T>, r2: seq<T>, key: T -> int)
    requires SortedBy(r1, key) && SortedBy(r2, key)
    requires forall k :: WithKey(r1, key, k) == WithKey(r2, key, k)
    ensures r1 == r2
    decreases |r1|
  {
    if r1 == [] || r2 == [] {
      if r1 != [] {
        InWithKey(r1, key, r1[0]);
      } else if r2 != [] {
        InWithKey(r2, key, r2[0]);
      }
    } else {
      SameLast(r1, r2, key);
      var r1', r2', a := r1[..|r1| - 1], r2[..|r2| - 1], r1[|r1| - 1];
      assert r1 == r1' + [a] && r2 == r2' + [a];
      forall k
        ensures WithKey(r1', key, k) == WithKey(r2', key, k)
      {
        WithKeySnoc(r1', a, key, k);
        WithKeySnoc(r2', a, key, k);
        var w1, w2 := WithKey(r1', key, k), WithKey(r2', key, k);
        assert WithKey(r1, key, k) == WithKey(r2, key, k);
        if key(a) == k {
          assert w1 + [a] == w2 + [a];
          assert w1 == (w1 + [a])[..|w1|];
          assert w2 == (w2 + [a])[..|w2|];
        } else {
          assert w1 + [] == w1 && w2 + [] == w2;
        }
      }
      SortedUnique(r1', r2', key);
    }
  }

  /** Whatever stable sort the engine runs, its result is `SortBy`: a sorted list
      that keeps, key by key, the input order is exactly `SortBy(s, key)`. */
  lemma StableSortIsSortBy<T(!new)>(s: seq<T>, r: seq<T>, key: T -> int)
    requires SortedBy(r, key)
    requires forall k :: WithKey(r, key, k) == WithKey(s, key, k)
    ensures r == SortBy(s, key)
  {
    forall k
      ensures WithKey(r, key, k) == WithKey(SortBy(s, key), key, k)
    {
      SortByStable(s, key, k);
    }
    SortedUnique(r, SortBy(s, key), key);
  }
}
