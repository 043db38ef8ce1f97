/** Newest-first ordering of listing items: a stable sort by descending
    `Key`, which is what Python's `list.sort(key=..., reverse=True)` does. */
module Sorting {
  import opened Records

  /** Keys never increase from left to right. */
  predicate SortedDesc(s: seq<Item>)
  {
    forall i, j :: 0 <= i < j < |s| ==> Key(s[i]) >= Key(s[j])
  }

  /** The items of `s` whose key is `v`, in their order in `s`. */
  function WithKey(s: seq<Item>, v: int): seq<Item>
  {
    if s == [] then []
    else WithKey(s[..|s| - 1], v) + (if Key(s[|s| - 1]) == v then [s[|s| - 1]] else [])
  }

  /** Places `x` into `t` after every item whose key is at least `x`'s. */
  function Insert(t: seq<Item>, x: Item): seq<Item>
  {
    if t == [] then [x]
    else if Key(t[|t| - 1]) >= Key(x) then t + [x]
    else Insert(t[..|t| - 1], x) + [t[|t| - 1]]
  }

  /** The reference stable descending sort: insertion of each item in turn. */
  function SortDesc(s: seq<Item>): (r: seq<Item>)
    ensures |r| == |s|
  {
    if s == [] then []
    else
      InsertPermutation(SortDesc(s[..|s| - 1]), s[|s| - 1]);
      Insert(SortDesc(s[..|s| - 1]), s[|s| - 1])
  }

  /** Insertion adds exactly `x`. */
  lemma {:induction false} InsertPermutation(t: seq<Item>, x: Item)
    ensures |Insert(t, x)| == |t| + 1
    ensures multiset(Insert(t, x)) == multiset(t) + multiset{x}
  {
    if t != [] && Key(t[|t| - 1]) < Key(x) {
      InsertPermutation(t[..|t| - 1], x);
      assert t == t[..|t| - 1] + [t[|t| - 1]];
    }
  }

  lemma {:induction false} InsertSorted(t: seq<Item>, x: Item)
    requires SortedDesc(t)
    ensures SortedDesc(Insert(t, x))
  {
    if t != [] && Key(t[|t| - 1]) < Key(x) {
      var t', l := t[..|t| - 1], t[|t| - 1];
      InsertSorted(t', x);
      InsertPermutation(t', x);
      var r' := Insert(t', x);
      forall k | 0 <= k < |r'|
        ensures Key(r'[k]) >= Key(l)
      {
        assert r'[k] in multiset(r');
        if r'[k] != x {
          assert r'[k] in multiset(t');
          var m :| 0 <= m < |t'| && t'[m] == r'[k];
          assert t[m] == t'[m];
        }
      }
    }
  }

  lemma {:induction false} InsertWithKey(t: seq<Item>, x: Item, v: int)
    ensures WithKey(Insert(t, x), v) == WithKey(t, v) + (if Key(x) == v then [x] else [])
  {
    if t == [] {
      WithKeySnoc([], x, v);
      assert [] + [x] == [x];
    } else if Key(t[|t| - 1]) >= Key(x) {
      WithKeySnoc(t, x, v);
    } else {
      var t', l := t[..|t| - 1], t[|t| - 1];
      assert t == t' + [l];
      var r' := Insert(t', x);
      InsertWithKey(t', x, v);
      WithKeySnoc(r', l, v);
      WithKeySnoc(t', l, v);
    }
  }

  /** The reference sort yields non-increasing keys. */
  lemma {:induction false} SortDescSorted(s: seq<Item>)
    ensures SortedDesc(SortDesc(s))
  {
    if s != [] {
      SortDescSorted(s[..|s| - 1]);
      InsertSorted(SortDesc(s[..|s| - 1]), s[|s| - 1]);
    }
  }

  /** The reference sort rearranges its input: nothing added, nothing dropped. */
  lemma {:induction false} SortDescPermutation(s: seq<Item>)
    ensures |SortDesc(s)| == |s|
    ensures multiset(SortDesc(s)) == multiset(s)
  {
    if s != [] {
      SortDescPermutation(s[..|s| - 1]);
      InsertPermutation(SortDesc(s[..|s| - 1]), s[|s| - 1]);
      assert s == s[..|s| - 1] + [s[|s| - 1]];
    }
  }

  /** The reference sort is stable: items with equal keys keep their order. */
  lemma {:induction false} SortDescStable(s: seq<Item>, v: int)
    ensures WithKey(SortDesc(s), v) == WithKey(s, v)
  {
    if s != [] {
      SortDescStable(s[..|s| - 1], v);
      InsertWithKey(SortDesc(s[..|s| - 1]), s[|s| - 1], v);
    }
  }

  lemma {:induction false} WithKeyNonEmpty(s: seq<Item>, i: int)
    requires 0 <= i < |s|
    ensures WithKey(s, Key(s[i])) != []
  {
    if i < |s| - 1 {
      WithKeyNonEmpty(s[..|s| - 1], i);
    }
  }

  lemma {:induction false} WithKeyWitness(s: seq<Item>, v: int) returns (i: int)
    requires WithKey(s, v) != []
    ensures 0 <= i < |s| && Key(s[i]) == v
  {
    if Key(s[|s| - 1]) == v {
      i := |s| - 1;
    } else {
      i := WithKeyWitness(s[..|s| - 1], v);
    }
  }

  /** A key present among `t`'s items is present among `u`'s when both
      agree on the items of every key. */
  lemma KeyPresent(t: seq<Item>, u: seq<Item>, i: int) returns (j: int)
    requires 0 <= i < |t|
    requires forall v :: WithKey(t, v) == WithKey(u, v)
    ensures 0 <= j < |u| && Key(u[j]) == Key(t[i])
  {
    WithKeyNonEmpty(t, i);
    j := WithKeyWitness(u, Key(t[i]));
  }

  /** Two sorted sequences with the same per-key items end in the same key. */
  lemma SameLastKey(t: seq<Item>, u: seq<Item>)
    requires t != [] && u != []
    requires SortedDesc(t) && SortedDesc(u)
    requires forall v :: WithKey(t, v) == WithKey(u, v)
    ensures Key(t[|t| - 1]) == Key(u[|u| - 1])
  {
    var j := KeyPresent(t, u, |t| - 1);
    var i := KeyPresent(u, t, |u| - 1);
  }

  lemma WithKeySnoc(s: seq<Item>, x: Item, v: int)
    ensures WithKey(s + [x], v) == WithKey(s, v) + (if Key(x) == v then [x] else [])
  {
  }

  /** With equal last keys, equal per-key items force equal last items and
      equal per-key items of what precedes them. */
  lemma DropLast(t: seq<Item>, a: Item, u: seq<Item>, b: Item)
    requires Key(a) == Key(b)
    requires forall v :: WithKey(t + [a], v) == WithKey(u + [b], v)
    ensures a == b
    ensures forall v :: WithKey(t, v) == WithKey(u, v)
  {
    var K := Key(a);
    WithKeySnoc(t, a, K);
    WithKeySnoc(u, b, K);
    assert WithKey(t + [a], K) == WithKey(u + [b], K);
    var p, q := WithKey(t, K), WithKey(u, K);
    assert p + [a] == q + [b];
    assert |p| == |q|;
    assert (p + [a])[|p|] == a && (q + [b])[|q|] == b;
    assert p == (p + [a])[..|p|] && q == (q + [b])[..|q|];
    forall v
      ensures WithKey(t, v) == WithKey(u, v)
    {
      if v != K {
        WithKeySnoc(t, a, v);
        WithKeySnoc(u, b, v);
        assert WithKey(t + [a], v) == WithKey(u + [b], v);
        assert WithKey(t, v) + [] == WithKey(t, v);
        assert WithKey(u, v) + [] == WithKey(u, v);
      }
    }
  }

  /** A sorted sequence is determined by its per-key subsequences: two sorted
      sequences that agree on the items of every key are equal. */
  lemma {:induction false} SortedStableUnique(t: seq<Item>, u: seq<Item>)
    requires SortedDesc(t) && SortedDesc(u)
    requires forall v :: WithKey(t, v) == WithKey(u, v)
    ensures t == u
  {
    if t == [] || u == [] {
      if t != [] {
        WithKeyNonEmpty(t, |t| - 1);
      } else if u != [] {
        WithKeyNonEmpty(u, |u| - 1);
      }
    } else {
      SameLastKey(t, u);
      var t', u' := t[..|t| - 1], u[..|u| - 1];
      assert t == t' + [t[|t| - 1]];
      assert u == u' + [u[|u| - 1]];
      DropLast(t', t[|t| - 1], u', u[|u| - 1]);
      SortedStableUnique(t', u');
    }
  }

  /** Any sorted rearrangement that keeps equal-key items in input order (as
      every stable sort, Python's included, produces) is the reference sort. */
  lemma StableSortIsSortDesc(s: seq<Item>, t: seq<Item>)
    requires SortedDesc(t)
    requires forall v :: WithKey(t, v) == WithKey(s, v)
    ensures t == SortDesc(s)
  {
    SortDescSorted(s);
    forall v
      ensures WithKey(t, v) == WithKey(SortDesc(s), v)
    {
      SortDescStable(s, v);
    }
    SortedStableUnique(t, SortDesc(s));
  }

  /** Where the insertion point of `x` is known, `Insert` places it there. */
  lemma {:induction false} InsertAt(t: seq<Item>, j: int, x: Item)
    requires 0 <= j <= |t|
    requires j == 0 || Key(t[j - 1]) >= Key(x)
    requires forall k :: j <= k < |t| ==> Key(t[k]) < Key(x)
    ensures Insert(t, x) == t[..j] + [x] + t[j..]
    decreases |t|
  {
    if j < |t| {
      var t', l := t[..|t| - 1], t[|t| - 1];
      assert Key(l) < Key(x);
      assert Insert(t, x) == Insert(t', x) + [l];
      assert forall k :: j <= k < |t'| ==> t'[k] == t[k];
      InsertAt(t', j, x);
      assert t[..j] == t'[..j];
      assert t[j..] == t'[j..] + [l];
      AppendTail(t'[..j], [x], t'[j..], [l]);
    } else if t != [] {
      assert t[..j] == t;
    }
  }

  lemma AppendTail(a: seq<Item>, b: seq<Item>, c: seq<Item>, d: seq<Item>)
    ensures a + b + c + d == a + b + (c + d)
  {
  }

  /** The array contents the shifting loop leaves behind are `Insert(t, x)`. */
  lemma ShiftedIsInsert(t: seq<Item>, j: int, x: Item, b: seq<Item>)
    requires 0 <= j <= |t| && |b| == |t| + 1
    requires j == 0 || Key(t[j - 1]) >= Key(x)
    requires forall k :: j <= k < |t| ==> Key(t[k]) < Key(x)
    requires forall k :: 0 <= k < j ==> b[k] == t[k]
    requires b[j] == x
    requires forall k :: j < k <= |t| ==> b[k] == t[k - 1]
    ensures b == Insert(t, x)
  {
    InsertAt(t, j, x);
    var r := t[..j] + [x] + t[j..];
    forall k | 0 <= k <= |t|
      ensures b[k] == r[k]
    {
      if k > j {
        assert r[k] == t[k - 1];
      }
    }
  }

  lemma SortDescStep(s: seq<Item>, i: int)
    requires 0 <= i < |s|
    ensures SortDesc(s[..i + 1]) == Insert(SortDesc(s[..i]), s[i])
  {
    assert s[..i + 1][..i] == s[..i];
  }

  /** One step of insertion sort: shift the items just before `a[i]` whose
      keys are smaller than its key one place right, and drop `a[i]` into the
      gap. Whatever the prefix holds, this is where `Insert` places it. */
  method InsertLast(a: array<Item>, i: int)
    requires 0 <= i < a.Length
    modifies a
    ensures a[..i + 1] == Insert(old(a[..i]), old(a[i]))
    ensures a[i + 1..] == old(a[i + 1..])
  {
    ghost var t := a[..i];
    var x := a[i];
    var j := i;
    while j > 0 && Key(a[j - 1]) < Key(x)
      invariant 0 <= j <= i
      invariant forall k :: 0 <= k < j ==> a[k] == t[k]
      invariant forall k :: j < k <= i ==> a[k] == t[k - 1]
      invariant forall k :: i < k < a.Length ==> a[k] == old(a[k])
      invariant forall k :: j <= k < i ==> Key(t[k]) < Key(x)
    {
      a[j] := a[j - 1];
      j := j - 1;
    }
    a[j] := x;
    ShiftedIsInsert(t, j, x, a[..i + 1]);
    assert a[i + 1..] == old(a[i + 1..]);
  }

  /** `out.sort(key=..., reverse=True)`: insertion sort in place, newest first. */
  method SortByKeyDesc(a: array<Item>)
    modifies a
    ensures a[..] == SortDesc(old(a[..]))
  {
    ghost var s := a[..];
    var i := 0;
    while i < a.Length
      invariant 0 <= i <= a.Length
      invariant a[..i] == SortDesc(s[..i])
      invariant a[i..] == s[i..]
    {
      SortDescStep(s, i);
      assert a[i] == s[i];
      InsertLast(a, i);
      assert a[i + 1..] == s[i + 1..];
      i := i + 1;
    }
    assert a[..] == a[..a.Length];
    assert s == s[..a.Length];
  }
}
