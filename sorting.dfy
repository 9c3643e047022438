/** The stable sort by key that `sorted(..., key=...)` and `list.sort(key=...)`
    perform: a functional insertion sort, and the same sort done in place on
    an array. */
module Sorting {
  import opened Intervals

  /** Places x after the last element of t whose key is at most x's: one
      step of a stable insertion sort, scanning from the back. */
  function Insert(t: seq<Interval>, x: Interval, key: SortKey): seq<Interval>
    decreases |t|
  {
    if t == [] then [x]
    else if KeyValue(key, t[|t|-1]) <= KeyValue(key, x) then t + [x]
    else Insert(t[..|t|-1], x, key) + [t[|t|-1]]
  }

  /** Insertion adds exactly x. */
  lemma {:induction false} InsertMultiset(t: seq<Interval>, x: Interval, key: SortKey)
    ensures multiset(Insert(t, x, key)) == multiset(t) + multiset{x}
    decreases |t|
  {
    if t != [] && KeyValue(key, t[|t|-1]) > KeyValue(key, x) {
      assert t == t[..|t|-1] + [t[|t|-1]];
      InsertMultiset(t[..|t|-1], x, key);
    }
  }

  /** Stable sort of s by ascending key. */
  function SortBy(s: seq<Interval>, key: SortKey): (r: seq<Interval>)
    ensures multiset(r) == multiset(s)
    ensures |r| == |s|
    decreases |s|
  {
    if s == [] then []
    else
      assert s == s[..|s|-1] + [s[|s|-1]];
      assert multiset(Insert(SortBy(s[..|s|-1], key), s[|s|-1], key))
          == multiset(SortBy(s[..|s|-1], key)) + multiset{s[|s|-1]} by {
        InsertMultiset(SortBy(s[..|s|-1], key), s[|s|-1], key);
      }
      Insert(SortBy(s[..|s|-1], key), s[|s|-1], key)
  }

  /** The elements of s whose key equals v, in their order in s. */
  function WithKey(s: seq<Interval>, key: SortKey, v: int): seq<Interval>
    decreases |s|
  {
    if s == [] then []
    else WithKey(s[..|s|-1], key, v) + KeptOf(s[|s|-1], key, v)
  }

  lemma {:induction false} WithKeyAppend(s: seq<Interval>, y: Interval, key: SortKey, v: int)
    ensures WithKey(s + [y], key, v) == WithKey(s, key, v) + KeptOf(y, key, v)
  {
    assert (s + [y])[..|s|] == s;
  }

  lemma {:induction false} InsertSorted(t: seq<Interval>, x: Interval, key: SortKey)
    requires SortedBy(t, key)
    ensures SortedBy(Insert(t, x, key), key)
    decreases |t|
  {
    if t == [] {
    } else if KeyValue(key, t[|t|-1]) <= KeyValue(key, x) {
      AppendSorted(t, x, key);
    } else {
      var init, last := t[..|t|-1], t[|t|-1];
      SortedInit(t, key);
      InsertSorted(init, x, key);
      forall i | 0 <= i < |init| ensures KeyValue(key, init[i]) <= KeyValue(key, last) {
        assert init[i] == t[i];
      }
      InsertBounded(init, x, key, KeyValue(key, last));
      AppendSorted(Insert(init, x, key), last, key);
    }
  }

  /** Appending an element whose key bounds all others keeps a sequence sorted. */
  lemma AppendSorted(r: seq<Interval>, y: Interval, key: SortKey)
    requires SortedBy(r, key)
    requires forall i :: 0 <= i < |r| ==> KeyValue(key, r[i]) <= KeyValue(key, y)
    ensures SortedBy(r + [y], key)
  {
    var ry := r + [y];
    forall i, j | 0 <= i < j < |ry| ensures KeyValue(key, ry[i]) <= KeyValue(key, ry[j]) {
      assert ry[i] == r[i];
      if j < |r| {
        assert ry[j] == r[j];
      }
    }
  }

  /** Insertion adds no key above a bound of all the keys involved. */
  lemma {:induction false} InsertBounded(t: seq<Interval>, x: Interval, key: SortKey, b: int)
    requires forall i :: 0 <= i < |t| ==> KeyValue(key, t[i]) <= b
    requires KeyValue(key, x) <= b
    ensures forall i :: 0 <= i < |Insert(t, x, key)| ==> KeyValue(key, Insert(t, x, key)[i]) <= b
    decreases |t|
  {
    if t != [] && KeyValue(key, t[|t|-1]) > KeyValue(key, x) {
      var init := t[..|t|-1];
      forall i | 0 <= i < |init| ensures KeyValue(key, init[i]) <= b {
        assert init[i] == t[i];
      }
      InsertBounded(init, x, key, b);
      var r := Insert(init, x, key);
      var ext := r + [t[|t|-1]];
      assert Insert(t, x, key) == ext;
      forall i | 0 <= i < |ext| ensures KeyValue(key, ext[i]) <= b {
        if i < |r| {
          assert ext[i] == r[i];
        }
      }
    } else if t != [] {
      var ext := t + [x];
      forall i | 0 <= i < |ext| ensures KeyValue(key, ext[i]) <= b {
        if i < |t| {
          assert ext[i] == t[i];
        }
      }
    }
  }

  /** The sort's result is ordered by key. */
  lemma {:induction false} SortBySorted(s: seq<Interval>, key: SortKey)
    ensures SortedBy(SortBy(s, key), key)
    decreases |s|
  {
    if s != [] {
      SortBySorted(s[..|s|-1], key);
      InsertSorted(SortBy(s[..|s|-1], key), s[|s|-1], key);
    }
  }

  /** The part of [y] that WithKey keeps. */
  function KeptOf(y: Interval, key: SortKey, v: int): seq<Interval>
  {
    if KeyValue(key, y) == v then [y] else []
  }

  lemma {:induction false} InsertWithKey(t: seq<Interval>, x: Interval, key: SortKey, v: int)
    ensures WithKey(Insert(t, x, key), key, v) == WithKey(t, key, v) + KeptOf(x, key, v)
    decreases |t|
  {
    if t == [] {
      WithKeyAppend([], x, key, v);
    } else if KeyValue(key, t[|t|-1]) <= KeyValue(key, x) {
      WithKeyAppend(t, x, key, v);
    } else {
      var init, last := t[..|t|-1], t[|t|-1];
      assert t == init + [last];
      InsertWithKey(init, x, key, v);
      InsertWithKeyPast(init, last, x, key, v);
    }
  }

  /** The step of InsertWithKey where x moves past a larger last element. */
  lemma InsertWithKeyPast(init: seq<Interval>, last: Interval, x: Interval, key: SortKey, v: int)
    requires KeyValue(key, last) > KeyValue(key, x)
    requires WithKey(Insert(init, x, key), key, v) == WithKey(init, key, v) + KeptOf(x, key, v)
    ensures WithKey(Insert(init + [last], x, key), key, v) == WithKey(init + [last], key, v) + KeptOf(x, key, v)
  {
    var t := init + [last];
    assert t[..|t|-1] == init && t[|t|-1] == last;
    var r' := Insert(init, x, key);
    assert Insert(t, x, key) == r' + [last];
    WithKeyAppend(r', last, key, v);
    WithKeyAppend(init, last, key, v);
    KeptCommute(x, last, key, v);
    Rearrange(WithKey(r' + [last], key, v), WithKey(t, key, v),
              WithKey(init, key, v), KeptOf(x, key, v), KeptOf(last, key, v));
  }

  lemma Rearrange(p: seq<Interval>, q: seq<Interval>, w: seq<Interval>, kx: seq<Interval>, kl: seq<Interval>)
    requires p == (w + kx) + kl && q == w + kl && kx + kl == kl + kx
    ensures p == q + kx
  {
    assert (w + kx) + kl == w + (kx + kl);
    assert (w + kl) + kx == w + (kl + kx);
  }

  /** Two elements with different keys are never both kept. */
  lemma KeptCommute(x: Interval, y: Interval, key: SortKey, v: int)
    requires KeyValue(key, x) != KeyValue(key, y)
    ensures KeptOf(x, key, v) + KeptOf(y, key, v) == KeptOf(y, key, v) + KeptOf(x, key, v)
  {
  }

  /** Stability: among elements with equal keys the sort keeps input order. */
  lemma {:induction false} SortByStable(s: seq<Interval>, key: SortKey, v: int)
    ensures WithKey(SortBy(s, key), key, v) == WithKey(s, key, v)
    decreases |s|
  {
    if s != [] {
      SortByStable(s[..|s|-1], key, v);
      InsertWithKey(SortBy(s[..|s|-1], key), s[|s|-1], key, v);
    }
  }

  /** Sorting a list that is already in key order changes nothing. */
  lemma {:induction false} SortByOfSorted(s: seq<Interval>, key: SortKey)
    requires SortedBy(s, key)
    ensures SortBy(s, key) == s
    decreases |s|
  {
    if s != [] {
      var init, last := s[..|s|-1], s[|s|-1];
      SortedInit(s, key);
      SortByOfSorted(init, key);
      assert init != [] ==> KeyValue(key, init[|init|-1]) <= KeyValue(key, last);
      InsertAtEnd(init, last, key);
      assert s == init + [last];
    }
  }

  /** An element whose key is at least the last key stays at the end. */
  lemma InsertAtEnd(t: seq<Interval>, x: Interval, key: SortKey)
    requires t != [] ==> KeyValue(key, t[|t|-1]) <= KeyValue(key, x)
    ensures Insert(t, x, key) == t + [x]
  {
  }

  lemma SortedInit(s: seq<Interval>, key: SortKey)
    requires s != [] && SortedBy(s, key)
    ensures SortedBy(s[..|s|-1], key)
  {
    var init := s[..|s|-1];
    forall i, j | 0 <= i < j < |init| ensures KeyValue(key, init[i]) <= KeyValue(key, init[j]) {
      assert init[i] == s[i] && init[j] == s[j];
    }
  }

  /** Comparing neighbours is enough to establish key order. */
  lemma AdjacentSorted(t: seq<Interval>, key: SortKey)
    requires forall i :: 0 < i < |t| ==> KeyValue(key, t[i-1]) <= KeyValue(key, t[i])
    ensures SortedBy(t, key)
  {
    forall i, j | 0 <= i < j < |t| ensures KeyValue(key, t[i]) <= KeyValue(key, t[j]) {
      AdjacentSortedPair(t, key, i, j);
    }
  }

  lemma {:induction false} AdjacentSortedPair(t: seq<Interval>, key: SortKey, i: int, j: int)
    requires forall i :: 0 < i < |t| ==> KeyValue(key, t[i-1]) <= KeyValue(key, t[i])
    requires 0 <= i <= j < |t|
    ensures KeyValue(key, t[i]) <= KeyValue(key, t[j])
    decreases j - i
  {
    if i < j {
      AdjacentSortedPair(t, key, i, j - 1);
    }
  }

  /** When keys are distinct the sort has only one possible result. */
  lemma SortByDistinct(s: seq<Interval>, t: seq<Interval>, key: SortKey)
    requires StrictlySortedBy(t, key)
    requires multiset(t) == multiset(s)
    ensures SortBy(s, key) == t
  {
    SortBySorted(s, key);
    UniqueOrder(t, SortBy(s, key), key);
  }

  /** `list.sort(key=...)`: sorts the array in place, stably, by insertion. */
  method SortInPlace(a: array<Interval>, key: SortKey)
    modifies a
    ensures a[..] == SortBy(old(a[..]), key)
  {
    ghost var orig := a[..];
    var i := 0;
    while i < a.Length
      invariant 0 <= i <= a.Length
      invariant a[..i] == SortBy(orig[..i], key)
      invariant forall k :: i <= k < a.Length ==> a[k] == orig[k]
    {
      InsertAt(a, i, key);
      SortByPrefixStep(orig, i, key);
      i := i + 1;
    }
    assert a[..] == a[..a.Length] && orig == orig[..a.Length];
  }

  lemma SortByPrefixStep(s: seq<Interval>, i: int, key: SortKey)
    requires 0 <= i < |s|
    ensures SortBy(s[..i+1], key) == Insert(SortBy(s[..i], key), s[i], key)
  {
    assert s[..i+1][..i] == s[..i];
  }

  /** Moves a[i] left past the elements of the prefix a[..i] whose keys are
      larger, leaving the rest of the array alone. */
  method InsertAt(a: array<Interval>, i: int, key: SortKey)
    requires 0 <= i < a.Length
    modifies a
    ensures a[..i+1] == Insert(old(a[..i]), old(a[i]), key)
    ensures forall k :: i < k < a.Length ==> a[k] == old(a[k])
  {
    var x := a[i];
    ghost var prefix := a[..i];
    var j := i;
    while j > 0 && KeyValue(key, a[j-1]) > KeyValue(key, x)
      invariant 0 <= j <= i
      invariant forall k :: 0 <= k < j ==> a[k] == prefix[k]
      invariant forall k :: j < k <= i ==> a[k] == prefix[k-1]
      invariant forall k :: i < k < a.Length ==> a[k] == old(a[k])
      invariant forall k :: j <= k < i ==> KeyValue(key, prefix[k]) > KeyValue(key, x)
    {
      a[j] := a[j-1];
      j := j - 1;
    }
    a[j] := x;
    InsertPosition(prefix, j, x, key);
    ghost var placed := prefix[..j] + [x] + prefix[j..];
    forall k | 0 <= k <= i ensures a[k] == placed[k] {
    }
    assert a[..i+1] == placed;
  }

  /** Where the inner loop stops: x goes after the elements with keys at
      most its own and before the run of larger keys that ends the prefix. */
  lemma {:induction false} InsertPosition(prefix: seq<Interval>, j: int, x: Interval, key: SortKey)
    requires 0 <= j <= |prefix|
    requires forall k :: j <= k < |prefix| ==> KeyValue(key, prefix[k]) > KeyValue(key, x)
    requires j > 0 ==> KeyValue(key, prefix[j-1]) <= KeyValue(key, x)
    ensures Insert(prefix, x, key) == prefix[..j] + [x] + prefix[j..]
    decreases |prefix| - j
  {
    if j < |prefix| {
      var init, last := prefix[..|prefix|-1], prefix[|prefix|-1];
      InsertPosition(init, j, x, key);
      assert init[..j] == prefix[..j];
      assert init[j..] + [last] == prefix[j..];
    }
  }
}
