/** Order statistics: the k-th smallest of some samples, by counting and by sorting. */
module Ranks {
  /** Integer samples and floating-point ones are both ordered as real numbers. */
  type Key<!T> = T -> real

  function OfNat(n: nat): real { n as real }

  function OfReal(x: real): real { x }

  /** How many samples are at most `x`. */
  function AtMost<T>(key: Key<T>, s: seq<T>, x: real): nat {
    if s == [] then 0 else AtMost(key, s[..|s| - 1], x) + (if key(s[|s| - 1]) <= x then 1 else 0)
  }

  /** How many samples are below `x`. */
  function Below<T>(key: Key<T>, s: seq<T>, x: real): nat {
    if s == [] then 0 else Below(key, s[..|s| - 1], x) + (if key(s[|s| - 1]) < x then 1 else 0)
  }

  /** Fewer than `k` samples are below `v`, and at least `k` are at most `v`. */
  predicate IsKth<T>(key: Key<T>, s: seq<T>, k: nat, v: T) {
    Below(key, s, key(v)) < k <= AtMost(key, s, key(v))
  }

  predicate Sorted<T>(key: Key<T>, s: seq<T>) {
    forall i, j :: 0 <= i < j < |s| ==> key(s[i]) <= key(s[j])
  }

  function Insert<T(==)>(key: Key<T>, s: seq<T>, x: T): (t: seq<T>)
    ensures |t| == |s| + 1
  {
    if s == [] || key(s[|s| - 1]) <= key(x) then s + [x]
    else Insert(key, s[..|s| - 1], x) + [s[|s| - 1]]
  }

  /** The samples in ascending order. */
  function Sort<T(==)>(key: Key<T>, s: seq<T>): (t: seq<T>)
    ensures |t| == |s|
  {
    if s == [] then [] else Insert(key, Sort(key, s[..|s| - 1]), s[|s| - 1])
  }

  /** The k-th smallest sample. */
  function Kth<T(==)>(key: Key<T>, s: seq<T>, k: nat): T
    requires 1 <= k <= |s|
  {
    Sort(key, s)[k - 1]
  }

  // ---------------------------------------------------------------- sorting

  lemma {:induction false} InsertKeeps<T>(key: Key<T>, s: seq<T>, x: T)
    ensures multiset(Insert(key, s, x)) == multiset(s) + multiset{x}
  {
    if s == [] || key(s[|s| - 1]) <= key(x) {
    } else {
      var n := |s| - 1;
      InsertKeeps(key, s[..n], x);
      assert s == s[..n] + [s[n]];
    }
  }

  lemma {:induction false} InsertBound<T>(key: Key<T>, s: seq<T>, x: T, i: nat)
    requires i <= |s|
    ensures Insert(key, s, x)[i] == x || Insert(key, s, x)[i] in s
  {
    if s == [] || key(s[|s| - 1]) <= key(x) {
    } else if i < |s| {
      InsertBound(key, s[..|s| - 1], x, i);
    }
  }

  lemma {:induction false} InsertSorted<T>(key: Key<T>, s: seq<T>, x: T)
    requires Sorted(key, s)
    ensures Sorted(key, Insert(key, s, x))
  {
    if s == [] || key(s[|s| - 1]) <= key(x) {
    } else {
      var n := |s| - 1;
      var most := Insert(key, s[..n], x);
      InsertSorted(key, s[..n], x);
      forall i | 0 <= i < n + 1 ensures key(most[i]) <= key(s[n]) {
        InsertBound(key, s[..n], x, i);
      }
    }
  }

  lemma {:induction false} SortIsSorting<T>(key: Key<T>, s: seq<T>)
    ensures Sorted(key, Sort(key, s)) && multiset(Sort(key, s)) == multiset(s)
  {
    if s != [] {
      var n := |s| - 1;
      SortIsSorting(key, s[..n]);
      InsertSorted(key, Sort(key, s[..n]), s[n]);
      InsertKeeps(key, Sort(key, s[..n]), s[n]);
      assert s == s[..n] + [s[n]];
    }
  }

  // ---------------------------------------------------------------- counting

  lemma {:induction false} CountsOrdered<T>(key: Key<T>, s: seq<T>, x: real, y: real)
    requires x <= y
    ensures Below(key, s, x) <= AtMost(key, s, x) <= AtMost(key, s, y) <= |s|
    ensures Below(key, s, x) <= Below(key, s, y)
    ensures x < y ==> AtMost(key, s, x) <= Below(key, s, y)
  {
    if s != [] { CountsOrdered(key, s[..|s| - 1], x, y); }
  }

  lemma {:induction false} CountsConcat<T>(key: Key<T>, s: seq<T>, t: seq<T>, x: real)
    ensures AtMost(key, s + t, x) == AtMost(key, s, x) + AtMost(key, t, x)
    ensures Below(key, s + t, x) == Below(key, s, x) + Below(key, t, x)
    decreases |t|
  {
    if t == [] {
      assert s + t == s;
    } else {
      CountsConcat(key, s, t[..|t| - 1], x);
      assert (s + t)[..|s + t| - 1] == s + t[..|t| - 1];
    }
  }

  lemma TakeOut<T>(t: seq<T>, i: nat)
    requires i < |t|
    ensures multiset(t) == multiset(t[..i] + t[i + 1..]) + multiset{t[i]}
  {
    assert t == t[..i] + [t[i]] + t[i + 1..];
  }

  lemma Cancel<T>(a: multiset<T>, b: multiset<T>, v: T)
    requires a + multiset{v} == b + multiset{v}
    ensures a == b
  {
    assert a == (a + multiset{v}) - multiset{v};
    assert b == (b + multiset{v}) - multiset{v};
  }

  lemma CountsTakeOut<T>(key: Key<T>, t: seq<T>, i: nat, x: real)
    requires i < |t|
    ensures AtMost(key, t, x) == AtMost(key, t[..i] + t[i + 1..], x) + (if key(t[i]) <= x then 1 else 0)
    ensures Below(key, t, x) == Below(key, t[..i] + t[i + 1..], x) + (if key(t[i]) < x then 1 else 0)
  {
    hide AtMost, Below;
    CountsConcat(key, t[..i], t[i + 1..], x);
    CountsConcat(key, t[..i] + [t[i]], t[i + 1..], x);
    CountsSnoc(key, t[..i], t[i], x);
    assert t == t[..i] + [t[i]] + t[i + 1..];
  }

  lemma CountsSnoc<T>(key: Key<T>, s: seq<T>, v: T, x: real)
    ensures AtMost(key, s + [v], x) == AtMost(key, s, x) + (if key(v) <= x then 1 else 0)
    ensures Below(key, s + [v], x) == Below(key, s, x) + (if key(v) < x then 1 else 0)
  {
    assert (s + [v])[..|s + [v]| - 1] == s;
  }

  lemma {:induction false} CountsOfMultiset<T>(key: Key<T>, s: seq<T>, t: seq<T>, x: real)
    requires multiset(s) == multiset(t)
    ensures AtMost(key, s, x) == AtMost(key, t, x) && Below(key, s, x) == Below(key, t, x)
    decreases |s|
  {
    if s == [] {
      assert |t| == |multiset(t)| == |multiset(s)| == 0;
    } else {
      var n := |s| - 1;
      assert s[n] in multiset(t);
      var i :| 0 <= i < |t| && t[i] == s[n];
      TakeOut(s, n);
      TakeOut(t, i);
      assert s[..n] + s[n + 1..] == s[..n];
      Cancel(multiset(s[..n]), multiset(t[..i] + t[i + 1..]), s[n]);
      CountsOfMultiset(key, s[..n], t[..i] + t[i + 1..], x);
      CountsTakeOut(key, t, i, x);
    }
  }

  /** Of sorted samples, the first `n` count when the last of them does. */
  lemma {:induction false} AtMostOfSorted<T>(key: Key<T>, t: seq<T>, x: real, n: nat)
    requires Sorted(key, t) && 0 < n <= |t| && key(t[n - 1]) <= x
    ensures AtMost(key, t, x) >= n
    decreases |t|
  {
    var m := |t| - 1;
    if n <= m {
      AtMostOfSorted(key, t[..m], x, n);
    } else if m > 0 {
      AtMostOfSorted(key, t[..m], x, m);
    }
  }

  /** Of sorted samples, none counts from the first that does not. */
  lemma {:induction false} BelowOfSorted<T>(key: Key<T>, t: seq<T>, x: real, n: nat)
    requires Sorted(key, t) && n < |t| && x <= key(t[n])
    ensures Below(key, t, x) <= n
    decreases |t|
  {
    var m := |t| - 1;
    if n < m {
      BelowOfSorted(key, t[..m], x, n);
    } else {
      CountsOrdered(key, t[..m], x, x);
    }
  }

  // ---------------------------------------------------------------- the k-th smallest

  lemma KthIsKth<T>(key: Key<T>, s: seq<T>, k: nat)
    requires 1 <= k <= |s|
    ensures IsKth(key, s, k, Kth(key, s, k))
  {
    var t := Sort(key, s);
    var x := key(t[k - 1]);
    SortIsSorting(key, s);
    AtMostOfSorted(key, t, x, k);
    BelowOfSorted(key, t, x, k - 1);
    CountsOfMultiset(key, s, t, x);
  }

  lemma KthUnique<T>(key: Key<T>, s: seq<T>, k: nat, v: T, w: T)
    requires IsKth(key, s, k, v) && IsKth(key, s, k, w)
    ensures key(v) == key(w)
  {
    if key(v) < key(w) {
      CountsOrdered(key, s, key(v), key(w));
    } else if key(w) < key(v) {
      CountsOrdered(key, s, key(w), key(v));
    }
  }

  /** Sorting and counting agree on which value is the k-th smallest. */
  lemma KthIffIsKth<T>(key: Key<T>, s: seq<T>, k: nat, v: T)
    requires 1 <= k <= |s|
    ensures IsKth(key, s, k, v) <==> key(v) == key(Kth(key, s, k))
  {
    hide Kth;
    KthIsKth(key, s, k);
    if IsKth(key, s, k, v) {
      KthUnique(key, s, k, v, Kth(key, s, k));
    }
  }

  lemma KthMonotone<T>(key: Key<T>, s: seq<T>, j: nat, k: nat)
    requires 1 <= j <= k <= |s|
    ensures key(Kth(key, s, j)) <= key(Kth(key, s, k))
  {
    SortIsSorting(key, s);
  }

  /** Only which samples there are matters, not their order. */
  lemma KthOfMultiset<T>(key: Key<T>, s: seq<T>, t: seq<T>, k: nat)
    requires multiset(s) == multiset(t) && 1 <= k <= |s|
    ensures |t| == |s| && key(Kth(key, s, k)) == key(Kth(key, t, k))
  {
    hide Kth;
    assert |s| == |multiset(s)| == |multiset(t)| == |t|;
    var v := Kth(key, t, k);
    KthIsKth(key, t, k);
    CountsOfMultiset(key, s, t, key(v));
    KthIffIsKth(key, s, k, v);
  }
}
