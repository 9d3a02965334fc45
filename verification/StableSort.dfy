/** Repeatedly taking the earliest maximum sorts stably. */
module StableSort {
  import opened Sequences

  /** `m` is the earliest of the elements with the greatest key. */
  predicate IsFirstMax<T>(key: T -> nat, s: seq<T>, m: nat) {
    && m < |s|
    && (forall k :: 0 <= k < m ==> key(s[k]) < key(s[m]))
    && (forall k :: 0 <= k < |s| ==> key(s[k]) <= key(s[m]))
  }

  function FirstMax<T>(key: T -> nat, s: seq<T>): (m: nat)
    requires s != []
    ensures IsFirstMax(key, s, m)
  {
    var n := |s| - 1;
    if n == 0 then 0
    else
      var m := FirstMax(key, s[..n]);
      if key(s[n]) > key(s[m]) then n else m
  }

  /** The scan step: the earliest maximum of one more element. */
  lemma FirstMaxExtends<T>(key: T -> nat, s: seq<T>, n: nat, m: nat)
    requires n < |s| && (n > 0 ==> IsFirstMax(key, s[..n], m))
    ensures IsFirstMax(key, s[..n + 1], if n == 0 || key(s[n]) > key(s[m]) then n else m)
  {
    assert forall k :: 0 <= k < n ==> s[..n + 1][k] == s[..n][k];
  }

  lemma FirstMaxIsUnique<T>(key: T -> nat, s: seq<T>, m: nat)
    requires IsFirstMax(key, s, m)
    ensures m == FirstMax(key, s)
  {
    assert key(s[m]) == key(s[FirstMax(key, s)]);
  }

  function HasKey<T>(key: T -> nat, k: nat): T -> bool {
    (x: T) => key(x) == k
  }

  /** The elements with key `k`, in their order. */
  function WithKey<T>(key: T -> nat, s: seq<T>, k: nat): seq<T> {
    Filter(HasKey(key, k), s)
  }

  /** The elements with keys from `top` down to 0: one key after the other, each in its order. */
  function Descending<T>(key: T -> nat, s: seq<T>, top: nat): seq<T> {
    if top == 0 then WithKey(key, s, 0) else WithKey(key, s, top) + Descending(key, s, top - 1)
  }

  lemma WithKeyWithout<T>(key: T -> nat, s: seq<T>, m: nat, k: nat)
    requires m < |s|
    ensures key(s[m]) != k ==> WithKey(key, RemoveAt(s, m), k) == WithKey(key, s, k)
    ensures key(s[m]) == k && WithKey(key, s[..m], k) == [] ==>
      WithKey(key, s, k) == [s[m]] + WithKey(key, RemoveAt(s, m), k)
  {
    FilterConcat(HasKey(key, k), s[..m], s[m + 1..]);
    FilterConcat(HasKey(key, k), s[..m], s[m..]);
    assert s == s[..m] + s[m..];
    assert s[m..][1..] == s[m + 1..];
  }

  /** Two sequences that agree on the keys up to `top` sort alike down from there. */
  lemma {:induction false} DescendingAgrees<T>(key: T -> nat, s: seq<T>, t: seq<T>, top: nat)
    requires forall k: nat :: k <= top ==> WithKey(key, s, k) == WithKey(key, t, k)
    ensures Descending(key, s, top) == Descending(key, t, top)
  {
    if top > 0 {
      DescendingAgrees(key, s, t, top - 1);
    }
  }

  /** If `x` leads its key in `s`, nothing has a greater key, and `t` has all else, then `x` leads the sort. */
  lemma {:induction false} LeaderHeadsTheSort<T>(key: T -> nat, s: seq<T>, t: seq<T>, x: T, top: nat)
    requires top >= key(x) && WithKey(key, s, key(x)) == [x] + WithKey(key, t, key(x))
    requires forall k: nat :: k != key(x) ==> WithKey(key, s, k) == WithKey(key, t, k)
    requires forall k: nat :: k > key(x) ==> WithKey(key, s, k) == []
    ensures Descending(key, s, top) == [x] + Descending(key, t, top)
    decreases top
  {
    if top > key(x) {
      LeaderHeadsTheSort(key, s, t, x, top - 1);
      assert WithKey(key, s, top) == WithKey(key, t, top) == [];
    } else {
      if top > 0 {
        DescendingAgrees(key, s, t, top - 1);
        Associative([x], WithKey(key, t, top), Descending(key, t, top - 1));
      }
    }
  }

  lemma Associative<T>(a: seq<T>, b: seq<T>, c: seq<T>)
    ensures (a + b) + c == a + (b + c)
  {
  }

  /** The earliest maximum heads the sorted sequence, and sorting what is left gives its tail. */
  lemma FirstMaxHeadsTheSort<T>(key: T -> nat, s: seq<T>, m: nat, top: nat)
    requires IsFirstMax(key, s, m) && top >= key(s[m])
    ensures Descending(key, s, top) == [s[m]] + Descending(key, RemoveAt(s, m), top)
  {
    FilterNone(HasKey(key, key(s[m])), s[..m]);
    WithKeyWithout(key, s, m, key(s[m]));
    forall k: nat | k != key(s[m])
      ensures WithKey(key, s, k) == WithKey(key, RemoveAt(s, m), k)
      ensures k > key(s[m]) ==> WithKey(key, s, k) == []
    {
      WithKeyWithout(key, s, m, k);
      if k > key(s[m]) {
        FilterNone(HasKey(key, k), s);
      }
    }
    LeaderHeadsTheSort(key, s, RemoveAt(s, m), s[m], top);
  }

  /** Descending keeps every element with its multiplicity and, among equal keys, the order. */
  lemma {:induction false} DescendingIsStable<T>(key: T -> nat, s: seq<T>, top: nat, k: nat)
    ensures WithKey(key, Descending(key, s, top), k) == if k <= top then WithKey(key, s, k) else []
  {
    WithKeyTwice(key, s, top, k);
    if top > 0 {
      FilterConcat(HasKey(key, k), WithKey(key, s, top), Descending(key, s, top - 1));
      DescendingIsStable(key, s, top - 1, k);
    }
  }

  lemma WithKeyTwice<T>(key: T -> nat, s: seq<T>, j: nat, k: nat)
    ensures WithKey(key, WithKey(key, s, j), k) == if j == k then WithKey(key, s, k) else []
  {
    FilterMembers(HasKey(key, j), s);
    if j == k {
      FilterTwice(HasKey(key, k), s);
    } else {
      FilterNone(HasKey(key, k), WithKey(key, s, j));
    }
  }

  /** Keys never rise along Descending. */
  lemma {:induction false} DescendingIsSorted<T>(key: T -> nat, s: seq<T>, top: nat)
    ensures forall i :: 0 <= i < |Descending(key, s, top)| ==> key(Descending(key, s, top)[i]) <= top
    ensures forall i, j :: 0 <= i < j < |Descending(key, s, top)| ==>
      key(Descending(key, s, top)[i]) >= key(Descending(key, s, top)[j])
  {
    FilterMembers(HasKey(key, top), s);
    if top > 0 {
      DescendingIsSorted(key, s, top - 1);
    }
  }
}
