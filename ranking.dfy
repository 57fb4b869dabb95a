/** `list.sort(key=..., reverse=True)`: Python's sort is stable, also in
    reverse mode, so entries with equal keys keep their input order. The
    sort is specified by a functional insertion sort and carried out in
    place on an array. */
module Ranking {
  import opened Lists

  /** Every entry's key is at least that of every entry after it. */
  ghost predicate NonIncreasing<T>(s: seq<T>, key: T -> real)
  {
    forall i, j :: 0 <= i < j < |s| ==> key(s[i]) >= key(s[j])
  }

  /** The entries whose key is `k`, in their order in `s`. */
  function WithKey<T>(s: seq<T>, key: T -> real, k: real): seq<T>
  {
    if s == [] then []
    else WithKey(s[..|s| - 1], key, k) + (if key(s[|s| - 1]) == k then [s[|s| - 1]] else [])
  }

  /** Inserts `x` into `s` after every entry whose key is at least `x`'s. */
  function InsertByKey<T>(s: seq<T>, x: T, key: T -> real): (r: seq<T>)
    ensures |r| == |s| + 1
  {
    if s == [] || key(s[|s| - 1]) >= key(x) then s + [x]
    else InsertByKey(s[..|s| - 1], x, key) + [s[|s| - 1]]
  }

  /** Stable descending sort by `key`. */
  function SortByKeyDesc<T>(s: seq<T>, key: T -> real): (r: seq<T>)
    ensures |r| == |s|
  {
    if s == [] then []
    else InsertByKey(SortByKeyDesc(s[..|s| - 1], key), s[|s| - 1], key)
  }

  lemma {:induction false} InsertPermutes<T>(s: seq<T>, x: T, key: T -> real)
    ensures multiset(InsertByKey(s, x, key)) == multiset(s) + multiset{x}
  {
    if s != [] && key(s[|s| - 1]) < key(x) {
      assert s == s[..|s| - 1] + [s[|s| - 1]];
      InsertPermutes(s[..|s| - 1], x, key);
    }
  }

  /** The sorted list is a permutation of the input. */
  lemma {:induction false} SortedPermutes<T>(s: seq<T>, key: T -> real)
    ensures multiset(SortByKeyDesc(s, key)) == multiset(s)
  {
    if s != [] {
      assert s == s[..|s| - 1] + [s[|s| - 1]];
      SortedPermutes(s[..|s| - 1], key);
      InsertPermutes(SortByKeyDesc(s[..|s| - 1], key), s[|s| - 1], key);
    }
  }

  lemma {:induction false} WithKeyAppend<T>(a: seq<T>, b: seq<T>, key: T -> real, k: real)
    ensures WithKey(a + b, key, k) == WithKey(a, key, k) + WithKey(b, key, k)
  {
    if b != [] {
      var b' := b[..|b| - 1];
      assert (a + b)[..|a + b| - 1] == a + b';
      WithKeyAppend(a, b', key, k);
    } else {
      assert a + b == a;
    }
  }

  lemma {:induction false} InsertSorted<T>(s: seq<T>, x: T, key: T -> real)
    requires NonIncreasing(s, key)
    ensures NonIncreasing(InsertByKey(s, x, key), key)
  {
    if s != [] && key(s[|s| - 1]) < key(x) {
      var init := s[..|s| - 1];
      var last := s[|s| - 1];
      InsertSorted(init, x, key);
      var r := InsertByKey(init, x, key);
      InsertKeysAtLeast(init, x, key, key(last));
      forall i, j | 0 <= i < j < |r + [last]| ensures key((r + [last])[i]) >= key((r + [last])[j]) {
        if j == |r| {
          assert (r + [last])[i] == r[i];
        }
      }
    }
  }

  /** A lower bound on every key survives an insertion that respects it. */
  lemma {:induction false} InsertKeysAtLeast<T>(s: seq<T>, x: T, key: T -> real, bound: real)
    requires forall i :: 0 <= i < |s| ==> key(s[i]) >= bound
    requires key(x) >= bound
    ensures forall i :: 0 <= i < |InsertByKey(s, x, key)| ==> key(InsertByKey(s, x, key)[i]) >= bound
  {
    if s != [] && key(s[|s| - 1]) < key(x) {
      InsertKeysAtLeast(s[..|s| - 1], x, key, bound);
    }
  }

  lemma {:induction false} InsertStable<T>(s: seq<T>, x: T, key: T -> real, k: real)
    ensures WithKey(InsertByKey(s, x, key), key, k)
         == WithKey(s, key, k) + (if key(x) == k then [x] else [])
  {
    if s == [] || key(s[|s| - 1]) >= key(x) {
    } else {
      var init := s[..|s| - 1];
      var last := s[|s| - 1];
      var r := InsertByKey(init, x, key);
      InsertStable(init, x, key, k);
      assert (r + [last])[..|r + [last]| - 1] == r;
      assert WithKey(r + [last], key, k) == WithKey(r, key, k) + (if key(last) == k then [last] else []);
    }
  }

  /** The sorted list is non-increasing in the key. */
  lemma {:induction false} SortedNonIncreasing<T>(s: seq<T>, key: T -> real)
    ensures NonIncreasing(SortByKeyDesc(s, key), key)
  {
    if s != [] {
      SortedNonIncreasing(s[..|s| - 1], key);
      InsertSorted(SortByKeyDesc(s[..|s| - 1], key), s[|s| - 1], key);
    }
  }

  /** Stability: for every key value, the entries with that key appear in
      the sorted list in the same order as in the input. */
  lemma {:induction false} SortedStable<T>(s: seq<T>, key: T -> real, k: real)
    ensures WithKey(SortByKeyDesc(s, key), key, k) == WithKey(s, key, k)
  {
    if s != [] {
      var init := s[..|s| - 1];
      SortedStable(init, key, k);
      InsertStable(SortByKeyDesc(init, key), s[|s| - 1], key, k);
    }
  }

  /** Sorts `a` in place: the stable descending order by `key`. */
  method SortInPlace<T>(a: array<T>, key: T -> real)
    modifies a
    ensures a[..] == SortByKeyDesc(old(a[..]), key)
  {
    var i := 0;
    while i < a.Length
      invariant 0 <= i <= a.Length
      invariant a[..i] == SortByKeyDesc(old(a[..])[..i], key)
      invariant a[i..] == old(a[..])[i..]
    {
      ghost var before := a[..];
      InsertNext(a, i, key);
      assert old(a[..])[..i + 1][..i] == old(a[..])[..i];
      assert old(a[..])[..i + 1][i] == before[i];
      i := i + 1;
    }
    assert old(a[..])[..a.Length] == old(a[..]);
  }

  /** `entries.sort(key=key, reverse=True)` on a fresh list followed by
      `entries[:n]`: the first `n` entries in stable descending key order. */
  method SortAndTruncate<T>(entries: seq<T>, key: T -> real, n: nat) returns (top: seq<T>)
    ensures top == Take(SortByKeyDesc(entries, key), n)
    ensures |top| == Min(n, |entries|)
    ensures NonIncreasing(top, key)
    ensures forall x :: x in top ==> x in entries
  {
    var a := new T[|entries|](k requires 0 <= k < |entries| => entries[k]);
    assert a[..] == entries;
    SortInPlace(a, key);
    var sorted := a[..];
    top := Take(sorted, n);
    SortedNonIncreasing(entries, key);
    SortedPermutes(entries, key);
    forall x | x in top ensures x in entries {
      assert x in multiset(sorted);
    }
  }

  /** One step of insertion sort: moves `a[i]` into the sorted prefix `a[..i]`. */
  method InsertNext<T>(a: array<T>, i: nat, key: T -> real)
    requires i < a.Length
    modifies a
    ensures a[..i + 1] == InsertByKey(old(a[..i]), old(a[i]), key)
    ensures a[i + 1..] == old(a[i + 1..])
  {
    var x := a[i];
    ghost var sorted := a[..i];
    var j := i;
    while j > 0 && key(a[j - 1]) < key(x)
      invariant 0 <= j <= i
      invariant forall k :: 0 <= k < j ==> a[k] == sorted[k]
      invariant forall k :: j < k <= i ==> a[k] == sorted[k - 1]
      invariant forall k :: i < k < a.Length ==> a[k] == old(a[k])
      invariant forall k :: j <= k < i ==> key(sorted[k]) < key(x)
    {
      a[j] := a[j - 1];
      j := j - 1;
    }
    a[j] := x;
    InsertPosition(sorted, x, key, j);
    ghost var r := sorted[..j] + [x] + sorted[j..];
    assert forall k :: 0 <= k <= i ==> a[k] == r[k];
    assert a[..i + 1] == r;
  }

  /** `InsertByKey` puts `x` right after the last entry whose key is at least
      `x`'s: at the position `j` below which the keys are large enough and
      from which on they are all smaller. */
  lemma {:induction false} InsertPosition<T>(s: seq<T>, x: T, key: T -> real, j: nat)
    requires j <= |s|
    requires j == 0 || key(s[j - 1]) >= key(x)
    requires forall k :: j <= k < |s| ==> key(s[k]) < key(x)
    ensures InsertByKey(s, x, key) == s[..j] + [x] + s[j..]
  {
    if j < |s| {
      var init, last := s[..|s| - 1], s[|s| - 1];
      assert init[..j] == s[..j];
      assert j > 0 ==> init[j - 1] == s[j - 1];
      assert forall k :: j <= k < |init| ==> init[k] == s[k];
      InsertPosition(init, x, key, j);
      assert key(last) < key(x);
      assert InsertByKey(s, x, key) == InsertByKey(init, x, key) + [last];
      assert s[j..] == init[j..] + [last];
    } else {
      assert s[..j] == s;
      assert s[j..] == [];
    }
  }
}
