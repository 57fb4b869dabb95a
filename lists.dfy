/** Python list operations used by the matchers: `set(xs)`, `xs[:n]` and `min`. */
module Lists {

  function Min(a: int, b: int): int
  {
    if a <= b then a else b
  }

  /** `set(xs)`: the distinct elements of a list. */
  function SetOf<T(!new)>(xs: seq<T>): (r: set<T>)
    ensures forall x :: x in r <==> x in xs
  {
    set x | x in xs
  }

  /** A set built from a list is never larger than the list: duplicates only
      collapse. */
  lemma {:induction false} SetOfSize<T(!new)>(xs: seq<T>)
    ensures |SetOf(xs)| <= |xs|
  {
    if xs != [] {
      var init := xs[..|xs| - 1];
      SetOfSize(init);
      assert SetOf(xs) == SetOf(init) + {xs[|xs| - 1]};
    }
  }

  /** A subset is no larger than its superset. */
  lemma SubsetSize<T>(a: set<T>, b: set<T>)
    requires a <= b
    ensures |a| <= |b|
  {
    assert b == a + (b - a);
  }

  /** Appending an element already in the list leaves its set unchanged. */
  lemma SetOfAppendDuplicate<T(!new)>(xs: seq<T>, x: T)
    requires x in xs
    ensures SetOf(xs + [x]) == SetOf(xs)
  {
  }

  /** `[f(x) for x in xs if keep(x)]`. */
  function KeepMap<T, U>(xs: seq<T>, keep: T -> bool, f: T -> U): (r: seq<U>)
    ensures |r| <= |xs|
  {
    if xs == [] then []
    else (if keep(xs[0]) then [f(xs[0])] else []) + KeepMap(xs[1..], keep, f)
  }

  /** The comprehension over a concatenation is the concatenation of the
      comprehensions: order and duplicates survive. */
  lemma {:induction false} KeepMapAppend<T, U>(a: seq<T>, b: seq<T>, keep: T -> bool, f: T -> U)
    ensures KeepMap(a + b, keep, f) == KeepMap(a, keep, f) + KeepMap(b, keep, f)
  {
    if a != [] {
      assert (a + b)[1..] == a[1..] + b;
      KeepMapAppend(a[1..], b, keep, f);
    } else {
      assert a + b == b;
    }
  }

  /** Extending the prefix by one element appends its image when it is kept,
      and nothing otherwise: the comprehension, run as a loop. */
  lemma KeepMapPrefix<T, U>(xs: seq<T>, i: nat, keep: T -> bool, f: T -> U)
    requires i < |xs|
    ensures KeepMap(xs[..i + 1], keep, f) == KeepMap(xs[..i], keep, f) + (if keep(xs[i]) then [f(xs[i])] else [])
  {
    assert xs[..i + 1] == xs[..i] + [xs[i]];
    KeepMapAppend(xs[..i], [xs[i]], keep, f);
    assert [xs[i]][1..] == [];
  }

  /** A value is produced exactly when some kept element maps to it. */
  lemma {:induction false} KeepMapMember<T, U>(xs: seq<T>, keep: T -> bool, f: T -> U, y: U)
    ensures y in KeepMap(xs, keep, f) <==> exists x :: x in xs && keep(x) && f(x) == y
  {
    if xs != [] {
      KeepMapMember(xs[1..], keep, f, y);
      if exists x :: x in xs && keep(x) && f(x) == y {
        var x :| x in xs && keep(x) && f(x) == y;
        if x != xs[0] {
          assert x in xs[1..];
        }
      }
      if y in KeepMap(xs[1..], keep, f) {
        var x :| x in xs[1..] && keep(x) && f(x) == y;
        assert x in xs;
      }
    }
  }

  /** `xs[:n]` for a non-negative `n`: Python clamps the bound to the length. */
  function Take<T>(xs: seq<T>, n: nat): (r: seq<T>)
    ensures |r| <= n && |r| <= |xs|
    ensures r == xs[..|r|]
    ensures |xs| <= n ==> r == xs
    ensures n <= |xs| ==> |r| == n
  {
    xs[..Min(n, |xs|)]
  }
}
