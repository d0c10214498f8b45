/** The optional values the handlers read from request bodies and table rows. */
module Options {
  datatype Option<T> = None | Some(value: T)
}

/**
 * Sequence utilities shared by the summarizer and the handlers: the stable
 * key sort that stands for Python's `sorted(..., key=...)` and `list.sort(key=...)`,
 * Python's `xs[:k]` slice, and flattening.
 */
module Sequences {

  function Min(a: int, b: int): int { if a <= b then a else b }

  function Max(a: int, b: int): int { if a >= b then a else b }

  /** Python's `xs[:k]`: a negative `k` counts from the end. */
  function TakePrefix<T>(xs: seq<T>, k: int): seq<T>
  {
    if k >= 0 then xs[..Min(k, |xs|)] else xs[..Max(0, |xs| + k)]
  }

  function Flatten<T>(parts: seq<seq<T>>): seq<T>
  {
    if parts == [] then [] else parts[0] + Flatten(parts[1..])
  }

  lemma {:induction false} FlattenAppend<T>(a: seq<seq<T>>, b: seq<seq<T>>)
    ensures Flatten(a + b) == Flatten(a) + Flatten(b)
  {
    if a != [] {
      assert (a + b)[0] == a[0] && (a + b)[1..] == a[1..] + b;
      FlattenAppend(a[1..], b);
    } else {
      assert a + b == b;
    }
  }

  predicate Distinct<T(==)>(s: seq<T>)
  {
    forall i, j :: 0 <= i < j < |s| ==> s[i] != s[j]
  }

  /** `xs` occurs in `ys` in the same relative order, possibly with gaps. */
  predicate IsSubsequence<T(==)>(xs: seq<T>, ys: seq<T>)
    decreases |ys|
  {
    if xs == [] then true
    else if ys == [] then false
    else if xs[0] == ys[0] then IsSubsequence(xs[1..], ys[1..])
    else IsSubsequence(xs, ys[1..])
  }

  // ---------------------------------------------------------------------------
  // Sort keys are pairs compared lexicographically, as Python compares tuples.

  predicate KeyLt(a: (int, int), b: (int, int))
  {
    a.0 < b.0 || (a.0 == b.0 && a.1 < b.1)
  }

  predicate KeyLe(a: (int, int), b: (int, int))
  {
    KeyLt(a, b) || a == b
  }

  predicate SortedBy<T>(s: seq<T>, key: T -> (int, int))
  {
    forall i, j :: 0 <= i < j < |s| ==> KeyLe(key(s[i]), key(s[j]))
  }

  /** The elements of `s` whose key is `k`, in their order in `s`. */
  function WithKey<T>(s: seq<T>, key: T -> (int, int), k: (int, int)): seq<T>
  {
    if s == [] then []
    else (if key(s[0]) == k then [s[0]] else []) + WithKey(s[1..], key, k)
  }

  /**
   * Inserts `x` after every element whose key is strictly smaller, so before
   * the elements whose key equals its own: inserting the earlier element into
   * the sorted rest keeps equal keys in input order.
   */
  function Insert<T(==)>(x: T, ys: seq<T>, key: T -> (int, int)): (r: seq<T>)
    ensures multiset(r) == multiset(ys) + multiset{x}
  {
    if ys == [] then [x]
    else if KeyLt(key(ys[0]), key(x)) then
      assert ys == [ys[0]] + ys[1..];
      [ys[0]] + Insert(x, ys[1..], key)
    else [x] + ys
  }

  lemma {:induction false} InsertSorted<T>(x: T, ys: seq<T>, key: T -> (int, int))
    requires SortedBy(ys, key)
    ensures SortedBy(Insert(x, ys, key), key)
  {
    if ys != [] && KeyLt(key(ys[0]), key(x)) {
      var rest := Insert(x, ys[1..], key);
      InsertSorted(x, ys[1..], key);
      forall z | z in rest
        ensures KeyLe(key(ys[0]), key(z))
      {
        assert z in multiset(rest);
        if z != x {
          assert z in ys[1..];
        }
      }
    }
  }

  lemma {:induction false} InsertWithKey<T>(x: T, ys: seq<T>, key: T -> (int, int), k: (int, int))
    ensures WithKey(Insert(x, ys, key), key, k)
         == (if key(x) == k then [x] else []) + WithKey(ys, key, k)
  {
    if ys == [] {
      WithKeyCons(x, [], key, k);
      assert [x] + [] == [x];
    } else if KeyLt(key(ys[0]), key(x)) {
      var rest := Insert(x, ys[1..], key);
      var tail := WithKey(ys[1..], key, k);
      var h := if key(ys[0]) == k then [ys[0]] else [];
      var hx := if key(x) == k then [x] else [];
      calc {
        WithKey(Insert(x, ys, key), key, k);
        WithKey([ys[0]] + rest, key, k);
        { WithKeyCons(ys[0], rest, key, k); }
        h + WithKey(rest, key, k);
        { InsertWithKey(x, ys[1..], key, k); }
        h + (hx + tail);
        { EmptySwap(h, hx, tail); }
        hx + (h + tail);
        { WithKeyCons(ys[0], ys[1..], key, k); assert [ys[0]] + ys[1..] == ys; }
        hx + WithKey(ys, key, k);
      }
    } else {
      WithKeyCons(x, ys, key, k);
    }
  }

  lemma EmptySwap<T>(a: seq<T>, b: seq<T>, c: seq<T>)
    requires a == [] || b == []
    ensures a + (b + c) == b + (a + c)
  {
    if a == [] {
      assert a + (b + c) == b + c == b + (a + c);
    } else {
      assert a + (b + c) == a + c == b + (a + c);
    }
  }

  lemma WithKeyCons<T>(y: T, ys: seq<T>, key: T -> (int, int), k: (int, int))
    ensures WithKey([y] + ys, key, k) == (if key(y) == k then [y] else []) + WithKey(ys, key, k)
  {
    assert ([y] + ys)[0] == y && ([y] + ys)[1..] == ys;
  }

  lemma {:induction false} InsertDistinct<T>(x: T, ys: seq<T>, key: T -> (int, int))
    requires Distinct(ys) && x !in ys
    ensures Distinct(Insert(x, ys, key))
  {
    if ys != [] && KeyLt(key(ys[0]), key(x)) {
      var rest := Insert(x, ys[1..], key);
      InsertDistinct(x, ys[1..], key);
      assert ys[0] !in multiset(rest);
    }
  }

  /**
   * Stable sort by `key`: insertion sort, the reference reading of Python's
   * `sorted` and `list.sort`, which are stable.
   */
  function SortBy<T(==)>(xs: seq<T>, key: T -> (int, int)): (r: seq<T>)
    ensures multiset(r) == multiset(xs)
    ensures SortedBy(r, key)
  {
    if xs == [] then []
    else
      var rest := SortBy(xs[1..], key);
      InsertSorted(xs[0], rest, key);
      assert xs == [xs[0]] + xs[1..];
      Insert(xs[0], rest, key)
  }

  lemma {:induction false} SortByStable<T>(xs: seq<T>, key: T -> (int, int), k: (int, int))
    ensures WithKey(SortBy(xs, key), key, k) == WithKey(xs, key, k)
  {
    if xs != [] {
      SortByStable(xs[1..], key, k);
      InsertWithKey(xs[0], SortBy(xs[1..], key), key, k);
    }
  }

  lemma {:induction false} SortByDistinct<T>(xs: seq<T>, key: T -> (int, int))
    requires Distinct(xs)
    ensures Distinct(SortBy(xs, key))
  {
    if xs != [] {
      var rest := SortBy(xs[1..], key);
      SortByDistinct(xs[1..], key);
      assert xs[0] !in multiset(xs[1..]);
      InsertDistinct(xs[0], rest, key);
    }
  }
}
