// Rust's ordering of `String` (lexicographic by character, which is also the
// order of the UTF-8 bytes), `sort`/`sort_unstable` by a string key and
// `Vec::dedup`, as the server state and the schema loader use them.

module Sorting {
  /// `a <= b` in Rust's `Ord for str`.
  predicate LessEq(a: string, b: string)
    decreases |a|
  {
    if a == [] then true
    else if b == [] then false
    else if a[0] != b[0] then a[0] < b[0]
    else LessEq(a[1..], b[1..])
  }

  lemma {:induction false} LessEqTotal(a: string, b: string)
    ensures LessEq(a, b) || LessEq(b, a)
    decreases |a|
  {
    if a != [] && b != [] && a[0] == b[0] {
      LessEqTotal(a[1..], b[1..]);
    }
  }

  lemma {:induction false} LessEqTransitive(a: string, b: string, c: string)
    requires LessEq(a, b) && LessEq(b, c)
    ensures LessEq(a, c)
    decreases |a|
  {
    if a != [] && b != [] && c != [] && a[0] == b[0] && b[0] == c[0] {
      LessEqTransitive(a[1..], b[1..], c[1..]);
    }
  }

  lemma {:induction false} LessEqAntisymmetric(a: string, b: string)
    requires LessEq(a, b) && LessEq(b, a)
    ensures a == b
    decreases |a|
  {
    if a != [] && b != [] {
      LessEqAntisymmetric(a[1..], b[1..]);
      assert a == [a[0]] + a[1..] && b == [b[0]] + b[1..];
    }
  }

  predicate SortedBy<T>(xs: seq<T>, key: T -> string)
  {
    forall i, j :: 0 <= i < j < |xs| ==> LessEq(key(xs[i]), key(xs[j]))
  }

  function Identity(s: string): string
  {
    s
  }

  predicate Sorted(xs: seq<string>)
  {
    SortedBy(xs, Identity)
  }

  /// Strictly increasing: sorted with no repeated element.
  predicate StrictlySorted(xs: seq<string>)
  {
    forall i, j :: 0 <= i < j < |xs| ==> LessEq(xs[i], xs[j]) && xs[i] != xs[j]
  }

  /// An element whose key is at most every key of `ys` can go in front.
  lemma ConsSorted<T>(h: T, ys: seq<T>, key: T -> string)
    requires SortedBy(ys, key)
    requires forall j :: 0 <= j < |ys| ==> LessEq(key(h), key(ys[j]))
    ensures SortedBy([h] + ys, key)
  {
    var zs := [h] + ys;
    forall i, j | 0 <= i < j < |zs| ensures LessEq(key(zs[i]), key(zs[j])) {
      assert zs[j] == ys[j - 1];
      if i > 0 { assert zs[i] == ys[i - 1]; }
    }
  }

  /// A bound below every key of `tail` and below `key(x)` is below every
  /// key of a permutation of `tail` plus `x`.
  lemma BelowAll<T>(h: T, rest: seq<T>, tail: seq<T>, x: T, key: T -> string)
    requires forall j :: 0 <= j < |tail| ==> LessEq(key(h), key(tail[j]))
    requires LessEq(key(h), key(x))
    requires multiset(rest) == multiset(tail) + multiset{x}
    ensures forall j :: 0 <= j < |rest| ==> LessEq(key(h), key(rest[j]))
  {
    forall j | 0 <= j < |rest| ensures LessEq(key(h), key(rest[j])) {
      assert rest[j] in multiset(rest);
      if rest[j] != x {
        assert rest[j] in multiset(tail);
        var k :| 0 <= k < |tail| && tail[k] == rest[j];
      }
    }
  }

  /// Puts `x` into the sorted `xs` after every element with a smaller key.
  function Insert<T(==)>(x: T, xs: seq<T>, key: T -> string): (r: seq<T>)
    requires SortedBy(xs, key)
    ensures SortedBy(r, key)
    ensures multiset(r) == multiset(xs) + multiset{x}
  {
    if xs == [] then [x]
    else if LessEq(key(x), key(xs[0])) then
      forall j | 0 <= j < |xs| ensures LessEq(key(x), key(xs[j])) {
        if j > 0 { LessEqTransitive(key(x), key(xs[0]), key(xs[j])); }
      }
      ConsSorted(x, xs, key);
      [x] + xs
    else
      var tail := xs[1..];
      assert SortedBy(tail, key) && forall j :: 0 <= j < |tail| ==> LessEq(key(xs[0]), key(tail[j])) by {
        assert forall j :: 0 <= j < |tail| ==> tail[j] == xs[j + 1];
      }
      var rest := Insert(x, tail, key);
      LessEqTotal(key(x), key(xs[0]));
      BelowAll(xs[0], rest, tail, x, key);
      ConsSorted(xs[0], rest, key);
      assert xs == [xs[0]] + tail;
      [xs[0]] + rest
  }

  /// `sort` by a string key: the result is ordered by key and is a
  /// permutation of the input.
  method SortBy<T(==)>(xs: seq<T>, key: T -> string) returns (ys: seq<T>)
    ensures SortedBy(ys, key)
    ensures multiset(ys) == multiset(xs)
  {
    ys := [];
    var i := 0;
    while i < |xs|
      invariant 0 <= i <= |xs|
      invariant SortedBy(ys, key)
      invariant multiset(ys) == multiset(xs[..i])
    {
      ys := Insert(xs[i], ys, key);
      assert xs[..i + 1] == xs[..i] + [xs[i]];
      i := i + 1;
    }
    assert xs[..i] == xs;
  }

  /// `Vec::dedup` on a sorted vector: repeated neighbours collapse, so the
  /// result is strictly increasing and holds the same elements.
  method Dedup(xs: seq<string>) returns (ys: seq<string>)
    requires Sorted(xs)
    ensures StrictlySorted(ys)
    ensures forall x :: x in ys <==> x in xs
    ensures |ys| <= |xs|
  {
    ys := [];
    var i := 0;
    while i < |xs|
      invariant 0 <= i <= |xs| && |ys| <= i
      invariant StrictlySorted(ys)
      invariant forall x :: x in ys <==> x in xs[..i]
      invariant i > 0 ==> ys != [] && ys[|ys| - 1] == xs[i - 1]
    {
      if ys == [] || ys[|ys| - 1] != xs[i] {
        assert forall j :: 0 <= j < |ys| ==> LessEq(ys[j], xs[i]) && ys[j] != xs[i] by {
          forall j | 0 <= j < |ys| ensures LessEq(ys[j], xs[i]) && ys[j] != xs[i] {
            assert LessEq(Identity(xs[i - 1]), Identity(xs[i]));
            if j < |ys| - 1 {
              LessEqTransitive(ys[j], ys[|ys| - 1], xs[i]);
              if ys[j] == xs[i] { LessEqAntisymmetric(ys[j], ys[|ys| - 1]); }
            }
          }
        }
        ys := ys + [xs[i]];
      }
      assert xs[..i + 1] == xs[..i] + [xs[i]];
      i := i + 1;
    }
    assert xs[..i] == xs;
  }
}
