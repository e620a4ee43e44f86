/**
 * A stable insertion sort over sequences, parameterised by a "may come
 * before" relation. It models `Array.prototype.sort` with a comparator,
 * which is stable: elements the comparator calls equal keep their input order.
 */
module Sorting {

  /** `before` relates every pair one way or the other. */
  ghost predicate Total<T(!new)>(before: (T, T) -> bool) {
    forall a, b :: before(a, b) || before(b, a)
  }

  /** `before` is transitive. */
  ghost predicate Transitive<T(!new)>(before: (T, T) -> bool) {
    forall a, b, c :: before(a, b) && before(b, c) ==> before(a, c)
  }

  /** Every earlier element may come before every later one. */
  ghost predicate SortedBy<T>(xs: seq<T>, before: (T, T) -> bool) {
    forall i, j :: 0 <= i < j < |xs| ==> before(xs[i], xs[j])
  }

  /**
   * Places `x` in front of the first element it may precede. Since `x`
   * comes earlier in the input than everything in `xs`, it lands in front
   * of all the elements equal to it, which keeps the sort stable.
   */
  function Insert<T>(x: T, xs: seq<T>, before: (T, T) -> bool): (r: seq<T>)
    ensures multiset(r) == multiset(xs) + multiset{x}
    ensures |r| == |xs| + 1
  {
    if xs == [] then [x]
    else if before(x, xs[0]) then [x] + xs
    else
      assert xs == [xs[0]] + xs[1..];
      [xs[0]] + Insert(x, xs[1..], before)
  }

  /** Sorts `xs` by `before`; the result is always a permutation of `xs`. */
  function Sort<T>(xs: seq<T>, before: (T, T) -> bool): (r: seq<T>)
    ensures multiset(r) == multiset(xs)
    ensures |r| == |xs|
  {
    if xs == [] then []
    else
      assert xs == [xs[0]] + xs[1..];
      Insert(xs[0], Sort(xs[1..], before), before)
  }

  lemma {:induction false} InsertSorted<T(!new)>(x: T, xs: seq<T>, before: (T, T) -> bool)
    requires Total(before) && Transitive(before)
    requires SortedBy(xs, before)
    ensures SortedBy(Insert(x, xs, before), before)
  {
    if xs == [] {
    } else if before(x, xs[0]) {
      var r := [x] + xs;
      forall i, j | 0 <= i < j < |r|
        ensures before(r[i], r[j])
      {
        if i > 0 {
          assert before(xs[i - 1], xs[j - 1]);
        } else if j > 1 {
          assert before(xs[0], xs[j - 1]);
        }
      }
    } else {
      var tail := Insert(x, xs[1..], before);
      InsertSorted(x, xs[1..], before);
      var r := [xs[0]] + tail;
      assert before(xs[0], x);
      forall j | 0 <= j < |tail|
        ensures before(xs[0], tail[j])
      {
        assert tail[j] in multiset(tail);
        assert tail[j] in multiset(xs[1..]) + multiset{x};
        if tail[j] != x {
          assert tail[j] in multiset(xs[1..]);
          var k :| 0 <= k < |xs[1..]| && xs[1..][k] == tail[j];
          assert before(xs[0], xs[k + 1]);
        }
      }
      forall i, j | 0 <= i < j < |r|
        ensures before(r[i], r[j])
      {
        if i > 0 {
          assert before(tail[i - 1], tail[j - 1]);
        } else {
          assert before(xs[0], tail[j - 1]);
        }
      }
    }
  }

  /** With a total, transitive relation the sort really sorts. */
  lemma {:induction false} SortSorted<T(!new)>(xs: seq<T>, before: (T, T) -> bool)
    requires Total(before) && Transitive(before)
    ensures SortedBy(Sort(xs, before), before)
  {
    if xs != [] {
      SortSorted(xs[1..], before);
      InsertSorted(xs[0], Sort(xs[1..], before), before);
    }
  }

  /** The comparator calls `a` and `b` equal: each may come before the other. */
  predicate Tied<T>(before: (T, T) -> bool, a: T, b: T) {
    before(a, b) && before(b, a)
  }

  /** The elements of `xs` tied with `z`, in their order in `xs`. */
  function TiesOf<T>(xs: seq<T>, z: T, before: (T, T) -> bool): (r: seq<T>)
    ensures forall x :: x in r ==> x in xs && Tied(before, x, z)
  {
    if xs == [] then []
    else (if Tied(before, xs[0], z) then [xs[0]] else []) + TiesOf(xs[1..], z, before)
  }

  /** Two elements tied with the same `z` may each come before the other. */
  lemma TiesChain<T(!new)>(before: (T, T) -> bool, a: T, b: T, z: T)
    requires Transitive(before)
    ensures Tied(before, a, z) && Tied(before, b, z) ==> before(a, b)
  {
  }

  /** The ties of a sequence with a known first element. */
  lemma TiesOfCons<T>(a: T, xs: seq<T>, z: T, before: (T, T) -> bool)
    ensures TiesOf([a] + xs, z, before) == (if Tied(before, a, z) then [a] else []) + TiesOf(xs, z, before)
  {
    assert ([a] + xs)[1..] == xs;
  }

  /**
   * Inserting `x` in front of a sequence puts it ahead of every element tied
   * with it, and leaves the order of the other ties alone.
   */
  lemma {:induction false} InsertStable<T(!new)>(x: T, xs: seq<T>, before: (T, T) -> bool, z: T)
    requires Transitive(before)
    ensures TiesOf(Insert(x, xs, before), z, before) ==
      (if Tied(before, x, z) then [x] else []) + TiesOf(xs, z, before)
  {
    var own := if Tied(before, x, z) then [x] else [];
    if xs == [] {
      TiesOfCons(x, [], z, before);
    } else if before(x, xs[0]) {
      TiesOfCons(x, xs, z, before);
    } else {
      var tail := Insert(x, xs[1..], before);
      var head := if Tied(before, xs[0], z) then [xs[0]] else [];
      TiesChain(before, x, xs[0], z);
      assert head == [] || own == [];
      calc {
        TiesOf(Insert(x, xs, before), z, before);
        TiesOf([xs[0]] + tail, z, before);
        { TiesOfCons(xs[0], tail, z, before); }
        head + TiesOf(tail, z, before);
        { InsertStable(x, xs[1..], before, z); }
        head + (own + TiesOf(xs[1..], z, before));
        { SwapEmpty(head, own, TiesOf(xs[1..], z, before)); }
        own + (head + TiesOf(xs[1..], z, before));
        { TiesOfCons(xs[0], xs[1..], z, before); assert [xs[0]] + xs[1..] == xs; }
        own + TiesOf(xs, z, before);
      }
    }
  }

  /** Two prefixes, one of them empty, may be put in either order. */
  lemma SwapEmpty<T>(a: seq<T>, b: seq<T>, rest: seq<T>)
    requires a == [] || b == []
    ensures a + (b + rest) == b + (a + rest)
  {
    if a == [] {
      assert a + (b + rest) == b + rest;
    } else {
      assert b + (a + rest) == a + rest;
    }
  }

  /**
   * The sort is stable: for any `z`, the elements the comparator ties with
   * `z` come out in the order they went in.
   */
  lemma {:induction false} SortStable<T(!new)>(xs: seq<T>, before: (T, T) -> bool, z: T)
    requires Transitive(before)
    ensures TiesOf(Sort(xs, before), z, before) == TiesOf(xs, z, before)
  {
    if xs != [] {
      SortStable(xs[1..], before, z);
      InsertStable(xs[0], Sort(xs[1..], before), before, z);
    }
  }

  /** Reverses a sequence. */
  function Reverse<T>(xs: seq<T>): (r: seq<T>)
    ensures |r| == |xs|
    ensures forall i :: 0 <= i < |xs| ==> r[i] == xs[|xs| - 1 - i]
  {
    if xs == [] then [] else Reverse(xs[1..]) + [xs[0]]
  }

  /** Inserting an element that may precede nothing puts it last. */
  lemma {:induction false} InsertLast<T>(x: T, xs: seq<T>, before: (T, T) -> bool)
    requires forall i :: 0 <= i < |xs| ==> !before(x, xs[i])
    ensures Insert(x, xs, before) == xs + [x]
  {
    if xs != [] {
      InsertLast(x, xs[1..], before);
      assert [xs[0]] + (xs[1..] + [x]) == xs + [x];
    }
  }

  /**
   * When every element is strictly "after" all the later ones, i.e. the
   * input is in exactly the opposite order, sorting reverses it.
   */
  lemma {:induction false} SortReversesOpposite<T>(xs: seq<T>, before: (T, T) -> bool)
    requires forall i, j :: 0 <= i < j < |xs| ==> !before(xs[i], xs[j])
    ensures Sort(xs, before) == Reverse(xs)
  {
    if xs != [] {
      SortReversesOpposite(xs[1..], before);
      var rest := Reverse(xs[1..]);
      forall i | 0 <= i < |rest|
        ensures !before(xs[0], rest[i])
      {
        assert rest[i] == xs[1..][|xs[1..]| - 1 - i];
      }
      InsertLast(xs[0], rest, before);
    }
  }

  /** The sort keeps exactly the elements it was given. */
  lemma SortSameElements<T>(xs: seq<T>, before: (T, T) -> bool)
    ensures forall x :: x in Sort(xs, before) <==> x in xs
  {
    var r := Sort(xs, before);
    forall x
      ensures x in r <==> x in xs
    {
      assert x in r <==> x in multiset(r);
      assert x in xs <==> x in multiset(xs);
    }
  }

  /** No two elements share a key. */
  ghost predicate DistinctKeys<T, K>(xs: seq<T>, key: T -> K) {
    forall i, j :: 0 <= i < j < |xs| ==> key(xs[i]) != key(xs[j])
  }

  lemma {:induction false} InsertKeepsKeysDistinct<T, K>(x: T, xs: seq<T>, before: (T, T) -> bool, key: T -> K)
    requires DistinctKeys(xs, key)
    requires forall i :: 0 <= i < |xs| ==> key(xs[i]) != key(x)
    ensures DistinctKeys(Insert(x, xs, before), key)
  {
    if xs == [] {
    } else if before(x, xs[0]) {
      var r := [x] + xs;
      forall i, j | 0 <= i < j < |r|
        ensures key(r[i]) != key(r[j])
      {
        if i > 0 {
          assert key(xs[i - 1]) != key(xs[j - 1]);
        } else {
          assert key(xs[j - 1]) != key(x);
        }
      }
    } else {
      var tail := Insert(x, xs[1..], before);
      InsertKeepsKeysDistinct(x, xs[1..], before, key);
      forall j | 0 <= j < |tail|
        ensures key(xs[0]) != key(tail[j])
      {
        assert tail[j] in multiset(xs[1..]) + multiset{x};
        if tail[j] != x {
          assert tail[j] in multiset(xs[1..]);
          var k :| 0 <= k < |xs[1..]| && xs[1..][k] == tail[j];
          assert key(xs[0]) != key(xs[k + 1]);
        }
      }
      var r := [xs[0]] + tail;
      forall i, j | 0 <= i < j < |r|
        ensures key(r[i]) != key(r[j])
      {
        if i > 0 {
          assert key(tail[i - 1]) != key(tail[j - 1]);
        } else {
          assert key(xs[0]) != key(tail[j - 1]);
        }
      }
    }
  }

  /** Sorting never makes two elements share a key. */
  lemma {:induction false} SortKeepsKeysDistinct<T, K>(xs: seq<T>, before: (T, T) -> bool, key: T -> K)
    requires DistinctKeys(xs, key)
    ensures DistinctKeys(Sort(xs, before), key)
  {
    if xs != [] {
      var rest := Sort(xs[1..], before);
      SortKeepsKeysDistinct(xs[1..], before, key);
      forall i | 0 <= i < |rest|
        ensures key(rest[i]) != key(xs[0])
      {
        assert rest[i] in multiset(xs[1..]);
        var k :| 0 <= k < |xs[1..]| && xs[1..][k] == rest[i];
        assert rest[i] == xs[k + 1];
      }
      InsertKeepsKeysDistinct(xs[0], rest, before, key);
    }
  }
}
