/** Sequence utilities shared by the analysis passes: a stable sort by a
    real-valued key (the passes call `std::sort` with a comparison on one
    field; a stable order is one of the orders it may produce), filtering,
    mapping and summing. */
module Sequences {

  /** `s` is in ascending order of `key`. A descending order is an ascending
      order of the negated key. */
  predicate SortedBy<T>(s: seq<T>, key: T -> real)
  {
    forall i, j :: 0 <= i < j < |s| ==> key(s[i]) <= key(s[j])
  }

  /** Inserts `x` into the sorted `s` in front of the first element whose key
      is not smaller, so that equal keys keep their relative order. */
  function InsertBy<T>(x: T, s: seq<T>, key: T -> real): (r: seq<T>)
    requires SortedBy(s, key)
    ensures |r| == |s| + 1
    ensures multiset(r) == multiset(s) + multiset{x}
    ensures SortedBy(r, key)
  {
    if s == [] || key(x) <= key(s[0]) then [x] + s
    else
      var rest := InsertBy(x, s[1..], key);
      HeadBelowRest(x, s, key, rest);
      assert s == [s[0]] + s[1..];
      [s[0]] + rest
  }

  /** When `x` goes after the head of the sorted `s`, every element of the
      rest (the tail of `s` with `x` inserted) has a key at least the
      head's. */
  lemma HeadBelowRest<T>(x: T, s: seq<T>, key: T -> real, rest: seq<T>)
    requires SortedBy(s, key) && s != [] && key(x) > key(s[0])
    requires multiset(rest) == multiset(s[1..]) + multiset{x}
    ensures forall k :: 0 <= k < |rest| ==> key(s[0]) <= key(rest[k])
  {
    forall k | 0 <= k < |rest|
      ensures key(s[0]) <= key(rest[k])
    {
      assert rest[k] in multiset(rest);
      if rest[k] != x {
        assert rest[k] in multiset(s[1..]);
        var m :| 0 <= m < |s[1..]| && s[1..][m] == rest[k];
        assert s[1 + m] == rest[k];
      }
    }
  }

  /** Insertion sort: a permutation of `s` in ascending order of `key`. */
  function SortBy<T>(s: seq<T>, key: T -> real): (r: seq<T>)
    ensures |r| == |s|
    ensures multiset(r) == multiset(s)
    ensures SortedBy(r, key)
  {
    if s == [] then []
    else
      assert s == [s[0]] + s[1..];
      InsertBy(s[0], SortBy(s[1..], key), key)
  }

  /** A map that keeps the sort key commutes with sorting: sorting the
      images gives the images of the sorted sequence, in the same order. */
  lemma {:induction false} SortByMap<T, U>(s: seq<T>, key: T -> real, f: T -> U, key': U -> real)
    requires forall x :: key'(f(x)) == key(x)
    ensures SortBy(Map(s, f), key') == Map(SortBy(s, key), f)
  {
    if s != [] {
      assert Map(s, f)[0] == f(s[0]);
      assert Map(s, f)[1..] == Map(s[1..], f);
      SortByMap(s[1..], key, f, key');
      InsertByMap(s[0], SortBy(s[1..], key), key, f, key');
    }
  }

  lemma {:induction false} InsertByMap<T, U>(x: T, s: seq<T>, key: T -> real, f: T -> U, key': U -> real)
    requires SortedBy(s, key)
    requires forall y :: key'(f(y)) == key(y)
    ensures SortedBy(Map(s, f), key')
    ensures InsertBy(f(x), Map(s, f), key') == Map(InsertBy(x, s, key), f)
  {
    assert SortedBy(Map(s, f), key') by {
      forall i, j | 0 <= i < j < |s|
        ensures key'(Map(s, f)[i]) <= key'(Map(s, f)[j])
      {
        assert key'(f(s[i])) == key(s[i]) && key'(f(s[j])) == key(s[j]);
      }
    }
    if s != [] && key(x) > key(s[0]) {
      assert Map(s, f)[1..] == Map(s[1..], f);
      assert key'(f(x)) == key(x) && key'(Map(s, f)[0]) == key(s[0]);
      InsertByMap(x, s[1..], key, f, key');
      assert Map([s[0]] + InsertBy(x, s[1..], key), f) == [f(s[0])] + Map(InsertBy(x, s[1..], key), f);
    } else {
      assert Map([x] + s, f) == [f(x)] + Map(s, f);
    }
  }

  /** The elements `x` of `s` with `test(x) == keep`, in their original order. */
  function Filter<T>(s: seq<T>, test: T -> bool, keep: bool): (r: seq<T>)
    ensures |r| <= |s|
    ensures forall k :: 0 <= k < |r| ==> test(r[k]) == keep
    ensures forall x :: x in s && test(x) == keep ==> x in r
    ensures multiset(r) <= multiset(s)
  {
    if s == [] then []
    else
      assert s == [s[0]] + s[1..];
      if test(s[0]) == keep then [s[0]] + Filter(s[1..], test, keep)
      else Filter(s[1..], test, keep)
  }

  /** Splitting a sequence by a test loses and duplicates nothing. */
  lemma {:induction false} FilterPartition<T>(s: seq<T>, test: T -> bool)
    ensures multiset(Filter(s, test, true)) + multiset(Filter(s, test, false)) == multiset(s)
  {
    if s != [] {
      FilterPartition(s[1..], test);
      assert s == [s[0]] + s[1..];
    }
  }

  function Map<T, U>(s: seq<T>, f: T -> U): (r: seq<U>)
    ensures |r| == |s|
    ensures forall k :: 0 <= k < |s| ==> r[k] == f(s[k])
  {
    seq(|s|, k requires 0 <= k < |s| => f(s[k]))
  }

  lemma MapAppend<T, U>(a: seq<T>, b: seq<T>, f: T -> U)
    ensures Map(a + b, f) == Map(a, f) + Map(b, f)
  {
  }

  /** The multiset of a non-empty mapped sequence: the first image and the
      images of the rest. */
  lemma MapCons<T, U>(s: seq<T>, f: T -> U)
    requires s != []
    ensures multiset(Map(s, f)) == multiset{f(s[0])} + multiset(Map(s[1..], f))
  {
    assert s == [s[0]] + s[1..];
    MapAppend([s[0]], s[1..], f);
    assert Map([s[0]], f) == [f(s[0])];
  }

  /** Mapping two permutations of each other gives two permutations of each
      other. */
  lemma {:induction false} MapPermutation<T, U>(a: seq<T>, b: seq<T>, f: T -> U)
    requires multiset(a) == multiset(b)
    ensures multiset(Map(a, f)) == multiset(Map(b, f))
  {
    if a == [] {
      assert |b| == |multiset(b)| == 0;
    } else {
      var x := a[0];
      assert x in multiset(b);
      var k :| 0 <= k < |b| && b[k] == x;
      var b' := b[..k] + b[k + 1..];
      assert a == [x] + a[1..];
      assert multiset(a[1..]) == multiset(a) - multiset{x};
      RemoveAt(b, k);
      assert multiset(a[1..]) == multiset(b');
      MapPermutation(a[1..], b', f);
      MapRemoveAt(b, k, f);
      MapAppend([x], a[1..], f);
      assert Map([x], f) == [f(x)];
      assert Map(a, f) == Map([x], f) + Map(a[1..], f);
    }
  }

  /** Removing the element at `k` removes one copy of it from the multiset. */
  lemma RemoveAt<T>(b: seq<T>, k: nat)
    requires k < |b|
    ensures multiset(b[..k] + b[k + 1..]) == multiset(b) - multiset{b[k]}
  {
    assert b == b[..k] + [b[k]] + b[k + 1..];
  }

  /** Mapping commutes with removing the element at `k`, as multisets. */
  lemma MapRemoveAt<T, U>(b: seq<T>, k: nat, f: T -> U)
    requires k < |b|
    ensures multiset(Map(b, f)) == multiset(Map(b[..k] + b[k + 1..], f)) + multiset{f(b[k])}
  {
    assert b == b[..k] + [b[k]] + b[k + 1..];
    MapAppend(b[..k] + [b[k]], b[k + 1..], f);
    MapAppend(b[..k], [b[k]], f);
    MapAppend(b[..k], b[k + 1..], f);
  }

  /** The sum of `f` over the elements of `s`. */
  function Sum<T>(s: seq<T>, f: T -> real): real
  {
    if s == [] then 0.0 else f(s[0]) + Sum(s[1..], f)
  }

  lemma {:induction false} SumAppend<T>(a: seq<T>, b: seq<T>, f: T -> real)
    ensures Sum(a + b, f) == Sum(a, f) + Sum(b, f)
  {
    if a == [] {
      assert a + b == b;
    } else {
      assert (a + b)[0] == a[0];
      assert (a + b)[1..] == a[1..] + b;
      SumAppend(a[1..], b, f);
      calc {
        Sum(a + b, f);
        f(a[0]) + Sum(a[1..] + b, f);
        f(a[0]) + Sum(a[1..], f) + Sum(b, f);
      }
    }
  }

  lemma {:induction false} SumNonNegative<T>(s: seq<T>, f: T -> real)
    requires forall k :: 0 <= k < |s| ==> f(s[k]) >= 0.0
    ensures Sum(s, f) >= 0.0
  {
    if s != [] {
      SumNonNegative(s[1..], f);
    }
  }
}
