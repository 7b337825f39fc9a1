/**
 * The part of the ORM's querysets the ledger relies on: `filter` and
 * `exclude` keep or drop the rows a condition picks out without reordering
 * the rest, and `order_by` sorts rows by an integer key.
 */
module Querysets {

  /** `a` is `b` with some elements deleted: an order-preserving subsequence. */
  predicate IsSubsequence<T(==)>(a: seq<T>, b: seq<T>)
    decreases |b|
  {
    if b == [] then a == []
    else (a != [] && a[0] == b[0] && IsSubsequence(a[1..], b[1..])) || IsSubsequence(a, b[1..])
  }

  lemma {:induction false} SubsequenceRefl<T>(a: seq<T>)
    ensures IsSubsequence(a, a)
  {
    if a != [] {
      SubsequenceRefl(a[1..]);
    }
  }

  lemma {:induction false} SubsequenceTrans<T>(a: seq<T>, b: seq<T>, c: seq<T>)
    requires IsSubsequence(a, b) && IsSubsequence(b, c)
    ensures IsSubsequence(a, c)
    decreases |c|
  {
    if c != [] {
      if b != [] && b[0] == c[0] && IsSubsequence(b[1..], c[1..]) {
        if a != [] && a[0] == b[0] && IsSubsequence(a[1..], b[1..]) {
          SubsequenceTrans(a[1..], b[1..], c[1..]);
        } else {
          SubsequenceTrans(a, b[1..], c[1..]);
        }
      } else {
        SubsequenceTrans(a, b, c[1..]);
      }
    }
  }

  /** `queryset.filter(...)`: the rows satisfying `keep`, in their order. */
  function Select<T(!new)>(qs: seq<T>, keep: T -> bool): (r: seq<T>)
    ensures |r| <= |qs|
    ensures forall x :: x in r <==> x in qs && keep(x)
  {
    if qs == [] then []
    else (if keep(qs[0]) then [qs[0]] else []) + Select(qs[1..], keep)
  }

  /** `queryset.exclude(...)`: the rows not satisfying `drop`, in their order. */
  function Exclude<T(!new)>(qs: seq<T>, drop: T -> bool): (r: seq<T>)
    ensures |r| <= |qs|
    ensures forall x :: x in r <==> x in qs && !drop(x)
  {
    if qs == [] then []
    else (if drop(qs[0]) then [] else [qs[0]]) + Exclude(qs[1..], drop)
  }

  lemma {:induction false} SelectIsSubsequence<T(!new)>(qs: seq<T>, keep: T -> bool)
    ensures IsSubsequence(Select(qs, keep), qs)
  {
    if qs != [] {
      SelectIsSubsequence(qs[1..], keep);
      var r := Select(qs, keep);
      if keep(qs[0]) {
        assert r[0] == qs[0] && r[1..] == Select(qs[1..], keep);
      } else {
        assert r == Select(qs[1..], keep);
      }
    }
  }

  lemma {:induction false} ExcludeIsSubsequence<T(!new)>(qs: seq<T>, drop: T -> bool)
    ensures IsSubsequence(Exclude(qs, drop), qs)
  {
    if qs != [] {
      ExcludeIsSubsequence(qs[1..], drop);
      var r := Exclude(qs, drop);
      if !drop(qs[0]) {
        assert r[0] == qs[0] && r[1..] == Exclude(qs[1..], drop);
      } else {
        assert r == Exclude(qs[1..], drop);
      }
    }
  }

  /** `filter(p)` and `exclude(p)` split the rows between them: each row lands in exactly one. */
  lemma {:induction false} SelectExcludePartition<T(!new)>(qs: seq<T>, p: T -> bool)
    ensures multiset(Select(qs, p)) + multiset(Exclude(qs, p)) == multiset(qs)
  {
    if qs != [] {
      var x, rest := qs[0], qs[1..];
      assert qs == [x] + rest;
      SelectExcludePartition(rest, p);
      if p(x) {
        assert Select(qs, p) == [x] + Select(rest, p) && Exclude(qs, p) == Exclude(rest, p);
        assert multiset(Select(qs, p)) == multiset{x} + multiset(Select(rest, p));
      } else {
        assert Exclude(qs, p) == [x] + Exclude(rest, p) && Select(qs, p) == Select(rest, p);
        assert multiset(Exclude(qs, p)) == multiset{x} + multiset(Exclude(rest, p));
      }
    }
  }

  /** A condition no row satisfies selects nothing. */
  lemma {:induction false} SelectNone<T(!new)>(qs: seq<T>, keep: T -> bool)
    requires forall x :: x in qs ==> !keep(x)
    ensures Select(qs, keep) == []
  {
    if qs != [] {
      SelectNone(qs[1..], keep);
    }
  }

  /** Filtering a concatenation filters each part. */
  lemma {:induction false} SelectAppend<T(!new)>(a: seq<T>, b: seq<T>, keep: T -> bool)
    ensures Select(a + b, keep) == Select(a, keep) + Select(b, keep)
  {
    if a != [] {
      assert (a + b)[1..] == a[1..] + b;
      SelectAppend(a[1..], b, keep);
    } else {
      assert a + b == b;
    }
  }

  /** Each row occurs in `filter(keep)` as often as in the input when it is kept, and not at all otherwise. */
  lemma {:induction false} SelectCount<T(!new)>(qs: seq<T>, keep: T -> bool, x: T)
    ensures multiset(Select(qs, keep))[x] == if keep(x) then multiset(qs)[x] else 0
  {
    if qs != [] {
      SelectCount(qs[1..], keep, x);
      assert qs == [qs[0]] + qs[1..];
    }
  }

  /** Filtering two arrangements of the same rows gives arrangements of the same rows. */
  lemma SelectPermutation<T(!new)>(a: seq<T>, b: seq<T>, keep: T -> bool)
    requires multiset(a) == multiset(b)
    ensures multiset(Select(a, keep)) == multiset(Select(b, keep))
  {
    forall x ensures multiset(Select(a, keep))[x] == multiset(Select(b, keep))[x] {
      SelectCount(a, keep, x);
      SelectCount(b, keep, x);
    }
  }

  /** The rows are sorted by `key`, ascending. */
  predicate SortedBy<T>(qs: seq<T>, key: T -> int)
  {
    forall i, j :: 0 <= i < j < |qs| ==> key(qs[i]) <= key(qs[j])
  }

  /** Puts `x` before the first row whose key is not smaller. */
  function Insert<T>(x: T, qs: seq<T>, key: T -> int): (r: seq<T>)
    ensures multiset(r) == multiset(qs) + multiset{x}
  {
    if qs == [] then [x]
    else if key(x) <= key(qs[0]) then [x] + qs
    else
      assert qs == [qs[0]] + qs[1..];
      [qs[0]] + Insert(x, qs[1..], key)
  }

  /** `order_by(key)`: a stable insertion sort. */
  function OrderBy<T>(qs: seq<T>, key: T -> int): (r: seq<T>)
    ensures multiset(r) == multiset(qs)
  {
    if qs == [] then []
    else
      assert qs == [qs[0]] + qs[1..];
      Insert(qs[0], OrderBy(qs[1..], key), key)
  }

  lemma {:induction false} InsertSorted<T>(x: T, qs: seq<T>, key: T -> int)
    requires SortedBy(qs, key)
    ensures SortedBy(Insert(x, qs, key), key)
  {
    if qs != [] && key(x) > key(qs[0]) {
      InsertSorted(x, qs[1..], key);
      var tail := Insert(x, qs[1..], key);
      forall y | y in tail ensures key(qs[0]) <= key(y) {
        assert y in multiset(tail);
        assert y == x || y in multiset(qs[1..]);
      }
    }
  }

  /** `order_by` returns the same rows, sorted. */
  lemma {:induction false} OrderBySorted<T>(qs: seq<T>, key: T -> int)
    ensures SortedBy(OrderBy(qs, key), key)
    ensures multiset(OrderBy(qs, key)) == multiset(qs) && |OrderBy(qs, key)| == |qs|
  {
    if qs != [] {
      OrderBySorted(qs[1..], key);
      InsertSorted(qs[0], OrderBy(qs[1..], key), key);
    }
    assert |multiset(OrderBy(qs, key))| == |multiset(qs)|;
  }

  /** A row no smaller than every row of a sorted queryset can head it. */
  lemma ConsSorted<T>(x: T, qs: seq<T>, key: T -> int)
    requires SortedBy(qs, key)
    requires forall y :: y in qs ==> key(x) <= key(y)
    ensures SortedBy([x] + qs, key)
  {
    var r := [x] + qs;
    forall i, j | 0 <= i < j < |r| ensures key(r[i]) <= key(r[j]) {
      assert r[j] == qs[j - 1];
      if i > 0 { assert r[i] == qs[i - 1]; }
    }
  }

  /** Filtering a sorted queryset leaves it sorted. */
  lemma {:induction false} SelectSorted<T(!new)>(qs: seq<T>, keep: T -> bool, key: T -> int)
    requires SortedBy(qs, key)
    ensures SortedBy(Select(qs, keep), key)
  {
    if qs != [] {
      assert SortedBy(qs[1..], key);
      SelectSorted(qs[1..], keep, key);
      if keep(qs[0]) {
        ConsSorted(qs[0], Select(qs[1..], keep), key);
      }
    }
  }

  lemma {:induction false} ExcludeSorted<T(!new)>(qs: seq<T>, drop: T -> bool, key: T -> int)
    requires SortedBy(qs, key)
    ensures SortedBy(Exclude(qs, drop), key)
  {
    if qs != [] {
      assert SortedBy(qs[1..], key);
      ExcludeSorted(qs[1..], drop, key);
      if !drop(qs[0]) {
        ConsSorted(qs[0], Exclude(qs[1..], drop), key);
      }
    }
  }
}
