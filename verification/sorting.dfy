/** Ordering of strings and a stable comparator sort.

    The source orders strings with `localeCompare`, whose result depends on the
    locale's collation. This model replaces it by the code-point lexicographic
    order, a total order with the same contract a comparator must meet. */
module StrOrder {

  /** Three-way lexicographic comparison: negative, zero or positive. */
  function Cmp(a: string, b: string): (r: int)
    ensures -1 <= r <= 1
    ensures r == 0 <==> a == b
  {
    if |a| == 0 && |b| == 0 then 0
    else if |a| == 0 then -1
    else if |b| == 0 then 1
    else if a[0] < b[0] then -1
    else if a[0] > b[0] then 1
    else
      assert a == [a[0]] + a[1..] && b == [b[0]] + b[1..];
      Cmp(a[1..], b[1..])
  }

  /** Swapping the operands negates the comparison. */
  lemma {:induction false} CmpAntisymmetric(a: string, b: string)
    ensures Cmp(a, b) == -Cmp(b, a)
  {
    if |a| > 0 && |b| > 0 && a[0] == b[0] {
      CmpAntisymmetric(a[1..], b[1..]);
    }
  }

  /** The comparison is transitive. */
  lemma {:induction false} CmpTransitive(a: string, b: string, c: string)
    requires Cmp(a, b) <= 0 && Cmp(b, c) <= 0
    ensures Cmp(a, c) <= 0
  {
    if |a| > 0 && |b| > 0 && |c| > 0 && a[0] == b[0] == c[0] {
      CmpTransitive(a[1..], b[1..], c[1..]);
    }
  }
}

/** `Array.prototype.sort` with a comparator, which ECMAScript requires to be
    stable: insertion sort that puts each element before the first later one it
    does not exceed. */
module Sorting {
  import Seqs

  /** Every pair is ordered one way or the other. */
  ghost predicate Total<T(!new)>(cmp: (T, T) -> int) {
    forall a, b :: cmp(a, b) <= 0 || cmp(b, a) <= 0
  }

  ghost predicate Transitive<T(!new)>(cmp: (T, T) -> int) {
    forall a, b, c :: cmp(a, b) <= 0 && cmp(b, c) <= 0 ==> cmp(a, c) <= 0
  }

  /** A comparator that orders every pair and is transitive: what
      `Array.prototype.sort` needs to produce a sorted result. */
  ghost predicate TotalPreorder<T(!new)>(cmp: (T, T) -> int) {
    Total(cmp) && Transitive(cmp)
  }

  ghost predicate SortedBy<T>(s: seq<T>, cmp: (T, T) -> int) {
    forall i, j :: 0 <= i < j < |s| ==> cmp(s[i], s[j]) <= 0
  }

  lemma ConsSorted<T>(h: T, t: seq<T>, cmp: (T, T) -> int)
    requires SortedBy(t, cmp)
    requires forall k :: 0 <= k < |t| ==> cmp(h, t[k]) <= 0
    ensures SortedBy([h] + t, cmp)
  {
    var r := [h] + t;
    forall i, j | 0 <= i < j < |r| ensures cmp(r[i], r[j]) <= 0 {
      assert r[j] == t[j - 1];
      if i > 0 {
        assert r[i] == t[i - 1];
      }
    }
  }

  lemma PrependSorted<T(!new)>(x: T, s: seq<T>, cmp: (T, T) -> int)
    requires Transitive(cmp) && SortedBy(s, cmp)
    requires |s| > 0 && cmp(x, s[0]) <= 0
    ensures SortedBy([x] + s, cmp)
  {
    forall k | 0 <= k < |s| ensures cmp(x, s[k]) <= 0 {
      if k > 0 {
        assert cmp(s[0], s[k]) <= 0;
      }
    }
    ConsSorted(x, s, cmp);
  }

  function Insert<T(!new)>(x: T, s: seq<T>, cmp: (T, T) -> int): (r: seq<T>)
    ensures multiset(r) == multiset(s) + multiset{x}
    ensures |r| == |s| + 1
  {
    if |s| == 0 then [x]
    else if cmp(x, s[0]) <= 0 then [x] + s
    else
      assert s == [s[0]] + s[1..];
      [s[0]] + Insert(x, s[1..], cmp)
  }

  /** Inserting into a sorted sequence keeps it sorted. */
  lemma {:induction false} InsertSorted<T(!new)>(x: T, s: seq<T>, cmp: (T, T) -> int)
    requires TotalPreorder(cmp) && SortedBy(s, cmp)
    ensures SortedBy(Insert(x, s, cmp), cmp)
  {
    if |s| == 0 {
    } else if cmp(x, s[0]) <= 0 {
      PrependSorted(x, s, cmp);
    } else {
      assert s == [s[0]] + s[1..];
      var t := Insert(x, s[1..], cmp);
      assert SortedBy(s[1..], cmp);
      InsertSorted(x, s[1..], cmp);
      forall k | 0 <= k < |t| ensures cmp(s[0], t[k]) <= 0 {
        assert t[k] in multiset(s[1..]) + multiset{x};
        if t[k] != x {
          assert t[k] in s[1..];
        }
      }
      ConsSorted(s[0], t, cmp);
    }
  }

  /** The sorted permutation of `s`. */
  function Sort<T(!new)>(s: seq<T>, cmp: (T, T) -> int): (r: seq<T>)
    ensures multiset(r) == multiset(s)
    ensures |r| == |s|
  {
    if |s| == 0 then []
    else
      assert s == [s[0]] + s[1..];
      Insert(s[0], Sort(s[1..], cmp), cmp)
  }

  /** With a total preorder the result is sorted. */
  lemma {:induction false} SortIsSorted<T(!new)>(s: seq<T>, cmp: (T, T) -> int)
    requires TotalPreorder(cmp)
    ensures SortedBy(Sort(s, cmp), cmp)
  {
    if |s| > 0 {
      SortIsSorted(s[1..], cmp);
      InsertSorted(s[0], Sort(s[1..], cmp), cmp);
    }
  }

  /** `p` picks elements the comparator cannot tell apart: none of them
      comes after another. */
  ghost predicate AllTied<T(!new)>(p: T -> bool, cmp: (T, T) -> int) {
    forall a, b :: p(a) && p(b) ==> cmp(a, b) <= 0
  }

  /** Inserting `x` puts it before every element tied with it and leaves the
      order of the other elements alone. */
  lemma {:induction false} InsertStable<T(!new)>(x: T, s: seq<T>, cmp: (T, T) -> int, p: T -> bool)
    requires AllTied(p, cmp)
    ensures Seqs.Filter(Insert(x, s, cmp), p) == (if p(x) then [x] else []) + Seqs.Filter(s, p)
  {
    if |s| == 0 {
      assert Insert(x, s, cmp) == [x] + s;
      Seqs.FilterCons(x, s, p);
    } else if cmp(x, s[0]) <= 0 {
      assert Insert(x, s, cmp) == [x] + s;
      Seqs.FilterCons(x, s, p);
    } else {
      var t := s[1..];
      assert s == [s[0]] + t;
      var r := Insert(x, t, cmp);
      assert Insert(x, s, cmp) == [s[0]] + r;
      InsertStable(x, t, cmp, p);
      Seqs.FilterCons(s[0], r, p);
      Seqs.FilterCons(s[0], t, p);
      // `x` passes over only elements it comes after, so not both are picked.
      assert !(p(x) && p(s[0]));
      if p(x) {
        assert Seqs.Filter([s[0]] + r, p) == [x] + Seqs.Filter(t, p);
        assert Seqs.Filter(s, p) == Seqs.Filter(t, p);
      } else {
        assert Seqs.Filter(r, p) == Seqs.Filter(t, p);
      }
    }
  }

  /** `Array.prototype.sort` is stable: elements the comparator cannot tell
      apart come out in the order they went in. */
  lemma {:induction false} SortStable<T(!new)>(s: seq<T>, cmp: (T, T) -> int, p: T -> bool)
    requires AllTied(p, cmp)
    ensures Seqs.Filter(Sort(s, cmp), p) == Seqs.Filter(s, p)
  {
    if |s| > 0 {
      assert s == [s[0]] + s[1..];
      SortStable(s[1..], cmp, p);
      InsertStable(s[0], Sort(s[1..], cmp), cmp, p);
      Seqs.FilterCons(s[0], s[1..], p);
    }
  }

  /** A sequence already in order is returned unchanged (so is one that has no
      two elements the comparator can tell apart from its order). */
  lemma {:induction false} SortSorted<T(!new)>(s: seq<T>, cmp: (T, T) -> int)
    requires SortedBy(s, cmp)
    ensures Sort(s, cmp) == s
  {
    if |s| > 0 {
      assert SortedBy(s[1..], cmp);
      SortSorted(s[1..], cmp);
    }
  }
}
