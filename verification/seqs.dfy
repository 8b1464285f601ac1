/** Sequence helpers shared by the model: duplicate-freedom, `Array.from(new Set(xs))`,
    `Array.prototype.filter`, and the positions a filter keeps. */
module Seqs {
  import opened Wrappers

  /** No element occurs twice. */
  ghost predicate NoDup<T>(s: seq<T>) {
    forall i, j :: 0 <= i < j < |s| ==> s[i] != s[j]
  }

  lemma NoDupAppend<T>(a: seq<T>, x: T)
    requires NoDup(a) && x !in a
    ensures NoDup(a + [x])
  {
    var s := a + [x];
    forall i, j | 0 <= i < j < |s|
      ensures s[i] != s[j]
    {
      if j == |a| {
        assert s[i] == a[i];
      } else {
        assert s[i] == a[i] && s[j] == a[j];
      }
    }
  }

  /** `s.indexOf(x)` for an element that occurs: the position of its first occurrence. */
  function FirstIndex<T(==)>(s: seq<T>, x: T): (k: nat)
    requires x in s
    ensures k < |s| && s[k] == x
    ensures forall m :: 0 <= m < k ==> s[m] != x
  {
    if s[0] == x then 0 else 1 + FirstIndex(s[1..], x)
  }

  /** Appending an element leaves the first occurrence of what was already there in place. */
  lemma FirstIndexAppend<T>(a: seq<T>, y: T, x: T)
    requires x in a
    ensures FirstIndex(a + [y], x) == FirstIndex(a, x)
  {
    assert (a + [y])[FirstIndex(a, x)] == x;
  }

  /** `Array.from(new Set(s))`: the first occurrence of every element, in the
      order a `Set` remembers insertions. */
  function Dedup<T(==,!new)>(s: seq<T>): (r: seq<T>)
    ensures NoDup(r)
    ensures forall x :: x in r <==> x in s
    ensures |r| <= |s|
    ensures forall i, j :: 0 <= i < j < |r| ==> FirstIndex(s, r[i]) < FirstIndex(s, r[j])
  {
    if |s| == 0 then []
    else
      var init := s[..|s| - 1];
      var last := s[|s| - 1];
      assert s == init + [last];
      var d := Dedup(init);
      assert forall x | x in init :: FirstIndex(s, x) == FirstIndex(init, x) by {
        forall x | x in init
          ensures FirstIndex(s, x) == FirstIndex(init, x)
        {
          FirstIndexAppend(init, last, x);
        }
      }
      if last in d then d
      else
        NoDupAppend(d, last);
        assert FirstIndex(s, last) == |s| - 1;
        d + [last]
  }

  lemma PrefixNoDup<T>(s: seq<T>, n: nat)
    requires NoDup(s) && n <= |s|
    ensures NoDup(s[..n])
  {
    assert forall i :: 0 <= i < n ==> s[..n][i] == s[i];
  }

  /** A new element lands at the end of the deduplication. */
  lemma DedupSnoc<T(!new)>(init: seq<T>, x: T)
    requires x !in init
    ensures Dedup(init + [x]) == Dedup(init) + [x]
  {
    var s := init + [x];
    assert s[..|s| - 1] == init && s[|s| - 1] == x;
  }

  /** A sequence without duplicates is its own `Array.from(new Set(..))`. */
  lemma {:induction false} DedupOfNoDup<T(!new)>(s: seq<T>)
    requires NoDup(s)
    ensures Dedup(s) == s
  {
    if |s| > 0 {
      var init := s[..|s| - 1];
      var last := s[|s| - 1];
      PrefixNoDup(s, |s| - 1);
      DedupOfNoDup(init);
      assert last !in init by {
        forall i | 0 <= i < |init| ensures init[i] != last {
          assert init[i] == s[i];
        }
      }
      assert s == init + [last];
      DedupSnoc(init, last);
    }
  }

  /** Two duplicate-free sequences with the same elements have the same length. */
  lemma {:induction false} NoDupSameElementsSameLength<T>(a: seq<T>, b: seq<T>)
    requires NoDup(a) && NoDup(b)
    requires forall x :: x in a <==> x in b
    ensures |a| == |b|
  {
    NoDupCard(a);
    NoDupCard(b);
    assert Elements(a) == Elements(b);
  }

  /** The set of elements of `s`. */
  ghost function Elements<T>(s: seq<T>): set<T> {
    set x | x in s
  }

  /** A duplicate-free sequence has as many elements as its set. */
  lemma {:induction false} NoDupCard<T>(s: seq<T>)
    requires NoDup(s)
    ensures |Elements(s)| == |s|
  {
    if |s| > 0 {
      var init := s[..|s| - 1];
      assert NoDup(init) by {
        forall i, j | 0 <= i < j < |init| ensures init[i] != init[j] {
          assert init[i] == s[i] && init[j] == s[j];
        }
      }
      NoDupCard(init);
      assert s[|s| - 1] !in init by {
        forall i | 0 <= i < |init| ensures init[i] != s[|s| - 1] {
          assert init[i] == s[i];
        }
      }
      assert s == init + [s[|s| - 1]];
      assert Elements(s) == Elements(init) + {s[|s| - 1]};
    }
  }

  /** A sequence in which nothing occurs twice is duplicate-free. */
  lemma MultiplicityNoDup<T>(b: seq<T>)
    requires forall x :: multiset(b)[x] <= 1
    ensures NoDup(b)
  {
    forall i, j | 0 <= i < j < |b|
      ensures b[i] != b[j]
    {
      var rest := b[..i] + b[i + 1..];
      assert b == b[..i] + [b[i]] + b[i + 1..];
      assert rest[j - 1] == b[j];
      assert multiset(b) == multiset(rest) + multiset{b[i]};
      assert b[j] in rest;
      assert multiset(rest)[b[j]] >= 1;
      assert multiset(b)[b[i]] == multiset(rest)[b[i]] + 1;
      assert multiset(b)[b[i]] <= 1;
    }
  }

  /** A permutation of a duplicate-free sequence is duplicate-free. */
  lemma PermutationNoDup<T>(a: seq<T>, b: seq<T>)
    requires multiset(a) == multiset(b) && NoDup(a)
    ensures NoDup(b)
  {
    forall x ensures multiset(b)[x] <= 1 {
      NoDupCount(a, x);
    }
    MultiplicityNoDup(b);
  }

  lemma NoDupCount<T>(a: seq<T>, x: T)
    requires NoDup(a)
    ensures multiset(a)[x] <= 1
  {
    if |a| > 0 {
      var init := a[..|a| - 1];
      assert a == init + [a[|a| - 1]];
      assert NoDup(init) by {
        forall i, j | 0 <= i < j < |init| ensures init[i] != init[j] {
          assert init[i] == a[i] && init[j] == a[j];
        }
      }
      NoDupCount(init, x);
      if x == a[|a| - 1] {
        assert x !in init by {
          forall i | 0 <= i < |init| ensures init[i] != x {
            assert init[i] == a[i];
          }
        }
      }
    }
  }

  /** `s.filter(p)`. Its contents are exactly the elements of `s` that satisfy
      `p`, each as many times as in `s`. */
  function Filter<T(!new)>(s: seq<T>, p: T -> bool): (r: seq<T>)
    ensures |r| <= |s|
    ensures forall i :: 0 <= i < |r| ==> p(r[i])
    ensures forall x :: multiset(r)[x] == if p(x) then multiset(s)[x] else 0
    ensures forall x :: x in r <==> x in s && p(x)
  {
    if |s| == 0 then []
    else
      assert s == [s[0]] + s[1..];
      (if p(s[0]) then [s[0]] else []) + Filter(s[1..], p)
  }

  /** `filter` looks at the head, then at the rest. */
  lemma FilterCons<T(!new)>(h: T, t: seq<T>, p: T -> bool)
    ensures Filter([h] + t, p) == (if p(h) then [h] else []) + Filter(t, p)
  {
    assert ([h] + t)[0] == h && ([h] + t)[1..] == t;
  }

  lemma FilterMembership<T(!new)>(s: seq<T>, p: T -> bool, x: T)
    ensures x in Filter(s, p) <==> x in s && p(x)
  {
    assert x in Filter(s, p) <==> multiset(Filter(s, p))[x] > 0;
    assert x in s <==> multiset(s)[x] > 0;
  }

  /** Filtering keeps a sequence duplicate-free. */
  lemma FilterNoDup<T(!new)>(s: seq<T>, p: T -> bool)
    requires NoDup(s)
    ensures NoDup(Filter(s, p))
  {
    forall x ensures multiset(Filter(s, p))[x] <= 1 {
      NoDupCount(s, x);
    }
    MultiplicityNoDup(Filter(s, p));
  }

  /** The indices of `s` from `k` on whose element satisfies `p`, ascending. */
  function PositionsFrom<T>(s: seq<T>, p: T -> bool, k: nat): (r: seq<nat>)
    requires k <= |s|
    ensures |r| <= |s| - k
    ensures forall i :: 0 <= i < |r| ==> k <= r[i] < |s| && p(s[r[i]])
    ensures forall i, j :: 0 <= i < j < |r| ==> r[i] < r[j]
    ensures forall q :: k <= q < |s| && p(s[q]) ==> q in r
    decreases |s| - k
  {
    if k == |s| then []
    else (if p(s[k]) then [k] else []) + PositionsFrom(s, p, k + 1)
  }

  /** The indices of `s` whose element satisfies `p`, ascending. */
  function Positions<T>(s: seq<T>, p: T -> bool): (r: seq<nat>)
    ensures |r| <= |s|
    ensures forall i :: 0 <= i < |r| ==> r[i] < |s| && p(s[r[i]])
    ensures forall i, j :: 0 <= i < j < |r| ==> r[i] < r[j]
    ensures forall q :: 0 <= q < |s| && p(s[q]) ==> q in r
  {
    PositionsFrom(s, p, 0)
  }

  /** Ascending indices are duplicate-free. */
  lemma AscendingNoDup(r: seq<nat>)
    requires forall i, j :: 0 <= i < j < |r| ==> r[i] < r[j]
    ensures NoDup(r)
  {
  }

  /** The filter is order-preserving: its k-th element is the element at the
      k-th position satisfying `p`. */
  lemma {:induction false} FilterIsPositions<T(!new)>(s: seq<T>, p: T -> bool)
    ensures |Filter(s, p)| == |Positions(s, p)|
    ensures forall i :: 0 <= i < |Filter(s, p)| ==> Filter(s, p)[i] == s[Positions(s, p)[i]]
  {
    FilterFromIsPositions(s, p, 0);
    assert s[0..] == s;
  }

  lemma {:induction false} FilterFromIsPositions<T(!new)>(s: seq<T>, p: T -> bool, k: nat)
    requires k <= |s|
    ensures |Filter(s[k..], p)| == |PositionsFrom(s, p, k)|
    ensures forall i :: 0 <= i < |Filter(s[k..], p)| ==> Filter(s[k..], p)[i] == s[PositionsFrom(s, p, k)[i]]
    decreases |s| - k
  {
    if k < |s| {
      FilterFromIsPositions(s, p, k + 1);
      var t := s[k..];
      assert t[1..] == s[k + 1..];
      assert t[0] == s[k];
      var rest, later := Filter(s[k + 1..], p), PositionsFrom(s, p, k + 1);
      var f, ps := Filter(t, p), PositionsFrom(s, p, k);
      assert f == (if p(s[k]) then [s[k]] else []) + rest;
      assert ps == (if p(s[k]) then [k] else []) + later;
      PrependPaired(s, k, p(s[k]), rest, later);
    }
  }

  /** Prepending `s[k]` to a sequence paired index by index with positions of
      `s`, and `k` to the positions, keeps the pairing. */
  lemma PrependPaired<T>(s: seq<T>, k: nat, take: bool, rest: seq<T>, later: seq<nat>)
    requires k < |s|
    requires |rest| == |later|
    requires forall i :: 0 <= i < |later| ==> later[i] < |s| && rest[i] == s[later[i]]
    ensures var f, ps := (if take then [s[k]] else []) + rest, (if take then [k] else []) + later;
      |f| == |ps| && forall i :: 0 <= i < |f| ==> ps[i] < |s| && f[i] == s[ps[i]]
  {
  }

  lemma AppendAssoc<T>(a: seq<T>, b: seq<T>, c: seq<T>)
    ensures a + (b + c) == (a + b) + c
  {
  }

  /** Filtering distributes over appending one element. */
  lemma {:induction false} FilterSnoc<T(!new)>(s: seq<T>, x: T, p: T -> bool)
    ensures Filter(s + [x], p) == Filter(s, p) + (if p(x) then [x] else [])
  {
    var t := s + [x];
    if |s| == 0 {
      assert t == [x] && t[1..] == [];
    } else {
      assert t[0] == s[0] && t[1..] == s[1..] + [x];
      FilterSnoc(s[1..], x, p);
      var h := if p(s[0]) then [s[0]] else [];
      var e := if p(x) then [x] else [];
      assert Filter(t, p) == h + Filter(s[1..] + [x], p);
      assert Filter(s, p) == h + Filter(s[1..], p);
      AppendAssoc(h, Filter(s[1..], p), e);
    }
  }

  /** Filtering distributes over concatenation. */
  lemma {:induction false} FilterAppend<T(!new)>(a: seq<T>, b: seq<T>, p: T -> bool)
    ensures Filter(a + b, p) == Filter(a, p) + Filter(b, p)
  {
    if |a| > 0 {
      var t := a + b;
      assert t[0] == a[0] && t[1..] == a[1..] + b;
      FilterAppend(a[1..], b, p);
      AppendAssoc(if p(a[0]) then [a[0]] else [], Filter(a[1..], p), Filter(b, p));
    } else {
      assert a + b == b;
    }
  }

  /** Predicates that agree everywhere filter alike. */
  lemma {:induction false} FilterExt<T(!new)>(s: seq<T>, p: T -> bool, q: T -> bool)
    requires forall x :: p(x) == q(x)
    ensures Filter(s, p) == Filter(s, q)
  {
    if |s| > 0 {
      FilterExt(s[1..], p, q);
    }
  }

  /** Filtering twice is filtering once by both predicates. */
  lemma {:induction false} FilterFilter<T(!new)>(s: seq<T>, p: T -> bool, q: T -> bool, pq: T -> bool)
    requires forall x :: pq(x) == (p(x) && q(x))
    ensures Filter(Filter(s, p), q) == Filter(s, pq)
  {
    if |s| > 0 {
      var h := if p(s[0]) then [s[0]] else [];
      FilterAppend(h, Filter(s[1..], p), q);
      FilterFilter(s[1..], p, q, pq);
      if p(s[0]) {
        assert h[1..] == [];
        assert Filter(h, q) == (if q(s[0]) then [s[0]] else []) + Filter(h[1..], q);
      }
    }
  }

  /** Filtering by a predicate and by its negation splits `s` in two. */
  lemma FilterPartition<T(!new)>(s: seq<T>, p: T -> bool, q: T -> bool)
    requires forall x :: q(x) == !p(x)
    ensures multiset(Filter(s, p)) + multiset(Filter(s, q)) == multiset(s)
    ensures |Filter(s, p)| + |Filter(s, q)| == |s|
  {
    var a := Filter(s, p);
    var b := Filter(s, q);
    assert forall x :: (multiset(a) + multiset(b))[x] == multiset(s)[x];
    assert multiset(a) + multiset(b) == multiset(s);
    assert |multiset(a) + multiset(b)| == |multiset(s)|;
  }

  /** `s.findIndex(p)`: the first index whose element satisfies `p`, if any. */
  function FindIndex<T>(s: seq<T>, p: T -> bool): (r: Option<nat>)
    ensures r.None? <==> forall i :: 0 <= i < |s| ==> !p(s[i])
    ensures r.Some? ==> r.value < |s| && p(s[r.value])
    ensures r.Some? ==> forall i :: 0 <= i < r.value ==> !p(s[i])
  {
    if |s| == 0 then None
    else if p(s[0]) then Some(0)
    else
      match FindIndex(s[1..], p)
      case None => None
      case Some(k) => Some(k + 1)
  }

  /** The first index satisfying `p` is the only index satisfying `p` with no
      earlier one that does. */
  lemma FindIndexUnique<T>(s: seq<T>, p: T -> bool)
    ensures forall k :: 0 <= k < |s| && p(s[k]) && (forall m :: 0 <= m < k ==> !p(s[m])) ==>
      FindIndex(s, p) == Some(k)
  {
  }

  /** An element appended after elements none of which satisfy `p` is the
      first to satisfy it, when it does. */
  lemma FindIndexAppended<T>(s: seq<T>, x: T, p: T -> bool)
    requires forall i :: 0 <= i < |s| ==> !p(s[i])
    requires p(x)
    ensures FindIndex(s + [x], p) == Some(|s|)
  {
    var all := s + [x];
    assert all[|s|] == x;
    assert forall m :: 0 <= m < |s| ==> all[m] == s[m];
    FindIndexUnique(all, p);
  }

  /** `s.slice().reverse()`. */
  function Reverse<T>(s: seq<T>): (r: seq<T>)
    ensures |r| == |s|
    ensures forall i :: 0 <= i < |s| ==> r[i] == s[|s| - 1 - i]
  {
    if |s| == 0 then [] else [s[|s| - 1]] + Reverse(s[..|s| - 1])
  }
}
