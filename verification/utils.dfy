/** The mock backend's helpers: the Fisher–Yates `shuffle` and the quarter label
    of a date.

    `Math.random()` is not a function of anything the model can see, so every
    shuffle takes the draws it consumes as an explicit stream `rs` of reals in
    [0, 1); each property proved below holds for every such stream. */
module Utils {
  import Seqs
  import Text
  import StrOrder

  /** A value `Math.random()` can return. */
  predicate IsDraw(r: real) {
    0.0 <= r < 1.0
  }

  ghost predicate ValidDraws(rs: seq<real>) {
    forall k :: 0 <= k < |rs| ==> IsDraw(rs[k])
  }

  /** `Math.floor(Math.random() * (i + 1))`: always a valid partner index. */
  function SwapIndex(r: real, i: nat): (j: nat)
    requires IsDraw(r)
    ensures j <= i
  {
    var x := r * (i + 1) as real;
    assert 0.0 <= x < (i + 1) as real by {
      assert r * (i + 1) as real < 1.0 * (i + 1) as real;
    }
    x.Floor
  }

  /** `[copy[i], copy[j]] = [copy[j], copy[i]]`. */
  function Swap<T>(s: seq<T>, i: nat, j: nat): (r: seq<T>)
    requires i < |s| && j < |s|
    ensures |r| == |s| && multiset(r) == multiset(s)
    ensures r[i] == s[j] && r[j] == s[i]
    ensures forall k :: 0 <= k < |s| && k != i && k != j ==> r[k] == s[k]
  {
    s[i := s[j]][j := s[i]]
  }

  /** The loop of `shuffle` from index `i` down to 1; one draw per step. Returns
      the shuffled copy and the draws left over. */
  function ShuffleFrom<T>(s: seq<T>, i: nat, rs: seq<real>): (r: (seq<T>, seq<real>))
    requires i < |s| && i <= |rs| && ValidDraws(rs)
    ensures |r.0| == |s| && multiset(r.0) == multiset(s)
    ensures r.1 == rs[i..]
    decreases i
  {
    if i == 0 then (s, rs)
    else
      var j := SwapIndex(rs[0], i);
      var t := ShuffleFrom(Swap(s, i, j), i - 1, rs[1..]);
      assert rs[1..][i - 1..] == rs[i..];
      t
  }

  /** Number of draws `shuffle` consumes on `n` elements. */
  function Draws(n: nat): nat {
    if n <= 1 then 0 else n - 1
  }

  /** `shuffle(arr)`: Fisher–Yates on a copy of `arr`. The result is a
      permutation of `arr`, and exactly `Draws(|arr|)` draws are used. */
  function Shuffle<T>(arr: seq<T>, rs: seq<real>): (r: (seq<T>, seq<real>))
    requires ValidDraws(rs) && Draws(|arr|) <= |rs|
    ensures |r.0| == |arr| && multiset(r.0) == multiset(arr)
    ensures r.1 == rs[Draws(|arr|)..]
    ensures ValidDraws(r.1)
    ensures |arr| <= 1 ==> r.0 == arr
  {
    if |arr| == 0 then (arr, rs)
    else ShuffleFrom(arr, |arr| - 1, rs)
  }

  /** A shuffle keeps a duplicate-free sequence duplicate-free and keeps its
      elements. */
  lemma ShuffleKeepsElements<T>(arr: seq<T>, rs: seq<real>)
    requires ValidDraws(rs) && Draws(|arr|) <= |rs|
    ensures Seqs.NoDup(arr) ==> Seqs.NoDup(Shuffle(arr, rs).0)
    ensures forall x :: x in Shuffle(arr, rs).0 <==> x in arr
  {
    var r := Shuffle(arr, rs).0;
    if Seqs.NoDup(arr) {
      Seqs.PermutationNoDup(arr, r);
    }
    forall x ensures x in r <==> x in arr {
      assert x in r <==> x in multiset(r);
    }
  }

  /** `Math.floor(month / 3) + 1` for a month index 0..11. */
  function Quarter(month: int): (q: int)
    requires 0 <= month < 12
    ensures 1 <= q <= 4
    ensures 3 * (q - 1) <= month < 3 * q
  {
    month / 3 + 1
  }

  /** `${year}` for any integer year. */
  function YearText(year: int): string {
    Text.IntToString(year)
  }

  /** `quarterCycle(date)`: `"<year>-Q<quarter>"`, with the month as
      `Date.getMonth()` returns it (0..11). */
  function QuarterCycle(year: int, month: int): (cycle: string)
    requires 0 <= month < 12
    ensures |cycle| == |YearText(year)| + 3
    ensures cycle[..|YearText(year)|] == YearText(year)
    ensures cycle[|YearText(year)|..|YearText(year)| + 2] == "-Q"
  {
    YearText(year) + "-Q" + [Text.Digit(Quarter(month))]
  }

  /** Months 0–2 are Q1 and months 9–11 are Q4; in one year, a later quarter
      has a label that sorts later, and months of one quarter share a label. */
  lemma QuarterCycleOrder(year: int, m1: int, m2: int)
    requires 0 <= m1 < 12 && 0 <= m2 < 12
    ensures m1 < 3 ==> QuarterCycle(year, m1)[|YearText(year)| + 2] == '1'
    ensures m1 >= 9 ==> QuarterCycle(year, m1)[|YearText(year)| + 2] == '4'
    ensures Quarter(m1) < Quarter(m2) ==> StrOrder.Cmp(QuarterCycle(year, m1), QuarterCycle(year, m2)) < 0
    ensures QuarterCycle(year, m1) == QuarterCycle(year, m2) <==> Quarter(m1) == Quarter(m2)
  {
    var p := YearText(year) + "-Q";
    var d1 := Text.Digit(Quarter(m1));
    var d2 := Text.Digit(Quarter(m2));
    CmpCommonPrefix(p, [d1], [d2]);
    assert QuarterCycle(year, m1) == p + [d1] && QuarterCycle(year, m2) == p + [d2];
    assert (p + [d1])[|p|] == d1 && (p + [d2])[|p|] == d2;
  }

  /** A shared prefix does not change a comparison. */
  lemma {:induction false} CmpCommonPrefix(p: string, a: string, b: string)
    ensures StrOrder.Cmp(p + a, p + b) == StrOrder.Cmp(a, b)
  {
    if |p| > 0 {
      assert (p + a)[1..] == p[1..] + a && (p + b)[1..] == p[1..] + b;
      CmpCommonPrefix(p[1..], a, b);
    } else {
      assert p + a == a && p + b == b;
    }
  }
}
