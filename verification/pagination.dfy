/** The arithmetic of the `Pagination` control: how many pages there are,
    which buttons are enabled, which page each button asks for, and the
    "Showing a-b of n" range. Pages are 1-based. */
module Pagination {
  import Text

  /** `Math.max(1, Math.ceil(total / pageSize))`: the least page count, at
      least one, whose pages hold all `total` items. */
  function PageCount(total: nat, pageSize: nat): (n: nat)
    requires pageSize > 0
    ensures n >= 1
    ensures total <= n * pageSize
    ensures n == 1 || (n - 1) * pageSize < total
  {
    if total == 0 then 1
    else
      var n := (total + pageSize - 1) / pageSize;
      assert n * pageSize <= total + pageSize - 1 < (n + 1) * pageSize;
      n
  }

  /** Any page count that holds every item uses at least `PageCount` pages. */
  lemma PageCountLeast(total: nat, pageSize: nat, m: nat)
    requires pageSize > 0 && m >= 1 && total <= m * pageSize
    ensures PageCount(total, pageSize) <= m
  {
    var n := PageCount(total, pageSize);
    if n > m {
      MulMono(m, n - 1, pageSize);
    }
  }

  lemma MulMono(a: int, b: int, c: nat)
    requires a <= b
    ensures a * c <= b * c
  {
    assert b * c - a * c == (b - a) * c;
  }

  /** What the control shows for `page`. */
  datatype View = View(
    first: int,        // the first item number shown
    last: int,         // the last item number shown
    pageCount: nat,
    canPrev: bool,     // Prev is enabled
    canNext: bool)     // Next is enabled

  /** The control for `page`: Prev is enabled past page 1, Next before the
      last page, and the range shown is at most one page and never passes the
      total. */
  function Render(page: int, pageSize: nat, total: nat): (v: View)
    requires pageSize > 0
    ensures v.pageCount == PageCount(total, pageSize)
    ensures v.canPrev <==> page > 1
    ensures v.canNext <==> page < v.pageCount
    ensures v.last <= total && v.last - v.first < pageSize
    ensures v.first == (page - 1) * pageSize + 1 && v.last == Min(page * pageSize, total)
  {
    var pageCount := PageCount(total, pageSize);
    assert page * pageSize == (page - 1) * pageSize + pageSize;
    View((page - 1) * pageSize + 1, Min(page * pageSize, total), pageCount, page > 1, page < pageCount)
  }

  function Min(a: int, b: int): int {
    if a <= b then a else b
  }

  /** The page Prev asks for: the one just before, which Next would come
      back from. */
  function PrevTarget(page: int): (p: int)
    ensures p == page - 1
    ensures p < page && NextTarget(p) == page
  {
    page - 1
  }

  /** The page Next asks for: the one just after. */
  function NextTarget(page: int): (p: int)
    ensures p == page + 1
  {
    page + 1
  }

  /** On a page within `1..pageCount`, the shown range is non-empty when
      there are items, never passes the total, and is a full page except
      possibly on the last one. Prev is enabled exactly when items precede the
      range, Next exactly when items follow it. `RenderItems` states which
      items the range holds. */
  lemma RenderInRange(page: int, pageSize: nat, total: nat)
    requires pageSize > 0
    requires 1 <= page <= PageCount(total, pageSize)
    ensures var v := Render(page, pageSize, total);
            && (total > 0 ==> 1 <= v.first <= v.last <= total)
            && (v.canPrev <==> v.first > 1)
            && (v.canNext <==> v.last < total)
            && (page < v.pageCount ==> v.last - v.first + 1 == pageSize)
  {
    var v := Render(page, pageSize, total);
    var n := v.pageCount;
    assert v.first == (page - 1) * pageSize + 1;
    assert v.last == Min(page * pageSize, total);
    assert page * pageSize == (page - 1) * pageSize + pageSize;
    MulMono(0, page - 1, pageSize);
    if total > 0 {
      MulMono(page - 1, n - 1, pageSize);
      if n == 1 {
        assert page == 1;
      }
    }
    if page < n {
      MulMono(page, n - 1, pageSize);
    } else {
      assert page == n;
    }
  }

  /** Item `k` (1-based) is in the range shown for `page` exactly when `page`
      is the page it falls on, `(k - 1) / pageSize + 1`. */
  lemma RenderItems(page: int, pageSize: nat, total: nat, k: int)
    requires pageSize > 0 && 1 <= k <= total
    ensures var v := Render(page, pageSize, total);
            v.first <= k <= v.last <==> (k - 1) / pageSize == page - 1
  {
    var v := Render(page, pageSize, total);
    var q := (k - 1) / pageSize;
    assert k - 1 == q * pageSize + (k - 1) % pageSize;
    assert v.first == (page - 1) * pageSize + 1;
    assert v.last == Min(page * pageSize, total);
    assert page * pageSize == (page - 1) * pageSize + pageSize;
    assert (q + 1) * pageSize == q * pageSize + pageSize;
    if v.first <= k <= v.last {
      if q < page - 1 {
        MulMono(q + 1, page - 1, pageSize);
      } else if q > page - 1 {
        MulMono(page, q, pageSize);
      }
    }
  }

  /** Paging neither skips nor repeats items: Next shows the range that
      starts right after the current one, and Prev the range that ends right
      before it. */
  lemma TargetsAdjacent(page: int, pageSize: nat, total: nat)
    requires pageSize > 0
    requires 1 <= page <= PageCount(total, pageSize)
    ensures var v := Render(page, pageSize, total);
            v.canNext ==> Render(NextTarget(page), pageSize, total).first == v.last + 1
    ensures var v := Render(page, pageSize, total);
            v.canPrev ==> Render(PrevTarget(page), pageSize, total).last == v.first - 1
  {
    var n := PageCount(total, pageSize);
    var v := Render(page, pageSize, total);
    assert page * pageSize == (page - 1) * pageSize + pageSize;
    if page < n {
      MulMono(page, n - 1, pageSize);
      assert v.last == page * pageSize;
    }
    if page > 1 {
      MulMono(page - 1, n - 1, pageSize);
      assert Render(page - 1, pageSize, total).last == (page - 1) * pageSize;
    }
  }

  /** Clicking an enabled button asks for a page that exists. */
  lemma TargetsExist(page: int, pageSize: nat, total: nat)
    requires pageSize > 0
    requires 1 <= page <= PageCount(total, pageSize)
    ensures Render(page, pageSize, total).canPrev ==> 1 <= PrevTarget(page) <= PageCount(total, pageSize)
    ensures Render(page, pageSize, total).canNext ==> 1 <= NextTarget(page) <= PageCount(total, pageSize)
    ensures !Render(page, pageSize, total).canPrev ==> page == 1
    ensures !Render(page, pageSize, total).canNext ==> page == PageCount(total, pageSize)
  {
  }

  /** `Showing {first}-{last} of {total}`. */
  function RangeText(v: View, total: nat): (t: string)
    ensures "Showing " <= t
    ensures |Text.NatToString(total)| <= |t| && t[|t| - |Text.NatToString(total)|..] == Text.NatToString(total)
  {
    "Showing " + Text.IntToString(v.first) + "-" + Text.IntToString(v.last) + " of " + Text.NatToString(total)
  }

  /** `{page} / {pageCount}`. */
  function PageText(page: int, v: View): (t: string)
    ensures Text.IntToString(page) + " / " <= t
    ensures |Text.NatToString(v.pageCount)| <= |t| && t[|t| - |Text.NatToString(v.pageCount)|..] == Text.NatToString(v.pageCount)
  {
    Text.IntToString(page) + " / " + Text.NatToString(v.pageCount)
  }

  /** Forty-two items, ten per page: five pages; page 3 reads "3 / 5", the
      first page cannot go back and the last cannot go forward. Five items
      make one page with both buttons disabled. */
  lemma Examples()
    ensures PageCount(42, 10) == 5
    ensures PageText(3, Render(3, 10, 42)) == "3 / 5"
    ensures !Render(1, 10, 42).canPrev && Render(1, 10, 42).canNext
    ensures Render(5, 10, 42).canPrev && !Render(5, 10, 42).canNext
    ensures PrevTarget(3) == 2 && NextTarget(2) == 3
    ensures PageCount(5, 10) == 1 && PageText(1, Render(1, 10, 5)) == "1 / 1"
    ensures !Render(1, 10, 5).canPrev && !Render(1, 10, 5).canNext
  {
  }

  /** Forty-two items, ten per page: page 2 shows 11-20 and page 5 shows
      41-42. */
  lemma RangeExamples()
    ensures RangeText(Render(2, 10, 42), 42) == "Showing 11-20 of 42"
    ensures RangeText(Render(5, 10, 42), 42) == "Showing 41-42 of 42"
  {
    assert Text.NatToString(11) == "11" by {
      assert Text.NatToString(1) == "1";
    }
    assert Text.NatToString(20) == "20" by {
      assert Text.NatToString(2) == "2";
    }
    assert Text.NatToString(41) == "41" by {
      assert Text.NatToString(4) == "4";
    }
    assert Text.NatToString(42) == "42" by {
      assert Text.NatToString(4) == "4";
    }
  }
}
