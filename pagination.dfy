/**
 * The pagination logic of the grid: a page size, the number of rows to page
 * through and a 1-based current page, from which the page count, the offset
 * of the first row shown and the number of rows shown are derived.
 */
module Paging {

  function Dist(a: int, b: int): nat
  {
    if a <= b then b - a else a - b
  }

  /** What both setters of `Pagination` do with a requested page: above
      `pagesCount` it becomes `pagesCount`, below 1 it becomes 1. With pages
      to show, that is the nearest existing page; with none, it is 0 or 1. */
  function Clamp(v: int, pagesCount: nat): (r: int)
    ensures pagesCount >= 1 ==> 1 <= r <= pagesCount
    ensures 1 <= v <= pagesCount ==> r == v
    ensures forall p :: 1 <= p <= pagesCount ==> Dist(r, v) <= Dist(p, v)
    ensures pagesCount == 0 ==> r == (if v > 0 then 0 else 1)
  {
    if v > pagesCount then pagesCount else if v < 1 then 1 else v
  }

  /** `a * k`, written as repeated addition so that unfolding it stays in
      linear arithmetic; `TimesIsProduct` ties it to `*`. */
  function Times(a: int, k: int): int
    decreases if a < 0 then -a else a
  {
    if a == 0 then 0 else if a > 0 then Times(a - 1, k) + k else Times(a + 1, k) - k
  }

  /** `Math.ceil(n / k)` for a positive `k`, as the number of `k`-sized
      steps that exhaust `n`; `CeilDivIsCeiling` ties it to `/` and `%`. */
  function CeilDiv(n: nat, k: int): nat
    requires k > 0
    decreases n
  {
    if n == 0 then 0 else if n <= k then 1 else 1 + CeilDiv(n - k, k)
  }

  /** `n % k` for a positive `k`; `RemIsModulo` ties it to `%`. */
  function Rem(n: nat, k: int): (r: nat)
    requires k > 0
    ensures r < k
    decreases n
  {
    if n < k then n else Rem(n - k, k)
  }

  lemma {:induction false} TimesIsProduct(a: int, k: int)
    ensures Times(a, k) == a * k
    decreases if a < 0 then -a else a
  {
    if a > 0 {
      TimesIsProduct(a - 1, k);
      assert (a - 1) * k + k == a * k;
    } else if a < 0 {
      TimesIsProduct(a + 1, k);
      assert (a + 1) * k - k == a * k;
    }
  }

  lemma {:induction false} TimesMonotone(a: int, b: int, k: int)
    requires 0 <= a <= b && k >= 0
    ensures 0 <= Times(a, k) <= Times(b, k)
    decreases b
  {
    if a < b {
      TimesMonotone(a, b - 1, k);
    } else if a > 0 {
      TimesMonotone(a - 1, a - 1, k);
    }
  }

  /** `CeilDiv(n, k)` pages of `k` hold `n`, and one page fewer does not. */
  lemma {:induction false} CeilDivBounds(n: nat, k: int)
    requires k > 0
    ensures n <= Times(CeilDiv(n, k), k)
    ensures CeilDiv(n, k) == 0 || Times(CeilDiv(n, k) - 1, k) < n
    ensures n == 0 <==> CeilDiv(n, k) == 0
    decreases n
  {
    if n > k {
      CeilDivBounds(n - k, k);
    }
  }

  /** The rows on the last page: the remainder, or a full page when the
      division is exact. */
  lemma {:induction false} LastPageRows(n: nat, k: int)
    requires k > 0 && n > 0
    ensures CeilDiv(n, k) >= 1
    ensures Times(CeilDiv(n, k) - 1, k) + (if Rem(n, k) != 0 then Rem(n, k) else k) == n
    decreases n
  {
    if n > k {
      LastPageRows(n - k, k);
    }
  }

  /** A quotient and remainder are determined by the division they solve. */
  lemma DivModUnique(n: int, k: int, q: int, m: int)
    requires k > 0 && n == q * k + m && 0 <= m < k
    ensures n / k == q && n % k == m
  {
    var q', m' := n / k, n % k;
    assert (q - q') * k == m' - m;
    if q > q' {
      MulAtLeast(q - q', k);
    } else if q < q' {
      MulAtLeast(q' - q, k);
    }
  }

  lemma MulAtLeast(d: int, k: int)
    requires d >= 1 && k > 0
    ensures d * k >= k
  {
  }

  /** The repeated-subtraction forms are JavaScript's `Math.ceil(n / k)`
      and `n % k` on non-negative operands. */
  lemma {:induction false} CeilDivIsCeiling(n: nat, k: int)
    requires k > 0
    ensures CeilDiv(n, k) == if n % k == 0 then n / k else n / k + 1
    decreases n
  {
    if n > k {
      CeilDivIsCeiling(n - k, k);
      StepDown(n, k);
    } else if n == k {
      DivModUnique(n, k, 1, 0);
    } else {
      DivModUnique(n, k, 0, n);
    }
  }

  lemma {:induction false} RemIsModulo(n: nat, k: int)
    requires k > 0
    ensures Rem(n, k) == n % k
    decreases n
  {
    if n >= k {
      RemIsModulo(n - k, k);
      StepDown(n, k);
    } else {
      DivModUnique(n, k, 0, n);
    }
  }

  /** Taking `k` away lowers the quotient by one and keeps the remainder. */
  lemma StepDown(n: int, k: int)
    requires k > 0 && n >= k
    ensures (n - k) / k == n / k - 1 && (n - k) % k == n % k
  {
    var q, m := n / k, n % k;
    assert n - k == (q - 1) * k + m;
    DivModUnique(n - k, k, q - 1, m);
  }

  class Pagination {
    var rowsPerPage: int
    var rowsCount: nat
    var currentPage: int

    /** The page size is positive and the current page is a page that
        exists; with no rows it is 0 or 1. */
    ghost predicate Valid()
      reads this
    {
      && rowsPerPage > 0
      && (if PagesCount() == 0 then 0 <= currentPage <= 1 else 1 <= currentPage <= PagesCount())
    }

    /** `new Pagination(rowsPerPage, rowsCount)`: starts on page 1. */
    constructor (rowsPerPage: int, rowsCount: nat)
      requires rowsPerPage > 0
      ensures Valid()
      ensures this.rowsPerPage == rowsPerPage && this.rowsCount == rowsCount && currentPage == 1
    {
      this.rowsPerPage := rowsPerPage;
      this.rowsCount := rowsCount;
      this.currentPage := 1;
    }

    /** `pagesCount`: `Math.ceil(rowsCount / rowsPerPage)`, the fewest pages
        of `rowsPerPage` rows that hold every row. */
    function PagesCount(): (r: nat)
      reads this
      requires rowsPerPage > 0
      ensures rowsCount <= Times(r, rowsPerPage)
      ensures r == 0 || Times(r - 1, rowsPerPage) < rowsCount
      ensures r == 0 <==> rowsCount == 0
    {
      CeilDivBounds(rowsCount, rowsPerPage);
      CeilDiv(rowsCount, rowsPerPage)
    }

    /** `offset`: `(currentPage - 1) * rowsPerPage`, the position of the
        first row of the current page, which is a row that exists whenever
        the current page does. */
    function Offset(): (r: int)
      reads this
      requires rowsPerPage > 0
      ensures 1 <= currentPage <= PagesCount() ==> 0 <= r < rowsCount
      ensures currentPage == 1 ==> r == 0
    {
      if 1 <= currentPage <= PagesCount() then
        TimesMonotone(currentPage - 1, PagesCount() - 1, rowsPerPage);
        Times(currentPage - 1, rowsPerPage)
      else
        Times(currentPage - 1, rowsPerPage)
    }

    /** The offset is `(currentPage - 1) * rowsPerPage`, on every page. */
    lemma OffsetIsProduct()
      requires rowsPerPage > 0
      ensures Offset() == (currentPage - 1) * rowsPerPage
    {
      TimesIsProduct(currentPage - 1, rowsPerPage);
    }

    /** `limit`: how many rows the current page shows. All rows when they
        fit on one page; otherwise a full page except on the last page,
        which shows exactly the rows that are left. */
    function Limit(): (r: int)
      reads this
      requires rowsPerPage > 0
      ensures rowsPerPage > rowsCount ==> r == rowsCount
      ensures 0 <= r <= rowsPerPage
      ensures rowsCount > 0 ==> r > 0
      ensures 1 <= currentPage < PagesCount() ==> r == rowsPerPage
      ensures 1 <= currentPage <= PagesCount() ==> Offset() + r <= rowsCount
      ensures 1 <= currentPage == PagesCount() ==> Offset() + r == rowsCount
    {
      var pages := PagesCount();
      if rowsPerPage > rowsCount then
        assert pages <= 1;
        rowsCount
      else if currentPage == pages then
        LastPageRows(rowsCount, rowsPerPage);
        if Rem(rowsCount, rowsPerPage) != 0 then Rem(rowsCount, rowsPerPage) else rowsPerPage
      else
        assert 1 <= currentPage < pages ==> Offset() + rowsPerPage <= rowsCount by {
          if 1 <= currentPage < pages {
            TimesMonotone(currentPage, pages - 1, rowsPerPage);
          }
        }
        rowsPerPage
    }

    /** The `rowsCount` setter: the current page is clamped into the new
        page range. With 0 rows a current page of 1 or more becomes 0. */
    method SetRowsCount(n: nat)
      requires Valid()
      modifies this
      ensures Valid()
      ensures rowsPerPage == old(rowsPerPage) && rowsCount == n
      ensures currentPage == Clamp(old(currentPage), PagesCount())
      ensures n == 0 && old(currentPage) >= 1 ==> currentPage == 0
    {
      rowsCount := n;
      var pages := PagesCount();
      if currentPage > pages {
        currentPage := pages;
      } else if currentPage < 1 {
        currentPage := 1;
      }
    }

    /** The `currentPage` setter: out-of-range pages are clamped. */
    method SetCurrentPage(v: int)
      requires Valid()
      modifies this
      ensures Valid()
      ensures rowsPerPage == old(rowsPerPage) && rowsCount == old(rowsCount)
      ensures currentPage == Clamp(v, PagesCount())
    {
      var pages := PagesCount();
      if v > pages {
        currentPage := pages;
      } else if v < 1 {
        currentPage := 1;
      } else {
        currentPage := v;
      }
    }

    method GoFirstPage()
      requires Valid()
      modifies this
      ensures Valid()
      ensures rowsPerPage == old(rowsPerPage) && rowsCount == old(rowsCount)
      ensures currentPage == Clamp(1, PagesCount())
      ensures PagesCount() >= 1 ==> currentPage == 1
    {
      SetCurrentPage(1);
    }

    /** Going back from page 1 stays on page 1. */
    method GoPrevPage()
      requires Valid()
      modifies this
      ensures Valid()
      ensures rowsPerPage == old(rowsPerPage) && rowsCount == old(rowsCount)
      ensures currentPage == Clamp(old(currentPage) - 1, PagesCount())
      ensures old(currentPage) == 1 ==> currentPage == 1
    {
      SetCurrentPage(currentPage - 1);
    }

    /** Going forward from the last page stays on the last page. */
    method GoNextPage()
      requires Valid()
      modifies this
      ensures Valid()
      ensures rowsPerPage == old(rowsPerPage) && rowsCount == old(rowsCount)
      ensures currentPage == Clamp(old(currentPage) + 1, PagesCount())
      ensures old(currentPage) == PagesCount() ==> currentPage == old(currentPage)
    {
      SetCurrentPage(currentPage + 1);
    }

    method GoLastPage()
      requires Valid()
      modifies this
      ensures Valid()
      ensures rowsPerPage == old(rowsPerPage) && rowsCount == old(rowsCount)
      ensures currentPage == Clamp(PagesCount(), PagesCount())
      ensures PagesCount() >= 1 ==> currentPage == PagesCount()
    {
      SetCurrentPage(PagesCount());
    }
  }
}
