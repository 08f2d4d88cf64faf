/** src/components/Pagination.jsx: the page count, the Previous/Next
    handlers and the conditions that disable the two buttons. */
module Pagination {

  /** `Math.ceil` on a real number. */
  function Ceil(x: real): (r: int)
    ensures r as real - 1.0 < x <= r as real
  {
    var f := x.Floor;
    if f as real == x then f else f + 1
  }

  /** `Math.ceil(totalItems / pageSize)`, with real division. */
  function TotalPages(totalItems: nat, pageSize: nat): (r: int)
    requires pageSize > 0
    ensures r >= 0
    ensures r == 0 <==> totalItems == 0
  {
    QuotientSign(totalItems, pageSize);
    Ceil(totalItems as real / pageSize as real)
  }

  /** n/p is zero for no items and positive otherwise. */
  lemma QuotientSign(n: nat, p: nat)
    requires p > 0
    ensures n == 0 ==> n as real / p as real == 0.0
    ensures n > 0 ==> n as real / p as real > 0.0
  {
    var x := n as real / p as real;
    assert x * p as real == n as real;
    if n > 0 && x <= 0.0 {
      Scale(x, 0.0, p as real);
    }
  }

  /** The page count is the integer ceiling: the last page is the one that
      holds the last item, and no items means no pages. */
  lemma TotalPagesIsIntegerCeiling(totalItems: nat, pageSize: nat)
    requires pageSize > 0
    ensures TotalPages(totalItems, pageSize) == (totalItems + pageSize - 1) / pageSize
    ensures totalItems > 0 ==>
              (TotalPages(totalItems, pageSize) - 1) * pageSize < totalItems <= TotalPages(totalItems, pageSize) * pageSize
    ensures totalItems == 0 ==> TotalPages(totalItems, pageSize) == 0
  {
    var n, p := totalItems, pageSize;
    var t := TotalPages(n, p);
    CeilingBrackets(n, p);
    var q: int := (n + p - 1) / p;
    assert (q - 1) * p < n <= q * p by {
      assert q * p <= n + p - 1 < q * p + p;
    }
    BracketUnique(n, p, t, q);
  }

  /** The real-valued ceiling t satisfies (t-1)*p < n <= t*p. */
  lemma CeilingBrackets(n: nat, p: nat)
    requires p > 0
    ensures (TotalPages(n, p) - 1) * p < n <= TotalPages(n, p) * p
  {
    var x := n as real / p as real;
    assert x * p as real == n as real;
    RealBrackets(n, p, TotalPages(n, p), x);
  }

  /** If x*p = n and t-1 < x <= t, then (t-1)*p < n <= t*p. */
  lemma RealBrackets(n: nat, p: nat, t: int, x: real)
    requires p > 0
    requires x * p as real == n as real
    requires t as real - 1.0 < x <= t as real
    ensures (t - 1) * p < n <= t * p
  {
    var pr := p as real;
    var lo, hi := (t - 1) * p, t * p;
    CastProduct(t - 1, p);
    CastProduct(t, p);
    ScaleStrict((t - 1) as real, x, pr);
    Scale(x, t as real, pr);
    calc {
      lo as real;
    ==
      (t - 1) as real * pr;
    <
      x * pr;
    ==
      n as real;
    }
    calc {
      n as real;
    ==
      x * pr;
    <=
      t as real * pr;
    ==
      hi as real;
    }
  }

  lemma CastProduct(a: int, b: int)
    ensures (a * b) as real == a as real * b as real
  {
  }

  /** At most one integer t has (t-1)*p < n <= t*p. */
  lemma BracketUnique(n: int, p: nat, t: int, q: int)
    requires p > 0
    requires (t - 1) * p < n <= t * p
    requires (q - 1) * p < n <= q * p
    ensures t == q
  {
    if t < q {
      MultiplyMonotone(t, q - 1, p);
    } else if t > q {
      MultiplyMonotone(q, t - 1, p);
    }
  }

  lemma ScaleStrict(a: real, b: real, c: real)
    requires a < b && c > 0.0
    ensures a * c < b * c
  {
  }

  lemma Scale(a: real, b: real, c: real)
    requires a <= b && c > 0.0
    ensures a * c <= b * c
  {
  }

  lemma MultiplyMonotone(a: int, b: int, p: nat)
    requires a <= b
    ensures a * p <= b * p
  {
  }

  /** `handlePrevious`: one page back unless already on page 1. */
  function PreviousPage(currentPage: int): (r: int)
    ensures r == currentPage - 1 || r == currentPage
    ensures r < currentPage <==> currentPage > 1
    ensures currentPage >= 1 ==> r >= 1
  {
    if currentPage > 1 then currentPage - 1 else currentPage
  }

  /** `handleNext`: one page on unless already at the page count. */
  function NextPage(currentPage: int, totalPages: int): (r: int)
    ensures r == currentPage + 1 || r == currentPage
    ensures r > currentPage <==> currentPage < totalPages
    ensures currentPage <= totalPages ==> r <= totalPages
  {
    if currentPage < totalPages then currentPage + 1 else currentPage
  }

  /** Both handlers keep the current page within 1..totalPages. */
  lemma NavigationStaysInRange(currentPage: int, totalPages: int)
    requires 1 <= currentPage <= totalPages
    ensures 1 <= PreviousPage(currentPage) <= totalPages
    ensures 1 <= NextPage(currentPage, totalPages) <= totalPages
  {
  }

  /** `disabled={currentPage === 1}` on Previous. */
  predicate PreviousDisabled(currentPage: int)
  {
    currentPage == 1
  }

  /** `disabled={currentPage === totalPages}` on Next, as written. */
  predicate NextDisabled(currentPage: int, totalPages: int)
  {
    currentPage == totalPages
  }

  /** On any page from 1 on, Previous is disabled exactly when it would do
      nothing. */
  lemma PreviousDisabledIffInert(currentPage: int)
    requires currentPage >= 1
    ensures PreviousDisabled(currentPage) <==> PreviousPage(currentPage) == currentPage
  {
  }

  /** Within 1..totalPages, Next is disabled exactly when it would do
      nothing. */
  lemma NextDisabledIffInert(currentPage: int, totalPages: int)
    requires 1 <= currentPage <= totalPages
    ensures NextDisabled(currentPage, totalPages) <==> NextPage(currentPage, totalPages) == currentPage
  {
  }

  /** With nothing to show there are no pages, the current page is 1, and
      Next stays enabled although clicking it changes nothing. */
  lemma EmptyListLeavesNextEnabledButInert(pageSize: nat)
    requires pageSize > 0
    ensures TotalPages(0, pageSize) == 0
    ensures !NextDisabled(1, TotalPages(0, pageSize))
    ensures NextPage(1, TotalPages(0, pageSize)) == 1
  {
    TotalPagesIsIntegerCeiling(0, pageSize);
  }

  /** Next disabled whenever there is no later page. */
  predicate NextDisabledCorrected(currentPage: int, totalPages: int)
  {
    currentPage >= totalPages
  }

  /** The corrected condition disables Next exactly when it would do
      nothing, for every page count, the empty list's 0 included. */
  lemma NextDisabledCorrectedIffInert(currentPage: int, totalPages: int)
    ensures NextDisabledCorrected(currentPage, totalPages) <==> NextPage(currentPage, totalPages) == currentPage
  {
  }
}
