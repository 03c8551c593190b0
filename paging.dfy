/**
 * Page arithmetic of the transaction listings: the fixed page size, the
 * ceiling on the requested page of the confirmed listing, and the number
 * of pages reported for a count.
 */
module Paging {

  /** Rows per page of every listing. */
  const PAGE_SIZE: int := 25

  /** Highest page the confirmed listing will fetch. */
  const MAX_PAGE: int := 20

  /**
   * The requested page after the confirmed listing's clamp: pages above
   * MAX_PAGE become MAX_PAGE; there is no lower bound, so zero and
   * negative pages pass through unchanged.
   */
  function ClampPage(page: int): (p: int)
    ensures p <= MAX_PAGE
    ensures p == page || p == MAX_PAGE
    ensures page <= MAX_PAGE ==> p == page
  {
    if page > MAX_PAGE then MAX_PAGE else page
  }

  /**
   * Java's integer division, which rounds toward zero; Dafny's `/` is
   * Euclidean and rounds a negative dividend that is not a multiple of
   * the divisor the other way.
   */
  function TruncDiv(a: int, b: int): (q: int)
    requires b > 0
    ensures a >= 0 ==> q * b <= a < q * b + b
    ensures a < 0 ==> q * b - b < a <= q * b
  {
    if a >= 0 then a / b else -((-a) / b)
  }

  /**
   * The page count reported for `cnt` rows: `cnt / PAGE_SIZE + 1` in
   * Java arithmetic. For a non-negative count the 0-based position `cnt`,
   * one past the last row, falls on the last page, so an exact multiple
   * of PAGE_SIZE gets one extra, empty page; a negative count is rounded
   * toward zero.
   */
  function TotalPages(cnt: int): (n: int)
    ensures cnt >= 0 ==> n >= 1 && (n - 1) * PAGE_SIZE <= cnt < n * PAGE_SIZE
    ensures cnt < 0 ==> n <= 1 && (n - 2) * PAGE_SIZE < cnt <= (n - 1) * PAGE_SIZE
  {
    TruncDiv(cnt, PAGE_SIZE) + 1
  }

  /** The clamp is the minimum of the request and MAX_PAGE. */
  lemma ClampIsMin(page: int)
    ensures ClampPage(page) <= page
    ensures page > MAX_PAGE <==> ClampPage(page) != page
  {
  }

  /**
   * Java's quotient equals Dafny's exactly for a non-negative count and
   * for a negative multiple of PAGE_SIZE; on any other negative count it
   * is one higher.
   */
  lemma TruncDivVersusEuclidean(cnt: int)
    ensures TruncDiv(cnt, PAGE_SIZE) == cnt / PAGE_SIZE <==> cnt >= 0 || cnt % PAGE_SIZE == 0
    ensures cnt < 0 && cnt % PAGE_SIZE != 0 ==> TruncDiv(cnt, PAGE_SIZE) == cnt / PAGE_SIZE + 1
  {
  }

  /** For a non-negative count the Java formula agrees with Euclidean division. */
  lemma TotalPagesOfNonNegative(cnt: int)
    requires cnt >= 0
    ensures TotalPages(cnt) == cnt / PAGE_SIZE + 1
  {
  }

  /**
   * `k` full pages of rows are reported as `k + 1` pages: the formula is
   * not a ceiling.
   */
  lemma TotalPagesOfMultiple(k: nat)
    ensures TotalPages(k * PAGE_SIZE) == k + 1
  {
  }

  /** The page count never shrinks as rows are added, and PAGE_SIZE more rows add exactly one page. */
  lemma TotalPagesMonotone(c1: int, c2: int)
    requires 0 <= c1 <= c2
    ensures TotalPages(c1) <= TotalPages(c2)
    ensures TotalPages(c2 + PAGE_SIZE) == TotalPages(c2) + 1
  {
  }

  /** Worked cases: 0 rows give 1 page, 25 rows give 2, and -1 rows give 1 where Euclidean division would give 0. */
  lemma TotalPagesExamples()
    ensures TotalPages(0) == 1
    ensures TotalPages(24) == 1
    ensures TotalPages(25) == 2
    ensures TotalPages(-1) == 1 && -1 / PAGE_SIZE + 1 == 0
    ensures TotalPages(-25) == 0
  {
  }
}
