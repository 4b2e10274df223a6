/** The page count of a listing: integer division plus one when a remainder is left. */
module PageCount {

  /** The number of pages of `pageSize` rows that `total` rows fill, the last one
      possibly partly: the ceiling of `total / pageSize`. No rows make no pages. */
  function TotalPages(total: int, pageSize: int): (pages: int)
    requires total >= 0 && pageSize >= 1
    ensures pages >= 0
    ensures total == 0 ==> pages == 0
    ensures (pages - 1) * pageSize < total <= pages * pageSize
  {
    var pages := total / pageSize;
    if total % pageSize != 0 then pages + 1 else pages
  }

  lemma MulMonotonic(a: int, b: int, c: int)
    requires a <= b && c >= 0
    ensures a * c <= b * c
  {
  }

  /** The page count is the only count whose pages hold all rows with the last page
      non-empty: any `n` with `(n - 1) * pageSize < total <= n * pageSize` is it. */
  lemma TotalPagesIsCeiling(total: int, pageSize: int, n: int)
    requires total > 0 && pageSize >= 1
    requires (n - 1) * pageSize < total <= n * pageSize
    ensures n == TotalPages(total, pageSize)
  {
    var p := TotalPages(total, pageSize);
    if n < p {
      MulMonotonic(n, p - 1, pageSize);
    } else if n > p {
      MulMonotonic(p, n - 1, pageSize);
    }
  }

  /** Exact multiples fill their pages: `k * pageSize` rows make `k` pages. */
  lemma ExactMultiplePages(k: nat, pageSize: int)
    requires pageSize >= 1
    ensures TotalPages(k * pageSize, pageSize) == k
  {
    if k > 0 {
      TotalPagesIsCeiling(k * pageSize, pageSize, k);
    }
  }
}
