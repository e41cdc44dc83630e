/** Pages of an ordered result set.  Both back ends hand the ordering and the
    slicing to a library (WP_Query in the plugin, SQLAlchemy's `paginate` in the
    standalone app); this module is the abstract contract both are modelled by:
    page `p` of size `n` is the slice `[(p-1)*n, p*n)` of the ordered rows, and
    the page count is the ceiling of rows / n. */
module Paging {
  import opened Wrappers

  /** Index of the first row of 1-based page `page`. */
  function Offset(page: nat, perPage: nat): nat
    requires page >= 1
  {
    (page - 1) * perPage
  }

  /** Number of pages for `total` rows: the least `n` with `n * perPage >= total`. */
  function PageCount(total: nat, perPage: nat): (n: nat)
    requires perPage > 0
    ensures n * perPage >= total
    ensures n > 0 ==> (n - 1) * perPage < total
  {
    var q := (total + perPage - 1) / perPage;
    DivBounds(total + perPage - 1, perPage);
    q
  }

  lemma DivBounds(a: nat, d: nat)
    requires d > 0
    ensures (a / d) * d <= a < (a / d) * d + d
  {
  }

  /** The rows shown on 1-based page `page`. */
  function Page<T>(rows: seq<T>, page: nat, perPage: nat): (r: seq<T>)
    requires page >= 1 && perPage > 0
    ensures |r| == Max(0, Min(perPage, |rows| - Offset(page, perPage)))
    ensures forall i :: 0 <= i < |r| ==> r[i] == rows[Offset(page, perPage) + i]
  {
    var lo := Offset(page, perPage);
    if lo >= |rows| then [] else rows[lo .. Min(lo + perPage, |rows|)]
  }

  /** Pages 1..k in order, as an infinite-scroll surface accumulates them. */
  function Pages<T>(rows: seq<T>, k: nat, perPage: nat): seq<T>
    requires perPage > 0
  {
    if k == 0 then [] else Pages(rows, k - 1, perPage) + Page(rows, k, perPage)
  }

  /** A page beyond the last one is empty and every page up to the last one is
      not: "this page has rows" and "this page is within the page count" agree. */
  lemma PageNonEmptyIffWithinCount<T>(rows: seq<T>, page: nat, perPage: nat)
    requires page >= 1 && perPage > 0
    ensures |Page(rows, page, perPage)| > 0 <==> page <= PageCount(|rows|, perPage)
  {
    var n := PageCount(|rows|, perPage);
    if page <= n {
      MulMono(page - 1, n - 1, perPage);
    } else {
      MulMono(n, page - 1, perPage);
    }
  }

  lemma MulMono(a: nat, b: nat, c: nat)
    requires a <= b
    ensures a * c <= b * c
  {
  }

  /** "The page count exceeds `page`" (how WP_Query's `max_num_pages` and
      SQLAlchemy's `has_next` are computed) holds exactly when rows remain after
      the first `page` pages. */
  lemma MorePagesIffRowsRemain(total: nat, page: nat, perPage: nat)
    requires perPage > 0
    ensures PageCount(total, perPage) > page <==> page * perPage < total
  {
    var n := PageCount(total, perPage);
    if n > page {
      MulMono(page, n - 1, perPage);
    } else {
      MulMono(n, page, perPage);
    }
  }

  /** Loading pages 1..k one after another yields exactly the first k*perPage
      rows (or all of them): no row twice, none skipped, order kept. */
  lemma {:induction false} PagesArePrefix<T>(rows: seq<T>, k: nat, perPage: nat)
    requires perPage > 0
    ensures Pages(rows, k, perPage) == rows[..Min(k * perPage, |rows|)]
  {
    if k > 0 {
      PagesArePrefix(rows, k - 1, perPage);
      PageIsSlice(rows, k, perPage);
      NextMultiple(k, perPage);
      PrefixThenSlice(rows, Min((k - 1) * perPage, |rows|), Min(k * perPage, |rows|));
    }
  }

  lemma PrefixThenSlice<T>(rows: seq<T>, lo: nat, hi: nat)
    requires lo <= hi <= |rows|
    ensures rows[..lo] + rows[lo..hi] == rows[..hi]
  {
  }

  lemma NextMultiple(k: nat, perPage: nat)
    requires k >= 1
    ensures (k - 1) * perPage + perPage == k * perPage
    ensures (k - 1) * perPage <= k * perPage
  {
  }

  /** Page `k` is the slice of the rows between the ends of pages k-1 and k,
      both capped at the number of rows. */
  lemma PageIsSlice<T>(rows: seq<T>, k: nat, perPage: nat)
    requires k >= 1 && perPage > 0
    ensures Page(rows, k, perPage) == rows[Min((k - 1) * perPage, |rows|)..Min(k * perPage, |rows|)]
  {
    NextMultiple(k, perPage);
    var a := (k - 1) * perPage;
    var p := Page(rows, k, perPage);
    var lo, hi := Min(a, |rows|), Min(a + perPage, |rows|);
    assert Offset(k, perPage) == a;
    forall i | 0 <= i < |p| ensures p[i] == rows[lo..hi][i] {
      assert p[i] == rows[a + i];
    }
  }

  /** Once the page count is reached, the accumulated pages are all rows. */
  lemma AllPagesAreAllRows<T>(rows: seq<T>, perPage: nat)
    requires perPage > 0
    ensures Pages(rows, PageCount(|rows|, perPage), perPage) == rows
  {
    PagesArePrefix(rows, PageCount(|rows|, perPage), perPage);
  }
}
