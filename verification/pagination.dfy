/**
 Pagination of the filtered list: ten rows per page, the page count, the
 slice shown for a page, and when the first/previous and next/last buttons
 are disabled.
 */
module Pagination {
  import opened Seqs

  const PageSize: nat := 10

  /** `Math.ceil(n / PageSize)`: the fewest pages that hold `n` rows. */
  function TotalPages(n: nat): (r: nat)
    ensures n <= r * PageSize < n + PageSize
  {
    (n + PageSize - 1) / PageSize
  }

  /** The rows shown on a (1-based) page: `slice((page - 1) * PageSize, page * PageSize)`. */
  function PageSlice<T>(list: seq<T>, page: int): (r: seq<T>)
    ensures |r| <= PageSize
    ensures page >= 1 ==> r == list[Min((page - 1) * PageSize, |list|)..Min(page * PageSize, |list|)]
  {
    Slice(list, (page - 1) * PageSize, page * PageSize)
  }

  /** The slices of pages 1 to k, one after the other. */
  function ConcatPages<T>(list: seq<T>, k: nat): seq<T> {
    if k == 0 then [] else ConcatPages(list, k - 1) + PageSlice(list, k)
  }

  /** Pages 1 to k together hold exactly the first k * PageSize rows. */
  lemma {:induction false} ConcatPagesPrefix<T>(list: seq<T>, k: nat)
    ensures ConcatPages(list, k) == list[..Min(k * PageSize, |list|)]
  {
    if k > 0 {
      ConcatPagesPrefix(list, k - 1);
      var a := Min((k - 1) * PageSize, |list|);
      var b := Min(k * PageSize, |list|);
      assert list[..a] + list[a..b] == list[..b];
    }
  }

  /** Pages 1 to TotalPages together reproduce the whole list: no row is missing, repeated or moved. */
  lemma {:induction false} PagesReassemble<T>(list: seq<T>)
    ensures ConcatPages(list, TotalPages(|list|)) == list
  {
    ConcatPagesPrefix(list, TotalPages(|list|));
  }

  /** Every page from 1 to TotalPages has at least one row; every later page has none. */
  lemma PagesInRangeAreNonEmpty<T>(list: seq<T>, page: int)
    requires page >= 1
    ensures page <= TotalPages(|list|) <==> |PageSlice(list, page)| > 0
  {
  }

  /** The first and previous buttons are disabled on page 1: from page 1 on, exactly when
      stepping back would leave the pages that exist. */
  function FirstPrevDisabled(page: int): (b: bool)
    ensures page >= 1 ==> (b <==> page - 1 < 1)
  {
    page == 1
  }

  /** The next and last buttons are disabled once the page reaches the end of the rows: from
      page 1 on, exactly when no later page exists. */
  function NextLastDisabled(page: int, total: nat): (b: bool)
    ensures page >= 1 ==> (b <==> page >= TotalPages(total))
  {
    page * PageSize >= total
  }

  /** On any page from 1 on, next/last are enabled exactly when a later page exists;
      on page 1 of an empty list every button is disabled. */
  lemma NavButtons(page: int, total: nat)
    requires page >= 1
    ensures !NextLastDisabled(page, total) <==> page < TotalPages(total)
    ensures total == 0 && page == 1 ==> FirstPrevDisabled(page) && NextLastDisabled(page, total)
  {
  }
}
