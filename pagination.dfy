/**
 * Pagination of the filtered list: a fixed page size, the slice one page
 * shows, the page count, and the state of the pagination controls.
 */
module Pagination {
  /** `blogsPerPage`. Products below write the literal 12 rather than this
      name, so that the verifier treats them as linear arithmetic. */
  const PageSize: nat := 12

  /** Pages are numbered from 1; every caller passes a page of at least 1. */
  type Page = p: int | p >= 1 witness 1

  function Min(a: int, b: int): int { if a <= b then a else b }

  /** `Math.ceil(count / blogsPerPage)`: the least number of pages of PageSize
      that hold count posts. */
  function TotalPages(count: nat): (r: nat)
    ensures r * 12 >= count
    ensures r > 0 ==> (r - 1) * 12 < count
    ensures r == 0 <==> count == 0
  {
    (count + 12 - 1) / 12
  }

  /** `filteredBlogs.slice(startIndex, endIndex)` for one page: JavaScript's
      slice stops at the length, and starts past it give an empty slice. */
  function PageSlice<T>(s: seq<T>, page: Page): (r: seq<T>)
    ensures |r| <= PageSize
    ensures forall i :: 0 <= i < |r| ==>
              (page - 1) * 12 + i < |s| && r[i] == s[(page - 1) * 12 + i]
    ensures r == [] <==> page > TotalPages(|s|)
    ensures page < TotalPages(|s|) ==> |r| == PageSize
  {
    var startIndex := (page - 1) * 12;
    var endIndex := startIndex + PageSize;
    s[Min(startIndex, |s|)..Min(endIndex, |s|)]
  }

  /** Pages 1 to k, one after the other. */
  function ConcatPages<T>(s: seq<T>, k: nat): seq<T>
  {
    if k == 0 then [] else ConcatPages(s, k - 1) + PageSlice(s, k)
  }

  lemma {:induction false} ConcatPagesPrefix<T>(s: seq<T>, k: nat)
    ensures ConcatPages(s, k) == s[..Min(k * 12, |s|)]
  {
    if k > 0 {
      ConcatPagesPrefix(s, k - 1);
      var a, b := Min((k - 1) * 12, |s|), Min(k * 12, |s|);
      assert PageSlice(s, k) == s[a..b];
      assert s[..a] + s[a..b] == s[..b];
    }
  }

  /** The pages 1 .. TotalPages partition the list: read in order they give it back. */
  lemma PagesReassemble<T>(s: seq<T>)
    ensures ConcatPages(s, TotalPages(|s|)) == s
  {
    ConcatPagesPrefix(s, TotalPages(|s|));
  }

  function DigitChar(d: nat): char
    requires d < 10
  {
    ('0' as int + d) as char
  }

  predicate IsDigits(s: string)
  {
    forall i :: 0 <= i < |s| ==> '0' <= s[i] <= '9'
  }

  /** How a template literal prints a non-negative integer. */
  function Decimal(n: nat): (r: string)
    ensures r != [] && IsDigits(r)
    ensures r[0] == '0' ==> n == 0
  {
    if n < 10 then [DigitChar(n)] else Decimal(n / 10) + [DigitChar(n % 10)]
  }

  function ParseDecimal(s: string): nat
    requires IsDigits(s)
  {
    if s == [] then 0
    else ParseDecimal(s[..|s| - 1]) * 10 + (s[|s| - 1] as int - '0' as int)
  }

  /** The printed number reads back as the number. */
  lemma {:induction false} DecimalRoundTrip(n: nat)
    ensures ParseDecimal(Decimal(n)) == n
  {
    if n >= 10 {
      DecimalRoundTrip(n / 10);
      var r := Decimal(n);
      assert r[..|r| - 1] == Decimal(n / 10);
    }
  }

  /** The page-info text: empty when there are no pages. */
  function PageInfoText(page: Page, totalPages: nat): (r: string)
    ensures r == [] <==> totalPages == 0
  {
    if totalPages > 0 then "Page " + Decimal(page) + " of " + Decimal(totalPages) else ""
  }

  /** The pagination controls: the disabled flags of the two buttons and the page-info text. */
  datatype Pager = Pager(prevDisabled: bool, nextDisabled: bool, info: string)

  /** updatePaginationControls for a list of count posts shown at page. */
  function PaginationControls(page: Page, count: nat): (r: Pager)
    ensures r.prevDisabled <==> page <= 1
    ensures r.nextDisabled <==> page >= TotalPages(count)
    ensures r.info == [] <==> count == 0
  {
    var totalPages := TotalPages(count);
    Pager(page <= 1, page >= totalPages, PageInfoText(page, totalPages))
  }

  /** An enabled button always leads to a page that has posts on it: on a page
      with posts, "previous" is enabled only above page 1 and "next" only below
      the last page, so the target slice is never empty; a list of at most one
      page disables both. */
  lemma EnabledButtonsReachPosts<T>(s: seq<T>, page: Page)
    requires PageSlice(s, page) != []
    ensures var p := PaginationControls(page, |s|);
            && (!p.prevDisabled ==> PageSlice(s, page - 1) != [])
            && (!p.nextDisabled ==> PageSlice(s, page + 1) != [])
            && (|s| <= PageSize ==> p.prevDisabled && p.nextDisabled)
  {
  }
}
