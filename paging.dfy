/** Page slicing and the page count of the catalog table
    (main.js:180-182, 193, 200-201). */
module Paging {

  function Min(a: int, b: int): int {
    if a <= b then a else b
  }

  function Max(a: int, b: int): int {
    if a >= b then a else b
  }

  /** How Array.prototype.slice reads a position: a negative one counts from
      the end, and the result is clamped to [0, n]. */
  function SlicePosition(i: int, n: nat): (r: nat)
    ensures r <= n
    ensures 0 <= i ==> r == Min(i, n)
    ensures i < 0 ==> r == Max(n + i, 0)
  {
    if i < 0 then Max(n + i, 0) else Min(i, n)
  }

  /** Array.prototype.slice(start, end). */
  function Slice<T>(s: seq<T>, start: int, end: int): (r: seq<T>)
    ensures |r| <= |s|
    ensures 0 <= start <= end <= |s| ==> r == s[start..end]
    ensures 0 <= end <= start ==> r == []
  {
    var from, to := SlicePosition(start, |s|), SlicePosition(end, |s|);
    if from < to then s[from..to] else []
  }

  lemma MulNonNegative(a: int, b: int)
    requires a >= 0 && b >= 0
    ensures a * b >= 0
  {
  }

  lemma PageArithmetic(page: int, perPage: int)
    ensures page >= 1 && perPage > 0 ==>
      (page - 1) * perPage >= 0 && (page - 1) * perPage + perPage == page * perPage
  {
    if page >= 1 && perPage > 0 {
      MulNonNegative(page - 1, perPage);
    }
  }

  /** The products shown on `page` (main.js:180-182): positions
      (page-1)*perPage up to page*perPage, cut off at the end of the list. */
  function PageItems<T>(s: seq<T>, page: int, perPage: int): (r: seq<T>)
    ensures page >= 1 && perPage > 0 ==>
      r == s[Min((page - 1) * perPage, |s|)..Min(page * perPage, |s|)]
  {
    var start := (page - 1) * perPage;
    PageArithmetic(page, perPage);
    Slice(s, start, start + perPage)
  }

  /** Math.ceil(n / perPage) (main.js:193): the fewest pages of perPage
      products that hold n products. */
  function TotalPages(n: nat, perPage: int): (t: nat)
    requires perPage > 0
    ensures t * perPage >= n
    ensures (t - 1) * perPage < n
  {
    var q := (n + perPage - 1) / perPage;
    var m := (n + perPage - 1) % perPage;
    assert q * perPage + m == n + perPage - 1 && 0 <= m < perPage;
    assert q >= 0;
    assert (q - 1) * perPage == q * perPage - perPage;
    q
  }

  /** The ceiling is the only such number. */
  lemma TotalPagesUnique(n: nat, perPage: int, t: nat)
    requires perPage > 0
    requires t * perPage >= n && (t - 1) * perPage < n
    ensures t == TotalPages(n, perPage)
  {
    var c := TotalPages(n, perPage);
    if t < c {
      MulMonotone(t, c - 1, perPage);
    } else if t > c {
      MulMonotone(c, t - 1, perPage);
    }
  }

  lemma MulMonotone(a: int, b: int, k: int)
    requires a <= b && k > 0
    ensures a * k <= b * k
  {
    assert b * k - a * k == (b - a) * k;
    MulNonNegative(b - a, k);
  }

  /** Sizes of the pages: every page up to the last holds at least one
      product, every page before the last is full, and none lie past it. */
  lemma PageShape<T>(s: seq<T>, perPage: int, page: int)
    requires perPage > 0 && page >= 1
    ensures page <= TotalPages(|s|, perPage) ==> 0 < |PageItems(s, page, perPage)| <= perPage
    ensures page < TotalPages(|s|, perPage) ==> |PageItems(s, page, perPage)| == perPage
    ensures page > TotalPages(|s|, perPage) ==> PageItems(s, page, perPage) == []
  {
    var t := TotalPages(|s|, perPage);
    PageArithmetic(page, perPage);
    if page <= t {
      MulMonotone(page - 1, t - 1, perPage);
    }
    if page < t {
      MulMonotone(page, t - 1, perPage);
    }
    if page > t {
      MulMonotone(t, page - 1, perPage);
    }
  }

  /** A page the view can be on (page 1 when there are no products, else one
      of the pages) holds at most perPage products, and none only when
      there are none at all. */
  lemma CurrentPageShape<T>(s: seq<T>, perPage: int, page: int)
    requires perPage > 0 && 1 <= page <= Max(1, TotalPages(|s|, perPage))
    ensures |PageItems(s, page, perPage)| <= perPage
    ensures PageItems(s, page, perPage) == [] <==> |s| == 0
  {
    PageShape(s, perPage, page);
    if |s| > 0 {
      assert TotalPages(|s|, perPage) >= 1;
    }
  }

  /** Pages `page` to the last one, concatenated in order. */
  function PagesFrom<T>(s: seq<T>, perPage: int, page: int): seq<T>
    requires perPage > 0 && page >= 1
    decreases TotalPages(|s|, perPage) + 1 - page
  {
    if page > TotalPages(|s|, perPage) then []
    else PageItems(s, page, perPage) + PagesFrom(s, perPage, page + 1)
  }

  lemma {:induction false} PagesFromSuffix<T>(s: seq<T>, perPage: int, page: int)
    requires perPage > 0 && 1 <= page <= TotalPages(|s|, perPage) + 1
    ensures PagesFrom(s, perPage, page) == s[Min((page - 1) * perPage, |s|)..]
    decreases TotalPages(|s|, perPage) + 1 - page
  {
    var t := TotalPages(|s|, perPage);
    PageArithmetic(page, perPage);
    if page > t {
      assert (page - 1) * perPage == t * perPage;
    } else {
      PagesFromSuffix(s, perPage, page + 1);
      var a, b := Min((page - 1) * perPage, |s|), Min(page * perPage, |s|);
      assert s[a..b] + s[b..] == s[a..];
    }
  }

  /** Pages 1 to totalPages, concatenated, give back the whole list: every
      product is on exactly one page, in order. */
  lemma PagesReassemble<T>(s: seq<T>, perPage: int)
    requires perPage > 0
    ensures PagesFrom(s, perPage, 1) == s
  {
    PagesFromSuffix(s, perPage, 1);
  }

  /** The previous button is disabled on the first page (main.js:200). */
  predicate PrevDisabled(page: int) {
    page == 1
  }

  /** The next button is disabled on the last page and when there is no
      page at all (main.js:201). */
  predicate NextDisabled(page: int, total: int) {
    page == total || total == 0
  }

  /** Twenty-five products at ten a page: three pages, the third holding
      products 21 to 25. */
  lemma TwentyFiveAtTen<T>(s: seq<T>)
    requires |s| == 25
    ensures TotalPages(|s|, 10) == 3
    ensures PageItems(s, 3, 10) == s[20..25]
  {
    TotalPagesUnique(25, 10, 3);
  }
}
