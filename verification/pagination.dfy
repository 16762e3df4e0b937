/**
 Offset pagination of a result list, as the routes do it: page `page` of size
 `perPage` is the Python slice `items[(page-1)*perPage : (page-1)*perPage + perPage]`,
 reported together with the previous/next flags, the page number and the offset.
 */
module Pagination {

  /** The page size every route passes. */
  const PerPage: int := 10

  function Min(a: int, b: int): int {
    if a <= b then a else b
  }

  /** How Python turns one bound of `s[lo:hi]` into an index of a sequence of length `n`:
      a negative bound counts from the end, and the result is clamped to `0..n`. */
  function SliceBound(i: int, n: nat): (k: nat)
    ensures k <= n
  {
    if i < 0 then (if i + n < 0 then 0 else i + n) else Min(i, n)
  }

  /** Python's `s[lo:hi]` with step 1: empty unless the normalised bounds are increasing. */
  function Slice<T>(s: seq<T>, lo: int, hi: int): (r: seq<T>)
    ensures |r| <= |s|
    ensures 0 <= lo <= hi ==> r == s[Min(lo, |s|)..Min(hi, |s|)]
    ensures 0 <= hi <= lo ==> r == []
    ensures 0 <= lo && 0 <= hi ==> |r| <= if lo <= hi then hi - lo else 0
  {
    var a := SliceBound(lo, |s|);
    var b := SliceBound(hi, |s|);
    if a < b then s[a..b] else []
  }

  /** A negative bound of `s[lo:hi]` counts from the end: it means the same as the bound
      with the length added, and one further left than the start means the start. */
  lemma SliceNegativeBounds<T>(s: seq<T>, lo: int, hi: int)
    ensures -|s| <= lo < 0 ==> Slice(s, lo, hi) == Slice(s, lo + |s|, hi)
    ensures lo < -|s| ==> Slice(s, lo, hi) == Slice(s, 0, hi)
    ensures -|s| <= hi < 0 ==> Slice(s, lo, hi) == Slice(s, lo, hi + |s|)
    ensures hi < -|s| ==> Slice(s, lo, hi) == []
  {
  }

  /** A bound past the end of `s[lo:hi]` means the end. */
  lemma SliceClampHigh<T>(s: seq<T>, lo: int, hi: int)
    ensures |s| < lo ==> Slice(s, lo, hi) == []
    ensures |s| < hi ==> Slice(s, lo, hi) == Slice(s, lo, |s|)
  {
  }

  /** The dictionary `paginate` returns. */
  datatype Page<T> = Page(items: seq<T>, hasPrev: bool, hasNext: bool, page: int, offset: int)

  lemma MulNonNegative(a: int, b: int)
    requires 0 <= a && 0 <= b
    ensures 0 <= a * b
  {
  }

  /** `paginate(items, page, per_page)`; defined for every page number, including zero and
      negative ones, with Python's slice semantics. Whenever the offset is not negative the
      items are the slice clamped to the list, at most `perPage` long. */
  function Paginate<T>(items: seq<T>, page: int, perPage: int): (r: Page<T>)
    ensures r.page == page
    ensures r.offset == (page - 1) * perPage
    ensures r.hasPrev <==> page > 1
    ensures r.hasNext <==> r.offset + perPage < |items|
    ensures 0 <= r.offset && 0 <= perPage ==>
      r.items == items[Min(r.offset, |items|)..Min(r.offset + perPage, |items|)] &&
      |r.items| <= perPage
  {
    var start := (page - 1) * perPage;
    var end := start + perPage;
    Page(Slice(items, start, end), page > 1, end < |items|, page, start)
  }

  /** Every page from 1 on is the clamped slice `items[offset..offset + perPage]`: at most
      `perPage` films, and none once the offset reaches the end of the list. */
  lemma ForwardPage<T>(items: seq<T>, page: int, perPage: int)
    requires page >= 1 && perPage >= 0
    ensures Paginate(items, page, perPage).offset >= 0
    ensures Paginate(items, page, perPage).items ==
      items[Min((page - 1) * perPage, |items|)..Min((page - 1) * perPage + perPage, |items|)]
    ensures |Paginate(items, page, perPage).items| <= perPage
    ensures (page - 1) * perPage >= |items| ==> Paginate(items, page, perPage).items == []
  {
    MulNonNegative(page - 1, perPage);
  }

  /** `ceil(n / perPage)`, the number of non-empty pages of a list of length `n`: one page
      per `perPage` items and one more for any remainder. */
  function PageCount(n: nat, perPage: int): nat
    requires perPage >= 1
    decreases n
  {
    if n == 0 then 0 else if n <= perPage then 1 else 1 + PageCount(n - perPage, perPage)
  }

  /** Multiplying by a positive page size keeps order. */
  lemma MulMonotone(a: int, b: int, p: int)
    requires a <= b && p >= 0
    ensures a * p <= b * p
  {
    assert b * p - a * p == (b - a) * p;
    MulNonNegative(b - a, p);
  }

  /** The page count brackets the length: the last page starts before its end and ends at or
      after it. */
  lemma {:induction false} PageCountBounds(n: nat, p: int)
    requires p >= 1
    ensures (PageCount(n, p) - 1) * p < n <= PageCount(n, p) * p
    decreases n
  {
    if n > p {
      var q := PageCount(n - p, p);
      PageCountBounds(n - p, p);
      assert (q + 1) * p == q * p + p;
      assert (q + 1 - 1) * p == (q - 1) * p + p;
    }
  }

  /** A page has a next page exactly when its end lies before the end of the list, that is
      when it comes before the last non-empty page. */
  lemma HasNextIff<T>(items: seq<T>, page: int, p: int)
    requires page >= 1 && p >= 1
    ensures Paginate(items, page, p).hasNext <==> page * p < |items|
    ensures Paginate(items, page, p).hasNext <==> page < PageCount(|items|, p)
  {
    var q := PageCount(|items|, p);
    assert (page - 1) * p + p == page * p;
    PageCountBounds(|items|, p);
    if page < q {
      MulMonotone(page, q - 1, p);
    } else {
      MulMonotone(q, page, p);
    }
  }

  /** Pages 1 to `PageCount` are full except the last, which is non-empty and has no next
      page; every page after it is empty and has no next page either. */
  lemma PageShape<T>(items: seq<T>, page: int, p: int)
    requires page >= 1 && p >= 1
    ensures page < PageCount(|items|, p) ==> |Paginate(items, page, p).items| == p
    ensures page <= PageCount(|items|, p) ==> |Paginate(items, page, p).items| > 0
    ensures page == PageCount(|items|, p) ==> !Paginate(items, page, p).hasNext
    ensures page > PageCount(|items|, p) ==>
      Paginate(items, page, p).items == [] && !Paginate(items, page, p).hasNext
  {
    var n := |items|;
    var q := PageCount(n, p);
    var r := Paginate(items, page, p);
    var st := (page - 1) * p;
    var en := st + p;
    HasNextIff(items, page, p);
    PageCountBounds(n, p);
    MulNonNegative(page - 1, p);
    assert r.items == items[Min(st, n)..Min(en, n)];
    if page <= q {
      MulMonotone(page - 1, q - 1, p);
      assert st < n;
    } else {
      MulMonotone(q, page - 1, p);
      assert st >= n;
    }
  }

  /** Page 0 slices `items[-perPage:0]`, which is always empty. */
  lemma PageZeroEmpty<T>(items: seq<T>, p: int)
    requires p >= 0
    ensures Paginate(items, 0, p).items == []
    ensures !Paginate(items, 0, p).hasPrev && Paginate(items, 0, p).offset == -p
  {
  }

  /** A negative page wraps around from the end: page -1 of 25 items is `items[-20:-10]`,
      the sixth to the fifteenth item. */
  lemma NegativePageWraps<T>(items: seq<T>)
    requires |items| == 25
    ensures Paginate(items, -1, 10).items == items[5..15]
    ensures Paginate(items, -1, 10).offset == -20
  {
  }

  /** The items of pages 1 to `k`, in order. */
  function PagesUpTo<T>(items: seq<T>, p: int, k: nat): seq<T> {
    if k == 0 then [] else PagesUpTo(items, p, k - 1) + Paginate(items, k, p).items
  }

  /** The first `k` pages together are the prefix of length `k * p`. */
  lemma PagesUpToPrefix<T>(items: seq<T>, p: int, k: nat)
    requires p >= 1
    ensures PagesUpTo(items, p, k) == items[..Min(k * p, |items|)]
  {
    PagesUpToEnd(items, p, k, k * p);
  }

  /** `PagesUpToPrefix` with the end `e == k * p` of page `k` as a parameter, which keeps
      the induction step linear. */
  lemma {:induction false} PagesUpToEnd<T>(items: seq<T>, p: int, k: nat, e: int)
    requires p >= 1 && e == k * p
    ensures PagesUpTo(items, p, k) == items[..Min(e, |items|)]
  {
    if k > 0 {
      var start := e - p;
      assert start == (k - 1) * p;
      PagesUpToEnd(items, p, k - 1, start);
      ForwardPage(items, k, p);
      var a := Min(start, |items|);
      var b := Min(e, |items|);
      assert Paginate(items, k, p).items == items[a..b];
      PrefixSplit(items, a, b);
    }
  }

  lemma PrefixSplit<T>(s: seq<T>, a: int, b: int)
    requires 0 <= a <= b <= |s|
    ensures s[..a] + s[a..b] == s[..b]
  {
  }

  /** Concatenating the pages 1 to `PageCount` gives back the list exactly, with nothing
      left out and nothing repeated. */
  lemma PagesReconstruct<T>(items: seq<T>, p: int)
    requires p >= 1
    ensures PagesUpTo(items, p, PageCount(|items|, p)) == items
  {
    PagesUpToPrefix(items, p, PageCount(|items|, p));
    PageCountBounds(|items|, p);
  }

  /** With 25 items and pages of 10, page 3 holds the last 5 items and has no next page. */
  lemma ThirdPageOfTwentyFive<T>(items: seq<T>)
    requires |items| == 25
    ensures Paginate(items, 3, PerPage) == Page(items[20..25], true, false, 3, 20)
  {
  }

  /** The empty list has a single, empty first page. */
  lemma EmptyFirstPage<T>(items: seq<T>)
    requires items == []
    ensures Paginate(items, 1, PerPage) == Page([], false, false, 1, 0)
  {
  }
}
