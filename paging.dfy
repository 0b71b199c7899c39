/** GET /api/quotes?page=&limit= : one page of the store, with the counts a
    client needs to page through all of it. */
module Paging {
  import opened Wrappers
  import opened Quotes

  function Min(a: int, b: int): int
  {
    if a <= b then a else b
  }

  /** `parseInt(param) || fallback`: a parameter that did not parse (NaN) or
      parsed to zero is falsy and gives way to the fallback. */
  function OrDefault(param: Option<int>, fallback: int): (v: int)
    ensures param.None? ==> v == fallback
    ensures param == Some(0) ==> v == fallback
    ensures param.Some? && param.value != 0 ==> v == param.value
  {
    match param
    case None => fallback
    case Some(x) => if x == 0 then fallback else x
  }

  /** How `Array.prototype.slice` turns an index into a position: a negative
      index counts back from the end, and the result is clamped to [0, n]. */
  function SliceIndex(i: int, n: nat): (k: nat)
    ensures k <= n
    ensures 0 <= i ==> k == Min(i, n)
    ensures i < 0 && -i <= n ==> k == n + i
    ensures i < 0 && n < -i ==> k == 0
  {
    if i < 0 then (if n + i < 0 then 0 else n + i)
    else if i > n then n else i
  }

  /** `s.slice(start, end)`: the elements between the two clamped positions,
      or none when the end position is not past the start position. */
  function JsSlice(s: seq<Quote>, start: int, end: int): (r: seq<Quote>)
    ensures |r| <= |s|
    ensures SliceIndex(end, |s|) <= SliceIndex(start, |s|) ==> r == []
    ensures 0 <= start <= end ==> r == s[Min(start, |s|)..Min(end, |s|)]
    ensures forall q :: q in r ==> q in s
  {
    var lo, hi := SliceIndex(start, |s|), SliceIndex(end, |s|);
    if lo < hi then s[lo..hi] else []
  }

  /** k is `Math.ceil(a / b)`: the least integer not below a/b. For b > 0
      that is the least k with a <= k*b, for b < 0 the least k with
      k*b <= a. */
  ghost predicate IsCeiling(a: int, b: int, k: int)
  {
    (b > 0 ==> a <= k * b && (k - 1) * b < a)
    && (b < 0 ==> k * b <= a && a < (k - 1) * b)
  }

  /** `Math.ceil(a / b)` for a non-negative count and a non-zero divisor, in
      integers. */
  function CeilDiv(a: nat, b: int): (k: int)
    requires b != 0
    ensures IsCeiling(a, b, k)
    ensures b > 0 ==> k >= 0
    ensures b < 0 ==> k <= 0
  {
    if b > 0 then
      var k := (a + b - 1) / b;
      assert a + b - 1 == b * k + (a + b - 1) % b;
      assert (k - 1) * b == k * b - b;
      k
    else
      var q := a / (-b);
      assert a == (-b) * q + a % (-b);
      assert (-q - 1) * b == q * (-b) - b;
      -q
  }

  /** For positive page and limit, page p's window [(p-1)*l, p*l) starts at
      a non-negative index and is l long. */
  lemma WindowBounds(p: int, l: int)
    requires p >= 1 && l >= 1
    ensures 0 <= (p - 1) * l <= p * l
    ensures p * l - (p - 1) * l == l
  {
    assert (p - 1) * l == p * l - l;
    assert (p - 1) * l >= 0;
  }

  /** The part of the store that page `page` of size `limit` shows:
      `s.slice((page - 1) * limit, page * limit)`. */
  function Window(s: seq<Quote>, page: int, limit: int): (r: seq<Quote>)
    ensures |r| <= |s| && forall q :: q in r ==> q in s
    ensures page >= 1 && limit >= 1 ==>
              r == s[Min((page - 1) * limit, |s|)..Min(page * limit, |s|)]
              && |r| <= limit
              && ((page - 1) * limit >= |s| ==> r == [])
  {
    var start, end := (page - 1) * limit, page * limit;
    assert page >= 1 && limit >= 1 ==> 0 <= start <= end && end - start == limit by {
      if page >= 1 && limit >= 1 { WindowBounds(page, limit); }
    }
    JsSlice(s, start, end)
  }

  /** The handler: the page and limit actually used (falling back to 1 and
      11), the window of the store they select, the store's size and the
      number of pages. */
  function ListQuotes(s: seq<Quote>, pageParam: Option<int>, limitParam: Option<int>): (r: Response<PageBody>)
    ensures r.Ok?
    ensures pageParam.None? || pageParam == Some(0) ==> r.body.page == 1
    ensures pageParam.Some? && pageParam.value != 0 ==> r.body.page == pageParam.value
    ensures limitParam.None? || limitParam == Some(0) ==> r.body.limit == 11
    ensures limitParam.Some? && limitParam.value != 0 ==> r.body.limit == limitParam.value
    ensures r.body.total == |s|
    ensures IsCeiling(|s|, r.body.limit, r.body.totalPages)
    ensures r.body.limit > 0 ==> r.body.totalPages >= 0
    ensures r.body.quotes == Window(s, r.body.page, r.body.limit)
  {
    var page := OrDefault(pageParam, 1);
    var limit := OrDefault(limitParam, 11);
    Ok(PageBody(page, limit, |s|, CeilDiv(|s|, limit), Window(s, page, limit)))
  }

  /** The quotes on page p of size l. */
  function PageOf(s: seq<Quote>, p: int, l: int): seq<Quote>
  {
    ListQuotes(s, Some(p), Some(l)).body.quotes
  }

  /** The number of pages reported for pages of size l. */
  function PageCount(s: seq<Quote>, l: int): int
  {
    ListQuotes(s, Some(1), Some(l)).body.totalPages
  }

  lemma PageWindow(s: seq<Quote>, p: int, l: int)
    requires p >= 1 && l >= 1
    ensures PageOf(s, p, l) == s[Min((p - 1) * l, |s|)..Min(p * l, |s|)]
  {
  }

  lemma SliceConcat(s: seq<Quote>, a: int, b: int, c: int)
    requires 0 <= a <= b <= c <= |s|
    ensures s[a..b] + s[b..c] == s[a..c]
  {
  }

  /** Pages p and p+1 of one size meet exactly, without a gap or an overlap. */
  lemma PagesAdjacent(s: seq<Quote>, p: int, l: int)
    requires p >= 1 && l >= 1
    ensures PageOf(s, p, l) + PageOf(s, p + 1, l) == s[Min((p - 1) * l, |s|)..Min((p + 1) * l, |s|)]
  {
    WindowBounds(p, l);
    WindowBounds(p + 1, l);
    var a, b, c := Min((p - 1) * l, |s|), Min(p * l, |s|), Min((p + 1) * l, |s|);
    PageWindow(s, p, l);
    PageWindow(s, p + 1, l);
    assert (p + 1 - 1) * l == p * l;
    SliceConcat(s, a, b, c);
  }

  lemma MulMonotone(a: int, b: int, l: int)
    requires a <= b && l >= 1
    ensures a * l <= b * l
  {
    assert b * l - a * l == (b - a) * l;
  }

  /** Pages 1..k of size l, one after another. */
  ghost function PagesUpTo(s: seq<Quote>, l: int, k: nat): seq<Quote>
  {
    if k == 0 then [] else PagesUpTo(s, l, k - 1) + PageOf(s, k, l)
  }

  /** The first k pages are the first k*l quotes (or all of them). */
  lemma {:induction false} PagesUpToPrefix(s: seq<Quote>, l: int, k: nat)
    requires l >= 1
    ensures PagesUpTo(s, l, k) == s[..Min(k * l, |s|)]
  {
    if k > 0 {
      var a, b := Min((k - 1) * l, |s|), Min(k * l, |s|);
      WindowBounds(k, l);
      PagesUpToPrefix(s, l, k - 1);
      assert PagesUpTo(s, l, k - 1) == s[..a];
      PageWindow(s, k, l);
      assert PagesUpTo(s, l, k) == s[0..a] + s[a..b];
      SliceConcat(s, 0, a, b);
    }
  }

  /** Reading pages 1 to the reported page count, in order, gives back the
      whole store. */
  lemma AllPagesCoverStore(s: seq<Quote>, l: int)
    requires l >= 1
    ensures PageCount(s, l) >= 0
    ensures PagesUpTo(s, l, PageCount(s, l)) == s
  {
    var k := PageCount(s, l);
    PagesUpToPrefix(s, l, k);
    assert |s| <= k * l;
  }

  /** Every page after the reported page count is empty. */
  lemma PastLastPageEmpty(s: seq<Quote>, p: int, l: int)
    requires l >= 1 && p > PageCount(s, l)
    ensures PageOf(s, p, l) == []
  {
    var first := ListQuotes(s, Some(1), Some(l)).body;
    assert first.limit == l;
    var k := first.totalPages;
    assert |s| <= k * l;
    MulMonotone(k, p - 1, l);
    var page := ListQuotes(s, Some(p), Some(l)).body;
    assert page.page == p && page.limit == l;
    assert page.quotes == Window(s, p, l);
  }
}
