/** Paging in webui/fasttable.js: the current page, its slice, and the window of page numbers. */
module Pagers {
  import opened TableDiffs

  datatype Item = Previous(disabled: bool) | Number(page: int, active: bool) | Dots | Next(disabled: bool)

  /** `Array.slice` with a start that may be negative and bounds that may lie outside. */
  function Slice<T>(s: seq<T>, start: int, end: int): seq<T> {
    var from := Bound(|s|, start);
    var to := Bound(|s|, end);
    if from <= to then s[from..to] else []
  }

  function Bound(length: nat, index: int): (r: nat)
    ensures r <= length
  {
    if index < 0 then (if length + index < 0 then 0 else length + index)
    else if index < length then index else length
  }

  /** The least number of pages of `pageSize` records that hold `length` records. */
  function PageCount(length: nat, pageSize: nat): (r: nat)
    requires pageSize >= 1
    ensures (r - 1) * pageSize < length <= r * pageSize || r == length == 0
  {
    (length + pageSize - 1) / pageSize
  }

  /** The page of `1..pageCount` nearest to `page`; 0 when there is none. */
  function Nearest(page: int, pageCount: nat): (r: nat)
    ensures pageCount >= 1 ==> 1 <= r <= pageCount
    ensures 1 <= page <= pageCount ==> r == page
    ensures pageCount == 0 ==> r == 0
  {
    if pageCount < 1 then 0 else if page < 1 then 1 else if page > pageCount then pageCount else page
  }

  function Page<T>(s: seq<T>, pageSize: nat, page: int): seq<T> {
    Slice(s, (page - 1) * pageSize, (page - 1) * pageSize + pageSize)
  }

  /** Pages `1..last` one after another. */
  function Pages<T>(s: seq<T>, pageSize: nat, last: nat): seq<T> {
    if last == 0 then [] else Pages(s, pageSize, last - 1) + Page(s, pageSize, last)
  }

  lemma {:induction false} PagesArePrefix<T>(s: seq<T>, pageSize: nat, last: nat)
    ensures Pages(s, pageSize, last) == s[..Bound(|s|, last * pageSize)]
  {
    if last > 0 {
      PagesArePrefix(s, pageSize, last - 1);
      assert last * pageSize == (last - 1) * pageSize + pageSize;
      assert (last - 1) * pageSize >= 0;
    }
  }

  lemma PageLength<T>(s: seq<T>, pageSize: nat, p: nat)
    requires pageSize >= 1 && 1 <= p <= PageCount(|s|, pageSize)
    ensures p < PageCount(|s|, pageSize) ==> |Page(s, pageSize, p)| == pageSize
    ensures 1 <= |Page(s, pageSize, p)| <= pageSize
  {
    var count := PageCount(|s|, pageSize);
    var start := (p - 1) * pageSize;
    Monotone(p - 1, count - 1, pageSize);
    if p < count {
      Monotone(p, count - 1, pageSize);
      assert start + pageSize == p * pageSize;
    }
    assert Bound(|s|, start) == start;
  }

  lemma Monotone(a: nat, b: nat, factor: nat)
    requires a <= b
    ensures 0 <= a * factor <= b * factor
  {
  }

  /** Paging loses no record, repeats none and keeps the order; only the last page may be short. */
  lemma PagesMakeTheContent<T>(s: seq<T>, pageSize: nat)
    requires pageSize >= 1
    ensures Pages(s, pageSize, PageCount(|s|, pageSize)) == s
    ensures forall p :: 1 <= p < PageCount(|s|, pageSize) ==> |Page(s, pageSize, p)| == pageSize
    ensures s != [] ==> 1 <= |Page(s, pageSize, PageCount(|s|, pageSize))| <= pageSize
  {
    var count := PageCount(|s|, pageSize);
    PagesArePrefix(s, pageSize, count);
    assert Bound(|s|, count * pageSize) == |s|;
    forall p | 1 <= p <= count
      ensures 1 <= |Page(s, pageSize, p)| <= pageSize && (p < count ==> |Page(s, pageSize, p)| == pageSize)
    {
      PageLength(s, pageSize, p);
    }
  }

  /** The page numbers the pager shows side by side. */
  function Window(curPage: nat, pageCount: nat, maxPages: nat): (int, int)
    requires maxPages >= 1
  {
    var half := maxPages / 2;
    if pageCount < maxPages then (1, pageCount)
    else if curPage - 1 <= half then (1, maxPages)
    else if curPage - 1 >= pageCount - half then (pageCount - maxPages + 1, pageCount)
    else (curPage - 1 - half + 1, curPage - 1 - half + maxPages)
  }

  lemma WindowShowsTheCurrentPage(curPage: nat, pageCount: nat, maxPages: nat)
    requires maxPages >= 1 && curPage == Nearest(curPage, pageCount)
    ensures var (start, end) := Window(curPage, pageCount, maxPages);
      && 1 <= start <= end + 1 && end <= pageCount
      && end - start + 1 == (if pageCount < maxPages then pageCount else maxPages)
      && (pageCount >= 1 ==> start <= curPage <= end)
  {
    var half := maxPages / 2;
    assert 2 * half <= maxPages <= 2 * half + 1;
  }

  /** The window stands around the current page, as many pages before it as half a window holds, unless it would leave
      the pages at an end: then it stands at that end. */
  lemma WindowIsCentred(curPage: nat, pageCount: nat, maxPages: nat)
    requires 1 <= maxPages <= pageCount && 1 <= curPage <= pageCount
    ensures var ((start, end), wish) := (Window(curPage, pageCount, maxPages), curPage - maxPages / 2);
      if wish < 1 then start == 1 && end == maxPages
      else if wish + maxPages - 1 > pageCount then start == pageCount - maxPages + 1 && end == pageCount
      else start == wish && end == wish + maxPages - 1
  {
    var half := maxPages / 2;
    assert 2 * half <= maxPages <= 2 * half + 1;
  }

  /** The numbers `start..end`, the current one marked. */
  function Numbers(start: int, end: int, curPage: int): (r: seq<Item>)
    ensures |r| == if start <= end then end - start + 1 else 0
    decreases end - start
  {
    if end < start then [] else Numbers(start, end - 1, curPage) + [Number(end, end == curPage)]
  }

  /** What stands between "previous" and "next". */
  function Middle(start: int, end: int, curPage: int, pageCount: nat, dots: bool): seq<Item> {
    Head(start, dots) + Numbers(start, end, curPage) + Tail(end, pageCount, dots)
  }

  function Head(start: int, dots: bool): seq<Item> {
    if start > 2 && dots then [Number(1, false), Dots] else if start > 1 then [Number(1, false)] else []
  }

  function Tail(end: int, pageCount: nat, dots: bool): seq<Item> {
    if end == pageCount then []
    else if end < pageCount - 1 && dots then [Dots, Number(pageCount, false)]
    else [Number(pageCount, false)]
  }

  function Items(curPage: nat, pageCount: nat, maxPages: nat, dots: bool): seq<Item>
    requires maxPages >= 1
  {
    var (start, end) := Window(curPage, pageCount, maxPages);
    var middle := Middle(start, end, curPage, pageCount, dots);
    [Previous(curPage <= 1)] + middle + [Next(curPage == pageCount || pageCount == 0)]
  }

  /** The way back and the way on are closed exactly when taking them would lead to the same page again. */
  lemma DisabledIffNoOtherPage(curPage: nat, pageCount: nat, maxPages: nat, dots: bool)
    requires maxPages >= 1 && curPage == Nearest(curPage, pageCount)
    ensures var items := Items(curPage, pageCount, maxPages, dots);
      && |items| >= 2
      && items[0] == Previous(Nearest(curPage - 1, pageCount) == curPage)
      && items[|items| - 1] == Next(Nearest(curPage + 1, pageCount) == curPage)
  {
  }

  /** A reader of the numbers: the last page seen, whether dots followed it, and whether all was in order. */
  datatype Reading = Reading(at: int, skipping: bool, fine: bool)

  /** Without a gap the next number follows; dots stand for at least one page, and no gap goes without them. */
  function Read(r: Reading, item: Item, dots: bool): Reading {
    match item
    case Dots => Reading(r.at, true, r.fine && dots && !r.skipping)
    case Number(page, _) =>
      var inOrder := if r.skipping then page > r.at + 1 else if dots then page == r.at + 1 else page > r.at;
      Reading(page, false, r.fine && inOrder)
    case _ => Reading(r.at, r.skipping, false)
  }

  function ReadAll(r: Reading, items: seq<Item>, dots: bool): Reading
    decreases items
  {
    if items == [] then r else ReadAll(Read(r, items[0], dots), items[1..], dots)
  }

  lemma {:induction false} ReadAllConcat(r: Reading, a: seq<Item>, b: seq<Item>, dots: bool)
    ensures ReadAll(r, a + b, dots) == ReadAll(ReadAll(r, a, dots), b, dots)
    decreases a
  {
    if a == [] {
      assert a + b == b;
    } else {
      assert (a + b)[1..] == a[1..] + b;
      ReadAllConcat(Read(r, a[0], dots), a[1..], b, dots);
    }
  }

  lemma ReadTwo(r: Reading, a: Item, b: Item, dots: bool)
    ensures ReadAll(r, [a], dots) == Read(r, a, dots)
    ensures ReadAll(r, [a, b], dots) == Read(Read(r, a, dots), b, dots)
  {
    assert ReadAll(r, [a], dots) == ReadAll(Read(r, a, dots), [], dots);
    assert [a, b][1..] == [b];
    assert ReadAll(Read(r, a, dots), [b], dots) == ReadAll(Read(Read(r, a, dots), b, dots), [], dots);
  }

  lemma {:induction false} NumbersRead(r: Reading, start: int, end: int, curPage: int, dots: bool)
    requires r.fine && start <= end + 1
    requires if r.skipping then start > r.at + 1 && start <= end else if dots then start == r.at + 1 else start > r.at
    ensures ReadAll(r, Numbers(start, end, curPage), dots) == if start <= end then Reading(end, false, true) else r
    decreases end - start
  {
    if start < end {
      NumbersRead(r, start, end - 1, curPage, dots);
    }
    if start <= end {
      ReadAllConcat(r, Numbers(start, end - 1, curPage), [Number(end, end == curPage)], dots);
      assert start == end ==> Numbers(start, end - 1, curPage) == [];
    }
  }

  /** From the first page to the last nothing is shown twice or out of order, and dots stand exactly for gaps. */
  lemma PagerReadsInOrder(curPage: nat, pageCount: nat, maxPages: nat, dots: bool)
    requires maxPages >= 1 && curPage == Nearest(curPage, pageCount)
    ensures var (start, end) := Window(curPage, pageCount, maxPages);
      ReadAll(Reading(0, false, true), Middle(start, end, curPage, pageCount, dots), dots) ==
        Reading(pageCount, false, true)
  {
    WindowShowsTheCurrentPage(curPage, pageCount, maxPages);
    var (start, end) := Window(curPage, pageCount, maxPages);
    var begin := Reading(0, false, true);
    var head, numbers := Head(start, dots), Numbers(start, end, curPage);
    var afterHead := ReadAll(begin, head, dots);
    ReadTwo(begin, Number(1, false), Dots, dots);
    assert afterHead == if start > 1 then Reading(1, start > 2 && dots, true) else begin;
    ReadAllConcat(begin, head, numbers, dots);
    NumbersRead(afterHead, start, end, curPage, dots);
    var tail := Tail(end, pageCount, dots);
    ReadAllConcat(begin, head + numbers, tail, dots);
    ReadTwo(Reading(end, false, true), Dots, Number(pageCount, false), dots);
    ReadTwo(Reading(end, false, true), Number(pageCount, false), Dots, dots);
  }

  /** The marked number is the current page and no other. */
  lemma {:induction false} OnlyTheCurrentPageIsActive(start: int, end: int, curPage: int, i: nat)
    requires i < |Numbers(start, end, curPage)|
    ensures Numbers(start, end, curPage)[i] == Number(start + i, start + i == curPage)
    decreases end - start
  {
    if i < end - start {
      OnlyTheCurrentPageIsActive(start, end - 1, curPage, i);
    }
  }

  /** The loop of buildPagerHtml over the window. */
  method AppendNumbers(head: seq<Item>, iStart: int, iEnd: int, curPage: int) returns (pager: seq<Item>)
    requires iStart <= iEnd + 1
    ensures pager == head + Numbers(iStart, iEnd, curPage)
  {
    pager := head;
    var j := iStart;
    while j <= iEnd
      invariant iStart <= j <= iEnd + 1
      invariant pager == head + Numbers(iStart, j - 1, curPage)
    {
      assert head + Numbers(iStart, j - 1, curPage) + [Number(j, j == curPage)] == head + Numbers(iStart, j, curPage);
      pager := pager + [Number(j, j == curPage)];
      j := j + 1;
    }
  }

  /** The items of buildPagerHtml. */
  method BuildPager(curPage: nat, pageCount: nat, maxPages: nat, pageDots: bool) returns (pager: seq<Item>)
    requires maxPages >= 1 && curPage == Nearest(curPage, pageCount)
    ensures pager == Items(curPage, pageCount, maxPages, pageDots)
  {
    WindowShowsTheCurrentPage(curPage, pageCount, maxPages);
    var (iStart, iEnd) := Window(curPage, pageCount, maxPages);
    pager := [Previous(curPage == 1 || curPage == 0)];
    if iStart > 1 {
      pager := pager + [Number(1, false)];
      if iStart > 2 && pageDots {
        pager := pager + [Dots];
      }
    }
    ghost var head := [Previous(curPage <= 1)] + Head(iStart, pageDots);
    assert pager == head;
    pager := AppendNumbers(pager, iStart, iEnd, curPage);
    ghost var numbers := Numbers(iStart, iEnd, curPage);
    if iEnd != pageCount {
      if iEnd < pageCount - 1 && pageDots {
        pager := pager + [Dots];
      }
      pager := pager + [Number(pageCount, false)];
    }
    ghost var tail := Tail(iEnd, pageCount, pageDots);
    assert pager == head + numbers + tail;
    pager := pager + [Next(curPage == pageCount || pageCount == 0)];
    Regroup([Previous(curPage <= 1)], Head(iStart, pageDots), numbers, tail);
  }

  lemma Regroup<T>(a: seq<T>, b: seq<T>, c: seq<T>, d: seq<T>)
    ensures a + b + c + d == a + (b + c + d)
  {
  }

  class TableData<T> {
    const pageSize: nat
    const maxPages: nat
    const pageDots: bool
    var filteredContent: seq<T>
    var curPage: int
    var pageCount: nat
    var pageContent: seq<T>
    const pager: PagerList

    constructor (pageSize: nat, maxPages: nat, pageDots: bool, filteredContent: seq<T>, curPage: int, pager: PagerList)
      ensures this.pageSize == pageSize && this.maxPages == maxPages && this.pageDots == pageDots && this.pager == pager
      ensures this.filteredContent == filteredContent && this.curPage == curPage
    {
      this.pageSize, this.maxPages, this.pageDots, this.pager := pageSize, maxPages, pageDots, pager;
      this.filteredContent, this.curPage, this.pageCount, this.pageContent := filteredContent, curPage, 0, [];
    }

    /** `updatePager`; the new nodes get identities of their own. */
    method UpdatePager(html: Item -> string, identities: nat -> int)
      requires pageSize >= 1 && maxPages >= 1
      modifies this, pager
      ensures filteredContent == old(filteredContent)
      ensures pageCount == PageCount(|filteredContent|, pageSize) && curPage == Nearest(old(curPage), pageCount)
      ensures pageContent == if curPage == 0 then [] else Page(filteredContent, pageSize, curPage)
      ensures 0 <= curPage
      ensures var built := Items(curPage, pageCount, maxPages, pageDots);
        pager.items == Repaged(old(pager.items), Nodes(built, html, identities))
    {
      pageCount := (|filteredContent| + pageSize - 1) / pageSize;
      if curPage < 1 {
        curPage := 1;
      }
      if curPage > pageCount {
        curPage := pageCount;
      }
      var startIndex := (curPage - 1) * pageSize;
      pageContent := Slice(filteredContent, startIndex, startIndex + pageSize);
      var built := BuildPager(curPage, pageCount, maxPages, pageDots);
      var newPager := new PagerList(Nodes(built, html, identities));
      pager.UpdateContent(newPager);
    }
  }

  function Nodes(items: seq<Item>, html: Item -> string, identities: nat -> int): (r: seq<Node>)
    ensures |r| == |items|
    ensures forall k :: 0 <= k < |items| ==> r[k].html == html(items[k])
  {
    seq(|items|, k requires 0 <= k < |items| => Node(identities(k), html(items[k])))
  }
}
