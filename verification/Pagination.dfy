// The pagination script: which page numbers are shown around the current page,
// and which slice of the data belongs to a page.
module Pagination {

  datatype Item = Page(number: int, active: bool) | Ellipsis

  function Min(a: int, b: int): int { if a < b then a else b }

  function Max(a: int, b: int): int { if a < b then b else a }

  // getTotalPage: the quotient rounded up.
  function TotalPages(totalNumber: nat, pageSize: nat): (n: nat)
    requires pageSize > 0
    ensures n * pageSize >= totalNumber
    ensures n > 0 ==> (n - 1) * pageSize < totalNumber
  {
    (totalNumber + pageSize - 1) / pageSize
  }

  // The window of render: pageRange pages on each side, pushed back inside
  // [1..total], and of full size whenever there are enough pages.
  method Window(currentPage: int, pageRange: nat, totalPage: nat) returns (rangeStart: int, rangeEnd: int)
    ensures 1 <= rangeStart && rangeEnd <= totalPage
    ensures 1 <= currentPage <= totalPage ==> rangeStart <= currentPage <= rangeEnd
    ensures rangeEnd - rangeStart + 1 == Min(2 * pageRange + 1, totalPage)
    ensures rangeStart == Max(1, Min(currentPage - pageRange, totalPage - 2 * pageRange))
  {
    rangeStart, rangeEnd := currentPage - pageRange, currentPage + pageRange;
    if rangeEnd > totalPage {
      rangeEnd := totalPage;
      rangeStart := totalPage - pageRange * 2;
      rangeStart := if rangeStart < 1 then 1 else rangeStart;
    }
    if rangeStart <= 1 {
      rangeStart := 1;
      rangeEnd := Min(pageRange * 2 + 1, totalPage);
    }
  }

  // The page numbers from..to, the current one marked.
  function Pages(from: int, to: int, currentPage: int): (items: seq<Item>)
    ensures |items| == Max(0, to - from + 1)
    ensures forall i | 0 <= i < |items| :: items[i] == Page(from + i, from + i == currentPage)
    decreases Max(0, to - from + 1)
  {
    if from > to then [] else [Page(from, from == currentPage)] + Pages(from + 1, to, currentPage)
  }

  lemma {:induction false} PagesAppend(from: int, to: int, currentPage: int)
    requires from <= to + 1
    ensures Pages(from, to + 1, currentPage) == Pages(from, to, currentPage) + [Page(to + 1, to + 1 == currentPage)]
  {
    assert |Pages(from, to + 1, currentPage)| == |Pages(from, to, currentPage)| + 1;
  }

  method AppendPages(html: seq<Item>, from: int, to: int, currentPage: int) returns (r: seq<Item>)
    ensures r == html + Pages(from, to, currentPage)
  {
    r := html;
    var i := from;
    while i <= to
      invariant from <= i <= Max(from, to + 1)
      invariant r == html + Pages(from, i - 1, currentPage)
    {
      PagesAppend(from, i - 1, currentPage);
      r := r + [Page(i, i == currentPage)];
      i := i + 1;
    }
  }

  datatype Options = Options(showRange: bool, showFirst: bool, showLast: bool)

  // generatePageNumbersHTML, reduced to the items it emits. Without a page range
  // all pages are shown.
  method PageNumbers(
    currentPage: int, totalPage: nat, rangeStart: int, rangeEnd: int, options: Options) returns (html: seq<Item>)
    ensures html == Numbers(rangeStart, rangeEnd, totalPage, currentPage, options)
  {
    html := [];
    if options.showRange {
      html := AppendLeft(html, rangeStart, currentPage, options.showFirst);
      assert html == Left(rangeStart, currentPage, options.showFirst);
      html := AppendPages(html, rangeStart, rangeEnd, currentPage);
      html := AppendRight(html, rangeEnd, totalPage, options.showLast);
    } else {
      html := AppendPages(html, 1, totalPage, currentPage);
      assert html == Pages(1, totalPage, currentPage);
    }
  }

  function Numbers(rangeStart: int, rangeEnd: int, totalPage: int, currentPage: int, options: Options): seq<Item> {
    if options.showRange then
      Left(rangeStart, currentPage, options.showFirst)
      + Pages(rangeStart, rangeEnd, currentPage)
      + Right(rangeEnd, totalPage, options.showLast)
    else
      Pages(1, totalPage, currentPage)
  }

  method AppendLeft(html: seq<Item>, rangeStart: int, currentPage: int, showFirst: bool) returns (r: seq<Item>)
    ensures r == html + Left(rangeStart, currentPage, showFirst)
  {
    r := html;
    if rangeStart <= 3 {
      r := AppendPages(r, 1, rangeStart - 1, currentPage);
    } else {
      if showFirst { r := r + [Page(1, false)]; }
      r := r + [Ellipsis];
    }
  }

  // The pages after the window are not compared with the current one.
  method AppendRight(html: seq<Item>, rangeEnd: int, totalPage: int, showLast: bool) returns (r: seq<Item>)
    ensures r == html + Right(rangeEnd, totalPage, showLast)
  {
    r := html;
    if rangeEnd >= totalPage - 2 {
      var i := rangeEnd + 1;
      while i <= totalPage
        invariant rangeEnd < i <= Max(rangeEnd + 1, totalPage + 1)
        invariant r == html + Pages(rangeEnd + 1, i - 1, rangeEnd)
      {
        PagesAppend(rangeEnd + 1, i - 1, rangeEnd);
        r := r + [Page(i, false)];
        i := i + 1;
      }
    } else {
      r := r + [Ellipsis];
      if showLast { r := r + [Page(totalPage, false)]; }
    }
  }

  function Left(rangeStart: int, currentPage: int, showFirst: bool): seq<Item> {
    if rangeStart <= 3 then Pages(1, rangeStart - 1, currentPage)
    else (if showFirst then [Page(1, false)] else []) + [Ellipsis]
  }

  function Right(rangeEnd: int, totalPage: int, showLast: bool): seq<Item> {
    if rangeEnd >= totalPage - 2 then Pages(rangeEnd + 1, totalPage, rangeEnd)
    else [Ellipsis] + if showLast then [Page(totalPage, false)] else []
  }

  // What may stand at i: next to a page its successor, and on both sides of an
  // ellipsis pages with at least two numbers between them.
  ghost predicate Fits(html: seq<Item>, i: int)
    requires 0 <= i < |html|
  {
    match html[i]
    case Page(number, _) => i + 1 < |html| && html[i + 1].Page? ==> html[i + 1].number == number + 1
    case Ellipsis => 0 < i < |html| - 1 && html[i - 1].Page? && html[i + 1].Page?
                     && html[i + 1].number - html[i - 1].number >= 3
  }

  // Numbers run from one page to another without gaps, except that an ellipsis
  // stands for at least two pages.
  ghost predicate Spans(html: seq<Item>, from: int, to: int) {
    && html != [] && html[0].Page? && html[0].number == from
    && html[|html| - 1].Page? && html[|html| - 1].number == to
    && (forall i {:trigger Fits(html, i)} | 0 <= i < |html| :: Fits(html, i))
  }

  // Only the current page is marked.
  ghost predicate Marks(html: seq<Item>, currentPage: int) {
    forall i | 0 <= i < |html| && html[i].Page? :: html[i].active <==> html[i].number == currentPage
  }

  ghost predicate CoversPages(html: seq<Item>, totalPage: int, currentPage: int) {
    Spans(html, 1, totalPage) && Marks(html, currentPage) && Page(currentPage, true) in html
  }

  lemma SpansOn(a: seq<Item>, b: seq<Item>, from: int, middle: int, to: int)
    requires Spans(a, from, middle) && Spans(b, middle + 1, to)
    ensures Spans(a + b, from, to)
  {
    forall i {:trigger Fits(a + b, i)} | 0 <= i < |a + b| ensures Fits(a + b, i) {
      if i < |a| { assert Fits(a, i); } else { assert Fits(b, i - |a|); }
    }
  }

  lemma SpansGap(a: seq<Item>, b: seq<Item>, from: int, left: int, right: int, to: int)
    requires Spans(a, from, left) && Spans(b, right, to) && right - left >= 3
    ensures Spans(a + [Ellipsis] + b, from, to)
  {
    var html := a + [Ellipsis] + b;
    forall i {:trigger Fits(html, i)} | 0 <= i < |html| ensures Fits(html, i) {
      if i < |a| { assert Fits(a, i); } else if i > |a| { assert Fits(b, i - |a| - 1); }
    }
  }

  lemma LeftSpans(middle: seq<Item>, rangeStart: int, to: int, currentPage: int)
    requires rangeStart >= 1 && Spans(middle, rangeStart, to)
    ensures Spans(Left(rangeStart, currentPage, true) + middle, 1, to)
  {
    if rangeStart == 1 {
      assert Left(rangeStart, currentPage, true) + middle == middle;
    } else if rangeStart <= 3 {
      SpansOn(Pages(1, rangeStart - 1, currentPage), middle, 1, rangeStart - 1, to);
    } else {
      SpansGap([Page(1, false)], middle, 1, 1, rangeStart, to);
    }
  }

  lemma RightSpans(middle: seq<Item>, from: int, rangeEnd: int, totalPage: int)
    requires rangeEnd <= totalPage && Spans(middle, from, rangeEnd)
    ensures Spans(middle + Right(rangeEnd, totalPage, true), from, totalPage)
  {
    if rangeEnd == totalPage {
      assert middle + Right(rangeEnd, totalPage, true) == middle;
    } else if rangeEnd >= totalPage - 2 {
      SpansOn(middle, Pages(rangeEnd + 1, totalPage, rangeEnd), from, rangeEnd, totalPage);
    } else {
      SpansGap(middle, [Page(totalPage, false)], from, rangeEnd, totalPage, totalPage);
      assert middle + [Ellipsis] + [Page(totalPage, false)] == middle + Right(rangeEnd, totalPage, true);
    }
  }

  lemma WindowCovers(currentPage: int, totalPage: int, rangeStart: int, rangeEnd: int, options: Options)
    requires 1 <= rangeStart <= currentPage <= rangeEnd <= totalPage
    requires options.showRange ==> options.showFirst && options.showLast
    ensures CoversPages(Numbers(rangeStart, rangeEnd, totalPage, currentPage, options), totalPage, currentPage)
  {
    if !options.showRange {
      AllPagesCovered(currentPage, totalPage);
      return;
    }
    var left, middle, right := Left(rangeStart, currentPage, true), Pages(rangeStart, rangeEnd, currentPage),
                               Right(rangeEnd, totalPage, true);
    LeftSpans(middle, rangeStart, rangeEnd, currentPage);
    RightSpans(left + middle, 1, rangeEnd, totalPage);
    assert middle[currentPage - rangeStart] == Page(currentPage, true);
    assert Marks(left, currentPage) && Marks(middle, currentPage) && Marks(right, currentPage);
    MarksOn(left, middle, currentPage);
    MarksOn(left + middle, right, currentPage);
  }

  // Which numbers are shown: all of them without a page range; else those of the window,
  // up to two before it and up to two after it, and where more are left out the first and
  // the last page, if they are asked for, beside an ellipsis.
  lemma NumbersShown(currentPage: int, totalPage: int, rangeStart: int, rangeEnd: int, options: Options, k: int)
    requires 1 <= rangeStart <= rangeEnd + 1 <= totalPage + 1
    ensures var html := Numbers(rangeStart, rangeEnd, totalPage, currentPage, options);
            && (Page(k, true) in html || Page(k, false) in html <==>
                  && 1 <= k <= totalPage
                  && (options.showRange ==>
                        || rangeStart <= k <= rangeEnd
                        || (k < rangeStart && (rangeStart <= 3 || (k == 1 && options.showFirst)))
                        || (rangeEnd < k && (totalPage - rangeEnd <= 2 || (k == totalPage && options.showLast)))))
            && (Ellipsis in html <==> options.showRange && (rangeStart > 3 || totalPage - rangeEnd > 2))
  {
    PagesShown(1, totalPage, currentPage, k);
    PagesShown(1, rangeStart - 1, currentPage, k);
    PagesShown(rangeStart, rangeEnd, currentPage, k);
    PagesShown(rangeEnd + 1, totalPage, rangeEnd, k);
  }

  lemma PagesShown(from: int, to: int, currentPage: int, k: int)
    ensures Page(k, true) in Pages(from, to, currentPage) || Page(k, false) in Pages(from, to, currentPage)
       <==> from <= k <= to
    ensures Ellipsis !in Pages(from, to, currentPage)
  {
    if from <= k <= to {
      assert Pages(from, to, currentPage)[k - from] == Page(k, k == currentPage);
    }
  }

  // render: the items for the window around the current page, which with the first and
  // the last page shown beside an ellipsis cover all pages. A missing page range counts as
  // zero and shows all pages.
  method Render(currentPage: int, pageRange: nat, totalPage: nat, options: Options) returns (html: seq<Item>)
    ensures var start := Max(1, Min(currentPage - pageRange, totalPage - 2 * pageRange));
            html == Numbers(start, start + Min(2 * pageRange + 1, totalPage) - 1, totalPage, currentPage, options)
    ensures 1 <= currentPage <= totalPage && (options.showRange ==> options.showFirst && options.showLast) ==>
              CoversPages(html, totalPage, currentPage)
  {
    var rangeStart, rangeEnd := Window(currentPage, pageRange, totalPage);
    html := PageNumbers(currentPage, totalPage, rangeStart, rangeEnd, options);
    CoveredAround(html, currentPage, totalPage, rangeStart, rangeEnd, options);
  }

  lemma CoveredAround(html: seq<Item>, currentPage: int, totalPage: int, rangeStart: int, rangeEnd: int,
                      options: Options)
    requires html == Numbers(rangeStart, rangeEnd, totalPage, currentPage, options)
    requires 1 <= rangeStart && rangeEnd <= totalPage
    requires 1 <= currentPage <= totalPage ==> rangeStart <= currentPage <= rangeEnd
    ensures 1 <= currentPage <= totalPage && (options.showRange ==> options.showFirst && options.showLast) ==>
              CoversPages(html, totalPage, currentPage)
  {
    if 1 <= currentPage <= totalPage && (options.showRange ==> options.showFirst && options.showLast) {
      WindowCovers(currentPage, totalPage, rangeStart, rangeEnd, options);
    }
  }

  lemma MarksOn(a: seq<Item>, b: seq<Item>, currentPage: int)
    requires Marks(a, currentPage) && Marks(b, currentPage)
    ensures Marks(a + b, currentPage)
  {
  }

  lemma AllPagesCovered(currentPage: int, totalPage: int)
    requires 1 <= currentPage <= totalPage
    ensures CoversPages(Pages(1, totalPage, currentPage), totalPage, currentPage)
  {
    assert Pages(1, totalPage, currentPage)[currentPage - 1] == Page(currentPage, true);
  }

  // ---- data ----

  // JavaScript's slice, for indices that are not negative.
  function Slice<T>(data: seq<T>, start: nat, end: nat): seq<T> {
    var to := if end <= |data| then end else |data|;
    if start <= to then data[start..to] else []
  }

  function DataFragment<T>(data: seq<T>, pageSize: nat, totalNumber: nat, number: nat): seq<T>
    requires number >= 1
  {
    Slice(data, pageSize * (number - 1), if number * pageSize < totalNumber then number * pageSize else totalNumber)
  }

  // Entry i of a full page is as far into the data as the pages before it are long.
  lemma PageHolds<T>(data: seq<T>, pageSize: nat, totalNumber: nat, number: nat)
    requires number >= 1 && totalNumber <= |data|
    ensures number * pageSize <= totalNumber ==> |DataFragment(data, pageSize, totalNumber, number)| == pageSize
    ensures forall i | 0 <= i < |DataFragment(data, pageSize, totalNumber, number)| ::
              pageSize * (number - 1) + i < totalNumber
              && DataFragment(data, pageSize, totalNumber, number)[i] == data[pageSize * (number - 1) + i]
  {
    assert pageSize * (number - 1) + pageSize == number * pageSize;
  }

  function Fragments<T>(data: seq<T>, pageSize: nat, totalNumber: nat, pages: nat): seq<T> {
    if pages == 0 then []
    else Fragments(data, pageSize, totalNumber, pages - 1) + DataFragment(data, pageSize, totalNumber, pages)
  }

  lemma {:induction false} FragmentsAre<T>(data: seq<T>, pageSize: nat, totalNumber: nat, pages: nat)
    ensures Fragments(data, pageSize, totalNumber, pages)
         == Slice(data, 0, if pages * pageSize < totalNumber then pages * pageSize else totalNumber)
  {
    if pages == 0 {
    } else {
      FragmentsAre(data, pageSize, totalNumber, pages - 1);
      assert pageSize * (pages - 1) == (pages - 1) * pageSize && (pages - 1) * pageSize + pageSize == pages * pageSize;
      SlicesMeet(data, (pages - 1) * pageSize, pages * pageSize, totalNumber);
    }
  }

  lemma SlicesMeet<T>(data: seq<T>, middle: nat, end: nat, total: nat)
    requires middle <= end
    ensures Slice(data, 0, if middle < total then middle else total)
      + Slice(data, middle, if end < total then end else total)
         == Slice(data, 0, if end < total then end else total)
  {
  }

  // The pages together are the data exactly when the announced total, which the
  // script takes from its options, is not short of it.
  lemma FragmentsAreData<T>(data: seq<T>, pageSize: nat, totalNumber: nat)
    requires pageSize > 0
    ensures Fragments(data, pageSize, totalNumber, TotalPages(totalNumber, pageSize)) == data <==> totalNumber >= |data|
  {
    var pages := TotalPages(totalNumber, pageSize);
    FragmentsAre(data, pageSize, totalNumber, pages);
    assert data[..|data|] == data;
  }
}
