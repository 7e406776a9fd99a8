/**
  The Bootstrap pager (`BootstrapPageButton`): from the paging state of a
  collection and the pager options it decides whether to render at all,
  counts the pages, turns the display mode into five visibility flags,
  places the window of numbered pages, and appends the entries first,
  previous, the numbers, next and last to a `ul` in that order.

  The specification is split in two: `Links` is the list of entries the
  pager generates (which pages, which texts, which are disabled or current),
  and RenderLinks (in MvcExtensions) turns such a list into `li` items.
*/
module BootstrapPager {
  import opened Wrappers
  import opened Strings
  import opened Enums
  import opened Markup
  import opened PagedOptions
  import opened MvcExtensions

  /**
    The paging state of the collection: the number of items, the items per
    page, the current page, and the page count as ComputePages leaves it
    (ComputePages is not part of this model, so its result is an input).
  */
  datatype PagedEntity = PagedEntity(count: int, itemsPerPage: int, currentPage: int, totalPages: int)

  function Abs(x: int): int {
    if x < 0 then -x else x
  }

  /** C#'s `%`: the remainder has the sign of the dividend, and `a - r` is a multiple of `b`. */
  function TruncatedRemainder(a: int, b: int): (r: int)
    requires b != 0
    ensures a >= 0 ==> 0 <= r < Abs(b)
    ensures a < 0 ==> -Abs(b) < r <= 0
    ensures (a - r) % b == 0
  {
    RemainderComplement(a, b);
    if a >= 0 then a % b else -((-a) % b)
  }

  /** A multiple of `b` leaves no remainder. */
  lemma MultipleRemainder(b: int, q: int)
    requires b != 0
    ensures (b * q) % b == 0
  {
    var x := b * q;
    var k := q - x / b;
    assert x == b * (x / b) + x % b;
    assert x % b == b * k;
    assert k == 0;
  }

  /** Taking away the truncated remainder leaves a multiple of the divisor. */
  lemma RemainderComplement(a: int, b: int)
    requires b != 0
    ensures a >= 0 ==> (a - a % b) % b == 0
    ensures a < 0 ==> (a + (-a) % b) % b == 0
  {
    if a >= 0 {
      var q := a / b;
      assert a - a % b == b * q;
      MultipleRemainder(b, q);
    } else {
      var q := (-a) / b;
      assert -a == b * q + (-a) % b;
      assert a + (-a) % b == b * -q;
      MultipleRemainder(b, -q);
    }
  }

  /** C#'s `n / 2` on integers: the quotient is rounded toward zero. */
  function HalfTowardZero(n: int): (h: int)
    ensures n >= 0 ==> 0 <= n - 2 * h <= 1
    ensures n < 0 ==> -1 <= n - 2 * h <= 0
  {
    if n >= 0 then n / 2 else -((-n) / 2)
  }

  /**
    The page count the pager works with: one more than ComputePages's
    exactly when the item count is positive and not a multiple of the page
    size.
  */
  function PageCount(e: PagedEntity): (n: int)
    requires e.itemsPerPage != 0
    ensures n == if e.count > 0 && e.count % e.itemsPerPage != 0 then e.totalPages + 1 else e.totalPages
  {
    RemainderPositive(e.count, e.itemsPerPage);
    if TruncatedRemainder(e.count, e.itemsPerPage) > 0 then e.totalPages + 1 else e.totalPages
  }

  /** The truncated remainder is positive exactly when a positive dividend is not a multiple of the divisor. */
  lemma RemainderPositive(a: int, b: int)
    requires b != 0
    ensures TruncatedRemainder(a, b) > 0 <==> a > 0 && a % b != 0
  {
    var r := TruncatedRemainder(a, b);
    if a > 0 {
      assert r == a % b && r >= 0;
    } else if a == 0 {
      MultipleRemainder(b, 0);
      assert r == (b * 0) % b;
    } else {
      assert r <= 0;
    }
  }

  /**
    When ComputePages divides with truncation, the page count is the
    ceiling of items over items per page: the pages hold all items, and one
    page fewer would not.
  */
  lemma PageCountIsCeiling(e: PagedEntity)
    requires e.count >= 0 && e.itemsPerPage > 0 && e.totalPages == e.count / e.itemsPerPage
    ensures (PageCount(e) - 1) * e.itemsPerPage < e.count <= PageCount(e) * e.itemsPerPage
  {
    var q, r := e.count / e.itemsPerPage, e.count % e.itemsPerPage;
    assert e.count == q * e.itemsPerPage + r;
    if r > 0 {
      assert PageCount(e) * e.itemsPerPage == q * e.itemsPerPage + e.itemsPerPage;
    }
  }

  /**
    The pager renders nothing for an empty collection, a zero page size, or
    (unless always shown) a single page. When ComputePages truncates, a
    collection is hidden exactly when it fits on one page and the pager is
    not always shown.
  */
  predicate Suppressed(e: PagedEntity, o: BootstrapPagedButtonOptions): (b: bool)
    ensures e.count == 0 || e.itemsPerPage == 0 ==> b
    ensures e.count > 0 && e.itemsPerPage > 0 && e.totalPages == e.count / e.itemsPerPage ==>
      (b <==> !o.alwaysShow && e.count <= e.itemsPerPage)
  {
    OnePageExactlyWhenFits(e);
    e.count == 0 || e.itemsPerPage == 0 || (!o.alwaysShow && PageCount(e) <= 1)
  }

  /** When ComputePages truncates, there is at most one page exactly when the items fit on one page. */
  lemma OnePageExactlyWhenFits(e: PagedEntity)
    ensures e.count > 0 && e.itemsPerPage > 0 && e.totalPages == e.count / e.itemsPerPage ==>
      (PageCount(e) <= 1 <==> e.count <= e.itemsPerPage)
  {
    if e.count > 0 && e.itemsPerPage > 0 && e.totalPages == e.count / e.itemsPerPage {
      PageCountIsCeiling(e);
      var n, size := PageCount(e), e.itemsPerPage;
      if n >= 2 {
        assert (n - 1) * size >= size;
      } else {
        assert n * size <= size;
      }
    }
  }

  /** Which groups of entries the pager shows. */
  datatype VisibilityFlags = VisibilityFlags(numbers: bool, first: bool, last: bool, previous: bool, next: bool)

  /** The groups each display mode shows, one row per mode. */
  function Flags(mode: PageButtonMode): (f: VisibilityFlags)
    ensures f.first == f.last
    ensures f.previous == f.next
    ensures f.numbers <==> mode in {FirstLastNumberic, PreviousNextFirstLastNumberic, PreviousNextNumberic, OnlyNumberic}
    ensures f.first <==> mode in {FirstLastNumberic, PreviousNextFirstLast, PreviousNextFirstLastNumberic}
    ensures f.previous <==> mode in {PreviousNext, PreviousNextFirstLast, PreviousNextFirstLastNumberic, PreviousNextNumberic}
    ensures f.numbers || f.first || f.previous
  {
    match mode
    case PreviousNext => VisibilityFlags(false, false, false, true, true)
    case PreviousNextNumberic => VisibilityFlags(true, false, false, true, true)
    case PreviousNextFirstLast => VisibilityFlags(false, true, true, true, true)
    case FirstLastNumberic => VisibilityFlags(true, true, true, false, false)
    case PreviousNextFirstLastNumberic => VisibilityFlags(true, true, true, true, true)
    case OnlyNumberic => VisibilityFlags(true, false, false, false, false)
  }

  /** A range of page numbers, both ends included (empty when `end < start`). */
  datatype PageRange = PageRange(start: int, end: int)

  /**
    The window of numbered pages for current page `pageIndex`, `totalPages`
    pages and window width `n`: all pages when they fit; otherwise exactly
    `n` existing pages, with `n / 2` of them before the current one when
    there is room, and moved to the first or the last page when the window
    would run past either end. A width of zero or less shows no page, and an
    existing current page is always inside a window of positive width.
  */
  function Window(pageIndex: int, totalPages: int, n: int): (w: PageRange)
    ensures totalPages <= n ==> w == PageRange(1, totalPages)
    ensures totalPages > n >= 1 ==> 1 <= w.start <= w.end <= totalPages && w.end - w.start + 1 == n
    ensures totalPages > n >= 1 && pageIndex <= HalfTowardZero(n) ==> w.start == 1
    ensures totalPages > n >= 1 && pageIndex > HalfTowardZero(n) && pageIndex + HalfTowardZero(n) < totalPages ==>
      pageIndex - w.start == HalfTowardZero(n)
    ensures totalPages > n >= 1 && pageIndex > HalfTowardZero(n) && pageIndex + HalfTowardZero(n) >= totalPages ==>
      w.end == totalPages
    ensures n <= 0 ==> w.end < w.start
    ensures 1 <= pageIndex <= totalPages && n >= 1 ==> w.start <= pageIndex <= w.end
  {
    var h := HalfTowardZero(n);
    if totalPages > n then
      if pageIndex - h > 0 then
        if pageIndex + h < totalPages then PageRange(pageIndex - h, pageIndex - h + n - 1)
        else PageRange(totalPages - n + 1, totalPages)
      else PageRange(1, n)
    else PageRange(1, totalPages)
  }

  /** The entry for page `i` in the numbered group: disabled and marked current exactly on the current page. */
  function NumberLink(i: int, currentPage: int): (r: PageLink)
    ensures r.page == i && r.text == IntToString(i)
    ensures r.current <==> i == currentPage
    ensures r.disabled == r.current
  {
    PageLink(i == currentPage, i, IntToString(i), i == currentPage)
  }

  /** The entries of the numbered group for pages `lo` to `hi`, ascending. */
  function NumberLinks(lo: int, hi: int, currentPage: int): (r: seq<PageLink>)
    ensures |r| == if lo <= hi then hi - lo + 1 else 0
    ensures forall k :: 0 <= k < |r| ==> r[k] == NumberLink(lo + k, currentPage)
    decreases hi - lo
  {
    if hi < lo then [] else NumberLinks(lo, hi - 1, currentPage) + [NumberLink(hi, currentPage)]
  }

  /** The options in effect: a missing options object is replaced by a default one. */
  function EffectiveOptions(options: Option<BootstrapPagedButtonOptions>): (o: BootstrapPagedButtonOptions)
    ensures options.Some? ==> o == options.value
    ensures options.None? ==> o.numbericCount == 10 && o.alwaysShow && o.buttonMode == PreviousNextNumberic && o.size == Normal
    ensures options.None? ==> o.htmlAttributes == map[] && o.routeName.None? && o.controllerName.None? && o.actionName.None?
  {
    if options.None? then DefaultPagedOptions() else options.value
  }

  /** The first-page entry, when the mode shows it: page 1, never current, disabled exactly when on page 1 or before. */
  function FirstSection(e: PagedEntity, o: BootstrapPagedButtonOptions): (r: seq<PageLink>)
    ensures |r| == if Flags(o.buttonMode).first then 1 else 0
    ensures forall l :: l in r ==> l.page == 1 && !l.current && l.text == o.textOfFirst && (l.disabled <==> e.currentPage <= 1)
  {
    if Flags(o.buttonMode).first then [PageLink(e.currentPage <= 1, 1, o.textOfFirst, false)] else []
  }

  /** The previous-page entry, when the mode shows it: disabled exactly when the page before does not exist. */
  function PreviousSection(e: PagedEntity, o: BootstrapPagedButtonOptions): (r: seq<PageLink>)
    ensures |r| == if Flags(o.buttonMode).previous then 1 else 0
    ensures forall l :: l in r ==> l.page == e.currentPage - 1 && !l.current && l.text == o.textOfPrevious && (l.disabled <==> l.page < 1)
  {
    if Flags(o.buttonMode).previous then [PageLink(e.currentPage - 1 < 1, e.currentPage - 1, o.textOfPrevious, false)] else []
  }

  /**
    The numbered entries, when the mode shows them: consecutive existing
    pages in ascending order, each labelled with its number, and inert and
    current exactly on the current page.
  */
  function NumberSection(e: PagedEntity, o: BootstrapPagedButtonOptions, totalPages: int): (r: seq<PageLink>)
    ensures !Flags(o.buttonMode).numbers ==> r == []
    ensures forall k :: 0 <= k < |r| ==> 1 <= r[k].page <= totalPages && r[k].text == IntToString(r[k].page)
    ensures forall k :: 0 <= k < |r| ==> r[k].disabled == r[k].current && (r[k].current <==> r[k].page == e.currentPage)
    ensures forall k :: 0 < k < |r| ==> r[k].page == r[k - 1].page + 1
  {
    var w := Window(e.currentPage, totalPages, o.numbericCount);
    assert w.end < w.start || (1 <= w.start && w.end <= totalPages);
    if Flags(o.buttonMode).numbers then NumberLinks(w.start, w.end, e.currentPage) else []
  }

  /** The next-page entry, when the mode shows it: disabled exactly when the page after does not exist. */
  function NextSection(e: PagedEntity, o: BootstrapPagedButtonOptions, totalPages: int): (r: seq<PageLink>)
    ensures |r| == if Flags(o.buttonMode).next then 1 else 0
    ensures forall l :: l in r ==> l.page == e.currentPage + 1 && !l.current && l.text == o.textOfNext && (l.disabled <==> l.page > totalPages)
  {
    if Flags(o.buttonMode).next then [PageLink(e.currentPage + 1 > totalPages, e.currentPage + 1, o.textOfNext, false)] else []
  }

  /** The last-page entry, when the mode shows it: the last page, never current, disabled exactly when on the last page or after. */
  function LastSection(e: PagedEntity, o: BootstrapPagedButtonOptions, totalPages: int): (r: seq<PageLink>)
    ensures |r| == if Flags(o.buttonMode).last then 1 else 0
    ensures forall l :: l in r ==> l.page == totalPages && !l.current && l.text == o.textOfLast && (l.disabled <==> e.currentPage >= totalPages)
  {
    if Flags(o.buttonMode).last then [PageLink(e.currentPage >= totalPages, totalPages, o.textOfLast, false)] else []
  }

  /**
    The entries the pager generates, in order: first, previous, the
    numbered window, next, last. With first and last shown the list starts
    at page 1 and ends at the last page; an entry marked current is the
    current page and is inert.
  */
  function Links(e: PagedEntity, o: BootstrapPagedButtonOptions): (r: seq<PageLink>)
    requires e.itemsPerPage != 0
    ensures Flags(o.buttonMode).first ==> |r| >= 2 && r[0].page == 1 && r[|r| - 1].page == PageCount(e)
    ensures Flags(o.buttonMode).previous && !Flags(o.buttonMode).first ==>
      |r| >= 2 && r[0].page == e.currentPage - 1 && r[|r| - 1].page == e.currentPage + 1
    ensures forall l :: l in r && l.current ==> l.page == e.currentPage && l.disabled
  {
    var totalPages := PageCount(e);
    var f, p, n, x, l := FirstSection(e, o), PreviousSection(e, o), NumberSection(e, o, totalPages),
      NextSection(e, o, totalPages), LastSection(e, o, totalPages);
    assert forall k :: 0 <= k < |n| ==> n[k] in n;
    f + p + n + x + l
  }

  /** The class attribute of the `ul`: `pagination`, with the size class put in front of it by AddCssClass. */
  function ContainerClasses(size: SizeType): (r: Attributes)
    ensures r.Keys == {"class"}
    ensures r["class"] == match size
      case SM => " pagination-sm  pagination"
      case LG => " pagination-lg  pagination"
      case _ => "pagination"
  {
    var base := WithClass(map[], "pagination");
    match size
    case SM => WithClass(base, " pagination-sm ")
    case LG => WithClass(base, " pagination-lg ")
    case _ => base
  }

  /**
    The attributes of the `ul`: the class `pagination` behind the size class
    for the small and the large size, and the option's attributes for every
    other key (a `class` among them is ignored, since merging keeps the
    existing value).
  */
  function ContainerAttributes(o: BootstrapPagedButtonOptions): (r: Attributes)
    ensures "class" in r
    ensures o.size == SM ==> r["class"] == " pagination-sm  pagination"
    ensures o.size == LG ==> r["class"] == " pagination-lg  pagination"
    ensures o.size !in {SM, LG} ==> r["class"] == "pagination"
    ensures forall k :: k != "class" ==> (k in r <==> k in o.htmlAttributes)
    ensures forall k :: k != "class" && k in o.htmlAttributes ==> r[k] == o.htmlAttributes[k]
  {
    MergeKeep(ContainerClasses(o.size), o.htmlAttributes)
  }

  /**
    The pager's output for paging state `e` in request state `s`: nothing
    exactly when the pager is suppressed, otherwise the container attributes
    and one item per entry.
  */
  function PaginationOf(e: PagedEntity, s: RequestState, o: BootstrapPagedButtonOptions): (r: PaginationMarkup)
    ensures r.NoMarkup? <==> Suppressed(e, o)
    ensures r.Pagination? ==> r.attributes == ContainerAttributes(o) && |r.items| == |Links(e, o)|
  {
    if Suppressed(e, o) then NoMarkup
    else
      RenderLinksIndependent(Links(e, o), s, o);
      Pagination(ContainerAttributes(o), RenderLinks(Links(e, o), s, o))
  }

  // ----- properties of the generated entries -----

  /**
    Every entry the pager makes clickable points to an existing page, as
    long as the current page is at most one step outside the pages.
  */
  lemma NavigableLinksInRange(e: PagedEntity, o: BootstrapPagedButtonOptions)
    requires e.itemsPerPage != 0 && PageCount(e) >= 1 && 0 <= e.currentPage <= PageCount(e) + 1
    ensures forall l :: l in Links(e, o) && !l.disabled ==> 1 <= l.page <= PageCount(e)
  {
    var w := Window(e.currentPage, PageCount(e), o.numbericCount);
    forall l | l in NumberSection(e, o, PageCount(e))
      ensures 1 <= l.page <= PageCount(e)
    {
      var k :| 0 <= k < |NumberSection(e, o, PageCount(e))| && NumberSection(e, o, PageCount(e))[k] == l;
      assert l.page == w.start + k;
    }
  }

  /** No entry the pager generates links to the current page. */
  lemma CurrentPageInert(e: PagedEntity, o: BootstrapPagedButtonOptions)
    requires e.itemsPerPage != 0
    ensures forall l :: l in Links(e, o) && l.page == e.currentPage ==> l.disabled
  {
    var w := Window(e.currentPage, PageCount(e), o.numbericCount);
    forall l | l in NumberSection(e, o, PageCount(e))
      ensures l.page == e.currentPage ==> l.disabled
    {
      var k :| 0 <= k < |NumberSection(e, o, PageCount(e))| && NumberSection(e, o, PageCount(e))[k] == l;
    }
  }

  /** The number of entries marked current. */
  function CurrentCount(ls: seq<PageLink>): nat {
    if ls == [] then 0 else (if ls[0].current then 1 else 0) + CurrentCount(ls[1..])
  }

  lemma {:induction false} CurrentCountAppend(a: seq<PageLink>, b: seq<PageLink>)
    ensures CurrentCount(a + b) == CurrentCount(a) + CurrentCount(b)
    decreases |a|
  {
    if a != [] {
      assert (a + b)[1..] == a[1..] + b;
      CurrentCountAppend(a[1..], b);
    } else {
      assert a + b == b;
    }
  }

  /** The numbered entries from `lo` to `hi` mark one page current when the current page is among them, none otherwise. */
  lemma {:induction false} NumberLinksCurrent(lo: int, hi: int, currentPage: int)
    ensures CurrentCount(NumberLinks(lo, hi, currentPage)) == if lo <= currentPage <= hi then 1 else 0
    decreases hi - lo
  {
    if lo <= hi {
      var l := NumberLink(hi, currentPage);
      CurrentCountAppend(NumberLinks(lo, hi - 1, currentPage), [l]);
      assert CurrentCount([l]) == if l.current then 1 else 0;
      NumberLinksCurrent(lo, hi - 1, currentPage);
    }
  }

  /**
    Exactly one entry is marked current when the numbers are shown in a
    window of positive width and the current page exists; otherwise none.
  */
  lemma OneCurrentPage(e: PagedEntity, o: BootstrapPagedButtonOptions)
    requires e.itemsPerPage != 0
    ensures CurrentCount(Links(e, o)) ==
      if Flags(o.buttonMode).numbers && o.numbericCount >= 1 && 1 <= e.currentPage <= PageCount(e) then 1 else 0
  {
    var t := PageCount(e);
    assert CurrentCount(Links(e, o)) == CurrentCount(NumberSection(e, o, t)) by {
      OnlyNumbersCurrent(e, o);
    }
    if Flags(o.buttonMode).numbers {
      var w := Window(e.currentPage, t, o.numbericCount);
      NumberLinksCurrent(w.start, w.end, e.currentPage);
    }
  }

  /** Only numbered entries can be marked current. */
  lemma OnlyNumbersCurrent(e: PagedEntity, o: BootstrapPagedButtonOptions)
    requires e.itemsPerPage != 0
    ensures CurrentCount(Links(e, o)) == CurrentCount(NumberSection(e, o, PageCount(e)))
  {
    var t := PageCount(e);
    var f, p, n, x, l := FirstSection(e, o), PreviousSection(e, o), NumberSection(e, o, t), NextSection(e, o, t), LastSection(e, o, t);
    assert Links(e, o) == f + p + n + x + l;
    CurrentCountAppend(f + p + n + x, l);
    CurrentCountAppend(f + p + n, x);
    CurrentCountAppend(f + p, n);
    CurrentCountAppend(f, p);
    assert CurrentCount(f) == 0 && CurrentCount(p) == 0 && CurrentCount(x) == 0 && CurrentCount(l) == 0;
  }

  /**
    The items of the pager are the entries rendered each in the request
    state before the pager ran: the route values that URL generation leaves
    behind never reach a later entry.
  */
  lemma PaginationItems(e: PagedEntity, s: RequestState, o: BootstrapPagedButtonOptions)
    requires !Suppressed(e, o)
    ensures |PaginationOf(e, s, o).items| == |Links(e, o)|
    ensures forall k :: 0 <= k < |Links(e, o)| ==> PaginationOf(e, s, o).items[k] == RenderLink(Links(e, o)[k], s, o)
  {
    RenderLinksIndependent(Links(e, o), s, o);
  }

  /**
    With the default options, a collection of five items on one page of ten
    gives the disabled previous entry, the current page 1 and the disabled
    next entry.
  */
  lemma DefaultSinglePage()
    ensures Links(PagedEntity(5, 10, 1, 0), DefaultPagedOptions()) ==
      [PageLink(true, 0, "上一页", false), PageLink(true, 1, "1", true), PageLink(true, 2, "下一页", false)]
  {
    var e := PagedEntity(5, 10, 1, 0);
    assert PageCount(e) == 1;
    assert Window(1, 1, 10) == PageRange(1, 1);
    assert NumberLinks(1, 1, 1) == [NumberLink(1, 1)];
    assert IntToString(1) == "1";
  }

  /**
    The builder holds the items generated for `done`, started in request
    state `s0`, and the context is in the state generating them leaves.
  */
  ghost predicate Generated(ctx: ViewContext, builder: PageBuilder, done: seq<PageLink>, s0: RequestState,
                            o: BootstrapPagedButtonOptions)
    reads ctx, builder
  {
    builder.items == RenderLinks(done, s0, o) && ctx.State() == AfterLinks(done, s0)
  }

  /** Generates the entry `l`, as GeneratePageButton does, one entry further through the specification. */
  method AppendPageButton(ctx: ViewContext, builder: PageBuilder, l: PageLink, o: BootstrapPagedButtonOptions,
                          ghost done: seq<PageLink>, ghost s0: RequestState)
    requires Generated(ctx, builder, done, s0, o)
    modifies ctx, builder
    ensures builder.attributes == old(builder.attributes)
    ensures Generated(ctx, builder, done + [l], s0, o)
  {
    GeneratePageButton(ctx, builder, l.disabled, l.page, l.text, o, l.current);
    RenderLinksAppend(done, l, s0, o);
  }

  /** The visibility flags, set by the same tests on the mode as the pager makes. */
  method ShowFlags(mode: PageButtonMode) returns (f: VisibilityFlags)
    ensures f == Flags(mode)
  {
    var showNumberic, showFirst, showLast, showPrevious, showNext := false, false, false, false, false;
    if mode == FirstLastNumberic || mode == PreviousNextFirstLastNumberic || mode == PreviousNextNumberic || mode == OnlyNumberic {
      showNumberic := true;
    }
    if mode == FirstLastNumberic || mode == PreviousNextFirstLast || mode == PreviousNextFirstLastNumberic {
      showFirst := true;
      showLast := true;
    }
    if mode == PreviousNext || mode == PreviousNextFirstLast || mode == PreviousNextFirstLastNumberic || mode == PreviousNextNumberic {
      showPrevious := true;
      showNext := true;
    }
    f := VisibilityFlags(showNumberic, showFirst, showLast, showPrevious, showNext);
  }

  /** The first and last numbered page, by the pager's nested tests. */
  method NumberWindow(pageIndex: int, totalPages: int, numbericCount: int) returns (startPage: int, endPage: int)
    ensures PageRange(startPage, endPage) == Window(pageIndex, totalPages, numbericCount)
  {
    startPage, endPage := 1, 1;
    var half := HalfTowardZero(numbericCount);
    if totalPages > numbericCount {
      if pageIndex - half > 0 {
        if pageIndex + half < totalPages {
          startPage := pageIndex - half;
          endPage := startPage + numbericCount - 1;
        } else {
          endPage := totalPages;
          startPage := endPage - numbericCount + 1;
        }
      } else {
        endPage := numbericCount;
      }
    } else {
      startPage := 1;
      endPage := totalPages;
    }
  }

  lemma NumberLinksStep(done: seq<PageLink>, lo: int, i: int, currentPage: int)
    requires lo <= i
    ensures done + NumberLinks(lo, i - 1, currentPage) + [NumberLink(i, currentPage)] == done + NumberLinks(lo, i, currentPage)
  {
  }

  /** Generates the entry of page `i`, one step of the loop over the numbered pages. */
  method AppendNumberButton(ctx: ViewContext, builder: PageBuilder, i: int, currentPage: int,
                            o: BootstrapPagedButtonOptions, ghost done: seq<PageLink>, ghost lo: int, ghost s0: RequestState)
    requires lo <= i && Generated(ctx, builder, done + NumberLinks(lo, i - 1, currentPage), s0, o)
    modifies ctx, builder
    ensures builder.attributes == old(builder.attributes)
    ensures Generated(ctx, builder, done + NumberLinks(lo, i, currentPage), s0, o)
  {
    AppendPageButton(ctx, builder, NumberLink(i, currentPage), o, done + NumberLinks(lo, i - 1, currentPage), s0);
    NumberLinksStep(done, lo, i, currentPage);
  }

  /** Generates the numbered entries from `startPage` to `endPage`, in ascending order. */
  method AppendNumberButtons(ctx: ViewContext, builder: PageBuilder, startPage: int, endPage: int, currentPage: int,
                             o: BootstrapPagedButtonOptions, ghost done: seq<PageLink>, ghost s0: RequestState)
    requires Generated(ctx, builder, done, s0, o)
    modifies ctx, builder
    ensures builder.attributes == old(builder.attributes)
    ensures Generated(ctx, builder, done + NumberLinks(startPage, endPage, currentPage), s0, o)
  {
    var i := startPage;
    assert done + NumberLinks(startPage, i - 1, currentPage) == done;
    while i <= endPage
      invariant startPage <= i <= if endPage < startPage then startPage else endPage + 1
      invariant Generated(ctx, builder, done + NumberLinks(startPage, i - 1, currentPage), s0, o)
      invariant builder.attributes == old(builder.attributes)
      decreases endPage - i
    {
      AppendNumberButton(ctx, builder, i, currentPage, o, done, startPage, s0);
      i := i + 1;
    }
    if endPage < startPage {
      assert NumberLinks(startPage, i - 1, currentPage) == [] == NumberLinks(startPage, endPage, currentPage);
    } else {
      assert i - 1 == endPage;
    }
  }

  // Each group of entries is appended by a method of its own below; the
  // pager makes the same tests and calls one after the other in one body.

  /** Appends the entry for the first page when the mode shows it. */
  method AppendFirstButton(ctx: ViewContext, builder: PageBuilder, e: PagedEntity, o: BootstrapPagedButtonOptions,
                           show: VisibilityFlags, ghost done: seq<PageLink>, ghost s0: RequestState)
    requires show == Flags(o.buttonMode) && Generated(ctx, builder, done, s0, o)
    modifies ctx, builder
    ensures builder.attributes == old(builder.attributes)
    ensures Generated(ctx, builder, done + FirstSection(e, o), s0, o)
  {
    if show.first {
      var l := PageLink(e.currentPage <= 1, 1, o.textOfFirst, false);
      assert FirstSection(e, o) == [l];
      AppendPageButton(ctx, builder, l, o, done, s0);
    } else {
      assert done + FirstSection(e, o) == done;
    }
  }

  /** Appends the entry for the previous page when the mode shows it. */
  method AppendPreviousButton(ctx: ViewContext, builder: PageBuilder, e: PagedEntity, o: BootstrapPagedButtonOptions,
                              show: VisibilityFlags, ghost done: seq<PageLink>, ghost s0: RequestState)
    requires show == Flags(o.buttonMode) && Generated(ctx, builder, done, s0, o)
    modifies ctx, builder
    ensures builder.attributes == old(builder.attributes)
    ensures Generated(ctx, builder, done + PreviousSection(e, o), s0, o)
  {
    var pageIndex := e.currentPage;
    if show.previous {
      var l := PageLink(pageIndex - 1 < 1, pageIndex - 1, o.textOfPrevious, false);
      assert PreviousSection(e, o) == [l];
      AppendPageButton(ctx, builder, l, o, done, s0);
    } else {
      assert done + PreviousSection(e, o) == done;
    }
  }

  /** Appends the numbered entries of the window when the mode shows them. */
  method AppendNumberSection(ctx: ViewContext, builder: PageBuilder, e: PagedEntity, totalPages: int,
                             o: BootstrapPagedButtonOptions, show: VisibilityFlags,
                             ghost done: seq<PageLink>, ghost s0: RequestState)
    requires show == Flags(o.buttonMode) && Generated(ctx, builder, done, s0, o)
    modifies ctx, builder
    ensures builder.attributes == old(builder.attributes)
    ensures Generated(ctx, builder, done + NumberSection(e, o, totalPages), s0, o)
  {
    if show.numbers {
      var startPage, endPage := NumberWindow(e.currentPage, totalPages, o.numbericCount);
      AppendNumberButtons(ctx, builder, startPage, endPage, e.currentPage, o, done, s0);
    } else {
      assert done + NumberSection(e, o, totalPages) == done;
    }
  }

  /** Appends the entry for the next page when the mode shows it. */
  method AppendNextButton(ctx: ViewContext, builder: PageBuilder, e: PagedEntity, totalPages: int,
                          o: BootstrapPagedButtonOptions, show: VisibilityFlags,
                          ghost done: seq<PageLink>, ghost s0: RequestState)
    requires show == Flags(o.buttonMode) && Generated(ctx, builder, done, s0, o)
    modifies ctx, builder
    ensures builder.attributes == old(builder.attributes)
    ensures Generated(ctx, builder, done + NextSection(e, o, totalPages), s0, o)
  {
    var pageIndex := e.currentPage;
    if show.next {
      var l := PageLink(pageIndex + 1 > totalPages, pageIndex + 1, o.textOfNext, false);
      assert NextSection(e, o, totalPages) == [l];
      AppendPageButton(ctx, builder, l, o, done, s0);
    } else {
      assert done + NextSection(e, o, totalPages) == done;
    }
  }

  /** Appends the entry for the last page when the mode shows it. */
  method AppendLastButton(ctx: ViewContext, builder: PageBuilder, e: PagedEntity, totalPages: int,
                          o: BootstrapPagedButtonOptions, show: VisibilityFlags,
                          ghost done: seq<PageLink>, ghost s0: RequestState)
    requires show == Flags(o.buttonMode) && Generated(ctx, builder, done, s0, o)
    modifies ctx, builder
    ensures builder.attributes == old(builder.attributes)
    ensures Generated(ctx, builder, done + LastSection(e, o, totalPages), s0, o)
  {
    var pageIndex := e.currentPage;
    if show.last {
      var l := PageLink(pageIndex >= totalPages, totalPages, o.textOfLast, false);
      assert LastSection(e, o, totalPages) == [l];
      AppendPageButton(ctx, builder, l, o, done, s0);
    } else {
      assert done + LastSection(e, o, totalPages) == done;
    }
  }

  /** Appends the groups in the pager's order: first, previous, the numbered window, next, last. */
  method AppendPageButtons(ctx: ViewContext, builder: PageBuilder, e: PagedEntity, totalPages: int,
                           o: BootstrapPagedButtonOptions, show: VisibilityFlags, ghost s0: RequestState)
    requires e.itemsPerPage != 0 && totalPages == PageCount(e)
    requires show == Flags(o.buttonMode) && Generated(ctx, builder, [], s0, o)
    modifies ctx, builder
    ensures builder.attributes == old(builder.attributes)
    ensures Generated(ctx, builder, Links(e, o), s0, o)
  {
    AppendFirstButton(ctx, builder, e, o, show, [], s0);
    assert [] + FirstSection(e, o) == FirstSection(e, o);
    ghost var done := FirstSection(e, o);
    AppendPreviousButton(ctx, builder, e, o, show, done, s0);
    done := done + PreviousSection(e, o);
    AppendNumberSection(ctx, builder, e, totalPages, o, show, done, s0);
    done := done + NumberSection(e, o, totalPages);
    AppendNextButton(ctx, builder, e, totalPages, o, show, done, s0);
    done := done + NextSection(e, o, totalPages);
    AppendLastButton(ctx, builder, e, totalPages, o, show, done, s0);
  }

  /**
    Renders the pager. The route values of the view context are left as the
    URL requests of the navigable entries leave them.
  */
  method BootstrapPageButton(ctx: ViewContext, e: PagedEntity, options: Option<BootstrapPagedButtonOptions>)
    returns (markup: PaginationMarkup)
    modifies ctx
    ensures markup == PaginationOf(e, old(ctx.State()), EffectiveOptions(options))
    ensures markup.NoMarkup? ==> ctx.State() == old(ctx.State())
    ensures markup.Pagination? ==> ctx.State() == AfterLinks(Links(e, EffectiveOptions(options)), old(ctx.State()))
  {
    var o := EffectiveOptions(options);
    if e.count == 0 || e.itemsPerPage == 0 {
      return NoMarkup;
    }
    var totalPages := e.totalPages;
    if TruncatedRemainder(e.count, e.itemsPerPage) > 0 {
      totalPages := totalPages + 1;
    }
    assert totalPages == PageCount(e);
    if !o.alwaysShow && totalPages <= 1 {
      return NoMarkup;
    }
    markup := BuildPagination(ctx, e, totalPages, o);
  }

  /** Builds the `ul` and its items once the pager is known to be shown. */
  method BuildPagination(ctx: ViewContext, e: PagedEntity, totalPages: int, o: BootstrapPagedButtonOptions)
    returns (markup: PaginationMarkup)
    requires e.itemsPerPage != 0 && totalPages == PageCount(e)
    modifies ctx
    ensures markup == Pagination(ContainerAttributes(o), RenderLinks(Links(e, o), old(ctx.State()), o))
    ensures ctx.State() == AfterLinks(Links(e, o), old(ctx.State()))
  {
    var show := ShowFlags(o.buttonMode);

    var pageBuilder := new PageBuilder();
    pageBuilder.AddCssClass("pagination");
    match o.size {
      case SM => pageBuilder.AddCssClass(" pagination-sm ");
      case LG => pageBuilder.AddCssClass(" pagination-lg ");
      case _ =>
    }
    assert pageBuilder.attributes == ContainerClasses(o.size);
    pageBuilder.MergeAttributes(o.htmlAttributes);

    ghost var s0 := old(ctx.State());
    assert Generated(ctx, pageBuilder, [], s0, o);
    AppendPageButtons(ctx, pageBuilder, e, totalPages, o, show, s0);
    markup := Pagination(pageBuilder.attributes, pageBuilder.items);
  }
}
