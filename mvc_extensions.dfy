/**
  Link generation for one pagination entry. GeneratePaginationUrl picks the
  target URL of a page: through the routing system when the current route
  already carries a `page` value (and the view is not a child action), and
  otherwise by editing the query string of the current request URL.
  GeneratePageButton appends one `li` to the pager: an inert one for a
  disabled entry, a link to the page otherwise.

  The routing system's URL builder (`UrlHelper.GenerateUrl` over the route
  table) is not part of this model; it is a function supplied with the
  request.
*/
module MvcExtensions {
  import opened Wrappers
  import opened Strings
  import opened QueryString
  import opened Markup
  import opened PagedOptions

  /** A value of the route dictionary: the page numbers this code writes, or any other value. */
  datatype RouteValue = PageNumber(n: int) | OtherValue(text: string)

  /** One entry of the route dictionary: the key as it was first written, and its value. */
  datatype RouteEntry = RouteEntry(name: string, value: RouteValue)

  /**
    `RouteValueDictionary`, whose keys compare case-insensitively: each
    entry is stored under its key with the letters folded to lower case, so
    `Page` and `page` name the same entry.
  */
  type RouteValues = map<string, RouteEntry>

  /** Every entry is stored under its name with the letters folded. */
  predicate WellFormedRoute(values: RouteValues) {
    forall k :: k in values ==> k == FoldCase(values[k].name)
  }

  /**
    In a well-formed dictionary a lookup succeeds exactly when some entry
    was written under a name equal to `name` up to letter case.
  */
  lemma LookupByWrittenName(values: RouteValues, name: string)
    requires WellFormedRoute(values)
    ensures Lookup(values, name).Some? <==> exists k :: k in values && FoldCase(values[k].name) == FoldCase(name)
  {
    if Lookup(values, name).Some? {
      assert FoldCase(name) in values;
    }
  }

  /** `values.TryGetValue(name, out value)`. */
  function Lookup(values: RouteValues, name: string): (r: Option<RouteValue>)
    ensures r.Some? <==> FoldCase(name) in values
    ensures r.Some? ==> r.value == values[FoldCase(name)].value
  {
    var key := FoldCase(name);
    if key in values then Some(values[key].value) else None
  }

  /**
    `values[name] = value`: an entry whose key differs from `name` only in
    letter case is overwritten and keeps its key as first written; otherwise
    a new entry is added under `name`.
  */
  function SetValue(values: RouteValues, name: string, value: RouteValue): (r: RouteValues)
    ensures FoldCase(name) in r && r[FoldCase(name)].value == value
    ensures FoldCase(name) in values ==> r[FoldCase(name)].name == values[FoldCase(name)].name
    ensures FoldCase(name) !in values ==> r[FoldCase(name)].name == name
    ensures forall k :: k != FoldCase(name) ==> (k in r <==> k in values)
    ensures forall k :: k != FoldCase(name) && k in values ==> r[k] == values[k]
  {
    var key := FoldCase(name);
    values[key := RouteEntry(if key in values then values[key].name else name, value)]
  }

  /** After setting a value, every spelling of its key finds it, and every other key finds what it found before. */
  lemma LookupAfterSet(values: RouteValues, name: string, value: RouteValue, other: string)
    ensures FoldCase(other) == FoldCase(name) ==> Lookup(SetValue(values, name, value), other) == Some(value)
    ensures FoldCase(other) != FoldCase(name) ==> Lookup(SetValue(values, name, value), other) == Lookup(values, other)
  {
  }

  /** `page`, `Page` and `PAGE` are the same route key. */
  lemma PageKeySpellings()
    ensures FoldCase("page") == "page" && FoldCase("Page") == "page" && FoldCase("PAGE") == "page"
  {
    assert FoldCase("Page")[0] == 'p';
    assert FoldCase("PAGE")[0] == 'p' && FoldCase("PAGE")[1] == 'a' && FoldCase("PAGE")[2] == 'g' && FoldCase("PAGE")[3] == 'e';
  }

  /** `UrlHelper.GenerateUrl(routeName, actionName, controllerName, values, …)`. */
  type UrlGenerator = (Option<string>, Option<string>, Option<string>, RouteValues) -> string

  /**
    What link generation reads from the view context: whether the view is a
    child action, the route values, the HTML-encoded raw URL of the request,
    and the routing system's URL builder.
  */
  datatype RequestState = RequestState(
    isChildAction: bool,
    routeValues: RouteValues,
    encodedUrl: string,
    generateUrl: UrlGenerator)

  /** The view context; only its route values change while links are generated. */
  class ViewContext {
    const isChildAction: bool
    var routeValues: RouteValues
    const encodedUrl: string
    const generateUrl: UrlGenerator

    constructor (isChildAction: bool, routeValues: RouteValues, encodedUrl: string, generateUrl: UrlGenerator)
      ensures State() == RequestState(isChildAction, routeValues, encodedUrl, generateUrl)
    {
      this.isChildAction := isChildAction;
      this.routeValues := routeValues;
      this.encodedUrl := encodedUrl;
      this.generateUrl := generateUrl;
    }

    function State(): RequestState
      reads this
    {
      RequestState(isChildAction, routeValues, encodedUrl, generateUrl)
    }
  }

  /**
    The route branch is taken when the view is not a child action and the
    route has a `page` value, under any spelling of its key.
  */
  predicate UsesRoute(s: RequestState): (b: bool)
    ensures b ==> !s.isChildAction
    ensures b <==> !s.isChildAction && Lookup(s.routeValues, "Page").Some?
  {
    PageKeySpellings();
    !s.isChildAction && Lookup(s.routeValues, "page").Some?
  }

  /** Whichever letter case the route's `page` key was written in, the route branch finds it. */
  lemma UsesRouteAnySpelling(s: RequestState, name: string)
    requires FoldCase(name) == "page"
    ensures UsesRoute(s) <==> !s.isChildAction && Lookup(s.routeValues, name).Some?
  {
    PageKeySpellings();
  }

  /**
    The route values with `page` set to the target page, as the route branch
    leaves them: an existing entry keeps its key, whatever its letter case.
  */
  function WithPage(values: RouteValues, page: int): (r: RouteValues)
    ensures Lookup(r, "page") == Some(PageNumber(page))
    ensures "page" in values ==> r["page"].name == values["page"].name
    ensures "page" !in values ==> r["page"].name == "page"
    ensures forall k :: k != "page" ==> (k in r <==> k in values)
    ensures forall k :: k != "page" && k in values ==> r[k] == values[k]
  {
    PageKeySpellings();
    SetValue(values, "page", PageNumber(page))
  }

  /** Setting a value keeps every entry stored under its folded name. */
  lemma SetValueWellFormed(values: RouteValues, name: string, value: RouteValue)
    requires WellFormedRoute(values)
    ensures WellFormedRoute(SetValue(values, name, value))
  {
    var r := SetValue(values, name, value);
    forall k | k in r
      ensures k == FoldCase(r[k].name)
    {
      if k != FoldCase(name) {
        assert r[k] == values[k];
      }
    }
  }

  /** Setting the page twice leaves only the second page. */
  lemma WithPageTwice(values: RouteValues, first: int, page: int)
    ensures WithPage(WithPage(values, first), page) == WithPage(values, page)
  {
    var a, b := WithPage(WithPage(values, first), page), WithPage(values, page);
    assert a.Keys == b.Keys;
    forall k | k in a
      ensures a[k] == b[k]
    {
    }
  }

  /** The URL GeneratePaginationUrl returns for `page` in request state `s`. */
  function PaginationUrl(s: RequestState, page: int, o: BootstrapPagedButtonOptions): (url: string)
    ensures UsesRoute(s) ==> url == s.generateUrl(o.routeName, o.actionName, o.controllerName, WithPage(s.routeValues, page))
    ensures !UsesRoute(s) ==> '?' in url && HasPageToken(url)
  {
    if UsesRoute(s) then s.generateUrl(o.routeName, o.actionName, o.controllerName, WithPage(s.routeValues, page))
    else QueryStringUrl(s.encodedUrl, page)
  }

  /**
    The request state GeneratePaginationUrl leaves behind: only the route
    values may change, the branch stays the same, and in the route branch
    the route's `page` is the requested page.
  */
  function AfterRequest(s: RequestState, page: int): (r: RequestState)
    ensures r.(routeValues := s.routeValues) == s
    ensures UsesRoute(r) == UsesRoute(s)
    ensures UsesRoute(s) ==> Lookup(r.routeValues, "page") == Some(PageNumber(page))
    ensures !UsesRoute(s) ==> r == s
  {
    if UsesRoute(s) then s.(routeValues := WithPage(s.routeValues, page)) else s
  }

  /** A route value stored as `Page` takes the route branch and is overwritten under that key. */
  lemma CapitalisedPageKey(s: RequestState, v: RouteValue, page: int)
    requires !s.isChildAction && s.routeValues == SetValue(map[], "Page", v)
    ensures UsesRoute(s)
    ensures AfterRequest(s, page).routeValues == map["page" := RouteEntry("Page", PageNumber(page))]
  {
    PageKeySpellings();
    assert Lookup(s.routeValues, "Page").Some?;
  }

  /** The target URL of a page; in the route branch the route's `page` value is overwritten first. */
  method GeneratePaginationUrl(ctx: ViewContext, page: int, o: BootstrapPagedButtonOptions) returns (url: string)
    modifies ctx
    ensures url == PaginationUrl(old(ctx.State()), page, o)
    ensures ctx.State() == AfterRequest(old(ctx.State()), page)
  {
    if !ctx.isChildAction && Lookup(ctx.routeValues, "page").Some? {
      ctx.routeValues := SetValue(ctx.routeValues, "page", PageNumber(page));
      url := ctx.generateUrl(o.routeName, o.actionName, o.controllerName, ctx.routeValues);
      return;
    }
    assert !UsesRoute(old(ctx.State()));
    var currentUrl := ctx.encodedUrl;
    if '?' !in currentUrl {
      url := currentUrl + "?" + "page=" + IntToString(page);
      assert url == QueryStringUrl(currentUrl, page) by {
        assert url == currentUrl + "?" + Replacement(page);
      }
      return;
    }
    if !HasPageToken(currentUrl) {
      url := currentUrl + "&" + "page=" + IntToString(page);
      assert url == QueryStringUrl(currentUrl, page) by {
        assert url == currentUrl + "&" + Replacement(page);
      }
      return;
    }
    url := ReplacePageValues(currentUrl, "page=" + IntToString(page));
  }

  /**
    A URL request does not influence the URL of any later request: the route
    value it wrote is overwritten by the next request before use.
  */
  lemma EarlierRequestForgotten(s: RequestState, earlier: int, page: int, o: BootstrapPagedButtonOptions)
    ensures PaginationUrl(AfterRequest(s, earlier), page, o) == PaginationUrl(s, page, o)
    ensures AfterRequest(AfterRequest(s, earlier), page) == AfterRequest(s, page)
  {
    if UsesRoute(s) {
      WithPageTwice(s.routeValues, earlier, page);
    }
  }

  // ----- one pagination entry -----

  /**
    One entry of the pager: whether it is disabled (the source's `canClick`
    argument, which means the opposite of its name), its target page, its
    text, and whether it is the current page.
  */
  datatype PageLink = PageLink(disabled: bool, page: int, text: string, current: bool)

  /** The `li` GeneratePageButton appends for `l` in request state `s`. */
  function RenderLink(l: PageLink, s: RequestState, o: BootstrapPagedButtonOptions): (item: ListItem)
    ensures item.text == l.text
    ensures item.anchor == Inert <==> l.disabled
    ensures !l.disabled ==> item.anchor == Href(PaginationUrl(s, l.page, o))
    ensures item.cls == Active <==> l.disabled && l.current
    ensures item.cls == Disabled <==> l.disabled && !l.current
  {
    if l.disabled then ListItem(if l.current then Active else Disabled, Inert, l.text)
    else ListItem(NoClass, Href(PaginationUrl(s, l.page, o)), l.text)
  }

  /** The request state after GeneratePageButton for `l`: a disabled entry requests no URL. */
  function AfterLink(l: PageLink, s: RequestState): RequestState {
    if l.disabled then s else AfterRequest(s, l.page)
  }

  /**
    Appends one `li` for page `page` to the pager; the items already there
    stay as they are.
  */
  method GeneratePageButton(ctx: ViewContext, builder: PageBuilder, canClick: bool, page: int, text: string,
                            o: BootstrapPagedButtonOptions, current: bool)
    modifies ctx, builder
    ensures builder.items == old(builder.items) + [RenderLink(PageLink(canClick, page, text, current), old(ctx.State()), o)]
    ensures builder.attributes == old(builder.attributes)
    ensures ctx.State() == AfterLink(PageLink(canClick, page, text, current), old(ctx.State()))
  {
    var cls := NoClass;
    var anchor;
    if canClick {
      if current {
        cls := Active;
      } else {
        cls := Disabled;
      }
      anchor := Inert;
    } else {
      var url := GeneratePaginationUrl(ctx, page, o);
      anchor := Href(url);
    }
    builder.AppendItem(ListItem(cls, anchor, text));
  }

  // ----- a sequence of entries, generated one after the other -----

  /**
    The request state after generating all of `ls`, in order. Generating
    entries changes only the route values, never which branch URL
    generation takes, and nothing at all in the query-string branch.
  */
  function AfterLinks(ls: seq<PageLink>, s: RequestState): (r: RequestState)
    ensures r.isChildAction == s.isChildAction && r.encodedUrl == s.encodedUrl && r.generateUrl == s.generateUrl
    ensures UsesRoute(r) == UsesRoute(s)
    ensures !UsesRoute(s) ==> r.routeValues == s.routeValues
    decreases |ls|
  {
    if ls == [] then s else AfterLink(ls[|ls| - 1], AfterLinks(ls[..|ls| - 1], s))
  }

  /** The items generated for `ls`, in order: one per entry, each rendered in the request state its predecessors left. */
  function RenderLinks(ls: seq<PageLink>, s: RequestState, o: BootstrapPagedButtonOptions): (r: seq<ListItem>)
    ensures |r| == |ls|
    decreases |ls|
  {
    if ls == [] then []
    else
      var prefix := ls[..|ls| - 1];
      RenderLinks(prefix, s, o) + [RenderLink(ls[|ls| - 1], AfterLinks(prefix, s), o)]
  }

  lemma RenderLinksAppend(ls: seq<PageLink>, l: PageLink, s: RequestState, o: BootstrapPagedButtonOptions)
    ensures RenderLinks(ls + [l], s, o) == RenderLinks(ls, s, o) + [RenderLink(l, AfterLinks(ls, s), o)]
    ensures AfterLinks(ls + [l], s) == AfterLink(l, AfterLinks(ls, s))
  {
    assert (ls + [l])[..|ls|] == ls;
  }

  /** Generating entries keeps the route dictionary well formed. */
  lemma {:induction false} AfterLinksWellFormed(ls: seq<PageLink>, s: RequestState)
    requires WellFormedRoute(s.routeValues)
    ensures WellFormedRoute(AfterLinks(ls, s).routeValues)
    decreases |ls|
  {
    if ls != [] {
      var prefix, last := ls[..|ls| - 1], ls[|ls| - 1];
      AfterLinksWellFormed(prefix, s);
      var t := AfterLinks(prefix, s);
      if !last.disabled && UsesRoute(t) {
        SetValueWellFormed(t.routeValues, "page", PageNumber(last.page));
      }
    }
  }

  /** Generating earlier entries changes neither the item nor the URL of a later one. */
  lemma {:induction false} EarlierLinksForgotten(ls: seq<PageLink>, l: PageLink, s: RequestState, o: BootstrapPagedButtonOptions)
    ensures RenderLink(l, AfterLinks(ls, s), o) == RenderLink(l, s, o)
    decreases |ls|
  {
    if ls != [] {
      var prefix, last := ls[..|ls| - 1], ls[|ls| - 1];
      EarlierLinksForgotten(prefix, l, s, o);
      if !last.disabled {
        EarlierRequestForgotten(AfterLinks(prefix, s), last.page, l.page, o);
      }
    }
  }

  /** Every generated item is the one its entry would get on its own, in the initial request state. */
  lemma {:induction false} RenderLinksIndependent(ls: seq<PageLink>, s: RequestState, o: BootstrapPagedButtonOptions)
    ensures forall k :: 0 <= k < |ls| ==> RenderLinks(ls, s, o)[k] == RenderLink(ls[k], s, o)
    decreases |ls|
  {
    if ls != [] {
      var prefix, last := ls[..|ls| - 1], ls[|ls| - 1];
      RenderLinksIndependent(prefix, s, o);
      EarlierLinksForgotten(prefix, last, s, o);
      RenderedSnoc(ls, RenderLinks(prefix, s, o), RenderLink(last, AfterLinks(prefix, s), o), s, o);
    }
  }

  lemma RenderedSnoc(ls: seq<PageLink>, items: seq<ListItem>, item: ListItem, s: RequestState, o: BootstrapPagedButtonOptions)
    requires ls != [] && |items| == |ls| - 1
    requires forall k :: 0 <= k < |items| ==> items[k] == RenderLink(ls[..|ls| - 1][k], s, o)
    requires item == RenderLink(ls[|ls| - 1], s, o)
    ensures forall k :: 0 <= k < |ls| ==> (items + [item])[k] == RenderLink(ls[k], s, o)
  {
    forall k | 0 <= k < |ls|
      ensures (items + [item])[k] == RenderLink(ls[k], s, o)
    {
      if k < |items| {
        assert ls[..|ls| - 1][k] == ls[k];
      }
    }
  }

  /** The target page of the last entry of `ls` that is not disabled, if any. */
  function LastNavigable(ls: seq<PageLink>): Option<int>
    decreases |ls|
  {
    if ls == [] then None
    else if !ls[|ls| - 1].disabled then Some(ls[|ls| - 1].page)
    else LastNavigable(ls[..|ls| - 1])
  }

  /**
    After generating all of `ls`, the route's `page` value holds the target of
    the last navigable entry when the route branch is in use; otherwise the
    route values are untouched.
  */
  lemma {:induction false} FinalRouteValues(ls: seq<PageLink>, s: RequestState)
    ensures AfterLinks(ls, s).routeValues ==
      if UsesRoute(s) && LastNavigable(ls).Some? then WithPage(s.routeValues, LastNavigable(ls).value)
      else s.routeValues
    decreases |ls|
  {
    if ls != [] {
      var prefix := ls[..|ls| - 1];
      FinalRouteValues(prefix, s);
      if UsesRoute(s) && LastNavigable(prefix).Some? {
        var p := LastNavigable(prefix).value;
        WithPageTwice(s.routeValues, p, ls[|ls| - 1].page);
      }
    }
  }
}
