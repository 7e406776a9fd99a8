# Bootstrap pagination and button helpers of Gym.Mvc, modelled in Dafny

Gym.Mvc is a set of ASP.NET MVC HTML helpers. This project models the core
of two of them.

- `BootstrapPageButton` renders a Bootstrap pager (a `ul class="pagination"`)
  for a paged collection. It decides whether to render anything at all. It
  counts the pages, with one extra page when the division leaves a
  remainder. It turns the display mode into five visibility flags and places
  a window of numbered pages around the current page. It then appends the
  entries first, previous, the numbers, next and last, in that order.
- Each entry is made by `GeneratePageButton`. A disabled entry is an inert
  `li` marked `active` (the current page) or `disabled`. Any other entry
  links to the URL that `GeneratePaginationUrl` computes.
- `GeneratePaginationUrl` goes through the routing system when the route
  already has a `page` value and the view is not a child action. The route
  dictionary compares keys case-insensitively, so a value stored as `Page`
  counts. The method first overwrites that route value, under the key it
  already has. Otherwise it edits the current request URL in one of three
  ways:
  - it appends `?page=p` when the URL has no `?`;
  - it appends `&page=p` when the URL has no `page=` (compared
    case-insensitively);
  - otherwise it replaces every match of `page=(\d+\.?\d*|\.\d+)` by
    `page=p`.
- `BootstrapButton` renders a Bootstrap `button`. It builds the class list
  (`btn`, an extra class, a size class and a colour class), places an
  optional icon left or right of the text, sets `type="button"` for every
  kind but a link, and adds an `onclick` navigation script whenever the
  `Link` option is not blank, whatever the button type.

Modules:
- `Wrappers`: Option and Result.
- `Strings`: decimal digits, `long.ToString()`, ASCII case folding, and the
  null, empty and white-space tests.
- `Enums`: the style enumerations and the button options.
- `PagedOptions`: the pager options and their defaults.
- `Markup`: the attribute map, list items, and the `ul` builder as a class.
- `RegexReplace`: replacing every match of a matcher, left to right, with no
  overlap.
- `QueryString`: the query-string branches of URL generation, with the
  regular expression coded as a matcher.
- `MvcExtensions`: the case-insensitive route dictionary, the view context
  as a class, plus `GeneratePaginationUrl` and `GeneratePageButton` as
  methods.
- `BootstrapPager`: the pager.
- `BootstrapButton`: the button.

How the pager is specified:
- `Links` is the list of entries the pager generates: for each entry, its
  page, its text, and whether it is disabled and current.
- `RenderLinks` and `AfterLinks` give the `li` items that generating those
  entries one after the other appends, and the view context it leaves.
- The methods are proved against these functions. The lemmas then prove
  what the pager promises:
  - every clickable entry points to an existing page;
  - the current page is never a link;
  - exactly one entry is current when the numbers are shown;
  - the window has the configured width and contains the current page;
  - the route value that one entry writes never changes a later entry's URL;
  - rewriting a query string twice gives the same URL as rewriting it once.

Two facts about the code shape the model:
- The route branch is taken only when the view is *not* a child action and
  the route has a `page` value (src/Gym.Mvc/MvcExtensions.cs:38).
- `Regex.Replace` rewrites every match, not only the first
  (src/Gym.Mvc/MvcExtensions.cs:56), so `QueryString.EveryValueRewritten`
  proves that every value is rewritten.

## Model

| member | source | states |
|---|---|---|
| Strings.NatToString | src/Gym.Mvc/BootstrapExtensions.cs:583 | The decimal text of a page number is non-empty, all digits, and has no leading zero unless the number is 0 |
| Strings.IntToString | src/Gym.Mvc/MvcExtensions.cs:49 | `long.ToString()`: the text starts with `-` exactly for a negative number; the rest is decimal digits without a leading zero (unless the number is 0) whose value is the magnitude |
| Strings.NatToStringRoundTrip | src/Gym.Mvc/BootstrapExtensions.cs:583 | Reading the digits of a page number's text back gives the number |
| Strings.IntToStringInjective | src/Gym.Mvc/MvcExtensions.cs:49 | Different page numbers give different texts, so different `page=` values |
| Enums.DefaultButtonOptions | src/Gym.Mvc/BootstrapButtonOptions.cs:12-43 | A new button option object is a Button, Primary, Normal size, with the icon on the left, and has no icon, extra class or link |
| PagedOptions.DefaultPagedOptions | src/Gym.Mvc/PagedButtonOptions.cs:24-75 | A new pager option object has a window of 10, is always shown, uses mode PreviousNextNumberic and Normal size, has the four Chinese button texts, and has no attributes and no route, controller or action name |
| Markup.MergeKeep | src/Gym.Mvc/BootstrapExtensions.cs:536 | Merging attributes without replacing: the keys are the union of both maps, existing values are kept, and new keys take the added value |
| Markup.WithClass | src/Gym.Mvc/BootstrapExtensions.cs:522-530 | AddCssClass puts the new class in front of the existing class, separated by a space; no other attribute changes |
| Markup.PageBuilder.constructor | src/Gym.Mvc/BootstrapExtensions.cs:520 | A new `ul` builder has no attributes and no items |
| Markup.PageBuilder.AddCssClass | src/Gym.Mvc/BootstrapExtensions.cs:522-530 | Adding a class changes only the class attribute, as WithClass says; the items are unchanged |
| Markup.PageBuilder.MergeAttributes | src/Gym.Mvc/BootstrapExtensions.cs:536 | Merging keeps the builder's own values, as MergeKeep says; the items are unchanged |
| Markup.PageBuilder.AppendItem | src/Gym.Mvc/MvcExtensions.cs:82 | Appending an item adds exactly that item at the end; the attributes are unchanged |
| RegexReplace.Replace | src/Gym.Mvc/MvcExtensions.cs:56 | `Regex.Replace` invents nothing: every character of the result comes from the input or from the replacement text |
| RegexReplace.ReplaceWithoutMatch | src/Gym.Mvc/MvcExtensions.cs:56 | Replacing every match in a string that has no match returns the string unchanged |
| RegexReplace.SplitAtMatch | src/Gym.Mvc/MvcExtensions.cs:56 | When there is a match, it splits the result at the leftmost match m (no match starts before m): the text before m copied unchanged, then the replacement, then the rewrite of the text after the match |
| RegexReplace.FindMatch | src/Gym.Mvc/MvcExtensions.cs:56 | A text with a match has a leftmost one: a match starts at m and none starts at any position before it |
| RegexReplace.CopiedBefore | src/Gym.Mvc/MvcExtensions.cs:56 | Positions where no match starts are copied: the rewrite of `s` is its first m characters followed by the rewrite of the rest |
| RegexReplace.CharacterKept | src/Gym.Mvc/MvcExtensions.cs:56 | A character that no match can cover survives the replacement |
| RegexReplace.ReplaceAppend | src/Gym.Mvc/MvcExtensions.cs:56 | Replacing in `a + b` is replacing in `a` and in `b` separately, when no match at the end of `a` reaches into `b` |
| QueryString.PageTokenIndex | src/Gym.Mvc/MvcExtensions.cs:52 | `IndexOf("page=", InvariantCultureIgnoreCase) != -1`: the test succeeds exactly when some position i ≤ length − 5 starts `page=` in any letter case |
| QueryString.NumberLength | src/Gym.Mvc/MvcExtensions.cs:56 | The group `(\d+\.?\d*\|\.\d+)` fails exactly when the text starts neither with a digit nor with a dot followed by a digit; a match never runs past the text |
| QueryString.NumberLengthGreedy | src/Gym.Mvc/MvcExtensions.cs:56 | The group takes the longest prefix of digits and at most one dot that starts with a digit (first alternative) or with a dot and a digit (second alternative): it is followed by neither a digit nor a second dot |
| QueryString.DigitRun | src/Gym.Mvc/MvcExtensions.cs:56 | A greedy `\d*` takes exactly the leading digits and stops at the first non-digit |
| QueryString.MatchLength | src/Gym.Mvc/MvcExtensions.cs:56 | A match of `page=(\d+\.?\d*\|\.\d+)` is at least six characters long and starts with `page=` in any letter case |
| QueryString.ReplacePageValues | src/Gym.Mvc/MvcExtensions.cs:56 | The regular-expression rewrite returns a URL without a `page=` token (in any letter case) unchanged |
| QueryString.QueryStringUrl | src/Gym.Mvc/MvcExtensions.cs:45-56 | The generated link always has a `?` and a `page=` token. When the URL has no `?`, or no `page=` token, the URL is kept in front and the parameter is appended |
| QueryString.MatchCharacters | src/Gym.Mvc/MvcExtensions.cs:56 | A match covers only letters of `page`, `=`, digits and dots |
| QueryString.ReplaceAppendSafe | src/Gym.Mvc/MvcExtensions.cs:56 | A separator that cannot continue a match splits the replacement into two independent halves |
| QueryString.NegativeReplacementKept | src/Gym.Mvc/MvcExtensions.cs:56 | For a negative page the replacement `page=-k` is not itself a match, so a second rewrite keeps it and carries on after it |
| QueryString.RewriteIdempotent | src/Gym.Mvc/MvcExtensions.cs:56 | For any page number, negative ones included: when every value is a whole number, a second replacement with the same page changes nothing |
| QueryString.NoMatchCreated | src/Gym.Mvc/MvcExtensions.cs:56 | Replacing values in a string that does not start with a match does not create one at its start |
| QueryString.QuestionMarkKept | src/Gym.Mvc/MvcExtensions.cs:47-56 | The replacement keeps the `?` of the URL, so a rewritten URL stays in the third branch |
| QueryString.TokenKept | src/Gym.Mvc/MvcExtensions.cs:52-56 | The replacement keeps a `page=` in the URL, so a rewritten URL stays in the third branch |
| QueryString.RewriteBranchTaken | src/Gym.Mvc/MvcExtensions.cs:45-56 | A URL with a `?` followed somewhere by a `page=` token takes the replacement branch |
| QueryString.AppendedUrlStable | src/Gym.Mvc/MvcExtensions.cs:47-55 | For any page p, negative ones included: a URL made by appending `?page=p` or `&page=p` maps to itself when generated again for p, when the URL before the parameter holds no match |
| QueryString.QueryStringUrlIdempotent | src/Gym.Mvc/MvcExtensions.cs:45-56 | For any page p, negative ones included: generating the link for p from a link already generated for p gives the same link. This holds when every value is a whole number and the URL has a `?` or no match |
| QueryString.PrefixKept | src/Gym.Mvc/MvcExtensions.cs:56 | The part of a URL before the first match is copied unchanged, whatever letters it holds |
| QueryString.SingleValueRewritten | src/Gym.Mvc/MvcExtensions.cs:56 | A query whose first match is its last parameter `page=q`, such as `/shop?sort=price&page=2`, is rewritten to end in `page=p`, and the part before it is unchanged |
| QueryString.SubpageRewritten | src/Gym.Mvc/MvcExtensions.cs:56 | The text `subpage=q` on its own is rewritten to `subpage=p` |
| QueryString.LongerNameRewritten | src/Gym.Mvc/MvcExtensions.cs:56 | The pattern has no word boundary, so the value of a last parameter `subpage=q` is rewritten too, after any prefix without a match |
| QueryString.TokenWithoutNumberUnchanged | src/Gym.Mvc/MvcExtensions.cs:52-56 | A URL with a `?` and a `page=` that has no number after it is returned unchanged, and no page parameter is added |
| QueryString.TwoValuesRewritten | src/Gym.Mvc/MvcExtensions.cs:56 | Both values of `page=a&page=b` become p |
| QueryString.ParametersRewritten | src/Gym.Mvc/MvcExtensions.cs:56 | In a run `page=v1&…&page=vn` of any number of `page` parameters with whole-number values, every value becomes p |
| QueryString.EveryValueRewritten | src/Gym.Mvc/MvcExtensions.cs:45-56 | After a prefix with a `?` and without a match, a run `page=v1&…&page=vn` of any number of whole-number values becomes `page=p&…&page=p`: every value is rewritten, not only the first |
| QueryString.PathLink | src/Gym.Mvc/MvcExtensions.cs:47-49 | A URL without `?` gets `?page=p` appended, even when its path contains `page=q` |
| QueryString.PathTokenBreaksIdempotence | src/Gym.Mvc/MvcExtensions.cs:45-56 | For a path containing `page=q` with q ≠ p, generating the link for p twice differs from generating it once. This is why the idempotence lemma needs its precondition |
| MvcExtensions.Lookup | src/Gym.Mvc/MvcExtensions.cs:38 | `TryGetValue` on the route dictionary finds a key in any letter case, and yields the value stored under it |
| MvcExtensions.SetValue | src/Gym.Mvc/MvcExtensions.cs:40 | The route indexer overwrites the entry whose key matches in any letter case and keeps that key as written; with no such entry it adds one. Every other entry is unchanged |
| MvcExtensions.LookupByWrittenName | src/Gym.Mvc/MvcExtensions.cs:38 | In a dictionary whose entries are stored under their folded names, a lookup succeeds exactly when some entry was written under a name equal to the key up to letter case |
| MvcExtensions.SetValueWellFormed | src/Gym.Mvc/MvcExtensions.cs:40 | The route indexer keeps every entry stored under its folded name |
| MvcExtensions.LookupAfterSet | src/Gym.Mvc/MvcExtensions.cs:38-40 | After a value is set, every spelling of its key finds that value, and every other key finds what it found before |
| MvcExtensions.PageKeySpellings | src/Gym.Mvc/MvcExtensions.cs:38 | `page`, `Page` and `PAGE` are the same route key |
| MvcExtensions.UsesRoute | src/Gym.Mvc/MvcExtensions.cs:38 | The route branch is taken exactly when the view is not a child action and the route has a value under `Page` in any letter case; never in a child action |
| MvcExtensions.UsesRouteAnySpelling | src/Gym.Mvc/MvcExtensions.cs:38 | For every spelling of `page`, the route branch is taken exactly when the route has a value under that spelling and the view is not a child action |
| MvcExtensions.WithPage | src/Gym.Mvc/MvcExtensions.cs:40 | The route values with `page` set to the target page. An existing entry keeps its key in whatever letter case it had; every other route value is unchanged |
| MvcExtensions.WithPageTwice | src/Gym.Mvc/MvcExtensions.cs:40 | Writing `page` twice leaves the route values the second write alone gives |
| MvcExtensions.PaginationUrl | src/Gym.Mvc/MvcExtensions.cs:36-57 | In the route branch the URL builder gets the route values with the target page; otherwise the link has a query string with a `page=` token |
| MvcExtensions.AfterRequest | src/Gym.Mvc/MvcExtensions.cs:38-43 | Generating a URL changes only the route values and never which branch is taken; in the route branch the route's `page` then holds the target page, otherwise nothing changes |
| MvcExtensions.CapitalisedPageKey | src/Gym.Mvc/MvcExtensions.cs:38-43 | A route value stored as `Page` takes the route branch and is overwritten under the key `Page`, with no second `page` entry |
| MvcExtensions.GeneratePaginationUrl | src/Gym.Mvc/MvcExtensions.cs:36-57 | Returns the URL of the specification PaginationUrl: the route URL when the route branch is taken (the `page` key compared case-insensitively), the query-string URL otherwise. The context is left as AfterRequest says |
| MvcExtensions.EarlierRequestForgotten | src/Gym.Mvc/MvcExtensions.cs:38-43 | A URL request does not change the URL of any later request, nor the state a later request leaves behind |
| MvcExtensions.RenderLink | src/Gym.Mvc/MvcExtensions.cs:63-80 | An entry is inert exactly when `canClick` is set, and then it is `active` exactly when it is current and `disabled` otherwise. Any other entry links to the page's URL. The text is kept |
| MvcExtensions.GeneratePageButton | src/Gym.Mvc/MvcExtensions.cs:59-83 | Appends exactly the item RenderLink gives in the state before the call. The container's attributes are unchanged, and the context is left as URL generation leaves it (unchanged for an inert entry) |
| MvcExtensions.RenderLinksAppend | src/Gym.Mvc/MvcExtensions.cs:82 | Generating one more entry appends its item, rendered in the state that the earlier entries left |
| MvcExtensions.AfterLinks | src/Gym.Mvc/MvcExtensions.cs:38-43 | Generating any number of entries changes only the route values, never which branch is taken, and nothing at all in the query-string branch |
| MvcExtensions.AfterLinksWellFormed | src/Gym.Mvc/MvcExtensions.cs:40 | Generating entries keeps every route entry stored under its folded name |
| MvcExtensions.RenderLinks | src/Gym.Mvc/MvcExtensions.cs:82 | Generating the entries one after another appends exactly one `li` per entry |
| MvcExtensions.EarlierLinksForgotten | src/Gym.Mvc/MvcExtensions.cs:59-83 | Entries generated earlier do not change the item of a later entry |
| MvcExtensions.RenderLinksIndependent | src/Gym.Mvc/MvcExtensions.cs:59-83 | Each generated item equals its entry rendered alone in the initial state, whatever the earlier entries did to the route values |
| MvcExtensions.FinalRouteValues | src/Gym.Mvc/MvcExtensions.cs:38-43 | After the entries are generated, the route's `page` is the target of the last clickable entry when the route branch is in use; otherwise the route is untouched |
| BootstrapPager.EffectiveOptions | src/Gym.Mvc/BootstrapExtensions.cs:467-470 | Options given are used as they are; missing options are replaced by a new options object: window 10, always shown, mode PreviousNextNumberic, Normal size, no attributes and no route, controller or action name |
| BootstrapPager.TruncatedRemainder | src/Gym.Mvc/BootstrapExtensions.cs:478 | C#'s `%`: the remainder has the sign of the dividend, is smaller in size than the divisor, and differs from the dividend by a multiple of the divisor |
| BootstrapPager.HalfTowardZero | src/Gym.Mvc/BootstrapExtensions.cs:557-561 | C#'s `n / 2`: the quotient is rounded toward zero |
| BootstrapPager.PageCount | src/Gym.Mvc/BootstrapExtensions.cs:476-481 | The page count is ComputePages's count plus one exactly when the item count is positive and not a multiple of the page size |
| BootstrapPager.RemainderPositive | src/Gym.Mvc/BootstrapExtensions.cs:478 | The truncated remainder is positive exactly when the item count is positive and not a multiple of the page size, which is the test that adds a page |
| BootstrapPager.PageCountIsCeiling | src/Gym.Mvc/BootstrapExtensions.cs:476-481 | When ComputePages truncates, the page count is the ceiling of count / itemsPerPage |
| BootstrapPager.Suppressed | src/Gym.Mvc/BootstrapExtensions.cs:472-487 | Nothing is rendered for an empty collection or a zero page size. When ComputePages truncates, a non-empty collection is hidden exactly when it fits on one page and the pager is not always shown |
| BootstrapPager.OnePageExactlyWhenFits | src/Gym.Mvc/BootstrapExtensions.cs:476-487 | When ComputePages truncates, there is at most one page exactly when the items fit on one page |
| BootstrapPager.Flags | src/Gym.Mvc/BootstrapExtensions.cs:491-512 | Numbers, first/last and previous/next are shown exactly for the modes that name them. First and last always go together, as do previous and next, and every mode shows something |
| BootstrapPager.ShowFlags | src/Gym.Mvc/BootstrapExtensions.cs:491-512 | The chain of tests on the mode sets the flags Flags describes |
| BootstrapPager.Window | src/Gym.Mvc/BootstrapExtensions.cs:552-579 | All pages are shown when they fit. Otherwise exactly n existing pages are shown, with n / 2 pages before the current one when there is room, moved to the first or last page at the ends. A width of zero or less shows nothing, and an existing current page is always inside |
| BootstrapPager.NumberWindow | src/Gym.Mvc/BootstrapExtensions.cs:552-579 | The nested tests compute the window Window describes |
| BootstrapPager.NumberLink | src/Gym.Mvc/BootstrapExtensions.cs:583 | The entry for page i targets i and is labelled `i.ToString()`; it is current exactly when i is the current page, and disabled exactly when current |
| BootstrapPager.NumberLinks | src/Gym.Mvc/BootstrapExtensions.cs:581-584 | One entry per page from start to end in ascending order, each disabled and current exactly on the current page and labelled with its number |
| BootstrapPager.NumberLinksCurrent | src/Gym.Mvc/BootstrapExtensions.cs:581-584 | The numbered entries mark one page current when the current page is in the range, none otherwise |
| BootstrapPager.FirstSection | src/Gym.Mvc/BootstrapExtensions.cs:538-541 | One entry when the mode shows it: page 1 with the first-page text, never current, disabled exactly when the current page is 1 or less |
| BootstrapPager.PreviousSection | src/Gym.Mvc/BootstrapExtensions.cs:543-546 | One entry when the mode shows it: the page before the current one, disabled exactly when that page is below 1 |
| BootstrapPager.NumberSection | src/Gym.Mvc/BootstrapExtensions.cs:550-585 | None unless the mode shows numbers; otherwise consecutive pages between 1 and the page count in ascending order, each labelled with its number, inert and current exactly on the current page |
| BootstrapPager.NextSection | src/Gym.Mvc/BootstrapExtensions.cs:588-591 | One entry when the mode shows it: the page after the current one, disabled exactly when that page is beyond the page count |
| BootstrapPager.LastSection | src/Gym.Mvc/BootstrapExtensions.cs:593-596 | One entry when the mode shows it: the last page, never current, disabled exactly when the current page is the last or beyond |
| BootstrapPager.Links | src/Gym.Mvc/BootstrapExtensions.cs:538-596 | With first and last shown the entries start at page 1 and end at the last page; with only previous and next they start at the page before and end at the page after. An entry marked current is the current page and inert |
| BootstrapPager.ContainerClasses | src/Gym.Mvc/BootstrapExtensions.cs:520-534 | The `ul`'s only attribute is its class. The class is `pagination`, with ` pagination-sm ` or ` pagination-lg ` put in front of it for SM and LG, and nothing added for other sizes |
| BootstrapPager.ContainerAttributes | src/Gym.Mvc/BootstrapExtensions.cs:520-536 | The class is decided by the size alone, and a `class` in the options is ignored. Every other option attribute appears unchanged |
| BootstrapPager.NavigableLinksInRange | src/Gym.Mvc/BootstrapExtensions.cs:538-596 | Every clickable entry targets a page between 1 and the page count, when the current page is at most one step outside the pages |
| BootstrapPager.CurrentPageInert | src/Gym.Mvc/BootstrapExtensions.cs:538-596 | No generated entry links to the current page |
| BootstrapPager.OnlyNumbersCurrent | src/Gym.Mvc/BootstrapExtensions.cs:538-596 | First, previous, next and last are never marked current; only numbered entries can be |
| BootstrapPager.OneCurrentPage | src/Gym.Mvc/BootstrapExtensions.cs:538-596 | Exactly one entry is marked current when the numbers are shown, the width is positive and the current page exists; otherwise none is |
| BootstrapPager.PaginationOf | src/Gym.Mvc/BootstrapExtensions.cs:465-598 | Nothing exactly when the pager is suppressed; otherwise the container attributes and one item per entry |
| BootstrapPager.PaginationItems | src/Gym.Mvc/BootstrapExtensions.cs:538-597 | The pager's items are its entries, each rendered in the request state from before the pager ran |
| BootstrapPager.DefaultSinglePage | src/Gym.Mvc/BootstrapExtensions.cs:465-598 | With default options, five items with ten per page, on page 1, give a disabled previous entry, the current page 1, and a disabled next entry |
| BootstrapPager.AppendPageButton | src/Gym.Mvc/BootstrapExtensions.cs:540 | One GeneratePageButton call takes the builder and the context one entry further through RenderLinks and AfterLinks |
| BootstrapPager.AppendNumberButton | src/Gym.Mvc/BootstrapExtensions.cs:583 | One pass of the loop: the entry of page i is generated, current and disabled exactly on the current page, after the entries of the pages before it |
| BootstrapPager.AppendNumberButtons | src/Gym.Mvc/BootstrapExtensions.cs:581-584 | The loop generates exactly the numbered entries from start to end, in order |
| BootstrapPager.AppendFirstButton | src/Gym.Mvc/BootstrapExtensions.cs:538-541 | Generates the first-page entry exactly when the mode shows it |
| BootstrapPager.AppendPreviousButton | src/Gym.Mvc/BootstrapExtensions.cs:543-546 | Generates the previous-page entry exactly when the mode shows it |
| BootstrapPager.AppendNumberSection | src/Gym.Mvc/BootstrapExtensions.cs:550-585 | Generates the numbered window exactly when the mode shows it |
| BootstrapPager.AppendNextButton | src/Gym.Mvc/BootstrapExtensions.cs:588-591 | Generates the next-page entry exactly when the mode shows it |
| BootstrapPager.AppendLastButton | src/Gym.Mvc/BootstrapExtensions.cs:593-596 | Generates the last-page entry exactly when the mode shows it |
| BootstrapPager.AppendPageButtons | src/Gym.Mvc/BootstrapExtensions.cs:538-596 | Generates exactly the entries of Links, in the order first, previous, numbers, next, last |
| BootstrapPager.BuildPagination | src/Gym.Mvc/BootstrapExtensions.cs:520-597 | Once the pager is shown, the `ul` gets the container attributes and the entries of Links rendered one after another; the context is left as those entries leave it |
| BootstrapPager.BootstrapPageButton | src/Gym.Mvc/BootstrapExtensions.cs:465-598 | Returns the specification PaginationOf: nothing for an empty collection, a zero page size, or at most one page when the pager is not always shown; otherwise the container attributes and the rendered entries. The context is left as the entries' URL requests leave it |
| BootstrapButton.AddOrMerge | src/Gym.Mvc/BootstrapExtensions.cs:401-407 | A new `class` value is appended to the existing class after a space; any other key is set to the value; nothing else changes |
| BootstrapButton.AddIfNotContains | src/Gym.Mvc/BootstrapExtensions.cs:435 | The key is set only when it is absent; an existing value is kept |
| BootstrapButton.BuildSizeClass | src/Gym.Mvc/MvcControlBuilder.cs:27-34 | The size class ` {prefix}{size} ` is appended to the class after a space, except for the normal size, which changes nothing; no other attribute changes |
| BootstrapButton.BuildColorClass | src/Gym.Mvc/MvcControlBuilder.cs:16-19 | The colour class ` {prefix}{color} ` is appended to the class after a space; no other attribute changes |
| BootstrapButton.ClassFragments | src/Gym.Mvc/BootstrapExtensions.cs:401-407 | The class values are ` btn `, then the extra class when it is not null or empty, then the size class unless the size is Normal, then the colour class |
| BootstrapButton.MergeClassesJoins | src/Gym.Mvc/BootstrapExtensions.cs:401-407 | Merging class values one at a time gives the caller's class (if any) followed by the values joined by spaces; no other attribute changes |
| BootstrapButton.ClassAdded | src/Gym.Mvc/BootstrapExtensions.cs:401-407 | Merging one more class value is one more AddOrMerge on the class |
| BootstrapButton.ButtonAttributes | src/Gym.Mvc/BootstrapExtensions.cs:399-453 | The button has exactly the caller's attributes plus `class`, plus `type` unless it is a link button, plus `onclick` when the `Link` option is not blank |
| BootstrapButton.ButtonClassList | src/Gym.Mvc/BootstrapExtensions.cs:399-407 | The button's class is the caller's class, then `btn`, the extra class, the size class and the colour class |
| BootstrapButton.ButtonTypeAttribute | src/Gym.Mvc/BootstrapExtensions.cs:432-446 | A type the caller set is kept. Otherwise `type="button"` is present exactly for Button, Submit and Reset |
| BootstrapButton.ButtonOnClick | src/Gym.Mvc/BootstrapExtensions.cs:448-451 | A link that is not blank becomes the `onclick` script; otherwise the caller's `onclick` (or its absence) is kept |
| BootstrapButton.ButtonOtherAttributes | src/Gym.Mvc/BootstrapExtensions.cs:399-453 | Every other attribute of the caller is kept unchanged, and no other attribute is added |
| BootstrapButton.AddButtonClasses | src/Gym.Mvc/BootstrapExtensions.cs:399-407 | The sequence of AddOrMerge, BuildSizeClass and BuildColorClass steps merges exactly the class values of ClassFragments |
| BootstrapButton.ButtonInnerHtml | src/Gym.Mvc/BootstrapExtensions.cs:414-430 | The text alone when the icon class is blank; otherwise the icon before the text for Left and after it for Right |
| BootstrapButton.BootstrapButton | src/Gym.Mvc/BootstrapExtensions.cs:395-456 | Fails exactly for icon direction Top or Bottom. Otherwise the button's attributes are ButtonAttributes and its content puts the icon as ButtonInnerHtml says |

## Left out

- Rendering to HTML text: `TagBuilder.ToString` and `MvcHtmlString` are not modelled. The `ul` and the button are kept as an attribute map plus a list of items (or inner HTML).
- `ComputePages` is not part of this model. The `TotalPages` it leaves is an input (`PagedEntity.totalPages`), and PageCountIsCeiling assumes it truncates.
- `HttpServerUtility.HtmlEncode` and `Request.RawUrl`: the encoded URL is an input of the request state.
- `UrlHelper.GenerateUrl` and the route table are a function supplied with the request.
- `HtmlHelper.AnonymousObjectToHtmlAttributes` and `HtmlHelper.ObjectToDictionary`: the options' anonymous object is given as an attribute map. The underscore-to-hyphen renaming of AnonymousObjectToHtmlAttributes is not modelled. ObjectToDictionary yields a dictionary whose keys compare case-insensitively, but the button's attribute map compares them exactly. So `new { Class = … }` stays a separate key in the model, while the source merges the helper's classes into it; the same holds for `Type` and `OnClick`.
- BootstrapButton.ButtonAttributes: its keys are compared exactly, so a caller's `Class`, `Type` or `OnClick` written in another letter case is not merged as the source merges it (see the line above).
- `AddOrMerge` and `AddIfNotContains` are not part of this model. They are modelled by an assumed behaviour: a `class` value is appended after a space, any other key is overwritten, and AddIfNotContains sets only an absent key.
- Integer widths: page numbers are `long` and the window width is `int` in the source. The model uses unbounded integers, so overflow is not modelled.
- The regular expression's `\d` is limited to ASCII digits. `IgnoreCase` and `InvariantCultureIgnoreCase` are limited to ASCII letters.
- MvcExtensions.Lookup and MvcExtensions.SetValue: the route dictionary's case-insensitive key comparison folds ASCII letters only; the source's ordinal case-insensitive comparison also folds other letters.
- Null option texts: the pager texts and the button text are plain strings, so a null text is modelled as empty. Icon class, extra class, link and route names are `Option`.
- Enumeration values outside the declared members are not modelled. The source's `default:` branches for them are therefore not modelled either.
- The exception for icon direction Top or Bottom is a `Failure` result. The attribute steps the source makes before it throws have no visible effect and are not modelled.
- BootstrapPageButton is one method body in the source. The model splits it into one helper method per group of entries, each making the source's own test.
- QueryString.QueryStringUrlIdempotent: stated only for URLs whose `page=` values are whole numbers, and that have a `?` or no match. QueryString.PathTokenBreaksIdempotence shows that it fails for a path containing `page=q`. A value that is not a whole number can break it too.
- BootstrapPager.NavigableLinksInRange: stated only for a current page between 0 and the page count plus one. The pager itself does not check the current page.
- MvcExtensions.RenderLinks: its own contract states only that there is one item per entry; what each item holds is stated by RenderLinksIndependent.
