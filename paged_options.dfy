/**
  Configuration of the Bootstrap pagination control: the record of options
  with its initial values, and the closed enumeration of display modes.
*/
module PagedOptions {
  import opened Wrappers
  import opened Enums
  import opened Markup

  /** Which groups of links the pager shows (six values, no others). */
  datatype PageButtonMode =
    | PreviousNext
    | PreviousNextNumberic
    | PreviousNextFirstLast
    | FirstLastNumberic
    | PreviousNextFirstLastNumberic
    | OnlyNumberic

  /**
    The pager's options. `numbericCount` is the width of the numbered window,
    `alwaysShow` keeps the pager visible when there is at most one page, and the
    four texts label the first, previous, next and last links; `htmlAttributes`
    are merged onto the `ul` of the pager. The route,
    controller and action names are handed to the external route URL builder.
  */
  datatype BootstrapPagedButtonOptions = BootstrapPagedButtonOptions(
    numbericCount: int,
    alwaysShow: bool,
    buttonMode: PageButtonMode,
    size: SizeType,
    textOfFirst: string,
    textOfPrevious: string,
    textOfNext: string,
    textOfLast: string,
    htmlAttributes: Attributes,
    routeName: Option<string>,
    controllerName: Option<string>,
    actionName: Option<string>)

  /**
    The property initialisers of a new BootstrapPagedButtonOptions. The
    attribute object starts out null, which converts to no attributes; the
    three names start out null.
  */
  function DefaultPagedOptions(): (o: BootstrapPagedButtonOptions)
    ensures o.numbericCount == 10 && o.alwaysShow
    ensures o.buttonMode == PreviousNextNumberic && o.size == Normal
    ensures o.textOfFirst == "首页" && o.textOfPrevious == "上一页" && o.textOfNext == "下一页" && o.textOfLast == "末页"
    ensures o.htmlAttributes == map[]
    ensures o.routeName.None? && o.controllerName.None? && o.actionName.None?
  {
    BootstrapPagedButtonOptions(
      10, true, PreviousNextNumberic, Normal,
      "首页", "上一页", "下一页", "末页",
      map[], None, None, None)
  }
}
