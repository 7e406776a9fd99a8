/**
  The part of ASP.NET MVC's TagBuilder that the pager relies on: an element
  with an attribute dictionary, `AddCssClass`, `MergeAttributes` (existing
  attributes win) and inner HTML built by appending list items. A list item
  is kept as a descriptor (its class, its anchor and its text) rather than
  as rendered text.
*/
module Markup {

  /** Attribute names to values. */
  type Attributes = map<string, string>

  /** The class a pagination `li` carries. */
  datatype ItemClass = NoClass | Active | Disabled

  /** The `a` element inside a pagination `li`: `href='javascript:;'`, or a real target. */
  datatype Anchor = Inert | Href(url: string)

  /** `<li class='…'><a href='…'>text</a></li>`. */
  datatype ListItem = ListItem(cls: ItemClass, anchor: Anchor, text: string)

  /**
    `MergeAttributes(extra, replaceExisting: false)`: every attribute of
    `extra` is added unless the element already has one of that name.
  */
  function MergeKeep(existing: Attributes, extra: Attributes): (r: Attributes)
    ensures forall k :: k in r <==> k in existing || k in extra
    ensures forall k :: k in existing ==> r[k] == existing[k]
    ensures forall k :: k in extra && k !in existing ==> r[k] == extra[k]
  {
    map k | k in existing.Keys + extra.Keys :: if k in existing then existing[k] else extra[k]
  }

  /** `AddCssClass(value)`: a new class goes in front of the classes already present. */
  function WithClass(attrs: Attributes, value: string): (r: Attributes)
    ensures "class" in r
    ensures "class" !in attrs ==> r["class"] == value
    ensures "class" in attrs ==> r["class"] == value + " " + attrs["class"]
    ensures forall k :: k != "class" ==> (k in r <==> k in attrs)
    ensures forall k :: k != "class" && k in attrs ==> r[k] == attrs[k]
  {
    attrs["class" := if "class" in attrs then value + " " + attrs["class"] else value]
  }

  /** The `ul` container of the pager, as it is built up. */
  class PageBuilder {
    var attributes: Attributes
    var items: seq<ListItem>

    constructor ()
      ensures attributes == map[] && items == []
    {
      attributes := map[];
      items := [];
    }

    method AddCssClass(value: string)
      modifies this
      ensures attributes == WithClass(old(attributes), value)
      ensures items == old(items)
    {
      attributes := WithClass(attributes, value);
    }

    method MergeAttributes(extra: Attributes)
      modifies this
      ensures attributes == MergeKeep(old(attributes), extra)
      ensures items == old(items)
    {
      attributes := MergeKeep(attributes, extra);
    }

    /** `InnerHtml += li.ToString()`: the new item goes after the existing ones. */
    method AppendItem(item: ListItem)
      modifies this
      ensures items == old(items) + [item]
      ensures attributes == old(attributes)
    {
      items := items + [item];
    }
  }

  /** The pager's output: nothing (`MvcHtmlString.Empty`), or the `ul` with its attributes and items. */
  datatype PaginationMarkup = NoMarkup | Pagination(attributes: Attributes, items: seq<ListItem>)
}
