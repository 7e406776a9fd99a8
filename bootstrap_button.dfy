/**
  The Bootstrap `button` helper: the class list built from the options, the
  icon placed before or after the text, the `type` attribute and the
  `onclick` navigation of a link button. The attribute dictionary is a map
  that the helper updates step by step; the result is the element's
  attributes and inner HTML, or the error for an icon above or below the text.
*/
module BootstrapButton {
  import opened Wrappers
  import opened Strings
  import opened Enums
  import opened Markup

  /** The `button` element: its attributes and its inner HTML. */
  datatype ButtonTag = ButtonTag(attributes: Attributes, innerHtml: string)

  /** `ArgumentOutOfRangeException`: the icon can only sit left or right of the text. */
  datatype ButtonError = IconDirectionOutOfRange

  // ----- the attribute dictionary helpers -----

  /** `AddOrMerge(key, value)`: a `class` value is joined to the one present with a space; any other value replaces the old one. */
  function AddOrMerge(attrs: Attributes, key: string, value: string): (r: Attributes)
    ensures key in r
    ensures key == "class" && key in attrs ==> r[key] == attrs[key] + " " + value
    ensures key != "class" || key !in attrs ==> r[key] == value
    ensures forall k :: k != key ==> (k in r <==> k in attrs)
    ensures forall k :: k != key && k in attrs ==> r[k] == attrs[k]
  {
    attrs[key := if key == "class" && key in attrs then attrs[key] + " " + value else value]
  }

  /** `AddIfNotContains(key, value)`: the value is set only when the key is absent. */
  function AddIfNotContains(attrs: Attributes, key: string, value: string): (r: Attributes)
    ensures key in r
    ensures key in attrs ==> r == attrs
    ensures key !in attrs ==> r[key] == value && forall k :: k != key ==> (k in r <==> k in attrs)
    ensures forall k :: k != key && k in attrs ==> r[k] == attrs[k]
  {
    if key in attrs then attrs else attrs[key := value]
  }

  /** The class value ` {prefix}{size} `. */
  function SizeClass(prefix: string, size: SizeType): string {
    " " + prefix + SizeName(size) + " "
  }

  /** The class value ` {prefix}{color} `. */
  function ColorClass(prefix: string, color: ColorType): string {
    " " + prefix + ColorName(color) + " "
  }

  /**
    `BuildSizeClass(prefix, size)`: the size class is added after the
    classes already present, except for the normal size; no other attribute
    changes.
  */
  function BuildSizeClass(attrs: Attributes, prefix: string, size: SizeType): (r: Attributes)
    ensures size == Normal ==> r == attrs
    ensures size != Normal ==>
      "class" in r && r["class"] == (if "class" in attrs then attrs["class"] + " " else "") + SizeClass(prefix, size)
    ensures forall k :: k != "class" ==> (k in r <==> k in attrs)
    ensures forall k :: k != "class" && k in attrs ==> r[k] == attrs[k]
  {
    if size == Normal then attrs else AddOrMerge(attrs, "class", SizeClass(prefix, size))
  }

  /** `BuildColorClass(prefix, color)`: the colour class is added after the classes already present; no other attribute changes. */
  function BuildColorClass(attrs: Attributes, prefix: string, color: ColorType): (r: Attributes)
    ensures "class" in r && r["class"] == (if "class" in attrs then attrs["class"] + " " else "") + ColorClass(prefix, color)
    ensures forall k :: k != "class" ==> (k in r <==> k in attrs)
    ensures forall k :: k != "class" && k in attrs ==> r[k] == attrs[k]
  {
    AddOrMerge(attrs, "class", ColorClass(prefix, color))
  }

  // ----- the class list -----

  /** The class values the button adds, in order: `btn`, the extra class, the size and the colour. */
  function ClassFragments(o: BootstrapButtonOptions): (r: seq<string>)
    ensures |r| >= 2 && r[0] == " btn " && r[|r| - 1] == ColorClass("btn-", o.color)
    ensures |r| == 2 + (if IsNullOrEmpty(o.cssClass) then 0 else 1) + (if o.size == Normal then 0 else 1)
    ensures o.size != Normal ==> r[|r| - 2] == SizeClass("btn-", o.size)
    ensures !IsNullOrEmpty(o.cssClass) ==> r[1] == " " + o.cssClass.value + " "
  {
    [" btn "]
    + (if IsNullOrEmpty(o.cssClass) then [] else [" " + o.cssClass.value + " "])
    + (if o.size == Normal then [] else [SizeClass("btn-", o.size)])
    + [ColorClass("btn-", o.color)]
  }

  /** The `class` values `vs` merged one after the other into `attrs`. */
  function MergeClasses(attrs: Attributes, vs: seq<string>): Attributes
    decreases |vs|
  {
    if vs == [] then attrs else AddOrMerge(MergeClasses(attrs, vs[..|vs| - 1]), "class", vs[|vs| - 1])
  }

  /** The values of `vs` joined by single spaces. */
  function JoinWithSpaces(vs: seq<string>): string
    requires vs != []
    decreases |vs|
  {
    if |vs| == 1 then vs[0] else JoinWithSpaces(vs[..|vs| - 1]) + " " + vs[|vs| - 1]
  }

  /**
    Merging class values one at a time gives the class present (if any)
    followed by all of them, joined by spaces; no other attribute changes.
  */
  lemma {:induction false} MergeClassesJoins(attrs: Attributes, vs: seq<string>)
    requires vs != []
    ensures "class" in MergeClasses(attrs, vs)
    ensures MergeClasses(attrs, vs)["class"] ==
      if "class" in attrs then attrs["class"] + " " + JoinWithSpaces(vs) else JoinWithSpaces(vs)
    ensures forall k :: k != "class" ==> (k in MergeClasses(attrs, vs) <==> k in attrs)
    ensures forall k :: k != "class" && k in attrs ==> MergeClasses(attrs, vs)[k] == attrs[k]
    decreases |vs|
  {
    var init := vs[..|vs| - 1];
    if |vs| == 1 {
      assert init == [];
    } else {
      MergeClassesJoins(attrs, init);
      var last := vs[|vs| - 1];
      assert MergeClasses(attrs, vs) == AddOrMerge(MergeClasses(attrs, init), "class", last);
      assert JoinWithSpaces(vs) == JoinWithSpaces(init) + " " + last;
    }
  }

  lemma ClassAdded(attrs: Attributes, vs: seq<string>, v: string)
    ensures MergeClasses(attrs, vs + [v]) == AddOrMerge(MergeClasses(attrs, vs), "class", v)
  {
    assert (vs + [v])[..|vs|] == vs;
  }

  // ----- the button -----

  /** The icon element, followed by a space. */
  function IconMarkup(iconClass: string): string {
    "<i class=\"" + iconClass + "\"></i> "
  }

  /** The navigation script of a link button. */
  function OnClick(link: string): string {
    " location.href='" + link + "'; "
  }

  /**
    The attributes of the button: the caller's, with the class list added,
    `type="button"` for every kind but a link unless the caller set a type,
    and the navigation script of a link.
  */
  function ButtonAttributes(o: BootstrapButtonOptions, htmlAttributes: Attributes): (r: Attributes)
    ensures forall k :: k in r <==>
      k in htmlAttributes || k == "class" || (k == "type" && o.buttonType != Link) || (k == "onclick" && !IsNullOrWhiteSpace(o.link))
  {
    MergeClassesJoins(htmlAttributes, ClassFragments(o));
    WithLink(o, WithType(o, MergeClasses(htmlAttributes, ClassFragments(o))))
  }

  /** The `type` step: every kind of button but a link. */
  function WithType(o: BootstrapButtonOptions, attrs: Attributes): Attributes {
    if o.buttonType == Link then attrs else AddIfNotContains(attrs, "type", "button")
  }

  /** The `onclick` step: a link that is not blank. */
  function WithLink(o: BootstrapButtonOptions, attrs: Attributes): Attributes {
    if IsNullOrWhiteSpace(o.link) then attrs else AddOrMerge(attrs, "onclick", OnClick(o.link.value))
  }

  /** The class list: the caller's classes, then `btn`, the extra class, the size class and the colour class. */
  lemma ButtonClassList(o: BootstrapButtonOptions, htmlAttributes: Attributes)
    ensures "class" in ButtonAttributes(o, htmlAttributes)
    ensures ButtonAttributes(o, htmlAttributes)["class"] ==
      (if "class" in htmlAttributes then htmlAttributes["class"] + " " else "") + JoinWithSpaces(ClassFragments(o))
  {
    MergeClassesJoins(htmlAttributes, ClassFragments(o));
  }

  /** Every kind of button but a link gets `type="button"`, unless the caller already set a type. */
  lemma ButtonTypeAttribute(o: BootstrapButtonOptions, htmlAttributes: Attributes)
    ensures "type" in htmlAttributes ==>
      ("type" in ButtonAttributes(o, htmlAttributes) && ButtonAttributes(o, htmlAttributes)["type"] == htmlAttributes["type"])
    ensures "type" !in htmlAttributes ==> ("type" in ButtonAttributes(o, htmlAttributes) <==> o.buttonType != Link)
    ensures "type" !in htmlAttributes && o.buttonType != Link ==> ButtonAttributes(o, htmlAttributes)["type"] == "button"
  {
    MergeClassesJoins(htmlAttributes, ClassFragments(o));
  }

  /** A link that is not blank becomes the `onclick` script; otherwise the caller's `onclick` stays as it was. */
  lemma ButtonOnClick(o: BootstrapButtonOptions, htmlAttributes: Attributes)
    ensures !IsNullOrWhiteSpace(o.link) ==>
      ("onclick" in ButtonAttributes(o, htmlAttributes) && ButtonAttributes(o, htmlAttributes)["onclick"] == OnClick(o.link.value))
    ensures IsNullOrWhiteSpace(o.link) ==> ("onclick" in ButtonAttributes(o, htmlAttributes) <==> "onclick" in htmlAttributes)
    ensures IsNullOrWhiteSpace(o.link) && "onclick" in htmlAttributes ==>
      ButtonAttributes(o, htmlAttributes)["onclick"] == htmlAttributes["onclick"]
  {
    MergeClassesJoins(htmlAttributes, ClassFragments(o));
  }

  /** Every other attribute of the caller is kept as it is, and no other is added. */
  lemma ButtonOtherAttributes(o: BootstrapButtonOptions, htmlAttributes: Attributes, k: string)
    requires k != "class" && k != "type" && k != "onclick"
    ensures k in ButtonAttributes(o, htmlAttributes) <==> k in htmlAttributes
    ensures k in htmlAttributes ==> ButtonAttributes(o, htmlAttributes)[k] == htmlAttributes[k]
  {
    MergeClassesJoins(htmlAttributes, ClassFragments(o));
  }

  /** The class steps of the button, in order: `btn`, the extra class when there is one, the size, the colour. */
  method AddButtonClasses(options: BootstrapButtonOptions, htmlAttributes: Attributes) returns (attributes: Attributes)
    ensures attributes == MergeClasses(htmlAttributes, ClassFragments(options))
  {
    attributes := htmlAttributes;
    attributes := AddOrMerge(attributes, "class", " btn ");
    ghost var added: seq<string> := [" btn "];
    assert attributes == MergeClasses(htmlAttributes, added) by {
      ClassAdded(htmlAttributes, [], " btn ");
      assert [] + added == added;
    }
    if !IsNullOrEmpty(options.cssClass) {
      attributes := AddOrMerge(attributes, "class", " " + options.cssClass.value + " ");
      ClassAdded(htmlAttributes, added, " " + options.cssClass.value + " ");
      added := added + [" " + options.cssClass.value + " "];
    }
    assert attributes == MergeClasses(htmlAttributes, added);
    attributes := BuildSizeClass(attributes, "btn-", options.size);
    if options.size != Normal {
      ClassAdded(htmlAttributes, added, SizeClass("btn-", options.size));
      added := added + [SizeClass("btn-", options.size)];
    }
    assert attributes == MergeClasses(htmlAttributes, added);
    attributes := BuildColorClass(attributes, "btn-", options.color);
    ClassAdded(htmlAttributes, added, ColorClass("btn-", options.color));
    added := added + [ColorClass("btn-", options.color)];
    assert added == ClassFragments(options);
  }

  /** The inner HTML: the text, with the icon (when there is one) before it for `Left` and after it for `Right`. */
  method ButtonInnerHtml(options: BootstrapButtonOptions) returns (innerHtml: string)
    requires options.iconDirection in {Left, Right}
    ensures IsNullOrWhiteSpace(options.iconClass) ==> innerHtml == options.text
    ensures !IsNullOrWhiteSpace(options.iconClass) && options.iconDirection == Left ==>
      innerHtml == IconMarkup(options.iconClass.value) + options.text
    ensures !IsNullOrWhiteSpace(options.iconClass) && options.iconDirection == Right ==>
      innerHtml == options.text + IconMarkup(options.iconClass.value)
  {
    innerHtml := "";
    if options.iconDirection == Left {
      if !IsNullOrWhiteSpace(options.iconClass) {
        innerHtml := innerHtml + IconMarkup(options.iconClass.value);
        assert innerHtml == IconMarkup(options.iconClass.value);
      }
    }
    ghost var lead := innerHtml;
    innerHtml := innerHtml + options.text;
    assert lead == [] ==> innerHtml == options.text;
    if options.iconDirection == Right {
      if !IsNullOrWhiteSpace(options.iconClass) {
        innerHtml := innerHtml + IconMarkup(options.iconClass.value);
      }
    }
  }

  /**
    Builds the button for `options` and the caller's attributes. An icon
    above or below the text is refused before any markup is built;
    otherwise the icon (when there is one) comes before the text for `Left`
    and after it for `Right`.
  */
  method BootstrapButton(options: BootstrapButtonOptions, htmlAttributes: Attributes)
    returns (r: Result<ButtonTag, ButtonError>)
    ensures r.Failure? <==> options.iconDirection in {Top, Bottom}
    ensures r.Success? ==> r.value.attributes == ButtonAttributes(options, htmlAttributes)
    ensures r.Success? && IsNullOrWhiteSpace(options.iconClass) ==> r.value.innerHtml == options.text
    ensures r.Success? && !IsNullOrWhiteSpace(options.iconClass) && options.iconDirection == Left ==>
      r.value.innerHtml == IconMarkup(options.iconClass.value) + options.text
    ensures r.Success? && !IsNullOrWhiteSpace(options.iconClass) && options.iconDirection == Right ==>
      r.value.innerHtml == options.text + IconMarkup(options.iconClass.value)
  {
    var attributes := AddButtonClasses(options, htmlAttributes);

    if options.iconDirection == Bottom || options.iconDirection == Top {
      return Result.Failure(IconDirectionOutOfRange);
    }

    var innerHtml := ButtonInnerHtml(options);

    ghost var classes := attributes;
    assert classes == MergeClasses(htmlAttributes, ClassFragments(options));
    match options.buttonType {
      case Button => attributes := AddIfNotContains(attributes, "type", "button");
      case Submit => attributes := AddIfNotContains(attributes, "type", "button");
      case Reset => attributes := AddIfNotContains(attributes, "type", "button");
      case Link =>
    }
    assert attributes == WithType(options, classes);

    if !IsNullOrWhiteSpace(options.link) {
      attributes := AddOrMerge(attributes, "onclick", OnClick(options.link.value));
    }

    assert attributes == WithLink(options, WithType(options, classes));
    // The attributes are merged into the new tag, which has none of its own.
    r := Result.Success(ButtonTag(attributes, innerHtml));
  }
}
