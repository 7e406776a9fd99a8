/**
  The style enumerations of the helper library (ButtonTypes, ColorTypes,
  SizeTypes, DirectionLayout) and the option record of the Bootstrap button.
*/
module Enums {
  import opened Wrappers

  /** Kind of a button; only `Link` leaves the `type` attribute alone. */
  datatype ButtonType = Button | Submit | Reset | Link

  datatype ColorType = Default | Primary | Info | Success | Warning | Danger

  datatype SizeType = XS | SM | Normal | LG | XL

  /** Where an icon sits relative to the button text; the button accepts only Left and Right. */
  datatype DirectionLayout = Left | Right | Top | Bottom

  /** `ColorTypes.ToString().ToLower()`. */
  function ColorName(c: ColorType): string {
    match c
    case Default => "default"
    case Primary => "primary"
    case Info => "info"
    case Success => "success"
    case Warning => "warning"
    case Danger => "danger"
  }

  /** `SizeTypes.ToString().ToLower()`. */
  function SizeName(s: SizeType): string {
    match s
    case XS => "xs"
    case SM => "sm"
    case Normal => "normal"
    case LG => "lg"
    case XL => "xl"
  }

  /**
    Options of a Bootstrap button. A `None` string stands for a null
    reference; `text` is appended as is (a null text appends nothing).
  */
  datatype BootstrapButtonOptions = BootstrapButtonOptions(
    text: string,
    buttonType: ButtonType,
    color: ColorType,
    size: SizeType,
    iconClass: Option<string>,
    iconDirection: DirectionLayout,
    cssClass: Option<string>,
    link: Option<string>)

  /** The option values a freshly constructed BootstrapButtonOptions carries. */
  function DefaultButtonOptions(): (o: BootstrapButtonOptions)
    ensures o.buttonType == Button && o.color == Primary && o.size == Normal && o.iconDirection == Left
    ensures o.iconClass.None? && o.cssClass.None? && o.link.None?
  {
    BootstrapButtonOptions("", Button, Primary, Normal, None, Left, None, None)
  }
}
