/** The attribute words of a cell, field by field: two bits of colour mode, twenty-four of colour,
    and the flags above them. */
module Attributes {

  datatype ColorMode = DefaultColor | P16 | P256 | Rgb

  type Color24 = c: nat | c < 0x100_0000

  datatype Fg = Fg(mode: ColorMode, color: Color24, inverse: bool, bold: bool, underline: bool, blink: bool,
                   invisible: bool, strikethrough: bool)

  datatype Bg = Bg(mode: ColorMode, color: Color24, italic: bool, dim: bool, hasExtended: bool,
                   isProtected: bool, overline: bool)

  const STYLE_NONE := 0
  const STYLE_SINGLE := 1
  const STYLE_DOUBLE := 2
  const STYLE_DASHED := 5

  /** Underline style and colour, and the hyperlink. */
  datatype Ext = Ext(style: nat, mode: ColorMode, color: Color24, urlId: nat) {
    function UnderlineStyle(): nat {
      if urlId != 0 then STYLE_DASHED else style
    }

    predicate IsEmpty() {
      UnderlineStyle() == STYLE_NONE && urlId == 0
    }
  }

  datatype Attr = Attr(fg: Fg, bg: Bg, ext: Ext) {
    predicate IsDefault() {
      fg == DEFAULT_FG && bg == DEFAULT_BG
    }

    /** Nonzero if underlined: 1 from the extended style, the flag bit itself otherwise. */
    function IsUnderline(): nat {
      if bg.hasExtended && ext.UnderlineStyle() != STYLE_NONE then 1
      else if fg.underline then 0x1000_0000
      else 0
    }

    function GetUnderlineStyle(): nat {
      if !fg.underline then STYLE_NONE
      else if bg.hasExtended then ext.UnderlineStyle()
      else STYLE_SINGLE
    }

    /** The underline's own colour, or the foreground's. */
    function UnderlineColor(): (ColorMode, int) {
      if bg.hasExtended && ext.mode != DefaultColor then (ext.mode, ColorValue(ext.mode, ext.color))
      else if bg.hasExtended then (DefaultColor, ColorValue(fg.mode, fg.color))
      else (fg.mode, ColorValue(fg.mode, fg.color))
    }

    function UpdateExtended(): Attr {
      this.(bg := bg.(hasExtended := !ext.IsEmpty()))
    }
  }

  const DEFAULT_FG := Fg(DefaultColor, 0, false, false, false, false, false, false)
  const DEFAULT_BG := Bg(DefaultColor, 0, false, false, false, false, false)
  const EMPTY_EXT := Ext(STYLE_NONE, DefaultColor, 0, 0)
  const DEFAULT_ATTR := Attr(DEFAULT_FG, DEFAULT_BG, EMPTY_EXT)

  /** The colour a word stands for; the bits above a palette index mean nothing. */
  function ColorValue(mode: ColorMode, color: Color24): int {
    match mode
    case DefaultColor => -1
    case P16 => color % 256
    case P256 => color % 256
    case Rgb => color
  }

  predicate EqualFg(a: Attr, b: Attr) {
    a.fg.mode == b.fg.mode && ColorValue(a.fg.mode, a.fg.color) == ColorValue(b.fg.mode, b.fg.color)
  }

  predicate EqualBg(a: Attr, b: Attr) {
    a.bg.mode == b.bg.mode && ColorValue(a.bg.mode, a.bg.color) == ColorValue(b.bg.mode, b.bg.color)
  }

  predicate EqualUnderline(a: Attr, b: Attr) {
    if a.IsUnderline() == 0 && b.IsUnderline() == 0 then true
    else if a.GetUnderlineStyle() != b.GetUnderlineStyle() then false
    else
      var aDefault, bDefault := a.UnderlineColor().0 == DefaultColor, b.UnderlineColor().0 == DefaultColor;
      if aDefault && bDefault then true
      else if aDefault != bDefault then false
      else a.UnderlineColor() == b.UnderlineColor()
  }

  predicate EqualFlags(a: Attr, b: Attr) {
    && a.fg.inverse == b.fg.inverse && a.fg.bold == b.fg.bold
    && a.IsUnderline() == b.IsUnderline() && EqualUnderline(a, b)
    && a.bg.overline == b.bg.overline && a.fg.blink == b.fg.blink && a.fg.invisible == b.fg.invisible
    && a.bg.italic == b.bg.italic && a.bg.dim == b.bg.dim && a.fg.strikethrough == b.fg.strikethrough
  }

  predicate AttributesEquals(a: Attr, b: Attr) {
    EqualFg(a, b) && EqualBg(a, b) && EqualFlags(a, b)
  }

  /** What a cell looks like: its colours and flags. */
  datatype Look = Look(fgMode: ColorMode, fgColor: int, bgMode: ColorMode, bgColor: int,
                       inverse: bool, bold: bool, underline: bool, blink: bool, invisible: bool, strikethrough: bool,
                       italic: bool, dim: bool, overline: bool)

  function Seen(a: Attr): Look {
    Look(a.fg.mode, ColorValue(a.fg.mode, a.fg.color), a.bg.mode, ColorValue(a.bg.mode, a.bg.color),
         a.fg.inverse, a.fg.bold, a.IsUnderline() != 0, a.fg.blink, a.fg.invisible, a.fg.strikethrough,
         a.bg.italic, a.bg.dim, a.bg.overline)
  }

  /** No hyperlink, no underline but a single one in the text's colour; the underline flag, the
      extended flag and the extended style agree. */
  predicate Plain(a: Attr) {
    && a.ext.urlId == 0 && a.ext.mode == DefaultColor
    && (a.fg.underline <==> a.bg.hasExtended) && (a.bg.hasExtended <==> a.ext.style == STYLE_SINGLE)
    && a.ext.style <= STYLE_SINGLE
  }

  /** For plain attributes the serializer's comparison is equality of looks. */
  lemma EqualsIsSameLook(a: Attr, b: Attr)
    requires Plain(a) && Plain(b)
    ensures AttributesEquals(a, b) <==> Seen(a) == Seen(b)
  {
  }

  /** An underline as the comparison sees it: where it comes from, its style, and its own colour. */
  datatype Underline = NotUnderlined | Underlined(flag: nat, style: nat, mode: ColorMode, color: int)

  function ColorOf(mode: ColorMode, color: Color24): (ColorMode, int) {
    if mode == DefaultColor then (DefaultColor, -1) else (mode, ColorValue(mode, color))
  }

  /** An extended underline has its own style, the dashes of a hyperlink before any other, and its own
      colour; a plain one is single, in the colour of the text. */
  function UnderlineOf(a: Attr): Underline {
    var own, text := ColorOf(a.ext.mode, a.ext.color), ColorOf(a.fg.mode, a.fg.color);
    var style := if a.ext.urlId != 0 then STYLE_DASHED else a.ext.style;
    if a.bg.hasExtended && style != STYLE_NONE then
      Underlined(1, if a.fg.underline then style else STYLE_NONE, own.0, own.1)
    else if a.fg.underline then
      if a.bg.hasExtended then Underlined(0x1000_0000, STYLE_NONE, own.0, own.1)
      else Underlined(0x1000_0000, STYLE_SINGLE, text.0, text.1)
    else NotUnderlined
  }

  /** For all attributes it is equality of looks and of underlines. */
  lemma EqualsExactly(a: Attr, b: Attr)
    ensures AttributesEquals(a, b) <==> Seen(a) == Seen(b) && UnderlineOf(a) == UnderlineOf(b)
  {
  }
}
