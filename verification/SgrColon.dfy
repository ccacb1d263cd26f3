/** Renditions with sub-parameters: colours and underlines written with colons (ISO 8613-6,
    section 13.1.8), and the colour of the underline. */
module SgrColon {
  import opened Attributes
  import opened Sgr

  // ---- a colour and everything else ----

  /** The colour that 38, 48 and 58 select: of the text, of the background, of the underline. */
  function Selected(target: int, a: Attr): (ColorMode, int) {
    if target == 38 then (a.fg.mode, ColorValue(a.fg.mode, a.fg.color))
    else if target == 48 then (a.bg.mode, ColorValue(a.bg.mode, a.bg.color))
    else (a.ext.mode, ColorValue(a.ext.mode, a.ext.color))
  }

  /** An attribute without the colour that the parameter selects. */
  function Without(target: int, a: Attr): Attr {
    if target == 38 then a.(fg := a.fg.(mode := DefaultColor, color := 0))
    else if target == 48 then a.(bg := a.bg.(mode := DefaultColor, color := 0))
    else a.(ext := a.ext.(mode := DefaultColor, color := 0))
  }

  /** Nothing but that colour differs. */
  predicate OnlyColor(target: int, a: Attr, b: Attr) {
    Without(target, a) == Without(target, b)
  }

  /** The mark that an underline has an extended part says so. */
  predicate MarkAgrees(a: Attr) {
    a.bg.hasExtended == !a.ext.IsEmpty()
  }

  /** Sub-parameter `k`, zero if it is left out. */
  function Sub(own: seq<int>, k: nat): int {
    if k < |own| && own[k] != -1 then own[k] else 0
  }

  /** The colour that sub-parameters describe: 5 and an index, or 2, a colour space and three components. */
  function Described(own: seq<int>, was: (ColorMode, int)): (ColorMode, int) {
    if own != [] && own[0] == 5 then (P256, Sub(own, 1) % 256)
    else if own != [] && own[0] == 2 then (Rgb, PackRgb(Sub(own, 2), Sub(own, 3), Sub(own, 4)))
    else was
  }

  // ---- colons ----

  function Raw(own: seq<int>, k: nat, unset: int): int {
    if k < |own| then own[k] else unset
  }

  /** Where the collecting loop puts the sub-parameters: an index skips the place of the colour space. */
  lemma {:induction false} SubsFill(target: int, own: seq<int>)
    requires IsExtended(target) && own != []
    ensures FillSubs([target, 0, -1, 0, 0, 0], 0, 0, own, 0) ==
            if own[0] == 5 then [target, 5, -1, Raw(own, 1, 0), Raw(own, 2, 0), Raw(own, 3, 0)]
            else [target, own[0], Raw(own, 1, -1), Raw(own, 2, 0), Raw(own, 3, 0), Raw(own, 4, 0)]
  {
    var s0 := [target, 0, -1, 0, 0, 0];
    var s1 := [target, own[0], -1, 0, 0, 0];
    assert s0[1 := own[0]] == s1;
    if |own| > 1 {
      if own[0] == 5 {
        IndexFills(s1, own);
      } else {
        DirectFills(s1, own);
      }
    }
  }

  lemma {:induction false} IndexFills(s1: seq<int>, own: seq<int>)
    requires |s1| == SLOTS && |own| > 1 && s1[1] == 5
    ensures FillSubs(s1, 0, 0, own, 1) ==
            [s1[0], 5, s1[2], own[1], Raw(own, 2, s1[4]), Raw(own, 3, s1[5])]
  {
    var s2 := s1[3 := own[1]];
    if |own| > 2 {
      var s3 := s2[4 := own[2]];
      assert FillSubs(s2, 1, 0, own, 2) ==
             if |own| > 3 then FillSubs(s3, 1, 0, own, 3) else s3;
      if |own| > 3 {
        assert FillSubs(s3, 1, 0, own, 3) == s3[5 := own[3]];
      }
    }
  }

  lemma {:induction false} DirectFills(s1: seq<int>, own: seq<int>)
    requires |s1| == SLOTS && |own| > 1 && s1[1] == own[0] != 5
    ensures FillSubs(s1, 0, 0, own, 1) ==
            [s1[0], s1[1], own[1], Raw(own, 2, s1[3]), Raw(own, 3, s1[4]), Raw(own, 4, s1[5])]
  {
    var s2 := s1[2 := own[1]];
    if |own| > 2 {
      var s3 := s2[3 := own[2]];
      assert FillSubs(s2, 0, 0, own, 2) == if |own| > 3 then FillSubs(s3, 0, 0, own, 3) else s3;
      if |own| > 3 {
        var s4 := s3[4 := own[3]];
        assert FillSubs(s3, 0, 0, own, 3) == if |own| > 4 then FillSubs(s4, 0, 0, own, 4) else s4;
        if |own| > 4 {
          assert FillSubs(s4, 0, 0, own, 4) == s4[5 := own[4]];
        }
      }
    }
  }

  lemma {:induction false} ExtractSubs(values: seq<int>, subs: seq<seq<int>>)
    requires |values| == |subs| > 0 && IsExtended(values[0]) && subs[0] != []
    ensures Extract(values, subs, NO_ACCU) ==
            Accu(FillSubs([values[0], 0, -1, 0, 0, 0], 0, 0, subs[0], 0), 0, 0)
  {
    hide FillSubs;
    assert NO_ACCU.slots[0 := values[0]] == [values[0], 0, -1, 0, 0, 0];
  }

  lemma UpdatedColor(mode: ColorMode, color: Color24, how: int, c1: int, c2: int, c3: int)
    ensures var u := UpdateColor(mode, color, how, c1, c2, c3);
            (u.0, ColorValue(u.0, u.1)) ==
            if how == 2 then (Rgb, PackRgb(c1, c2, c3)) else if how == 5 then (P256, c1 % 256)
            else (mode, ColorValue(mode, color))
  {
    hide PackRgb;
  }

  lemma {:induction false} ColorApplied(slots: seq<int>, a: Attr)
    requires |slots| == SLOTS && IsExtended(slots[0])
    ensures var after := ApplyColor(slots, a);
            && Selected(slots[0], after) ==
               (if slots[1] == 2 then (Rgb, PackRgb(Component(slots, 3), Component(slots, 4), Component(slots, 5)))
                else if slots[1] == 5 then (P256, Component(slots, 3) % 256) else Selected(slots[0], a))
            && (slots[0] != 58 || MarkAgrees(a) ==> OnlyColor(slots[0], after, a))
  {
    hide UpdateColor, PackRgb, ColorValue;
    var c1, c2, c3 := Component(slots, 3), Component(slots, 4), Component(slots, 5);
    UpdatedColor(a.fg.mode, a.fg.color, slots[1], c1, c2, c3);
    UpdatedColor(a.bg.mode, a.bg.color, slots[1], c1, c2, c3);
    UpdatedColor(a.ext.mode, a.ext.color, slots[1], c1, c2, c3);
  }

  /** A colour written with colons, whatever the sub-parameters are: it sets exactly the colour they
      describe, and the reading goes on with the next parameter. */
  lemma {:induction false} ColonColor(target: int, own: seq<int>, rest: seq<int>, restSubs: seq<seq<int>>, a: Attr)
    returns (after: Attr)
    requires IsExtended(target) && own != [] && |rest| == |restSubs|
    ensures Applied([target] + rest, [own] + restSubs, a) == Applied(rest, restSubs, after)
    ensures Selected(target, after) == Described(own, Selected(target, a))
    ensures target != 58 || MarkAgrees(a) ==> OnlyColor(target, after, a)
  {
    hide FillSubs, Extract, ApplyColor, ApplyOne, Selected, OnlyColor, MarkAgrees, PackRgb;
    var values, subs := [target] + rest, [own] + restSubs;
    SubsFill(target, own);
    ExtractSubs(values, subs);
    var slots := FillSubs([target, 0, -1, 0, 0, 0], 0, 0, own, 0);
    ColorApplied(slots, a);
    after := ApplyColor(slots, a);
    assert values[1..] == rest && subs[1..] == restSubs;
  }

  lemma Packed(r: nat, g: nat, b: nat)
    requires r < 256 && g < 256 && b < 256
    ensures PackRgb(r, g, b) == r * 0x1_0000 + g * 0x100 + b
  {
  }

  lemma Shifted(r: nat, g: nat, b: nat)
    requires r < 256 && g < 256 && b < 256
    ensures g * 0x1_0000 + b * 0x100 == r * 0x1_0000 + g * 0x100 + b <==> r == 0 && g == 0 && b == 0
  {
    if g * 0x1_0000 + b * 0x100 == r * 0x1_0000 + g * 0x100 + b {
      assert b == 0x100 * (0x100 * g + b - 0x100 * r - g);
      assert b == 0;
      assert g == 0x100 * (g - r);
    }
  }

  /** The colon forms as they are meant: an index of the palette, and red, green and blue behind the
      place of the colour space. */
  lemma {:induction false} ColonColors(target: int, n: nat, space: int, r: nat, g: nat, b: nat,
                                      rest: seq<int>, restSubs: seq<seq<int>>, a: Attr)
    returns (indexed: Attr, direct: Attr)
    requires IsExtended(target) && |rest| == |restSubs| && n < 256 && r < 256 && g < 256 && b < 256
    ensures Applied([target] + rest, [[5, n]] + restSubs, a) == Applied(rest, restSubs, indexed)
    ensures Applied([target] + rest, [[2, space, r, g, b]] + restSubs, a) == Applied(rest, restSubs, direct)
    ensures Selected(target, indexed) == (P256, n) && Selected(target, direct) == (Rgb, r * 0x1_0000 + g * 0x100 + b)
    ensures target != 58 || MarkAgrees(a) ==> OnlyColor(target, indexed, a) && OnlyColor(target, direct, a)
  {
    hide Applied, Selected, OnlyColor, MarkAgrees, PackRgb;
    Packed(r, g, b);
    indexed := ColonColor(target, [5, n], rest, restSubs, a);
    direct := ColonColor(target, [2, space, r, g, b], rest, restSubs, a);
  }

  /** Without the place of the colour space the components are read one place too far on: the colour
      that is meant comes out exactly if it is black. */
  lemma {:induction false} WithoutColorSpace(target: int, r: nat, g: nat, b: nat, rest: seq<int>,
                                             restSubs: seq<seq<int>>,
                                            a: Attr) returns (after: Attr)
    requires IsExtended(target) && |rest| == |restSubs| && r < 256 && g < 256 && b < 256
    ensures Applied([target] + rest, [[2, r, g, b]] + restSubs, a) == Applied(rest, restSubs, after)
    ensures Selected(target, after) == (Rgb, g * 0x1_0000 + b * 0x100)
    ensures Selected(target, after) == (Rgb, r * 0x1_0000 + g * 0x100 + b) <==> r == 0 && g == 0 && b == 0
    ensures target != 58 || MarkAgrees(a) ==> OnlyColor(target, after, a)
  {
    hide Applied, Selected, OnlyColor, MarkAgrees, PackRgb;
    Packed(g, b, 0);
    Shifted(r, g, b);
    after := ColonColor(target, [2, r, g, b], rest, restSubs, a);
  }

  // ---- semicolons ----

  /** The same colours as parameters of their own, for the underline as well. */
  lemma {:induction false} SemicolonColors(target: int, n: nat, r: nat, g: nat, b: nat, rest: seq<int>, a: Attr)
    returns (indexed: Attr, direct: Attr)
    requires IsExtended(target) && n < 256 && r < 256 && g < 256 && b < 256
    ensures Read([target, 5, n] + rest, a) == Read(rest, indexed)
    ensures Read([target, 2, r, g, b] + rest, a) == Read(rest, direct)
    ensures Selected(target, indexed) == (P256, n) && Selected(target, direct) == (Rgb, r * 0x1_0000 + g * 0x100 + b)
    ensures target != 58 || MarkAgrees(a) ==> OnlyColor(target, indexed, a) && OnlyColor(target, direct, a)
  {
    hide Read, Extract, ApplyColor, Selected, OnlyColor, MarkAgrees, PackRgb;
    Packed(r, g, b);
    ExtractP256(target, n, rest);
    ReadExtended([target, 5, n] + rest, Accu([target, 5, -1, n, 0, 0], 1, 2), rest, a);
    ColorApplied([target, 5, -1, n, 0, 0], a);
    indexed := ApplyColor([target, 5, -1, n, 0, 0], a);
    ExtractRgb(target, r, g, b, rest);
    ReadExtended([target, 2, r, g, b] + rest, Accu([target, 2, -1, r, g, b], 1, 4), rest, a);
    ColorApplied([target, 2, -1, r, g, b], a);
    direct := ApplyColor([target, 2, -1, r, g, b], a);
  }

  // ---- underlines ----

  /** Everything but the underline's style and marks. */
  function Apart(a: Attr): Attr {
    a.(fg := a.fg.(underline := false), bg := a.bg.(hasExtended := false), ext := a.ext.(style := STYLE_NONE))
  }

  /** The underline has style `style` and the marks that belong to it, and nothing else has changed. */
  predicate Underlines(style: nat, after: Attr, a: Attr) {
    && Apart(after) == Apart(a) && after.ext.style == style && after.fg.underline == (style != STYLE_NONE)
    && MarkAgrees(after)
  }

  lemma UnderlineIs(style: int, a: Attr)
    ensures Underlines(if 0 <= style <= 5 then style else STYLE_SINGLE, ProcessUnderline(style, a), a)
  {
  }

  /** Every parameter that sets an underline: 4 with the style as its sub-parameter, single if there is
      none or it is no style, 21 and 24. Without a hyperlink the style shown is just that. */
  lemma {:induction false} UnderlineStyles(p: int, own: seq<int>, rest: seq<int>, restSubs: seq<seq<int>>, a: Attr)
    returns (after: Attr)
    requires p in {4, 21, 24} && |rest| == |restSubs|
    ensures Applied([p] + rest, [own] + restSubs, a) == Applied(rest, restSubs, after)
    ensures var style := if p == 21 then STYLE_DOUBLE else if p == 24 then STYLE_NONE
                         else if own != [] && 0 <= own[0] <= 5 then own[0] else STYLE_SINGLE;
            Underlines(style, after, a) && (a.ext.urlId == 0 ==> after.GetUnderlineStyle() == style)
  {
    hide Extract, ApplyColor, ProcessUnderline;
    assert ([p] + rest)[1..] == rest && ([own] + restSubs)[1..] == restSubs;
    var style := if p == 21 then STYLE_DOUBLE else if p == 24 then STYLE_NONE
                 else if own != [] then own[0] else STYLE_SINGLE;
    UnderlineIs(style, a);
    after := ApplyOne(p, own, a);
  }

  /** 59 gives the underline the colour of the text again, and 0 does so too, ends the underline and all
      other renditions, and leaves the hyperlink. */
  lemma {:induction false} UnderlineColorReset(own: seq<int>, rest: seq<int>, restSubs: seq<seq<int>>, a: Attr)
    returns (plain: Attr, reset: Attr)
    requires |rest| == |restSubs|
    ensures Applied([59] + rest, [own] + restSubs, a) == Applied(rest, restSubs, plain)
    ensures Applied([0] + rest, [own] + restSubs, a) == Applied(rest, restSubs, reset)
    ensures Selected(58, plain) == (DefaultColor, -1) && (MarkAgrees(a) ==> OnlyColor(58, plain, a))
    ensures Selected(58, reset) == (DefaultColor, -1) && reset.ext.style == STYLE_NONE && reset.ext.urlId == a.ext.urlId
    ensures reset.fg == DEFAULT_FG && reset.bg.(hasExtended := false) == DEFAULT_BG && MarkAgrees(reset)
  {
    hide Extract, ApplyColor;
    assert ([59] + rest)[1..] == rest && ([0] + rest)[1..] == rest && ([own] + restSubs)[1..] == restSubs;
    plain := ApplyOne(59, own, a);
    reset := ApplyOne(0, own, a);
  }

  /** Parameters that are none of the renditions do nothing. */
  lemma {:induction false} OthersIgnored(p: int, own: seq<int>, rest: seq<int>, restSubs: seq<seq<int>>, a: Attr)
    requires |rest| == |restSubs| && !(30 <= p <= 49 || 90 <= p <= 97 || 100 <= p <= 107)
    requires p !in {0, 1, 2, 3, 4, 5, 7, 8, 9, 21, 22, 23, 24, 25, 27, 28, 29, 53, 55, 58, 59}
    ensures Applied([p] + rest, [own] + restSubs, a) == Applied(rest, restSubs, a)
  {
    hide Extract, ApplyColor;
    assert ([p] + rest)[1..] == rest && ([own] + restSubs)[1..] == restSubs;
  }
}
