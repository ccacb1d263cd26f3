/** Select Graphic Rendition: what the parameters do to the current attributes, and the parameters
    the serializer writes to get from one attribute to another (ECMA-48, section 8.3.117). */
module Sgr {
  import opened Attributes

  // ---- reading parameters ----

  function ProcessSgr0(a: Attr): Attr {
    Attr(DEFAULT_FG, DEFAULT_BG, a.ext.(style := STYLE_NONE, mode := DefaultColor, color := 0)).UpdateExtended()
  }

  function ProcessUnderline(style: int, a: Attr): Attr {
    var s := if style < 0 || style > 5 then STYLE_SINGLE else style;
    a.(ext := a.ext.(style := s), fg := a.fg.(underline := s != STYLE_NONE)).UpdateExtended()
  }

  function LowByteTo(color: Color24, byte: nat): Color24
    requires byte < 256
  {
    color - color % 256 + byte
  }

  function PackRgb(r: int, g: int, b: int): Color24 {
    (r % 256) * 0x1_0000 + (g % 256) * 0x100 + b % 256
  }

  function UpdateColor(mode: ColorMode, color: Color24, how: int, c1: int, c2: int, c3: int): (ColorMode, Color24) {
    if how == 2 then (Rgb, PackRgb(c1, c2, c3))
    else if how == 5 then (P256, LowByteTo(color, c1 % 256))
    else (mode, color)
  }

  // The target, the mode, the colour space, and three components.
  const SLOTS := 6

  /** The state of the loop that collects an extended colour. */
  datatype Accu = Accu(slots: seq<int>, colorSpace: nat, advance: nat)

  const NO_ACCU := Accu([0, 0, -1, 0, 0, 0], 0, 0)

  function FillSubs(slots: seq<int>, colorSpace: nat, advance: nat, subs: seq<int>, i: nat): (r: seq<int>)
    requires |slots| == SLOTS && i < |subs|
    ensures |r| == SLOTS
    decreases |subs| - i
  {
    var space := if slots[1] == 5 then 1 else colorSpace;
    var idx := advance + i + 1 + space;
    if idx >= SLOTS then slots
    else
      var filled := slots[idx := subs[i]];
      if i + 1 >= |subs| || idx + 1 >= SLOTS then filled
      else FillSubs(filled, space, advance, subs, i + 1)
  }

  function Extract(values: seq<int>, subs: seq<seq<int>>, a: Accu): (r: Accu)
    requires |values| == |subs| && |a.slots| == SLOTS && a.advance + a.colorSpace < SLOTS && a.advance <= |values|
    ensures |r.slots| == SLOTS && r.advance <= |values|
    decreases |values| - a.advance
  {
    if a.advance >= |values| then a
    else
      var slots := a.slots[a.advance + a.colorSpace := values[a.advance]];
      if subs[a.advance] != [] then
        a.(slots := FillSubs(slots, a.colorSpace, a.advance, subs[a.advance], 0))
      else if (slots[1] == 5 && a.advance + a.colorSpace >= 2) || (slots[1] == 2 && a.advance + a.colorSpace >= 5) then
        a.(slots := slots)
      else
        var next := Accu(slots, if slots[1] != 0 then 1 else a.colorSpace, a.advance + 1);
        if next.advance >= |values| || next.advance + next.colorSpace >= SLOTS then next
        else Extract(values, subs, next)
  }

  function Component(slots: seq<int>, i: nat): int
    requires i < |slots|
  {
    if slots[i] == -1 then 0 else slots[i]
  }

  function ApplyColor(slots: seq<int>, a: Attr): Attr
    requires |slots| == SLOTS
  {
    var c1, c2, c3 := Component(slots, 3), Component(slots, 4), Component(slots, 5);
    if slots[0] == 38 then
      var u := UpdateColor(a.fg.mode, a.fg.color, slots[1], c1, c2, c3);
      a.(fg := a.fg.(mode := u.0, color := u.1))
    else if slots[0] == 48 then
      var u := UpdateColor(a.bg.mode, a.bg.color, slots[1], c1, c2, c3);
      a.(bg := a.bg.(mode := u.0, color := u.1))
    else if slots[0] == 58 then
      var u := UpdateColor(a.ext.mode, a.ext.color, slots[1], c1, c2, c3);
      a.(ext := a.ext.(mode := u.0, color := u.1)).UpdateExtended()
    else a
  }

  predicate IsExtended(p: int) {
    p == 38 || p == 48 || p == 58
  }

  function SetFg16(a: Attr, index: nat): Attr
    requires index < 256
  {
    a.(fg := a.fg.(mode := P16, color := LowByteTo(a.fg.color, index)))
  }

  function SetBg16(a: Attr, index: nat): Attr
    requires index < 256
  {
    a.(bg := a.bg.(mode := P16, color := LowByteTo(a.bg.color, index)))
  }

  /** The parameters that select or reset a colour by themselves. */
  predicate IsColor(p: int) {
    30 <= p <= 37 || 40 <= p <= 47 || 90 <= p <= 97 || 100 <= p <= 107 || p == 39 || p == 49
  }

  function ApplyPlainColor(p: int, a: Attr): Attr {
    if 30 <= p <= 37 then SetFg16(a, p - 30)
    else if 40 <= p <= 47 then SetBg16(a, p - 40)
    else if 90 <= p <= 97 then SetFg16(a, p - 90 + 8)
    else if 100 <= p <= 107 then SetBg16(a, p - 100 + 8)
    else if p == 39 then a.(fg := a.fg.(mode := DefaultColor, color := 0))
    else a.(bg := a.bg.(mode := DefaultColor, color := 0))
  }

  function ApplyFgFlag(p: int, a: Attr): Attr {
    if p == 1 then a.(fg := a.fg.(bold := true))
    else if p == 5 then a.(fg := a.fg.(blink := true))
    else if p == 7 then a.(fg := a.fg.(inverse := true))
    else if p == 8 then a.(fg := a.fg.(invisible := true))
    else if p == 9 then a.(fg := a.fg.(strikethrough := true))
    else if p == 22 then a.(fg := a.fg.(bold := false), bg := a.bg.(dim := false))
    else if p == 25 then a.(fg := a.fg.(blink := false))
    else if p == 27 then a.(fg := a.fg.(inverse := false))
    else if p == 28 then a.(fg := a.fg.(invisible := false))
    else if p == 29 then a.(fg := a.fg.(strikethrough := false))
    else a
  }

  function ApplyBgFlag(p: int, a: Attr): Attr {
    if p == 2 then a.(bg := a.bg.(dim := true))
    else if p == 3 then a.(bg := a.bg.(italic := true))
    else if p == 23 then a.(bg := a.bg.(italic := false))
    else if p == 53 then a.(bg := a.bg.(overline := true))
    else if p == 55 then a.(bg := a.bg.(overline := false))
    else a
  }

  /** A parameter that stands for itself. */
  function ApplyOne(p: int, subs: seq<int>, a: Attr): Attr {
    if IsColor(p) then ApplyPlainColor(p, a)
    else if p == 0 then ProcessSgr0(a)
    else if p == 4 then ProcessUnderline(if subs != [] then subs[0] else STYLE_SINGLE, a)
    else if p == 21 then ProcessUnderline(STYLE_DOUBLE, a)
    else if p == 24 then ProcessUnderline(STYLE_NONE, a)
    else if p == 59 then a.(ext := a.ext.(mode := DefaultColor, color := 0)).UpdateExtended()
    else if p in {2, 3, 23, 53, 55} then ApplyBgFlag(p, a)
    else ApplyFgFlag(p, a)
  }

  /** What a list of parameters, each with its sub-parameters, does to the attributes. */
  function Applied(values: seq<int>, subs: seq<seq<int>>, a: Attr): Attr
    requires |values| == |subs|
    decreases |values|
  {
    if values == [] then a
    else if IsExtended(values[0]) then
      var accu := Extract(values, subs, NO_ACCU);
      var used := if accu.advance < |values| then accu.advance + 1 else |values|;
      Applied(values[used..], subs[used..], ApplyColor(accu.slots, a))
    else Applied(values[1..], subs[1..], ApplyOne(values[0], subs[0], a))
  }

  method CopySubs(slots: seq<int>, colorSpace: nat, advance: nat, subs: seq<int>) returns (r: seq<int>)
    requires |slots| == SLOTS && subs != []
    ensures r == FillSubs(slots, colorSpace, advance, subs, 0)
  {
    r := slots;
    var space := colorSpace;
    var i: nat := 0;
    while true
      invariant |r| == SLOTS && i < |subs|
      invariant FillSubs(slots, colorSpace, advance, subs, 0) == FillSubs(r, space, advance, subs, i)
      decreases |subs| - i
    {
      if r[1] == 5 {
        space := 1;
      }
      var idx := advance + i + 1 + space;
      if idx >= SLOTS {
        break;
      }
      r := r[idx := subs[i]];
      i := i + 1;
      if i >= |subs| || i + advance + 1 + space >= SLOTS {
        break;
      }
    }
  }

  /** Collects the colour that starts at parameter `pos` and applies it; says how many more
      parameters it took. */
  method ExtractColor(values: seq<int>, subs: seq<seq<int>>, pos: nat, attr: Attr) returns (advance: nat, colored: Attr)
    requires |values| == |subs| && pos < |values|
    ensures var accu := Extract(values[pos..], subs[pos..], NO_ACCU);
            advance == accu.advance && colored == ApplyColor(accu.slots, attr)
  {
    hide FillSubs, ApplyColor;
    var slots: seq<int> := [0, 0, -1, 0, 0, 0];
    var colorSpace: nat := 0;
    advance := 0;
    ghost var goal := Extract(values[pos..], subs[pos..], NO_ACCU);
    while pos + advance < |values|
      invariant |slots| == SLOTS && advance + colorSpace < SLOTS && pos + advance <= |values|
      invariant goal == Extract(values[pos..], subs[pos..], Accu(slots, colorSpace, advance))
      decreases |values| - advance
    {
      slots := slots[advance + colorSpace := values[pos + advance]];
      if subs[pos + advance] != [] {
        slots := CopySubs(slots, colorSpace, advance, subs[pos + advance]);
        break;
      }
      if (slots[1] == 5 && advance + colorSpace >= 2) || (slots[1] == 2 && advance + colorSpace >= 5) {
        break;
      }
      if slots[1] != 0 {
        colorSpace := 1;
      }
      advance := advance + 1;
      if advance + pos >= |values| || advance + colorSpace >= SLOTS {
        break;
      }
    }
    assert goal.slots == slots && goal.advance == advance;
    colored := ApplyColor(slots, attr);
  }

  /** The handler of a rendition sequence. */
  method CharAttributes(values: seq<int>, subs: seq<seq<int>>, attr: Attr) returns (after: Attr)
    requires |values| == |subs|
    ensures after == Applied(values, subs, attr)
  {
    hide ApplyOne, Extract, ApplyColor;
    after := attr;
    if |values| == 1 && values[0] == 0 {
      after := ProcessSgr0(after);
      ResetAlone(subs, attr);
      return;
    }
    var i: nat := 0;
    while i < |values|
      invariant 0 <= i <= |values|
      invariant Applied(values, subs, attr) == Applied(values[i..], subs[i..], after)
    {
      var rest, restSubs := values[i..], subs[i..];
      if IsExtended(values[i]) {
        var advance, colored := ExtractColor(values, subs, i, after);
        after := colored;
        var used := if advance < |rest| then advance + 1 else |rest|;
        assert rest[used..] == values[i + used..] && restSubs[used..] == subs[i + used..];
        i := i + used;
      } else {
        after := ApplyOne(values[i], subs[i], after);
        assert rest[1..] == values[i + 1..] && restSubs[1..] == subs[i + 1..];
        i := i + 1;
      }
    }
  }

  lemma ResetAlone(subs: seq<seq<int>>, a: Attr)
    requires |subs| == 1
    ensures Applied([0], subs, a) == ProcessSgr0(a)
  {
    assert [0][1..] == [];
  }

  // ---- writing parameters ----

  /** The parameters that select a colour: `base` is 30 for the foreground, 40 for the background. */
  function ColorParams(base: int, mode: ColorMode, color: Color24): seq<int> {
    var value := ColorValue(mode, color);
    match mode
    case Rgb => [base + 8, 2, value / 0x1_0000 % 256, value / 0x100 % 256, value % 256]
    case DefaultColor => [base + 9]
    case _ =>
      if value >= 16 then [base + 8, 5, value]
      else if value >= 8 then [base + 60 + value % 8]
      else [base + value % 8]
  }

  function FlagParam(now: bool, was: bool, on: int, off: int): seq<int> {
    if now == was then [] else if now then [on] else [off]
  }

  function UnderlineParam(now: nat, was: nat): seq<int> {
    if now == was then [] else if now != 0 then [4] else [24]
  }

  function LastFlagParams(cell: Attr, was: Attr): seq<int> {
    FlagParam(cell.fg.blink, was.fg.blink, 5, 25)
    + (FlagParam(cell.fg.invisible, was.fg.invisible, 8, 28)
    + (FlagParam(cell.bg.italic, was.bg.italic, 3, 23)
    + (FlagParam(cell.bg.dim, was.bg.dim, 2, 22)
    + FlagParam(cell.fg.strikethrough, was.fg.strikethrough, 9, 29))))
  }

  function FlagParams(cell: Attr, was: Attr): seq<int> {
    FlagParam(cell.fg.inverse, was.fg.inverse, 7, 27)
    + (FlagParam(cell.fg.bold, was.fg.bold, 1, 22)
    + (UnderlineParam(cell.IsUnderline(), was.IsUnderline())
    + (FlagParam(cell.bg.overline, was.bg.overline, 53, 55)
    + LastFlagParams(cell, was))))
  }

  /** The parameters that lead from the attributes of `was` to those of `cell`. */
  function DiffStyle(cell: Attr, was: Attr): seq<int> {
    if AttributesEquals(cell, was) then []
    else if cell.IsDefault() then if was.IsDefault() then [] else [0]
    else
      (if EqualFg(cell, was) then [] else ColorParams(30, cell.fg.mode, cell.fg.color))
      + ((if EqualBg(cell, was) then [] else ColorParams(40, cell.bg.mode, cell.bg.color))
      + (if EqualFlags(cell, was) then [] else FlagParams(cell, was)))
  }

  // ---- writing and reading again ----

  function NoSubs(n: nat): seq<seq<int>> {
    seq(n, _ => [])
  }

  /** Plain parameters, without sub-parameters. */
  function Read(values: seq<int>, a: Attr): Attr {
    Applied(values, NoSubs(|values|), a)
  }

  lemma {:induction false} ReadOne(p: int, rest: seq<int>, a: Attr)
    requires !IsExtended(p)
    ensures Read([p] + rest, a) == Read(rest, ApplyOne(p, [], a))
  {
    hide ApplyOne, Extract;
    assert ([p] + rest)[1..] == rest;
    assert NoSubs(|[p] + rest|)[1..] == NoSubs(|rest|);
  }

  lemma {:induction false} ReadNothing(a: Attr)
    ensures Read([], a) == a
  {
  }

  /** A turn of the collecting loop that goes on. */
  lemma {:induction false} ExtractGoesOn(values: seq<int>, a: Accu, next: Accu)
    requires |a.slots| == SLOTS && a.advance + 1 < |values| && next.advance + next.colorSpace < SLOTS
    requires a.advance + a.colorSpace < SLOTS && next.slots == a.slots[a.advance + a.colorSpace := values[a.advance]]
    requires next.advance == a.advance + 1 && next.colorSpace == if next.slots[1] != 0 then 1 else a.colorSpace
    requires !(next.slots[1] == 5 && a.advance + a.colorSpace >= 2)
    requires !(next.slots[1] == 2 && a.advance + a.colorSpace >= 5)
    ensures Extract(values, NoSubs(|values|), a) == Extract(values, NoSubs(|values|), next)
  {
  }

  lemma {:induction false} ExtractP256(target: int, index: int, rest: seq<int>)
    requires IsExtended(target)
    ensures var values := [target, 5, index] + rest;
            Extract(values, NoSubs(|values|), NO_ACCU) == Accu([target, 5, -1, index, 0, 0], 1, 2)
  {
    var values := [target, 5, index] + rest;
    var a1, a2 := Accu([target, 0, -1, 0, 0, 0], 0, 1), Accu([target, 5, -1, 0, 0, 0], 1, 2);
    assert NO_ACCU.slots[0 := target] == a1.slots && a1.slots[1 := 5] == a2.slots;
    ExtractGoesOn(values, NO_ACCU, a1);
    ExtractGoesOn(values, a1, a2);
    assert a2.slots[3 := index] == [target, 5, -1, index, 0, 0];
  }

  lemma {:induction false} ExtractRgb(target: int, r: int, g: int, b: int, rest: seq<int>)
    requires IsExtended(target)
    ensures var values := [target, 2, r, g, b] + rest;
            Extract(values, NoSubs(|values|), NO_ACCU) == Accu([target, 2, -1, r, g, b], 1, 4)
  {
    var values := [target, 2, r, g, b] + rest;
    var a1, a2 := Accu([target, 0, -1, 0, 0, 0], 0, 1), Accu([target, 2, -1, 0, 0, 0], 1, 2);
    var a3, a4 := Accu([target, 2, -1, r, 0, 0], 1, 3), Accu([target, 2, -1, r, g, 0], 1, 4);
    assert NO_ACCU.slots[0 := target] == a1.slots && a1.slots[1 := 2] == a2.slots;
    assert a2.slots[3 := r] == a3.slots && a3.slots[4 := g] == a4.slots;
    ExtractGoesOn(values, NO_ACCU, a1);
    ExtractGoesOn(values, a1, a2);
    ExtractGoesOn(values, a2, a3);
    ExtractGoesOn(values, a3, a4);
    assert a4.slots[5 := b] == [target, 2, -1, r, g, b];
  }

  lemma {:induction false} ReadExtended(values: seq<int>, accu: Accu, rest: seq<int>, a: Attr)
    requires values != [] && IsExtended(values[0]) && accu == Extract(values, NoSubs(|values|), NO_ACCU)
    requires accu.advance < |values| && values[accu.advance + 1..] == rest
    ensures Read(values, a) == Read(rest, ApplyColor(accu.slots, a))
  {
    hide ApplyOne, Extract, ApplyColor;
    assert NoSubs(|values|)[accu.advance + 1..] == NoSubs(|rest|);
  }

  /** The part of an attribute that `base` selects shows this colour. */
  predicate Shows(base: int, a: Attr, mode: ColorMode, color: Color24) {
    if base == 30 then a.fg.mode == mode && ColorValue(a.fg.mode, a.fg.color) == ColorValue(mode, color)
    else a.bg.mode == mode && ColorValue(a.bg.mode, a.bg.color) == ColorValue(mode, color)
  }

  /** Nothing but that colour differs. */
  predicate SameBut(base: int, a: Attr, b: Attr) {
    a.ext == b.ext
    && if base == 30 then a.bg == b.bg && a.fg == b.fg.(mode := a.fg.mode, color := a.fg.color)
       else a.fg == b.fg && a.bg == b.bg.(mode := a.bg.mode, color := a.bg.color)
  }

  /** The colours that come back: a palette mode has to match the size of its index. */
  predicate Writable(mode: ColorMode, color: Color24) {
    (mode == P16 ==> color % 256 < 16) && (mode == P256 ==> color % 256 >= 16)
  }

  lemma RgbComponents(color: Color24)
    ensures PackRgb(color / 0x1_0000 % 256, color / 0x100 % 256, color % 256) == color
  {
    var high := color / 0x100;
    assert color / 0x1_0000 == high / 0x100;
    assert high / 0x100 < 256;
    assert high / 0x100 * 0x1_0000 + high % 0x100 * 0x100 == high * 0x100;
  }

  lemma {:induction false} ReadRgb(base: int, color: Color24, rest: seq<int>, a: Attr) returns (after: Attr)
    requires base == 30 || base == 40
    ensures Read(ColorParams(base, Rgb, color) + rest, a) == Read(rest, after)
    ensures SameBut(base, after, a) && Shows(base, after, Rgb, color)
  {
    hide Read, Extract;
    var r, g, b := color / 0x1_0000 % 256, color / 0x100 % 256, color % 256;
    ExtractRgb(base + 8, r, g, b, rest);
    RgbComponents(color);
    hide PackRgb;
    after := ApplyColor([base + 8, 2, -1, r, g, b], a);
    ReadExtended(ColorParams(base, Rgb, color) + rest, Accu([base + 8, 2, -1, r, g, b], 1, 4), rest, a);
  }

  lemma PaletteApplied(base: int, mode: ColorMode, color: Color24, a: Attr)
    requires base == 30 || base == 40
    requires mode == P16 || mode == P256
    ensures var after := ApplyColor([base + 8, 5, -1, color % 256, 0, 0], a);
            SameBut(base, after, a) && (Shows(base, after, mode, color) <==> mode == P256)
  {
  }

  lemma {:induction false} ReadPalette(base: int, mode: ColorMode, color: Color24, rest: seq<int>, a: Attr)
    returns (after: Attr)
    requires base == 30 || base == 40
    requires (mode == P16 || mode == P256) && color % 256 >= 16
    ensures Read(ColorParams(base, mode, color) + rest, a) == Read(rest, after)
    ensures SameBut(base, after, a) && (Shows(base, after, mode, color) <==> mode == P256)
  {
    hide Read, Extract, ApplyColor, SameBut, Shows;
    var value := color % 256;
    ExtractP256(base + 8, value, rest);
    after := ApplyColor([base + 8, 5, -1, value, 0, 0], a);
    PaletteApplied(base, mode, color, a);
    ReadExtended(ColorParams(base, mode, color) + rest, Accu([base + 8, 5, -1, value, 0, 0], 1, 2), rest, a);
  }

  /** The sixteen basic colours, and the default one, take a single parameter. */
  lemma PlainColorShows(base: int, mode: ColorMode, color: Color24, a: Attr)
    requires base == 30 || base == 40
    requires mode == DefaultColor || (mode != Rgb && color % 256 < 16)
    ensures var p := ColorParams(base, mode, color)[0];
            && |ColorParams(base, mode, color)| == 1 && IsColor(p) && SameBut(base, ApplyPlainColor(p, a), a)
            && (Shows(base, ApplyPlainColor(p, a), mode, color) <==> mode != P256)
  {
  }

  lemma {:induction false} ReadColor(base: int, mode: ColorMode, color: Color24, rest: seq<int>, a: Attr)
    returns (after: Attr)
    requires base == 30 || base == 40
    ensures Read(ColorParams(base, mode, color) + rest, a) == Read(rest, after)
    ensures SameBut(base, after, a)
    ensures Shows(base, after, mode, color) <==> Writable(mode, color)
  {
    hide Read, ApplyPlainColor, ApplyFgFlag, ApplyBgFlag, ProcessSgr0, ProcessUnderline, SameBut, Shows;
    var params := ColorParams(base, mode, color);
    if mode == Rgb {
      after := ReadRgb(base, color, rest, a);
    } else if mode != DefaultColor && color % 256 >= 16 {
      after := ReadPalette(base, mode, color, rest, a);
    } else {
      ReadOne(params[0], rest, a);
      after := ApplyPlainColor(params[0], a);
      PlainColorShows(base, mode, color, a);
    }
  }

  /** The switch for bold off also switches dim off, and the other way round. */
  predicate DimSurvives(cell: Attr, was: Attr) {
    && !(was.bg.dim && !cell.bg.dim && cell.fg.bold)
    && !(was.bg.dim && cell.bg.dim && was.fg.bold && !cell.fg.bold)
  }

  /** The attributes after each parameter of the flags. */
  function Switched(now: bool, was: bool, on: int, off: int, a: Attr): Attr {
    if now == was then a else ApplyOne(if now then on else off, [], a)
  }

  function UnderlineSwitched(now: nat, was: nat, a: Attr): Attr {
    if now == was then a else ApplyOne(if now != 0 then 4 else 24, [], a)
  }

  lemma {:induction false} ReadFlag(now: bool, was: bool, on: int, off: int, rest: seq<int>, a: Attr)
    requires !IsExtended(on) && !IsExtended(off)
    ensures Read(FlagParam(now, was, on, off) + rest, a) ==
            Read(rest, Switched(now, was, on, off, a))
  {
    hide Read, ApplyOne;
    if now == was {
      assert [] + rest == rest;
    } else {
      ReadOne(if now then on else off, rest, a);
    }
  }

  lemma {:induction false} ReadUnderline(now: nat, was: nat, rest: seq<int>, a: Attr)
    ensures Read(UnderlineParam(now, was) + rest, a) ==
            Read(rest, UnderlineSwitched(now, was, a))
  {
    hide Read, ApplyOne;
    if now == was {
      assert [] + rest == rest;
    } else {
      ReadOne(if now != 0 then 4 else 24, rest, a);
    }
  }

  function FirstFlags(cell: Attr, was: Attr, a: Attr): Attr {
    var a1 := Switched(cell.fg.inverse, was.fg.inverse, 7, 27, a);
    var a2 := Switched(cell.fg.bold, was.fg.bold, 1, 22, a1);
    var a3 := UnderlineSwitched(cell.IsUnderline(), was.IsUnderline(), a2);
    Switched(cell.bg.overline, was.bg.overline, 53, 55, a3)
  }

  function LastFlags(cell: Attr, was: Attr, a: Attr): Attr {
    var a5 := Switched(cell.fg.blink, was.fg.blink, 5, 25, a);
    var a6 := Switched(cell.fg.invisible, was.fg.invisible, 8, 28, a5);
    var a7 := Switched(cell.bg.italic, was.bg.italic, 3, 23, a6);
    DimAndStrike(cell, was, a7)
  }

  function DimAndStrike(cell: Attr, was: Attr, a: Attr): Attr {
    Switched(cell.fg.strikethrough, was.fg.strikethrough, 9, 29, Switched(cell.bg.dim, was.bg.dim, 2, 22, a))
  }

  lemma {:induction false} ReadLastFlags(cell: Attr, was: Attr, a: Attr)
    ensures Read(LastFlagParams(cell, was), a) == LastFlags(cell, was, a)
  {
    hide Read, ApplyOne, FlagParam, Switched;
    var p6 := FlagParam(cell.fg.invisible, was.fg.invisible, 8, 28);
    var p7 := FlagParam(cell.bg.italic, was.bg.italic, 3, 23);
    var p8 := FlagParam(cell.bg.dim, was.bg.dim, 2, 22);
    var p9 := FlagParam(cell.fg.strikethrough, was.fg.strikethrough, 9, 29);
    ReadFlag(cell.fg.blink, was.fg.blink, 5, 25, p6 + (p7 + (p8 + p9)), a);
    var a5 := Switched(cell.fg.blink, was.fg.blink, 5, 25, a);
    ReadFlag(cell.fg.invisible, was.fg.invisible, 8, 28, p7 + (p8 + p9), a5);
    var a6 := Switched(cell.fg.invisible, was.fg.invisible, 8, 28, a5);
    ReadFlag(cell.bg.italic, was.bg.italic, 3, 23, p8 + p9, a6);
    var a7 := Switched(cell.bg.italic, was.bg.italic, 3, 23, a6);
    ReadFlag(cell.bg.dim, was.bg.dim, 2, 22, p9, a7);
    var a8 := Switched(cell.bg.dim, was.bg.dim, 2, 22, a7);
    ReadFlag(cell.fg.strikethrough, was.fg.strikethrough, 9, 29, [], a8);
    assert p9 + [] == p9;
    ReadNothing(Switched(cell.fg.strikethrough, was.fg.strikethrough, 9, 29, a8));
  }

  lemma {:induction false} ReadFlags(cell: Attr, was: Attr, a: Attr)
    ensures Read(FlagParams(cell, was), a) == LastFlags(cell, was, FirstFlags(cell, was, a))
  {
    hide Read, ApplyOne, FlagParam, UnderlineParam, LastFlagParams, LastFlags, Switched, UnderlineSwitched,
         Attr.IsUnderline;
    var p2 := FlagParam(cell.fg.bold, was.fg.bold, 1, 22);
    var p3 := UnderlineParam(cell.IsUnderline(), was.IsUnderline());
    var p4 := FlagParam(cell.bg.overline, was.bg.overline, 53, 55);
    var p5 := LastFlagParams(cell, was);
    ReadFlag(cell.fg.inverse, was.fg.inverse, 7, 27, p2 + (p3 + (p4 + p5)), a);
    var a1 := Switched(cell.fg.inverse, was.fg.inverse, 7, 27, a);
    ReadFlag(cell.fg.bold, was.fg.bold, 1, 22, p3 + (p4 + p5), a1);
    var a2 := Switched(cell.fg.bold, was.fg.bold, 1, 22, a1);
    ReadUnderline(cell.IsUnderline(), was.IsUnderline(), p4 + p5, a2);
    var a3 := UnderlineSwitched(cell.IsUnderline(), was.IsUnderline(), a2);
    ReadFlag(cell.bg.overline, was.bg.overline, 53, 55, p5, a3);
    ReadLastFlags(cell, was, Switched(cell.bg.overline, was.bg.overline, 53, 55, a3));
  }

  // ---- the inverse ----

  /** An attribute the serializer can describe: no hyperlink, no underline but a plain single one. */
  predicate Describable(cell: Attr) {
    && cell.ext.urlId == 0 && cell.ext.style <= STYLE_SINGLE
    && (cell.IsUnderline() != 0 <==> cell.fg.underline)
  }

  /** The flags of `a` look like those of `b`. */
  predicate SameFlags(a: Attr, b: Attr) {
    && a.fg.inverse == b.fg.inverse && a.fg.bold == b.fg.bold && (a.IsUnderline() != 0 <==> b.IsUnderline() != 0)
    && a.bg.overline == b.bg.overline && a.fg.blink == b.fg.blink && a.fg.invisible == b.fg.invisible
    && a.bg.italic == b.bg.italic && a.bg.dim == b.bg.dim && a.fg.strikethrough == b.fg.strikethrough
  }

  predicate SameColors(a: Attr, b: Attr) {
    && a.fg.mode == b.fg.mode && a.fg.color == b.fg.color && a.bg.mode == b.bg.mode && a.bg.color == b.bg.color
  }

  // Setting one flag.

  function SetInverse(a: Attr, now: bool): Attr {
    a.(fg := a.fg.(inverse := now))
  }

  function SetBlink(a: Attr, now: bool): Attr {
    a.(fg := a.fg.(blink := now))
  }

  function SetInvisible(a: Attr, now: bool): Attr {
    a.(fg := a.fg.(invisible := now))
  }

  function SetStrike(a: Attr, now: bool): Attr {
    a.(fg := a.fg.(strikethrough := now))
  }

  function SetOverline(a: Attr, now: bool): Attr {
    a.(bg := a.bg.(overline := now))
  }

  function SetItalic(a: Attr, now: bool): Attr {
    a.(bg := a.bg.(italic := now))
  }

  // What each pair of switches does.

  lemma InverseSwitch(now: bool, was: bool, a: Attr)
    requires a.fg.inverse == was
    ensures Switched(now, was, 7, 27, a) == SetInverse(a, now)
  {
  }

  lemma BlinkSwitch(now: bool, was: bool, a: Attr)
    requires a.fg.blink == was
    ensures Switched(now, was, 5, 25, a) == SetBlink(a, now)
  {
  }

  lemma InvisibleSwitch(now: bool, was: bool, a: Attr)
    requires a.fg.invisible == was
    ensures Switched(now, was, 8, 28, a) == SetInvisible(a, now)
  {
  }

  lemma StrikeSwitch(now: bool, was: bool, a: Attr)
    requires a.fg.strikethrough == was
    ensures Switched(now, was, 9, 29, a) == SetStrike(a, now)
  {
  }

  lemma OverlineSwitch(now: bool, was: bool, a: Attr)
    requires a.bg.overline == was
    ensures Switched(now, was, 53, 55, a) == SetOverline(a, now)
  {
  }

  lemma ItalicSwitch(now: bool, was: bool, a: Attr)
    requires a.bg.italic == was
    ensures Switched(now, was, 3, 23, a) == SetItalic(a, now)
  {
  }

  function SetBoldDim(a: Attr, bold: bool, dim: bool): Attr {
    a.(fg := a.fg.(bold := bold), bg := a.bg.(dim := dim))
  }

  function SetUnderline(a: Attr, now: bool): Attr {
    a.(fg := a.fg.(underline := now), bg := a.bg.(hasExtended := now),
       ext := a.ext.(style := if now then STYLE_SINGLE else STYLE_NONE))
  }

  lemma BoldSwitch(now: bool, was: bool, a: Attr)
    requires a.fg.bold == was
    ensures Switched(now, was, 1, 22, a) == SetBoldDim(a, now, a.bg.dim && !(was && !now))
  {
  }

  lemma DimSwitch(now: bool, was: bool, a: Attr)
    ensures Switched(now, was, 2, 22, a) ==
            SetBoldDim(a, a.fg.bold && !(was && !now), if now == was then a.bg.dim else now)
  {
  }

  lemma {:induction false} UnderlineSwitch(now: nat, was: nat, a: Attr)
    requires Plain(a) && (a.IsUnderline() != 0 <==> was != 0)
    ensures UnderlineSwitched(now, was, a) == SetUnderline(a, now != 0)
  {
    hide ProcessUnderline;
    UnderlineProcessed(STYLE_SINGLE, a);
    UnderlineProcessed(STYLE_NONE, a);
  }

  lemma UnderlineProcessed(style: nat, a: Attr)
    requires style <= STYLE_SINGLE && Plain(a)
    ensures ProcessUnderline(style, a) == SetUnderline(a, style == STYLE_SINGLE)
  {
  }

  lemma {:induction false} InverseAndBold(cell: Attr, was: Attr, a: Attr)
    requires Plain(a) && SameFlags(a, was)
    ensures var dim := was.bg.dim && !(was.fg.bold && !cell.fg.bold);
            var a2 := SetBoldDim(SetInverse(a, cell.fg.inverse), cell.fg.bold, dim);
            && Switched(cell.fg.bold, was.fg.bold, 1, 22, Switched(cell.fg.inverse, was.fg.inverse, 7, 27, a)) == a2
            && Plain(a2) && a2.IsUnderline() == a.IsUnderline() && a2.bg.overline == a.bg.overline
  {
    hide Switched, Attr.IsUnderline, Plain;
    InverseSwitch(cell.fg.inverse, was.fg.inverse, a);
    var a1 := SetInverse(a, cell.fg.inverse);
    BoldSwitch(cell.fg.bold, was.fg.bold, a1);
    SameUnderline(a, SetBoldDim(a1, cell.fg.bold, a1.bg.dim && !(was.fg.bold && !cell.fg.bold)));
  }

  lemma {:induction false} FirstFlagsLead(cell: Attr, was: Attr, a: Attr)
    requires Plain(a) && SameFlags(a, was)
    ensures FirstFlags(cell, was, a) ==
            SetOverline(SetUnderline(SetBoldDim(SetInverse(a, cell.fg.inverse),
                                                cell.fg.bold, was.bg.dim && !(was.fg.bold && !cell.fg.bold)),
                                     cell.IsUnderline() != 0),
                        cell.bg.overline)
  {
    hide Switched, UnderlineSwitched, Attr.IsUnderline, Plain, SetUnderline, SetBoldDim, SetInverse;
    var a2 := SetBoldDim(SetInverse(a, cell.fg.inverse), cell.fg.bold, was.bg.dim && !(was.fg.bold && !cell.fg.bold));
    InverseAndBold(cell, was, a);
    UnderlineSwitch(cell.IsUnderline(), was.IsUnderline(), a2);
    UnderlineKeepsOverline(a2, cell.IsUnderline() != 0);
    OverlineSwitch(cell.bg.overline, was.bg.overline, SetUnderline(a2, cell.IsUnderline() != 0));
  }

  lemma {:induction false} FirstFlagsFields(cell: Attr, was: Attr, a: Attr)
    requires Plain(a) && SameFlags(a, was)
    ensures var b := FirstFlags(cell, was, a);
            && Plain(b) && SameColors(b, a)
            && b.fg.inverse == cell.fg.inverse && b.fg.bold == cell.fg.bold && b.bg.overline == cell.bg.overline
            && (b.IsUnderline() != 0 <==> cell.IsUnderline() != 0)
            && b.bg.dim == (was.bg.dim && !(was.fg.bold && !cell.fg.bold))
            && b.fg.blink == was.fg.blink && b.fg.invisible == was.fg.invisible && b.bg.italic == was.bg.italic
            && b.fg.strikethrough == was.fg.strikethrough
  {
    hide FirstFlags;
    FirstFlagsLead(cell, was, a);
  }

  lemma SameUnderline(a: Attr, b: Attr)
    requires a.ext == b.ext && a.fg.underline == b.fg.underline && a.bg.hasExtended == b.bg.hasExtended
    ensures a.IsUnderline() == b.IsUnderline() && Plain(a) == Plain(b)
  {
  }

  lemma UnderlineKeepsOverline(a: Attr, now: bool)
    ensures SetUnderline(a, now).bg.overline == a.bg.overline
  {
  }

  lemma {:induction false} DimAndStrikeLead(cell: Attr, was: Attr, a: Attr)
    requires a.fg.strikethrough == was.fg.strikethrough
    ensures DimAndStrike(cell, was, a) ==
            SetStrike(SetBoldDim(a, a.fg.bold && !(was.bg.dim && !cell.bg.dim),
                                 if cell.bg.dim == was.bg.dim then a.bg.dim else cell.bg.dim),
                      cell.fg.strikethrough)
  {
    hide Switched;
    DimSwitch(cell.bg.dim, was.bg.dim, a);
    StrikeSwitch(cell.fg.strikethrough, was.fg.strikethrough, Switched(cell.bg.dim, was.bg.dim, 2, 22, a));
  }

  lemma {:induction false} LastFlagsLead(cell: Attr, was: Attr, a: Attr)
    requires a.fg.blink == was.fg.blink && a.fg.invisible == was.fg.invisible && a.bg.italic == was.bg.italic
    requires a.fg.strikethrough == was.fg.strikethrough
    ensures LastFlags(cell, was, a) ==
            DimAndStrike(cell, was, SetItalic(SetInvisible(SetBlink(a, cell.fg.blink), cell.fg.invisible),
                                              cell.bg.italic))
  {
    hide Switched, DimAndStrike;
    var a5 := Switched(cell.fg.blink, was.fg.blink, 5, 25, a);
    BlinkSwitch(cell.fg.blink, was.fg.blink, a);
    var a6 := Switched(cell.fg.invisible, was.fg.invisible, 8, 28, a5);
    InvisibleSwitch(cell.fg.invisible, was.fg.invisible, a5);
    ItalicSwitch(cell.bg.italic, was.bg.italic, a6);
  }

  lemma {:induction false} LastFlagsFields(cell: Attr, was: Attr, b: Attr)
    requires b.fg.blink == was.fg.blink && b.fg.invisible == was.fg.invisible && b.bg.italic == was.bg.italic
    requires b.fg.strikethrough == was.fg.strikethrough
    ensures var after := LastFlags(cell, was, b);
            && after.ext == b.ext && after.fg.underline == b.fg.underline && after.bg.hasExtended == b.bg.hasExtended
            && SameColors(after, b) && after.fg.inverse == b.fg.inverse && after.bg.overline == b.bg.overline
            && after.fg.blink == cell.fg.blink && after.fg.invisible == cell.fg.invisible
            && after.bg.italic == cell.bg.italic && after.fg.strikethrough == cell.fg.strikethrough
            && after.fg.bold == (b.fg.bold && !(was.bg.dim && !cell.bg.dim))
            && after.bg.dim == if cell.bg.dim == was.bg.dim then b.bg.dim else cell.bg.dim
  {
    hide LastFlags, DimAndStrike;
    LastFlagsLead(cell, was, b);
    DimAndStrikeLead(cell, was, SetItalic(SetInvisible(SetBlink(b, cell.fg.blink), cell.fg.invisible), cell.bg.italic));
  }

  lemma {:induction false} FlagsLead(cell: Attr, was: Attr, a: Attr)
    requires Plain(a) && SameFlags(a, was) && Describable(cell)
    ensures var after := LastFlags(cell, was, FirstFlags(cell, was, a));
            Plain(after) && SameColors(after, a) && (SameFlags(after, cell) <==> DimSurvives(cell, was))
  {
    hide FirstFlags, LastFlags, Attr.IsUnderline;
    FirstFlagsFields(cell, was, a);
    var b := FirstFlags(cell, was, a);
    LastFlagsFields(cell, was, b);
    SameUnderline(b, LastFlags(cell, was, b));
  }

  /** What `DiffStyle` can express: palette modes that fit their index, and no dim that a switch takes away. */
  predicate Expressible(cell: Attr, was: Attr) {
    || Seen(cell) == Seen(was)
    || cell.IsDefault()
    || ((EqualFg(cell, was) || Writable(cell.fg.mode, cell.fg.color))
        && (EqualBg(cell, was) || Writable(cell.bg.mode, cell.bg.color))
        && DimSurvives(cell, was))
  }

  lemma {:induction false} ReadMaybeColor(skip: bool, base: int, mode: ColorMode, color: Color24, rest: seq<int>,
                                          a: Attr)
    returns (after: Attr)
    requires base == 30 || base == 40
    requires skip ==> Shows(base, a, mode, color)
    ensures Read((if skip then [] else ColorParams(base, mode, color)) + rest, a) == Read(rest, after)
    ensures SameBut(base, after, a)
    ensures Shows(base, after, mode, color) <==> skip || Writable(mode, color)
  {
    if skip {
      assert [] + rest == rest;
      after := a;
    } else {
      hide *;
      after := ReadColor(base, mode, color, rest, a);
    }
  }

  /** When the flags are equal there is nothing to switch. */
  lemma {:induction false} EqualFlagsLead(cell: Attr, was: Attr, a: Attr)
    requires EqualFlags(cell, was) && Plain(a) && SameFlags(a, was) && Describable(cell)
    ensures SameFlags(a, cell) && DimSurvives(cell, was)
  {
  }

  lemma {:induction false} ReadMaybeFlags(cell: Attr, was: Attr, a: Attr) returns (after: Attr)
    requires Plain(a) && SameFlags(a, was) && Describable(cell)
    ensures Read(if EqualFlags(cell, was) then [] else FlagParams(cell, was), a) == after
    ensures Plain(after) && SameColors(after, a) && (SameFlags(after, cell) <==> DimSurvives(cell, was))
  {
    hide Read, Plain, SameFlags, Describable, SameColors, DimSurvives, EqualFlags, FlagParams;
    if EqualFlags(cell, was) {
      after := a;
      ReadNothing(a);
      EqualFlagsLead(cell, was, a);
      ColorsOfItself(a);
    } else {
      after := LastFlags(cell, was, FirstFlags(cell, was, a));
      ReadFlags(cell, was, a);
      FlagsLead(cell, was, a);
    }
  }

  lemma ColorsOfItself(a: Attr)
    ensures SameColors(a, a)
  {
  }

  lemma FlagsStay(cell: Attr, was: Attr, a: Attr, a1: Attr, a2: Attr)
    requires Plain(a) && Seen(a) == Seen(was) && SameBut(30, a1, a) && SameBut(40, a2, a1)
    ensures Plain(a2) && SameFlags(a2, was)
    ensures EqualFg(cell, was) ==> Shows(30, a, cell.fg.mode, cell.fg.color)
    ensures EqualBg(cell, was) ==> Shows(40, a1, cell.bg.mode, cell.bg.color)
  {
  }

  lemma ColorsStay(cell: Attr, a1: Attr, a2: Attr, after: Attr)
    requires SameBut(40, a2, a1) && SameColors(after, a2)
    ensures Shows(30, after, cell.fg.mode, cell.fg.color) == Shows(30, a1, cell.fg.mode, cell.fg.color)
    ensures Shows(40, after, cell.bg.mode, cell.bg.color) == Shows(40, a2, cell.bg.mode, cell.bg.color)
  {
  }

  lemma SameAsItself(base: int, a: Attr)
    ensures SameBut(base, a, a)
  {
  }

  lemma {:induction false} ReadDiff(cell: Attr, was: Attr, a: Attr) returns (after: Attr)
    requires Plain(a) && Describable(cell) && Seen(a) == Seen(was)
    requires !AttributesEquals(cell, was) && !cell.IsDefault()
    ensures Read(DiffStyle(cell, was), a) == after && Plain(after)
    ensures Shows(30, after, cell.fg.mode, cell.fg.color) <==>
            EqualFg(cell, was) || Writable(cell.fg.mode, cell.fg.color)
    ensures Shows(40, after, cell.bg.mode, cell.bg.color) <==>
            EqualBg(cell, was) || Writable(cell.bg.mode, cell.bg.color)
    ensures SameFlags(after, cell) <==> DimSurvives(cell, was)
  {
    hide *;
    var flags := if EqualFlags(cell, was) then [] else FlagParams(cell, was);
    var bg := if EqualBg(cell, was) then [] else ColorParams(40, cell.bg.mode, cell.bg.color);
    SameAsItself(30, a);
    SameAsItself(40, a);
    FlagsStay(cell, was, a, a, a);
    var a1 := ReadMaybeColor(EqualFg(cell, was), 30, cell.fg.mode, cell.fg.color, bg + flags, a);
    SameAsItself(40, a1);
    FlagsStay(cell, was, a, a1, a1);
    var a2 := ReadMaybeColor(EqualBg(cell, was), 40, cell.bg.mode, cell.bg.color, flags, a1);
    FlagsStay(cell, was, a, a1, a2);
    after := ReadMaybeFlags(cell, was, a2);
    ColorsStay(cell, a1, a2, after);
    DiffParts(cell, was);
  }

  lemma DiffParts(cell: Attr, was: Attr)
    requires !AttributesEquals(cell, was) && !cell.IsDefault()
    ensures DiffStyle(cell, was) ==
            (if EqualFg(cell, was) then [] else ColorParams(30, cell.fg.mode, cell.fg.color))
            + ((if EqualBg(cell, was) then [] else ColorParams(40, cell.bg.mode, cell.bg.color))
            + (if EqualFlags(cell, was) then [] else FlagParams(cell, was)))
  {
  }

  /** Reading the difference back, from any attributes that look like `was`, gives the colours and
      flags of `cell`, exactly when these can be expressed. */
  lemma {:induction false} SgrRoundTrips(cell: Attr, was: Attr, a: Attr)
    requires Plain(a) && Plain(was) && Describable(cell) && Seen(a) == Seen(was)
    ensures Plain(Read(DiffStyle(cell, was), a))
    ensures Seen(Read(DiffStyle(cell, was), a)) == Seen(cell) <==> Expressible(cell, was)
  {
    if AttributesEquals(cell, was) {
      ReadNothing(a);
    } else if cell.IsDefault() {
      if was.IsDefault() {
        ReadNothing(a);
      } else {
        ResetAlone(NoSubs(1), a);
      }
    } else {
      hide *;
      var after := ReadDiff(cell, was, a);
      SeenByParts(after, cell);
      ExpressibleByParts(cell, was);
    }
  }

  /** From dim to bold: the switch that takes dim back also takes bold back. */
  lemma BoldIsLost()
    ensures var was := DEFAULT_ATTR.(bg := DEFAULT_BG.(dim := true));
            var cell := DEFAULT_ATTR.(fg := DEFAULT_FG.(bold := true));
            Plain(was) && Plain(cell) && Seen(Read(DiffStyle(cell, was), was)) != Seen(cell)
  {
    hide DiffStyle, Read;
    var was, cell := DEFAULT_ATTR.(bg := DEFAULT_BG.(dim := true)), DEFAULT_ATTR.(fg := DEFAULT_FG.(bold := true));
    SgrRoundTrips(cell, was, was);
  }

  lemma SeenByParts(a: Attr, cell: Attr)
    ensures Seen(a) == Seen(cell) <==>
            Shows(30, a, cell.fg.mode, cell.fg.color) && Shows(40, a, cell.bg.mode, cell.bg.color) && SameFlags(a, cell)
  {
  }

  lemma ExpressibleByParts(cell: Attr, was: Attr)
    requires !cell.IsDefault()
    ensures Expressible(cell, was) <==>
            && (EqualFg(cell, was) || Writable(cell.fg.mode, cell.fg.color))
            && (EqualBg(cell, was) || Writable(cell.bg.mode, cell.bg.color))
            && DimSurvives(cell, was)
  {
  }

  /** The attributes a run of parameters can reach without hyperlinks keep the underline flag, the
      extended flag and the extended style in step. */
  predicate InStep(a: Attr) {
    a.ext.urlId == 0 && (a.fg.underline <==> a.bg.hasExtended) && (a.bg.hasExtended <==> a.ext.style != STYLE_NONE)
  }

  lemma {:induction false} RenditionsKeepInStep(values: seq<int>, subs: seq<seq<int>>, a: Attr)
    requires |values| == |subs| && InStep(a)
    ensures InStep(Applied(values, subs, a))
    decreases |values|
  {
    hide Extract, ApplyOne, ApplyColor;
    if values != [] {
      if IsExtended(values[0]) {
        var accu := Extract(values, subs, NO_ACCU);
        var used := if accu.advance < |values| then accu.advance + 1 else |values|;
        ColorKeepsInStep(accu.slots, a);
        RenditionsKeepInStep(values[used..], subs[used..], ApplyColor(accu.slots, a));
      } else {
        OneKeepsInStep(values[0], subs[0], a);
        RenditionsKeepInStep(values[1..], subs[1..], ApplyOne(values[0], subs[0], a));
      }
    }
  }

  lemma ColorKeepsInStep(slots: seq<int>, a: Attr)
    requires |slots| == SLOTS && InStep(a)
    ensures InStep(ApplyColor(slots, a))
  {
  }

  lemma OneKeepsInStep(p: int, subs: seq<int>, a: Attr)
    requires InStep(a)
    ensures InStep(ApplyOne(p, subs, a))
  {
    hide ProcessUnderline, ApplyPlainColor, ApplyFgFlag, ApplyBgFlag;
    UnderlineIsInStep(if p == 4 && subs != [] then subs[0] else STYLE_SINGLE, a);
    UnderlineIsInStep(STYLE_DOUBLE, a);
    UnderlineIsInStep(STYLE_NONE, a);
    OthersKeepInStep(p, a);
  }

  lemma OthersKeepInStep(p: int, a: Attr)
    requires InStep(a)
    ensures InStep(ApplyPlainColor(p, a)) && InStep(ApplyFgFlag(p, a)) && InStep(ApplyBgFlag(p, a))
  {
  }

  lemma UnderlineIsInStep(style: int, a: Attr)
    requires a.ext.urlId == 0
    ensures InStep(ProcessUnderline(style, a))
  {
  }
}
