/**
 * The declaration half of CSSCompiler: a `(property, value)` pair becomes an
 * optional StyleUpdater. Each updater is a tagged value; `Apply` is the one
 * interpreter that turns it into a change of Style.
 */
module Declarations {
  import opened Wrappers
  import opened JavaText
  import opened Styles

  datatype Updater =
    | SetColor(color: int)
    | SetBackgroundColor(color: int)
    | SetTextAlignment(alignment: Ordinal)
    | SetFontWeight(weight: Ordinal)
    | SetFontStyle(fontStyle: Ordinal)
    | SetFontFamily(familyName: string)
    | SetFontSize(size: StyleValue)
    | SetMarginBottom(length: StyleValue)
    | SetMarginTop(length: StyleValue)
    | SetMarginLeft(length: StyleValue)
    | SetMarginRight(length: StyleValue)
    | SetMargins(top: Option<StyleValue>, right: Option<StyleValue>,
                 bottom: Option<StyleValue>, left: Option<StyleValue>)
    | SetTextIndent(length: StyleValue)
    | SetDisplayStyle(display: Ordinal)
    | SetBorderStyle(borderStyle: Ordinal)
    | SetBorderColor(color: int)
    | SetBorderWidth(width: StyleValue)
    | SetBorder(widthPart: Option<StyleValue>, colorPart: Option<int>, stylePart: Option<Ordinal>)

  function FieldIf<T>(o: Option<T>, f: Field): set<Field>
  {
    if o.Some? then {f} else {}
  }

  /** The fields an updater assigns; a shorthand assigns only the parts it found. */
  function Writes(u: Updater): set<Field>
  {
    match u
    case SetColor(_) => {Color}
    case SetBackgroundColor(_) => {BackgroundColor}
    case SetTextAlignment(_) => {TextAlignment}
    case SetFontWeight(_) => {FontWeight}
    case SetFontStyle(_) => {FontStyle}
    case SetFontFamily(_) => {FontFamily}
    case SetFontSize(_) => {FontSize}
    case SetMarginBottom(_) => {MarginBottom}
    case SetMarginTop(_) => {MarginTop}
    case SetMarginLeft(_) => {MarginLeft}
    case SetMarginRight(_) => {MarginRight}
    case SetMargins(t, r, b, l) =>
      FieldIf(t, MarginTop) + FieldIf(r, MarginRight) + FieldIf(b, MarginBottom) + FieldIf(l, MarginLeft)
    case SetTextIndent(_) => {TextIndent}
    case SetDisplayStyle(_) => {DisplayStyle}
    case SetBorderStyle(_) => {BorderStyle}
    case SetBorderColor(_) => {BorderColor}
    case SetBorderWidth(_) => {BorderWidth}
    case SetBorder(w, c, st) => FieldIf(w, BorderWidth) + FieldIf(c, BorderColor) + FieldIf(st, BorderStyle)
  }

  /** A shorthand part overrides the current value only when it was found. */
  function Override<T>(part: Option<T>, current: Option<T>): Option<T>
  {
    if part.Some? then part else current
  }

  /**
   * `updater.updateStyle(style, spanner)`. Every Style setter returns a copy
   * with one field replaced, so an updater changes nothing but the fields it
   * writes. `SetFontFamily` asks the spanner for the font when it is applied.
   */
  function Apply(env: Env, u: Updater, s: Style): (r: Style)
    ensures SameExcept(s, r, Writes(u))
  {
    match u
    case SetColor(c) => s.(color := Some(c))
    case SetBackgroundColor(c) => s.(backgroundColor := Some(c))
    case SetTextAlignment(a) => s.(textAlignment := Some(a))
    case SetFontWeight(w) => s.(fontWeight := Some(w))
    case SetFontStyle(fs) => s.(fontStyle := Some(fs))
    case SetFontFamily(name) => s.(fontFamily := env.getFont(name))
    case SetFontSize(v) => s.(fontSize := Some(v))
    case SetMarginBottom(v) => s.(marginBottom := Some(v))
    case SetMarginTop(v) => s.(marginTop := Some(v))
    case SetMarginLeft(v) => s.(marginLeft := Some(v))
    case SetMarginRight(v) => s.(marginRight := Some(v))
    case SetMargins(t, r, b, l) =>
      s.(marginBottom := Override(b, s.marginBottom), marginTop := Override(t, s.marginTop),
         marginLeft := Override(l, s.marginLeft), marginRight := Override(r, s.marginRight))
    case SetTextIndent(v) => s.(textIndent := Some(v))
    case SetDisplayStyle(d) => s.(displayStyle := Some(d))
    case SetBorderStyle(b) => s.(borderStyle := Some(b))
    case SetBorderColor(c) => s.(borderColor := Some(c))
    case SetBorderWidth(v) => s.(borderWidth := Some(v))
    case SetBorder(w, c, st) =>
      s.(borderColor := Override(c, s.borderColor), borderWidth := Override(w, s.borderWidth),
         borderStyle := Override(st, s.borderStyle))
  }

  /** What an updater writes into a field does not depend on the style it is applied to. */
  lemma WriteIsIndependent(env: Env, u: Updater, s: Style, t: Style, f: Field)
    requires f in Writes(u)
    ensures Agree(Apply(env, u, s), Apply(env, u, t), f)
  {
  }

  /** Applying a later updater that writes at least the fields of an earlier one cancels the earlier one. */
  lemma LaterOverrides(env: Env, u1: Updater, u2: Updater, s: Style)
    requires Writes(u1) <= Writes(u2)
    ensures Apply(env, u2, Apply(env, u1, s)) == Apply(env, u2, s)
  {
    var a := Apply(env, u2, Apply(env, u1, s));
    var b := Apply(env, u2, s);
    forall f ensures Agree(a, b, f) {
      if f in Writes(u2) {
        WriteIsIndependent(env, u2, Apply(env, u1, s), s, f);
      }
    }
    AgreeEverywhere(a, b);
  }

  // ------------------------------------------------------------ folding

  /** `applyStyle`: the updaters applied left to right. */
  function ApplyAll(env: Env, us: seq<Updater>, s: Style): Style
  {
    if us == [] then s else Apply(env, us[|us| - 1], ApplyAll(env, us[..|us| - 1], s))
  }

  /** Everything the updaters of `us` may write. */
  function WritesAll(us: seq<Updater>): set<Field>
  {
    if us == [] then {} else WritesAll(us[..|us| - 1]) + Writes(us[|us| - 1])
  }

  lemma {:induction false} ApplyAllAppend(env: Env, a: seq<Updater>, b: seq<Updater>, s: Style)
    ensures ApplyAll(env, a + b, s) == ApplyAll(env, b, ApplyAll(env, a, s))
    decreases |b|
  {
    if b == [] {
      assert a + b == a;
    } else {
      var b' := b[..|b| - 1];
      assert (a + b)[..|a + b| - 1] == a + b';
      ApplyAllAppend(env, a, b', s);
    }
  }

  /** A fold of updaters changes nothing outside the fields they write. */
  lemma {:induction false} ApplyAllFrame(env: Env, us: seq<Updater>, s: Style)
    ensures SameExcept(s, ApplyAll(env, us, s), WritesAll(us))
  {
    if us != [] {
      var init := us[..|us| - 1];
      ApplyAllFrame(env, init, s);
      var mid := ApplyAll(env, init, s);
      var last := Apply(env, us[|us| - 1], mid);
      forall f | f !in WritesAll(us) ensures Agree(s, last, f) {
        assert Agree(s, mid, f) && Agree(mid, last, f);
      }
    }
  }

  /**
   * When several updaters write field `f`, the last of them decides it:
   * the result holds in `f` exactly what updater `j` writes there, whatever
   * came before it.
   */
  lemma {:induction false} LastWriterWins(env: Env, us: seq<Updater>, s: Style, t: Style, f: Field, j: nat)
    requires j < |us| && f in Writes(us[j])
    requires forall k :: j < k < |us| ==> f !in Writes(us[k])
    ensures Agree(ApplyAll(env, us, s), Apply(env, us[j], t), f)
  {
    var before := us[..j];
    var after := us[j + 1..];
    assert us == (before + [us[j]]) + after;
    ApplyAllAppend(env, before + [us[j]], after, s);
    var mid := ApplyAll(env, before + [us[j]], s);
    assert (before + [us[j]])[..j] == before;
    assert mid == Apply(env, us[j], ApplyAll(env, before, s));
    WriteIsIndependent(env, us[j], ApplyAll(env, before, s), t, f);
    ApplyAllFrame(env, after, mid);
    WritesAllAvoids(after, f);
  }

  lemma {:induction false} WritesAllAvoids(us: seq<Updater>, f: Field)
    requires forall k :: 0 <= k < |us| ==> f !in Writes(us[k])
    ensures f !in WritesAll(us)
  {
    if us != [] {
      WritesAllAvoids(us[..|us| - 1], f);
    }
  }

  /** Once some updater of a list writes `f`, the list's result in `f` no longer depends on the starting style. */
  lemma {:induction false} ApplyAllWriteIsIndependent(env: Env, us: seq<Updater>, s: Style, t: Style, f: Field)
    requires f in WritesAll(us)
    ensures Agree(ApplyAll(env, us, s), ApplyAll(env, us, t), f)
  {
    var init := us[..|us| - 1];
    var last := us[|us| - 1];
    if f in Writes(last) {
      WriteIsIndependent(env, last, ApplyAll(env, init, s), ApplyAll(env, init, t), f);
    } else {
      ApplyAllWriteIsIndependent(env, init, s, t, f);
    }
  }

  // ------------------------------------------------------------ colors

  /** Each character of `t` twice in a row. */
  function Doubled(t: string): (r: string)
    ensures |r| == 2 * |t|
  {
    if t == [] then [] else Doubled(t[..|t| - 1]) + [t[|t| - 1], t[|t| - 1]]
  }

  /** The CSS short-hand `#rgb` written out as `#rrggbb`; any other text unchanged. */
  function ExpandShorthand(colorString: string): string
  {
    if |colorString| == 4 && colorString[0] == '#' then "#" + Doubled(colorString[1..]) else colorString
  }

  /** `parseCSSColor`: expand the short-hand, then hand the text to the platform's color parser. */
  function ParseCSSColor(env: Env, colorString: string): Option<int>
  {
    env.parseColor(ExpandShorthand(colorString))
  }

  /** The loop of `parseCSSColor` that builds the long form with a StringBuilder. */
  method ExpandColorShorthand(colorString: string) returns (r: string)
    ensures r == ExpandShorthand(colorString)
  {
    r := colorString;
    if |colorString| == 4 && colorString[0] == '#' {
      var builder := "#";
      var i := 1;
      while i < |colorString|
        invariant 1 <= i <= |colorString|
        invariant builder == "#" + Doubled(colorString[1..i])
      {
        assert colorString[1..i + 1][..i - 1] == colorString[1..i];
        builder := builder + [colorString[i], colorString[i]];
        i := i + 1;
      }
      assert colorString[1..i] == colorString[1..];
      r := builder;
    }
  }

  /** `#abc` and `#aabbcc` name the same color: each digit is doubled before parsing. */
  lemma ShorthandColor(env: Env, a: char, b: char, c: char)
    ensures ParseCSSColor(env, ['#', a, b, c]) == ParseCSSColor(env, ['#', a, a, b, b, c, c])
  {
    var short := ['#', a, b, c];
    assert short[1..] == [a, b, c];
    assert Doubled([a]) == [a, a] by {
      assert [a][..0] == [];
    }
    assert Doubled([a, b]) == [a, a, b, b] by {
      assert [a, b][..1] == [a];
    }
    assert Doubled([a, b, c]) == [a, a, b, b, c, c] by {
      assert [a, b, c][..2] == [a, b];
    }
    assert ExpandShorthand(short) == ['#', a, a, b, b, c, c];
  }

  /** Anything but a four-character `#` string reaches the platform parser unchanged. */
  lemma ColorPassThrough(env: Env, colorString: string)
    requires |colorString| != 4 || colorString[0] != '#'
    ensures ParseCSSColor(env, colorString) == env.parseColor(colorString)
  {
  }

  // ------------------------------------------------------------ font size

  /**
   * `translateFontSize`: the legacy HTML sizes 1..7 in tenths of an em,
   * 0.6 em to 1.8 em in steps of 0.2; anything else is 1.0 em.
   */
  function TranslateFontSize(fontSize: int): (tenths: nat)
    ensures 6 <= tenths <= 18
    ensures 1 <= fontSize <= 7 ==> tenths == 4 + 2 * fontSize
    ensures !(1 <= fontSize <= 7) ==> tenths == 10
  {
    match fontSize
    case 1 => 6
    case 2 => 8
    case 3 => 10
    case 4 => 12
    case 5 => 14
    case 6 => 16
    case 7 => 18
    case _ => 10
  }

  function EmTenths(tenths: nat): StyleValue
  {
    StyleValue(tenths as real / 10.0, Em)
  }

  // ------------------------------------------------------------ margin

  /** Which token each side takes, by token count: top, right, bottom, left. */
  function MarginStrings(parts: seq<string>): (string, string, string, string)
  {
    if |parts| == 1 then (parts[0], parts[0], parts[0], parts[0])
    else if |parts| == 2 then (parts[0], parts[1], parts[0], parts[1])
    else if |parts| == 3 then (parts[0], parts[1], parts[2], parts[1])
    else if |parts| == 4 then (parts[0], parts[1], parts[2], parts[3])
    else ("", "", "", "")
  }

  /** `parseMargin`: split on whitespace, share the tokens out, parse each side. */
  function ParseMargin(env: Env, marginValue: string): Updater
  {
    var (top, right, bottom, left) := MarginStrings(Split(marginValue, Whitespace));
    SetMargins(env.parseStyleValue(top), env.parseStyleValue(right),
               env.parseStyleValue(bottom), env.parseStyleValue(left))
  }

  // ------------------------------------------------------------ border

  datatype BorderParts = BorderParts(width: Option<StyleValue>, color: Option<int>, style: Option<Ordinal>)

  const NoBorderParts := BorderParts(None, None, None)

  /** One iteration of `parseBorder`'s loop: the token fills the first still-unset part it parses as. */
  function BorderStep(env: Env, found: BorderParts, part: string): BorderParts
  {
    if found.width.None? && env.parseStyleValue(part).Some? then
      found.(width := env.parseStyleValue(part))
    else if found.color.None? && ParseCSSColor(env, part).Some? then
      found.(color := ParseCSSColor(env, part))
    else if found.style.None? && EnumOf(env.borderStyles, part).Some? then
      found.(style := EnumOf(env.borderStyles, part))
    else found
  }

  /** The parts found after scanning `parts` left to right. */
  function BorderScan(env: Env, parts: seq<string>): BorderParts
  {
    if parts == [] then NoBorderParts
    else BorderStep(env, BorderScan(env, parts[..|parts| - 1]), parts[|parts| - 1])
  }

  /** `parseBorder` as a value: the updater sets the parts that were found. */
  function BorderUpdater(env: Env, borderDefinition: string): Updater
  {
    var found := BorderScan(env, Split(borderDefinition, Whitespace));
    SetBorder(found.width, found.color, found.style)
  }

  /** `parseBorder`: the loop over the whitespace-separated tokens with its three locals. */
  method ParseBorder(env: Env, borderDefinition: string) returns (u: Updater)
    ensures u == BorderUpdater(env, borderDefinition)
  {
    var parts := Split(borderDefinition, Whitespace);
    var borderWidth: Option<StyleValue> := None;
    var borderColor: Option<int> := None;
    var borderStyle: Option<Ordinal> := None;
    var i := 0;
    while i < |parts|
      invariant 0 <= i <= |parts|
      invariant BorderParts(borderWidth, borderColor, borderStyle) == BorderScan(env, parts[..i])
    {
      var part := parts[i];
      assert parts[..i + 1][..i] == parts[..i];
      i := i + 1;
      if borderWidth.None? {
        borderWidth := env.parseStyleValue(part);
        if borderWidth.Some? {
          continue;
        }
      }
      if borderColor.None? {
        var color := ParseCSSColor(env, part);
        if color.Some? {
          borderColor := color;
          continue;
        }
      }
      if borderStyle.None? {
        borderStyle := EnumOf(env.borderStyles, part);
      }
    }
    assert parts[..i] == parts;
    u := SetBorder(borderWidth, borderColor, borderStyle);
  }

  /** The three kinds of token a border definition may hold. */
  datatype BorderKind = WidthToken | ColorToken | StyleToken

  predicate ParsesAs(env: Env, kind: BorderKind, token: string)
  {
    match kind
    case WidthToken => env.parseStyleValue(token).Some?
    case ColorToken => ParseCSSColor(env, token).Some?
    case StyleToken => EnumOf(env.borderStyles, token).Some?
  }

  /** The first position outside `skip` whose token parses as `kind`. */
  function FirstIndex(env: Env, ts: seq<string>, kind: BorderKind, skip: set<nat>): (r: Option<nat>)
    ensures r.Some? ==> r.value < |ts| && r.value !in skip && ParsesAs(env, kind, ts[r.value])
    ensures r.Some? ==> forall j :: 0 <= j < r.value && j !in skip ==> !ParsesAs(env, kind, ts[j])
    ensures r.None? ==> forall j :: 0 <= j < |ts| && j !in skip ==> !ParsesAs(env, kind, ts[j])
  {
    if ts == [] then None
    else
      var n := |ts| - 1;
      assert forall j :: 0 <= j < n ==> ts[..n][j] == ts[j];
      match FirstIndex(env, ts[..n], kind, skip)
      case Some(i) => Some(i)
      case None => if n !in skip && ParsesAs(env, kind, ts[n]) then Some(n) else None
  }

  function Taken(i: Option<nat>): set<nat>
  {
    if i.Some? then {i.value} else {}
  }

  /**
   * An order-free reading of a border definition: the width is the first
   * token that is a length; the color the first other token that is a
   * color; the style the first token left over that names a border style.
   */
  function BorderByFirst(env: Env, ts: seq<string>): BorderParts
  {
    var w := FirstIndex(env, ts, WidthToken, {});
    var c := FirstIndex(env, ts, ColorToken, Taken(w));
    var st := FirstIndex(env, ts, StyleToken, Taken(w) + Taken(c));
    BorderParts(
      if w.Some? then env.parseStyleValue(ts[w.value]) else None,
      if c.Some? then ParseCSSColor(env, ts[c.value]) else None,
      if st.Some? then EnumOf(env.borderStyles, ts[st.value]) else None)
  }

  lemma FirstIndexStep(env: Env, init: seq<string>, t: string, kind: BorderKind, skip: set<nat>)
    ensures FirstIndex(env, init + [t], kind, skip) ==
      if FirstIndex(env, init, kind, skip).Some? then FirstIndex(env, init, kind, skip)
      else if |init| !in skip && ParsesAs(env, kind, t) then Some(|init|)
      else None
  {
    assert (init + [t])[..|init|] == init;
  }

  /** Positions at or past the end of the tokens may be skipped or not: it changes nothing. */
  lemma FirstIndexSkipBeyond(env: Env, ts: seq<string>, kind: BorderKind, skip: set<nat>, extra: set<nat>)
    requires forall x :: x in extra ==> x >= |ts|
    ensures FirstIndex(env, ts, kind, skip + extra) == FirstIndex(env, ts, kind, skip)
  {
  }

  /** The first token that is a length, while no width is known, becomes the width. */
  lemma ByFirstStepWidth(env: Env, init: seq<string>, t: string)
    requires FirstIndex(env, init, WidthToken, {}).None? && ParsesAs(env, WidthToken, t)
    ensures BorderByFirst(env, init + [t]) == BorderStep(env, BorderByFirst(env, init), t)
  {
    var ts, n := init + [t], |init|;
    var c0 := FirstIndex(env, init, ColorToken, {});
    FirstIndexStep(env, init, t, WidthToken, {});
    FirstIndexStep(env, init, t, ColorToken, {n});
    FirstIndexSkipBeyond(env, init, ColorToken, {}, {n});
    assert {} + {n} == {n};
    FirstIndexStep(env, init, t, StyleToken, {n} + Taken(c0));
    FirstIndexSkipBeyond(env, init, StyleToken, Taken(c0), {n});
    assert {} + Taken(c0) == Taken(c0);
    assert Taken(c0) + {n} == {n} + Taken(c0);
    assert forall i :: 0 <= i < n ==> ts[i] == init[i];
  }

  /** A token that is not taken as the width and is a color, while no color is known, becomes the color. */
  lemma ByFirstStepColor(env: Env, init: seq<string>, t: string)
    requires !(FirstIndex(env, init, WidthToken, {}).None? && ParsesAs(env, WidthToken, t))
    requires FirstIndex(env, init, ColorToken, Taken(FirstIndex(env, init, WidthToken, {}))).None?
    requires ParsesAs(env, ColorToken, t)
    ensures BorderByFirst(env, init + [t]) == BorderStep(env, BorderByFirst(env, init), t)
  {
    var ts, n := init + [t], |init|;
    var w0 := FirstIndex(env, init, WidthToken, {});
    FirstIndexStep(env, init, t, WidthToken, {});
    assert FirstIndex(env, ts, WidthToken, {}) == w0;
    assert n !in Taken(w0);
    FirstIndexStep(env, init, t, ColorToken, Taken(w0));
    assert FirstIndex(env, ts, ColorToken, Taken(w0)) == Some(n);
    assert Taken(Some(n)) == {n};
    FirstIndexStep(env, init, t, StyleToken, Taken(w0) + {n});
    FirstIndexSkipBeyond(env, init, StyleToken, Taken(w0), {n});
    var s0 := FirstIndex(env, init, StyleToken, Taken(w0));
    assert FirstIndex(env, ts, StyleToken, Taken(w0) + {n}) == s0;
    assert forall i :: 0 <= i < n ==> ts[i] == init[i];
    assert ts[n] == t;
    var found := BorderByFirst(env, init);
    assert found.color.None?;
    assert !(found.width.None? && env.parseStyleValue(t).Some?);
    assert BorderStep(env, found, t) == found.(color := ParseCSSColor(env, t));
    var after := BorderByFirst(env, ts);
    assert after.width == found.width;
    assert after.color == ParseCSSColor(env, t);
    assert Taken(FirstIndex(env, init, ColorToken, Taken(w0))) == {};
    assert Taken(w0) + {} == Taken(w0);
    assert Taken(FirstIndex(env, ts, WidthToken, {})) + Taken(FirstIndex(env, ts, ColorToken, Taken(w0)))
      == Taken(w0) + {n};
    if s0.Some? {
      assert ts[s0.value] == init[s0.value];
    }
    assert after.style == found.style;
  }

  /** Any other token can only fill the style, and only while no style is known. */
  lemma ByFirstStepStyle(env: Env, init: seq<string>, t: string)
    requires !(FirstIndex(env, init, WidthToken, {}).None? && ParsesAs(env, WidthToken, t))
    requires !(FirstIndex(env, init, ColorToken, Taken(FirstIndex(env, init, WidthToken, {}))).None?
               && ParsesAs(env, ColorToken, t))
    ensures BorderByFirst(env, init + [t]) == BorderStep(env, BorderByFirst(env, init), t)
  {
    var ts, n := init + [t], |init|;
    var w0 := FirstIndex(env, init, WidthToken, {});
    var c0 := FirstIndex(env, init, ColorToken, Taken(w0));
    FirstIndexStep(env, init, t, WidthToken, {});
    FirstIndexStep(env, init, t, ColorToken, Taken(w0));
    FirstIndexStep(env, init, t, StyleToken, Taken(w0) + Taken(c0));
    assert forall i :: 0 <= i < n ==> ts[i] == init[i];
  }

  /**
   * The loop of `parseBorder`, whose outcome depends on the order of the
   * checks, finds exactly what the order-free reading describes.
   */
  lemma {:induction false} BorderScanIsByFirst(env: Env, ts: seq<string>)
    ensures BorderScan(env, ts) == BorderByFirst(env, ts)
  {
    if ts != [] {
      var n := |ts| - 1;
      var init, t := ts[..n], ts[n];
      assert ts == init + [t];
      BorderScanIsByFirst(env, init);
      var w0 := FirstIndex(env, init, WidthToken, {});
      if w0.None? && ParsesAs(env, WidthToken, t) {
        ByFirstStepWidth(env, init, t);
      } else if FirstIndex(env, init, ColorToken, Taken(w0)).None? && ParsesAs(env, ColorToken, t) {
        ByFirstStepColor(env, init, t);
      } else {
        ByFirstStepStyle(env, init, t);
      }
    }
  }

  /** `parseBorder` reads its definition as `BorderByFirst` does. */
  lemma BorderDefinitionByFirst(env: Env, borderDefinition: string)
    ensures var found := BorderByFirst(env, Split(borderDefinition, Whitespace));
      BorderUpdater(env, borderDefinition) == SetBorder(found.width, found.color, found.style)
  {
    BorderScanIsByFirst(env, Split(borderDefinition, Whitespace));
  }

  // ------------------------------------------------------------ the property table

  /** The properties `getStyleUpdater` knows; `align` and `text-align` are one. */
  datatype Property =
    | ColorProperty | BackgroundColorProperty | TextAlignProperty | FontWeightProperty
    | FontStyleProperty | FontFamilyProperty | FontSizeProperty
    | MarginBottomProperty | MarginTopProperty | MarginLeftProperty | MarginRightProperty | MarginProperty
    | TextIndentProperty | DisplayProperty
    | BorderStyleProperty | BorderColorProperty | BorderWidthProperty | BorderProperty

  /** The key tests of `getStyleUpdater`, in their order; None for a key it does not know. */
  function PropertyOf(key: string): Option<Property>
  {
    if key == "color" then Some(ColorProperty)
    else if key == "background-color" then Some(BackgroundColorProperty)
    else if key == "align" || key == "text-align" then Some(TextAlignProperty)
    else if key == "font-weight" then Some(FontWeightProperty)
    else if key == "font-style" then Some(FontStyleProperty)
    else if key == "font-family" then Some(FontFamilyProperty)
    else if key == "font-size" then Some(FontSizeProperty)
    else if key == "margin-bottom" then Some(MarginBottomProperty)
    else if key == "margin-top" then Some(MarginTopProperty)
    else if key == "margin-left" then Some(MarginLeftProperty)
    else if key == "margin-right" then Some(MarginRightProperty)
    else if key == "margin" then Some(MarginProperty)
    else if key == "text-indent" then Some(TextIndentProperty)
    else if key == "display" then Some(DisplayProperty)
    else if key == "border-style" then Some(BorderStyleProperty)
    else if key == "border-color" then Some(BorderColorProperty)
    else if key == "border-width" then Some(BorderWidthProperty)
    else if key == "border" then Some(BorderProperty)
    else None
  }

  /** The fields a property may set. */
  function PropertyFields(p: Property): set<Field>
  {
    match p
    case ColorProperty => {Color}
    case BackgroundColorProperty => {BackgroundColor}
    case TextAlignProperty => {TextAlignment}
    case FontWeightProperty => {FontWeight}
    case FontStyleProperty => {FontStyle}
    case FontFamilyProperty => {FontFamily}
    case FontSizeProperty => {FontSize}
    case MarginBottomProperty => {MarginBottom}
    case MarginTopProperty => {MarginTop}
    case MarginLeftProperty => {MarginLeft}
    case MarginRightProperty => {MarginRight}
    case MarginProperty => {MarginTop, MarginRight, MarginBottom, MarginLeft}
    case TextIndentProperty => {TextIndent}
    case DisplayProperty => {DisplayStyle}
    case BorderStyleProperty => {BorderStyle}
    case BorderColorProperty => {BorderColor}
    case BorderWidthProperty => {BorderWidth}
    case BorderProperty => {BorderWidth, BorderColor, BorderStyle}
  }

  /** `Enum.valueOf(value.toUpperCase())` for one of Style's enums. */
  function EnumOf(names: seq<string>, value: string): Option<Ordinal>
  {
    ValueOf(names, ToUpper(value))
  }

  /** The legacy `font-size` path: a plain integer read as an HTML font size. */
  function LegacyFontSize(value: string): Option<Updater>
  {
    match ParseInt(value)
    case Some(n) => Some(SetFontSize(EmTenths(TranslateFontSize(n))))
    case None => None
  }

  /**
   * The branch of `getStyleUpdater` for one known property: the updater,
   * or None when the value does not parse. An updater writes only fields
   * of its property, and the `margin`, `border` and `font-family`
   * branches always yield one.
   */
  function UpdaterFor(env: Env, p: Property, value: string): (r: Option<Updater>)
    ensures r.Some? ==> Writes(r.value) <= PropertyFields(p)
    ensures p == MarginProperty || p == BorderProperty || p == FontFamilyProperty ==> r.Some?
  {
    match p
    case ColorProperty =>
      (match ParseCSSColor(env, value) case Some(c) => Some(SetColor(c)) case None => None)
    case BackgroundColorProperty =>
      (match ParseCSSColor(env, value) case Some(c) => Some(SetBackgroundColor(c)) case None => None)
    case TextAlignProperty =>
      (match EnumOf(env.textAlignments, value) case Some(a) => Some(SetTextAlignment(a)) case None => None)
    case FontWeightProperty =>
      (match EnumOf(env.fontWeights, value) case Some(w) => Some(SetFontWeight(w)) case None => None)
    case FontStyleProperty =>
      (match EnumOf(env.fontStyles, value) case Some(fs) => Some(SetFontStyle(fs)) case None => None)
    case FontFamilyProperty => Some(SetFontFamily(value))
    case FontSizeProperty =>
      (match env.parseStyleValue(value) case Some(v) => Some(SetFontSize(v)) case None => LegacyFontSize(value))
    case MarginBottomProperty =>
      (match env.parseStyleValue(value) case Some(v) => Some(SetMarginBottom(v)) case None => None)
    case MarginTopProperty =>
      (match env.parseStyleValue(value) case Some(v) => Some(SetMarginTop(v)) case None => None)
    case MarginLeftProperty =>
      (match env.parseStyleValue(value) case Some(v) => Some(SetMarginLeft(v)) case None => None)
    case MarginRightProperty =>
      (match env.parseStyleValue(value) case Some(v) => Some(SetMarginRight(v)) case None => None)
    case MarginProperty => Some(ParseMargin(env, value))
    case TextIndentProperty =>
      (match env.parseStyleValue(value) case Some(v) => Some(SetTextIndent(v)) case None => None)
    case DisplayProperty =>
      (match EnumOf(env.displayStyles, value) case Some(d) => Some(SetDisplayStyle(d)) case None => None)
    case BorderStyleProperty =>
      (match EnumOf(env.borderStyles, value) case Some(b) => Some(SetBorderStyle(b)) case None => None)
    case BorderColorProperty =>
      (match ParseCSSColor(env, value) case Some(c) => Some(SetBorderColor(c)) case None => None)
    case BorderWidthProperty =>
      (match env.parseStyleValue(value) case Some(v) => Some(SetBorderWidth(v)) case None => None)
    case BorderProperty => Some(BorderUpdater(env, value))
  }

  /**
   * `getStyleUpdater`: the updater for one declaration, or None (Java's
   * null) for an unknown property or a value that does not parse.
   */
  function GetStyleUpdater(env: Env, key: string, value: string): (r: Option<Updater>)
    ensures PropertyOf(key).None? ==> r.None?
    ensures r.Some? ==> PropertyOf(key).Some? && Writes(r.value) <= PropertyFields(PropertyOf(key).value)
    ensures (PropertyOf(key) == Some(MarginProperty) || PropertyOf(key) == Some(BorderProperty) ||
             PropertyOf(key) == Some(FontFamilyProperty)) ==> r.Some?
  {
    match PropertyOf(key)
    case None => None
    case Some(p) => UpdaterFor(env, p, value)
  }

  /** The size a legacy integer font size stands for, e.g. `font-size: 5` is 1.4 em. */
  lemma LegacyFontSizeDeclaration(env: Env, n: int)
    requires MinInt <= n <= MaxInt
    requires env.parseStyleValue(IntToString(n)).None?
    ensures GetStyleUpdater(env, "font-size", IntToString(n)) == Some(SetFontSize(EmTenths(TranslateFontSize(n))))
  {
    ParseIntRoundTrip(n);
  }

  // ------------------------------------------------------------ declaration lists

  /** One `property: value` pair of a rule or of a style attribute. */
  datatype Declaration = Declaration(property: string, value: string)

  /** The updaters of the declarations that yield one, in declaration order. */
  function Kept(env: Env, decls: seq<Declaration>): (r: seq<Updater>)
    ensures |r| <= |decls|
  {
    if decls == [] then []
    else
      var d := decls[|decls| - 1];
      Kept(env, decls[..|decls| - 1]) +
        match GetStyleUpdater(env, d.property, d.value)
        case Some(u) => [u]
        case None => []
  }

  /** One declaration applied to a style; one without an updater is skipped. */
  function DeclStep(env: Env, d: Declaration, s: Style): Style
  {
    match GetStyleUpdater(env, d.property, d.value)
    case Some(u) => Apply(env, u, s)
    case None => s
  }

  /** The declarations applied one after the other. */
  function DeclFold(env: Env, decls: seq<Declaration>, s: Style): Style
  {
    if decls == [] then s
    else DeclStep(env, decls[|decls| - 1], DeclFold(env, decls[..|decls| - 1], s))
  }

  /** Unfolds `DeclFold` at its last declaration. */
  lemma DeclFoldSnoc(env: Env, decls: seq<Declaration>, d: Declaration, s: Style)
    ensures DeclFold(env, decls + [d], s) == DeclStep(env, d, DeclFold(env, decls, s))
  {
    assert (decls + [d])[..|decls|] == decls;
  }

  /** Folding two lists one after the other is folding their concatenation. */
  lemma {:induction false} DeclFoldAppend(env: Env, a: seq<Declaration>, b: seq<Declaration>, s: Style)
    ensures DeclFold(env, a + b, s) == DeclFold(env, b, DeclFold(env, a, s))
    decreases |b|
  {
    if b == [] {
      assert a + b == a;
    } else {
      var init := b[..|b| - 1];
      DeclFoldAppend(env, a, init, s);
      assert a + b == (a + init) + [b[|b| - 1]];
      DeclFoldSnoc(env, a + init, b[|b| - 1], s);
    }
  }

  /** Compiling the updaters first and applying them later gives the same style as applying the declarations. */
  lemma {:induction false} FoldKept(env: Env, decls: seq<Declaration>, s: Style)
    ensures DeclFold(env, decls, s) == ApplyAll(env, Kept(env, decls), s)
  {
    if decls != [] {
      var init := decls[..|decls| - 1];
      var d := decls[|decls| - 1];
      FoldKept(env, init, s);
      match GetStyleUpdater(env, d.property, d.value)
      case Some(u) =>
        ApplyAllAppend(env, Kept(env, init), [u], s);
        assert [u][..0] == [];
      case None =>
        assert Kept(env, init) + [] == Kept(env, init);
    }
  }

  /**
   * Of several declarations that set field `f`, the last one that yields an
   * updater decides the field; earlier ones and the starting style do not matter.
   */
  lemma {:induction false} LastDeclarationWins(env: Env, decls: seq<Declaration>, s: Style, t: Style,
                                                f: Field, j: nat, u: Updater)
    requires j < |decls| && GetStyleUpdater(env, decls[j].property, decls[j].value) == Some(u)
    requires f in Writes(u)
    requires forall k, v :: j < k < |decls| && GetStyleUpdater(env, decls[k].property, decls[k].value) == Some(v) ==>
      f !in Writes(v)
    ensures Agree(DeclFold(env, decls, s), Apply(env, u, t), f)
  {
    var n := |decls| - 1;
    var init := decls[..n];
    var d := decls[n];
    assert decls == init + [d];
    DeclFoldSnoc(env, init, d, s);
    if j == n {
      WriteIsIndependent(env, u, DeclFold(env, init, s), t, f);
    } else {
      assert forall k :: j < k < |init| ==> init[k] == decls[k];
      LastDeclarationWins(env, init, s, t, f, j, u);
      var before := DeclFold(env, init, s);
      match GetStyleUpdater(env, d.property, d.value)
      case None =>
      case Some(v) =>
        assert f !in Writes(v);
        assert Agree(before, Apply(env, v, before), f);
    }
  }

  /** A later `color` whose value does not parse leaves the earlier color in place. */
  lemma UnparseableColorKeepsEarlier(env: Env, before: seq<Declaration>, v: string, w: string, s: Style)
    requires ParseCSSColor(env, v).Some? && ParseCSSColor(env, w).None?
    ensures DeclFold(env, before + [Declaration("color", v), Declaration("color", w)], s).color
      == ParseCSSColor(env, v)
  {
    var decls := before + [Declaration("color", v), Declaration("color", w)];
    var j := |before|;
    LastDeclarationWins(env, decls, s, s, Color, j, SetColor(ParseCSSColor(env, v).value));
  }

  /** A style attribute or rule that ends with a parseable `color` sets the color to it. */
  lemma LastColorDeclaration(env: Env, decls: seq<Declaration>, v: string, s: Style)
    requires ParseCSSColor(env, v).Some?
    ensures DeclFold(env, decls + [Declaration("color", v)], s).color == ParseCSSColor(env, v)
  {
    assert (decls + [Declaration("color", v)])[..|decls|] == decls;
  }

  /**
   * The `margin` short-hand has the effect of the four long-hand
   * declarations on the tokens it shares out to each side.
   */
  lemma MarginShorthandIsLonghands(env: Env, marginValue: string, s: Style)
    ensures var (top, right, bottom, left) := MarginStrings(Split(marginValue, Whitespace));
      Apply(env, ParseMargin(env, marginValue), s) ==
      DeclFold(env, [Declaration("margin-top", top), Declaration("margin-right", right),
                     Declaration("margin-bottom", bottom), Declaration("margin-left", left)], s)
  {
    var (top, right, bottom, left) := MarginStrings(Split(marginValue, Whitespace));
    var d1, d2 := Declaration("margin-top", top), Declaration("margin-right", right);
    var d3, d4 := Declaration("margin-bottom", bottom), Declaration("margin-left", left);
    assert [d1, d2, d3, d4] == [d1, d2, d3] + [d4];
    assert [d1, d2, d3] == [d1, d2] + [d3];
    assert [d1, d2] == [d1] + [d2];
    assert [d1] == [] + [d1];
    DeclFoldSnoc(env, [], d1, s);
    DeclFoldSnoc(env, [d1], d2, s);
    DeclFoldSnoc(env, [d1, d2], d3, s);
    DeclFoldSnoc(env, [d1, d2, d3], d4, s);
    var s1 := DeclFold(env, [d1], s);
    var s2 := DeclFold(env, [d1, d2], s);
    var s3 := DeclFold(env, [d1, d2, d3], s);
    VerticalMarginSteps(env, top, s);
    HorizontalMarginSteps(env, right, s1);
    VerticalMarginSteps(env, bottom, s2);
    HorizontalMarginSteps(env, left, s3);
  }

  /** `margin-top` and `margin-bottom` set their side when the value parses and leave the style alone otherwise. */
  lemma VerticalMarginSteps(env: Env, v: string, s: Style)
    ensures DeclStep(env, Declaration("margin-top", v), s) ==
      s.(marginTop := Override(env.parseStyleValue(v), s.marginTop))
    ensures DeclStep(env, Declaration("margin-bottom", v), s) ==
      s.(marginBottom := Override(env.parseStyleValue(v), s.marginBottom))
  {
    MarginKeys();
    KnownStep(env, "margin-top", MarginTopProperty, v, s);
    KnownStep(env, "margin-bottom", MarginBottomProperty, v, s);
  }

  /** `margin-right` and `margin-left` set their side when the value parses and leave the style alone otherwise. */
  lemma HorizontalMarginSteps(env: Env, v: string, s: Style)
    ensures DeclStep(env, Declaration("margin-right", v), s) ==
      s.(marginRight := Override(env.parseStyleValue(v), s.marginRight))
    ensures DeclStep(env, Declaration("margin-left", v), s) ==
      s.(marginLeft := Override(env.parseStyleValue(v), s.marginLeft))
  {
    MarginKeys();
    KnownStep(env, "margin-right", MarginRightProperty, v, s);
    KnownStep(env, "margin-left", MarginLeftProperty, v, s);
  }

  /** A declaration of a known property takes that property's updater, if any. */
  lemma KnownStep(env: Env, key: string, p: Property, v: string, s: Style)
    requires PropertyOf(key) == Some(p)
    ensures DeclStep(env, Declaration(key, v), s) ==
      match UpdaterFor(env, p, v) case Some(u) => Apply(env, u, s) case None => s
  {
  }

  /** The four margin long-hand names and the properties they denote. */
  lemma MarginKeys()
    ensures PropertyOf("margin-top") == Some(MarginTopProperty)
    ensures PropertyOf("margin-right") == Some(MarginRightProperty)
    ensures PropertyOf("margin-bottom") == Some(MarginBottomProperty)
    ensures PropertyOf("margin-left") == Some(MarginLeftProperty)
  {
  }

  /** The colour long-hands set their colour when the value parses as one and leave the style alone otherwise. */
  lemma ColorSteps(env: Env, v: string, s: Style)
    ensures DeclStep(env, Declaration("color", v), s) ==
      s.(color := Override(ParseCSSColor(env, v), s.color))
    ensures DeclStep(env, Declaration("background-color", v), s) ==
      s.(backgroundColor := Override(ParseCSSColor(env, v), s.backgroundColor))
  {
    ColorNameKeys();
    KnownStep(env, "color", ColorProperty, v, s);
    KnownStep(env, "background-color", BackgroundColorProperty, v, s);
  }

  lemma ColorNameKeys()
    ensures PropertyOf("color") == Some(ColorProperty)
    ensures PropertyOf("background-color") == Some(BackgroundColorProperty)
  {
  }

  /** `align` and `text-align` set the alignment when the value names one (ignoring case), and leave the style alone otherwise. */
  lemma AlignSteps(env: Env, v: string, s: Style)
    ensures DeclStep(env, Declaration("align", v), s) ==
      s.(textAlignment := Override(EnumOf(env.textAlignments, v), s.textAlignment))
    ensures DeclStep(env, Declaration("text-align", v), s) ==
      s.(textAlignment := Override(EnumOf(env.textAlignments, v), s.textAlignment))
  {
    TextKeys();
    KnownStep(env, "align", TextAlignProperty, v, s);
    KnownStep(env, "text-align", TextAlignProperty, v, s);
  }

  /** `display` and `text-indent` set their field when the value names a display style or parses as a length. */
  lemma DisplayIndentSteps(env: Env, v: string, s: Style)
    ensures DeclStep(env, Declaration("display", v), s) ==
      s.(displayStyle := Override(EnumOf(env.displayStyles, v), s.displayStyle))
    ensures DeclStep(env, Declaration("text-indent", v), s) ==
      s.(textIndent := Override(env.parseStyleValue(v), s.textIndent))
  {
    TextKeys();
    KnownStep(env, "display", DisplayProperty, v, s);
    KnownStep(env, "text-indent", TextIndentProperty, v, s);
  }

  lemma TextKeys()
    ensures PropertyOf("align") == Some(TextAlignProperty)
    ensures PropertyOf("text-align") == Some(TextAlignProperty)
    ensures PropertyOf("display") == Some(DisplayProperty)
    ensures PropertyOf("text-indent") == Some(TextIndentProperty)
  {
  }

  /**
   * Weight and style set their field when the value names a constant;
   * `font-family` always sets the font the spanner looks up for the value.
   */
  lemma FontSteps(env: Env, v: string, s: Style)
    ensures DeclStep(env, Declaration("font-weight", v), s) ==
      s.(fontWeight := Override(EnumOf(env.fontWeights, v), s.fontWeight))
    ensures DeclStep(env, Declaration("font-style", v), s) ==
      s.(fontStyle := Override(EnumOf(env.fontStyles, v), s.fontStyle))
    ensures DeclStep(env, Declaration("font-family", v), s) == s.(fontFamily := env.getFont(v))
  {
    FontKeys();
    KnownStep(env, "font-weight", FontWeightProperty, v, s);
    KnownStep(env, "font-style", FontStyleProperty, v, s);
    KnownStep(env, "font-family", FontFamilyProperty, v, s);
  }

  lemma FontKeys()
    ensures PropertyOf("font-weight") == Some(FontWeightProperty)
    ensures PropertyOf("font-style") == Some(FontStyleProperty)
    ensures PropertyOf("font-family") == Some(FontFamilyProperty)
    ensures PropertyOf("font-size") == Some(FontSizeProperty)
  {
  }

  /**
   * `font-size`: a length is set as it is; otherwise an integer sets the
   * em size its HTML size stands for; otherwise the style is left alone.
   */
  lemma FontSizeSteps(env: Env, v: string, s: Style)
    ensures env.parseStyleValue(v).Some? ==>
      DeclStep(env, Declaration("font-size", v), s) == s.(fontSize := env.parseStyleValue(v))
    ensures env.parseStyleValue(v).None? && ParseInt(v).Some? ==>
      DeclStep(env, Declaration("font-size", v), s) ==
      s.(fontSize := Some(EmTenths(TranslateFontSize(ParseInt(v).value))))
    ensures env.parseStyleValue(v).None? && ParseInt(v).None? ==>
      DeclStep(env, Declaration("font-size", v), s) == s
  {
    FontKeys();
    KnownStep(env, "font-size", FontSizeProperty, v, s);
  }

  /** `border-style` sets the style when the value names one (ignoring case) and leaves the style alone otherwise. */
  lemma BorderStyleStep(env: Env, v: string, s: Style)
    ensures DeclStep(env, Declaration("border-style", v), s) ==
      s.(borderStyle := Override(EnumOf(env.borderStyles, v), s.borderStyle))
  {
    BorderKeys();
    KnownStep(env, "border-style", BorderStyleProperty, v, s);
  }

  /** `border-color` sets the colour when the value parses as one and leaves the style alone otherwise. */
  lemma BorderColorStep(env: Env, v: string, s: Style)
    ensures DeclStep(env, Declaration("border-color", v), s) ==
      s.(borderColor := Override(ParseCSSColor(env, v), s.borderColor))
  {
    BorderKeys();
    KnownStep(env, "border-color", BorderColorProperty, v, s);
  }

  /** `border-width` sets the width when the value parses as a length and leaves the style alone otherwise. */
  lemma BorderWidthStep(env: Env, v: string, s: Style)
    ensures DeclStep(env, Declaration("border-width", v), s) ==
      s.(borderWidth := Override(env.parseStyleValue(v), s.borderWidth))
  {
    BorderKeys();
    KnownStep(env, "border-width", BorderWidthProperty, v, s);
  }

  /** The `border` short-hand sets exactly the parts its token scan finds and keeps the others. */
  lemma BorderShorthandStep(env: Env, v: string, s: Style)
    ensures var found := BorderScan(env, Split(v, Whitespace));
      DeclStep(env, Declaration("border", v), s) ==
      s.(borderWidth := Override(found.width, s.borderWidth),
         borderColor := Override(found.color, s.borderColor),
         borderStyle := Override(found.style, s.borderStyle))
  {
    BorderKeys();
    KnownStep(env, "border", BorderProperty, v, s);
  }

  lemma BorderKeys()
    ensures PropertyOf("border-style") == Some(BorderStyleProperty)
    ensures PropertyOf("border-color") == Some(BorderColorProperty)
    ensures PropertyOf("border-width") == Some(BorderWidthProperty)
    ensures PropertyOf("border") == Some(BorderProperty)
  {
  }

  /** A single margin token applies to all four sides. */
  lemma UniformMargin(env: Env, marginValue: string, w: string)
    requires Split(marginValue, Whitespace) == [w]
    ensures ParseMargin(env, marginValue) == SetMargins(env.parseStyleValue(w), env.parseStyleValue(w),
                                                        env.parseStyleValue(w), env.parseStyleValue(w))
  {
  }

  /** Two margin tokens: the first is top and bottom, the second right and left. */
  lemma TwoValueMargin(env: Env, marginValue: string, v: string, h: string)
    requires Split(marginValue, Whitespace) == [v, h]
    ensures ParseMargin(env, marginValue) == SetMargins(env.parseStyleValue(v), env.parseStyleValue(h),
                                                        env.parseStyleValue(v), env.parseStyleValue(h))
  {
  }

  /** Three margin tokens: top, then right and left, then bottom. */
  lemma ThreeValueMargin(env: Env, marginValue: string, top: string, h: string, bottom: string)
    requires Split(marginValue, Whitespace) == [top, h, bottom]
    ensures ParseMargin(env, marginValue) == SetMargins(env.parseStyleValue(top), env.parseStyleValue(h),
                                                        env.parseStyleValue(bottom), env.parseStyleValue(h))
  {
  }

  /** Four margin tokens go clockwise: top, right, bottom, left. */
  lemma FourValueMargin(env: Env, marginValue: string, top: string, right: string, bottom: string, left: string)
    requires Split(marginValue, Whitespace) == [top, right, bottom, left]
    ensures ParseMargin(env, marginValue) == SetMargins(env.parseStyleValue(top), env.parseStyleValue(right),
                                                        env.parseStyleValue(bottom), env.parseStyleValue(left))
  {
  }

  /** Margin tokens in any other number than one to four set no side, given that the empty text is no length. */
  lemma MarginOtherCount(env: Env, marginValue: string, s: Style)
    requires !(1 <= |Split(marginValue, Whitespace)| <= 4)
    requires env.parseStyleValue("").None?
    ensures Apply(env, ParseMargin(env, marginValue), s) == s
  {
  }

  /**
   * A single-field property yields an updater exactly when its value
   * parses the way that property reads values.
   */
  lemma UpdaterIffValueParses(env: Env, key: string, value: string)
    ensures key in {"color", "background-color", "border-color"} ==>
      (GetStyleUpdater(env, key, value).Some? <==> ParseCSSColor(env, value).Some?)
    ensures key in {"margin-bottom", "margin-top", "margin-left", "margin-right", "text-indent", "border-width"} ==>
      (GetStyleUpdater(env, key, value).Some? <==> env.parseStyleValue(value).Some?)
    ensures key in {"align", "text-align"} ==>
      (GetStyleUpdater(env, key, value).Some? <==> ToUpper(value) in env.textAlignments)
    ensures key == "font-weight" ==> (GetStyleUpdater(env, key, value).Some? <==> ToUpper(value) in env.fontWeights)
    ensures key == "font-style" ==> (GetStyleUpdater(env, key, value).Some? <==> ToUpper(value) in env.fontStyles)
    ensures key == "display" ==> (GetStyleUpdater(env, key, value).Some? <==> ToUpper(value) in env.displayStyles)
    ensures key == "border-style" ==> (GetStyleUpdater(env, key, value).Some? <==> ToUpper(value) in env.borderStyles)
    ensures key == "font-size" ==>
      (GetStyleUpdater(env, key, value).Some? <==> env.parseStyleValue(value).Some? || ParseInt(value).Some?)
  {
    ColorKeys(key);
    LengthKeys(key);
    EnumKeys(key);
    match PropertyOf(key)
    case None =>
    case Some(p) => UpdaterForIffValueParses(env, p, value);
  }

  /** The colour-valued names and the properties they denote. */
  lemma ColorKeys(key: string)
    ensures key in {"color", "background-color", "border-color"} ==>
      PropertyOf(key) in {Some(ColorProperty), Some(BackgroundColorProperty), Some(BorderColorProperty)}
  {
  }

  /** The length-valued names and the properties they denote. */
  lemma LengthKeys(key: string)
    ensures key in {"margin-bottom", "margin-top", "margin-left", "margin-right", "text-indent", "border-width"} ==>
      PropertyOf(key) in {Some(MarginBottomProperty), Some(MarginTopProperty), Some(MarginLeftProperty),
                          Some(MarginRightProperty), Some(TextIndentProperty), Some(BorderWidthProperty)}
  {
  }

  /** The enumeration-valued names, and `font-size`, and the properties they denote. */
  lemma EnumKeys(key: string)
    ensures key in {"align", "text-align"} ==> PropertyOf(key) == Some(TextAlignProperty)
    ensures key == "font-weight" ==> PropertyOf(key) == Some(FontWeightProperty)
    ensures key == "font-style" ==> PropertyOf(key) == Some(FontStyleProperty)
    ensures key == "display" ==> PropertyOf(key) == Some(DisplayProperty)
    ensures key == "border-style" ==> PropertyOf(key) == Some(BorderStyleProperty)
    ensures key == "font-size" ==> PropertyOf(key) == Some(FontSizeProperty)
  {
  }

  /** The updater of a single-field property exists exactly when its value parses the way that property reads values. */
  lemma UpdaterForIffValueParses(env: Env, p: Property, value: string)
    ensures p in {ColorProperty, BackgroundColorProperty, BorderColorProperty} ==>
      (UpdaterFor(env, p, value).Some? <==> ParseCSSColor(env, value).Some?)
    ensures p in {MarginBottomProperty, MarginTopProperty, MarginLeftProperty, MarginRightProperty,
                  TextIndentProperty, BorderWidthProperty} ==>
      (UpdaterFor(env, p, value).Some? <==> env.parseStyleValue(value).Some?)
    ensures p == TextAlignProperty ==> (UpdaterFor(env, p, value).Some? <==> ToUpper(value) in env.textAlignments)
    ensures p == FontWeightProperty ==> (UpdaterFor(env, p, value).Some? <==> ToUpper(value) in env.fontWeights)
    ensures p == FontStyleProperty ==> (UpdaterFor(env, p, value).Some? <==> ToUpper(value) in env.fontStyles)
    ensures p == DisplayProperty ==> (UpdaterFor(env, p, value).Some? <==> ToUpper(value) in env.displayStyles)
    ensures p == BorderStyleProperty ==> (UpdaterFor(env, p, value).Some? <==> ToUpper(value) in env.borderStyles)
    ensures p == FontSizeProperty ==>
      (UpdaterFor(env, p, value).Some? <==> env.parseStyleValue(value).Some? || ParseInt(value).Some?)
  {
  }

  /** A `font-size` that parses as a length is used as it is; one that is neither a length nor an integer is dropped. */
  lemma FontSizeDeclaration(env: Env, value: string)
    ensures env.parseStyleValue(value).Some? ==>
      GetStyleUpdater(env, "font-size", value) == Some(SetFontSize(env.parseStyleValue(value).value))
    ensures env.parseStyleValue(value).None? && ParseInt(value).Some? ==>
      GetStyleUpdater(env, "font-size", value) == Some(SetFontSize(EmTenths(TranslateFontSize(ParseInt(value).value))))
    ensures env.parseStyleValue(value).None? && ParseInt(value).None? ==>
      GetStyleUpdater(env, "font-size", value).None?
  {
  }

  /** A token that can be read only as the given kind. */
  predicate OnlyAs(env: Env, token: string, kind: BorderKind)
  {
    forall k :: ParsesAs(env, k, token) <==> k == kind
  }

  /**
   * Border tokens may come in any order: when the definition holds one
   * width, one color and one style token that cannot be mistaken for one
   * another (repeated or not) and every other token is unreadable, the
   * three parts are found wherever they stand.
   */
  lemma BorderAnyOrder(env: Env, ts: seq<string>, w: string, c: string, st: string)
    requires OnlyAs(env, w, WidthToken) && OnlyAs(env, c, ColorToken) && OnlyAs(env, st, StyleToken)
    requires w in ts && c in ts && st in ts
    requires forall i :: 0 <= i < |ts| ==>
      ts[i] == w || ts[i] == c || ts[i] == st || forall k :: !ParsesAs(env, k, ts[i])
    ensures BorderScan(env, ts) ==
      BorderParts(env.parseStyleValue(w), ParseCSSColor(env, c), EnumOf(env.borderStyles, st))
  {
    BorderScanIsByFirst(env, ts);
    assert ParsesAs(env, WidthToken, w) && ParsesAs(env, ColorToken, c) && ParsesAs(env, StyleToken, st);
    var wi := FirstIndex(env, ts, WidthToken, {});
    var iw :| 0 <= iw < |ts| && ts[iw] == w;
    assert wi.Some?;
    assert ts[wi.value] == w by {
      assert ParsesAs(env, WidthToken, ts[wi.value]);
    }
    var ci := FirstIndex(env, ts, ColorToken, Taken(wi));
    var ic :| 0 <= ic < |ts| && ts[ic] == c;
    assert !ParsesAs(env, ColorToken, w);
    assert ic !in Taken(wi);
    assert ci.Some?;
    assert ts[ci.value] == c by {
      assert ParsesAs(env, ColorToken, ts[ci.value]);
    }
    var si := FirstIndex(env, ts, StyleToken, Taken(wi) + Taken(ci));
    var ist :| 0 <= ist < |ts| && ts[ist] == st;
    assert !ParsesAs(env, StyleToken, w) && !ParsesAs(env, StyleToken, c);
    assert ist !in Taken(wi) + Taken(ci);
    assert si.Some?;
    assert ts[si.value] == st by {
      assert ParsesAs(env, StyleToken, ts[si.value]);
    }
  }
}
