/**
 * The Style value that the cascade computes, its fields, and the
 * environment of collaborators the engine calls but whose code is not part
 * of this model (Android's color parser, StyleValue.parse, the Style enums,
 * the spanner's font lookup and its feature flags).
 */
module Styles {
  import opened Wrappers

  /** Unit of a StyleValue; the engine itself only ever names EM. */
  datatype Unit = Em | Px | OtherUnit(name: string)

  /** A length: a magnitude (exact here, a float in the source) and its unit. */
  datatype StyleValue = StyleValue(magnitude: real, unit: Unit)

  /** A constant of one of Style's enums, identified by its ordinal. */
  type Ordinal = nat

  /** A FontFamily object returned by the spanner's font lookup. */
  type FontRef = nat

  /** Every property is optional: None means "not set here". */
  datatype Style = Style(
    color: Option<int>,
    backgroundColor: Option<int>,
    textAlignment: Option<Ordinal>,
    fontWeight: Option<Ordinal>,
    fontStyle: Option<Ordinal>,
    fontFamily: Option<FontRef>,
    fontSize: Option<StyleValue>,
    marginTop: Option<StyleValue>,
    marginRight: Option<StyleValue>,
    marginBottom: Option<StyleValue>,
    marginLeft: Option<StyleValue>,
    textIndent: Option<StyleValue>,
    displayStyle: Option<Ordinal>,
    borderStyle: Option<Ordinal>,
    borderColor: Option<int>,
    borderWidth: Option<StyleValue>)

  /** `new Style()`: nothing set. */
  const Blank: Style := Style(None, None, None, None, None, None, None, None,
                              None, None, None, None, None, None, None, None)

  /** The names of Style's fields, so that "which fields a declaration touches" can be stated. */
  datatype Field =
    | Color | BackgroundColor | TextAlignment | FontWeight | FontStyle | FontFamily | FontSize
    | MarginTop | MarginRight | MarginBottom | MarginLeft | TextIndent | DisplayStyle
    | BorderStyle | BorderColor | BorderWidth

  /** `s` and `t` hold the same value in field `f`. */
  predicate Agree(s: Style, t: Style, f: Field)
  {
    match f
    case Color => s.color == t.color
    case BackgroundColor => s.backgroundColor == t.backgroundColor
    case TextAlignment => s.textAlignment == t.textAlignment
    case FontWeight => s.fontWeight == t.fontWeight
    case FontStyle => s.fontStyle == t.fontStyle
    case FontFamily => s.fontFamily == t.fontFamily
    case FontSize => s.fontSize == t.fontSize
    case MarginTop => s.marginTop == t.marginTop
    case MarginRight => s.marginRight == t.marginRight
    case MarginBottom => s.marginBottom == t.marginBottom
    case MarginLeft => s.marginLeft == t.marginLeft
    case TextIndent => s.textIndent == t.textIndent
    case DisplayStyle => s.displayStyle == t.displayStyle
    case BorderStyle => s.borderStyle == t.borderStyle
    case BorderColor => s.borderColor == t.borderColor
    case BorderWidth => s.borderWidth == t.borderWidth
  }

  /** `s` and `t` differ at most in the fields `fs`. */
  predicate SameExcept(s: Style, t: Style, fs: set<Field>)
  {
    forall f :: f !in fs ==> Agree(s, t, f)
  }

  /** Two styles that agree on every field are the same style. */
  lemma AgreeEverywhere(s: Style, t: Style)
    requires SameExcept(s, t, {})
    ensures s == t
  {
    assert Agree(s, t, Color) && Agree(s, t, BackgroundColor) && Agree(s, t, TextAlignment);
    assert Agree(s, t, FontWeight) && Agree(s, t, FontStyle) && Agree(s, t, FontFamily);
    assert Agree(s, t, FontSize) && Agree(s, t, MarginTop) && Agree(s, t, MarginRight);
    assert Agree(s, t, MarginBottom) && Agree(s, t, MarginLeft) && Agree(s, t, TextIndent);
    assert Agree(s, t, DisplayStyle) && Agree(s, t, BorderStyle) && Agree(s, t, BorderColor);
    assert Agree(s, t, BorderWidth);
  }

  /**
   * The collaborators. A parser returns None where the Java code sees an
   * IllegalArgumentException (Color.parseColor, Enum.valueOf) or null
   * (StyleValue.parse). The enum fields list each enum's constant names in
   * declaration order.
   */
  datatype Env = Env(
    parseColor: string -> Option<int>,
    parseStyleValue: string -> Option<StyleValue>,
    textAlignments: seq<string>,
    fontWeights: seq<string>,
    fontStyles: seq<string>,
    displayStyles: seq<string>,
    borderStyles: seq<string>,
    getFont: string -> Option<FontRef>,
    allowStyling: bool,
    useColoursFromStyle: bool)

  /** `Enum.valueOf(name)`: the constant whose name is exactly `name`. */
  function ValueOf(names: seq<string>, name: string): (r: Option<Ordinal>)
    ensures r.Some? ==> r.value < |names| && names[r.value] == name
    ensures r.None? <==> name !in names
  {
    if names == [] then None
    else if names[|names| - 1] == name then
      match ValueOf(names[..|names| - 1], name)
      case Some(i) => Some(i)
      case None => Some(|names| - 1)
    else
      assert names == names[..|names| - 1] + [names[|names| - 1]];
      ValueOf(names[..|names| - 1], name)
  }
}
