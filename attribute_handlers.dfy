/**
 * The two attribute handlers that wrap another handler: StyleAttributeHandler
 * restyles from a node's `style` attribute, BorderAttributeHandler pushes a
 * border for a node with a `border` attribute. Both then hand the node on
 * to the handler they wrap, when there is one; that call is returned as a
 * value.
 */
module AttributeHandlers {
  import opened Wrappers
  import opened JavaText
  import opened Styles
  import opened Declarations
  import opened TagTree
  import opened SpanStacks

  /** The arguments the wrapped handler's `handleTagNode` receives. */
  datatype DelegateCall = DelegateCall(node: nat, start: int, end: int, useStyle: Style)

  /** Each `;`-separated pair split on `:`. */
  function KeyValues(pairs: seq<string>): (r: seq<seq<string>>)
    ensures |r| == |pairs|
  {
    seq(|pairs|, i requires 0 <= i < |pairs| => Split(pairs[i], {':'}))
  }

  /** The declaration of a split pair: lower-case each half, then trim it; None unless there are two halves. */
  function PairOf(keyVal: seq<string>): (r: Option<Declaration>)
    ensures r.Some? <==> |keyVal| == 2
    ensures r.Some? ==> Normalized(r.value.property) && Normalized(r.value.value)
  {
    if |keyVal| != 2 then None
    else
      NormalizedHalf(keyVal[0]);
      NormalizedHalf(keyVal[1]);
      Some(Declaration(Trim(ToLower(keyVal[0])), Trim(ToLower(keyVal[1]))))
  }

  /** Text with no ASCII capital and no blank (or control character) at either end. */
  predicate Normalized(s: string)
  {
    (forall i :: 0 <= i < |s| ==> !('A' <= s[i] <= 'Z')) && (s != [] ==> s[0] > ' ' && s[|s| - 1] > ' ')
  }

  lemma NormalizedHalf(half: string)
    ensures Normalized(Trim(ToLower(half)))
  {
    var lower := ToLower(half);
    var r := Trim(lower);
    forall i | 0 <= i < |r| ensures !('A' <= r[i] <= 'Z') {
      assert r[i] == lower[TrimFrom(lower) + i];
    }
  }

  /** A half that is already lower-case and trimmed is kept as it is. */
  lemma PairOfNormalized(key: string, value: string)
    requires Normalized(key) && Normalized(value)
    ensures PairOf([key, value]) == Some(Declaration(key, value))
  {
    LowerOfNormalized(key);
    LowerOfNormalized(value);
    TrimOfTrimmed(key);
    TrimOfTrimmed(value);
  }

  lemma LowerOfNormalized(s: string)
    requires Normalized(s)
    ensures ToLower(s) == s
  {
  }

  /**
   * Halves that differ only in ASCII case and in blanks at their ends give
   * the same declaration: the key and value are looked up in normal form.
   */
  lemma PairOfIgnoresCaseAndBlanks(k1: string, k2: string, v1: string, v2: string,
                                   b1: string, b2: string, b3: string, b4: string)
    requires ToLower(k1) == ToLower(k2) && ToLower(v1) == ToLower(v2)
    requires Blanks(b1) && Blanks(b2) && Blanks(b3) && Blanks(b4)
    ensures PairOf([b1 + k1 + b2, b3 + v1 + b4]) == PairOf([k2, v2])
  {
    LowerAround(b1, k1, b2);
    LowerAround(b3, v1, b4);
  }

  /** Lower-casing, then trimming, a half with blanks around it gives what the bare half gives. */
  lemma LowerAround(b1: string, k: string, b2: string)
    requires Blanks(b1) && Blanks(b2)
    ensures Trim(ToLower(b1 + k + b2)) == Trim(ToLower(k))
  {
    ToLowerAppend(b1 + k, b2);
    ToLowerAppend(b1, k);
    assert ToLower(b1) == b1 && ToLower(b2) == b2;
    TrimIgnoresBlanks(b1, ToLower(k), b2);
  }

  /** The declarations of the split pairs, or None when one of them is malformed. */
  function DeclarationsOf(keyVals: seq<seq<string>>): Option<seq<Declaration>>
  {
    if keyVals == [] then Some([])
    else
      match DeclarationsOf(keyVals[..|keyVals| - 1])
      case None => None
      case Some(ds) =>
        match PairOf(keyVals[|keyVals| - 1])
        case None => None
        case Some(d) => Some(ds + [d])
  }

  /** A malformed pair anywhere in the list makes the whole list malformed. */
  lemma {:induction false} MalformedPairSpoils(keyVals: seq<seq<string>>, i: nat)
    requires i < |keyVals| && |keyVals[i]| != 2
    ensures DeclarationsOf(keyVals).None?
  {
    var init := keyVals[..|keyVals| - 1];
    if i < |init| {
      assert init[i] == keyVals[i];
      MalformedPairSpoils(init, i);
      assert DeclarationsOf(init).None?;
    } else {
      assert PairOf(keyVals[|keyVals| - 1]).None?;
    }
  }

  /** One more well-formed pair adds its declaration at the end. */
  lemma DeclarationsOfStep(keyVals: seq<seq<string>>, i: nat)
    requires i < |keyVals| && DeclarationsOf(keyVals[..i]).Some? && |keyVals[i]| == 2
    ensures DeclarationsOf(keyVals[..i + 1]) ==
      Some(DeclarationsOf(keyVals[..i]).value + [PairOf(keyVals[i]).value])
  {
    assert keyVals[..i + 1][..i] == keyVals[..i];
  }

  /**
   * What `parseStyleFromAttribute` returns: the declarations of the
   * `;`-separated pairs folded over `baseStyle`, or `baseStyle` itself
   * when any pair does not split on `:` into exactly two parts.
   */
  function StyleFromAttribute(env: Env, baseStyle: Style, attribute: string): Style
  {
    match DeclarationsOf(KeyValues(Split(attribute, {';'})))
    case None => baseStyle
    case Some(decls) => DeclFold(env, decls, baseStyle)
  }

  /** `parseStyleFromAttribute`: the loop over the pairs, giving up on the first malformed one. */
  method ParseStyleFromAttribute(env: Env, baseStyle: Style, attribute: string) returns (style: Style)
    ensures style == StyleFromAttribute(env, baseStyle, attribute)
  {
    style := baseStyle;
    var pairs := Split(attribute, {';'});
    var i := 0;
    while i < |pairs|
      invariant 0 <= i <= |pairs|
      invariant DeclarationsOf(KeyValues(pairs)[..i]).Some?
      invariant style == DeclFold(env, DeclarationsOf(KeyValues(pairs)[..i]).value, baseStyle)
    {
      var keyVal := Split(pairs[i], {':'});
      assert keyVal == KeyValues(pairs)[i];
      if |keyVal| != 2 {
        MalformedPairSpoils(KeyValues(pairs), i);
        return baseStyle;
      }
      var key := Trim(ToLower(keyVal[0]));
      var value := Trim(ToLower(keyVal[1]));
      var updater := GetStyleUpdater(env, key, value);
      ghost var before := DeclarationsOf(KeyValues(pairs)[..i]).value;
      DeclarationsOfStep(KeyValues(pairs), i);
      assert PairOf(keyVal) == Some(Declaration(key, value));
      DeclFoldSnoc(env, before, Declaration(key, value), baseStyle);
      if updater.Some? {
        style := Apply(env, updater.value, style);
      }
      i := i + 1;
    }
    assert KeyValues(pairs)[..i] == KeyValues(pairs);
  }

  /** WrappingStyleHandler's `handleTagNode`: the call is made only when there is a wrapped handler. */
  function Delegate(wrapped: bool, call: DelegateCall): (r: Option<DelegateCall>)
    ensures r.Some? <==> wrapped
    ensures r.Some? ==> r.value == call
  {
    if wrapped then Some(call) else None
  }

  /**
   * `handleTagNode` of StyleAttributeHandler: with styling allowed and a
   * `style` attribute present, the wrapped handler gets the restyled
   * style; otherwise it gets `useStyle`. Node and range pass unchanged.
   * `wrapped` says whether the wrapped handler is not null.
   */
  function HandleStyleAttribute(env: Env, t: Tree, node: nat, start: int, end: int, useStyle: Style,
                                wrapped: bool): (call: Option<DelegateCall>)
    requires node < |t|
    ensures call.Some? <==> wrapped
    ensures call.Some? ==> call.value.node == node && call.value.start == start && call.value.end == end
    ensures call.Some? && (!env.allowStyling || "style" !in t[node].attributes) ==> call.value.useStyle == useStyle
    ensures call.Some? && env.allowStyling && "style" in t[node].attributes ==>
      call.value.useStyle == StyleFromAttribute(env, useStyle, t[node].attributes["style"])
  {
    var styleAttr := Attribute(t, node, "style");
    if env.allowStyling && styleAttr.Some? then
      Delegate(wrapped, DelegateCall(node, start, end, StyleFromAttribute(env, useStyle, styleAttr.value)))
    else
      Delegate(wrapped, DelegateCall(node, start, end, useStyle))
  }

  /** One malformed pair anywhere discards the whole attribute, earlier pairs included. */
  lemma MalformedPairDiscards(env: Env, baseStyle: Style, attribute: string, i: nat)
    requires i < |Split(attribute, {';'})| && |Split(Split(attribute, {';'})[i], {':'})| != 2
    ensures StyleFromAttribute(env, baseStyle, attribute) == baseStyle
  {
    MalformedPairSpoils(KeyValues(Split(attribute, {';'})), i);
  }

  /**
   * An attribute that ends in `"; "` is discarded whole: `split(";")` keeps
   * the final `" "`, which has no `:` to split on.
   */
  lemma TrailingSeparatorDiscards(env: Env, baseStyle: Style, attribute: string)
    ensures StyleFromAttribute(env, baseStyle, attribute + "; ") == baseStyle
  {
    var s := attribute + "; ";
    assert s[|attribute|] == ';' && s[|attribute| + 1..] == " ";
    SplitEndsWithPiece(s, |attribute|, {';'});
    var pairs := Split(s, {';'});
    assert Split(" ", {':'}) == [" "];
    MalformedPairDiscards(env, baseStyle, s, |pairs| - 1);
  }

  /** A declaration with an unknown property or an unparseable value has no effect on the others. */
  lemma SkipsUnusable(env: Env, before: seq<Declaration>, d: Declaration, after: seq<Declaration>, s: Style)
    requires GetStyleUpdater(env, d.property, d.value).None?
    ensures DeclFold(env, before + [d] + after, s) == DeclFold(env, before + after, s)
  {
    DeclFoldAppend(env, before + [d], after, s);
    DeclFoldSnoc(env, before, d, s);
    DeclFoldAppend(env, before, after, s);
  }

  /**
   * `handleTagNode` of BorderAttributeHandler: push a BorderSpan over
   * `[start, end)` carrying `useStyle` when the node has a `border`
   * attribute (the stack itself drops an empty range), then delegate when
   * there is a wrapped handler.
   */
  method HandleBorderAttribute(stack: SpanStack, env: Env, t: Tree, node: nat, start: int, end: int,
                               useStyle: Style, wrapped: bool) returns (call: Option<DelegateCall>)
    requires node < |t|
    modifies stack
    ensures call == if wrapped then Some(DelegateCall(node, start, end, useStyle)) else None
    ensures stack.spanItems == old(stack.spanItems) +
      if "border" in t[node].attributes && end > start
      then [SetSpan(BorderSpan(useStyle, start, end, env.useColoursFromStyle), start, end)]
      else []
    ensures stack.rules == old(stack.rules) && stack.lookupCache == old(stack.lookupCache)
  {
    if Attribute(t, node, "border").Some? {
      stack.PushSpan(BorderSpan(useStyle, start, end, env.useColoursFromStyle), start, end);
    }
    call := Delegate(wrapped, DelegateCall(node, start, end, useStyle));
  }

  /**
   * The border is pushed before the wrapped handler runs, so whatever that
   * handler pushes is applied before the border when the stack is drained
   * (a corollary of `ReversedAppend`).
   */
  lemma BorderAppliedAfterInner(pending: seq<SpanAction>, border: SpanAction, inner: seq<SpanAction>)
    ensures Reversed(pending + [border] + inner) == Reversed(inner) + [border] + Reversed(pending)
  {
    ReversedAppend(pending + [border], inner);
    ReversedAppend(pending, [border]);
  }
}
