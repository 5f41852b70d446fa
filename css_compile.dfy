/**
 * `CSSCompiler.compile`: a parsed rule becomes a CompiledRule whose values
 * are all parsed up front.
 */
module Compiler {
  import opened Wrappers
  import opened JavaText
  import opened Styles
  import opened Declarations
  import opened Selectors
  import opened CompiledRules

  /**
   * A rule as the CSS parser hands it over: its selectors (as text), its
   * declarations, and its printed form.
   */
  datatype Rule = Rule(selectors: seq<string>, declarations: seq<Declaration>, text: string)

  /** One matcher chain per selector, in selector order. */
  function ChainsOf(selectors: seq<string>): seq<seq<Matcher>>
  {
    if selectors == [] then []
    else ChainsOf(selectors[..|selectors| - 1]) + [MatchersOfParts(Split(selectors[|selectors| - 1], Whitespace))]
  }

  /** One more selector adds its chain at the end. */
  lemma ChainsOfSnoc(selectors: seq<string>, s: string)
    ensures ChainsOf(selectors + [s]) == ChainsOf(selectors) + [MatchersOfParts(Split(s, Whitespace))]
  {
    assert (selectors + [s])[..|selectors|] == selectors;
  }

  /** Chain `i` is the reversed matchers of the whitespace-separated parts of selector `i`. */
  lemma {:induction false} ChainPerSelector(selectors: seq<string>)
    ensures |ChainsOf(selectors)| == |selectors|
    ensures forall i :: 0 <= i < |selectors| ==>
      ChainsOf(selectors)[i] == MatchersOfParts(Split(selectors[i], Whitespace))
  {
    if selectors != [] {
      var init, last := selectors[..|selectors| - 1], selectors[|selectors| - 1];
      ChainPerSelector(init);
      assert selectors == init + [last];
      ChainsOfSnoc(init, last);
      forall i | 0 <= i < |selectors|
        ensures ChainsOf(selectors)[i] == MatchersOfParts(Split(selectors[i], Whitespace))
      {
        if i < |init| {
          assert selectors[i] == init[i];
        }
      }
    }
  }

  lemma KeptSnoc(env: Env, decls: seq<Declaration>, d: Declaration)
    ensures Kept(env, decls + [d]) ==
      Kept(env, decls) + match GetStyleUpdater(env, d.property, d.value) case Some(u) => [u] case None => []
  {
    assert (decls + [d])[..|decls|] == decls;
  }

  /** `compile`: build the chains, keep the updaters that are not null, wrap them in a new CompiledRule. */
  method Compile(env: Env, rule: Rule) returns (compiled: CompiledRule)
    ensures fresh(compiled)
    ensures compiled.env == env && compiled.asText == rule.text
    ensures compiled.chains == ChainsOf(rule.selectors)
    ensures compiled.updaters == Kept(env, rule.declarations)
  {
    var matchers: seq<seq<Matcher>> := [];
    var i := 0;
    while i < |rule.selectors|
      invariant 0 <= i <= |rule.selectors|
      invariant matchers == ChainsOf(rule.selectors[..i])
    {
      var selMatchers := CreateMatchersFromSelector(rule.selectors[i]);
      ChainsOfSnoc(rule.selectors[..i], rule.selectors[i]);
      TakeOneMore(rule.selectors, i);
      matchers := matchers + [selMatchers];
      i := i + 1;
    }
    assert rule.selectors[..i] == rule.selectors;
    var styleUpdaters: seq<Updater> := [];
    var j := 0;
    while j < |rule.declarations|
      invariant 0 <= j <= |rule.declarations|
      invariant styleUpdaters == Kept(env, rule.declarations[..j])
    {
      var d := rule.declarations[j];
      var updater := GetStyleUpdater(env, d.property, d.value);
      KeptSnoc(env, rule.declarations[..j], d);
      TakeOneMore(rule.declarations, j);
      if updater.Some? {
        styleUpdaters := styleUpdaters + [updater.value];
      }
      j := j + 1;
    }
    assert rule.declarations[..j] == rule.declarations;
    compiled := new CompiledRule(env, matchers, styleUpdaters, rule.text);
  }

  /** A compiled rule restyles a node as its declarations would, applied in order. */
  lemma CompiledStyleIsDeclarations(env: Env, rule: Rule, compiled: CompiledRule, s: Style)
    requires compiled.env == env && compiled.updaters == Kept(env, rule.declarations)
    ensures compiled.Applied(s) == DeclFold(env, rule.declarations, s)
  {
    FoldKept(env, rule.declarations, s);
  }
}
