/**
 * CompiledRule: the matcher chains of a rule's selectors and the updaters
 * of its declarations, both fixed when the rule is compiled.
 */
module CompiledRules {
  import opened Wrappers
  import opened Styles
  import opened Declarations
  import opened TagTree
  import opened Selectors

  /** A chain matches a node when matcher `k` matches the node's `k`-th ancestor, for every `k`. */
  predicate ChainMatches(t: Tree, matchers: seq<Matcher>, node: Option<nat>)
    requires WellFormed(t) && ValidRef(t, node)
  {
    forall k :: 0 <= k < |matchers| ==> MatcherMatches(t, matchers[k], Ancestor(t, node, k))
  }

  class CompiledRule {
    /** The spanner the updaters ask for fonts. */
    const env: Env
    /** One chain per selector of the rule, OR'ed. */
    const chains: seq<seq<Matcher>>
    /** The updaters of the declarations that compiled, in declaration order. */
    const updaters: seq<Updater>
    const asText: string

    constructor (env: Env, chains: seq<seq<Matcher>>, updaters: seq<Updater>, asText: string)
      ensures this.env == env && this.chains == chains
      ensures this.updaters == updaters && this.asText == asText
    {
      this.env := env;
      this.chains := chains;
      this.updaters := updaters;
      this.asText := asText;
    }

    /** The rule matches a node when one of its chains does. */
    predicate MatchesNode(t: Tree, node: Option<nat>)
      requires WellFormed(t) && ValidRef(t, node)
    {
      exists i :: 0 <= i < |chains| && ChainMatches(t, chains[i], node)
    }

    /** The style this rule makes of `s`. */
    function Applied(s: Style): Style
    {
      ApplyAll(env, updaters, s)
    }

    /** `applyStyle`: each updater in turn, starting from `style`. */
    method ApplyStyle(style: Style) returns (result: Style)
      ensures result == Applied(style)
      ensures updaters == [] ==> result == style
      ensures SameExcept(style, result, WritesAll(updaters))
    {
      result := style;
      var i := 0;
      while i < |updaters|
        invariant 0 <= i <= |updaters|
        invariant result == ApplyAll(env, updaters[..i], style)
      {
        assert updaters[..i + 1][..i] == updaters[..i];
        result := Apply(env, updaters[i], result);
        i := i + 1;
      }
      assert updaters[..i] == updaters;
      ApplyAllFrame(env, updaters, style);
    }

    /** `matches`: try the chains in order and stop at the first that matches. */
    method Matches(t: Tree, node: Option<nat>) returns (b: bool)
      requires WellFormed(t) && ValidRef(t, node)
      ensures b <==> MatchesNode(t, node)
      ensures chains == [] ==> !b
    {
      var i := 0;
      while i < |chains|
        invariant 0 <= i <= |chains|
        invariant forall j :: 0 <= j < i ==> !ChainMatches(t, chains[j], node)
      {
        b := MatchesChain(t, chains[i], node);
        if b {
          return;
        }
        i := i + 1;
      }
      b := false;
    }

    /** `matchesChain`: test each matcher and move to the parent after each success. */
    static method MatchesChain(t: Tree, matchers: seq<Matcher>, node: Option<nat>) returns (b: bool)
      requires WellFormed(t) && ValidRef(t, node)
      ensures b == ChainMatches(t, matchers, node)
      ensures matchers == [] ==> b
    {
      var nodeToMatch := node;
      var k := 0;
      while k < |matchers|
        invariant 0 <= k <= |matchers|
        invariant ValidRef(t, nodeToMatch) && nodeToMatch == Ancestor(t, node, k)
        invariant forall j :: 0 <= j < k ==> MatcherMatches(t, matchers[j], Ancestor(t, node, j))
      {
        if !MatcherMatches(t, matchers[k], nodeToMatch) {
          return false;
        }
        AncestorSucc(t, node, k);
        nodeToMatch := Parent(t, nodeToMatch.value);
        k := k + 1;
      }
      return true;
    }
  }

  /**
   * Walking a chain: the first matcher takes the node, the rest of the
   * chain is matched from the parent up.
   */
  lemma {:induction false} ChainStep(t: Tree, matchers: seq<Matcher>, n: nat)
    requires WellFormed(t) && n < |t| && matchers != []
    ensures ChainMatches(t, matchers, Some(n)) <==>
      MatcherMatches(t, matchers[0], Some(n)) && ChainMatches(t, matchers[1..], Parent(t, n))
  {
    var rest := matchers[1..];
    assert forall k :: 0 <= k < |rest| ==> Ancestor(t, Some(n), k + 1) == Ancestor(t, Parent(t, n), k);
    if MatcherMatches(t, matchers[0], Some(n)) && ChainMatches(t, rest, Parent(t, n)) {
      forall k | 0 <= k < |matchers|
        ensures MatcherMatches(t, matchers[k], Ancestor(t, Some(n), k))
      {
        if k > 0 {
          assert matchers[k] == rest[k - 1];
        }
      }
    }
    if ChainMatches(t, matchers, Some(n)) {
      forall k | 0 <= k < |rest|
        ensures MatcherMatches(t, rest[k], Ancestor(t, Parent(t, n), k))
      {
        assert rest[k] == matchers[k + 1];
      }
    }
  }

  /**
   * A chain with more matchers than the node has ancestors (itself
   * included) never matches: the walk reaches null and null matches nothing.
   */
  lemma ChainTooLong(t: Tree, matchers: seq<Matcher>, n: nat)
    requires WellFormed(t) && n < |t|
    requires |matchers| > Depth(t, n) + 1
    ensures !ChainMatches(t, matchers, Some(n))
  {
    var k := Depth(t, n) + 1;
    AncestorWithinDepth(t, n, k);
    assert !MatcherMatches(t, matchers[k], Ancestor(t, Some(n), k));
  }
}
