/**
 * SpanStack: the stack of deferred span actions filled while the tree is
 * walked and drained once afterwards, together with the registered rules
 * and the per-node cache of the rules that match.
 */
module SpanStacks {
  import opened Wrappers
  import opened Styles
  import opened Declarations
  import opened TagTree
  import opened CompiledRules

  /** The span objects handed to `pushSpan`; only BorderSpan is looked into. */
  datatype Span =
    | BorderSpan(style: Style, start: int, end: int, useColoursFromStyle: bool)
    | OtherSpan(id: nat)

  /** A SpanCallback: `builder.setSpan(span, start, end)` or some other callback. */
  datatype SpanAction = SetSpan(span: Span, spanStart: int, spanEnd: int) | Callback(id: nat)

  /** The elements of `s` from the last to the first. */
  function Reversed<T>(s: seq<T>): (r: seq<T>)
    ensures |r| == |s|
    ensures forall i :: 0 <= i < |s| ==> r[i] == s[|s| - 1 - i]
  {
    if s == [] then [] else [s[|s| - 1]] + Reversed(s[..|s| - 1])
  }

  /** Whatever is pushed after `s` comes out before it. */
  lemma ReversedAppend<T>(a: seq<T>, b: seq<T>)
    ensures Reversed(a + b) == Reversed(b) + Reversed(a)
  {
    var l, r := Reversed(a + b), Reversed(b) + Reversed(a);
    assert |l| == |r|;
    forall i | 0 <= i < |l| ensures l[i] == r[i] {
      if i < |b| {
        assert l[i] == (a + b)[|a| + |b| - 1 - i] == b[|b| - 1 - i];
      } else {
        assert l[i] == (a + b)[|a| + |b| - 1 - i] == a[|a| - 1 - (i - |b|)];
      }
    }
  }

  predicate NoDuplicates<T(==)>(s: seq<T>)
  {
    forall i, j :: 0 <= i < j < |s| ==> s[i] != s[j]
  }

  /** The rules applied one after another, each through its own updaters. */
  function FoldRules(rules: seq<CompiledRule>, s: Style): Style
  {
    if rules == [] then s else rules[|rules| - 1].Applied(FoldRules(rules[..|rules| - 1], s))
  }

  /** `list` holds each rule of `rules` that matches the node, once, and nothing else. */
  predicate MatchingRules(list: seq<CompiledRule>, rules: set<CompiledRule>, t: Tree, node: nat)
    requires WellFormed(t) && node < |t|
  {
    && NoDuplicates(list)
    && (forall i :: 0 <= i < |list| ==> list[i] in rules && list[i].MatchesNode(t, Some(node)))
    && (forall r :: r in rules && r.MatchesNode(t, Some(node)) ==> r in list)
  }

  class SpanStack {
    /** The pushed actions, the top of the stack last. */
    var spanItems: seq<SpanAction>
    /** The registered rules; a set, so its iteration order is not specified. */
    var rules: set<CompiledRule>
    /** For each node looked up so far, the rules that matched it at the time. */
    var lookupCache: map<nat, seq<CompiledRule>>

    /** A cached list holds registered rules, each once. */
    predicate Valid()
      reads this
    {
      forall n :: n in lookupCache ==>
        NoDuplicates(lookupCache[n]) && forall r :: r in lookupCache[n] ==> r in rules
    }

    constructor ()
      ensures Valid()
      ensures spanItems == [] && rules == {} && lookupCache == map[]
    {
      spanItems := [];
      rules := {};
      lookupCache := map[];
    }

    /** `registerCompiledRule`: add the rule to the set; adding it twice changes nothing. */
    method RegisterCompiledRule(rule: CompiledRule)
      requires Valid()
      modifies this
      ensures Valid()
      ensures rules == old(rules) + {rule}
      ensures rule in old(rules) ==> rules == old(rules)
      ensures spanItems == old(spanItems) && lookupCache == old(lookupCache)
    {
      rules := rules + {rule};
    }

    /**
     * `getStyle`: on the first call for a node, collect the registered
     * rules that match it (in whatever order the set yields them) and cache
     * the list; then fold the cached rules over `baseStyle`.
     */
    method GetStyle(t: Tree, node: nat, baseStyle: Style) returns (result: Style)
      requires Valid() && WellFormed(t) && node < |t|
      modifies this
      ensures Valid()
      ensures spanItems == old(spanItems) && rules == old(rules)
      ensures node in old(lookupCache) ==> lookupCache == old(lookupCache)
      ensures node !in old(lookupCache) ==>
        node in lookupCache && lookupCache == old(lookupCache)[node := lookupCache[node]] &&
        MatchingRules(lookupCache[node], rules, t, node)
      ensures node in lookupCache && result == FoldRules(lookupCache[node], baseStyle)
      ensures lookupCache[node] == [] ==> result == baseStyle
    {
      if node !in lookupCache {
        var matchingRules: seq<CompiledRule> := [];
        var remaining := rules;
        while remaining != {}
          invariant remaining <= rules
          invariant spanItems == old(spanItems) && rules == old(rules) && lookupCache == old(lookupCache)
          invariant NoDuplicates(matchingRules)
          invariant forall i :: 0 <= i < |matchingRules| ==>
            matchingRules[i] in rules - remaining && matchingRules[i].MatchesNode(t, Some(node))
          invariant forall r :: r in rules - remaining && r.MatchesNode(t, Some(node)) ==> r in matchingRules
          decreases remaining
        {
          var rule :| rule in remaining;
          var m := rule.Matches(t, Some(node));
          if m {
            matchingRules := matchingRules + [rule];
          }
          remaining := remaining - {rule};
        }
        lookupCache := lookupCache[node := matchingRules];
      }
      var cached := lookupCache[node];
      ghost var cache := lookupCache;
      result := baseStyle;
      var i := 0;
      while i < |cached|
        invariant 0 <= i <= |cached|
        invariant lookupCache == cache && spanItems == old(spanItems) && rules == old(rules)
        invariant result == FoldRules(cached[..i], baseStyle)
      {
        assert cached[..i + 1][..i] == cached[..i];
        result := cached[i].ApplyStyle(result);
        i := i + 1;
      }
      assert cached[..i] == cached;
    }

    /** `pushSpan(span, start, end)`: push a setSpan action, but only for a non-empty range. */
    method PushSpan(span: Span, start: int, end: int)
      modifies this
      ensures spanItems == old(spanItems) + (if end > start then [SetSpan(span, start, end)] else [])
      ensures rules == old(rules) && lookupCache == old(lookupCache)
    {
      if end > start {
        spanItems := spanItems + [SetSpan(span, start, end)];
      }
    }

    /** `pushSpan(callback)`: push the callback unconditionally. */
    method PushCallback(callback: SpanAction)
      modifies this
      ensures spanItems == old(spanItems) + [callback]
      ensures rules == old(rules) && lookupCache == old(lookupCache)
    {
      spanItems := spanItems + [callback];
    }

    /**
     * `applySpans`: pop and apply until the stack is empty. The builder is
     * modelled by the actions applied to it, in the order they are applied.
     */
    method ApplySpans() returns (applied: seq<SpanAction>)
      modifies this
      ensures applied == Reversed(old(spanItems))
      ensures spanItems == []
      ensures rules == old(rules) && lookupCache == old(lookupCache)
    {
      applied := [];
      while spanItems != []
        invariant applied + Reversed(spanItems) == Reversed(old(spanItems))
        invariant rules == old(rules) && lookupCache == old(lookupCache)
        decreases |spanItems|
      {
        var top := spanItems[|spanItems| - 1];
        spanItems := spanItems[..|spanItems| - 1];
        applied := applied + [top];
      }
    }
  }

  /** Actions pushed in the order `a`, `b` are applied `b` first: a corollary of `ReversedAppend`. */
  lemma DrainOrder(s: seq<SpanAction>, a: SpanAction, b: SpanAction)
    ensures Reversed(s + [a, b]) == [b, a] + Reversed(s)
  {
    ReversedAppend(s, [a, b]);
  }

  /**
   * Among the cached rules, the last one that writes field `f` decides it,
   * whatever the earlier rules and the base style hold.
   */
  lemma {:induction false} LaterRuleWins(rules: seq<CompiledRule>, s: Style, t: Style, f: Field, j: nat)
    requires j < |rules| && f in WritesAll(rules[j].updaters)
    requires forall k :: j < k < |rules| ==> f !in WritesAll(rules[k].updaters)
    ensures Agree(FoldRules(rules, s), rules[j].Applied(t), f)
  {
    var n := |rules| - 1;
    var init := rules[..n];
    var before := FoldRules(init, s);
    if j == n {
      ApplyAllWriteIsIndependent(rules[n].env, rules[n].updaters, before, t, f);
    } else {
      ApplyAllFrame(rules[n].env, rules[n].updaters, before);
      assert forall k :: j < k < |init| ==> init[k] == rules[k];
      LaterRuleWins(init, s, t, f, j);
    }
  }
}
