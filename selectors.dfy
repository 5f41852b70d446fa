/**
 * The selector half of CSSCompiler: a selector string becomes a chain of
 * node matchers, the rightmost part first.
 */
module Selectors {
  import opened Wrappers
  import opened JavaText
  import opened TagTree

  /**
   * The three TagNodeMatcher classes. A ClassMatcher whose part did not
   * split into exactly two elements keeps both fields null.
   */
  datatype Matcher =
    | ClassMatcher(classTag: Option<string>, className: Option<string>)
    | IdMatcher(id: string)
    | TagNameMatcher(tagName: string)

  /** The ClassMatcher constructor: split the part on `.`, keep the halves only if there are two. */
  function ClassMatcherOf(selectorString: string): Matcher
  {
    var elements := Split(selectorString, {'.'});
    if |elements| == 2 then ClassMatcher(Some(elements[0]), Some(elements[1]))
    else ClassMatcher(None, None)
  }

  /** `createMatcherFromPart`: a part holding a `.` is a class, else one starting with `#` an id, else a tag. */
  function MatcherFromPart(selectorPart: string): Matcher
  {
    if '.' in selectorPart then ClassMatcherOf(selectorPart)
    else if |selectorPart| > 0 && selectorPart[0] == '#' then IdMatcher(selectorPart[1..])
    else TagNameMatcher(Trim(selectorPart))
  }

  /** `matcher.matches(tagNode)`; a null node matches nothing. */
  function MatcherMatches(t: Tree, m: Matcher, node: Option<nat>): (r: bool)
    requires ValidRef(t, node)
    ensures node.None? ==> !r
  {
    match node
    case None => false
    case Some(n) =>
      match m
      case ClassMatcher(tag, cls) =>
        if tag.Some? && |tag.value| > 0 && tag.value != t[n].name then false
        else
          var classAttribute := Attribute(t, n, "class");
          classAttribute.Some? && cls.Some? && classAttribute.value == cls.value
      case IdMatcher(id) =>
        var idAttribute := Attribute(t, n, "id");
        idAttribute.Some? && idAttribute.value == id
      case TagNameMatcher(tagName) => EqualsIgnoreCase(tagName, t[n].name)
  }

  /** The matchers of the parts, in reverse: one per part. */
  function MatchersOfParts(parts: seq<string>): (r: seq<Matcher>)
    ensures |r| == |parts|
  {
    if parts == [] then []
    else MatchersOfParts(parts[1..]) + [MatcherFromPart(parts[0])]
  }

  /** Matcher `i` comes from part `|parts| - 1 - i`: the rightmost part is matched first. */
  lemma {:induction false} MatcherOfPart(parts: seq<string>, i: nat)
    requires i < |parts|
    ensures MatchersOfParts(parts)[i] == MatcherFromPart(parts[|parts| - 1 - i])
  {
    var rest := parts[1..];
    if i < |rest| {
      calc {
        MatchersOfParts(parts)[i];
        (MatchersOfParts(rest) + [MatcherFromPart(parts[0])])[i];
        MatchersOfParts(rest)[i];
        { MatcherOfPart(rest, i); }
        MatcherFromPart(rest[|rest| - 1 - i]);
        { assert rest[|rest| - 1 - i] == parts[|parts| - 1 - i]; }
        MatcherFromPart(parts[|parts| - 1 - i]);
      }
    }
  }

  /** `createMatchersFromSelector`: split on whitespace and walk the parts from the last to the first. */
  method CreateMatchersFromSelector(selectorString: string) returns (matchers: seq<Matcher>)
    ensures matchers == MatchersOfParts(Split(selectorString, Whitespace))
  {
    var parts := Split(selectorString, Whitespace);
    matchers := [];
    var i := |parts| - 1;
    while i >= 0
      invariant -1 <= i < |parts|
      invariant matchers == MatchersOfParts(parts[i + 1..])
    {
      assert parts[i..][1..] == parts[i + 1..];
      matchers := matchers + [MatcherFromPart(parts[i])];
      i := i - 1;
    }
    assert parts[0..] == parts;
  }

  /**
   * A part with one `.` between a tag and a class matches a node when the
   * tag, if given, equals the node's name (case counts) and the node's
   * `class` attribute is exactly the class.
   */
  lemma ClassPart(t: Tree, selectorPart: string, tag: string, cls: string, n: nat)
    requires n < |t|
    requires '.' in selectorPart && Split(selectorPart, {'.'}) == [tag, cls]
    ensures MatcherMatches(t, MatcherFromPart(selectorPart), Some(n)) <==>
      (tag == [] || tag == t[n].name) && "class" in t[n].attributes && t[n].attributes["class"] == cls
  {
  }

  /** A class part that does not split into exactly two elements never matches. */
  lemma MalformedClassPart(t: Tree, selectorPart: string, n: Option<nat>)
    requires ValidRef(t, n)
    requires '.' in selectorPart && |Split(selectorPart, {'.'})| != 2
    ensures !MatcherMatches(t, MatcherFromPart(selectorPart), n)
  {
  }

  /** A `#` part without a `.` matches the node whose `id` attribute is the rest of the part. */
  lemma IdPart(t: Tree, selectorPart: string, n: nat)
    requires n < |t|
    requires '.' !in selectorPart && |selectorPart| > 0 && selectorPart[0] == '#'
    ensures MatcherMatches(t, MatcherFromPart(selectorPart), Some(n)) <==>
      "id" in t[n].attributes && t[n].attributes["id"] == selectorPart[1..]
  {
  }

  /** Any other part matches by tag name, ignoring case and surrounding blanks of the part. */
  lemma TagPart(t: Tree, selectorPart: string, n: nat)
    requires n < |t|
    requires '.' !in selectorPart && !(|selectorPart| > 0 && selectorPart[0] == '#')
    ensures MatcherMatches(t, MatcherFromPart(selectorPart), Some(n)) <==>
      ToLower(Trim(selectorPart)) == ToLower(t[n].name)
  {
  }
}
