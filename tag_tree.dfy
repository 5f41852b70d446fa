/**
 * The parsed markup tree the cascade reads: htmlcleaner's TagNode, kept in
 * an arena. A node is identified by its index, which is also what the
 * span stack's match cache is keyed by; a node reference that may be null
 * is an `Option<nat>`.
 */
module TagTree {
  import opened Wrappers

  datatype TagNode = TagNode(name: string, attributes: map<string, string>, parent: Option<nat>)

  type Tree = seq<TagNode>

  /** Every parent comes before its children, so walking up always ends. */
  predicate WellFormed(t: Tree)
  {
    forall i :: 0 <= i < |t| ==> t[i].parent.Some? ==> t[i].parent.value < i
  }

  /** A reference that is null or names a node of the tree. */
  predicate ValidRef(t: Tree, n: Option<nat>)
  {
    n.Some? ==> n.value < |t|
  }

  /** `getAttributeByName`: the value of an attribute, or null when the node has none. */
  function Attribute(t: Tree, n: nat, attributeName: string): Option<string>
    requires n < |t|
  {
    if attributeName in t[n].attributes then Some(t[n].attributes[attributeName]) else None
  }

  /** `getParent` of a node that is not null. */
  function Parent(t: Tree, n: nat): (r: Option<nat>)
    requires WellFormed(t) && n < |t|
    ensures r.Some? ==> r.value < n
  {
    t[n].parent
  }

  /** The `k`-th ancestor of `n`, where the 0-th is `n` itself; null once the root is passed. */
  function Ancestor(t: Tree, n: Option<nat>, k: nat): (r: Option<nat>)
    requires WellFormed(t) && ValidRef(t, n)
    ensures ValidRef(t, r)
    ensures n.None? ==> r.None?
    decreases k
  {
    if k == 0 || n.None? then n else Ancestor(t, Parent(t, n.value), k - 1)
  }

  /** The number of proper ancestors of a node. */
  function Depth(t: Tree, n: nat): nat
    requires WellFormed(t) && n < |t|
    decreases n
  {
    match Parent(t, n)
    case None => 0
    case Some(p) => 1 + Depth(t, p)
  }

  /** A node has an ancestor at distance `k` exactly when `k` is at most its depth. */
  lemma {:induction false} AncestorWithinDepth(t: Tree, n: nat, k: nat)
    requires WellFormed(t) && n < |t|
    ensures Ancestor(t, Some(n), k).Some? <==> k <= Depth(t, n)
    decreases n
  {
    if k > 0 {
      match Parent(t, n)
      case None =>
      case Some(p) => AncestorWithinDepth(t, p, k - 1);
    }
  }

  /** One step further up from the `k`-th ancestor is the `k + 1`-th. */
  lemma {:induction false} AncestorSucc(t: Tree, n: Option<nat>, k: nat)
    requires WellFormed(t) && ValidRef(t, n)
    ensures Ancestor(t, n, k + 1) ==
      match Ancestor(t, n, k)
      case None => None
      case Some(a) => Parent(t, a)
    decreases k
  {
    if k > 0 && n.Some? {
      AncestorSucc(t, Parent(t, n.value), k - 1);
    }
  }
}
