/**
 * The part of a parsed XML document that the plugin list reads: a tree of
 * elements (tag, attributes, children) and leaf nodes (text and the like).
 * Only the navigation the plugin list performs on the tree is defined here;
 * parsing and saving documents belong to the XML library.
 */
module Xml {
  import opened Wrappers

  datatype Node =
    | Element(tag: string, attributes: map<string, string>, children: seq<Node>)
    | Leaf(text: string)

  /** A node's Value(): the tag of an element, the text of a leaf. */
  function Value(n: Node): string
  {
    match n
    case Element(tag, _, _) => tag
    case Leaf(text) => text
  }

  /** The child nodes of a node; a leaf has none. */
  function Children(n: Node): seq<Node>
  {
    if n.Element? then n.children else []
  }

  predicate IsElement(n: Node, tag: string)
  {
    n.Element? && n.tag == tag
  }

  /** Attribute(name) of an element; absent on a leaf or when not set. */
  function Attribute(n: Node, name: string): Option<string>
  {
    if n.Element? && name in n.attributes then Some(n.attributes[name]) else None
  }

  /**
   * What FirstChildElement looks for: an element with the given tag, or
   * (with no tag) an element of any tag.
   */
  predicate Matches(n: Node, tag: Option<string>)
  {
    match tag
    case None => n.Element?
    case Some(t) => IsElement(n, t)
  }

  /** The position of the first node from `i` on that matches, or |nodes| when none does. */
  function FindFrom(nodes: seq<Node>, tag: Option<string>, i: nat): (r: nat)
    requires i <= |nodes|
    ensures i <= r <= |nodes|
    ensures r < |nodes| ==> Matches(nodes[r], tag)
    decreases |nodes| - i
  {
    if i == |nodes| || Matches(nodes[i], tag) then i else FindFrom(nodes, tag, i + 1)
  }

  /** No node between `i` and the position found matches. */
  lemma {:induction false} FindFromIsFirst(nodes: seq<Node>, tag: Option<string>, i: nat)
    requires i <= |nodes|
    ensures forall j :: i <= j < FindFrom(nodes, tag, i) ==> !Matches(nodes[j], tag)
    decreases |nodes| - i
  {
    if i < |nodes| && !Matches(nodes[i], tag) {
      FindFromIsFirst(nodes, tag, i + 1);
    }
  }

  /** The position of FirstChildElement(tag) among the children of `e`; |Children(e)| when there is none. */
  function First(e: Node, tag: Option<string>): (k: nat)
    ensures k <= |Children(e)|
  {
    FindFrom(Children(e), tag, 0)
  }

  /**
   * The nodes a loop `for (c = e->FirstChildElement(tag); c; c = e->IterateChildren(c))`
   * visits: the first matching child element and every sibling after it,
   * whatever its tag or kind; nothing when no child matches.
   */
  function RunFrom(e: Node, tag: Option<string>): seq<Node>
  {
    Children(e)[First(e, tag)..]
  }

  /** The element FirstChildElement(tag) of `e`, if any. */
  function ChildElement(e: Node, tag: string): (r: Option<Node>)
    ensures r.Some? ==> IsElement(r.value, tag)
  {
    var k := First(e, Some(tag));
    if k < |Children(e)| then Some(Children(e)[k]) else None
  }

  /**
   * The idiom `c = e->FirstChildElement(tag); if (c && c->FirstChild()) ... c->FirstChild()->Value()`:
   * the value of the first child of the first `tag` element, when both exist.
   */
  function ChildText(e: Node, tag: string): Option<string>
  {
    match ChildElement(e, tag)
    case None => None
    case Some(c) => if |Children(c)| > 0 then Some(Value(Children(c)[0])) else None
  }

  /** Appending nodes does not move a match found before them. */
  lemma {:induction false} FindFromAppend(nodes: seq<Node>, extra: seq<Node>, tag: Option<string>, i: nat)
    requires i <= |nodes|
    ensures FindFrom(nodes + extra, tag, i)
         == if FindFrom(nodes, tag, i) < |nodes| then FindFrom(nodes, tag, i) else FindFrom(nodes + extra, tag, |nodes|)
    decreases |nodes| - i
  {
    if i < |nodes| {
      assert (nodes + extra)[i] == nodes[i];
      if !Matches(nodes[i], tag) {
        FindFromAppend(nodes, extra, tag, i + 1);
      }
    }
  }

  /** Replacing the node found by one that still matches does not move the match. */
  lemma {:induction false} FindFromReplace(nodes: seq<Node>, tag: Option<string>, i: nat, n: Node)
    requires i <= |nodes| && FindFrom(nodes, tag, i) < |nodes| && Matches(n, tag)
    ensures FindFrom(nodes[FindFrom(nodes, tag, i) := n], tag, i) == FindFrom(nodes, tag, i)
    decreases |nodes| - i
  {
    if !Matches(nodes[i], tag) {
      FindFromReplace(nodes, tag, i + 1, n);
    }
  }
}
