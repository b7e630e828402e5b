/**
 * The deferred-steps document handed to the updater (gpup): a document
 * whose first `install` element collects the steps to perform at the next
 * start. The plugin list loads it, appends steps to that element, and saves
 * it; only its top-level nodes and that element matter here.
 */
module Gpup {
  import opened Wrappers
  import opened Xml

  /** The install element getGpupDocument creates when the document has none. */
  const EmptyInstall := Element("install", map[], [])

  /** The step that deletes a file at the next start. */
  function DeleteNode(file: string): (n: Node)
    ensures IsElement(n, "delete") && Attribute(n, "file") == Some(file) && Children(n) == []
  {
    Element("delete", map["file" := file], [])
  }

  /** The position of the first install element among the top-level nodes; |nodes| when there is none. */
  function InstallAt(nodes: seq<Node>): (k: nat)
    ensures k <= |nodes|
  {
    FindFrom(nodes, Some("install"), 0)
  }

  predicate HasInstall(nodes: seq<Node>)
  {
    InstallAt(nodes) < |nodes|
  }

  /** The entries of the first install element. */
  function InstallEntries(nodes: seq<Node>): seq<Node>
    requires HasInstall(nodes)
  {
    Children(nodes[InstallAt(nodes)])
  }

  /**
   * getGpupDocument: the top-level nodes of the document as loaded (none
   * when there is no file), with an empty install element appended when the
   * loaded document has none.
   */
  function GpupNodes(existing: Option<seq<Node>>): (r: seq<Node>)
    ensures HasInstall(r)
  {
    var loaded := Loaded(existing);
    if HasInstall(loaded) then loaded
    else
      FindFromAppend(loaded, [EmptyInstall], Some("install"), 0);
      assert (loaded + [EmptyInstall])[|loaded|] == EmptyInstall;
      loaded + [EmptyInstall]
  }

  /** The top-level nodes of the file, if it exists. */
  function Loaded(existing: Option<seq<Node>>): seq<Node>
  {
    if existing.Some? then existing.value else []
  }

  /**
   * What was loaded is kept, at most one node is added, and the install
   * element holds exactly the entries it held before, or none.
   */
  lemma GpupNodesKeepsLoaded(existing: Option<seq<Node>>)
    ensures var loaded, r := Loaded(existing), GpupNodes(existing);
            && |loaded| <= |r| <= |loaded| + 1
            && r[..|loaded|] == loaded
            && InstallEntries(r) == (if HasInstall(loaded) then InstallEntries(loaded) else [])
  {
    var loaded := Loaded(existing);
    if !HasInstall(loaded) {
      FindFromAppend(loaded, [EmptyInstall], Some("install"), 0);
      assert (loaded + [EmptyInstall])[|loaded|] == EmptyInstall;
    }
  }

  /**
   * The nodes with `extra` appended to the entries of the first install
   * element.
   */
  function WithInstallEntries(nodes: seq<Node>, extra: seq<Node>): (r: seq<Node>)
    requires HasInstall(nodes)
    ensures HasInstall(r) && InstallAt(r) == InstallAt(nodes)
  {
    var k := InstallAt(nodes);
    var e := nodes[k].(children := nodes[k].children + extra);
    FindFromReplace(nodes, Some("install"), 0, e);
    nodes[k := e]
  }

  /**
   * Appending entries extends the install element's entries by exactly
   * those; every other node, and the element's tag and attributes, are
   * kept.
   */
  lemma WithInstallEntriesKeepsRest(nodes: seq<Node>, extra: seq<Node>)
    requires HasInstall(nodes)
    ensures var r := WithInstallEntries(nodes, extra);
            && InstallEntries(r) == InstallEntries(nodes) + extra
            && |r| == |nodes| && (forall k :: 0 <= k < |nodes| && k != InstallAt(nodes) ==> r[k] == nodes[k])
            && r[InstallAt(r)].tag == "install"
            && r[InstallAt(r)].attributes == nodes[InstallAt(nodes)].attributes
  {
  }

  /** Appending in two steps appends the concatenation. */
  lemma WithInstallEntriesTwice(nodes: seq<Node>, a: seq<Node>, b: seq<Node>)
    requires HasInstall(nodes)
    ensures WithInstallEntries(WithInstallEntries(nodes, a), b) == WithInstallEntries(nodes, a + b)
  {
    var k := InstallAt(nodes);
    assert nodes[k].children + a + b == nodes[k].children + (a + b);
  }

  /** Appending nothing changes nothing. */
  lemma WithNoInstallEntries(nodes: seq<Node>)
    requires HasInstall(nodes)
    ensures WithInstallEntries(nodes, []) == nodes
  {
    var k := InstallAt(nodes);
    assert nodes[k].children + [] == nodes[k].children;
  }

  /**
   * The document the installer and the remover edit: loaded (or created)
   * once per run, extended at its install element, saved when asked.
   */
  class GpupDocument {
    var nodes: seq<Node>

    ghost predicate Valid()
      reads this
    {
      HasInstall(nodes)
    }

    /** getGpupDocument on the file's contents, if the file exists. */
    constructor Load(existing: Option<seq<Node>>)
      ensures Valid() && nodes == GpupNodes(existing)
    {
      nodes := GpupNodes(existing);
    }

    /** LinkEndChild on the install element, for each of `extra` in order. */
    method AppendToInstall(extra: seq<Node>)
      requires Valid()
      modifies this
      ensures Valid() && nodes == WithInstallEntries(old(nodes), extra)
    {
      nodes := WithInstallEntries(nodes, extra);
    }
  }
}
