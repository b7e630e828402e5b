/**
 * Reading one `<plugin>` entry of the manifest into a plugin record, and
 * flattening its `<install>` subtree into an ordered list of install steps.
 * The host flavour (`unicode` true for a wide-character host) selects which
 * version element counts and which `unicode`/`ansi` wrappers are opened.
 */
module Manifest {
  import opened Wrappers
  import opened Xml
  import opened Versions
  import opened Plugins

  /** The wrapper tag whose contents apply to the host flavour. */
  function WrapperTag(unicode: bool): string
  {
    if unicode then "unicode" else "ansi"
  }

  /** The version element that makes an entry available to the host flavour. */
  function VersionTag(unicode: bool): string
  {
    if unicode then "unicodeVersion" else "ansiVersion"
  }

  /** The flavour gate: a wrapper for the host flavour that has a child is descended into. */
  predicate DescendsInto(n: Node, unicode: bool)
  {
    Value(n) == WrapperTag(unicode) && |Children(n)| > 0
  }

  /**
   * The nodes of an install element that reach the step factory, in document
   * order: its children from the first element on, except that a wrapper
   * passing the flavour gate is replaced by the nodes of its own contents.
   */
  function FactoryInputs(e: Node, unicode: bool): seq<Node>
    decreases e, |Children(e)| + 1
  {
    FactoryInputsFrom(e, First(e, None), unicode)
  }

  /** The factory inputs contributed by the children of `e` from position `i` on. */
  function FactoryInputsFrom(e: Node, i: nat, unicode: bool): seq<Node>
    requires i <= |Children(e)|
    decreases e, |Children(e)| - i
  {
    if !e.Element? || i == |e.children| then []
    else
      var n := e.children[i];
      (if DescendsInto(n, unicode) then FactoryInputs(n, unicode) else [n])
        + FactoryInputsFrom(e, i + 1, unicode)
  }

  /** The steps the factory builds from `nodes`: its non-null results, in order. */
  function Built(factory: Node -> Option<InstallStep>, nodes: seq<Node>): seq<InstallStep>
  {
    if nodes == [] then []
    else
      StepOf(factory, nodes[0]) + Built(factory, nodes[1..])
  }

  /** The install steps a plugin gets from its (possibly missing) install element. */
  function InstallStepsOf(install: Option<Node>, unicode: bool, factory: Node -> Option<InstallStep>): seq<InstallStep>
  {
    match install
    case None => []
    case Some(e) => Built(factory, FactoryInputs(e, unicode))
  }

  lemma {:induction false} BuiltConcat(factory: Node -> Option<InstallStep>, a: seq<Node>, b: seq<Node>)
    ensures Built(factory, a + b) == Built(factory, a) + Built(factory, b)
  {
    if a == [] {
      assert a + b == b;
    } else {
      assert (a + b)[1..] == a[1..] + b;
      BuiltConcat(factory, a[1..], b);
    }
  }

  /**
   * Only factory results are appended: every built step is the factory's
   * result for one of the nodes, and every node the factory accepts yields
   * a step.
   */
  lemma {:induction false} BuiltIsFactoryOutput(factory: Node -> Option<InstallStep>, nodes: seq<Node>)
    ensures forall s :: s in Built(factory, nodes) ==> exists n :: n in nodes && factory(n) == Some(s)
    ensures forall n :: n in nodes && factory(n).Some? ==> factory(n).value in Built(factory, nodes)
    ensures |Built(factory, nodes)| <= |nodes|
  {
    if nodes != [] {
      BuiltIsFactoryOutput(factory, nodes[1..]);
      assert forall n :: n in nodes ==> n == nodes[0] || n in nodes[1..];
    }
  }

  /** No wrapper that passes the flavour gate is ever handed to the factory. */
  lemma {:induction false} GatedWrappersNeverReachFactory(e: Node, unicode: bool)
    ensures forall n :: n in FactoryInputs(e, unicode) ==> !DescendsInto(n, unicode)
    decreases e, |Children(e)| + 1
  {
    GatedWrappersNeverReachFactoryFrom(e, First(e, None), unicode);
  }

  lemma {:induction false} GatedWrappersNeverReachFactoryFrom(e: Node, i: nat, unicode: bool)
    requires i <= |Children(e)|
    ensures forall n :: n in FactoryInputsFrom(e, i, unicode) ==> !DescendsInto(n, unicode)
    decreases e, |Children(e)| - i
  {
    if e.Element? && i < |e.children| {
      var n := e.children[i];
      if DescendsInto(n, unicode) {
        GatedWrappersNeverReachFactory(n, unicode);
      }
      GatedWrappersNeverReachFactoryFrom(e, i + 1, unicode);
    }
  }

  /**
   * Without a gated wrapper among them, the children of the install element
   * from its first element on reach the factory exactly as they stand, in
   * document order; a wrapper for the other flavour, or an empty one, is
   * among them as an ordinary node.
   */
  lemma {:induction false} FlatInstallKeepsDocumentOrder(e: Node, unicode: bool)
    requires forall n :: n in RunFrom(e, None) ==> !DescendsInto(n, unicode)
    ensures FactoryInputs(e, unicode) == RunFrom(e, None)
  {
    var k := First(e, None);
    forall j | k <= j < |Children(e)|
      ensures !DescendsInto(Children(e)[j], unicode)
    {
      assert Children(e)[j] == RunFrom(e, None)[j - k];
    }
    FlatFrom(e, k, unicode);
  }

  lemma {:induction false} FlatFrom(e: Node, i: nat, unicode: bool)
    requires i <= |Children(e)|
    requires forall j :: i <= j < |Children(e)| ==> !DescendsInto(Children(e)[j], unicode)
    ensures FactoryInputsFrom(e, i, unicode) == Children(e)[i..]
    decreases |Children(e)| - i
  {
    if e.Element? && i < |e.children| {
      FlatFrom(e, i + 1, unicode);
      assert e.children[i..] == [e.children[i]] + e.children[i + 1..];
    }
  }

  /** What the factory makes of one node: its step, or nothing when it declines. */
  function StepOf(factory: Node -> Option<InstallStep>, n: Node): seq<InstallStep>
  {
    match factory(n) case Some(s) => [s] case None => []
  }

  /** One child's share of the built steps, followed by the steps of the children after it. */
  lemma BuiltFromStep(e: Node, i: nat, unicode: bool, factory: Node -> Option<InstallStep>)
    requires e.Element? && i < |e.children|
    ensures Built(factory, FactoryInputsFrom(e, i, unicode))
         == (if DescendsInto(e.children[i], unicode) then InstallStepsOf(Some(e.children[i]), unicode, factory)
             else StepOf(factory, e.children[i]))
            + Built(factory, FactoryInputsFrom(e, i + 1, unicode))
  {
    var n := e.children[i];
    var here := if DescendsInto(n, unicode) then FactoryInputs(n, unicode) else [n];
    assert FactoryInputsFrom(e, i, unicode) == here + FactoryInputsFrom(e, i + 1, unicode);
    BuiltConcat(factory, here, FactoryInputsFrom(e, i + 1, unicode));
    if !DescendsInto(n, unicode) {
      assert [n][1..] == [];
    }
  }

  /**
   * addInstallSteps: append to `steps` the steps of the install element, if
   * there is one. Each child from the first element on either passes the
   * flavour gate and is flattened recursively, or goes to the factory, whose
   * non-null result is appended.
   */
  method AddInstallSteps(steps: seq<InstallStep>, install: Option<Node>, unicode: bool,
                         factory: Node -> Option<InstallStep>) returns (r: seq<InstallStep>)
    ensures r == steps + InstallStepsOf(install, unicode, factory)
    decreases if install.Some? then install.value else Leaf(""), 0
  {
    r := steps;
    if install.None? {
      return;
    }
    var e := install.value;
    var i := First(e, None);
    ghost var target := Built(factory, FactoryInputsFrom(e, i, unicode));
    while i < |Children(e)|
      invariant i <= |Children(e)|
      invariant r + Built(factory, FactoryInputsFrom(e, i, unicode)) == steps + target
    {
      ghost var before := r;
      r := AddChildSteps(r, e.children[i], unicode, factory);
      StepKeepsTotal(e, i, unicode, factory, before, r, steps + target);
      i := i + 1;
    }
    assert Built(factory, FactoryInputsFrom(e, i, unicode)) == [];
  }

  /**
   * The body of the loop in addInstallSteps for one child node: a wrapper
   * that passes the flavour gate is flattened recursively; any other node
   * goes to the factory, whose non-null result is appended.
   */
  method AddChildSteps(steps: seq<InstallStep>, n: Node, unicode: bool,
                       factory: Node -> Option<InstallStep>) returns (r: seq<InstallStep>)
    ensures DescendsInto(n, unicode) ==> r == steps + InstallStepsOf(Some(n), unicode, factory)
    ensures !DescendsInto(n, unicode) ==> r == steps + StepOf(factory, n)
    decreases n, 1
  {
    if DescendsInto(n, unicode) {
      r := AddInstallSteps(steps, Some(n), unicode, factory);
    } else {
      var step := factory(n);
      r := steps;
      if step.Some? {
        r := r + [step.value];
      }
    }
  }

  /** Appending one child's steps moves the loop on to the next child. */
  lemma StepKeepsTotal(e: Node, i: nat, unicode: bool, factory: Node -> Option<InstallStep>,
                       before: seq<InstallStep>, r: seq<InstallStep>, total: seq<InstallStep>)
    requires e.Element? && i < |e.children|
    requires before + Built(factory, FactoryInputsFrom(e, i, unicode)) == total
    requires r == before + (if DescendsInto(e.children[i], unicode) then InstallStepsOf(Some(e.children[i]), unicode, factory)
                            else StepOf(factory, e.children[i]))
    ensures r + Built(factory, FactoryInputsFrom(e, i + 1, unicode)) == total
  {
    var n := e.children[i];
    var piece := if DescendsInto(n, unicode) then InstallStepsOf(Some(n), unicode, factory) else StepOf(factory, n);
    BuiltFromStep(e, i, unicode, factory);
    Regroup(before, piece, Built(factory, FactoryInputsFrom(e, i + 1, unicode)),
            Built(factory, FactoryInputsFrom(e, i, unicode)), r, total);
  }

  lemma Regroup<T>(a: seq<T>, b: seq<T>, c: seq<T>, bc: seq<T>, ab: seq<T>, total: seq<T>)
    requires bc == b + c && a + bc == total && ab == a + b
    ensures ab + c == total
  {
  }

  /** The `name` attribute of an entry; a missing one is read as the empty name. */
  function NameOf(entry: Node): string
  {
    match Attribute(entry, "name") case Some(s) => s case None => ""
  }

  /** One row of the versions table, from a `version` element's md5 and number. */
  function HashedVersionOf(n: Node, parse: string -> Version): HashedVersion
  {
    var md5 := match Attribute(n, "md5") case Some(s) => s case None => "";
    var number := match Attribute(n, "number") case Some(s) => s case None => "";
    HashedVersion(md5, parse(number))
  }

  /** The versions table read from the nodes of a `versions` element. */
  function VersionTable(run: seq<Node>, parse: string -> Version): (t: seq<HashedVersion>)
    ensures |t| == |run|
  {
    if run == [] then []
    else VersionTable(run[..|run| - 1], parse) + [HashedVersionOf(run[|run| - 1], parse)]
  }

  lemma VersionTableStep(run: seq<Node>, i: nat, parse: string -> Version)
    requires i < |run|
    ensures VersionTable(run[..i + 1], parse) == VersionTable(run[..i], parse) + [HashedVersionOf(run[i], parse)]
  {
    assert run[..i + 1][..i] == run[..i];
  }

  /** The dependency a node declares: a `plugin` element with a name. */
  function DeclaredDependency(n: Node): seq<string>
  {
    if Value(n) == "plugin" && Attribute(n, "name").Some? then [Attribute(n, "name").value] else []
  }

  /** The dependency names declared by the nodes of a `dependencies` element, in order. */
  function DependencyNames(run: seq<Node>): seq<string>
  {
    if run == [] then []
    else DependencyNames(run[..|run| - 1]) + DeclaredDependency(run[|run| - 1])
  }

  /** The nodes the versions loop visits. */
  function VersionsRun(entry: Node): seq<Node>
  {
    match ChildElement(entry, "versions") case Some(v) => RunFrom(v, Some("version")) case None => []
  }

  /** The nodes the dependencies loop visits. */
  function DependenciesRun(entry: Node): seq<Node>
  {
    match ChildElement(entry, "dependencies") case Some(d) => RunFrom(d, None) case None => []
  }

  function TextOr(t: Option<string>, default: string): string
  {
    match t case Some(s) => s case None => default
  }

  /** Whether an entry declares a version for the host flavour. */
  predicate Available(entry: Node, unicode: bool)
  {
    ChildText(entry, VersionTag(unicode)).Some?
  }

  /** The record an entry yields. */
  function PluginFromEntry(entry: Node, unicode: bool, parse: string -> Version,
                           factory: Node -> Option<InstallStep>): PluginRecord
  {
    var versionText := ChildText(entry, VersionTag(unicode));
    PluginRecord(
      name := NameOf(entry),
      version := if versionText.Some? then parse(versionText.value) else Unset,
      installedVersion := Unset,
      isInstalled := false,
      filename := TextOr(ChildText(entry, "filename"), ""),
      description := TextOr(ChildText(entry, "description"), ""),
      author := TextOr(ChildText(entry, "author"), ""),
      sourceUrl := TextOr(ChildText(entry, "sourceUrl"), ""),
      homepage := TextOr(ChildText(entry, "homepage"), ""),
      category := TextOr(ChildText(entry, "category"), DefaultCategory),
      versions := VersionTable(VersionsRun(entry), parse),
      dependencies := DependencyNames(DependenciesRun(entry)),
      installSteps := InstallStepsOf(ChildElement(entry, "install"), unicode, factory))
  }

  /**
   * The versions loop: one table row per node from the first `version`
   * element of the `versions` element on; no table without that element.
   */
  method ReadVersions(entry: Node, parse: string -> Version) returns (table: seq<HashedVersion>)
    ensures table == VersionTable(VersionsRun(entry), parse)
    ensures |table| == |VersionsRun(entry)|
  {
    table := [];
    var versionsElement := ChildElement(entry, "versions");
    if versionsElement.Some? {
      var run := RunFrom(versionsElement.value, Some("version"));
      for i := 0 to |run|
        invariant table == VersionTable(run[..i], parse)
      {
        VersionTableStep(run, i, parse);
        table := table + [HashedVersionOf(run[i], parse)];
      }
      assert run[..|run|] == run;
    }
  }

  /**
   * The dependencies loop: the names of the `plugin` elements that carry a
   * name, in document order, among the nodes from the first element of a
   * non-empty `dependencies` element on.
   */
  method ReadDependencies(entry: Node) returns (names: seq<string>)
    ensures names == DependencyNames(DependenciesRun(entry))
    ensures forall d :: d in names ==> exists n :: n in DependenciesRun(entry) && IsElement(n, "plugin") && Attribute(n, "name") == Some(d)
  {
    names := [];
    var dependencies := ChildElement(entry, "dependencies");
    if dependencies.Some? && |Children(dependencies.value)| > 0 {
      var run := RunFrom(dependencies.value, None);
      for i := 0 to |run|
        invariant names == DependencyNames(run[..i])
      {
        assert run[..i + 1][..i] == run[..i];
        var n := run[i];
        if Value(n) == "plugin" {
          var dependencyName := Attribute(n, "name");
          if dependencyName.Some? {
            names := names + [dependencyName.value];
          }
        }
      }
      assert run[..|run|] == run;
    }
    DependencyNamesDeclared(DependenciesRun(entry));
  }

  /** Every dependency name comes from a named `plugin` element. */
  lemma {:induction false} DependencyNamesDeclared(run: seq<Node>)
    ensures forall d :: d in DependencyNames(run) ==> exists n :: n in run && IsElement(n, "plugin") && Attribute(n, "name") == Some(d)
  {
    if run != [] {
      DependencyNamesDeclared(run[..|run| - 1]);
      assert forall n :: n in run[..|run| - 1] ==> n in run;
      assert run[|run| - 1] in run;
    }
  }

  /**
   * The body of the manifest loop for one entry: build the record and decide
   * whether it is available to the host flavour.
   */
  method ParsePlugin(entry: Node, unicode: bool, parse: string -> Version,
                     factory: Node -> Option<InstallStep>) returns (plugin: PluginRecord, available: bool)
    ensures available <==> ChildText(entry, VersionTag(unicode)).Some?
    ensures available ==> plugin.version == parse(ChildText(entry, VersionTag(unicode)).value)
    ensures ChildText(entry, "category").None? ==> plugin.category == DefaultCategory
    ensures ChildText(entry, "category").Some? ==> plugin.category == ChildText(entry, "category").value
    ensures plugin.installSteps == InstallStepsOf(ChildElement(entry, "install"), unicode, factory)
    ensures plugin.dependencies == DependencyNames(DependenciesRun(entry))
    ensures plugin.name == NameOf(entry) && !plugin.isInstalled
    ensures plugin == PluginFromEntry(entry, unicode, parse, factory)
  {
    var name := NameOf(entry);
    var version := Unset;
    available := false;
    var versionText := ChildText(entry, VersionTag(unicode));
    if versionText.Some? {
      version := parse(versionText.value);
      available := true;
    }

    var description := TextOr(ChildText(entry, "description"), "");
    var filename := TextOr(ChildText(entry, "filename"), "");
    var table := ReadVersions(entry, parse);
    var steps := AddInstallSteps([], ChildElement(entry, "install"), unicode, factory);
    var dependencies := ReadDependencies(entry);
    var author := TextOr(ChildText(entry, "author"), "");
    var sourceUrl := TextOr(ChildText(entry, "sourceUrl"), "");
    var homepage := TextOr(ChildText(entry, "homepage"), "");
    var category := ChildText(entry, "category");
    var categoryName := if category.Some? then category.value else DefaultCategory;

    plugin := PluginRecord(name, version, Unset, false, filename, description, author, sourceUrl,
                           homepage, categoryName, table, dependencies, steps);
  }
}
