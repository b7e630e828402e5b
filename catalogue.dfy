/**
 * The plugin catalogue, a map from plugin name to plugin record ordered by
 * name, and what the manifest loop makes of it: each manifest entry that is
 * available to the host flavour is stored under its name, replacing any
 * earlier record of that name.
 */
module Catalogue {
  import opened Wrappers
  import opened Xml
  import opened Versions
  import opened Plugins
  import opened Manifest
  import opened OrderedMap

  /** Every record is stored under its own name. */
  predicate NamesAreKeys(es: seq<Entry<PluginRecord>>)
  {
    forall i :: 0 <= i < |es| ==> es[i].value.name == es[i].key
  }

  /** The catalogue invariant: ordered by name, each record under its name. */
  predicate WellFormed(es: seq<Entry<PluginRecord>>)
  {
    Ordered(es) && NamesAreKeys(es)
  }

  /** Every record of a well-formed catalogue carries the name it is stored under. */
  lemma CatalogueNames(es: seq<Entry<PluginRecord>>, k: string)
    requires WellFormed(es) && k in AsMap(es)
    ensures AsMap(es)[k].name == k
  {
    var i := Find(es, k).value;
    AsMapAt(es, i);
  }

  /** Storing a record under its own name keeps the catalogue well formed. */
  lemma {:induction false} PutKeepsWellFormed(es: seq<Entry<PluginRecord>>, p: PluginRecord)
    requires WellFormed(es)
    ensures WellFormed(Put(es, p.name, p))
  {
    if es != [] && es[0].key != p.name && !Below(p.name, es[0].key) {
      OrderedTail(es);
      PutKeepsWellFormed(es[1..], p);
      var rest := Put(es[1..], p.name, p);
      assert Put(es, p.name, p) == [es[0]] + rest;
    } else if es != [] && es[0].key == p.name {
      assert Put(es, p.name, p) == [Entry(p.name, p)] + es[1..];
    } else if es != [] {
      assert Put(es, p.name, p) == [Entry(p.name, p)] + es;
    }
  }

  /** Replacing the record at a position by one of the same name keeps the catalogue well formed. */
  lemma UpdateKeepsWellFormed(es: seq<Entry<PluginRecord>>, i: nat, p: PluginRecord)
    requires WellFormed(es) && i < |es| && p.name == es[i].key
    ensures WellFormed(es[i := Entry(es[i].key, p)])
  {
    OrderedUpdateAt(es, i, p);
  }

  /** The outcome of loading the manifest file: a load error, or its document node. */
  datatype LoadResult = LoadError | Loaded(document: Node)

  /**
   * The entries the manifest loop visits: from the first `plugin` element of
   * the first `plugins` element on, every sibling.
   */
  function PluginEntries(document: Node): seq<Node>
  {
    match ChildElement(document, "plugins")
    case None => []
    case Some(p) => RunFrom(p, Some("plugin"))
  }

  /** An entry as the manifest loop reads it: whether it is available, and its record. */
  datatype ParsedEntry = ParsedEntry(available: bool, plugin: PluginRecord)

  /** What the manifest loop reads from one entry. */
  function ParsedFrom(entry: Node, unicode: bool, parse: string -> Version,
                      factory: Node -> Option<InstallStep>): ParsedEntry
  {
    ParsedEntry(Available(entry, unicode), PluginFromEntry(entry, unicode, parse, factory))
  }

  /** parsePlugin on one entry, as the manifest loop uses it. */
  method ParseEntry(entry: Node, unicode: bool, parse: string -> Version,
                    factory: Node -> Option<InstallStep>) returns (e: ParsedEntry)
    ensures e == ParsedFrom(entry, unicode, parse, factory)
  {
    var plugin, available := ParsePlugin(entry, unicode, parse, factory);
    e := ParsedEntry(available, plugin);
  }

  /** What a loop reading `read` from each of the nodes collects, in order. */
  function ReadAll<T>(read: Node -> T, nodes: seq<Node>): (r: seq<T>)
    ensures |r| == |nodes|
  {
    if nodes == [] then [] else ReadAll(read, nodes[..|nodes| - 1]) + [read(nodes[|nodes| - 1])]
  }

  lemma {:induction false} ReadAllAt<T>(read: Node -> T, nodes: seq<Node>, i: nat)
    requires i < |nodes|
    ensures ReadAll(read, nodes)[i] == read(nodes[i])
  {
    var init := nodes[..|nodes| - 1];
    if i < |init| {
      ReadAllAt(read, init, i);
      assert init[i] == nodes[i];
    }
  }

  /** What the manifest loop reads from each of the entries. */
  function ParsedEntries(entries: seq<Node>, unicode: bool, parse: string -> Version,
                         factory: Node -> Option<InstallStep>): (r: seq<ParsedEntry>)
    ensures |r| == |entries|
  {
    ReadAll(e => ParsedFrom(e, unicode, parse, factory), entries)
  }

  lemma ParsedEntryAt(entries: seq<Node>, i: nat, unicode: bool, parse: string -> Version,
                      factory: Node -> Option<InstallStep>)
    requires i < |entries|
    ensures ParsedEntries(entries, unicode, parse, factory)[i] == ParsedFrom(entries[i], unicode, parse, factory)
  {
    ReadAllAt(e => ParsedFrom(e, unicode, parse, factory), entries, i);
  }

  /** One more entry read by the manifest loop. */
  lemma ParsedEntriesStep(entries: seq<Node>, i: nat, unicode: bool, parse: string -> Version,
                          factory: Node -> Option<InstallStep>)
    requires i < |entries|
    ensures ParsedEntries(entries[..i + 1], unicode, parse, factory)
         == ParsedEntries(entries[..i], unicode, parse, factory) + [ParsedFrom(entries[i], unicode, parse, factory)]
  {
    assert entries[..i + 1][..i] == entries[..i];
  }

  /**
   * The catalogue after the manifest loop has handled `parsed`: each
   * available entry is stored under its name, replacing any earlier record
   * of that name.
   */
  function Catalogued(es: seq<Entry<PluginRecord>>, parsed: seq<ParsedEntry>): (r: seq<Entry<PluginRecord>>)
    requires WellFormed(es)
    ensures WellFormed(r)
  {
    if parsed == [] then es
    else
      var before := Catalogued(es, parsed[..|parsed| - 1]);
      var last := parsed[|parsed| - 1];
      if last.available then
        PutKeepsWellFormed(before, last.plugin);
        Put(before, last.plugin.name, last.plugin)
      else before
  }

  /** One more entry handled by the manifest loop. */
  lemma CataloguedStep(es: seq<Entry<PluginRecord>>, parsed: seq<ParsedEntry>, e: ParsedEntry)
    requires WellFormed(es)
    ensures Catalogued(es, parsed + [e])
         == if e.available then Put(Catalogued(es, parsed), e.plugin.name, e.plugin) else Catalogued(es, parsed)
  {
    assert (parsed + [e])[..|parsed|] == parsed;
  }

  /** An entry that enters the catalogue under the name `k`. */
  predicate EntersAs(e: ParsedEntry, k: string)
  {
    e.available && e.plugin.name == k
  }

  /**
   * A name is in the catalogue after the loop exactly when it was before or
   * some available entry carries it.
   */
  lemma {:induction false} CataloguedKeys(es: seq<Entry<PluginRecord>>, parsed: seq<ParsedEntry>, k: string)
    requires WellFormed(es)
    ensures k in AsMap(Catalogued(es, parsed))
        <==> k in AsMap(es) || exists i :: 0 <= i < |parsed| && EntersAs(parsed[i], k)
  {
    if parsed != [] {
      var init := parsed[..|parsed| - 1];
      CataloguedKeys(es, init, k);
      if exists i :: 0 <= i < |init| && EntersAs(init[i], k) {
        var i :| 0 <= i < |init| && EntersAs(init[i], k);
        assert parsed[i] == init[i];
      }
      if exists i :: 0 <= i < |parsed| - 1 && EntersAs(parsed[i], k) {
        var i :| 0 <= i < |parsed| - 1 && EntersAs(parsed[i], k);
        assert parsed[i] == init[i];
      }
    }
  }

  /**
   * The last entry to enter under a name wins: its record is the one the
   * catalogue holds for that name.
   */
  lemma {:induction false} LaterEntryReplacesEarlier(es: seq<Entry<PluginRecord>>, parsed: seq<ParsedEntry>, i: nat, k: string)
    requires WellFormed(es)
    requires i < |parsed| && EntersAs(parsed[i], k)
    requires forall j :: i < j < |parsed| ==> !EntersAs(parsed[j], k)
    ensures k in AsMap(Catalogued(es, parsed))
    ensures AsMap(Catalogued(es, parsed))[k] == parsed[i].plugin
  {
    var init := parsed[..|parsed| - 1];
    if i < |parsed| - 1 {
      forall j | i < j < |init| ensures !EntersAs(init[j], k) {
        assert init[j] == parsed[j];
      }
      assert init[i] == parsed[i];
      LaterEntryReplacesEarlier(es, init, i, k);
    }
  }

  /** A name that no available entry carries keeps the record it had. */
  lemma {:induction false} UnlistedNameUntouched(es: seq<Entry<PluginRecord>>, parsed: seq<ParsedEntry>, k: string)
    requires WellFormed(es) && k in AsMap(es)
    requires forall j :: 0 <= j < |parsed| ==> !EntersAs(parsed[j], k)
    ensures k in AsMap(Catalogued(es, parsed))
    ensures AsMap(Catalogued(es, parsed))[k] == AsMap(es)[k]
  {
    if parsed != [] {
      var init := parsed[..|parsed| - 1];
      forall j | 0 <= j < |init| ensures !EntersAs(init[j], k) {
        assert init[j] == parsed[j];
      }
      UnlistedNameUntouched(es, init, k);
      var before := Catalogued(es, init);
      var last := parsed[|parsed| - 1];
      assert !EntersAs(last, k);
      if last.available {
        assert AsMap(Catalogued(es, parsed)) == AsMap(before)[last.plugin.name := last.plugin];
      }
    }
  }

  /**
   * In terms of the manifest: a name is in the catalogue after reading the
   * entries exactly when it was before or some entry of that name has a
   * version element for the host flavour with a text child.
   */
  lemma ManifestEntryEnters(es: seq<Entry<PluginRecord>>, entries: seq<Node>, unicode: bool,
                            parse: string -> Version, factory: Node -> Option<InstallStep>, k: string)
    requires WellFormed(es)
    ensures k in AsMap(Catalogued(es, ParsedEntries(entries, unicode, parse, factory)))
        <==> k in AsMap(es)
             || exists i :: 0 <= i < |entries| && ChildText(entries[i], VersionTag(unicode)).Some? && NameOf(entries[i]) == k
  {
    var parsed := ParsedEntries(entries, unicode, parse, factory);
    CataloguedKeys(es, parsed, k);
    forall i | 0 <= i < |entries|
      ensures EntersAs(parsed[i], k) <==> ChildText(entries[i], VersionTag(unicode)).Some? && NameOf(entries[i]) == k
    {
      ParsedEntryAt(entries, i, unicode, parse, factory);
    }
  }

  /**
   * In terms of the manifest: of several available entries with the same
   * name, the last one's record is the one the catalogue holds.
   */
  lemma LastManifestEntryWins(es: seq<Entry<PluginRecord>>, entries: seq<Node>, unicode: bool,
                              parse: string -> Version, factory: Node -> Option<InstallStep>, i: nat)
    requires WellFormed(es) && i < |entries| && Available(entries[i], unicode)
    requires forall j :: i < j < |entries| ==> !(Available(entries[j], unicode) && NameOf(entries[j]) == NameOf(entries[i]))
    ensures NameOf(entries[i]) in AsMap(Catalogued(es, ParsedEntries(entries, unicode, parse, factory)))
    ensures AsMap(Catalogued(es, ParsedEntries(entries, unicode, parse, factory)))[NameOf(entries[i])]
         == PluginFromEntry(entries[i], unicode, parse, factory)
  {
    var parsed := ParsedEntries(entries, unicode, parse, factory);
    var k := NameOf(entries[i]);
    ParsedEntryAt(entries, i, unicode, parse, factory);
    forall j | i < j < |parsed| ensures !EntersAs(parsed[j], k) {
      ParsedEntryAt(entries, j, unicode, parse, factory);
    }
    LaterEntryReplacesEarlier(es, parsed, i, k);
  }
}
