/**
 * Reconciling the catalogue with the plugin files found on disk, as a
 * function of the state before it: each file whose plugin name can be read
 * is matched against the catalogue and put on the installed or the
 * updateable list, and afterwards every catalogue record that is not
 * installed is put on the available list.
 */
module Reconcile {
  import opened Wrappers
  import opened Versions
  import opened Plugins
  import opened PluginName
  import opened OrderedMap
  import opened Catalogue

  /**
   * One file of the plugins directory, with what the system calls report
   * about it: the probe for its plugin name, the version its version
   * resource gives (None when that cannot be read), and the version its
   * content hash maps to (None when the hash cannot be computed or the
   * record does not take it).
   */
  datatype PluginFile = PluginFile(fileName: string, probe: Probe, fileVersion: Option<Version>,
                                   hashVersion: Option<Version>)

  /** The catalogue and the three lists the reconciliation fills. */
  datatype Lists = Lists(plugins: seq<Entry<PluginRecord>>, installed: seq<PluginRecord>,
                         updateable: seq<PluginRecord>, available: seq<PluginRecord>)

  /** The full path of a file of the plugins directory. */
  function PluginPath(pluginPath: string, f: PluginFile): string
  {
    pluginPath + "\\plugins\\" + f.fileName
  }

  /**
   * A catalogue record matched to a file: its filename becomes the file's
   * path, its installed version comes from the version resource and is then
   * overridden by the version the hash gives, and it counts as installed.
   */
  function Reconciled(p: PluginRecord, path: string, f: PluginFile): (r: PluginRecord)
    ensures r.name == p.name && r.version == p.version && r.isInstalled
  {
    var fromResource := if f.fileVersion.Some? then f.fileVersion.value else p.installedVersion;
    var fromHash := if f.hashVersion.Some? then f.hashVersion.value else fromResource;
    p.(filename := path, installedVersion := fromHash, isInstalled := true)
  }

  /** The record made up for a plugin file whose name the catalogue does not know. */
  function UnknownPlugin(name: string, path: string, f: PluginFile): (r: PluginRecord)
    ensures r.name == name && r.filename == path && r.description == UnknownDescription
  {
    Blank.(name := name, filename := path, isInstalled := true,
           installedVersion := if f.fileVersion.Some? then f.fileVersion.value else Unset,
           description := UnknownDescription)
  }

  /**
   * For a record matched to a file, a dependency on it calls for installing
   * it exactly when the catalogue's version is newer than the installed one.
   */
  lemma ReconciledNeedsInstallIffNewer(p: PluginRecord, path: string, f: PluginFile)
    ensures IsInstallOrUpgrade(Reconciled(p, path, f))
        <==> Newer(Reconciled(p, path, f).version, Reconciled(p, path, f).installedVersion)
  {
  }

  /** Handling one file of the plugins directory. */
  function CheckFile(s: Lists, pluginPath: string, f: PluginFile): Lists
    requires WellFormed(s.plugins)
  {
    match ProbedName(f.probe)
    case None => s
    case Some(name) =>
      var path := PluginPath(pluginPath, f);
      match Find(s.plugins, name)
      case Some(i) =>
        var p := Reconciled(s.plugins[i].value, path, f);
        var plugins := s.plugins[i := Entry(name, p)];
        if Newer(p.version, p.installedVersion) then s.(plugins := plugins, updateable := s.updateable + [p])
        else s.(plugins := plugins, installed := s.installed + [p])
      case None =>
        s.(installed := s.installed + [UnknownPlugin(name, path, f)])
  }

  /** Handling a file keeps the catalogue well formed and its names unchanged. */
  lemma CheckFileWellFormed(s: Lists, pluginPath: string, f: PluginFile)
    requires WellFormed(s.plugins)
    ensures WellFormed(CheckFile(s, pluginPath, f).plugins)
    ensures Keys(CheckFile(s, pluginPath, f).plugins) == Keys(s.plugins)
  {
    match ProbedName(f.probe)
    case None =>
    case Some(name) =>
      match Find(s.plugins, name)
      case Some(i) =>
        var p := Reconciled(s.plugins[i].value, PluginPath(pluginPath, f), f);
        UpdateKeepsWellFormed(s.plugins, i, p);
        var es := s.plugins[i := Entry(name, p)];
        assert es == CheckFile(s, pluginPath, f).plugins;
        forall k ensures k in Keys(es) <==> k in Keys(s.plugins) {
          if k in Keys(es) {
            var j :| 0 <= j < |es| && es[j].key == k;
            assert s.plugins[j].key == k;
          }
          if k in Keys(s.plugins) {
            var j :| 0 <= j < |s.plugins| && s.plugins[j].key == k;
            assert es[j].key == k;
          }
        }
      case None =>
  }

  /** A file whose plugin name cannot be read is skipped. */
  lemma FailedProbeSkipsFile(s: Lists, pluginPath: string, f: PluginFile)
    requires WellFormed(s.plugins) && ProbedName(f.probe).None?
    ensures CheckFile(s, pluginPath, f) == s
  {
  }

  /**
   * A file of a known plugin updates that catalogue record and appends it to
   * exactly one list: the updateable list when the catalogue's version is
   * newer than the installed one, the installed list otherwise.
   */
  lemma KnownFile(s: Lists, pluginPath: string, f: PluginFile, name: string)
    requires WellFormed(s.plugins) && ProbedName(f.probe) == Some(name) && name in AsMap(s.plugins)
    ensures var t := CheckFile(s, pluginPath, f);
      var p := Reconciled(AsMap(s.plugins)[name], PluginPath(pluginPath, f), f);
      && AsMap(t.plugins) == AsMap(s.plugins)[name := p]
      && t.available == s.available
      && (Newer(p.version, p.installedVersion) ==> t.updateable == s.updateable + [p] && t.installed == s.installed)
      && (!Newer(p.version, p.installedVersion) ==> t.installed == s.installed + [p] && t.updateable == s.updateable)
  {
    var i := Find(s.plugins, name).value;
    AsMapAt(s.plugins, i);
    var p := Reconciled(s.plugins[i].value, PluginPath(pluginPath, f), f);
    AsMapUpdateAt(s.plugins, i, p);
  }

  /**
   * A file of a plugin the catalogue does not know appends a made-up record
   * with the fixed description to the installed list and leaves the
   * catalogue alone.
   */
  lemma UnknownFile(s: Lists, pluginPath: string, f: PluginFile, name: string)
    requires WellFormed(s.plugins) && ProbedName(f.probe) == Some(name) && name !in AsMap(s.plugins)
    ensures var t := CheckFile(s, pluginPath, f);
      && t.plugins == s.plugins && t.updateable == s.updateable && t.available == s.available
      && t.installed == s.installed + [UnknownPlugin(name, PluginPath(pluginPath, f), f)]
  {
  }

  /** Handling the files in order. */
  function CheckFiles(s: Lists, pluginPath: string, files: seq<PluginFile>): (r: Lists)
    requires WellFormed(s.plugins)
    ensures WellFormed(r.plugins) && Keys(r.plugins) == Keys(s.plugins)
  {
    if files == [] then s
    else
      var before := CheckFiles(s, pluginPath, files[..|files| - 1]);
      CheckFileWellFormed(before, pluginPath, files[|files| - 1]);
      CheckFile(before, pluginPath, files[|files| - 1])
  }

  /** One more file handled. */
  lemma CheckFilesStep(s: Lists, pluginPath: string, files: seq<PluginFile>, i: nat)
    requires WellFormed(s.plugins) && i < |files|
    ensures CheckFiles(s, pluginPath, files[..i + 1]) == CheckFile(CheckFiles(s, pluginPath, files[..i]), pluginPath, files[i])
  {
    assert files[..i + 1][..i] == files[..i];
  }

  /** The number of files whose plugin name can be read. */
  function Recognised(files: seq<PluginFile>): nat
  {
    if files == [] then 0
    else Recognised(files[..|files| - 1]) + (if ProbedName(files[|files| - 1].probe).Some? then 1 else 0)
  }

  /**
   * The lists are only appended to, never cleared, and every file whose
   * name can be read adds exactly one record to the installed or the
   * updateable list; the available list is left alone.
   */
  lemma {:induction false} CheckFilesAppends(s: Lists, pluginPath: string, files: seq<PluginFile>)
    requires WellFormed(s.plugins)
    ensures var t := CheckFiles(s, pluginPath, files);
      && s.installed <= t.installed && s.updateable <= t.updateable && t.available == s.available
      && |t.installed| + |t.updateable| == |s.installed| + |s.updateable| + Recognised(files)
  {
    if files != [] {
      var init := files[..|files| - 1];
      var f := files[|files| - 1];
      CheckFilesAppends(s, pluginPath, init);
      var before := CheckFiles(s, pluginPath, init);
      match ProbedName(f.probe)
      case None =>
      case Some(name) =>
        if name in AsMap(before.plugins) {
          KnownFile(before, pluginPath, f, name);
        } else {
          UnknownFile(before, pluginPath, f, name);
        }
    }
  }

  /** Handling a file never unmarks an installed record. */
  lemma CheckFileKeepsInstalled(s: Lists, pluginPath: string, f: PluginFile, k: string)
    requires WellFormed(s.plugins) && k in AsMap(s.plugins) && AsMap(s.plugins)[k].isInstalled
    ensures k in AsMap(CheckFile(s, pluginPath, f).plugins)
    ensures AsMap(CheckFile(s, pluginPath, f).plugins)[k].isInstalled
  {
    match ProbedName(f.probe)
    case None =>
    case Some(name) =>
      if name in AsMap(s.plugins) {
        KnownFile(s, pluginPath, f, name);
      } else {
        UnknownFile(s, pluginPath, f, name);
      }
  }

  /** Reconciliation only ever marks records installed, never the reverse. */
  lemma {:induction false} CheckFilesKeepsInstalled(s: Lists, pluginPath: string, files: seq<PluginFile>, k: string)
    requires WellFormed(s.plugins) && k in AsMap(s.plugins) && AsMap(s.plugins)[k].isInstalled
    ensures k in AsMap(CheckFiles(s, pluginPath, files).plugins)
    ensures AsMap(CheckFiles(s, pluginPath, files).plugins)[k].isInstalled
  {
    if files != [] {
      var init := files[..|files| - 1];
      CheckFilesKeepsInstalled(s, pluginPath, init, k);
      CheckFileKeepsInstalled(CheckFiles(s, pluginPath, init), pluginPath, files[|files| - 1], k);
    }
  }

  /** A catalogue record whose name some file reports ends up installed. */
  lemma {:induction false} MatchedFileMarksInstalled(s: Lists, pluginPath: string, files: seq<PluginFile>, i: nat, k: string)
    requires WellFormed(s.plugins) && i < |files| && ProbedName(files[i].probe) == Some(k) && k in AsMap(s.plugins)
    ensures k in AsMap(CheckFiles(s, pluginPath, files).plugins)
    ensures AsMap(CheckFiles(s, pluginPath, files).plugins)[k].isInstalled
  {
    var init := files[..|files| - 1];
    var before := CheckFiles(s, pluginPath, init);
    assert k in Keys(before.plugins);
    if i < |files| - 1 {
      assert init[i] == files[i];
      MatchedFileMarksInstalled(s, pluginPath, init, i, k);
      CheckFileKeepsInstalled(before, pluginPath, files[|files| - 1], k);
    } else {
      KnownFile(before, pluginPath, files[i], k);
    }
  }

  /** The records of the catalogue, in its order, that are not installed. */
  function NotInstalled(es: seq<Entry<PluginRecord>>): seq<PluginRecord>
  {
    if es == [] then []
    else NotInstalled(es[..|es| - 1]) + (if es[|es| - 1].value.isInstalled then [] else [es[|es| - 1].value])
  }

  /** One more catalogue entry visited by the available loop. */
  lemma NotInstalledStep(es: seq<Entry<PluginRecord>>, i: nat)
    requires i < |es|
    ensures NotInstalled(es[..i + 1]) == NotInstalled(es[..i]) + (if es[i].value.isInstalled then [] else [es[i].value])
  {
    assert es[..i + 1][..i] == es[..i];
  }

  /**
   * NotInstalled collects exactly the records that are not installed: each
   * of its records stands at some position of the catalogue, and each record
   * that is not installed is among them.
   */
  lemma {:induction false} NotInstalledExactly(es: seq<Entry<PluginRecord>>)
    ensures forall r :: r in NotInstalled(es) ==> !r.isInstalled && exists i :: 0 <= i < |es| && es[i].value == r
    ensures forall i :: 0 <= i < |es| && !es[i].value.isInstalled ==> es[i].value in NotInstalled(es)
  {
    if es != [] {
      var init := es[..|es| - 1];
      NotInstalledExactly(init);
      forall r | r in NotInstalled(es) ensures !r.isInstalled && exists i :: 0 <= i < |es| && es[i].value == r {
        if r in NotInstalled(init) {
          var i :| 0 <= i < |init| && init[i].value == r;
          assert es[i] == init[i];
        } else {
          assert es[|es| - 1].value == r;
        }
      }
      forall i | 0 <= i < |es| && !es[i].value.isInstalled ensures es[i].value in NotInstalled(es) {
        if i < |init| {
          assert init[i] == es[i];
        }
      }
    }
  }

  /** In a well-formed catalogue, NotInstalled lists its records in ascending name order. */
  lemma {:induction false} NotInstalledAscending(es: seq<Entry<PluginRecord>>)
    requires WellFormed(es)
    ensures forall a, b :: 0 <= a < b < |NotInstalled(es)| ==> Below(NotInstalled(es)[a].name, NotInstalled(es)[b].name)
  {
    if es != [] {
      var init := es[..|es| - 1];
      var last := es[|es| - 1];
      assert WellFormed(init) by {
        forall a, b | 0 <= a < b < |init| ensures Below(init[a].key, init[b].key) {
          assert init[a] == es[a] && init[b] == es[b];
        }
      }
      NotInstalledAscending(init);
      NotInstalledExactly(init);
      var before := NotInstalled(init);
      forall a | 0 <= a < |before| ensures Below(before[a].name, last.key) {
        assert before[a] in before;
        var i :| 0 <= i < |init| && init[i].value == before[a];
        assert es[i] == init[i];
      }
    }
  }

  /**
   * checkInstalledPlugins: when the search finds at least one file, handle
   * every file and then append every record of the catalogue that is not
   * installed to the available list; when it finds none, change nothing.
   */
  function CheckInstalled(s: Lists, pluginPath: string, files: seq<PluginFile>): (r: Lists)
    requires WellFormed(s.plugins)
    ensures WellFormed(r.plugins)
    ensures files == [] ==> r == s
  {
    if files == [] then s
    else
      var t := CheckFiles(s, pluginPath, files);
      t.(available := t.available + NotInstalled(t.plugins))
  }

  /**
   * After a reconciliation that found files, the available list has gained
   * exactly the catalogue records that are not installed, in ascending name
   * order, and none of them is a plugin whose file was recognised; nothing
   * was removed from any list.
   */
  lemma AvailableAfterReconciliation(s: Lists, pluginPath: string, files: seq<PluginFile>)
    requires WellFormed(s.plugins) && files != []
    ensures var t := CheckInstalled(s, pluginPath, files);
      && s.installed <= t.installed && s.updateable <= t.updateable && s.available <= t.available
      && var added := t.available[|s.available|..];
      && (forall r :: r in added ==> !r.isInstalled && r.name in AsMap(t.plugins) && AsMap(t.plugins)[r.name] == r)
      && (forall k :: k in AsMap(t.plugins) && !AsMap(t.plugins)[k].isInstalled ==> AsMap(t.plugins)[k] in added)
      && (forall a, b :: 0 <= a < b < |added| ==> Below(added[a].name, added[b].name))
      && (forall i, r :: 0 <= i < |files| && r in added ==> ProbedName(files[i].probe) != Some(r.name))
  {
    var t := CheckFiles(s, pluginPath, files);
    CheckFilesAppends(s, pluginPath, files);
    NotInstalledExactly(t.plugins);
    NotInstalledAscending(t.plugins);
    var u := CheckInstalled(s, pluginPath, files);
    var added := NotInstalled(t.plugins);
    assert u.available[|s.available|..] == added;
    forall r | r in added ensures r.name in AsMap(t.plugins) && AsMap(t.plugins)[r.name] == r {
      var i :| 0 <= i < |t.plugins| && t.plugins[i].value == r;
      AsMapAt(t.plugins, i);
    }
    forall k | k in AsMap(t.plugins) && !AsMap(t.plugins)[k].isInstalled ensures AsMap(t.plugins)[k] in added {
      var i := Find(t.plugins, k).value;
      AsMapAt(t.plugins, i);
    }
    forall i, r | 0 <= i < |files| && r in added ensures ProbedName(files[i].probe) != Some(r.name) {
      if ProbedName(files[i].probe) == Some(r.name) {
        var j :| 0 <= j < |t.plugins| && t.plugins[j].value == r;
        AsMapAt(t.plugins, j);
        assert r.name in Keys(s.plugins);
        MatchedFileMarksInstalled(s, pluginPath, files, i, r.name);
      }
    }
  }
}
