/**
 * The plugin list: the catalogue of plugins read from the manifest, keyed
 * and ordered by name, and the installed, updateable and available lists
 * that reconciliation with the plugins directory fills.
 */
module PluginLists {
  import opened Wrappers
  import opened Xml
  import opened Versions
  import opened Plugins
  import opened PluginName
  import opened Manifest
  import opened OrderedMap
  import opened Catalogue
  import opened Reconcile
  import opened Dependencies
  import opened Gpup
  import opened Runs

  class PluginList {
    var plugins: seq<Entry<PluginRecord>>
    var installedPlugins: seq<PluginRecord>
    var updateablePlugins: seq<PluginRecord>
    var availablePlugins: seq<PluginRecord>

    ghost predicate Valid()
      reads this
    {
      WellFormed(plugins)
    }

    /** The catalogue and the three lists, as one value. */
    function State(): Lists
      reads this
    {
      Lists(plugins, installedPlugins, updateablePlugins, availablePlugins)
    }

    /** The catalogue as a map from name to record. */
    ghost function Records(): map<string, PluginRecord>
      reads this
    {
      AsMap(plugins)
    }

    constructor()
      ensures Valid() && State() == Lists([], [], [], [])
    {
      plugins := [];
      installedPlugins := [];
      updateablePlugins := [];
      availablePlugins := [];
    }

    /**
     * parsePluginFile: a load error answers false and changes nothing;
     * otherwise every entry of the manifest is read in order and each
     * available one is stored under its name, and the answer is true.
     */
    method ParsePluginFile(load: LoadResult, unicode: bool, parse: string -> Version,
                           factory: Node -> Option<InstallStep>) returns (ok: bool)
      requires Valid()
      modifies this
      ensures Valid()
      ensures ok <==> load.Loaded?
      ensures !ok ==> plugins == old(plugins)
      ensures ok ==> plugins == Catalogued(old(plugins), ParsedEntries(PluginEntries(load.document), unicode, parse, factory))
      ensures installedPlugins == old(installedPlugins) && updateablePlugins == old(updateablePlugins)
      ensures availablePlugins == old(availablePlugins)
    {
      if load.LoadError? {
        return false;
      }
      var pluginsElement := ChildElement(load.document, "plugins");
      if pluginsElement.Some? {
        var entries := RunFrom(pluginsElement.value, Some("plugin"));
        assert entries == PluginEntries(load.document);
        for i := 0 to |entries|
          invariant installedPlugins == old(installedPlugins) && updateablePlugins == old(updateablePlugins)
          invariant availablePlugins == old(availablePlugins)
          invariant WellFormed(plugins)
          invariant plugins == Catalogued(old(plugins), ParsedEntries(entries[..i], unicode, parse, factory))
        {
          ghost var before := ParsedEntries(entries[..i], unicode, parse, factory);
          ReadEntry(entries[i], unicode, parse, factory);
          ParsedEntriesStep(entries, i, unicode, parse, factory);
          CataloguedStep(old(plugins), before, ParsedFrom(entries[i], unicode, parse, factory));
        }
        assert entries[..|entries|] == entries;
      } else {
        assert ParsedEntries(PluginEntries(load.document), unicode, parse, factory) == [];
      }
      return true;
    }

    /** The body of the manifest loop of parsePluginFile, for one entry. */
    method ReadEntry(entry: Node, unicode: bool, parse: string -> Version,
                     factory: Node -> Option<InstallStep>)
      requires Valid()
      modifies this
      ensures Valid()
      ensures var e := ParsedFrom(entry, unicode, parse, factory);
              plugins == if e.available then Put(old(plugins), e.plugin.name, e.plugin) else old(plugins)
      ensures installedPlugins == old(installedPlugins) && updateablePlugins == old(updateablePlugins)
      ensures availablePlugins == old(availablePlugins)
    {
      var e := ParseEntry(entry, unicode, parse, factory);
      if e.available {
        PutKeepsWellFormed(plugins, e.plugin);
        plugins := Put(plugins, e.plugin.name, e.plugin);
      }
    }

    /**
     * checkInstalledPlugins over the files the directory search reports:
     * each file is reconciled with the catalogue, then, when there was at
     * least one file, every record not installed goes to the available list.
     * The answer is always true.
     */
    method CheckInstalledPlugins(pluginPath: string, files: seq<PluginFile>) returns (ok: bool)
      requires Valid()
      modifies this
      ensures Valid() && ok
      ensures State() == CheckInstalled(old(State()), pluginPath, files)
    {
      if |files| > 0 {
        for i := 0 to |files|
          invariant WellFormed(plugins)
          invariant State() == CheckFiles(old(State()), pluginPath, files[..i])
        {
          ghost var before := State();
          CheckPluginFile(pluginPath, files[i]);
          CheckFilesStep(old(State()), pluginPath, files, i);
        }
        assert files[..|files|] == files;
        ghost var reconciled := State();
        var catalogue := plugins;
        for i := 0 to |catalogue|
          invariant State() == reconciled.(available := reconciled.available + NotInstalled(catalogue[..i]))
        {
          NotInstalledStep(catalogue, i);
          if !catalogue[i].value.isInstalled {
            availablePlugins := availablePlugins + [catalogue[i].value];
          }
        }
        assert catalogue[..|catalogue|] == catalogue;
      }
      return true;
    }

    /** The body of the file loop of checkInstalledPlugins, for one file. */
    method CheckPluginFile(pluginPath: string, f: PluginFile)
      requires Valid()
      modifies this
      ensures Valid()
      ensures State() == CheckFile(old(State()), pluginPath, f)
    {
      CheckFileWellFormed(State(), pluginPath, f);
      var pluginName := GetPluginName(f.probe);
      if pluginName.Some? {
        var name := pluginName.value;
        var pluginFilename := pluginPath + "\\plugins\\" + f.fileName;
        var knownPlugin := Find(plugins, name);
        if knownPlugin.Some? {
          var plugin := plugins[knownPlugin.value].value;
          plugin := plugin.(filename := pluginFilename);
          if f.fileVersion.Some? {
            plugin := plugin.(installedVersion := f.fileVersion.value);
          }
          if f.hashVersion.Some? {
            plugin := plugin.(installedVersion := f.hashVersion.value);
          }
          plugin := plugin.(isInstalled := true);
          plugins := plugins[knownPlugin.value := Entry(name, plugin)];
          if plugin.version == plugin.installedVersion {
            installedPlugins := installedPlugins + [plugin];
          } else if Newer(plugin.version, plugin.installedVersion) {
            updateablePlugins := updateablePlugins + [plugin];
          } else {
            installedPlugins := installedPlugins + [plugin];
          }
        } else {
          var plugin := Blank.(name := name, filename := pluginFilename, isInstalled := true);
          if f.fileVersion.Some? {
            plugin := plugin.(installedVersion := f.fileVersion.value);
          }
          plugin := plugin.(description := UnknownDescription);
          installedPlugins := installedPlugins + [plugin];
        }
      }
    }

    /**
     * getPlugin: the record stored under `name`, or None where the source's
     * lookup would insert and return a null record.
     */
    function GetPlugin(name: string): (r: Option<PluginRecord>)
      reads this
      requires Valid()
      ensures r.Some? <==> name in Records()
      ensures r.Some? ==> r.value == Records()[name] && r.value.name == name
    {
      match Find(plugins, name)
      case Some(i) =>
        AsMapAt(plugins, i);
        Some(plugins[i].value)
      case None => None
    }

    /**
     * isInstallOrUpgrade: whether a dependency on `name` calls for installing
     * it; None for a name the catalogue does not know, where the source
     * dereferences a null record.
     */
    function InstallOrUpgrade(name: string): (r: Option<bool>)
      reads this
      requires Valid()
      ensures r.Some? <==> name in Records()
      ensures r.Some? ==> (r.value <==> !(Records()[name].isInstalled && AtMost(Records()[name].version, Records()[name].installedVersion)))
    {
      match GetPlugin(name)
      case Some(p) => Some(IsInstallOrUpgrade(p))
      case None => None
    }

    /**
     * calculateDependencies: the selection grows by the catalogue records of
     * dependencies that are not yet selected and need installing, and so do
     * the set of selected names and the list of names added, in the same
     * order; the dependencies of added records are scanned as well. A
     * dependency the catalogue does not know ends the expansion with
     * UnknownDependency, where the source dereferences a null record.
     */
    method CalculateDependencies(selection: seq<PluginRecord>) returns (r: Expansion)
      requires Valid()
      ensures r.Expanded? ==> Expands(selection, Records(), r.selection, r.added)
      ensures r.UnknownDependency? ==> r.name !in Records() && !DependencyClosed(selection, Records())
      ensures r.UnknownDependency? ==> forall s, a :: !Expands(selection, Records(), s, a)
    {
      ghost var catalogue := Records();
      forall k | k in catalogue ensures catalogue[k].name == k {
        CatalogueNames(plugins, k);
      }
      var toBeInstalled: set<string> := {};
      for i := 0 to |selection|
        invariant toBeInstalled == Names(selection[..i])
      {
        assert selection[..i + 1] == selection[..i] + [selection[i]];
        NamesAppend(selection[..i], selection[i]);
        toBeInstalled := toBeInstalled + {selection[i].name};
      }
      assert selection[..|selection|] == selection;
      var sel := selection;
      var added: seq<string> := [];
      ghost var cause: seq<nat>, pos: seq<nat> := [], [];
      var i := 0;
      while i < |sel|
        invariant i <= |sel|
        invariant toBeInstalled == Names(sel)
        invariant Grows(selection, catalogue, sel, added)
        invariant Caused(selection, sel, added, cause, pos)
        invariant forall t :: 0 <= t < |cause| ==> cause[t] < i
        invariant SettledUpTo(sel, i, toBeInstalled, catalogue)
        decreases catalogue.Keys - toBeInstalled, |sel| - i
      {
        var unknown;
        unknown, sel, added, cause, pos, toBeInstalled := ScanDependencies(catalogue, selection, sel, added, cause, pos, toBeInstalled, i);
        if unknown.Some? {
          return UnknownDependency(unknown.value);
        }
        i := i + 1;
      }
      CausedDependedOn(selection, sel, added, cause, pos);
      r := Expanded(sel, added);
    }

    /**
     * The body of the outer loop of calculateDependencies: the dependencies
     * of the i-th record of the growing selection, scanned in order.
     */
    method ScanDependencies(ghost catalogue: map<string, PluginRecord>, selection: seq<PluginRecord>,
                            sel: seq<PluginRecord>, added: seq<string>, ghost cause: seq<nat>, ghost pos: seq<nat>,
                            toBeInstalled: set<string>, i: nat)
      returns (unknown: Option<string>, sel': seq<PluginRecord>, added': seq<string>, ghost cause': seq<nat>,
               ghost pos': seq<nat>, toBeInstalled': set<string>)
      requires Valid() && catalogue == Records() && Keyed(catalogue)
      requires i < |sel| && toBeInstalled == Names(sel)
      requires Grows(selection, catalogue, sel, added) && Caused(selection, sel, added, cause, pos)
      requires forall t :: 0 <= t < |cause| ==> cause[t] < i
      requires SettledUpTo(sel, i, toBeInstalled, catalogue)
      ensures unknown.Some? ==> unknown.value !in catalogue && !DependencyClosed(selection, catalogue)
      ensures unknown.Some? ==> forall s, a :: !Expands(selection, catalogue, s, a)
      ensures unknown.None? ==> toBeInstalled' == Names(sel')
      ensures unknown.None? ==> Grows(selection, catalogue, sel', added') && Caused(selection, sel', added', cause', pos')
      ensures unknown.None? ==> forall t :: 0 <= t < |cause'| ==> cause'[t] <= i
      ensures unknown.None? ==> toBeInstalled <= toBeInstalled' && |sel| <= |sel'| && sel'[..|sel|] == sel
      ensures unknown.None? ==> SettledUpTo(sel', i + 1, toBeInstalled', catalogue)
      ensures unknown.None? && |sel'| > |sel| ==> exists d :: d in catalogue && d in toBeInstalled' - toBeInstalled
    {
      sel', added', cause', pos', toBeInstalled' := sel, added, cause, pos, toBeInstalled;
      var dependencies := sel[i].dependencies;
      for j := 0 to |dependencies|
        invariant |sel| <= |sel'| && sel'[..|sel|] == sel && |added'| - |added| == |sel'| - |sel|
        invariant toBeInstalled' == Names(sel')
        invariant Grows(selection, catalogue, sel', added') && Caused(selection, sel', added', cause', pos')
        invariant forall t :: 0 <= t < |cause'| ==> Before(cause'[t], pos'[t], i, j)
        invariant toBeInstalled <= toBeInstalled'
        invariant |added'| > |added| ==> added'[|added|] in catalogue && added'[|added|] in toBeInstalled' - toBeInstalled
        invariant SettledUpTo(sel', i, toBeInstalled', catalogue)
        invariant forall m :: 0 <= m < j ==> Settled(dependencies[m], toBeInstalled', catalogue)
      {
        var d := dependencies[j];
        if d !in toBeInstalled' {
          var dependsPlugin := GetPlugin(d);
          if dependsPlugin.None? {
            assert sel'[i] == sel'[..|sel|][i] == sel[i];
            UnknownBreaksClosure(selection, catalogue, sel', added', i, d);
            UnknownMeansNoExpansion(selection, catalogue, sel', added', cause', pos', i, j);
            return Some(d), sel', added', cause', pos', toBeInstalled';
          }
          if IsInstallOrUpgrade(dependsPlugin.value) {
            assert sel'[i] == sel'[..|sel|][i] == sel[i];
            FirstMentionOfUnsettled(sel', i, j, d, toBeInstalled', catalogue);
            CausedAppend(selection, sel', added', cause', pos', dependsPlugin.value, d, i, j);
            GrowsAppend(selection, catalogue, sel', added', d);
            NamesAppend(sel', dependsPlugin.value);
            SettledUpToGrows(sel', sel' + [dependsPlugin.value], i, toBeInstalled', toBeInstalled' + {d}, catalogue);
            assert (sel' + [dependsPlugin.value])[..|sel|] == sel'[..|sel|];
            toBeInstalled' := toBeInstalled' + {d};
            sel' := sel' + [dependsPlugin.value];
            added' := added' + [d];
            cause', pos' := cause' + [i], pos' + [j];
          }
        }
      }
      assert sel'[..|sel|][i] == sel[i];
      SettledUpToNext(sel', i, toBeInstalled', catalogue);
      unknown := None;
    }

    /**
     * installPlugins: with no selection, nothing is saved and the run is
     * cancelled. Otherwise the selection is expanded by its dependencies;
     * each plugin gets the next temporary directory that can be created, an
     * upgrade first defers the deletion of its old file, and its installer
     * runs; the directory is removed unless the plugin needs a restart, and
     * a failure does not stop the run. The updater's document is saved
     * exactly when some plugin needs a restart.
     */
    method InstallPlugins(selection: Option<seq<PluginRecord>>, existing: Option<seq<Node>>, taken: set<nat>,
                          isUpgrade: bool, install: (string, PluginRecord) -> InstallOutcome,
                          restartNow: bool, configDir: string) returns (report: InstallReport)
      requires Valid()
      ensures selection.None? <==> report.InstallCancelled?
      ensures report.InstallAborted? ==> selection.Some? && report.unknown !in Records()
                                         && !DependencyClosed(selection.value, Records())
      ensures report.InstallAborted? ==> forall s, a :: !Expands(selection.value, Records(), s, a)
      ensures report.Installed? ==> selection.Some? && Expands(selection.value, Records(), report.selection, report.added)
      ensures report.Installed? ==> InstallRunIs(report, existing, taken, isUpgrade, install, restartNow, configDir)
    {
      var doc := new GpupDocument.Load(existing);
      if selection.None? {
        return InstallCancelled;
      }
      var expansion := CalculateDependencies(selection.value);
      if expansion.UnknownDependency? {
        return InstallAborted(expansion.name);
      }
      var sel := expansion.selection;
      var stepCount := CountInstallSteps(sel);
      var dirs, statuses, removed, needRestart, somethingInstalled := RunInstallers(doc, sel, existing, taken, isUpgrade, install, configDir);
      var saved := if needRestart then Some(doc.nodes) else None;
      var prompt := if needRestart then RestartToComplete else if somethingInstalled then RestartForChanges else NoPrompt;
      var gpup := None;
      if restartNow && needRestart {
        gpup := Some(GpupArguments(configDir));
      } else if restartNow && somethingInstalled {
        gpup := Some("");
      }
      report := Installed(sel, expansion.added, stepCount, dirs, statuses, removed, saved, prompt, gpup);
    }

    /** The install loop over the expanded selection. */
    method RunInstallers(doc: GpupDocument, sel: seq<PluginRecord>, existing: Option<seq<Node>>, taken: set<nat>,
                         isUpgrade: bool, install: (string, PluginRecord) -> InstallOutcome, configDir: string)
      returns (dirs: seq<nat>, statuses: seq<InstallStatus>, removed: seq<string>, needRestart: bool, somethingInstalled: bool)
      requires doc.Valid() && doc.nodes == GpupNodes(existing)
      modifies doc
      ensures doc.Valid()
      ensures dirs == TempNumbers(taken, |sel|, 1)
      ensures statuses == Statuses(Outcomes(install, configDir, sel, dirs))
      ensures removed == Removed(Paths(configDir, dirs), statuses)
      ensures doc.nodes == WithInstallEntries(GpupNodes(existing), Deferred(isUpgrade, sel, Outcomes(install, configDir, sel, dirs)))
      ensures needRestart <==> NeedRestart in statuses
      ensures somethingInstalled <==> NeedRestart in statuses || Success in statuses
    {
      ghost var allDirs := TempNumbers(taken, |sel|, 1);
      ghost var outcomes := Outcomes(install, configDir, sel, allDirs);
      var count := 1;
      dirs, statuses, removed := [], [], [];
      needRestart, somethingInstalled := false, false;
      WithNoInstallEntries(GpupNodes(existing));
      for i := 0 to |sel|
        invariant doc.Valid()
        invariant |dirs| == i && dirs + TempNumbers(taken, |sel| - i, count) == allDirs
        invariant statuses == Statuses(outcomes[..i])
        invariant removed == Removed(Paths(configDir, dirs), statuses)
        invariant doc.nodes == WithInstallEntries(GpupNodes(existing), Deferred(isUpgrade, sel[..i], outcomes[..i]))
        invariant needRestart <==> NeedRestart in statuses
        invariant somethingInstalled <==> NeedRestart in statuses || Success in statuses
      {
        dirs, count, statuses, removed, needRestart, somethingInstalled :=
          InstallNext(doc, sel, i, existing, taken, isUpgrade, install, configDir, allDirs, outcomes,
                      dirs, count, statuses, removed, needRestart, somethingInstalled);
      }
      InstallLoopDone(install, configDir, sel, taken, isUpgrade, count, allDirs, dirs, statuses,
                      Deferred(isUpgrade, sel[..|sel|], outcomes[..|sel|]));
    }

    /** One turn of the install loop: the i-th plugin is installed and its outcome tallied. */
    method InstallNext(doc: GpupDocument, sel: seq<PluginRecord>, i: nat, existing: Option<seq<Node>>, taken: set<nat>,
                       isUpgrade: bool, install: (string, PluginRecord) -> InstallOutcome, configDir: string,
                       ghost allDirs: seq<nat>, ghost outcomes: seq<InstallOutcome>,
                       dirs: seq<nat>, count: nat, statuses: seq<InstallStatus>, removed: seq<string>,
                       needRestart: bool, somethingInstalled: bool)
      returns (dirs': seq<nat>, count': nat, statuses': seq<InstallStatus>, removed': seq<string>,
               needRestart': bool, somethingInstalled': bool)
      requires i < |sel| && |allDirs| == |sel| && outcomes == Outcomes(install, configDir, sel, allDirs)
      requires doc.Valid()
      requires |dirs| == i && dirs + TempNumbers(taken, |sel| - i, count) == allDirs
      requires statuses == Statuses(outcomes[..i])
      requires removed == Removed(Paths(configDir, dirs), statuses)
      requires doc.nodes == WithInstallEntries(GpupNodes(existing), Deferred(isUpgrade, sel[..i], outcomes[..i]))
      requires needRestart <==> NeedRestart in statuses
      requires somethingInstalled <==> NeedRestart in statuses || Success in statuses
      modifies doc
      ensures doc.Valid()
      ensures |dirs'| == i + 1 && dirs' + TempNumbers(taken, |sel| - (i + 1), count') == allDirs
      ensures statuses' == Statuses(outcomes[..i + 1])
      ensures removed' == Removed(Paths(configDir, dirs'), statuses')
      ensures doc.nodes == WithInstallEntries(GpupNodes(existing), Deferred(isUpgrade, sel[..i + 1], outcomes[..i + 1]))
      ensures needRestart' <==> NeedRestart in statuses'
      ensures somethingInstalled' <==> NeedRestart in statuses' || Success in statuses'
    {
      var dir, outcome;
      dir, count', outcome := InstallOne(doc, sel[i], taken, count, isUpgrade, install, configDir);
      var pluginTemp := TempPath(configDir, dir);
      TempNumbersNext(dirs, taken, |sel| - i, |sel| - (i + 1), count, dir, count', allDirs);
      assert outcome == outcomes[i];
      DeferredStep(isUpgrade, sel, outcomes, i);
      WithInstallEntriesTwice(GpupNodes(existing), Deferred(isUpgrade, sel[..i], outcomes[..i]),
                              (if isUpgrade then [DeleteNode(sel[i].filename)] else []) + outcome.deferred);
      PathsAppend(configDir, dirs, dir);
      StatusesStep(outcomes, i);
      statuses', removed', needRestart', somethingInstalled' :=
        TallyStatus(Paths(configDir, dirs), statuses, removed, needRestart, somethingInstalled, outcome.status, pluginTemp);
      dirs' := dirs + [dir];
    }

    /**
     * The status switch of the install loop: the directory is removed unless
     * the plugin needs a restart, and the run notes whether a restart is
     * needed and whether anything was installed.
     */
    method TallyStatus(ghost paths: seq<string>, statuses: seq<InstallStatus>, removed: seq<string>,
                       needRestart: bool, somethingInstalled: bool, status: InstallStatus, pluginTemp: string)
      returns (statuses': seq<InstallStatus>, removed': seq<string>, needRestart': bool, somethingInstalled': bool)
      requires |paths| == |statuses| && removed == Removed(paths, statuses)
      requires needRestart <==> NeedRestart in statuses
      requires somethingInstalled <==> NeedRestart in statuses || Success in statuses
      ensures statuses' == statuses + [status]
      ensures removed' == Removed(paths + [pluginTemp], statuses')
      ensures needRestart' <==> NeedRestart in statuses'
      ensures somethingInstalled' <==> NeedRestart in statuses' || Success in statuses'
    {
      RemovedStep(paths, statuses, pluginTemp, status);
      statuses', removed', needRestart', somethingInstalled' := statuses + [status], removed, needRestart, somethingInstalled;
      match status
      case Success =>
        removed' := removed + [pluginTemp];
        somethingInstalled' := true;
      case NeedRestart =>
        needRestart' := true;
        somethingInstalled' := true;
      case Fail =>
        removed' := removed + [pluginTemp];
    }

    /** The body of the install loop, up to the status switch, for one plugin. */
    method InstallOne(doc: GpupDocument, plugin: PluginRecord, taken: set<nat>, count: nat, isUpgrade: bool,
                      install: (string, PluginRecord) -> InstallOutcome, configDir: string)
      returns (dir: nat, count': nat, outcome: InstallOutcome)
      requires doc.Valid()
      modifies doc
      ensures doc.Valid()
      ensures dir == NextFree(taken, count) && count' == dir + 1
      ensures outcome == install(TempPath(configDir, dir), plugin)
      ensures doc.nodes == WithInstallEntries(old(doc.nodes), (if isUpgrade then [DeleteNode(plugin.filename)] else []) + outcome.deferred)
    {
      dir, count' := CreateTempDir(taken, count);
      var pluginTemp := TempPath(configDir, dir);
      ghost var start := doc.nodes;
      if isUpgrade {
        doc.AppendToInstall([DeleteNode(plugin.filename)]);
      }
      outcome := install(pluginTemp, plugin);
      doc.AppendToInstall(outcome.deferred);
      if isUpgrade {
        WithInstallEntriesTwice(start, [DeleteNode(plugin.filename)], outcome.deferred);
      } else {
        assert [] + outcome.deferred == outcome.deferred;
      }
    }

    /**
     * The directory-creation loop: numbers from `count` on are tried until
     * one can be created; it answers that number and the counter after it.
     */
    method CreateTempDir(taken: set<nat>, count: nat) returns (dir: nat, count': nat)
      ensures dir == NextFree(taken, count) && count' == dir + 1
    {
      count' := count;
      var created := false;
      dir := count;
      while !created
        invariant created ==> dir == NextFree(taken, count) && count' == dir + 1
        invariant !created ==> count <= count' && NextFree(taken, count') == NextFree(taken, count)
        decreases if created then 0 else 1, TakenFrom(taken, count')
      {
        dir := count';
        created := count' !in taken;
        if !created {
          TakenFromShrinks(taken, count');
        }
        count' := count' + 1;
      }
    }

    /** The step count loop: the total of the plugins' install step counts. */
    method CountInstallSteps(sel: seq<PluginRecord>) returns (total: nat)
      ensures total == StepTotal(sel)
    {
      total := 0;
      for i := 0 to |sel|
        invariant total == StepTotal(sel[..i])
      {
        assert sel[..i + 1][..i] == sel[..i];
        total := total + InstallStepCount(sel[i]);
      }
      assert sel[..|sel|] == sel;
    }

    /**
     * removePlugins: with no selection, nothing is saved and the run is
     * cancelled. Otherwise one deletion per selected plugin is appended to
     * the install element of the updater's document, after what it held,
     * one progress step is completed per plugin, and the document is
     * saved; the updater is started if the user agrees, otherwise the
     * selection is dropped from the list view.
     */
    method RemovePlugins(selection: Option<seq<PluginRecord>>, existing: Option<seq<Node>>,
                         restartNow: bool, configDir: string) returns (report: RemoveReport)
      ensures selection.None? <==> report.RemoveCancelled?
      ensures report.Removal? ==> selection.Some?
                                  && report.stepCount == |selection.value| && report.stepsCompleted == |selection.value|
                                  && report.saved == WithInstallEntries(GpupNodes(existing), Deletes(selection.value))
                                  && (report.gpup.Some? <==> restartNow)
                                  && (report.gpup.Some? ==> report.gpup.value == GpupArguments(configDir))
                                  && report.removeSelected == !restartNow
    {
      var doc := new GpupDocument.Load(existing);
      if selection.None? {
        return RemoveCancelled;
      }
      var sel := selection.value;
      var removeSteps := |sel|;
      var completed := 0;
      WithNoInstallEntries(GpupNodes(existing));
      for i := 0 to |sel|
        invariant doc.Valid() && completed == i
        invariant doc.nodes == WithInstallEntries(GpupNodes(existing), Deletes(sel[..i]))
      {
        WithInstallEntriesTwice(GpupNodes(existing), Deletes(sel[..i]), [DeleteNode(sel[i].filename)]);
        assert Deletes(sel[..i + 1]) == Deletes(sel[..i]) + [DeleteNode(sel[i].filename)];
        doc.AppendToInstall([DeleteNode(sel[i].filename)]);
        completed := completed + 1;
      }
      assert sel[..|sel|] == sel;
      var gpup := if restartNow then Some(GpupArguments(configDir)) else None;
      report := Removal(removeSteps, completed, doc.nodes, gpup, !restartNow);
    }
  }
}
