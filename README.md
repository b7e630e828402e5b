# Plugin list of the Notepad++ Plugin Manager, modelled in Dafny

This project models the plugin list of the Notepad++ Plugin Manager
(`pluginManager/src/PluginList.cpp`). The plugin list does five things:

1. It reads the plugin manifest into a catalogue. The catalogue maps each plugin
   name to a plugin record and is kept ordered by name. The `<install>` subtree
   of each entry becomes a flat list of install steps.
2. It reconciles the catalogue with the plugin DLLs found on disk. This fills
   the installed, updateable and available lists. Names read from the DLLs are
   cleaned of the `&` menu-mnemonic marks.
3. It expands a user's selection by the plugins it depends on.
4. It runs an install. Each plugin gets a fresh numbered temporary directory
   and its installer runs there. The run tallies the plugins' statuses, removes
   the directories it no longer needs, and defers steps to the updater (gpup)
   in its XML document.
5. It runs a removal. One deferred `delete` step per selected plugin goes into
   the updater's document, and the document is saved.

The model is split by module:
- `Xml`: the tree navigation the code does.
- `OrderedMap`: the name-ordered map of plugins.
- `Versions` and `Plugins`: plugin records.
- `PluginName`: the `&` sanitiser.
- `Manifest` and `Catalogue`: manifest parsing.
- `Reconcile`: reconciliation.
- `Dependencies`: the specification of the expansion.
- `Gpup`: the updater's document.
- `Runs`: what install and remove runs produce.
- `PluginLists`: the class `PluginList`. It holds the catalogue and the three lists, and its methods are the imperative operations, written with loops as in the source.

Things outside the plugin list become inputs:
- **Manifest load:** a `LoadResult`, either a load error or the document tree.
- **DLL search and probes:** a sequence of `PluginFile` values. Each one holds the name probe, the version from the version resource, and the version its MD5 hash maps to.
- **Version parsing:** a function `parse`.
- **Install step factory:** a function `factory` that returns an optional step.
- **Each plugin's installer:** a function from (temporary directory, record) to a status and the entries it appends to the `<install>` element.
- **Numbers `CreateDirectory` refuses:** the set `taken`.
- **Existing updater document:** an optional list of top-level nodes.
- **User's answer to the restart question:** `restartNow`.

Versions are abstracted to their rank in the version order.

## Model

| member | source | states |
|---|---|---|
| PluginName.StripAmpersands | pluginManager/src/PluginList.cpp:359-365 | The find-and-replace loop yields the name with every `&` left out: the result is `WithoutAmpersands(name)` and holds no `&`. |
| PluginName.IndexOf | pluginManager/src/PluginList.cpp:360 | find returns the first position holding the character, or none exactly when it does not occur. |
| PluginName.RemoveOneAmpersand | pluginManager/src/PluginList.cpp:363 | Replacing one `&` by nothing does not change what the cleaning yields. This is the loop's invariant step. |
| PluginName.NoAmpersandLeft | pluginManager/src/PluginList.cpp:359-365 | No `&` survives the cleaning. |
| PluginName.CleaningIsIdempotent | pluginManager/src/PluginList.cpp:359-365 | Cleaning a cleaned name changes nothing. |
| PluginName.WithoutAmpersandsIdentity | pluginManager/src/PluginList.cpp:361 | A name without `&` is left as it is, so the loop ends with the cleaned name. |
| PluginName.CleaningRemovesOnlyAmpersands | pluginManager/src/PluginList.cpp:359-365 | Only `&` characters are removed. Every other character keeps its count, and the length drops by the number of `&`. |
| PluginName.WithoutAmpersandsConcat | pluginManager/src/PluginList.cpp:359-365 | Cleaning distributes over concatenation, so the characters kept stay in their order. |
| PluginName.ProbedName | pluginManager/src/PluginList.cpp:341-389 | There is no name exactly when the library does not load or has no name accessor (the two throws). A null name reads as the empty name. Otherwise the name is the cleaned name. No name it yields holds an `&`. |
| PluginName.GetPluginName | pluginManager/src/PluginList.cpp:341-389 | The method yields the name `ProbedName` describes for the probe. |
| Manifest.AddInstallSteps | pluginManager/src/PluginList.cpp:208-244 | The result is the given steps followed by `InstallStepsOf(install)`. A missing install element adds nothing. |
| Manifest.AddChildSteps | pluginManager/src/PluginList.cpp:219-238 | A child that passes the flavour gate (a `unicode`/`ansi` wrapper matching the host, with a child) is flattened recursively. Any other child goes to the factory, and only a non-null result is appended. |
| Manifest.BuiltIsFactoryOutput | pluginManager/src/PluginList.cpp:234-236 | Every appended step is the factory's result for some node handed to it. Every node the factory accepts yields its step. There are never more steps than nodes. |
| Manifest.GatedWrappersNeverReachFactory | pluginManager/src/PluginList.cpp:221-230 | No wrapper that passes the flavour gate is ever handed to the factory. |
| Manifest.FlatInstallKeepsDocumentOrder | pluginManager/src/PluginList.cpp:213-243 | Without gated wrappers, the factory sees the children from the first element on, exactly in document order. A wrapper for the other flavour, or an empty one, is handed to the factory as an ordinary node. |
| Manifest.BuiltConcat | pluginManager/src/PluginList.cpp:217-243 | The steps built from two runs of nodes are the steps of the first followed by those of the second, so flattening keeps document order. |
| Manifest.ReadVersions | pluginManager/src/PluginList.cpp:139-149 | The version table has one row per node from the first `version` element of `versions` on. There are no rows without that element. |
| Manifest.ReadDependencies | pluginManager/src/PluginList.cpp:157-173 | The dependencies are the names of the named `plugin` elements of a non-empty `dependencies` element, in document order. Each comes from such an element. |
| Manifest.DependencyNamesDeclared | pluginManager/src/PluginList.cpp:164-169 | Every dependency name comes from a `plugin` element carrying that `name` attribute. |
| Manifest.ParsePlugin | pluginManager/src/PluginList.cpp:105-195 | The entry is available exactly when the host-flavour version element has a text child, and then the version is that text parsed. The category is the category text or "Others". The install steps are the flattened install element and the dependencies are as declared. The record is not installed. |
| Catalogue.ParseEntry | pluginManager/src/PluginList.cpp:105-195 | Reading one entry gives its availability and the record `PluginFromEntry` describes. |
| Catalogue.PutKeepsWellFormed | pluginManager/src/PluginList.cpp:197-198 | Storing a record under its own name keeps the map ordered by name, with every record under its own name. |
| OrderedMap.Put | pluginManager/src/PluginList.cpp:198 | `map[name] = plugin` keeps the keys strictly ordered. It adds the name to the keys and updates the map at that name only. |
| OrderedMap.Find | pluginManager/src/PluginList.cpp:283 | find returns the position of the key, or nothing exactly when the key is absent. |
| OrderedMap.AsMapUpdateAt | pluginManager/src/PluginList.cpp:288-289 | Updating the record at a found position updates the map at that key only. |
| Catalogue.CataloguedKeys | pluginManager/src/PluginList.cpp:197-198 | After the manifest loop, a name is in the catalogue exactly when it was before or some available entry carries it. |
| Catalogue.LaterEntryReplacesEarlier | pluginManager/src/PluginList.cpp:197-198 | The last available entry of a name is the record the catalogue holds for it. |
| Catalogue.UnlistedNameUntouched | pluginManager/src/PluginList.cpp:197-198 | A name no available entry carries keeps its earlier record. |
| Catalogue.ManifestEntryEnters | pluginManager/src/PluginList.cpp:109-198 | In manifest terms, a name enters exactly when some entry of that name has a text child in its host-flavour version element. |
| Catalogue.LastManifestEntryWins | pluginManager/src/PluginList.cpp:103-203 | In manifest terms, of several available entries with one name, the last one's record is kept. |
| PluginLists.PluginList.constructor | pluginManager/src/PluginList.cpp:49-58 | A new plugin list has an empty catalogue and three empty lists. |
| PluginLists.PluginList.ParsePluginFile | pluginManager/src/PluginList.cpp:83-206 | The answer is false exactly on a load error, and then the catalogue is unchanged. Otherwise the catalogue is `Catalogued(old catalogue, entries read in order)`. The three lists are never touched. |
| PluginLists.PluginList.ReadEntry | pluginManager/src/PluginList.cpp:105-198 | One pass of the manifest loop stores the record under its name exactly when the entry is available. |
| Reconcile.Reconciled | pluginManager/src/PluginList.cpp:288-299 | A matched record keeps its name and catalogue version and becomes installed. |
| Reconcile.UnknownPlugin | pluginManager/src/PluginList.cpp:310-318 | A DLL of an unknown plugin gets a record with its name, its path and the fixed "Unknown plugin" description. |
| Reconcile.ReconciledNeedsInstallIffNewer | pluginManager/src/PluginList.cpp:489-496 | For a matched record, `isInstallOrUpgrade` holds exactly when the catalogue version is newer than the installed one. |
| Reconcile.FailedProbeSkipsFile | pluginManager/src/PluginList.cpp:267-281 | A DLL whose name cannot be read changes nothing. |
| Reconcile.KnownFile | pluginManager/src/PluginList.cpp:283-307 | A DLL of a known plugin updates its catalogue record. The record goes to updateable exactly when the available version is newer than the installed one, and to installed otherwise. The available list is untouched. |
| Reconcile.UnknownFile | pluginManager/src/PluginList.cpp:308-319 | A DLL of an unknown plugin appends the synthetic record to installed and leaves the catalogue and the other lists alone. |
| Reconcile.CheckFileWellFormed | pluginManager/src/PluginList.cpp:283-307 | Handling a DLL keeps the catalogue well formed and its set of names unchanged. |
| Reconcile.CheckFiles | pluginManager/src/PluginList.cpp:261-323 | Handling the DLLs in order keeps the catalogue well formed, with the same names. |
| Reconcile.CheckFilesAppends | pluginManager/src/PluginList.cpp:261-323 | The lists are only appended to. Each recognised DLL adds exactly one record to installed or updateable, and available is left alone. |
| Reconcile.CheckFilesKeepsInstalled | pluginManager/src/PluginList.cpp:261-323 | Reconciliation never unmarks an installed record. |
| Reconcile.MatchedFileMarksInstalled | pluginManager/src/PluginList.cpp:283-299 | A catalogue record whose name some DLL reports ends up installed. |
| Reconcile.NotInstalledExactly | pluginManager/src/PluginList.cpp:325-331 | The available loop collects exactly the records that are not installed. |
| Reconcile.NotInstalledAscending | pluginManager/src/PluginList.cpp:325-331 | The records it collects come in ascending name order, which is map order. |
| Reconcile.CheckInstalled | pluginManager/src/PluginList.cpp:247-338 | The whole reconciliation keeps the catalogue well formed. With no DLL found, nothing changes. |
| Reconcile.AvailableAfterReconciliation | pluginManager/src/PluginList.cpp:259-334 | After a search that found files: no list lost anything, and available gained exactly the catalogue records not installed, in name order. None of them is a plugin whose DLL was recognised. |
| PluginLists.PluginList.CheckInstalledPlugins | pluginManager/src/PluginList.cpp:247-338 | The new catalogue and lists are `CheckInstalled` of the old ones, and the answer is always true. |
| PluginLists.PluginList.CheckPluginFile | pluginManager/src/PluginList.cpp:264-321 | One pass of the DLL loop is `CheckFile` of the old state. |
| PluginLists.PluginList.GetPlugin | pluginManager/src/PluginList.cpp:484-487 | The record stored under the name, when there is one. |
| PluginLists.PluginList.InstallOrUpgrade | pluginManager/src/PluginList.cpp:489-496 | For a known name, false exactly when the plugin is installed and its available version is at most the installed one. |
| PluginLists.PluginList.CalculateDependencies | pluginManager/src/PluginList.cpp:501-548 | See the note below the table. |
| PluginLists.PluginList.ScanDependencies | pluginManager/src/PluginList.cpp:519-541 | Scanning one record's dependencies appends only names that are new and need installing, in declaration order and each at its first mention. It keeps the set equal to the selected names and leaves every dependency of that record settled. |
| Dependencies.GrowsAppend | pluginManager/src/PluginList.cpp:526-537 | Appending an unsettled dependency's record keeps set, selection and added list in step. |
| Dependencies.AdditionsDistinct | pluginManager/src/PluginList.cpp:526-537 | The added names are pairwise distinct and none was selected, so each dependency is recorded once. |
| Dependencies.ExpansionNames | pluginManager/src/PluginList.cpp:503-537 | The names of the expanded selection are the selected names plus the added ones. |
| Dependencies.CausedDependedOn | pluginManager/src/PluginList.cpp:519-537 | Each added name is a dependency of a record before it. |
| Dependencies.FirstMentionOfUnsettled | pluginManager/src/PluginList.cpp:519-537 | A dependency the scan finds unsettled is first mentioned at that point. No earlier record lists it, and its record lists it nowhere earlier. |
| Dependencies.CausedAppend | pluginManager/src/PluginList.cpp:526-535 | Appending a dependency at its first mention, after every earlier addition in worklist order, keeps the order witnesses. |
| Dependencies.Locate | pluginManager/src/PluginList.cpp:516-545 | Two expansions that agree up to one name both append that name, with the same first mention. |
| Dependencies.AgreeNext | pluginManager/src/PluginList.cpp:516-545 | Two expansions that agree before their n-th name also agree on it. |
| Dependencies.ExpansionIsDetermined | pluginManager/src/PluginList.cpp:501-548 | Any two expansions of one selection over one catalogue are equal, order included. So `Expands` fixes the install order the worklist produces. |
| Dependencies.SameFirstMention | pluginManager/src/PluginList.cpp:516-537 | A name's first mention is unique: two selections that agree on a prefix holding one first mention put it at the same record and position. |
| Dependencies.AddedAt | pluginManager/src/PluginList.cpp:531-535 | A record past the selection is the catalogue record of the matching added name. |
| Dependencies.NoOvertaking | pluginManager/src/PluginList.cpp:516-545 | No expansion can hold, at the place of the scan's n-th addition, a name met earlier in worklist order. The scan has already settled every such name. |
| Dependencies.PartialAgreesNext | pluginManager/src/PluginList.cpp:516-545 | An expansion that agrees with the scan's state before its n-th addition agrees on that addition too. |
| Dependencies.PartialIsPrefix | pluginManager/src/PluginList.cpp:516-545 | Every expansion of the selection extends the state the scan has reached. |
| Dependencies.UnknownMeansNoExpansion | pluginManager/src/PluginList.cpp:526-531 | When the scan meets an unselected name the catalogue lacks, the selection has no expansion at all. |
| Dependencies.UnknownBreaksClosure | pluginManager/src/PluginList.cpp:526-531 | A dependency the catalogue lacks shows the selection and catalogue are not dependency-closed. |
| Gpup.GpupNodes | pluginManager/src/PluginList.cpp:585-605 | getGpupDocument always yields a document with an install element. It reuses the loaded one, or else appends an empty one. |
| Gpup.GpupNodesKeepsLoaded | pluginManager/src/PluginList.cpp:590-602 | What was loaded is kept and at most one node is added. The install element holds its earlier entries, or none. |
| Gpup.DeleteNode | pluginManager/src/PluginList.cpp:709-711 | A deferred deletion is a childless `delete` element whose `file` attribute is the file. |
| Gpup.WithInstallEntries | pluginManager/src/PluginList.cpp:711 | LinkEndChild on the install element keeps an install element at the same position. |
| Gpup.WithInstallEntriesKeepsRest | pluginManager/src/PluginList.cpp:711 | Appending extends the install element's entries by exactly the new ones. Every other node, and the element's tag and attributes, are kept. |
| Gpup.WithInstallEntriesTwice | pluginManager/src/PluginList.cpp:711-714 | Appending in two steps appends the concatenation. |
| Gpup.GpupDocument.Load | pluginManager/src/PluginList.cpp:585-605 | The document object holds `GpupNodes(existing)`. |
| Gpup.GpupDocument.AppendToInstall | pluginManager/src/PluginList.cpp:711 | The document's nodes become `WithInstallEntries(old nodes, extra)`. |
| Runs.Decimal | pluginManager/src/PluginList.cpp:688 | The decimal text of a counter is never empty. |
| Runs.DecimalInjective | pluginManager/src/PluginList.cpp:688 | Different counters have different decimal texts. |
| Runs.TempPathInjective | pluginManager/src/PluginList.cpp:687-694 | Different counters give different temporary directories. |
| Runs.NextFree | pluginManager/src/PluginList.cpp:685-692 | The creation loop ends on a number at least the counter that can be created. |
| Runs.NextFreeIsLeast | pluginManager/src/PluginList.cpp:685-692 | No creatable number is passed over. |
| Runs.TempNumbers | pluginManager/src/PluginList.cpp:682-692 | There is one directory number per plugin. |
| Runs.TempNumbersAscendFree | pluginManager/src/PluginList.cpp:675-692 | The numbers start at 1 or above and strictly increase. None of them is taken, and every free number up to the last is used. |
| Runs.DeferredPrefix | pluginManager/src/PluginList.cpp:698-718 | The deferred entries of the first plugins come first, in order. |
| Runs.UpgradeDeletesOldFileFirst | pluginManager/src/PluginList.cpp:698-718 | On an upgrade, each plugin's entries begin with the deletion of its old file, right before what its installer appended. |
| Runs.InstallOnlyDefersInstallerEntries | pluginManager/src/PluginList.cpp:714-718 | Without an upgrade, each plugin's share is exactly what its installer appended. |
| Runs.RemovedExactly | pluginManager/src/PluginList.cpp:720-743 | A directory is removed exactly when some plugin that used it had status SUCCESS or FAIL. |
| Runs.RemovedDirOfPlugin | pluginManager/src/PluginList.cpp:720-743 | A plugin's temporary directory is removed exactly when its status is not NEEDRESTART. |
| Runs.InstallPrompt | pluginManager/src/PluginList.cpp:752-783 | The run closes with the "steps still need to be completed" prompt exactly when some plugin needs a restart. It closes silently exactly when every plugin failed. |
| Runs.Deletes | pluginManager/src/PluginList.cpp:813-821 | A removal defers one `delete` per plugin, in selection order, naming that plugin's file. |
| PluginLists.PluginList.CountInstallSteps | pluginManager/src/PluginList.cpp:661-667 | The progress bar's length is the sum of the plugins' install step counts. |
| PluginLists.PluginList.CreateTempDir | pluginManager/src/PluginList.cpp:684-692 | The do-while loop ends on `NextFree(taken, count)`, with the counter one past it. |
| PluginLists.PluginList.InstallOne | pluginManager/src/PluginList.cpp:684-718 | One plugin gets the next free directory, its upgrade deletion and its installer's entries, in that order. |
| PluginLists.PluginList.TallyStatus | pluginManager/src/PluginList.cpp:720-743 | The status switch removes the directory unless the status is NEEDRESTART. The flags say whether some plugin needs a restart and whether anything was installed. |
| PluginLists.PluginList.InstallNext | pluginManager/src/PluginList.cpp:682-746 | One turn of the install loop takes the run's state from plugin i to plugin i + 1. |
| PluginLists.PluginList.RunInstallers | pluginManager/src/PluginList.cpp:671-746 | The install loop hands every plugin its own directory `TempNumbers(taken, n, 1)`. It records every status, so a FAIL does not stop the loop. It removes the SUCCESS/FAIL directories and leaves the document as loaded plus `Deferred(...)`. |
| PluginLists.PluginList.InstallPlugins | pluginManager/src/PluginList.cpp:607-785 | See the note below the table. |
| PluginLists.PluginList.RemovePlugins | pluginManager/src/PluginList.cpp:787-845 | See the note below the table. |

Notes on three rows:

- **CalculateDependencies:** on success, the result `Expands` the selection:
  - the selection is kept and the catalogue records of the added names are appended, each new when appended and needing installation;
  - each added name is a dependency of an earlier record;
  - the names come in worklist order: records in order, and each record's dependencies in declaration order, each name where the scan first meets it;
  - every dependency of every record of the result, added ones included, is selected or already up to date.

  `ExpansionIsDetermined` shows these facts leave exactly one expansion, so the install order is the source's.

  `UnknownDependency` comes back exactly when no expansion exists. It names a dependency the catalogue lacks, and its ensures says no `sel` and `added` satisfy `Expands`. With the success clause, the outcome is decided by the selection and the catalogue alone. An expansion can exist even though some unreached catalogue record names an unknown dependency, and then the result is `Expanded`. The loop terminates on cyclic dependencies.
- **InstallPlugins:**
  - No selection means the run is cancelled and nothing is saved.
  - An unknown dependency aborts the run, and only when the selection has no expansion.
  - Otherwise the report holds the expanded selection and the step total. It also holds the directory numbers, every plugin's status and the removed directories.
  - The document is saved exactly when some plugin needs a restart, and it then holds the loaded entries followed by the deferred ones.
  - The report also holds the prompt and the updater's arguments (`-a "<gpup file>"` after a NEEDRESTART, empty after a plain install).
- **RemovePlugins:**
  - No selection means the run is cancelled and nothing is saved.
  - Otherwise the document is always saved, holding the loaded entries followed by one `delete` per plugin in order.
  - One progress step is completed per plugin.
  - The updater is started with `-a "<gpup file>"` exactly when the user agrees; otherwise the selection is dropped from the view.

## Left out

- **Win32 and other I/O.** Directory search, library loading, file version resources, MD5 hashing, `CreateDirectory`, message boxes and the progress dialog are left out. Their results are inputs. Message texts are not modelled, including the list of plugins added for dependencies.
- **Unmodelled code paths.** The readiness event, `downloadList` (HTTP and hash comparison), `init`, and the install/remove thread procedures are not modelled. Their point is I/O and concurrency.
- **Collaborators.** TinyXML parsing and saving, `PluginVersion`, `Plugin`, `InstallStepFactory`, `Utility::removeDirectory` and `Utility::startGpup` are not part of this model.
  - A version is its rank in the version order, and parsing it is the parameter `parse`.
  - The version the MD5 hash maps to is an input per DLL.
  - Removing a directory is recorded, not performed.
- **Records are values, not shared pointers.** A list holds the record as it was when pushed. When two DLLs report the same name, the source's lists share one object, and a later update shows through the earlier list entry; the model does not capture this.
- **Plugin::isInstalled.** `Plugin` is not part of this model. The flag is read as "a DLL with this plugin's name was matched to the record during reconciliation", and `Reconcile.Reconciled` sets it on every match.
- **hasDependencies.** `Plugin::hasDependencies` is read as "the dependency list is not empty".
- **The counter.** `pluginCount` is unbounded. The source's `int` and its 10-character buffer would overflow only after about 10^9 directories.
- **The base directory.** Creating the temporary base directory (`plugin_install_temp`) is not modelled. Neither is any failure of `CreateDirectory` other than a number being taken, which is modelled as the set `taken`.
- **Existing updater document.** An existing file is passed as the top-level nodes that loading it leaves behind, whether or not parsing failed. A missing file is `None`.
- Reconcile.Reconciled: sets `isInstalled` on every match. If `Plugin` sets the flag only when an installed version is set, this is not captured. The version is set from the DLL's version resource only when one can be read (line 435), and from the MD5 hash only when one is computed (line 298). A matched DLL with neither would then stay not installed, and the available loop would append its record.
- Reconcile.MatchedFileMarksInstalled: holds under the reading of `isInstalled` above, and would not hold for a matched DLL with neither a version resource nor a hash.
- Reconcile.AvailableAfterReconciliation: its last clause (no recognised plugin is available) rests on the same reading.
- OrderedMap.Below: map order, and so the order of the available list, is modelled as code-point order on names. `std::map<tstring>` compares UTF-16 code units in the wide build and bytes of the ANSI code page in the ANSI build. The orders differ for names with characters beyond the Basic Multilingual Plane and, in the ANSI build, for non-ASCII names.
- PluginLists.PluginList.GetPlugin: an unknown name answers None. The source's `operator[]` inserts a null entry into the map and returns null; the inserted null entry is not modelled.
- PluginLists.PluginList.InstallOrUpgrade: an unknown name answers None where the source dereferences a null record.
- PluginLists.PluginList.CalculateDependencies: when the scan reaches a dependency the catalogue does not know, the expansion ends with `UnknownDependency`, and `InstallPlugins` with `InstallAborted`. In the source `isInstallOrUpgrade` then dereferences a null record (line 529), so what the source does then is not modelled.
- PluginLists.PluginList.InstallPlugins: the progress callbacks the installer receives (status, step progress, step complete) are not modelled. The installer's outcome is the parameter `install`.
- Manifest.NameOf: an entry without a `name` attribute is read as the empty name. The source hands the null attribute to `Plugin::setName` (line 107), and what that does with it is not part of this model.
- Manifest.HashedVersionOf: an absent `md5` or `number` attribute is read as empty text, and the number as `parse("")`. The source hands the null attributes to `addVersion` and `PluginVersion` (line 146), whose handling is not part of this model.
- PluginLists.PluginList.CreateTempDir: the model always ends, because `taken` is a finite set. The source's do-while (lines 685-692) has no bound. It ignores the result of creating the base directory (line 618), so if that directory cannot be created, every `CreateDirectory` fails. The loop then runs until the counter outgrows its 10-character buffer at 10^9. The model does not capture this non-termination.
