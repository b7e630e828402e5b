/**
 * What an install run and a remove run produce, apart from the expansion
 * of the selection: the temporary directories the installer takes, the
 * entries it defers to the updater, the directories it removes, and the
 * prompt and updater start that close a run.
 */
module Runs {
  import opened Wrappers
  import opened Xml
  import opened Plugins
  import opened Gpup

  /** The decimal digit for d < 10, as the integer-to-text conversion writes it. */
  function Digit(d: nat): char
    requires d < 10
  {
    ('0' as int + d) as char
  }

  /** The decimal text of n, without sign or leading zeros. */
  function Decimal(n: nat): (s: string)
    ensures |s| > 0
  {
    if n < 10 then [Digit(n)] else Decimal(n / 10) + [Digit(n % 10)]
  }

  /** Different numbers have different decimal texts. */
  lemma {:induction false} DecimalInjective(a: nat, b: nat)
    requires Decimal(a) == Decimal(b)
    ensures a == b
  {
    if a >= 10 && b >= 10 {
      var da, db := Decimal(a / 10), Decimal(b / 10);
      assert Decimal(a)[|da|] == Digit(a % 10);
      assert Decimal(b)[|db|] == Digit(b % 10);
      assert da == Decimal(a)[..|da|];
      assert db == Decimal(b)[..|db|];
      DecimalInjective(a / 10, b / 10);
    }
  }

  /** The updater's document, in the configuration directory. */
  function GpupFile(configDir: string): string
  {
    configDir + "\\PluginManagerGpup.xml"
  }

  /** The arguments that make the updater run the steps of the updater's document. */
  function GpupArguments(configDir: string): string
  {
    "-a \"" + GpupFile(configDir) + "\""
  }

  /** The stem of the temporary directories, in the configuration directory. */
  function TempBase(configDir: string): string
  {
    configDir + "\\plugin_install_temp\\plugin"
  }

  /** The temporary directory with number n, as handed to the plugin's installer. */
  function TempPath(configDir: string, n: nat): string
  {
    TempBase(configDir) + Decimal(n) + "\\"
  }

  /** Different numbers give different temporary directories. */
  lemma TempPathInjective(configDir: string, a: nat, b: nat)
    requires TempPath(configDir, a) == TempPath(configDir, b)
    ensures a == b
  {
    var base := TempBase(configDir);
    var pa, pb := TempPath(configDir, a), TempPath(configDir, b);
    assert |Decimal(a)| == |Decimal(b)|;
    assert Decimal(a) == pa[|base|..|base| + |Decimal(a)|];
    assert Decimal(b) == pb[|base|..|base| + |Decimal(b)|];
    DecimalInjective(a, b);
  }

  /** The taken numbers from n on. */
  function TakenFrom(taken: set<nat>, n: nat): set<nat>
  {
    set x | x in taken && x >= n
  }

  lemma TakenFromShrinks(taken: set<nat>, n: nat)
    requires n in taken
    ensures TakenFrom(taken, n + 1) < TakenFrom(taken, n)
  {
    assert n in TakenFrom(taken, n);
  }

  /**
   * The number of the directory the creation loop ends on, starting from n:
   * the least number from n on that is not taken.
   */
  function NextFree(taken: set<nat>, n: nat): (r: nat)
    ensures n <= r && r !in taken
    decreases TakenFrom(taken, n)
  {
    if n in taken then
      TakenFromShrinks(taken, n);
      NextFree(taken, n + 1)
    else n
  }

  /** No free number is passed over. */
  lemma {:induction false} NextFreeIsLeast(taken: set<nat>, n: nat, x: nat)
    requires n <= x < NextFree(taken, n)
    ensures x in taken
    decreases TakenFrom(taken, n)
  {
    if n in taken && x > n {
      TakenFromShrinks(taken, n);
      NextFreeIsLeast(taken, n + 1, x);
    }
  }

  /** The numbers of the directories `count` plugins take, the counter starting at `start`. */
  function TempNumbers(taken: set<nat>, count: nat, start: nat): (r: seq<nat>)
    ensures |r| == count
  {
    if count == 0 then []
    else
      var t := NextFree(taken, start);
      [t] + TempNumbers(taken, count - 1, t + 1)
  }

  /**
   * The directories are numbered in strictly increasing order from `start`
   * on, none of them taken, and every free number up to the last one is
   * used.
   */
  lemma {:induction false} TempNumbersAscendFree(taken: set<nat>, count: nat, start: nat)
    ensures var r := TempNumbers(taken, count, start);
            && (forall k :: 0 <= k < |r| ==> start <= r[k] && r[k] !in taken)
            && (forall k, l :: 0 <= k < l < |r| ==> r[k] < r[l])
            && (forall x: nat :: |r| > 0 && start <= x <= r[|r| - 1] && x !in taken ==> x in r)
  {
    if count > 0 {
      var t := NextFree(taken, start);
      var rest := TempNumbers(taken, count - 1, t + 1);
      var r := TempNumbers(taken, count, start);
      TempNumbersAscendFree(taken, count - 1, t + 1);
      assert r == [t] + rest;
      forall x: nat | |r| > 0 && start <= x <= r[|r| - 1] && x !in taken
        ensures x in r
      {
        if x < t {
          NextFreeIsLeast(taken, start, x);
        } else if x == t {
          assert r[0] == x;
        } else {
          assert rest[|rest| - 1] == r[|r| - 1];
          assert x in rest;
        }
      }
    }
  }

  /** What Plugin::install reports. */
  datatype InstallStatus = Success | NeedRestart | Fail

  /** What a plugin's installer does: its status, and the entries it appends to the install element. */
  datatype InstallOutcome = InstallOutcome(status: InstallStatus, deferred: seq<Node>)

  /** The entries the run defers to the updater for the plugins, in order. */
  function Deferred(isUpgrade: bool, plugins: seq<PluginRecord>, outcomes: seq<InstallOutcome>): seq<Node>
    requires |outcomes| == |plugins|
  {
    if plugins == [] then []
    else
      var n := |plugins| - 1;
      Deferred(isUpgrade, plugins[..n], outcomes[..n])
        + (if isUpgrade then [DeleteNode(plugins[n].filename)] else [])
        + outcomes[n].deferred
  }

  /** The entries of the first plugins come first, in the same order. */
  lemma {:induction false} DeferredPrefix(isUpgrade: bool, plugins: seq<PluginRecord>, outcomes: seq<InstallOutcome>, m: nat)
    requires |outcomes| == |plugins| && m <= |plugins|
    ensures var before := Deferred(isUpgrade, plugins[..m], outcomes[..m]);
            var all := Deferred(isUpgrade, plugins, outcomes);
            |before| <= |all| && before == all[..|before|]
    decreases |plugins|
  {
    if m < |plugins| {
      var n := |plugins| - 1;
      assert plugins[..n][..m] == plugins[..m];
      assert outcomes[..n][..m] == outcomes[..m];
      DeferredPrefix(isUpgrade, plugins[..n], outcomes[..n], m);
      var mid := Deferred(isUpgrade, plugins[..n], outcomes[..n]);
      var all := Deferred(isUpgrade, plugins, outcomes);
      assert all[..|mid|] == mid;
    } else {
      assert plugins[..m] == plugins && outcomes[..m] == outcomes;
    }
  }

  /**
   * On an upgrade, each plugin's entries open with the deletion of its old
   * file, right after the entries of the plugins before it and right
   * before what its installer appended.
   */
  lemma UpgradeDeletesOldFileFirst(plugins: seq<PluginRecord>, outcomes: seq<InstallOutcome>, k: nat)
    requires |outcomes| == |plugins| && k < |plugins|
    ensures var before := Deferred(true, plugins[..k], outcomes[..k]);
            var all := Deferred(true, plugins, outcomes);
            && |before| + 1 + |outcomes[k].deferred| <= |all|
            && all[|before|] == DeleteNode(plugins[k].filename)
            && all[|before| + 1..|before| + 1 + |outcomes[k].deferred|] == outcomes[k].deferred
  {
    var upTo := Deferred(true, plugins[..k + 1], outcomes[..k + 1]);
    assert plugins[..k + 1][..k] == plugins[..k];
    assert outcomes[..k + 1][..k] == outcomes[..k];
    DeferredPrefix(true, plugins, outcomes, k + 1);
  }

  /** Without an upgrade, the entries are what the installers appended, one plugin after another. */
  lemma InstallOnlyDefersInstallerEntries(plugins: seq<PluginRecord>, outcomes: seq<InstallOutcome>, k: nat)
    requires |outcomes| == |plugins| && k < |plugins|
    ensures var before := Deferred(false, plugins[..k], outcomes[..k]);
            var all := Deferred(false, plugins, outcomes);
            && |before| + |outcomes[k].deferred| <= |all|
            && all[|before|..|before| + |outcomes[k].deferred|] == outcomes[k].deferred
  {
    assert plugins[..k + 1][..k] == plugins[..k];
    assert outcomes[..k + 1][..k] == outcomes[..k];
    DeferredPrefix(false, plugins, outcomes, k + 1);
  }

  /** The directories a run removes: those of the plugins whose status is not NeedRestart, in order. */
  function Removed(paths: seq<string>, statuses: seq<InstallStatus>): seq<string>
    requires |paths| == |statuses|
  {
    if paths == [] then []
    else
      var n := |paths| - 1;
      Removed(paths[..n], statuses[..n]) + (if statuses[n] != NeedRestart then [paths[n]] else [])
  }

  /** A directory is removed exactly when some plugin that used it did not need a restart. */
  lemma {:induction false} RemovedExactly(paths: seq<string>, statuses: seq<InstallStatus>, p: string)
    requires |paths| == |statuses|
    ensures p in Removed(paths, statuses) <==> exists k :: 0 <= k < |paths| && paths[k] == p && statuses[k] != NeedRestart
  {
    if paths != [] {
      var n := |paths| - 1;
      RemovedExactly(paths[..n], statuses[..n], p);
      if exists k :: 0 <= k < n && paths[..n][k] == p && statuses[..n][k] != NeedRestart {
        var k :| 0 <= k < n && paths[..n][k] == p && statuses[..n][k] != NeedRestart;
        assert paths[k] == p && statuses[k] != NeedRestart;
      }
      if exists k :: 0 <= k < n && paths[k] == p && statuses[k] != NeedRestart {
        var k :| 0 <= k < n && paths[k] == p && statuses[k] != NeedRestart;
        assert paths[..n][k] == p && statuses[..n][k] != NeedRestart;
      }
    }
  }

  /** How a run closes, when the user is asked about a restart. */
  datatype Prompt =
    | RestartToComplete   // steps were deferred; the document was saved
    | RestartForChanges   // something was installed, nothing deferred
    | NoPrompt

  /** The prompt an install run closes with, from the statuses of its plugins. */
  function InstallPrompt(statuses: seq<InstallStatus>): (p: Prompt)
    ensures p == RestartToComplete <==> NeedRestart in statuses
    ensures p == NoPrompt <==> forall k :: 0 <= k < |statuses| ==> statuses[k] == Fail
  {
    if NeedRestart in statuses then RestartToComplete
    else if Success in statuses then RestartForChanges
    else
      assert forall k :: 0 <= k < |statuses| ==> statuses[k] != NeedRestart && statuses[k] != Success;
      NoPrompt
  }

  /** The arguments the updater is started with, if the user agrees to restart now. */
  function Restart(prompt: Prompt, restartNow: bool, configDir: string): Option<string>
  {
    if !restartNow then None
    else match prompt
      case RestartToComplete => Some(GpupArguments(configDir))
      case RestartForChanges => Some("")
      case NoPrompt => None
  }

  /** The total of the plugins' install step counts: the length of the progress bar. */
  function StepTotal(plugins: seq<PluginRecord>): nat
  {
    if plugins == [] then 0 else StepTotal(plugins[..|plugins| - 1]) + InstallStepCount(plugins[|plugins| - 1])
  }

  /** The entries a remove run appends: one deletion of each plugin's file, in order. */
  function Deletes(plugins: seq<PluginRecord>): (r: seq<Node>)
    ensures |r| == |plugins|
    ensures forall k :: 0 <= k < |plugins| ==> IsElement(r[k], "delete") && Attribute(r[k], "file") == Some(plugins[k].filename)
  {
    seq(|plugins|, k requires 0 <= k < |plugins| => DeleteNode(plugins[k].filename))
  }

  /** What an install run reports. */
  datatype InstallReport =
    | InstallCancelled                     // no selection: nothing saved, progress closed
    | InstallAborted(unknown: string)      // a dependency the catalogue does not know
    | Installed(
        selection: seq<PluginRecord>,      // the selection with its dependencies
        added: seq<string>,                // the names added for dependencies
        stepCount: nat,                    // the length of the progress bar
        tempDirs: seq<nat>,                // the number of each plugin's temporary directory
        statuses: seq<InstallStatus>,      // each plugin's install status
        removedDirs: seq<string>,          // the temporary directories removed, in order
        saved: Option<seq<Node>>,          // the updater's document, if saved
        prompt: Prompt,
        gpup: Option<string>)              // the updater's arguments, if started

  /** What a remove run reports. */
  datatype RemoveReport =
    | RemoveCancelled                      // no selection: nothing saved, progress closed
    | Removal(
        stepCount: nat,                    // the length of the progress bar
        stepsCompleted: nat,               // the progress steps completed
        saved: seq<Node>,                  // the updater's document, always saved
        gpup: Option<string>,              // the updater's arguments, if started
        removeSelected: bool)              // the selection is dropped from the list view

  /** The temporary directories of the plugins, as handed to their installers. */
  function Paths(configDir: string, dirs: seq<nat>): (r: seq<string>)
    ensures |r| == |dirs| && forall k :: 0 <= k < |dirs| ==> r[k] == TempPath(configDir, dirs[k])
  {
    seq(|dirs|, k requires 0 <= k < |dirs| => TempPath(configDir, dirs[k]))
  }

  /** What each plugin's installer does, run in its own directory. */
  function Outcomes(install: (string, PluginRecord) -> InstallOutcome, configDir: string,
                    plugins: seq<PluginRecord>, dirs: seq<nat>): (r: seq<InstallOutcome>)
    requires |dirs| == |plugins|
    ensures |r| == |plugins| && forall k :: 0 <= k < |plugins| ==> r[k] == install(TempPath(configDir, dirs[k]), plugins[k])
  {
    seq(|plugins|, k requires 0 <= k < |plugins| => install(TempPath(configDir, dirs[k]), plugins[k]))
  }

  /** The statuses of the outcomes, in order. */
  function Statuses(outcomes: seq<InstallOutcome>): (r: seq<InstallStatus>)
    ensures |r| == |outcomes| && forall k :: 0 <= k < |outcomes| ==> r[k] == outcomes[k].status
  {
    seq(|outcomes|, k requires 0 <= k < |outcomes| => outcomes[k].status)
  }

  /** One more plugin's entries. */
  lemma DeferredStep(isUpgrade: bool, plugins: seq<PluginRecord>, outcomes: seq<InstallOutcome>, i: nat)
    requires |outcomes| == |plugins| && i < |plugins|
    ensures Deferred(isUpgrade, plugins[..i + 1], outcomes[..i + 1])
         == Deferred(isUpgrade, plugins[..i], outcomes[..i])
            + ((if isUpgrade then [DeleteNode(plugins[i].filename)] else []) + outcomes[i].deferred)
  {
    assert plugins[..i + 1][..i] == plugins[..i];
    assert outcomes[..i + 1][..i] == outcomes[..i];
  }

  /** One more plugin's directory, removed or kept. */
  lemma RemovedStep(paths: seq<string>, statuses: seq<InstallStatus>, p: string, s: InstallStatus)
    requires |paths| == |statuses|
    ensures Removed(paths + [p], statuses + [s]) == Removed(paths, statuses) + (if s != NeedRestart then [p] else [])
  {
    assert (paths + [p])[..|paths|] == paths;
    assert (statuses + [s])[..|statuses|] == statuses;
  }

  /** The directory of plugin k is removed exactly when its status is not NeedRestart. */
  lemma RemovedDirOfPlugin(configDir: string, taken: set<nat>, statuses: seq<InstallStatus>, k: nat)
    requires k < |statuses|
    ensures var dirs := TempNumbers(taken, |statuses|, 1);
            TempPath(configDir, dirs[k]) in Removed(Paths(configDir, dirs), statuses) <==> statuses[k] != NeedRestart
  {
    var dirs := TempNumbers(taken, |statuses|, 1);
    var paths := Paths(configDir, dirs);
    TempNumbersAscendFree(taken, |statuses|, 1);
    RemovedExactly(paths, statuses, paths[k]);
    if paths[k] in Removed(paths, statuses) {
      var j :| 0 <= j < |paths| && paths[j] == paths[k] && statuses[j] != NeedRestart;
      TempPathInjective(configDir, dirs[j], dirs[k]);
    }
  }

  /** The install run as its report should describe it, given the expanded selection. */
  ghost predicate InstallRunIs(r: InstallReport, existing: Option<seq<Node>>, taken: set<nat>, isUpgrade: bool,
                               install: (string, PluginRecord) -> InstallOutcome, restartNow: bool, configDir: string)
    requires r.Installed?
  {
    var sel := r.selection;
    var dirs := TempNumbers(taken, |sel|, 1);
    var outcomes := Outcomes(install, configDir, sel, dirs);
    var statuses := Statuses(outcomes);
    && r.stepCount == StepTotal(sel)
    && r.tempDirs == dirs
    && r.statuses == statuses
    && r.removedDirs == Removed(Paths(configDir, dirs), statuses)
    && (r.saved.Some? <==> NeedRestart in statuses)
    && (r.saved.Some? ==> r.saved.value == WithInstallEntries(GpupNodes(existing), Deferred(isUpgrade, sel, outcomes)))
    && r.prompt == InstallPrompt(statuses)
    && r.gpup == Restart(r.prompt, restartNow, configDir)
  }

  /** One more directory taken by the install loop. */
  lemma TempNumbersNext(dirs: seq<nat>, taken: set<nat>, remaining: nat, remaining': nat, count: nat,
                        dir: nat, count': nat, all: seq<nat>)
    requires remaining == remaining' + 1 && dirs + TempNumbers(taken, remaining, count) == all
    requires dir == NextFree(taken, count) && count' == dir + 1
    ensures (dirs + [dir]) + TempNumbers(taken, remaining', count') == all
  {
    assert TempNumbers(taken, remaining, count) == [dir] + TempNumbers(taken, remaining', count');
  }

  lemma PathsAppend(configDir: string, dirs: seq<nat>, d: nat)
    ensures Paths(configDir, dirs + [d]) == Paths(configDir, dirs) + [TempPath(configDir, d)]
  {
  }

  lemma StatusesStep(outcomes: seq<InstallOutcome>, i: nat)
    requires i < |outcomes|
    ensures Statuses(outcomes[..i + 1]) == Statuses(outcomes[..i]) + [outcomes[i].status]
  {
    assert outcomes[..i + 1][i] == outcomes[i];
  }

  /** The install loop's state once every plugin has been handled. */
  lemma InstallLoopDone(install: (string, PluginRecord) -> InstallOutcome, configDir: string, sel: seq<PluginRecord>,
                        taken: set<nat>, isUpgrade: bool, count: nat, all: seq<nat>, dirs: seq<nat>,
                        statuses: seq<InstallStatus>, deferred: seq<Node>)
    requires all == TempNumbers(taken, |sel|, 1)
    requires |dirs| == |sel| && dirs + TempNumbers(taken, 0, count) == all
    requires statuses == Statuses(Outcomes(install, configDir, sel, all)[..|sel|])
    requires deferred == Deferred(isUpgrade, sel[..|sel|], Outcomes(install, configDir, sel, all)[..|sel|])
    ensures dirs == all
    ensures statuses == Statuses(Outcomes(install, configDir, sel, dirs))
    ensures deferred == Deferred(isUpgrade, sel, Outcomes(install, configDir, sel, dirs))
  {
    var outcomes := Outcomes(install, configDir, sel, all);
    assert sel[..|sel|] == sel && outcomes[..|sel|] == outcomes;
    assert dirs + [] == dirs;
  }
}
