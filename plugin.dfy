/**
 * One catalogue entry: what the manifest says about a plugin and what
 * reconciliation found on disk. The record class itself is not part of this
 * model beyond its fields; its accessors are read as field reads.
 */
module Plugins {
  import opened Xml
  import opened Versions

  /** An install step as the step factory built it from a manifest element. */
  datatype InstallStep = InstallStep(source: Node)

  /** One row of the manifest's hash-to-version table. */
  datatype HashedVersion = HashedVersion(md5: string, number: Version)

  datatype PluginRecord = PluginRecord(
    name: string,
    version: Version,           // the version available for the host flavour
    installedVersion: Version,
    isInstalled: bool,          // a plugin file on disk was matched to this record
    filename: string,
    description: string,
    author: string,
    sourceUrl: string,
    homepage: string,
    category: string,
    versions: seq<HashedVersion>,
    dependencies: seq<string>,
    installSteps: seq<InstallStep>)

  /** A freshly constructed record: every text empty, every version unset. */
  const Blank := PluginRecord("", Unset, Unset, false, "", "", "", "", "", "", [], [], [])

  const DefaultCategory := "Others"

  const UnknownDescription := "Unknown plugin - please let us know about this plugin on the forums"

  /**
   * Whether a dependency on this plugin calls for installing it: false exactly
   * when it is installed and the available version is not newer than the
   * installed one.
   */
  predicate IsInstallOrUpgrade(p: PluginRecord)
  {
    !(p.isInstalled && AtMost(p.version, p.installedVersion))
  }

  /** The number of install steps a plugin reports for the progress bar. */
  function InstallStepCount(p: PluginRecord): nat
  {
    |p.installSteps|
  }
}
