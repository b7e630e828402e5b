/**
 * Plugin versions. The version class compares versions in a total order
 * (numeric, component by component); the model keeps only that order: a
 * version is represented by its rank in it, so versions that compare equal
 * have the same rank. Turning text into a version is a parameter of the
 * operations that parse the manifest.
 */
module Versions {
  datatype Version = Version(rank: nat)

  /** The value of a version that was never set (a default-constructed version). */
  const Unset := Version(0)

  /** a > b */
  predicate Newer(a: Version, b: Version)
  {
    a.rank > b.rank
  }

  /** a <= b */
  predicate AtMost(a: Version, b: Version)
  {
    a.rank <= b.rank
  }
}
