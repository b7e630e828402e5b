/**
 * Reading a plugin's display name from its binary. The host menu uses `&` to
 * mark a keyboard mnemonic, so the name is cleaned of every `&` before it is
 * used as a catalogue key.
 */
module PluginName {
  import opened Wrappers

  /** The reference meaning of the cleaning: `s` with every `&` left out. */
  function WithoutAmpersands(s: string): string
  {
    if s == [] then []
    else (if s[0] == '&' then [] else [s[0]]) + WithoutAmpersands(s[1..])
  }

  /** The string class's find(c): the first position holding `c`. */
  function IndexOf(s: string, c: char): (r: Wrappers.Option<nat>)
    ensures r.Some? ==> r.value < |s| && s[r.value] == c && c !in s[..r.value]
    ensures r.None? <==> c !in s
  {
    if s == [] then None
    else if s[0] == c then Some(0)
    else match IndexOf(s[1..], c)
      case None => None
      case Some(k) => assert s[..k + 1] == [s[0]] + s[1..][..k]; Some(k + 1)
  }

  lemma {:induction false} WithoutAmpersandsConcat(a: string, b: string)
    ensures WithoutAmpersands(a + b) == WithoutAmpersands(a) + WithoutAmpersands(b)
  {
    if a == [] {
      assert a + b == b;
    } else {
      assert (a + b)[1..] == a[1..] + b;
      WithoutAmpersandsConcat(a[1..], b);
    }
  }

  /** Dropping one `&` does not change what the cleaning yields. */
  lemma RemoveOneAmpersand(s: string, p: nat)
    requires p < |s| && s[p] == '&'
    ensures WithoutAmpersands(s[..p] + s[p + 1..]) == WithoutAmpersands(s)
  {
    assert s == s[..p] + ([s[p]] + s[p + 1..]);
    WithoutAmpersandsConcat(s[..p], [s[p]] + s[p + 1..]);
    WithoutAmpersandsConcat(s[..p], s[p + 1..]);
    assert ([s[p]] + s[p + 1..])[1..] == s[p + 1..];
  }

  /** A string without `&` is left as it is. */
  lemma {:induction false} WithoutAmpersandsIdentity(s: string)
    requires '&' !in s
    ensures WithoutAmpersands(s) == s
  {
    if s != [] {
      assert s[0] in s;
      assert forall c :: c in s[1..] ==> c in s;
      WithoutAmpersandsIdentity(s[1..]);
    }
  }

  /** No `&` survives the cleaning. */
  lemma {:induction false} NoAmpersandLeft(s: string)
    ensures '&' !in WithoutAmpersands(s)
  {
    if s != [] {
      NoAmpersandLeft(s[1..]);
    }
  }

  /** Cleaning a cleaned name changes nothing. */
  lemma CleaningIsIdempotent(s: string)
    ensures WithoutAmpersands(WithoutAmpersands(s)) == WithoutAmpersands(s)
  {
    NoAmpersandLeft(s);
    WithoutAmpersandsIdentity(WithoutAmpersands(s));
  }

  /**
   * Exactly the `&` characters are removed: every other character keeps its
   * number of occurrences, and the length drops by the number of `&`.
   */
  lemma {:induction false} CleaningRemovesOnlyAmpersands(s: string)
    ensures multiset(WithoutAmpersands(s)) == multiset(s)['&' := 0]
    ensures |WithoutAmpersands(s)| == |s| - multiset(s)['&']
  {
    if s != [] {
      CleaningRemovesOnlyAmpersands(s[1..]);
      var head := if s[0] == '&' then [] else [s[0]];
      assert WithoutAmpersands(s) == head + WithoutAmpersands(s[1..]);
      assert s == [s[0]] + s[1..];
      assert multiset(s) == multiset{s[0]} + multiset(s[1..]);
      DropAmpersandsAdd(s[0], multiset(s[1..]));
    }
  }

  lemma DropAmpersandsAdd(x: char, m: multiset<char>)
    ensures (multiset{x} + m)['&' := 0] == multiset(if x == '&' then [] else [x]) + m['&' := 0]
  {
  }

  /**
   * The loop of the name accessor: while the name holds an `&`, replace the
   * first one with nothing.
   */
  method StripAmpersands(name: string) returns (r: string)
    ensures r == WithoutAmpersands(name)
    ensures '&' !in r
  {
    r := name;
    var position := IndexOf(r, '&');
    while position.Some?
      invariant WithoutAmpersands(r) == WithoutAmpersands(name)
      invariant position == IndexOf(r, '&')
      decreases |r|
    {
      RemoveOneAmpersand(r, position.value);
      r := r[..position.value] + r[position.value + 1..];
      position := IndexOf(r, '&');
    }
    WithoutAmpersandsIdentity(r);
  }

  /**
   * What probing a plugin binary yields: the library does not load, it
   * exports no name accessor, the accessor returns a null name, or it
   * returns a name.
   */
  datatype Probe = LoadFailed | NoNameAccessor | NullName | Named(raw: string)

  /**
   * The plugin name of a binary, or None where the source throws (the file
   * is then no plugin to reconcile). A null name reads as the empty name.
   */
  method GetPluginName(probe: Probe) returns (name: Option<string>)
    ensures name == ProbedName(probe)
  {
    match probe
    case LoadFailed => name := None;
    case NoNameAccessor => name := None;
    case NullName => name := Some("");
    case Named(raw) =>
      var cleaned := StripAmpersands(raw);
      name := Some(cleaned);
  }

  /**
   * The plugin name a probe yields: none exactly where the source throws,
   * the empty name for a null name, and otherwise the name cleaned of `&`.
   */
  function ProbedName(probe: Probe): (r: Option<string>)
    ensures r.None? <==> probe.LoadFailed? || probe.NoNameAccessor?
    ensures r.Some? ==> '&' !in r.value
    ensures probe.NullName? ==> r == Some("")
    ensures probe.Named? ==> r == Some(WithoutAmpersands(probe.raw))
  {
    match probe
    case LoadFailed => None
    case NoNameAccessor => None
    case NullName => Some("")
    case Named(raw) =>
      NoAmpersandLeft(raw);
      Some(WithoutAmpersands(raw))
  }
}
