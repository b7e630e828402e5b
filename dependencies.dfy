/**
 * What expanding a selection by its dependencies must produce. The
 * expansion keeps the selection as it was and appends, one by one, the
 * catalogue records of dependencies that are neither selected nor already
 * satisfied by the installed version; each appended name is new at the
 * time it is appended and is a dependency of something before it; and in
 * the end every dependency of every record of the expanded selection is
 * either selected or satisfied.
 */
module Dependencies {
  import opened Plugins

  /** The names of the records of a selection: the set the expansion keeps. */
  function Names(s: seq<PluginRecord>): set<string>
  {
    set j | 0 <= j < |s| :: s[j].name
  }

  lemma NamesAppend(s: seq<PluginRecord>, p: PluginRecord)
    ensures Names(s + [p]) == Names(s) + {p.name}
  {
    var t := s + [p];
    assert t[|s|].name == p.name;
    forall n | n in Names(s) ensures n in Names(t) {
      var j :| 0 <= j < |s| && s[j].name == n;
      assert t[j] == s[j];
    }
  }

  /** A dependency that needs nothing more: it is selected, or its installed version will do. */
  predicate Settled(d: string, selected: set<string>, catalogue: map<string, PluginRecord>)
  {
    d in selected || (d in catalogue && !IsInstallOrUpgrade(catalogue[d]))
  }

  /** Every record of the catalogue is stored under its own name. */
  predicate Keyed(catalogue: map<string, PluginRecord>)
  {
    forall n :: n in catalogue ==> catalogue[n].name == n
  }

  /**
   * Every dependency named by the selection or by a catalogue record is a
   * name the catalogue knows.
   */
  predicate DependencyClosed(selection: seq<PluginRecord>, catalogue: map<string, PluginRecord>)
  {
    (forall k, d :: 0 <= k < |selection| && d in selection[k].dependencies ==> d in catalogue)
    && (forall n, d :: n in catalogue && d in catalogue[n].dependencies ==> d in catalogue)
  }

  /**
   * The j-th appended name: a catalogue record that needs installing,
   * stored at the matching position, not among the names before it.
   */
  predicate Appended(selection: seq<PluginRecord>, catalogue: map<string, PluginRecord>,
                     sel: seq<PluginRecord>, added: seq<string>, j: nat)
    requires |sel| == |selection| + |added| && j < |added|
  {
    && added[j] in catalogue
    && sel[|selection| + j] == catalogue[added[j]]
    && IsInstallOrUpgrade(catalogue[added[j]])
    && added[j] !in Names(sel[..|selection| + j])
  }

  /** `sel` is `selection` with the records of `added` appended, each one new when it came. */
  predicate Grows(selection: seq<PluginRecord>, catalogue: map<string, PluginRecord>,
                  sel: seq<PluginRecord>, added: seq<string>)
  {
    && |sel| == |selection| + |added|
    && sel[..|selection|] == selection
    && forall j :: 0 <= j < |added| ==> Appended(selection, catalogue, sel, added, j)
  }

  /** Each appended name is a dependency of a record before it. */
  predicate DependedOn(selection: seq<PluginRecord>, sel: seq<PluginRecord>, added: seq<string>)
  {
    forall j :: 0 <= j < |added| ==> DependedOnBefore(selection, sel, added[j], j)
  }

  /** `d`, appended j-th, is a dependency of a record before it. */
  predicate DependedOnBefore(selection: seq<PluginRecord>, sel: seq<PluginRecord>, d: string, j: nat)
  {
    exists k :: 0 <= k < |selection| + j && k < |sel| && d in sel[k].dependencies
  }

  /** Every dependency of the first n records is settled. */
  predicate SettledUpTo(sel: seq<PluginRecord>, n: nat, selected: set<string>, catalogue: map<string, PluginRecord>)
    requires n <= |sel|
  {
    forall k, d :: 0 <= k < n && d in sel[k].dependencies ==> Settled(d, selected, catalogue)
  }

  /**
   * The expansion of `selection`: `sel`, with the names `added`, appended
   * in worklist order.
   */
  ghost predicate Expands(selection: seq<PluginRecord>, catalogue: map<string, PluginRecord>,
                    sel: seq<PluginRecord>, added: seq<string>)
  {
    && Grows(selection, catalogue, sel, added)
    && DependedOn(selection, sel, added)
    && InWorklistOrder(selection, sel, added)
    && SettledUpTo(sel, |sel|, Names(sel), catalogue)
  }

  /** Worklist order on (record, dependency position) pairs: records in order, then declaration order. */
  predicate Before(c: nat, p: nat, c': nat, p': nat)
  {
    c < c' || (c == c' && p < p')
  }

  /**
   * `d` is the dependency at position p of record c, mentioned there for
   * the first time, and no record before c mentions it.
   */
  predicate FirstMention(sel: seq<PluginRecord>, d: string, c: nat, p: nat)
  {
    && c < |sel| && p < |sel[c].dependencies|
    && sel[c].dependencies[p] == d
    && d !in sel[c].dependencies[..p]
    && forall k :: 0 <= k < c ==> d !in sel[k].dependencies
  }

  /** The appended names come in the order the worklist meets them first. */
  ghost predicate InWorklistOrder(selection: seq<PluginRecord>, sel: seq<PluginRecord>, added: seq<string>)
  {
    exists cause: seq<nat>, pos: seq<nat> :: Caused(selection, sel, added, cause, pos)
  }

  /** The outcome of the expansion: the expanded selection, or a dependency the catalogue lacks. */
  datatype Expansion =
    | Expanded(selection: seq<PluginRecord>, added: seq<string>)
    | UnknownDependency(name: string)

  /** Appending the record of an unsettled dependency keeps the selection growing as specified. */
  lemma GrowsAppend(selection: seq<PluginRecord>, catalogue: map<string, PluginRecord>,
                    sel: seq<PluginRecord>, added: seq<string>, d: string)
    requires Grows(selection, catalogue, sel, added)
    requires d in catalogue && IsInstallOrUpgrade(catalogue[d]) && d !in Names(sel)
    ensures Grows(selection, catalogue, sel + [catalogue[d]], added + [d])
  {
    var sel' := sel + [catalogue[d]];
    var added' := added + [d];
    assert sel'[..|selection|] == sel[..|selection|];
    forall j | 0 <= j < |added'| ensures Appended(selection, catalogue, sel', added', j) {
      if j < |added| {
        assert Appended(selection, catalogue, sel, added, j);
        assert sel'[..|selection| + j] == sel[..|selection| + j];
      } else {
        assert sel'[..|selection| + j] == sel;
      }
    }
  }

  /**
   * The names appended are pairwise distinct and none was selected: the
   * expansion records each dependency once.
   */
  lemma AdditionsDistinct(selection: seq<PluginRecord>, catalogue: map<string, PluginRecord>,
                          sel: seq<PluginRecord>, added: seq<string>)
    requires Keyed(catalogue) && Grows(selection, catalogue, sel, added)
    ensures forall i, j :: 0 <= i < j < |added| ==> added[i] != added[j]
    ensures forall j :: 0 <= j < |added| ==> added[j] !in Names(selection)
  {
    forall i, j | 0 <= i < j < |added| ensures added[i] != added[j] {
      assert Appended(selection, catalogue, sel, added, i);
      assert Appended(selection, catalogue, sel, added, j);
      var before := sel[..|selection| + j];
      assert before[|selection| + i] == catalogue[added[i]];
      assert added[i] in Names(before);
    }
    forall j | 0 <= j < |added| ensures added[j] !in Names(selection) {
      assert Appended(selection, catalogue, sel, added, j);
      var before := sel[..|selection| + j];
      forall k | 0 <= k < |selection| ensures selection[k].name != added[j] {
        assert before[k] == selection[k];
      }
    }
  }

  /** The names of the expanded selection: those selected and those appended. */
  lemma {:induction false} ExpansionNames(selection: seq<PluginRecord>, catalogue: map<string, PluginRecord>,
                                          sel: seq<PluginRecord>, added: seq<string>)
    requires Keyed(catalogue) && Grows(selection, catalogue, sel, added)
    ensures Names(sel) == Names(selection) + set x | x in added
  {
    if added == [] {
      assert sel == selection;
    } else {
      var n := |added| - 1;
      var init := sel[..|selection| + n];
      var initAdded := added[..n];
      assert Appended(selection, catalogue, sel, added, n);
      assert Grows(selection, catalogue, init, initAdded) by {
        assert init[..|selection|] == selection;
        forall j | 0 <= j < n ensures Appended(selection, catalogue, init, initAdded, j) {
          assert Appended(selection, catalogue, sel, added, j);
          assert init[..|selection| + j] == sel[..|selection| + j];
        }
      }
      ExpansionNames(selection, catalogue, init, initAdded);
      assert sel == init + [catalogue[added[n]]];
      NamesAppend(init, catalogue[added[n]]);
      assert (set x | x in added) == (set x | x in initAdded) + {added[n]} by {
        assert added == initAdded + [added[n]];
      }
    }
  }

  /**
   * The witnesses of the worklist order: the j-th appended name is first
   * mentioned at position pos[j] of record cause[j], a record before it;
   * and the pairs (cause, pos) strictly increase.
   */
  predicate Caused(selection: seq<PluginRecord>, sel: seq<PluginRecord>, added: seq<string>,
                   cause: seq<nat>, pos: seq<nat>)
  {
    && |cause| == |added| && |pos| == |added|
    && |sel| == |selection| + |added|
    && (forall j :: 0 <= j < |added| ==> cause[j] < |selection| + j && FirstMention(sel, added[j], cause[j], pos[j]))
    && (forall j, j' :: 0 <= j < j' < |added| ==> Before(cause[j], pos[j], cause[j'], pos[j']))
  }

  lemma CausedDependedOn(selection: seq<PluginRecord>, sel: seq<PluginRecord>, added: seq<string>,
                         cause: seq<nat>, pos: seq<nat>)
    requires Caused(selection, sel, added, cause, pos)
    ensures DependedOn(selection, sel, added)
  {
    forall j | 0 <= j < |added|
      ensures DependedOnBefore(selection, sel, added[j], j)
    {
      var k := cause[j];
      assert FirstMention(sel, added[j], k, pos[j]);
      assert sel[k].dependencies[pos[j]] == added[j];
    }
  }

  /**
   * A dependency the worklist finds unsettled at position q of record i is
   * first mentioned there: everything before it in the scan is settled.
   */
  lemma FirstMentionOfUnsettled(sel: seq<PluginRecord>, i: nat, q: nat, d: string, selected: set<string>,
                                catalogue: map<string, PluginRecord>)
    requires i < |sel| && q < |sel[i].dependencies| && sel[i].dependencies[q] == d
    requires SettledUpTo(sel, i, selected, catalogue)
    requires forall m :: 0 <= m < q ==> Settled(sel[i].dependencies[m], selected, catalogue)
    requires !Settled(d, selected, catalogue)
    ensures FirstMention(sel, d, i, q)
  {
    if d in sel[i].dependencies[..q] {
      assert false;
    }
  }

  /**
   * Appending a dependency first mentioned at (i, p), after every earlier
   * addition in worklist order, keeps the witnesses.
   */
  lemma CausedAppend(selection: seq<PluginRecord>, sel: seq<PluginRecord>, added: seq<string>,
                     cause: seq<nat>, pos: seq<nat>, p: PluginRecord, d: string, i: nat, q: nat)
    requires Caused(selection, sel, added, cause, pos)
    requires i < |sel| && FirstMention(sel, d, i, q)
    requires forall t :: 0 <= t < |added| ==> Before(cause[t], pos[t], i, q)
    ensures Caused(selection, sel + [p], added + [d], cause + [i], pos + [q])
  {
    var sel' := sel + [p];
    forall j | 0 <= j < |added| + 1
      ensures FirstMention(sel', (added + [d])[j], (cause + [i])[j], (pos + [q])[j])
    {
      var c := (cause + [i])[j];
      if j < |added| { assert FirstMention(sel, added[j], cause[j], pos[j]); }
      assert sel'[c] == sel[c];
      forall k | 0 <= k < c ensures sel'[k] == sel[k] { }
    }
  }

  /**
   * A dependency of a record of a growing selection that the catalogue does
   * not know shows that the selection was not dependency-closed.
   */
  lemma UnknownBreaksClosure(selection: seq<PluginRecord>, catalogue: map<string, PluginRecord>,
                             sel: seq<PluginRecord>, added: seq<string>, i: nat, d: string)
    requires Grows(selection, catalogue, sel, added) && i < |sel|
    requires d in sel[i].dependencies && d !in catalogue
    ensures !DependencyClosed(selection, catalogue)
  {
    if i < |selection| {
      assert sel[..|selection|][i] == selection[i];
    } else {
      assert Appended(selection, catalogue, sel, added, i - |selection|);
    }
  }

  /** Settled dependencies stay settled as the selection grows at its end. */
  lemma SettledUpToGrows(sel: seq<PluginRecord>, sel': seq<PluginRecord>, n: nat, selected: set<string>,
                         selected': set<string>, catalogue: map<string, PluginRecord>)
    requires n <= |sel| <= |sel'| && sel'[..|sel|] == sel && selected <= selected'
    requires SettledUpTo(sel, n, selected, catalogue)
    ensures SettledUpTo(sel', n, selected', catalogue)
  {
    forall k, d | 0 <= k < n && d in sel'[k].dependencies ensures Settled(d, selected', catalogue) {
      assert sel'[..|sel|][k] == sel[k];
      assert Settled(d, selected, catalogue);
    }
  }

  /** Once every dependency of the n-th record is settled, the first n + 1 are. */
  lemma SettledUpToNext(sel: seq<PluginRecord>, n: nat, selected: set<string>, catalogue: map<string, PluginRecord>)
    requires n < |sel| && SettledUpTo(sel, n, selected, catalogue)
    requires forall m :: 0 <= m < |sel[n].dependencies| ==> Settled(sel[n].dependencies[m], selected, catalogue)
    ensures SettledUpTo(sel, n + 1, selected, catalogue)
  {
  }

  /**
   * Where the other of two expansions puts the n-th name of one: both agree
   * on everything before it, so the other expansion appends that name too,
   * no earlier than n, with the same first mention.
   */
  lemma Locate(selection: seq<PluginRecord>, catalogue: map<string, PluginRecord>,
               sel: seq<PluginRecord>, added: seq<string>, cause: seq<nat>, pos: seq<nat>,
               sel': seq<PluginRecord>, added': seq<string>, cause': seq<nat>, pos': seq<nat>, n: nat)
      returns (j: nat)
    requires Keyed(catalogue)
    requires Grows(selection, catalogue, sel, added) && Caused(selection, sel, added, cause, pos)
    requires Grows(selection, catalogue, sel', added') && Caused(selection, sel', added', cause', pos')
    requires SettledUpTo(sel', |sel'|, Names(sel'), catalogue)
    requires n < |added| && n <= |added'| && sel[..|selection| + n] == sel'[..|selection| + n]
    ensures n <= j < |added'| && added'[j] == added[n] && cause'[j] == cause[n] && pos'[j] == pos[n]
  {
    var m := |selection| + n;
    var d, c, p := added[n], cause[n], pos[n];
    assert Appended(selection, catalogue, sel, added, n);
    assert FirstMention(sel, d, c, p);
    assert sel'[c] == sel[..m][c] == sel[c];
    assert d in sel'[c].dependencies;
    assert Settled(d, Names(sel'), catalogue);
    var k :| 0 <= k < |sel'| && sel'[k].name == d;
    if k < m {
      assert false;
    }
    j := k - |selection|;
    assert Appended(selection, catalogue, sel', added', j);
    assert added'[j] == d;
    var c', p' := cause'[j], pos'[j];
    assert FirstMention(sel', d, c', p');
    if c < c' {
      assert false;
    } else if c' < c {
      assert false;
    }
    if p < p' {
      assert false;
    } else if p' < p {
      assert false;
    }
  }

  /** Two expansions that agree before their n-th name agree on it too. */
  lemma AgreeNext(selection: seq<PluginRecord>, catalogue: map<string, PluginRecord>,
                  sel: seq<PluginRecord>, added: seq<string>, cause: seq<nat>, pos: seq<nat>,
                  sel': seq<PluginRecord>, added': seq<string>, cause': seq<nat>, pos': seq<nat>, n: nat)
    requires Keyed(catalogue)
    requires Grows(selection, catalogue, sel, added) && Caused(selection, sel, added, cause, pos)
    requires Grows(selection, catalogue, sel', added') && Caused(selection, sel', added', cause', pos')
    requires SettledUpTo(sel, |sel|, Names(sel), catalogue) && SettledUpTo(sel', |sel'|, Names(sel'), catalogue)
    requires n < |added| && n <= |added'| && added[..n] == added'[..n]
    requires sel[..|selection| + n] == sel'[..|selection| + n]
    ensures n < |added'| && added[..n + 1] == added'[..n + 1]
    ensures sel[..|selection| + n + 1] == sel'[..|selection| + n + 1]
  {
    var j := Locate(selection, catalogue, sel, added, cause, pos, sel', added', cause', pos', n);
    var k := Locate(selection, catalogue, sel', added', cause', pos', sel, added, cause, pos, n);
    if j != n && k != n {
      assert false;
    }
    assert Appended(selection, catalogue, sel, added, n);
    assert Appended(selection, catalogue, sel', added', n);
    assert added[..n + 1] == added[..n] + [added[n]];
    assert added'[..n + 1] == added'[..n] + [added'[n]];
    assert sel[..|selection| + n + 1] == sel[..|selection| + n] + [sel[|selection| + n]];
    assert sel'[..|selection| + n + 1] == sel'[..|selection| + n] + [sel'[|selection| + n]];
  }

  /**
   * The expansion is determined: two expansions of one selection over one
   * catalogue append the same names in the same order, so `Expands` fixes
   * the install order as well as the set of plugins.
   */
  lemma ExpansionIsDetermined(selection: seq<PluginRecord>, catalogue: map<string, PluginRecord>,
                              sel: seq<PluginRecord>, added: seq<string>,
                              sel': seq<PluginRecord>, added': seq<string>)
    requires Keyed(catalogue)
    requires Expands(selection, catalogue, sel, added) && Expands(selection, catalogue, sel', added')
    ensures added == added' && sel == sel'
  {
    var cause, pos :| Caused(selection, sel, added, cause, pos);
    var cause', pos' :| Caused(selection, sel', added', cause', pos');
    var n := 0;
    assert sel[..|selection|] == selection == sel'[..|selection|];
    while n < |added|
      invariant n <= |added| && n <= |added'| && added[..n] == added'[..n]
      invariant sel[..|selection| + n] == sel'[..|selection| + n]
    {
      AgreeNext(selection, catalogue, sel, added, cause, pos, sel', added', cause', pos', n);
      n := n + 1;
    }
    if n < |added'| {
      var k := Locate(selection, catalogue, sel', added', cause', pos', sel, added, cause, pos, n);
      assert false;
    }
    assert added == added[..n] && added' == added'[..n];
    assert sel == sel[..|selection| + n] && sel' == sel'[..|selection| + n];
  }

  /**
   * First mentions are unique: two sequences that agree on a prefix holding
   * one first mention of `d` put it at the same place.
   */
  lemma SameFirstMention(s1: seq<PluginRecord>, s2: seq<PluginRecord>, d: string,
                         c1: nat, p1: nat, c2: nat, p2: nat, len: nat)
    requires FirstMention(s1, d, c1, p1) && FirstMention(s2, d, c2, p2)
    requires c2 < len <= |s1| && len <= |s2| && s1[..len] == s2[..len]
    ensures c1 == c2 && p1 == p2
  {
    assert s1[c2] == s1[..len][c2] == s2[c2];
    if c1 < c2 {
      assert false;
    } else if c2 < c1 {
      assert false;
    }
    if p1 < p2 {
      assert false;
    } else if p2 < p1 {
      assert false;
    }
  }

  /**
   * The worklist state when the scan stands at position q of record i:
   * every dependency met so far is settled, and every addition was met
   * before that position.
   */
  predicate ScannedTo(selection: seq<PluginRecord>, catalogue: map<string, PluginRecord>,
                      sel: seq<PluginRecord>, added: seq<string>, cause: seq<nat>, pos: seq<nat>, i: nat, q: nat)
  {
    && Grows(selection, catalogue, sel, added) && Caused(selection, sel, added, cause, pos)
    && i < |sel| && q <= |sel[i].dependencies|
    && SettledUpTo(sel, i, Names(sel), catalogue)
    && (forall m :: 0 <= m < q ==> Settled(sel[i].dependencies[m], Names(sel), catalogue))
    && (forall t :: 0 <= t < |added| ==> Before(cause[t], pos[t], i, q))
  }

  /** The record at position k past the selection is the catalogue record of the matching addition. */
  lemma AddedAt(selection: seq<PluginRecord>, catalogue: map<string, PluginRecord>,
                sel: seq<PluginRecord>, added: seq<string>, k: nat) returns (m: nat)
    requires Keyed(catalogue) && Grows(selection, catalogue, sel, added)
    requires |selection| <= k < |sel|
    ensures m == k - |selection| && m < |added| && added[m] == sel[k].name
    ensures added[m] in catalogue && sel[k] == catalogue[added[m]]
  {
    m := k - |selection|;
    assert Appended(selection, catalogue, sel, added, m);
  }

  /**
   * The name a full expansion holds at the place of the scan's n-th
   * addition cannot have come earlier in worklist order: the scan would
   * have settled it, and only a later addition of the scan could hold it.
   */
  lemma NoOvertaking(selection: seq<PluginRecord>, catalogue: map<string, PluginRecord>,
                     sel: seq<PluginRecord>, added: seq<string>, cause: seq<nat>, pos: seq<nat>, i: nat, q: nat,
                     full: seq<PluginRecord>, fullAdded: seq<string>, fullCause: seq<nat>, fullPos: seq<nat>,
                     n: nat, j: nat)
    requires Keyed(catalogue) && ScannedTo(selection, catalogue, sel, added, cause, pos, i, q)
    requires Grows(selection, catalogue, full, fullAdded) && Caused(selection, full, fullAdded, fullCause, fullPos)
    requires n < |added| && n <= j < |fullAdded|
    requires fullAdded[j] == added[n] && fullCause[j] == cause[n] && fullPos[j] == pos[n]
    requires sel[..|selection| + n] == full[..|selection| + n]
    ensures j == n
  {
    var len: nat := |selection| + n;
    forall c | 0 <= c < len
      ensures sel[c] == full[c] && sel[c].name in Names(full[..len])
    {
      assert sel[..len][c] == full[..len][c];
    }
    AdditionsDistinct(selection, catalogue, full, fullAdded);
    if j != n {
      var e, x, y := fullAdded[n], fullCause[n], fullPos[n];
      assert Before(x, y, cause[n], pos[n]);
      assert Appended(selection, catalogue, full, fullAdded, n);
      assert FirstMention(full, e, x, y);
      assert e in sel[x].dependencies;
      if x == i {
        assert sel[i].dependencies[y] == e;
      }
      assert Settled(e, Names(sel), catalogue);
      var k: nat :| k < |sel| && sel[k].name == e;
      if k < len {
        assert false;
      }
      var m := AddedAt(selection, catalogue, sel, added, k);
      SameFirstMention(sel, full, e, cause[m], pos[m], x, y, len);
      assert false;
    }
  }

  /** A full expansion that agrees with a scan state before its n-th name agrees on it too. */
  lemma PartialAgreesNext(selection: seq<PluginRecord>, catalogue: map<string, PluginRecord>,
                          sel: seq<PluginRecord>, added: seq<string>, cause: seq<nat>, pos: seq<nat>, i: nat, q: nat,
                          full: seq<PluginRecord>, fullAdded: seq<string>, fullCause: seq<nat>, fullPos: seq<nat>, n: nat)
    requires Keyed(catalogue) && ScannedTo(selection, catalogue, sel, added, cause, pos, i, q)
    requires Grows(selection, catalogue, full, fullAdded) && Caused(selection, full, fullAdded, fullCause, fullPos)
    requires SettledUpTo(full, |full|, Names(full), catalogue)
    requires n < |added| && n <= |fullAdded| && added[..n] == fullAdded[..n]
    requires sel[..|selection| + n] == full[..|selection| + n]
    ensures n < |fullAdded| && added[..n + 1] == fullAdded[..n + 1]
    ensures sel[..|selection| + n + 1] == full[..|selection| + n + 1]
  {
    var len := |selection| + n;
    var j := Locate(selection, catalogue, sel, added, cause, pos, full, fullAdded, fullCause, fullPos, n);
    NoOvertaking(selection, catalogue, sel, added, cause, pos, i, q, full, fullAdded, fullCause, fullPos, n, j);
    assert Appended(selection, catalogue, sel, added, n);
    assert Appended(selection, catalogue, full, fullAdded, n);
    assert added[..n + 1] == added[..n] + [added[n]];
    assert fullAdded[..n + 1] == fullAdded[..n] + [fullAdded[n]];
    assert sel[..len + 1] == sel[..len] + [sel[len]];
    assert full[..len + 1] == full[..len] + [full[len]];
  }

  /** Every full expansion extends the state of the scan. */
  lemma PartialIsPrefix(selection: seq<PluginRecord>, catalogue: map<string, PluginRecord>,
                        sel: seq<PluginRecord>, added: seq<string>, cause: seq<nat>, pos: seq<nat>, i: nat, q: nat,
                        full: seq<PluginRecord>, fullAdded: seq<string>)
    requires Keyed(catalogue) && ScannedTo(selection, catalogue, sel, added, cause, pos, i, q)
    requires Expands(selection, catalogue, full, fullAdded)
    ensures |sel| <= |full| && full[..|sel|] == sel
  {
    var fullCause, fullPos :| Caused(selection, full, fullAdded, fullCause, fullPos);
    var n := 0;
    assert sel[..|selection|] == selection == full[..|selection|];
    while n < |added|
      invariant n <= |added| && n <= |fullAdded| && added[..n] == fullAdded[..n]
      invariant sel[..|selection| + n] == full[..|selection| + n]
    {
      PartialAgreesNext(selection, catalogue, sel, added, cause, pos, i, q, full, fullAdded, fullCause, fullPos, n);
      n := n + 1;
    }
    assert sel == sel[..|selection| + n];
  }

  /**
   * When the scan meets an unselected name the catalogue lacks, the
   * selection has no expansion at all: the abort is forced.
   */
  lemma UnknownMeansNoExpansion(selection: seq<PluginRecord>, catalogue: map<string, PluginRecord>,
                                sel: seq<PluginRecord>, added: seq<string>, cause: seq<nat>, pos: seq<nat>,
                                i: nat, q: nat)
    requires Keyed(catalogue) && ScannedTo(selection, catalogue, sel, added, cause, pos, i, q)
    requires q < |sel[i].dependencies|
    requires sel[i].dependencies[q] !in catalogue && sel[i].dependencies[q] !in Names(sel)
    ensures forall full: seq<PluginRecord>, fullAdded: seq<string> :: !Expands(selection, catalogue, full, fullAdded)
  {
    var d := sel[i].dependencies[q];
    forall full: seq<PluginRecord>, fullAdded: seq<string> | Expands(selection, catalogue, full, fullAdded)
      ensures false
    {
      PartialIsPrefix(selection, catalogue, sel, added, cause, pos, i, q, full, fullAdded);
      forall c | 0 <= c < |sel|
        ensures full[c] == sel[c] && sel[c].name in Names(sel)
      {
        assert full[..|sel|][c] == sel[c];
      }
      assert Settled(d, Names(full), catalogue);
      var k: nat :| k < |full| && full[k].name == d;
      if k < |sel| {
        assert false;
      }
      var m := AddedAt(selection, catalogue, full, fullAdded, k);
      assert false;
    }
  }
}
