/** What cleaning reads from a config file and what it leaves in it, entry by entry. */
module SkipTestMeaning {
  import opened Wrappers
  import opened Selections
  import opened SkipTestCleanup

  // ---------------------------------------------------------------------------
  // What a config skips
  // ---------------------------------------------------------------------------

  /** The config names the test under the paths of one of its groups. */
  predicate Lists(config: Config, t: Test) {
    config.skipTests.Some? && exists g <- config.skipTests.value :: g.paths.Some? && t in g.paths.value
  }

  lemma OwnMeaning(config: Config, t: Test)
    ensures t in Own(config) <==> Lists(config, t)
  {
    if Lists(config, t) {
      var g :| g in config.skipTests.value && g.paths.Some? && t in g.paths.value;
      assert t in GroupTests(g);
    }
  }

  /** Each config of the chain names the next one, and that file exists. */
  predicate Climbs(fs: Files, chain: seq<Path>) {
    forall i :: 0 <= i < |chain| - 1 ==> Names(fs, chain[i], chain[i + 1])
  }

  predicate Names(fs: Files, p: Path, q: Path) {
    p in fs && fs[p].inheritSkipTests == Some(q) && q in fs
  }

  lemma {:induction false} ChainOfAncestor(fs: Files, p: Path, n: nat) returns (chain: seq<Path>)
    requires p in fs && Ancestor(fs, p, n).Some?
    ensures |chain| == n + 1 && chain[0] == p && Climbs(fs, chain) && chain[n] == Ancestor(fs, p, n).value
    decreases n
  {
    if n == 0 {
      return [p];
    }
    var rest := ChainOfAncestor(fs, Parent(fs, p).value, n - 1);
    chain := [p] + rest;
    forall i | 0 <= i < |chain| - 1 ensures Names(fs, chain[i], chain[i + 1]) {
      if i > 0 {
        assert Names(fs, rest[i - 1], rest[i]);
      }
    }
  }

  lemma {:induction false} AncestorOfChain(fs: Files, chain: seq<Path>)
    requires |chain| > 0 && chain[0] in fs && Climbs(fs, chain)
    ensures Ancestor(fs, chain[0], |chain| - 1) == Some(chain[|chain| - 1])
    decreases |chain|
  {
    if |chain| > 1 {
      assert Names(fs, chain[0], chain[1]);
      forall i | 0 <= i < |chain| - 2 ensures Names(fs, chain[1..][i], chain[1..][i + 1]) {
        assert Names(fs, chain[i + 1], chain[i + 2]);
      }
      AncestorOfChain(fs, chain[1..]);
    }
  }

  /** The chain leads from p over at least one step to a config that names the test. */
  predicate LeadsTo(fs: Files, p: Path, chain: seq<Path>, t: Test) {
    && |chain| > 1 && chain[0] == p && Climbs(fs, chain)
    && chain[|chain| - 1] in fs && Lists(fs[chain[|chain| - 1]], t)
  }

  /** A config inherits exactly the tests that some config names which its chain of inheritance reaches, on cycles too. */
  lemma InheritedMeaning(fs: Files, p: Path, t: Test)
    requires p in fs
    ensures t in Inherited(fs, p) <==> exists chain :: LeadsTo(fs, p, chain, t)
  {
    InheritedIsAbove(fs, p, t);
    hide Walk, Own, Climbs, Lists;
    if Above(fs, p, 1, t) {
      var n :| n >= 1 && OwnOf(fs, Ancestor(fs, p, n), t);
      var chain := ChainOfAncestor(fs, p, n);
      OwnMeaning(fs[chain[n]], t);
      assert LeadsTo(fs, p, chain, t);
    }
    if exists chain :: LeadsTo(fs, p, chain, t) {
      var chain :| LeadsTo(fs, p, chain, t);
      AncestorOfChain(fs, chain);
      OwnMeaning(fs[chain[|chain| - 1]], t);
      assert OwnOf(fs, Ancestor(fs, p, |chain| - 1), t);
    }
  }

  // ---------------------------------------------------------------------------
  // What cleaning leaves
  // ---------------------------------------------------------------------------

  /** The group has no paths to filter, or one that is not dropped. */
  predicate Stays(g: Group, drop: set<Test>) {
    g.paths.None? || exists t <- g.paths.value :: t !in drop
  }

  /** The paths that are not dropped, in order; the other keys of the group are kept. */
  ghost predicate Filtered(g: Group, h: Group, drop: set<Test>) {
    && h.rest == g.rest && h.paths.Some? == g.paths.Some?
    && (g.paths.Some? ==> Picks(g.paths.value, 0, (t: Test) => t !in drop, h.paths.value))
  }

  /** The groups that stay from position `low` on, filtered, in order, and where they stood. */
  ghost predicate FilteredAt(groups: seq<Group>, low: nat, drop: set<Test>, cleaned: seq<Group>, pos: seq<nat>) {
    && |pos| == |cleaned| && Rising(pos)
    && (forall c :: 0 <= c < |pos| ==>
          low <= pos[c] < |groups| && Stays(groups[pos[c]], drop) && Filtered(groups[pos[c]], cleaned[c], drop))
    && (forall i :: low <= i < |groups| && Stays(groups[i], drop) ==> i in pos)
  }

  lemma WithoutPicks(tests: seq<Test>, drop: set<Test>)
    ensures Picks(tests, 0, (t: Test) => t !in drop, Without(tests, drop))
  {
    WithoutFrom(tests, 0, drop, (t: Test) => t !in drop);
    assert tests[0..] == tests;
  }

  lemma {:induction false} WithoutFrom(tests: seq<Test>, low: nat, drop: set<Test>, keep: Test -> bool)
    requires low <= |tests| && forall t :: keep(t) <==> t !in drop
    ensures Picks(tests, low, keep, Without(tests[low..], drop))
    decreases |tests| - low
  {
    hide Picks;
    if low == |tests| {
      PicksNone(tests, keep);
    } else {
      assert tests[low..][1..] == tests[low + 1..];
      WithoutFrom(tests, low + 1, drop, keep);
      PicksMore(tests, low, keep, Without(tests[low + 1..], drop));
      assert [] + Without(tests[low + 1..], drop) == Without(tests[low + 1..], drop);
    }
  }

  lemma CleanGroupMeaning(g: Group, drop: set<Test>)
    ensures if Stays(g, drop) then |CleanGroup(g, drop)| == 1 && Filtered(g, CleanGroup(g, drop)[0], drop)
            else CleanGroup(g, drop) == []
  {
    if g.paths.Some? {
      WithoutPicks(g.paths.value, drop);
      var kept := Without(g.paths.value, drop);
      assert (set t <- kept) == (set t <- g.paths.value) - drop;
      if kept == [] {
        assert forall t <- g.paths.value :: t !in drop ==> t in (set t <- kept);
      } else {
        assert kept[0] in (set t <- kept);
      }
    }
  }

  lemma {:induction false} CleanGroupsMeaning(groups: seq<Group>, low: nat, drop: set<Test>) returns (pos: seq<nat>)
    requires low <= |groups|
    ensures FilteredAt(groups, low, drop, CleanGroups(groups[low..], drop), pos)
    decreases |groups| - low
  {
    hide CleanGroup, Stays, Filtered;
    if low == |groups| {
      return [];
    }
    assert groups[low..][1..] == groups[low + 1..] && groups[low..][0] == groups[low];
    var rest := CleanGroupsMeaning(groups, low + 1, drop);
    CleanGroupMeaning(groups[low], drop);
    CleanGroupsFirst(groups[low..], drop);
    pos := (if Stays(groups[low], drop) then [low] else []) + rest;
    var cleaned := CleanGroups(groups[low + 1..], drop);
    hide CleanGroups;
    FilteredMore(groups, low, drop, cleaned, rest, CleanGroup(groups[low], drop));
  }

  lemma FilteredMore(groups: seq<Group>, low: nat, drop: set<Test>, cleaned: seq<Group>, pos: seq<nat>, first: seq<Group>)
    requires low < |groups| && FilteredAt(groups, low + 1, drop, cleaned, pos)
    requires if Stays(groups[low], drop) then |first| == 1 && Filtered(groups[low], first[0], drop) else first == []
    ensures FilteredAt(groups, low, drop, first + cleaned, (if Stays(groups[low], drop) then [low] else []) + pos)
  {
    hide Stays, Filtered;
    if Stays(groups[low], drop) {
      RisingFirst(low, pos);
      hide Rising;
      var all := [low] + pos;
      forall i | low <= i < |groups| && Stays(groups[i], drop) ensures i in all {
        if i == low {
          assert all[0] == i;
        } else {
          assert i in pos;
        }
      }
    } else {
      assert first + cleaned == cleaned && [] + pos == pos;
    }
  }

  ghost predicate AllFiltered(groups: seq<Group>, drop: set<Test>, cleaned: seq<Group>) {
    exists pos :: FilteredAt(groups, 0, drop, cleaned, pos)
  }

  /** The file of a config after cleaning, given what it inherits. */
  ghost predicate CleanedFile(config: Config, result: Config, drop: set<Test>) {
    && result.inheritSkipTests == config.inheritSkipTests && result.rest == config.rest
    && config.skipTests.Some?
    && AllFiltered(config.skipTests.value, drop, if result.skipTests.Some? then result.skipTests.value else [])
    && (result.skipTests.Some? ==> result.skipTests.value != [])
  }

  /**
   Cleaning a config filters the inherited tests out of its groups, keeps the order and all other keys, and drops a
   group or the whole list when nothing is left; without an inherited test it does not touch the file.
   */
  lemma CleanMeaning(fs: Files, p: Path)
    requires p in fs
    ensures Clean(fs, p).Keys == fs.Keys && forall q <- fs :: q != p ==> Clean(fs, p)[q] == fs[q]
    ensures if exists t :: Lists(fs[p], t) && t in Inherited(fs, p) then CleanedFile(fs[p], Clean(fs, p)[p], Inherited(fs, p))
            else Clean(fs, p) == fs
  {
    hide Walk, CleanGroups;
    var drop := Inherited(fs, p);
    if exists t :: Lists(fs[p], t) && t in drop {
      var t :| Lists(fs[p], t) && t in drop;
      OwnMeaning(fs[p], t);
      assert t in Own(fs[p]) * drop;
      var groups := fs[p].skipTests.value;
      var pos := CleanGroupsMeaning(groups, 0, drop);
      assert groups[0..] == groups;
      hide Own, FilteredAt, Inherited;
    } else {
      forall t ensures t !in Own(fs[p]) * drop {
        OwnMeaning(fs[p], t);
      }
      CleanedStays(fs, p);
    }
  }

  // ---------------------------------------------------------------------------
  // How many files change
  // ---------------------------------------------------------------------------

  lemma RedundantMeaning(fs: Files, p: Path)
    ensures Redundant(fs, p) <==> Clean(fs, p) != fs
    ensures Redundant(fs, p) <==> p in fs && exists t :: Lists(fs[p], t) && t in Inherited(fs, p)
  {
    hide Walk, CleanGroups, GroupsTests;
    if p in fs {
      CleanOwn(fs, p);
      if Redundant(fs, p) {
        var t :| t in Own(fs[p]) * Inherited(fs, p);
        OwnMeaning(fs[p], t);
        assert t !in Own(Clean(fs, p)[p]);
      } else {
        CleanedStays(fs, p);
        forall t | Lists(fs[p], t) ensures t !in Inherited(fs, p) {
          OwnMeaning(fs[p], t);
          NotInBoth(Own(fs[p]), Inherited(fs, p), t);
        }
      }
    }
  }

  lemma NotInBoth<T>(a: set<T>, b: set<T>, x: T)
    requires a * b == {}
    ensures !(x in a && x in b)
  {
    assert x in a && x in b ==> x in a * b;
  }

  /** Processing the i-th config changes its file. */
  predicate Changes(fs: Files, ps: seq<Path>, i: nat)
    requires i < |ps|
  {
    CleanAll(fs, ps[..i + 1]) != CleanAll(fs, ps[..i])
  }

  lemma {:induction false} CleanAllLast(fs: Files, ps: seq<Path>, p: Path)
    ensures CleanAll(fs, ps + [p]) == Clean(CleanAll(fs, ps), p)
    ensures Cleaned(fs, ps + [p]) == Cleaned(fs, ps) + if Redundant(CleanAll(fs, ps), p) then 1 else 0
    decreases |ps|
  {
    hide Clean, Redundant;
    if ps == [] {
      assert [p][1..] == [];
    } else {
      assert (ps + [p])[1..] == ps[1..] + [p];
      CleanAllLast(Clean(fs, ps[0]), ps[1..], p);
    }
  }

  /** The configs whose files change. */
  function Changed(fs: Files, ps: seq<Path>): (r: set<nat>) {
    set i: nat | i < |ps| && Changes(fs, ps, i)
  }

  lemma NoneChange(fs: Files, ps: seq<Path>)
    requires ps == []
    ensures |Changed(fs, ps)| == 0
  {
    hide CleanAll;
    assert Changed(fs, ps) == {};
  }

  /** The count of a real run is the number of configs whose file it changes. */
  lemma {:induction false} CleanedCounts(fs: Files, ps: seq<Path>)
    ensures Cleaned(fs, ps) == |Changed(fs, ps)|
    decreases |ps|
  {
    hide Clean, CleanAll, Redundant;
    if ps == [] {
      NoneChange(fs, ps);
    } else {
      var n := |ps| - 1;
      var before := ps[..n];
      CleanedCounts(fs, before);
      assert ps == before + [ps[n]];
      CleanAllLast(fs, before, ps[n]);
      RedundantMeaning(CleanAll(fs, before), ps[n]);
      assert ps[..n + 1] == ps;
      ChangedMore(fs, ps);
    }
  }

  lemma ChangedMore(fs: Files, ps: seq<Path>)
    requires ps != []
    ensures var n := |ps| - 1; Changed(fs, ps) == Changed(fs, ps[..n]) + if Changes(fs, ps, n) then {n} else {}
  {
    hide CleanAll;
    var n := |ps| - 1;
    forall i: nat | i < n ensures Changes(fs, ps, i) <==> Changes(fs, ps[..n], i) {
      assert ps[..i] == ps[..n][..i] && ps[..i + 1] == ps[..n][..i + 1];
    }
    hide Changes;
  }
}
