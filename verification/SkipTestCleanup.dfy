/**
 Removing from a config file the skipped tests that it already inherits, over files that inherit from
 one another.
 */
module SkipTestCleanup {
  import opened Wrappers

  type Path = string

  type Test = string

  /** An entry of `skip_tests`; `rest` stands for its other keys. */
  datatype Group = Group(paths: Option<seq<Test>>, rest: string)

  /** A config file; `rest` stands for its other keys. */
  datatype Config = Config(inheritSkipTests: Option<Path>, skipTests: Option<seq<Group>>, rest: string)

  type Files = map<Path, Config>

  function GroupTests(g: Group): set<Test> {
    if g.paths.Some? then set t <- g.paths.value else {}
  }

  function GroupsTests(groups: seq<Group>): set<Test> {
    set g <- groups, t <- GroupTests(g) :: t
  }

  /** The tests that a config skips by itself. */
  function Own(config: Config): set<Test> {
    if config.skipTests.Some? then GroupsTests(config.skipTests.value) else {}
  }

  // ---------------------------------------------------------------------------
  // Inheritance
  // ---------------------------------------------------------------------------

  function Parent(fs: Files, p: Path): (q: Option<Path>)
    ensures q.Some? ==> q.value in fs
  {
    if p in fs && fs[p].inheritSkipTests.Some? && fs[p].inheritSkipTests.value in fs then fs[p].inheritSkipTests
    else None
  }

  /** The inheritance walk with its set of visited files. */
  function Walk(fs: Files, p: Path, visited: set<Path>): set<Test>
    requires p in fs
    decreases fs.Keys - visited
  {
    if p in visited then {}
    else
      match Parent(fs, p)
      case None => {}
      case Some(q) => Walk(fs, q, visited + {p}) + Own(fs[q])
  }

  /** The n-th config up the inheritance chain. */
  function Ancestor(fs: Files, p: Path, n: nat): (q: Option<Path>)
    requires p in fs
    ensures q.Some? ==> q.value in fs
    decreases n
  {
    if n == 0 then Some(p)
    else
      match Parent(fs, p)
      case None => None
      case Some(q) => Ancestor(fs, q, n - 1)
  }

  /** The test is an own test of an ancestor of p, at least `from` steps up. */
  ghost predicate Above(fs: Files, p: Path, from: nat, t: Test)
    requires p in fs
  {
    exists n :: n >= from && OwnOf(fs, Ancestor(fs, p, n), t)
  }

  predicate OwnOf(fs: Files, q: Option<Path>, t: Test) {
    q.Some? && q.value in fs && t in Own(fs[q.value])
  }

  /** What p inherits: the own tests of every config above it. */
  function Inherited(fs: Files, p: Path): set<Test>
    requires p in fs
  {
    Walk(fs, p, {})
  }

  /** The meaning of a config: everything that it skips. */
  function Effective(fs: Files, p: Path): set<Test>
    requires p in fs
  {
    Own(fs[p]) + Inherited(fs, p)
  }

  ghost predicate OnCycle(fs: Files, p: Path)
    requires p in fs
  {
    exists n :: n >= 1 && Ancestor(fs, p, n) == Some(p)
  }

  lemma {:induction false} AncestorOfAncestor(fs: Files, p: Path, n: nat, m: nat)
    requires p in fs
    ensures Ancestor(fs, p, n).None? ==> Ancestor(fs, p, n + m).None?
    ensures Ancestor(fs, p, n).Some? ==> Ancestor(fs, p, n + m) == Ancestor(fs, Ancestor(fs, p, n).value, m)
    decreases n
  {
    if n > 0 && Parent(fs, p).Some? {
      AncestorOfAncestor(fs, Parent(fs, p).value, n - 1, m);
    }
  }

  // ---------------------------------------------------------------------------
  // The walk collects exactly the own tests of all ancestors, on cycles too
  // ---------------------------------------------------------------------------

  lemma {:induction false} WalkSound(fs: Files, p: Path, visited: set<Path>, t: Test)
    requires p in fs && t in Walk(fs, p, visited)
    ensures Above(fs, p, 1, t)
    decreases fs.Keys - visited
  {
    hide Own;
    var q := Parent(fs, p).value;
    if t in Own(fs[q]) {
      assert Ancestor(fs, p, 1) == Some(q) by { assert Ancestor(fs, q, 0) == Some(q); }
      assert OwnOf(fs, Ancestor(fs, p, 1), t);
    } else {
      WalkSound(fs, q, visited + {p}, t);
      var n :| n >= 1 && OwnOf(fs, Ancestor(fs, q, n), t);
      assert Ancestor(fs, p, n + 1) == Ancestor(fs, q, n);
    }
  }

  /** The first k configs of the chain of p. */
  function Chain(fs: Files, p: Path, k: nat): set<Path>
    requires p in fs
  {
    set i | 0 <= i < k && Ancestor(fs, p, i).Some? :: Ancestor(fs, p, i).value
  }

  /** A config above a repeated one has been met before. */
  lemma {:induction false} AboveRepeat(fs: Files, p: Path, j: nat, k: nat, n: nat)
    requires p in fs && j < k && Ancestor(fs, p, k).Some? && Ancestor(fs, p, j) == Ancestor(fs, p, k)
    requires n >= 1
    ensures exists i :: 1 <= i <= k && Ancestor(fs, p, i) == Ancestor(fs, p, n)
    decreases n
  {
    if n > k {
      var m := n - k;
      AncestorOfAncestor(fs, p, k, m);
      AncestorOfAncestor(fs, p, j, m);
      AboveRepeat(fs, p, j, k, j + m);
      assert Ancestor(fs, p, j + m) == Ancestor(fs, p, n);
    }
  }

  /** The walk that has come from p to its k-th ancestor still finds what is above, unless it was met before. */
  lemma {:induction false} WalkComplete(fs: Files, p: Path, k: nat, n: nat, t: Test)
    requires p in fs && Ancestor(fs, p, k).Some? && n >= 1 && OwnOf(fs, Ancestor(fs, p, n), t)
    requires forall i :: 1 <= i <= k ==> !OwnOf(fs, Ancestor(fs, p, i), t)
    ensures t in Walk(fs, Ancestor(fs, p, k).value, Chain(fs, p, k))
    decreases fs.Keys - Chain(fs, p, k)
  {
    hide Own;
    var c := Ancestor(fs, p, k).value;
    var visited := Chain(fs, p, k);
    if c in visited {
      var j :| 0 <= j < k && Ancestor(fs, p, j) == Some(c);
      AboveRepeat(fs, p, j, k, n);
      assert false;
    } else {
      assert n > k;
      AncestorOfAncestor(fs, p, k, 1);
      AncestorOfAncestor(fs, p, k + 1, n - k - 1);
      AncestorOne(fs, c);
      var q := Parent(fs, c);
      assert Ancestor(fs, p, k + 1) == q;
      assert Chain(fs, p, k + 1) == visited + {c};
      if !OwnOf(fs, q, t) {
        WalkComplete(fs, p, k + 1, n, t);
      }
    }
  }

  lemma AncestorOne(fs: Files, p: Path)
    requires p in fs
    ensures Ancestor(fs, p, 1) == Parent(fs, p)
  {
    if Parent(fs, p).Some? {
      assert Ancestor(fs, Parent(fs, p).value, 0) == Parent(fs, p);
    }
  }

  /** A test is inherited if and only if some config above has it as its own, whatever the cycles. */
  lemma InheritedIsAbove(fs: Files, p: Path, t: Test)
    requires p in fs
    ensures t in Inherited(fs, p) <==> Above(fs, p, 1, t)
  {
    if t in Inherited(fs, p) {
      WalkSound(fs, p, {}, t);
    }
    if Above(fs, p, 1, t) {
      var n :| n >= 1 && OwnOf(fs, Ancestor(fs, p, n), t);
      assert Chain(fs, p, 0) == {};
      WalkComplete(fs, p, 0, n, t);
    }
  }

  lemma EffectiveIsAbove(fs: Files, p: Path, t: Test)
    requires p in fs
    ensures t in Effective(fs, p) <==> Above(fs, p, 0, t)
  {
    InheritedIsAbove(fs, p, t);
    assert t in Own(fs[p]) <==> OwnOf(fs, Ancestor(fs, p, 0), t);
    hide Own, Walk;
    if Above(fs, p, 0, t) && !OwnOf(fs, Ancestor(fs, p, 0), t) {
      var n :| n >= 0 && OwnOf(fs, Ancestor(fs, p, n), t);
      assert n >= 1;
    }
  }

  /** What a config inherits is what its parent means. */
  lemma InheritedFromParent(fs: Files, p: Path)
    requires p in fs
    ensures Inherited(fs, p) == if Parent(fs, p).Some? then Effective(fs, Parent(fs, p).value) else {}
  {
    hide Own;
    match Parent(fs, p)
    case None =>
    case Some(q) =>
      hide Walk, Effective, Inherited;
      forall t ensures t in Inherited(fs, p) <==> t in Effective(fs, q) {
        InheritedIsAbove(fs, p, t);
        EffectiveIsAbove(fs, q, t);
        AboveParent(fs, p, q, t);
      }
  }

  lemma AboveParent(fs: Files, p: Path, q: Path, t: Test)
    requires p in fs && Parent(fs, p) == Some(q)
    ensures Above(fs, p, 1, t) <==> Above(fs, q, 0, t)
  {
    hide Own;
    if Above(fs, p, 1, t) {
      var n :| n >= 1 && OwnOf(fs, Ancestor(fs, p, n), t);
      assert OwnOf(fs, Ancestor(fs, q, n - 1), t);
    }
    if Above(fs, q, 0, t) {
      var n :| n >= 0 && OwnOf(fs, Ancestor(fs, q, n), t);
      assert OwnOf(fs, Ancestor(fs, p, n + 1), t);
    }
  }

  // ---------------------------------------------------------------------------
  // Cleaning one config
  // ---------------------------------------------------------------------------

  function Without(tests: seq<Test>, drop: set<Test>): (r: seq<Test>)
    ensures (set t <- r) == (set t <- tests) - drop
  {
    if tests == [] then []
    else
      var rest := Without(tests[1..], drop);
      assert (set t <- tests) == {tests[0]} + (set t <- tests[1..]);
      assert tests == [tests[0]] + tests[1..];
      assert (set t <- [tests[0]] + rest) == {tests[0]} + (set t <- rest);
      if tests[0] in drop then rest else [tests[0]] + rest
  }

  /** A listed test is kept as often as it was listed, or not at all. */
  lemma {:induction false} WithoutCounts(tests: seq<Test>, drop: set<Test>, t: Test)
    ensures multiset(Without(tests, drop))[t] == if t in drop then 0 else multiset(tests)[t]
  {
    if tests != [] {
      WithoutCounts(tests[1..], drop, t);
      assert tests == [tests[0]] + tests[1..];
    }
  }

  /** A group without its inherited paths; a group left without paths is dropped, one without the key is kept. */
  function CleanGroup(g: Group, drop: set<Test>): seq<Group> {
    if g.paths.None? then [g]
    else
      var kept := Without(g.paths.value, drop);
      if kept == [] then [] else [g.(paths := Some(kept))]
  }

  function CleanGroups(groups: seq<Group>, drop: set<Test>): seq<Group> {
    if groups == [] then [] else CleanGroup(groups[0], drop) + CleanGroups(groups[1..], drop)
  }

  /** The new content of a config; it is left alone when none of its tests is inherited. */
  function CleanConfig(config: Config, inherited: set<Test>): Config {
    if Own(config) * inherited == {} then config
    else
      var groups := CleanGroups(config.skipTests.value, inherited);
      config.(skipTests := if groups == [] then None else Some(groups))
  }

  function Clean(fs: Files, p: Path): Files {
    if p in fs then fs[p := CleanConfig(fs[p], Inherited(fs, p))] else fs
  }

  function CleanAll(fs: Files, ps: seq<Path>): Files {
    if ps == [] then fs else CleanAll(Clean(fs, ps[0]), ps[1..])
  }

  lemma {:induction false} CleanGroupsTests(groups: seq<Group>, drop: set<Test>)
    ensures GroupsTests(CleanGroups(groups, drop)) == GroupsTests(groups) - drop
  {
    if groups != [] {
      CleanGroupsTests(groups[1..], drop);
      var first, rest := CleanGroup(groups[0], drop), CleanGroups(groups[1..], drop);
      CleanGroupTests(groups[0], drop);
      TestsOfConcat(first, rest);
      TestsOfConcat([groups[0]], groups[1..]);
      TestsOfOne(groups[0]);
      assert [groups[0]] + groups[1..] == groups;
      hide GroupsTests, GroupTests, CleanGroup, CleanGroups;
      assert CleanGroups(groups, drop) == first + rest by { CleanGroupsFirst(groups, drop); }
    }
  }

  lemma CleanGroupsFirst(groups: seq<Group>, drop: set<Test>)
    requires groups != []
    ensures CleanGroups(groups, drop) == CleanGroup(groups[0], drop) + CleanGroups(groups[1..], drop)
  {}

  lemma TestsOfOne(g: Group)
    ensures GroupsTests([g]) == GroupTests(g)
  {
    assert g in [g];
  }

  lemma CleanGroupTests(g: Group, drop: set<Test>)
    ensures GroupsTests(CleanGroup(g, drop)) == GroupTests(g) - drop
  {
    if g.paths.Some? {
      var kept := Without(g.paths.value, drop);
      if kept == [] {
        assert (set t <- kept) == {};
      } else {
        TestsOfOne(g.(paths := Some(kept)));
      }
    } else {
      TestsOfOne(g);
    }
  }

  lemma TestsOfConcat(a: seq<Group>, b: seq<Group>)
    ensures GroupsTests(a + b) == GroupsTests(a) + GroupsTests(b)
  {}

  /** Cleaning takes exactly the inherited tests away, and touches nothing else of the files. */
  lemma CleanOwn(fs: Files, p: Path)
    requires p in fs
    ensures Own(Clean(fs, p)[p]) == Own(fs[p]) - Inherited(fs, p)
    ensures Clean(fs, p)[p].inheritSkipTests == fs[p].inheritSkipTests
    ensures Clean(fs, p).Keys == fs.Keys && forall q <- fs :: q != p ==> Clean(fs, p)[q] == fs[q]
  {
    hide Walk, GroupsTests, CleanGroups;
    NoTests();
    if Own(fs[p]) * Inherited(fs, p) != {} {
      CleanGroupsTests(fs[p].skipTests.value, Inherited(fs, p));
    } else {
      DisjointMinus(Own(fs[p]), Inherited(fs, p));
    }
  }

  lemma DisjointMinus<T>(a: set<T>, b: set<T>)
    requires a * b == {}
    ensures a - b == a
  {
    assert forall x <- a :: x in b ==> x in a * b;
  }

  lemma NoTests()
    ensures GroupsTests([]) == {}
  {}

  // ---------------------------------------------------------------------------
  // Cleaning keeps the meaning of every config exactly when p is not on a cycle
  // ---------------------------------------------------------------------------

  predicate SameInheritance(fs: Files, gs: Files) {
    fs.Keys == gs.Keys && forall p <- fs :: fs[p].inheritSkipTests == gs[p].inheritSkipTests
  }

  lemma {:induction false} SameAncestors(fs: Files, gs: Files, p: Path, n: nat)
    requires SameInheritance(fs, gs) && p in fs
    ensures Ancestor(fs, p, n) == Ancestor(gs, p, n)
    decreases n
  {
    if n > 0 && Parent(fs, p).Some? {
      SameAncestors(fs, gs, Parent(fs, p).value, n - 1);
    }
  }

  /** Another config above p has the test as its own. */
  ghost predicate OwnElsewhere(fs: Files, p: Path, t: Test)
    requires p in fs
  {
    exists m :: m >= 1 && OwnElsewhereAt(fs, p, t, m)
  }

  predicate OwnElsewhereAt(fs: Files, p: Path, t: Test, m: nat)
    requires p in fs
  {
    Ancestor(fs, p, m) != Some(p) && OwnOf(fs, Ancestor(fs, p, m), t)
  }

  /** If p is on a cycle, other configs above it have all its tests. */
  ghost predicate Replaceable(fs: Files, p: Path)
    requires p in fs
  {
    OnCycle(fs, p) ==> forall t <- Own(fs[p]) :: OwnElsewhere(fs, p, t)
  }

  /** What p inherits comes from other configs. */
  lemma InheritedElsewhere(fs: Files, p: Path, t: Test)
    requires p in fs && Replaceable(fs, p) && t in Own(fs[p]) && t in Inherited(fs, p)
    ensures OwnElsewhere(fs, p, t)
  {
    if !OnCycle(fs, p) {
      InheritedIsAbove(fs, p, t);
      hide Own, Walk;
      var m :| m >= 1 && OwnOf(fs, Ancestor(fs, p, m), t);
      assert OwnElsewhereAt(fs, p, t, m);
    }
  }

  lemma CleanAddsNothing(fs: Files, p: Path, q: Path, from: nat, t: Test)
    requires p in fs && q in fs && Above(Clean(fs, p), q, from, t)
    ensures Above(fs, q, from, t)
  {
    var gs := Clean(fs, p);
    CleanOwn(fs, p);
    hide Own, Walk, Clean;
    var n :| n >= from && OwnOf(gs, Ancestor(gs, q, n), t);
    SameAncestors(fs, gs, q, n);
    assert OwnOf(fs, Ancestor(fs, q, n), t);
  }

  /** A test that p loses is still an own test of a config further up. */
  lemma CleanLosesNothing(fs: Files, p: Path, q: Path, from: nat, t: Test)
    requires p in fs && q in fs && Replaceable(fs, p) && Above(fs, q, from, t)
    ensures Above(Clean(fs, p), q, from, t)
  {
    var gs := Clean(fs, p);
    CleanOwn(fs, p);
    hide Own, Walk, Clean, Replaceable;
    var n :| n >= from && OwnOf(fs, Ancestor(fs, q, n), t);
    SameAncestors(fs, gs, q, n);
    if !OwnOf(gs, Ancestor(gs, q, n), t) {
      InheritedElsewhere(fs, p, t);
      var m :| m >= 1 && OwnElsewhereAt(fs, p, t, m);
      AncestorOfAncestor(fs, q, n, m);
      SameAncestors(fs, gs, q, n + m);
      assert OwnOf(gs, Ancestor(gs, q, n + m), t);
    }
  }

  lemma CleanKeepsAbove(fs: Files, p: Path, q: Path, from: nat, t: Test)
    requires p in fs && q in fs && Replaceable(fs, p)
    ensures Above(Clean(fs, p), q, from, t) <==> Above(fs, q, from, t)
  {
    CleanOwn(fs, p);
    hide Above, Clean, Replaceable;
    if Above(Clean(fs, p), q, from, t) {
      CleanAddsNothing(fs, p, q, from, t);
    }
    if Above(fs, q, from, t) {
      CleanLosesNothing(fs, p, q, from, t);
    }
  }

  lemma CleanKeepsMeaning(fs: Files, p: Path, q: Path)
    requires p in fs && q in fs && Replaceable(fs, p)
    ensures Effective(Clean(fs, p), q) == Effective(fs, q)
    ensures Inherited(Clean(fs, p), q) == Inherited(fs, q)
  {
    var gs := Clean(fs, p);
    CleanOwn(fs, p);
    hide Clean, Effective, Inherited, Above, Replaceable;
    forall t ensures t in Effective(gs, q) <==> t in Effective(fs, q) {
      EffectiveIsAbove(fs, q, t);
      EffectiveIsAbove(gs, q, t);
      CleanKeepsAbove(fs, p, q, 0, t);
    }
    forall t ensures t in Inherited(gs, q) <==> t in Inherited(fs, q) {
      InheritedIsAbove(fs, q, t);
      InheritedIsAbove(gs, q, t);
      CleanKeepsAbove(fs, p, q, 1, t);
    }
  }

  /** The same inheritance with one test in one config and nothing elsewhere. */
  function OneTest(fs: Files, p: Path, t: Test): Files {
    map q <- fs :: fs[q].(skipTests := if q == p then Some([Group(Some([t]), "")]) else None)
  }

  /** A config on a cycle inherits its own tests from itself, so cleaning it loses them. */
  lemma CycleLoses(fs: Files, p: Path, t: Test)
    requires p in fs && OnCycle(fs, p)
    ensures var gs := OneTest(fs, p, t);
      SameInheritance(fs, gs) && t in Effective(gs, p) && t !in Effective(Clean(gs, p), p)
  {
    var gs := OneTest(fs, p, t);
    TestsOfOne(Group(Some([t]), ""));
    assert Own(gs[p]) == {t};
    assert forall q <- gs :: q != p ==> Own(gs[q]) == {};
    CleanOwn(gs, p);
    var hs := Clean(gs, p);
    hide Own, Walk, OneTest, Clean;
    var n :| n >= 1 && Ancestor(fs, p, n) == Some(p);
    SameAncestors(fs, gs, p, n);
    assert OwnOf(gs, Ancestor(gs, p, n), t);
    InheritedIsAbove(gs, p, t);
    EffectiveIsAbove(hs, p, t);
    assert forall q <- hs :: t !in Own(hs[q]);
    assert !Above(hs, p, 0, t);
  }

  ghost predicate KeepsMeaning(fs: Files, p: Path)
    requires p in fs
  {
    forall q <- fs :: q in Clean(fs, p) && Effective(Clean(fs, p), q) == Effective(fs, q)
  }

  /** On a cycle p inherits all its own tests, so it ends with none. */
  lemma CycleEmpties(fs: Files, p: Path)
    requires p in fs && OnCycle(fs, p)
    ensures p in Clean(fs, p) && Own(Clean(fs, p)[p]) == {}
  {
    CleanOwn(fs, p);
    hide Own, Walk, Clean;
    var n :| n >= 1 && Ancestor(fs, p, n) == Some(p);
    forall t <- Own(fs[p]) ensures t in Inherited(fs, p) {
      assert OwnOf(fs, Ancestor(fs, p, n), t);
      InheritedIsAbove(fs, p, t);
    }
  }

  lemma CycleKeepsElsewhere(fs: Files, p: Path, t: Test)
    requires p in fs && OnCycle(fs, p) && t in Own(fs[p]) && KeepsMeaning(fs, p)
    ensures OwnElsewhere(fs, p, t)
  {
    var gs := Clean(fs, p);
    CleanOwn(fs, p);
    CycleEmpties(fs, p);
    hide Own, Walk, Clean, OnCycle, Inherited;
    EffectiveIsAbove(gs, p, t);
    var n :| n >= 0 && OwnOf(gs, Ancestor(gs, p, n), t);
    SameAncestors(fs, gs, p, n);
    hide Effective, KeepsMeaning;
    assert n >= 1 && OwnElsewhereAt(fs, p, t, n);
  }

  /**
   Cleaning p keeps what every config skips, with the contents as they are, if and only if p is not on a cycle or
   other configs above it have all its tests.
   */
  lemma KeepsMeaningHere(fs: Files, p: Path)
    requires p in fs
    ensures KeepsMeaning(fs, p) <==> Replaceable(fs, p)
  {
    CleanOwn(fs, p);
    hide Clean, Effective, OnCycle, OwnElsewhere, Own, Walk;
    if Replaceable(fs, p) {
      forall q <- fs ensures q in Clean(fs, p) && Effective(Clean(fs, p), q) == Effective(fs, q) {
        CleanKeepsMeaning(fs, p, q);
      }
    }
    if KeepsMeaning(fs, p) && OnCycle(fs, p) {
      forall t <- Own(fs[p]) ensures OwnElsewhere(fs, p, t) {
        CycleKeepsElsewhere(fs, p, t);
      }
    }
  }

  /** Cleaning p keeps what every config skips, for all contents, if and only if p does not inherit from itself. */
  lemma CleanKeepsMeaningIff(fs: Files, p: Path)
    requires p in fs
    ensures (forall gs: Files | SameInheritance(fs, gs) :: KeepsMeaning(gs, p)) <==> !OnCycle(fs, p)
  {
    hide Clean, Effective;
    if OnCycle(fs, p) {
      CycleLoses(fs, p, "");
      assert !KeepsMeaning(OneTest(fs, p, ""), p);
    } else {
      forall gs: Files | SameInheritance(fs, gs) ensures KeepsMeaning(gs, p) {
        forall n | n >= 1 ensures Ancestor(gs, p, n) != Some(p) {
          SameAncestors(fs, gs, p, n);
        }
        CleanOwn(gs, p);
        forall q <- gs ensures Effective(Clean(gs, p), q) == Effective(gs, q) {
          CleanKeepsMeaning(gs, p, q);
        }
      }
    }
  }

  // ---------------------------------------------------------------------------
  // Cleaning many configs, one after the other
  // ---------------------------------------------------------------------------

  ghost predicate NoneOnCycle(fs: Files, ps: seq<Path>) {
    forall p <- ps :: p in fs ==> !OnCycle(fs, p)
  }

  lemma NoneOnCycleKept(fs: Files, gs: Files, ps: seq<Path>)
    requires SameInheritance(fs, gs) && NoneOnCycle(fs, ps)
    ensures NoneOnCycle(gs, ps)
  {
    forall p <- ps | p in gs ensures !OnCycle(gs, p) {
      forall n | n >= 1 ensures Ancestor(gs, p, n) != Some(p) {
        SameAncestors(fs, gs, p, n);
      }
    }
  }

  /**
   In whatever order the configs are processed, every config keeps its meaning, and ends with its own tests
   minus those it inherited at the start.
   */
  lemma {:induction false} OrderDoesNotMatter(fs: Files, ps: seq<Path>)
    requires NoneOnCycle(fs, ps)
    ensures SameInheritance(fs, CleanAll(fs, ps))
    ensures forall q <- fs :: Effective(CleanAll(fs, ps), q) == Effective(fs, q)
    ensures forall q <- fs :: Inherited(CleanAll(fs, ps), q) == Inherited(fs, q)
    ensures forall q <- fs :: Own(CleanAll(fs, ps)[q]) == if q in ps then Own(fs[q]) - Inherited(fs, q) else Own(fs[q])
    decreases |ps|
  {
    hide Effective, Inherited, Own, Clean, OnCycle;
    if ps != [] {
      var p, gs := ps[0], Clean(fs, ps[0]);
      if p in fs {
        CleanOwn(fs, p);
        forall q <- fs ensures Effective(gs, q) == Effective(fs, q) && Inherited(gs, q) == Inherited(fs, q) {
          CleanKeepsMeaning(fs, p, q);
        }
      } else {
        MissingIsSkipped(fs, p);
      }
      assert SameInheritance(fs, gs);
      NoneOnCycleKept(fs, gs, ps[1..]);
      OrderDoesNotMatter(gs, ps[1..]);
      assert ps == [p] + ps[1..];
    }
  }

  lemma MissingIsSkipped(fs: Files, p: Path)
    requires p !in fs
    ensures Clean(fs, p) == fs
  {}

  /** A second pass over configs that were processed changes no file. */
  lemma {:induction false} SecondPassChangesNothing(fs: Files, ps: seq<Path>, qs: seq<Path>)
    requires NoneOnCycle(fs, ps) && forall q <- qs :: q in ps
    ensures CleanAll(CleanAll(fs, ps), qs) == CleanAll(fs, ps)
    decreases |qs|
  {
    if qs != [] {
      var gs := CleanAll(fs, ps);
      OrderDoesNotMatter(fs, ps);
      hide CleanAll, Effective, Inherited, Own, Clean, NoneOnCycle;
      assert qs[0] in gs ==> Own(gs[qs[0]]) * Inherited(gs, qs[0]) == {};
      CleanedStays(gs, qs[0]);
      CleanAllFirst(gs, qs);
      SecondPassChangesNothing(fs, ps, qs[1..]);
    }
  }

  lemma CleanedStays(fs: Files, p: Path)
    requires p in fs ==> Own(fs[p]) * Inherited(fs, p) == {}
    ensures Clean(fs, p) == fs
  {
    assert p in fs ==> fs[p := fs[p]] == fs;
    hide Own, Walk;
  }

  lemma CleanAllFirst(fs: Files, ps: seq<Path>)
    requires ps != []
    ensures CleanAll(fs, ps) == CleanAll(Clean(fs, ps[0]), ps[1..])
  {}

  // ---------------------------------------------------------------------------
  // Dry runs
  // ---------------------------------------------------------------------------

  /** The config has tests that it also inherits. */
  predicate Redundant(fs: Files, p: Path) {
    p in fs && Own(fs[p]) * Inherited(fs, p) != {}
  }

  /** How many files a real run changes, each config seeing what the ones before it left. */
  function Cleaned(fs: Files, ps: seq<Path>): nat {
    if ps == [] then 0 else (if Redundant(fs, ps[0]) then 1 else 0) + Cleaned(Clean(fs, ps[0]), ps[1..])
  }

  /** How many files a dry run counts, no file ever changing. */
  function WouldClean(fs: Files, ps: seq<Path>): nat {
    if ps == [] then 0 else (if Redundant(fs, ps[0]) then 1 else 0) + WouldClean(fs, ps[1..])
  }

  lemma {:induction false} WouldCleanSame(fs: Files, gs: Files, ps: seq<Path>)
    requires forall p <- ps :: Redundant(fs, p) <==> Redundant(gs, p)
    ensures WouldClean(fs, ps) == WouldClean(gs, ps)
  {
    hide Redundant;
    if ps != [] {
      WouldCleanSame(fs, gs, ps[1..]);
    }
  }

  /** A dry run announces exactly the number of files that the real run then changes. */
  lemma {:induction false} DryRunPredicts(fs: Files, ps: seq<Path>)
    requires NoneOnCycle(fs, ps) && forall i, j :: 0 <= i < j < |ps| ==> ps[i] != ps[j]
    ensures Cleaned(fs, ps) == WouldClean(fs, ps)
    decreases |ps|
  {
    if ps != [] {
      var p, gs := ps[0], Clean(fs, ps[0]);
      if p in fs {
        CleanOwn(fs, p);
        forall q <- ps[1..] ensures Redundant(gs, q) <==> Redundant(fs, q) {
          if q in fs {
            CleanKeepsMeaning(fs, p, q);
          }
        }
      } else {
        MissingIsSkipped(fs, p);
      }
      hide Redundant, Clean;
      NoneOnCycleKept(fs, gs, ps[1..]);
      DryRunPredicts(gs, ps[1..]);
      WouldCleanSame(fs, gs, ps[1..]);
    }
  }

  // ---------------------------------------------------------------------------
  // The script
  // ---------------------------------------------------------------------------

  datatype CleanupError = ConfigNotFound

  class VisitedSet {
    var paths: set<Path>

    constructor ()
      ensures paths == {}
    {
      paths := {};
    }
  }

  class ConfigStore {
    var files: Files

    constructor (fs: Files)
      ensures files == fs
    {
      files := fs;
    }

    /** The walk up the chain; one visited set is shared by all levels of the recursion. */
    method GetInheritedSkipTests(path: Path, visited: VisitedSet) returns (tests: set<Test>)
      requires path in files
      modifies visited
      ensures tests == Walk(files, path, old(visited.paths))
      decreases files.Keys - visited.paths
    {
      tests := {};
      if path in visited.paths {
        return;
      }
      visited.paths := visited.paths + {path};
      var config := files[path];
      if config.inheritSkipTests.Some? && config.inheritSkipTests.value in files {
        var parentPath := config.inheritSkipTests.value;
        tests := GetInheritedSkipTests(parentPath, visited);
        var parent := files[parentPath];
        if parent.skipTests.Some? {
          ghost var above := tests;
          var groups := parent.skipTests.value;
          for i := 0 to |groups|
            invariant tests == above + GroupsTests(groups[..i])
          {
            TestsUpTo(groups, i);
            if groups[i].paths.Some? {
              tests := tests + set t <- groups[i].paths.value;
            }
          }
          assert groups[..|groups|] == groups;
        }
      }
    }

    /** Rewrites one config; reports whether any of its tests was inherited. */
    method CleanupConfig(path: Path, dryRun: bool) returns (changed: Result<bool, CleanupError>)
      modifies this
      ensures changed == if path in old(files) then Ok(Redundant(old(files), path)) else Err(ConfigNotFound)
      ensures files == if dryRun then old(files) else Clean(old(files), path)
    {
      if path !in files {
        return Err(ConfigNotFound);
      }
      var config := files[path];
      ghost var inheritedTests := Inherited(files, path);
      assert config.skipTests.None? || config.inheritSkipTests.None? || inheritedTests == {} ==>
        Own(config) * inheritedTests == {};
      assert Own(config) * inheritedTests == {} ==> files[path := config] == files;
      hide Walk, GroupsTests;
      if config.skipTests.None? || config.inheritSkipTests.None? {
        return Ok(false);
      }
      var visited := new VisitedSet();
      var inherited := GetInheritedSkipTests(path, visited);
      if inherited == {} {
        return Ok(false);
      }
      var newSkipTests, changesMade := CleanSkipTests(config.skipTests.value, inherited);
      if changesMade && !dryRun {
        files := files[path := config.(skipTests := if newSkipTests == [] then None else Some(newSkipTests))];
      }
      return Ok(changesMade);
    }

    /** The loop over the config files; one that cannot be loaded is skipped. */
    method CleanupConfigs(configs: seq<Path>, dryRun: bool) returns (totalChanged: nat)
      modifies this
      ensures files == if dryRun then old(files) else CleanAll(old(files), configs)
      ensures totalChanged == if dryRun then WouldClean(old(files), configs) else Cleaned(old(files), configs)
    {
      totalChanged := 0;
      ghost var start := files;
      hide Clean, Redundant;
      for i := 0 to |configs|
        invariant dryRun ==> files == start && totalChanged + WouldClean(start, configs[i..]) == WouldClean(start, configs)
        invariant !dryRun ==> CleanAll(files, configs[i..]) == CleanAll(start, configs)
        invariant !dryRun ==> totalChanged + Cleaned(files, configs[i..]) == Cleaned(start, configs)
      {
        assert configs[i..][1..] == configs[i + 1..];
        assert configs[i] !in files ==> !Redundant(files, configs[i]) by { MissingIsNotRedundant(files, configs[i]); }
        var changed := CleanupConfig(configs[i], dryRun);
        if changed == Ok(true) {
          totalChanged := totalChanged + 1;
        }
      }
    }
  }

  lemma MissingIsNotRedundant(fs: Files, p: Path)
    ensures p !in fs ==> !Redundant(fs, p)
  {}

  lemma TestsUpTo(groups: seq<Group>, i: nat)
    requires i < |groups|
    ensures GroupsTests(groups[..i + 1]) == GroupsTests(groups[..i]) + GroupTests(groups[i])
  {
    assert groups[..i + 1] == groups[..i] + [groups[i]];
    TestsOfConcat(groups[..i], [groups[i]]);
    TestsOfOne(groups[i]);
  }

  /** The loop over the groups of one config. */
  method CleanSkipTests(groups: seq<Group>, inherited: set<Test>) returns (newSkipTests: seq<Group>, changesMade: bool)
    ensures newSkipTests == CleanGroups(groups, inherited)
    ensures changesMade <==> GroupsTests(groups) * inherited != {}
  {
    newSkipTests, changesMade := [], false;
    for i := 0 to |groups|
      invariant newSkipTests + CleanGroups(groups[i..], inherited) == CleanGroups(groups, inherited)
      invariant changesMade <==> GroupsTests(groups[..i]) * inherited != {}
    {
      var g := groups[i];
      assert groups[i..][1..] == groups[i + 1..];
      CleanGroupsFirst(groups[i..], inherited);
      TestsUpTo(groups, i);
      hide GroupsTests, CleanGroups, CleanGroup;
      var kept, removed := CleanSkipGroup(g, inherited);
      assert newSkipTests + CleanGroups(groups[i..], inherited) ==
        newSkipTests + kept + CleanGroups(groups[i + 1..], inherited);
      newSkipTests := newSkipTests + kept;
      changesMade := changesMade || removed;
    }
    assert groups[..|groups|] == groups;
  }

  method CleanSkipGroup(g: Group, inherited: set<Test>) returns (kept: seq<Group>, removed: bool)
    ensures kept == CleanGroup(g, inherited)
    ensures removed <==> GroupTests(g) * inherited != {}
  {
    if g.paths.None? {
      return [g], false;
    }
    var filtered := FilterPaths(g.paths.value, inherited);
    removed := exists p <- g.paths.value :: p in inherited;
    if removed {
      ghost var p :| p in g.paths.value && p in inherited;
      assert p in GroupTests(g) * inherited;
    }
    kept := if filtered == [] then [] else [g.(paths := Some(filtered))];
  }

  method FilterPaths(tests: seq<Test>, drop: set<Test>) returns (r: seq<Test>)
    ensures r == Without(tests, drop)
  {
    r := [];
    for i := 0 to |tests|
      invariant r + Without(tests[i..], drop) == Without(tests, drop)
    {
      assert tests[i..][1..] == tests[i + 1..];
      if tests[i] !in drop {
        r := r + [tests[i]];
      }
    }
  }
}
