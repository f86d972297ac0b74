/** Exactly which schemas make equal expressions hash alike. */
module ExpressionUtilHashLaw {
  import opened Wrappers
  import opened ExpressionUtil
  import opened ExpressionUtilLaws

  /** A hash that tells apart lists that differ in one place. */
  function Telling(): Runtime {
    Runtime((k: nat, v: int) => v, (v: int) => v, (h: int, x: int) => 2 * h + x)
  }

  lemma {:induction false} FoldConcat(rt: Runtime, h: int, xs: seq<int>, ys: seq<int>)
    ensures Fold(rt, h, xs + ys) == Fold(rt, Fold(rt, h, xs), ys)
  {
    if ys == [] {
      assert xs + ys == xs;
    } else {
      var n := |ys| - 1;
      assert (xs + ys)[..|xs + ys| - 1] == xs + ys[..n];
      FoldConcat(rt, h, xs, ys[..n]);
    }
  }

  lemma {:induction false} FoldTells(g: int, h: int, xs: seq<int>)
    requires g != h
    ensures Fold(Telling(), g, xs) != Fold(Telling(), h, xs)
  {
    if xs != [] {
      FoldTells(g, h, xs[..|xs| - 1]);
    }
  }

  lemma FoldOne(h: int, x: int)
    ensures Fold(Telling(), h, [x]) == 2 * h + x
  {
    assert [x][..0] == [];
  }

  lemma FoldTwo(h: int, x: int, y: int)
    ensures Fold(Telling(), h, [x, y]) == 4 * h + 2 * x + y
  {
    assert [x, y] == [x] + [y];
    FoldConcat(Telling(), h, [x], [y]);
    FoldOne(h, x);
    FoldOne(2 * h + x, y);
  }

  /** A list of child hashes is told apart from another wherever the fold starts. */
  ghost predicate Distinguished(xs: seq<int>, ys: seq<int>) {
    forall h :: Fold(Telling(), h, xs) != Fold(Telling(), h, ys)
  }

  /** The hashes of the children in the members after i, up to n. */
  function ChildrenAfter(S: Schema, rt: Runtime, e: Expr, members: seq<Member>, i: nat, n: nat): seq<int>
    requires |e.fields| == |members| && i < n <= |members|
    decreases n
  {
    if n == i + 1 then []
    else
      ChildrenAfter(S, rt, e, members, i, n - 1) +
      if members[n - 1].Iterable() then ChildHashes(S, rt, e.fields[n - 1]) else []
  }

  /** The child hashes split around member i. */
  lemma {:induction false} ChildrenSplit(S: Schema, rt: Runtime, e: Expr, members: seq<Member>, i: nat, n: nat)
    requires |e.fields| == |members| && i < n <= |members| && members[i].Iterable()
    ensures ChildrenUpTo(S, rt, e, members, n) ==
      ChildrenUpTo(S, rt, e, members, i) + ChildHashes(S, rt, e.fields[i]) + ChildrenAfter(S, rt, e, members, i, n)
    decreases n
  {
    hide ChildHashes;
    if n > i + 1 {
      ChildrenSplit(S, rt, e, members, i, n - 1);
    }
  }

  lemma {:induction false} ChildrenAfterUnchanged(S: Schema, rt: Runtime, e: Expr, members: seq<Member>, i: nat, x: Field, n: nat)
    requires |e.fields| == |members| && i < n <= |members|
    ensures ChildrenAfter(S, rt, e.(fields := e.fields[i := x]), members, i, n) == ChildrenAfter(S, rt, e, members, i, n)
    decreases n
  {
    hide ChildHashes;
    if n > i + 1 {
      ChildrenAfterUnchanged(S, rt, e, members, i, x, n - 1);
    }
  }

  lemma {:induction false} ChildrenBefore(S: Schema, rt: Runtime, e: Expr, members: seq<Member>, i: nat, x: Field, n: nat)
    requires |e.fields| == |members| && n <= i < |members|
    ensures ChildrenUpTo(S, rt, e.(fields := e.fields[i := x]), members, n) == ChildrenUpTo(S, rt, e, members, n)
    decreases n
  {
    hide ChildHashes;
    if n > 0 {
      ChildrenBefore(S, rt, e, members, i, x, n - 1);
    }
  }

  /** A member that is not folded in by the subclass can change without changing that part of the hash. */
  lemma {:induction false} MembersUnchanged(S: Schema, rt: Runtime, e: Expr, members: seq<Member>, i: nat, x: Field, n: nat)
    requires |e.fields| == |members| && i < |members| && n <= |members| && !members[i].Hashed()
    ensures MembersUpTo(S, rt, e.(fields := e.fields[i := x]), members, n) == MembersUpTo(S, rt, e, members, n)
    decreases n
  {
    hide MemberHashes;
    if n > 0 {
      MembersUnchanged(S, rt, e, members, i, x, n - 1);
    }
  }

  /** Replacing the children in one member by distinguished ones changes the hash. */
  lemma HashTells(S: Schema, e: Expr, i: nat, x: Field, y: Field)
    requires WellTyped(S, e) && i < |e.fields|
    requires ClassMembers(S, e.cls)[i].Iterable() && !ClassMembers(S, e.cls)[i].Hashed()
    requires Distinguished(ChildHashes(S, Telling(), x), ChildHashes(S, Telling(), y))
    ensures Hash(S, Telling(), e.(fields := e.fields[i := x])) != Hash(S, Telling(), e.(fields := e.fields[i := y]))
  {
    hide ChildHashes, MemberHashes, WellTyped, ChildrenUpTo, ChildrenAfter, MembersUpTo, Fold, Telling, Distinguished;
    var rt := Telling();
    var members := ClassMembers(S, e.cls);
    assert |members| == |e.fields| by { TypedLength(S, e); }
    var a, b := e.(fields := e.fields[i := x]), e.(fields := e.fields[i := y]);
    ChildrenSplit(S, rt, a, members, i, |members|);
    ChildrenSplit(S, rt, b, members, i, |members|);
    ChildrenAfterUnchanged(S, rt, e, members, i, x, |members|);
    ChildrenAfterUnchanged(S, rt, e, members, i, y, |members|);
    ChildrenBefore(S, rt, e, members, i, x, i);
    ChildrenBefore(S, rt, e, members, i, y, i);
    MembersUnchanged(S, rt, e, members, i, x, |members|);
    MembersUnchanged(S, rt, e, members, i, y, |members|);
    var before := ChildrenUpTo(S, rt, e, members, i);
    var tail := ChildrenAfter(S, rt, e, members, i, |members|) + MembersUpTo(S, rt, e, members, |members|);
    var h := rt.combine(rt.hash(e.cls), rt.hash(e.typ));
    assert ChildrenUpTo(S, rt, a, members, |members|) + MembersUpTo(S, rt, a, members, |members|) ==
      before + ChildHashes(S, rt, x) + tail;
    assert ChildrenUpTo(S, rt, b, members, |members|) + MembersUpTo(S, rt, b, members, |members|) ==
      before + ChildHashes(S, rt, y) + tail;
    FoldAround(h, before, ChildHashes(S, rt, x), ChildHashes(S, rt, y), tail);
  }

  lemma TypedLength(S: Schema, e: Expr)
    requires WellTyped(S, e)
    ensures |ClassMembers(S, e.cls)| == |e.fields|
  {}

  lemma FoldAround(h: int, before: seq<int>, xs: seq<int>, ys: seq<int>, tail: seq<int>)
    requires Distinguished(xs, ys)
    ensures Fold(Telling(), h, before + xs + tail) != Fold(Telling(), h, before + ys + tail)
  {
    var rt := Telling();
    FoldConcat(rt, h, before + xs, tail);
    FoldConcat(rt, h, before + ys, tail);
    FoldConcat(rt, h, before, xs);
    FoldConcat(rt, h, before, ys);
    FoldTells(Fold(rt, h, before + xs), Fold(rt, h, before + ys), tail);
  }

  /** The same tree with another expression type. */
  function Retyped(e: Expr): Expr {
    e.(typ := e.typ + 1)
  }

  lemma {:induction false} RetypedChildren(S: Schema, rt: Runtime, e: Expr, members: seq<Member>, n: nat)
    requires n <= |members|
    ensures ChildrenUpTo(S, rt, Retyped(e), members, n) == ChildrenUpTo(S, rt, e, members, n)
    ensures MembersUpTo(S, rt, Retyped(e), members, n) == MembersUpTo(S, rt, e, members, n)
  {
    hide ChildHashes, MemberHashes;
    if n > 0 {
      RetypedChildren(S, rt, e, members, n - 1);
    }
  }

  lemma RetypedHash(S: Schema, e: Expr)
    ensures Hash(S, Telling(), Retyped(e)) != Hash(S, Telling(), e)
  {
    hide Fold, ChildrenUpTo, MembersUpTo;
    var members := ClassMembers(S, e.cls);
    RetypedChildren(S, Telling(), e, members, |members|);
    FoldTells(2 * e.cls + e.typ, 2 * e.cls + e.typ + 1,
              ChildrenUpTo(S, Telling(), e, members, |members|) + MembersUpTo(S, Telling(), e, members, |members|));
  }

  /** A field of an iterable type that holds the given child. */
  function Holding(t: MemberType, e: Expr): Field {
    match t
    case ExpressionList => List([e])
    case OrderModifierPtr => Modifier([OrderNode(0, 0, e)])
    case OrderByList => Orders([OrderNode(0, 0, e)])
    case CaseCheckList => Cases([CaseCheck(e, e)])
    case FunctionArgumentList => Args([Argument(0, e)])
    case ExpressionMap => Map([MapEntry(0, e)])
    case _ => Ptr(Some(e))
  }

  lemma HoldingDistinguished(S: Schema, m: Member, e: Expr)
    requires m.Iterable()
    ensures Distinguished(ChildHashes(S, Telling(), Holding(m.mtype, e)), ChildHashes(S, Telling(), Holding(m.mtype, Retyped(e))))
  {
    hide Hash, Fold;
    RetypedHash(S, e);
    var a, b := Hash(S, Telling(), e), Hash(S, Telling(), Retyped(e));
    var xs := if m.mtype.CaseCheckList? then [a, a] else [a];
    var ys := if m.mtype.CaseCheckList? then [b, b] else [b];
    assert ChildHashes(S, Telling(), Holding(m.mtype, e)) == xs;
    assert ChildHashes(S, Telling(), Holding(m.mtype, Retyped(e))) == ys;
    forall h ensures Fold(Telling(), h, xs) != Fold(Telling(), h, ys) {
      FoldOne(h, a);
      FoldOne(h, b);
      FoldTwo(h, a, a);
      FoldTwo(h, b, b);
    }
  }

  lemma RetypedTyped(S: Schema, e: Expr)
    requires WellTyped(S, e) && SelectsPresent(S, e)
    ensures WellTyped(S, Retyped(e)) && SelectsPresent(S, Retyped(e))
  {}

  lemma HoldingTyped(S: Schema, m: Member, e: Expr)
    requires m.Iterable() && WellTyped(S, e)
    ensures FieldTyped(S, m, Holding(m.mtype, e))
  {
    hide WellTyped;
  }

  lemma ReplacedTyped(S: Schema, e: Expr, i: nat, x: Field)
    requires WellTyped(S, e) && i < |e.fields| && FieldTyped(S, ClassMembers(S, e.cls)[i], x)
    ensures WellTyped(S, e.(fields := e.fields[i := x]))
  {
    hide FieldTyped;
  }

  /** Two trees that differ in one member are equal if that member is not compared, or compares equal. */
  lemma ReplacedEqual(S: Schema, rt: Runtime, e: Expr, i: nat, x: Field, y: Field)
    requires WellTyped(S, e) && SelectsPresent(S, e) && i < |e.fields|
    requires var m := ClassMembers(S, e.cls)[i]; m.Compared() ==> FieldEquals(S, rt, m.mtype, x, y)
    ensures Equals(S, rt, e.(fields := e.fields[i := x]), e.(fields := e.fields[i := y]))
  {
    hide FieldTyped, FieldEquals, FieldSelectsPresent;
    var members := S.classes[e.cls].members;
    forall j | 0 <= j < |e.base| { FieldReflexive(S, rt, S.base[j], e.base[j]); }
    forall j | 0 <= j < |e.fields| { FieldReflexive(S, rt, members[j], e.fields[j]); }
  }

  /** Equal expressions of the schema have equal hashes, under every runtime. */
  ghost predicate HashLaw(S: Schema) {
    forall rt, a, b :: WellTyped(S, a) && WellTyped(S, b) && Equals(S, rt, a, b) ==> Hash(S, rt, a) == Hash(S, rt, b)
  }

  /** A child that Equals does not look at still reaches the hash. */
  lemma UncomparedChildBreaksLaw(S: Schema, e: Expr, i: nat)
    requires WellTyped(S, e) && SelectsPresent(S, e) && i < |e.fields|
    requires ClassMembers(S, e.cls)[i].Iterable() && !ClassMembers(S, e.cls)[i].Compared()
    ensures !HashLaw(S)
  {
    var m := ClassMembers(S, e.cls)[i];
    hide WellTyped, Equals, Hash, FieldTyped, SelectsPresent, Holding, Distinguished;
    var x, y := Holding(m.mtype, e), Holding(m.mtype, Retyped(e));
    RetypedTyped(S, e);
    HoldingTyped(S, m, e);
    HoldingTyped(S, m, Retyped(e));
    ReplacedTyped(S, e, i, x);
    ReplacedTyped(S, e, i, y);
    ReplacedEqual(S, Telling(), e, i, x, y);
    HoldingDistinguished(S, m, e);
    HashTells(S, e, i, x, y);
  }

  function Entries(e: Expr): seq<MapEntry> {
    [MapEntry(0, e), MapEntry(1, Retyped(e))]
  }

  function Swapped(e: Expr): seq<MapEntry> {
    [MapEntry(1, Retyped(e)), MapEntry(0, e)]
  }

  lemma SwappedTyped(S: Schema, m: Member, e: Expr)
    requires m.mtype.ExpressionMap? && WellTyped(S, e) && SelectsPresent(S, e)
    ensures FieldTyped(S, m, Map(Entries(e))) && FieldTyped(S, m, Map(Swapped(e)))
  {
    RetypedTyped(S, e);
    hide WellTyped, SelectsPresent;
  }

  lemma SwappedEqual(S: Schema, rt: Runtime, m: Member, e: Expr)
    requires m.mtype.ExpressionMap? && WellTyped(S, e) && SelectsPresent(S, e)
    ensures FieldEquals(S, rt, m.mtype, Map(Entries(e)), Map(Swapped(e)))
  {
    RetypedTyped(S, e);
    Reflexive(S, rt, e);
    Reflexive(S, rt, Retyped(e));
    hide WellTyped, SelectsPresent, Equals, Retyped;
    FindSelf(Swapped(e), 0);
    FindSelf(Swapped(e), 1);
    assert EntryEquals(S, rt, Entries(e)[0], Swapped(e)) && EntryEquals(S, rt, Entries(e)[1], Swapped(e));
  }

  lemma SwappedHashes(S: Schema, e: Expr)
    ensures Distinguished(ChildHashes(S, Telling(), Map(Entries(e))), ChildHashes(S, Telling(), Map(Swapped(e))))
  {
    RetypedHash(S, e);
    hide Hash, Fold, Retyped, Distinguished;
    var a, b := Hash(S, Telling(), e), Hash(S, Telling(), Retyped(e));
    assert ChildHashes(S, Telling(), Map(Entries(e))) == [a, b];
    assert ChildHashes(S, Telling(), Map(Swapped(e))) == [b, a];
    SwappedDistinguished(a, b);
  }

  /** Two orders of the same map compare equal, but their children are hashed in iteration order. */
  lemma MapOrderBreaksLaw(S: Schema, e: Expr, i: nat)
    requires WellTyped(S, e) && SelectsPresent(S, e) && i < |e.fields|
    requires ClassMembers(S, e.cls)[i].Iterable() && ClassMembers(S, e.cls)[i].mtype.ExpressionMap?
    ensures !HashLaw(S)
  {
    var m := ClassMembers(S, e.cls)[i];
    hide WellTyped, Equals, Hash, SelectsPresent, Distinguished, Fold, FieldTyped, FieldEquals, ChildHashes, Entries, Swapped;
    var x, y := Map(Entries(e)), Map(Swapped(e));
    SwappedTyped(S, m, e);
    SwappedEqual(S, Telling(), m, e);
    SwappedHashes(S, e);
    ReplacedTyped(S, e, i, x);
    ReplacedTyped(S, e, i, y);
    ReplacedEqual(S, Telling(), e, i, x, y);
    HashTells(S, e, i, x, y);
  }

  lemma SwappedDistinguished(a: int, b: int)
    requires a != b
    ensures Distinguished([a, b], [b, a])
  {
    forall h ensures Fold(Telling(), h, [a, b]) != Fold(Telling(), h, [b, a]) {
      FoldTwo(h, a, b);
      FoldTwo(h, b, a);
    }
  }

  /**
   For a schema whose base Equals compares class and type, and whose classes all have instances, equal
   expressions hash alike if and only if every child member is compared and none of them is a map.
   */
  lemma HashLawCondition(S: Schema, instances: seq<Expr>)
    requires S.comparesClass && S.comparesType && |instances| == |S.classes|
    requires forall c :: 0 <= c < |S.classes| ==>
      instances[c].cls == c && WellTyped(S, instances[c]) && SelectsPresent(S, instances[c])
    ensures HashLaw(S) <==> HashConsistent(S)
  {
    hide WellTyped, Equals, Hash, SelectsPresent, HashLaw;
    if HashConsistent(S) {
      forall rt, a, b | WellTyped(S, a) && WellTyped(S, b) && Equals(S, rt, a, b)
        ensures Hash(S, rt, a) == Hash(S, rt, b)
      {
        EqualHash(S, rt, a, b);
      }
      HashLawIntro(S);
    } else {
      var c :| 0 <= c < |S.classes| && !ClassHashConsistent(S.classes[c].members);
      var members := S.classes[c].members;
      var i :| 0 <= i < |members| && members[i].Iterable() && (!members[i].Compared() || members[i].mtype.ExpressionMap?);
      TypedLength(S, instances[c]);
      if members[i].mtype.ExpressionMap? {
        MapOrderBreaksLaw(S, instances[c], i);
      } else {
        UncomparedChildBreaksLaw(S, instances[c], i);
      }
    }
  }

  lemma HashLawIntro(S: Schema)
    requires forall rt, a, b :: WellTyped(S, a) && WellTyped(S, b) && Equals(S, rt, a, b) ==> Hash(S, rt, a) == Hash(S, rt, b)
    ensures HashLaw(S)
  {
    hide WellTyped, Equals, Hash;
  }
}
