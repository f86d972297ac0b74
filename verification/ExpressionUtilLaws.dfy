/** The laws of the generated Equals, Copy and Hash, over arbitrary expression trees of any schema. */
module ExpressionUtilLaws {
  import opened Wrappers
  import opened ExpressionUtil

  // ---------------------------------------------------------------------------
  // Reflexivity, and when it fails
  // ---------------------------------------------------------------------------

  /** No compared SelectStatement pointer in the field is null. */
  predicate FieldSelectsPresent(S: Schema, x: Field)
    decreases x
  {
    match x
    case Scalar(_) => true
    case ScalarList(_) => true
    case NoModifier => true
    case Select(s) => s.Some?
    case Ptr(p) => p.Some? ==> SelectsPresent(S, p.value)
    case List(items) => forall i :: 0 <= i < |items| ==> SelectsPresent(S, items[i])
    case Modifier(orders) => forall i :: 0 <= i < |orders| ==> SelectsPresent(S, orders[i].expr)
    case Orders(nodes) => forall i :: 0 <= i < |nodes| ==> SelectsPresent(S, nodes[i].expr)
    case Cases(checks) =>
      forall i :: 0 <= i < |checks| ==> SelectsPresent(S, checks[i].whenExpr) && SelectsPresent(S, checks[i].thenExpr)
    case Args(args) => forall i :: 0 <= i < |args| ==> SelectsPresent(S, args[i].expr)
    case Map(entries) => forall i :: 0 <= i < |entries| ==> SelectsPresent(S, entries[i].expr)
  }

  predicate SelectsPresent(S: Schema, e: Expr)
    decreases e
  {
    && (forall i :: 0 <= i < |e.base| && i < |S.base| && S.base[i].Compared() ==> FieldSelectsPresent(S, e.base[i]))
    && (forall i :: 0 <= i < |e.fields| && i < |ClassMembers(S, e.cls)| && ClassMembers(S, e.cls)[i].Compared() ==>
          FieldSelectsPresent(S, e.fields[i]))
  }

  lemma {:induction false} FindSelf(entries: seq<MapEntry>, i: nat)
    requires DistinctKeys(entries) && i < |entries|
    ensures Find(entries, entries[i].key) == Some(i)
  {
    var r := Find(entries, entries[i].key);
    assert r.Some? && entries[r.value].key == entries[i].key;
  }

  lemma {:induction false} FieldReflexive(S: Schema, rt: Runtime, m: Member, x: Field)
    requires FieldTyped(S, m, x)
    ensures FieldEquals(S, rt, m.mtype, x, x) <==> FieldSelectsPresent(S, x)
    decreases x
  {
    hide Equals, WellTyped, SelectsPresent;
    match m.mtype
    case ScalarMember(_) =>
    case ScalarListMember(_) =>
    case SelectStatementPtr =>
    case ExpressionPtr => if x.p.Some? { Reflexive(S, rt, x.p.value); }
    case TypeExpressionPtr => if x.p.Some? { Reflexive(S, rt, x.p.value); }
    case ExpressionList => forall i | 0 <= i < |x.items| { Reflexive(S, rt, x.items[i]); }
    case OrderModifierPtr =>
      if x.Modifier? { forall i | 0 <= i < |x.orders| { Reflexive(S, rt, x.orders[i].expr); }
      }
    case OrderByList => forall i | 0 <= i < |x.nodes| { Reflexive(S, rt, x.nodes[i].expr); }
    case CaseCheckList =>
      forall i | 0 <= i < |x.checks|
        ensures Equals(S, rt, x.checks[i].whenExpr, x.checks[i].whenExpr) <==> SelectsPresent(S, x.checks[i].whenExpr)
        ensures Equals(S, rt, x.checks[i].thenExpr, x.checks[i].thenExpr) <==> SelectsPresent(S, x.checks[i].thenExpr)
      {
        Reflexive(S, rt, x.checks[i].whenExpr);
        Reflexive(S, rt, x.checks[i].thenExpr);
      }
    case FunctionArgumentList => forall i | 0 <= i < |x.args| { Reflexive(S, rt, x.args[i].expr); }
    case ExpressionMap =>
      forall i | 0 <= i < |x.entries|
        ensures EntryEquals(S, rt, x.entries[i], x.entries) <==> SelectsPresent(S, x.entries[i].expr)
      {
        FindSelf(x.entries, i);
        Reflexive(S, rt, x.entries[i].expr);
      }
  }

  /** Two separate, identical trees are equal if and only if no compared subquery in them is null. */
  lemma {:induction false} Reflexive(S: Schema, rt: Runtime, e: Expr)
    requires WellTyped(S, e)
    ensures Equals(S, rt, e, e) <==> SelectsPresent(S, e)
    decreases e
  {
    forall i | 0 <= i < |e.base| { FieldReflexive(S, rt, S.base[i], e.base[i]); }
    forall i | 0 <= i < |e.fields| { FieldReflexive(S, rt, S.classes[e.cls].members[i], e.fields[i]); }
  }

  /**
   The subqueries that a comparison of an object with itself looks at are present: it stops at expression
   and order modifier pointers.
   */
  predicate FieldSelectsReached(S: Schema, t: MemberType, x: Field)
    decreases x
  {
    match x
    case Select(s) => s.Some?
    case Ptr(p) => t.TypeExpressionPtr? && p.Some? ==> SelectsReached(S, p.value)
    case List(items) => forall i :: 0 <= i < |items| ==> SelectsReached(S, items[i])
    case Orders(nodes) => forall i :: 0 <= i < |nodes| ==> SelectsReached(S, nodes[i].expr)
    case Cases(checks) =>
      forall i :: 0 <= i < |checks| ==> SelectsReached(S, checks[i].whenExpr) && SelectsReached(S, checks[i].thenExpr)
    case Args(args) => forall i :: 0 <= i < |args| ==> SelectsReached(S, args[i].expr)
    case Map(entries) => forall i :: 0 <= i < |entries| ==> SelectsReached(S, entries[i].expr)
    case _ => true
  }

  predicate SelectsReached(S: Schema, e: Expr)
    decreases e
  {
    && (forall i :: 0 <= i < |e.base| && i < |S.base| && S.base[i].Compared() ==>
          FieldSelectsReached(S, S.base[i].mtype, e.base[i]))
    && (forall i :: 0 <= i < |e.fields| && i < |ClassMembers(S, e.cls)| && ClassMembers(S, e.cls)[i].Compared() ==>
          FieldSelectsReached(S, ClassMembers(S, e.cls)[i].mtype, e.fields[i]))
  }

  lemma {:induction false} FieldReflexiveObject(S: Schema, rt: Runtime, m: Member, x: Field)
    requires FieldTyped(S, m, x)
    ensures FieldSelfEquals(S, rt, m.mtype, x) <==> FieldSelectsReached(S, m.mtype, x)
    decreases x
  {
    hide Equals, SelfEquals, WellTyped, SelectsReached;
    match m.mtype
    case TypeExpressionPtr => if x.p.Some? { ReflexiveObject(S, rt, x.p.value); }
    case ExpressionList => forall i | 0 <= i < |x.items| { ReflexiveObject(S, rt, x.items[i]); }
    case OrderByList => forall i | 0 <= i < |x.nodes| { ReflexiveObject(S, rt, x.nodes[i].expr); }
    case CaseCheckList =>
      forall i | 0 <= i < |x.checks|
        ensures SelfEquals(S, rt, x.checks[i].whenExpr) <==> SelectsReached(S, x.checks[i].whenExpr)
        ensures SelfEquals(S, rt, x.checks[i].thenExpr) <==> SelectsReached(S, x.checks[i].thenExpr)
      {
        ReflexiveObject(S, rt, x.checks[i].whenExpr);
        ReflexiveObject(S, rt, x.checks[i].thenExpr);
      }
    case FunctionArgumentList => forall i | 0 <= i < |x.args| { ReflexiveObject(S, rt, x.args[i].expr); }
    case ExpressionMap =>
      forall i | 0 <= i < |x.entries|
        ensures EntrySelfEquals(S, rt, x.entries, i) <==> SelectsReached(S, x.entries[i].expr)
      {
        FindSelf(x.entries, i);
        ReflexiveObject(S, rt, x.entries[i].expr);
      }
    case _ =>
  }

  /**
   One object equals itself if and only if no compared subquery is null that the comparison reaches without
   passing an expression or order modifier pointer.
   */
  lemma {:induction false} ReflexiveObject(S: Schema, rt: Runtime, e: Expr)
    requires WellTyped(S, e)
    ensures SelfEquals(S, rt, e) <==> SelectsReached(S, e)
    decreases e
  {
    hide FieldTyped, FieldSelfEquals, FieldSelectsReached;
    forall i | 0 <= i < |e.base| { FieldReflexiveObject(S, rt, S.base[i], e.base[i]); }
    forall i | 0 <= i < |e.fields| { FieldReflexiveObject(S, rt, S.classes[e.cls].members[i], e.fields[i]); }
  }

  lemma {:induction false} FieldReachedOfPresent(S: Schema, t: MemberType, x: Field)
    requires FieldSelectsPresent(S, x)
    ensures FieldSelectsReached(S, t, x)
    decreases x
  {
    hide SelectsPresent, SelectsReached;
    match x
    case Ptr(p) => if p.Some? { ReachedOfPresent(S, p.value); }
    case List(items) => forall i | 0 <= i < |items| { ReachedOfPresent(S, items[i]); }
    case Orders(nodes) => forall i | 0 <= i < |nodes| { ReachedOfPresent(S, nodes[i].expr); }
    case Cases(checks) =>
      forall i | 0 <= i < |checks|
        ensures SelectsReached(S, checks[i].whenExpr) && SelectsReached(S, checks[i].thenExpr)
      {
        ReachedOfPresent(S, checks[i].whenExpr);
        ReachedOfPresent(S, checks[i].thenExpr);
      }
    case Args(args) => forall i | 0 <= i < |args| { ReachedOfPresent(S, args[i].expr); }
    case Map(entries) => forall i | 0 <= i < |entries| { ReachedOfPresent(S, entries[i].expr); }
    case _ =>
  }

  lemma {:induction false} ReachedOfPresent(S: Schema, e: Expr)
    requires SelectsPresent(S, e)
    ensures SelectsReached(S, e)
    decreases e
  {
    hide FieldSelectsPresent, FieldSelectsReached;
    forall i | 0 <= i < |e.base| && i < |S.base| && S.base[i].Compared() {
      FieldReachedOfPresent(S, S.base[i].mtype, e.base[i]);
    }
    var members := ClassMembers(S, e.cls);
    forall i | 0 <= i < |e.fields| && i < |members| && members[i].Compared() {
      FieldReachedOfPresent(S, members[i].mtype, e.fields[i]);
    }
  }

  /** The comparison by identity only helps: an object that equals a separate, identical tree equals itself. */
  lemma SelfEqualsIsWeaker(S: Schema, rt: Runtime, e: Expr)
    requires WellTyped(S, e) && Equals(S, rt, e, e)
    ensures SelfEquals(S, rt, e)
  {
    hide WellTyped, Equals, SelfEquals, SelectsPresent, SelectsReached;
    Reflexive(S, rt, e);
    ReachedOfPresent(S, e);
    ReflexiveObject(S, rt, e);
  }

  const QuerySchema := Schema(true, true, [], [
    ClassEntry([Member(ExpressionPtr, Existing, false, false, false, true, false)], false),
    ClassEntry([Member(SelectStatementPtr, Existing, false, false, false, false, false)], false)])

  /** A subquery expression without its statement. */
  const NullQuery := Expr(1, 0, [], [Select(None)])

  /** An expression that holds the subquery behind a pointer. */
  const QueryHolder := Expr(0, 0, [], [Ptr(Some(NullQuery))])

  lemma NullQueryFacts()
    ensures WellTyped(QuerySchema, NullQuery) && Copyable(QuerySchema, NullQuery)
    ensures !SelectsPresent(QuerySchema, NullQuery)
  {
    var m := QuerySchema.classes[1].members[0];
    assert FieldTyped(QuerySchema, m, NullQuery.fields[0]);
    assert m.Compared() && !FieldSelectsPresent(QuerySchema, NullQuery.fields[0]);
  }

  lemma HolderTyped()
    ensures WellTyped(QuerySchema, QueryHolder) && Copyable(QuerySchema, QueryHolder)
  {
    hide SelectsPresent;
    NullQueryFacts();
    var m, x := QuerySchema.classes[0].members[0], QueryHolder.fields[0];
    assert FieldTyped(QuerySchema, m, x) && FieldCopyable(QuerySchema, x);
  }

  lemma HolderLacksSelect()
    ensures !SelectsPresent(QuerySchema, QueryHolder)
  {
    NullQueryFacts();
    var m, x := QuerySchema.classes[0].members[0], QueryHolder.fields[0];
    hide WellTyped, Copyable;
    assert m.Compared() && !FieldSelectsPresent(QuerySchema, x);
  }

  /** The two laws differ: an expression with a null subquery behind a pointer equals itself, but no copy. */
  lemma NullQueryBehindPointer(rt: Runtime)
    ensures WellTyped(QuerySchema, QueryHolder) && Copyable(QuerySchema, QueryHolder)
    ensures SelfEquals(QuerySchema, rt, QueryHolder)
    ensures !Equals(QuerySchema, rt, QueryHolder, CopyOf(QuerySchema, QueryHolder))
  {
    hide WellTyped, Copyable, CopyOf, Equals, SelectsPresent;
    HolderTyped();
    HolderLacksSelect();
    CopyEquals(QuerySchema, rt, QueryHolder);
  }

  // ---------------------------------------------------------------------------
  // Symmetry
  // ---------------------------------------------------------------------------

  function Keys(entries: seq<MapEntry>): (r: set<int>) {
    set i | 0 <= i < |entries| :: entries[i].key
  }

  lemma {:induction false} KeyCount(entries: seq<MapEntry>)
    requires DistinctKeys(entries)
    ensures |Keys(entries)| == |entries|
  {
    if entries != [] {
      var n := |entries| - 1;
      KeyCount(entries[..n]);
      assert Keys(entries) == Keys(entries[..n]) + {entries[n].key};
      assert entries[n].key !in Keys(entries[..n]);
    }
  }

  lemma SubsetOfSameSize<T>(a: set<T>, b: set<T>)
    requires a <= b && |a| == |b|
    ensures a == b
  {
    assert |b - a| == |b| - |a|;
  }

  /** Same size and key inclusion give the same keys, so every key of `ys` is found in `xs`. */
  lemma KeysAgree(xs: seq<MapEntry>, ys: seq<MapEntry>)
    requires DistinctKeys(xs) && DistinctKeys(ys) && |xs| == |ys|
    requires forall i :: 0 <= i < |xs| ==> Find(ys, xs[i].key).Some?
    ensures forall j :: 0 <= j < |ys| ==> Find(xs, ys[j].key).Some?
  {
    KeyCount(xs);
    KeyCount(ys);
    forall k <- Keys(xs) ensures k in Keys(ys) {
      var i :| 0 <= i < |xs| && xs[i].key == k;
      assert ys[Find(ys, xs[i].key).value].key == k;
    }
    SubsetOfSameSize(Keys(xs), Keys(ys));
    forall j | 0 <= j < |ys| ensures Find(xs, ys[j].key).Some? {
      assert ys[j].key in Keys(xs);
      var i :| 0 <= i < |xs| && xs[i].key == ys[j].key;
    }
  }

  lemma {:induction false} FieldSymmetric(S: Schema, rt: Runtime, m: Member, x: Field, y: Field)
    requires S.comparesClass && FieldTyped(S, m, x) && FieldTyped(S, m, y)
    requires FieldEquals(S, rt, m.mtype, x, y)
    ensures FieldEquals(S, rt, m.mtype, y, x)
    decreases x, 1
  {
    hide Equals, WellTyped, EntryEquals, DistinctKeys;
    match m.mtype
    case ScalarMember(_) =>
    case ScalarListMember(_) =>
    case SelectStatementPtr =>
    case ExpressionPtr => if x.p.Some? { Symmetric(S, rt, x.p.value, y.p.value); }
    case TypeExpressionPtr => if x.p.Some? { Symmetric(S, rt, x.p.value, y.p.value); }
    case ExpressionList => forall i | 0 <= i < |x.items| { Symmetric(S, rt, x.items[i], y.items[i]); }
    case ExpressionMap =>
      MapSymmetric(S, rt, x, y);
    case _ => NodesSymmetric(S, rt, m, x, y);
  }

  lemma {:induction false} NodesSymmetric(S: Schema, rt: Runtime, m: Member, x: Field, y: Field)
    requires S.comparesClass && FieldTyped(S, m, x) && FieldTyped(S, m, y)
    requires FieldEquals(S, rt, m.mtype, x, y)
    requires m.mtype.OrderModifierPtr? || m.mtype.OrderByList? || m.mtype.CaseCheckList? || m.mtype.FunctionArgumentList?
    ensures FieldEquals(S, rt, m.mtype, y, x)
    decreases x, 0
  {
    hide Equals, WellTyped, EntryEquals, DistinctKeys;
    match m.mtype
    case OrderModifierPtr =>
      if x.Modifier? { forall i | 0 <= i < |x.orders| { Symmetric(S, rt, x.orders[i].expr, y.orders[i].expr); }
      }
    case OrderByList => forall i | 0 <= i < |x.nodes| { Symmetric(S, rt, x.nodes[i].expr, y.nodes[i].expr); }
    case CaseCheckList =>
      forall i | 0 <= i < |x.checks|
        ensures Equals(S, rt, y.checks[i].whenExpr, x.checks[i].whenExpr)
        ensures Equals(S, rt, y.checks[i].thenExpr, x.checks[i].thenExpr)
      {
        Symmetric(S, rt, x.checks[i].whenExpr, y.checks[i].whenExpr);
        Symmetric(S, rt, x.checks[i].thenExpr, y.checks[i].thenExpr);
      }
    case FunctionArgumentList => forall i | 0 <= i < |x.args| { Symmetric(S, rt, x.args[i].expr, y.args[i].expr); }
    case _ =>
  }

  lemma {:induction false} MapSymmetric(S: Schema, rt: Runtime, x: Field, y: Field)
    requires S.comparesClass && x.Map? && y.Map? && |x.entries| == |y.entries|
    requires DistinctKeys(x.entries) && DistinctKeys(y.entries)
    requires forall i :: 0 <= i < |x.entries| ==> WellTyped(S, x.entries[i].expr)
    requires forall i :: 0 <= i < |y.entries| ==> WellTyped(S, y.entries[i].expr)
    requires forall i :: 0 <= i < |x.entries| ==> EntryEquals(S, rt, x.entries[i], y.entries)
    ensures forall j :: 0 <= j < |y.entries| ==> EntryEquals(S, rt, y.entries[j], x.entries)
    decreases x, 0
  {
    hide Equals, WellTyped;
    forall i | 0 <= i < |x.entries| ensures Find(y.entries, x.entries[i].key).Some? {
      assert EntryEquals(S, rt, x.entries[i], y.entries);
    }
    KeysAgree(x.entries, y.entries);
    forall j | 0 <= j < |y.entries| ensures EntryEquals(S, rt, y.entries[j], x.entries) {
      var i := Find(x.entries, y.entries[j].key).value;
      FindSelf(y.entries, j);
      assert EntryEquals(S, rt, x.entries[i], y.entries);
      Symmetric(S, rt, x.entries[i].expr, y.entries[j].expr);
    }
  }

  lemma {:induction false} Symmetric(S: Schema, rt: Runtime, a: Expr, b: Expr)
    requires S.comparesClass && WellTyped(S, a) && WellTyped(S, b)
    requires Equals(S, rt, a, b)
    ensures Equals(S, rt, b, a)
    decreases a
  {
    forall i | 0 <= i < |a.base| && S.base[i].Compared() {
      FieldSymmetric(S, rt, S.base[i], a.base[i], b.base[i]);
    }
    var members := S.classes[a.cls].members;
    forall i | 0 <= i < |a.fields| && members[i].Compared() {
      FieldSymmetric(S, rt, members[i], a.fields[i], b.fields[i]);
    }
  }

  // ---------------------------------------------------------------------------
  // Transitivity
  // ---------------------------------------------------------------------------

  lemma {:induction false} FieldTransitive(S: Schema, rt: Runtime, m: Member, x: Field, y: Field, z: Field)
    requires S.comparesClass && FieldTyped(S, m, x) && FieldTyped(S, m, y) && FieldTyped(S, m, z)
    requires FieldEquals(S, rt, m.mtype, x, y) && FieldEquals(S, rt, m.mtype, y, z)
    ensures FieldEquals(S, rt, m.mtype, x, z)
    decreases x, 1
  {
    hide Equals, WellTyped, EntryEquals, DistinctKeys;
    match m.mtype
    case ScalarMember(_) =>
    case ScalarListMember(_) =>
    case SelectStatementPtr =>
    case ExpressionPtr => if x.p.Some? { Transitive(S, rt, x.p.value, y.p.value, z.p.value); }
    case TypeExpressionPtr => if x.p.Some? { Transitive(S, rt, x.p.value, y.p.value, z.p.value); }
    case ExpressionList => forall i | 0 <= i < |x.items| { Transitive(S, rt, x.items[i], y.items[i], z.items[i]); }
    case ExpressionMap =>
      MapTransitive(S, rt, x, y, z);
    case _ => NodesTransitive(S, rt, m, x, y, z);
  }

  lemma {:induction false} NodesTransitive(S: Schema, rt: Runtime, m: Member, x: Field, y: Field, z: Field)
    requires S.comparesClass && FieldTyped(S, m, x) && FieldTyped(S, m, y) && FieldTyped(S, m, z)
    requires FieldEquals(S, rt, m.mtype, x, y) && FieldEquals(S, rt, m.mtype, y, z)
    requires m.mtype.OrderModifierPtr? || m.mtype.OrderByList? || m.mtype.CaseCheckList? || m.mtype.FunctionArgumentList?
    ensures FieldEquals(S, rt, m.mtype, x, z)
    decreases x, 0
  {
    hide Equals, WellTyped, EntryEquals, DistinctKeys;
    match m.mtype
    case OrderModifierPtr =>
      if x.Modifier? {
        forall i | 0 <= i < |x.orders| { Transitive(S, rt, x.orders[i].expr, y.orders[i].expr, z.orders[i].expr); }
      }
    case OrderByList =>
      forall i | 0 <= i < |x.nodes| { Transitive(S, rt, x.nodes[i].expr, y.nodes[i].expr, z.nodes[i].expr); }
    case CaseCheckList =>
      forall i | 0 <= i < |x.checks|
        ensures Equals(S, rt, x.checks[i].whenExpr, z.checks[i].whenExpr)
        ensures Equals(S, rt, x.checks[i].thenExpr, z.checks[i].thenExpr)
      {
        Transitive(S, rt, x.checks[i].whenExpr, y.checks[i].whenExpr, z.checks[i].whenExpr);
        Transitive(S, rt, x.checks[i].thenExpr, y.checks[i].thenExpr, z.checks[i].thenExpr);
      }
    case FunctionArgumentList =>
      forall i | 0 <= i < |x.args| { Transitive(S, rt, x.args[i].expr, y.args[i].expr, z.args[i].expr); }
    case _ =>
  }

  lemma {:induction false} MapTransitive(S: Schema, rt: Runtime, x: Field, y: Field, z: Field)
    requires S.comparesClass && x.Map? && y.Map? && z.Map?
    requires forall i :: 0 <= i < |x.entries| ==> WellTyped(S, x.entries[i].expr)
    requires forall i :: 0 <= i < |y.entries| ==> WellTyped(S, y.entries[i].expr)
    requires forall i :: 0 <= i < |z.entries| ==> WellTyped(S, z.entries[i].expr)
    requires forall i :: 0 <= i < |x.entries| ==> EntryEquals(S, rt, x.entries[i], y.entries)
    requires forall i :: 0 <= i < |y.entries| ==> EntryEquals(S, rt, y.entries[i], z.entries)
    ensures forall i :: 0 <= i < |x.entries| ==> EntryEquals(S, rt, x.entries[i], z.entries)
    decreases x, 0
  {
    hide Equals, WellTyped;
    forall i | 0 <= i < |x.entries| ensures EntryEquals(S, rt, x.entries[i], z.entries) {
      assert EntryEquals(S, rt, x.entries[i], y.entries);
      var j := Find(y.entries, x.entries[i].key).value;
      assert EntryEquals(S, rt, y.entries[j], z.entries);
      var k := Find(z.entries, x.entries[i].key).value;
      Transitive(S, rt, x.entries[i].expr, y.entries[j].expr, z.entries[k].expr);
    }
  }

  lemma {:induction false} Transitive(S: Schema, rt: Runtime, a: Expr, b: Expr, c: Expr)
    requires S.comparesClass && WellTyped(S, a) && WellTyped(S, b) && WellTyped(S, c)
    requires Equals(S, rt, a, b) && Equals(S, rt, b, c)
    ensures Equals(S, rt, a, c)
    decreases a
  {
    forall i | 0 <= i < |a.base| && S.base[i].Compared() {
      FieldTransitive(S, rt, S.base[i], a.base[i], b.base[i], c.base[i]);
    }
    var members := S.classes[a.cls].members;
    forall i | 0 <= i < |a.fields| && members[i].Compared() {
      FieldTransitive(S, rt, members[i], a.fields[i], b.fields[i], c.fields[i]);
    }
  }

  // ---------------------------------------------------------------------------
  // Copy
  // ---------------------------------------------------------------------------

  lemma {:induction false} FieldCopyEquals(S: Schema, rt: Runtime, m: Member, x: Field)
    requires FieldTyped(S, m, x) && FieldCopyable(S, x)
    ensures FieldEquals(S, rt, m.mtype, x, FieldCopy(S, x)) <==> FieldSelectsPresent(S, x)
    decreases x, 1
  {
    hide Equals, WellTyped, SelectsPresent, Copyable, CopyOf, EntryEquals, DistinctKeys;
    match x
    case Scalar(_) =>
    case ScalarList(_) =>
    case NoModifier =>
    case Select(_) =>
    case Ptr(p) => if p.Some? { CopyEquals(S, rt, p.value); }
    case List(items) => forall i | 0 <= i < |items| { CopyEquals(S, rt, items[i]); }
    case Map(entries) => MapCopyEquals(S, rt, m, x);
    case _ => NodesCopyEquals(S, rt, m, x);
  }

  lemma {:induction false} NodesCopyEquals(S: Schema, rt: Runtime, m: Member, x: Field)
    requires FieldTyped(S, m, x) && FieldCopyable(S, x)
    requires x.Modifier? || x.Orders? || x.Cases? || x.Args?
    ensures FieldEquals(S, rt, m.mtype, x, FieldCopy(S, x)) <==> FieldSelectsPresent(S, x)
    decreases x, 0
  {
    hide Equals, WellTyped, SelectsPresent, Copyable, CopyOf, EntryEquals, DistinctKeys;
    match x
    case Modifier(orders) => forall i | 0 <= i < |orders| { CopyEquals(S, rt, orders[i].expr); }
    case Orders(nodes) => forall i | 0 <= i < |nodes| { CopyEquals(S, rt, nodes[i].expr); }
    case Cases(checks) =>
      forall i | 0 <= i < |checks|
        ensures Equals(S, rt, checks[i].whenExpr, CopyOf(S, checks[i].whenExpr)) <==> SelectsPresent(S, checks[i].whenExpr)
        ensures Equals(S, rt, checks[i].thenExpr, CopyOf(S, checks[i].thenExpr)) <==> SelectsPresent(S, checks[i].thenExpr)
      {
        CopyEquals(S, rt, checks[i].whenExpr);
        CopyEquals(S, rt, checks[i].thenExpr);
      }
    case Args(args) => forall i | 0 <= i < |args| { CopyEquals(S, rt, args[i].expr); }
    case _ =>
  }

  lemma {:induction false} MapCopyEquals(S: Schema, rt: Runtime, m: Member, x: Field)
    requires FieldTyped(S, m, x) && FieldCopyable(S, x) && x.Map?
    ensures FieldEquals(S, rt, m.mtype, x, FieldCopy(S, x)) <==> FieldSelectsPresent(S, x)
    decreases x, 0
  {
    hide Equals, WellTyped, SelectsPresent, Copyable, CopyOf;
    var entries, copies := x.entries, FieldCopy(S, x).entries;
    assert DistinctKeys(copies);
    forall i | 0 <= i < |entries|
      ensures EntryEquals(S, rt, entries[i], copies) <==> SelectsPresent(S, entries[i].expr)
    {
      FindSelf(copies, i);
      CopyEquals(S, rt, entries[i].expr);
    }
    hide EntryEquals, DistinctKeys;
  }

  /** A copy equals its original, unless a compared subquery in it is null. */
  lemma {:induction false} CopyEquals(S: Schema, rt: Runtime, e: Expr)
    requires WellTyped(S, e) && Copyable(S, e)
    ensures Equals(S, rt, e, CopyOf(S, e)) <==> SelectsPresent(S, e)
    decreases e
  {
    hide FieldEquals, FieldCopy, FieldCopyable, FieldTyped, FieldSelectsPresent;
    var members := S.classes[e.cls].members;
    forall i | 0 <= i < |e.base| { FieldReflexive(S, rt, S.base[i], e.base[i]); }
    forall i | 0 <= i < |e.fields| && members[i].Compared()
      ensures FieldEquals(S, rt, members[i].mtype, e.fields[i], CopyOf(S, e).fields[i]) <==>
        FieldSelectsPresent(S, e.fields[i])
    {
      FieldCopyEquals(S, rt, members[i], e.fields[i]);
    }
  }

  /** No member is left out by Copy. */
  predicate CopiesEverything(S: Schema) {
    && (forall i :: 0 <= i < |S.base| ==> S.base[i].Copied())
    && (forall c :: 0 <= c < |S.classes| ==>
          forall i :: 0 <= i < |S.classes[c].members| ==> S.classes[c].members[i].Copied())
  }

  lemma {:induction false} FieldCopyIsSame(S: Schema, m: Member, x: Field)
    requires CopiesEverything(S) && FieldTyped(S, m, x) && FieldCopyable(S, x)
    ensures FieldCopy(S, x) == x
    decreases x
  {
    hide WellTyped, Copyable, CopyOf;
    match x
    case Scalar(_) =>
    case ScalarList(_) =>
    case NoModifier =>
    case Select(_) =>
    case Ptr(p) => if p.Some? { CopyIsSame(S, p.value); }
    case List(items) => forall i | 0 <= i < |items| { CopyIsSame(S, items[i]); }
    case Modifier(orders) => forall i | 0 <= i < |orders| { CopyIsSame(S, orders[i].expr); }
    case Orders(nodes) => forall i | 0 <= i < |nodes| { CopyIsSame(S, nodes[i].expr); }
    case Cases(checks) =>
      forall i | 0 <= i < |checks|
        ensures CopyOf(S, checks[i].whenExpr) == checks[i].whenExpr && CopyOf(S, checks[i].thenExpr) == checks[i].thenExpr
      {
        CopyIsSame(S, checks[i].whenExpr);
        CopyIsSame(S, checks[i].thenExpr);
      }
    case Args(args) => forall i | 0 <= i < |args| { CopyIsSame(S, args[i].expr); }
    case Map(entries) => forall i | 0 <= i < |entries| { CopyIsSame(S, entries[i].expr); }
  }

  /** When no member is left out, the copy is the very same tree, member by member at every depth. */
  lemma {:induction false} CopyIsSame(S: Schema, e: Expr)
    requires CopiesEverything(S) && WellTyped(S, e) && Copyable(S, e)
    ensures CopyOf(S, e) == e
    decreases e
  {
    hide FieldCopy, FieldCopyable, FieldTyped;
    var members := S.classes[e.cls].members;
    forall i | 0 <= i < |e.fields| ensures CopyOf(S, e).fields[i] == e.fields[i] {
      FieldCopyIsSame(S, members[i], e.fields[i]);
    }
  }

  /** Copy throws exactly when it reaches a transient class; otherwise the laws above hold of what it returns. */
  lemma CopyLaws(S: Schema, rt: Runtime, e: Expr)
    requires WellTyped(S, e)
    ensures Copy(S, e) == Err(TransientExpression) <==> !Copyable(S, e)
    ensures Copy(S, e).Ok? ==> (Equals(S, rt, e, Copy(S, e).value) <==> SelectsPresent(S, e))
    ensures Copy(S, e).Ok? && CopiesEverything(S) ==> Copy(S, e).value == e
  {
    if Copyable(S, e) {
      CopyEquals(S, rt, e);
      if CopiesEverything(S) {
        CopyIsSame(S, e);
      }
    }
  }

  // ---------------------------------------------------------------------------
  // Hash
  // ---------------------------------------------------------------------------

  /** Whatever reaches the hash is determined by what Equals compares. */
  predicate HashConsistent(S: Schema) {
    forall c :: 0 <= c < |S.classes| ==> ClassHashConsistent(S.classes[c].members)
  }

  predicate ClassHashConsistent(members: seq<Member>) {
    forall i :: 0 <= i < |members| && members[i].Iterable() ==> members[i].Compared() && !members[i].mtype.ExpressionMap?
  }

  lemma {:induction false} FieldHash(S: Schema, rt: Runtime, m: Member, x: Field, y: Field)
    requires S.comparesClass && S.comparesType && HashConsistent(S) && !m.mtype.ExpressionMap?
    requires FieldTyped(S, m, x) && FieldTyped(S, m, y) && FieldEquals(S, rt, m.mtype, x, y)
    ensures ChildHashes(S, rt, x) == ChildHashes(S, rt, y)
    ensures MemberHashes(S, rt, m.mtype, x) == MemberHashes(S, rt, m.mtype, y)
    decreases x, 1
  {
    hide Equals, WellTyped, Hash, HashConsistent;
    match m.mtype
    case ScalarMember(_) =>
    case ScalarListMember(_) =>
    case SelectStatementPtr =>
    case ExpressionPtr => if x.p.Some? { EqualHash(S, rt, x.p.value, y.p.value); }
    case TypeExpressionPtr => if x.p.Some? { EqualHash(S, rt, x.p.value, y.p.value); }
    case ExpressionList => forall i | 0 <= i < |x.items| { EqualHash(S, rt, x.items[i], y.items[i]); }
    case OrderModifierPtr | OrderByList | CaseCheckList | FunctionArgumentList => NodesHash(S, rt, m, x, y);
  }

  lemma {:induction false} NodesHash(S: Schema, rt: Runtime, m: Member, x: Field, y: Field)
    requires S.comparesClass && S.comparesType && HashConsistent(S)
    requires FieldTyped(S, m, x) && FieldTyped(S, m, y) && FieldEquals(S, rt, m.mtype, x, y)
    requires m.mtype.OrderModifierPtr? || m.mtype.OrderByList? || m.mtype.CaseCheckList? || m.mtype.FunctionArgumentList?
    ensures ChildHashes(S, rt, x) == ChildHashes(S, rt, y)
    ensures MemberHashes(S, rt, m.mtype, x) == MemberHashes(S, rt, m.mtype, y)
    decreases x, 0
  {
    hide Equals, WellTyped, Hash, HashConsistent;
    match m.mtype
    case OrderModifierPtr =>
      if x.Modifier? {
        forall i | 0 <= i < |x.orders| { EqualHash(S, rt, x.orders[i].expr, y.orders[i].expr); }
      }
    case OrderByList => forall i | 0 <= i < |x.nodes| { EqualHash(S, rt, x.nodes[i].expr, y.nodes[i].expr); }
    case CaseCheckList =>
      forall i | 0 <= i < |x.checks|
        ensures Hash(S, rt, x.checks[i].whenExpr) == Hash(S, rt, y.checks[i].whenExpr)
        ensures Hash(S, rt, x.checks[i].thenExpr) == Hash(S, rt, y.checks[i].thenExpr)
      {
        EqualHash(S, rt, x.checks[i].whenExpr, y.checks[i].whenExpr);
        EqualHash(S, rt, x.checks[i].thenExpr, y.checks[i].thenExpr);
      }
    case FunctionArgumentList => forall i | 0 <= i < |x.args| { EqualHash(S, rt, x.args[i].expr, y.args[i].expr); }
    case _ =>
  }

  lemma {:induction false} ListsEqual(S: Schema, rt: Runtime, a: Expr, b: Expr, n: nat)
    requires S.comparesClass && S.comparesType && HashConsistent(S)
    requires WellTyped(S, a) && WellTyped(S, b) && Equals(S, rt, a, b)
    requires n <= |ClassMembers(S, a.cls)|
    ensures ChildrenUpTo(S, rt, a, ClassMembers(S, a.cls), n) == ChildrenUpTo(S, rt, b, ClassMembers(S, a.cls), n)
    ensures MembersUpTo(S, rt, a, ClassMembers(S, a.cls), n) == MembersUpTo(S, rt, b, ClassMembers(S, a.cls), n)
    decreases a, n
  {
    hide FieldTyped, FieldEquals, ChildHashes, MemberHashes;
    if n > 0 {
      ListsEqual(S, rt, a, b, n - 1);
      var m := ClassMembers(S, a.cls)[n - 1];
      if m.Iterable() || m.Hashed() {
        FieldHash(S, rt, m, a.fields[n - 1], b.fields[n - 1]);
      }
    }
  }

  /** Equal expressions have equal hashes. */
  lemma {:induction false} EqualHash(S: Schema, rt: Runtime, a: Expr, b: Expr)
    requires S.comparesClass && S.comparesType && HashConsistent(S)
    requires WellTyped(S, a) && WellTyped(S, b) && Equals(S, rt, a, b)
    ensures Hash(S, rt, a) == Hash(S, rt, b)
    decreases a, |ClassMembers(S, a.cls)| + 1
  {
    hide ChildrenUpTo, MembersUpTo, FieldEquals;
    ListsEqual(S, rt, a, b, |ClassMembers(S, a.cls)|);
  }
}
