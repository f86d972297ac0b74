/**
 The compiler of Equals, Hash and Copy for parsed expressions.

 A schema lists the members of every expression class.  The generators below pick, member by member, what
 the generated Equals, Hash and Copy do; the rest of the module gives the meaning of that code on trees.
 */
module ExpressionUtil {
  import opened Wrappers

  datatype MemberType =
    | ScalarMember(kind: nat)      // bool, idx_t, enums, string, Identifier, Value, LogicalType, ...
    | ScalarListMember(kind: nat)  // vector<Identifier>
    | ExpressionPtr
    | ExpressionList
    | TypeExpressionPtr
    | SelectStatementPtr
    | OrderModifierPtr
    | OrderByList
    | CaseCheckList
    | FunctionArgumentList
    | ExpressionMap

  datatype Status = Existing | ReadOnly | Deleted

  datatype Member = Member(
    mtype: MemberType,
    status: Status,
    equalsSkip: bool,
    hashSkip: bool,
    hasSerializeProperty: bool,
    accessor: bool,
    nullable: bool)
  {
    predicate Compared() {
      !equalsSkip && status == Existing
    }

    /** Synthetic serialization views alias a field that is handled elsewhere. */
    predicate Copied() {
      status == Existing && !(hasSerializeProperty && equalsSkip)
    }

    /** Members whose children are visited; an argument list is only reached through its accessor. */
    predicate Iterable() {
      && status == Existing && !(hasSerializeProperty && equalsSkip)
      && (mtype.ExpressionPtr? || mtype.ExpressionList? || mtype.CaseCheckList? || mtype.OrderByList? ||
          (mtype.FunctionArgumentList? && accessor) || mtype.ExpressionMap? || mtype.OrderModifierPtr?)
    }

    /** Members that contribute to the hash besides being children. */
    predicate Hashed() {
      && Compared() && !hashSkip
      && (mtype.ScalarMember? || mtype.ScalarListMember? || mtype.TypeExpressionPtr? || mtype.OrderByList?)
    }
  }

  datatype ClassEntry = ClassEntry(members: seq<Member>, transient: bool)

  /** The base class always has an expression class and a type, and members of its own. */
  datatype Schema = Schema(comparesClass: bool, comparesType: bool, base: seq<Member>, classes: seq<ClassEntry>)

  // ---------------------------------------------------------------------------
  // Expression trees
  // ---------------------------------------------------------------------------

  datatype OrderNode = OrderNode(order: int, nullOrder: int, expr: Expr)

  datatype CaseCheck = CaseCheck(whenExpr: Expr, thenExpr: Expr)

  datatype Argument = Argument(name: int, expr: Expr)

  /** A map entry; the keys of a map are in iteration order and distinct. */
  datatype MapEntry = MapEntry(key: int, expr: Expr)

  datatype Field =
    | Scalar(v: int)
    | ScalarList(vs: seq<int>)
    | Ptr(p: Option<Expr>)
    | List(items: seq<Expr>)
    | Select(s: Option<int>)
    | NoModifier
    | Modifier(orders: seq<OrderNode>)
    | Orders(nodes: seq<OrderNode>)
    | Cases(checks: seq<CaseCheck>)
    | Args(args: seq<Argument>)
    | Map(entries: seq<MapEntry>)

  datatype Expr = Expr(cls: nat, typ: int, base: seq<Field>, fields: seq<Field>)

  /**
   The runtime under the generated code: scalars of a kind are equal when `norm` identifies them, and the
   hash of a scalar depends on its normal form only.
   */
  datatype Runtime = Runtime(norm: (nat, int) -> int, hash: int -> int, combine: (int, int) -> int)

  /** The keys of a map are distinct. */
  predicate DistinctKeys(entries: seq<MapEntry>) {
    forall i, j :: 0 <= i < j < |entries| ==> entries[i].key != entries[j].key
  }

  predicate FieldTyped(S: Schema, m: Member, x: Field)
    decreases x
  {
    match m.mtype
    case ScalarMember(_) => x.Scalar?
    case ScalarListMember(_) => x.ScalarList?
    case ExpressionPtr =>
      x.Ptr? && (m.accessor && !m.nullable ==> x.p.Some?) && (x.p.Some? ==> WellTyped(S, x.p.value))
    case ExpressionList => x.List? && forall i :: 0 <= i < |x.items| ==> WellTyped(S, x.items[i])
    case TypeExpressionPtr => x.Ptr? && (x.p.Some? ==> WellTyped(S, x.p.value))
    case SelectStatementPtr => x.Select?
    case OrderModifierPtr =>
      x.NoModifier? || (x.Modifier? && forall i :: 0 <= i < |x.orders| ==> WellTyped(S, x.orders[i].expr))
    case OrderByList => x.Orders? && forall i :: 0 <= i < |x.nodes| ==> WellTyped(S, x.nodes[i].expr)
    case CaseCheckList =>
      x.Cases? && forall i :: 0 <= i < |x.checks| ==>
        WellTyped(S, x.checks[i].whenExpr) && WellTyped(S, x.checks[i].thenExpr)
    case FunctionArgumentList => x.Args? && forall i :: 0 <= i < |x.args| ==> WellTyped(S, x.args[i].expr)
    case ExpressionMap =>
      x.Map? && DistinctKeys(x.entries) && forall i :: 0 <= i < |x.entries| ==> WellTyped(S, x.entries[i].expr)
  }

  /** The fields of the tree are those that the schema gives its classes. */
  predicate WellTyped(S: Schema, e: Expr)
    decreases e
  {
    && e.cls < |S.classes|
    && |e.base| == |S.base|
    && |e.fields| == |S.classes[e.cls].members|
    && (forall i :: 0 <= i < |e.base| ==> FieldTyped(S, S.base[i], e.base[i]))
    && (forall i :: 0 <= i < |e.fields| ==> FieldTyped(S, S.classes[e.cls].members[i], e.fields[i]))
  }

  // ---------------------------------------------------------------------------
  // Equals
  // ---------------------------------------------------------------------------

  function Find(entries: seq<MapEntry>, key: int): (r: Option<nat>)
    ensures r.Some? ==> r.value < |entries| && entries[r.value].key == key
    ensures r.None? ==> forall i :: 0 <= i < |entries| ==> entries[i].key != key
  {
    if entries == [] then None
    else if entries[0].key == key then Some(0)
    else
      var rest := Find(entries[1..], key);
      if rest.Some? then
        assert entries[1..][rest.value] == entries[rest.value + 1];
        Some(rest.value + 1)
      else
        assert forall i :: 0 < i < |entries| ==> entries[i] == entries[1..][i - 1];
        None
  }

  /** The generated comparison of one member. */
  predicate FieldEquals(S: Schema, rt: Runtime, t: MemberType, x: Field, y: Field)
    decreases x
  {
    match t
    case ScalarMember(kind) => x.Scalar? && y.Scalar? && rt.norm(kind, x.v) == rt.norm(kind, y.v)
    case ScalarListMember(kind) =>
      x.ScalarList? && y.ScalarList? && |x.vs| == |y.vs| &&
      forall i :: 0 <= i < |x.vs| ==> rt.norm(kind, x.vs[i]) == rt.norm(kind, y.vs[i])
    case ExpressionPtr => x.Ptr? && y.Ptr? && PtrEquals(S, rt, x, y)
    case TypeExpressionPtr => x.Ptr? && y.Ptr? && PtrEquals(S, rt, x, y)
    case ExpressionList =>
      x.List? && y.List? && |x.items| == |y.items| &&
      forall i :: 0 <= i < |x.items| ==> Equals(S, rt, x.items[i], y.items[i])
    case SelectStatementPtr =>
      x.Select? && y.Select? && x.s.Some? && y.s.Some? && rt.norm(0, x.s.value) == rt.norm(0, y.s.value)
    case OrderModifierPtr =>
      (x.NoModifier? && y.NoModifier?) ||
      (x.Modifier? && y.Modifier? && |x.orders| == |y.orders| &&
       forall i :: 0 <= i < |x.orders| ==>
         x.orders[i].order == y.orders[i].order && Equals(S, rt, x.orders[i].expr, y.orders[i].expr))
    case OrderByList =>
      x.Orders? && y.Orders? && |x.nodes| == |y.nodes| &&
      forall i :: 0 <= i < |x.nodes| ==>
        && x.nodes[i].order == y.nodes[i].order && x.nodes[i].nullOrder == y.nodes[i].nullOrder
        && Equals(S, rt, x.nodes[i].expr, y.nodes[i].expr)
    case CaseCheckList =>
      x.Cases? && y.Cases? && |x.checks| == |y.checks| &&
      forall i :: 0 <= i < |x.checks| ==>
        && Equals(S, rt, x.checks[i].whenExpr, y.checks[i].whenExpr)
        && Equals(S, rt, x.checks[i].thenExpr, y.checks[i].thenExpr)
    case FunctionArgumentList =>
      x.Args? && y.Args? && |x.args| == |y.args| &&
      forall i :: 0 <= i < |x.args| ==>
        rt.norm(0, x.args[i].name) == rt.norm(0, y.args[i].name) && Equals(S, rt, x.args[i].expr, y.args[i].expr)
    case ExpressionMap =>
      x.Map? && y.Map? && |x.entries| == |y.entries| &&
      forall i :: 0 <= i < |x.entries| ==> EntryEquals(S, rt, x.entries[i], y.entries)
  }

  predicate PtrEquals(S: Schema, rt: Runtime, x: Field, y: Field)
    requires x.Ptr? && y.Ptr?
    decreases x, 0
  {
    x.p.Some? == y.p.Some? && (x.p.Some? ==> Equals(S, rt, x.p.value, y.p.value))
  }

  predicate EntryEquals(S: Schema, rt: Runtime, entry: MapEntry, entries: seq<MapEntry>)
    decreases entry
  {
    var other := Find(entries, entry.key);
    other.Some? && Equals(S, rt, entry.expr, entries[other.value].expr)
  }

  /** The virtual Equals of the class of `a`. */
  predicate Equals(S: Schema, rt: Runtime, a: Expr, b: Expr)
    decreases a
  {
    && (S.comparesClass ==> a.cls == b.cls)
    && (S.comparesType ==> a.typ == b.typ)
    && (forall i :: 0 <= i < |S.base| && i < |a.base| && S.base[i].Compared() ==>
          i < |b.base| && FieldEquals(S, rt, S.base[i].mtype, a.base[i], b.base[i]))
    && a.cls < |S.classes|
    && (forall i :: 0 <= i < |S.classes[a.cls].members| && i < |a.fields| && S.classes[a.cls].members[i].Compared() ==>
          i < |b.fields| && FieldEquals(S, rt, S.classes[a.cls].members[i].mtype, a.fields[i], b.fields[i]))
  }

  // ---------------------------------------------------------------------------
  // Equals of one object with itself
  // ---------------------------------------------------------------------------

  /**
   The generated comparison of one member when both operands are the same object.  Expression and order
   modifier pointers are compared by identity first; every other member is compared as usual.
   */
  predicate FieldSelfEquals(S: Schema, rt: Runtime, t: MemberType, x: Field)
    decreases x
  {
    match t
    case ExpressionPtr => x.Ptr?
    case OrderModifierPtr => x.NoModifier? || x.Modifier?
    case TypeExpressionPtr => x.Ptr? && (x.p.Some? ==> SelfEquals(S, rt, x.p.value))
    case ExpressionList => x.List? && forall i :: 0 <= i < |x.items| ==> SelfEquals(S, rt, x.items[i])
    case OrderByList => x.Orders? && forall i :: 0 <= i < |x.nodes| ==> SelfEquals(S, rt, x.nodes[i].expr)
    case CaseCheckList =>
      x.Cases? && forall i :: 0 <= i < |x.checks| ==>
        SelfEquals(S, rt, x.checks[i].whenExpr) && SelfEquals(S, rt, x.checks[i].thenExpr)
    case FunctionArgumentList => x.Args? && forall i :: 0 <= i < |x.args| ==> SelfEquals(S, rt, x.args[i].expr)
    case ExpressionMap => x.Map? && forall i :: 0 <= i < |x.entries| ==> EntrySelfEquals(S, rt, x.entries, i)
    case _ => FieldEquals(S, rt, t, x, x)
  }

  /** The value found under the key of an entry is the value of that entry, or another object. */
  predicate EntrySelfEquals(S: Schema, rt: Runtime, entries: seq<MapEntry>, i: nat)
    requires i < |entries|
    decreases entries[i]
  {
    var other := Find(entries, entries[i].key);
    && other.Some?
    && if other.value == i then SelfEquals(S, rt, entries[i].expr)
       else Equals(S, rt, entries[i].expr, entries[other.value].expr)
  }

  /** The virtual Equals of `e` called with `e` itself. */
  predicate SelfEquals(S: Schema, rt: Runtime, e: Expr)
    decreases e
  {
    && (forall i :: 0 <= i < |S.base| && i < |e.base| && S.base[i].Compared() ==>
          FieldSelfEquals(S, rt, S.base[i].mtype, e.base[i]))
    && e.cls < |S.classes|
    && (forall i :: 0 <= i < |S.classes[e.cls].members| && i < |e.fields| && S.classes[e.cls].members[i].Compared() ==>
          FieldSelfEquals(S, rt, S.classes[e.cls].members[i].mtype, e.fields[i]))
  }

  // ---------------------------------------------------------------------------
  // Copy
  // ---------------------------------------------------------------------------

  /** What a default-constructed expression holds in a member that Copy leaves out. */
  function DefaultField(t: MemberType): Field {
    match t
    case ScalarMember(_) => Scalar(0)
    case ScalarListMember(_) => ScalarList([])
    case ExpressionPtr => Ptr(None)
    case TypeExpressionPtr => Ptr(None)
    case ExpressionList => List([])
    case SelectStatementPtr => Select(None)
    case OrderModifierPtr => NoModifier
    case OrderByList => Orders([])
    case CaseCheckList => Cases([])
    case FunctionArgumentList => Args([])
    case ExpressionMap => Map([])
  }

  predicate FieldCopyable(S: Schema, x: Field)
    decreases x
  {
    match x
    case Scalar(_) => true
    case ScalarList(_) => true
    case Select(_) => true
    case NoModifier => true
    case Ptr(p) => p.Some? ==> Copyable(S, p.value)
    case List(items) => forall i :: 0 <= i < |items| ==> Copyable(S, items[i])
    case Modifier(orders) => forall i :: 0 <= i < |orders| ==> Copyable(S, orders[i].expr)
    case Orders(nodes) => forall i :: 0 <= i < |nodes| ==> Copyable(S, nodes[i].expr)
    case Cases(checks) =>
      forall i :: 0 <= i < |checks| ==> Copyable(S, checks[i].whenExpr) && Copyable(S, checks[i].thenExpr)
    case Args(args) => forall i :: 0 <= i < |args| ==> Copyable(S, args[i].expr)
    case Map(entries) => forall i :: 0 <= i < |entries| ==> Copyable(S, entries[i].expr)
  }

  /** Copy throws when it reaches an expression of a transient class. */
  predicate Copyable(S: Schema, e: Expr)
    decreases e
  {
    && e.cls < |S.classes| && !S.classes[e.cls].transient
    && forall i :: 0 <= i < |e.fields| && i < |S.classes[e.cls].members| && S.classes[e.cls].members[i].Copied() ==>
         FieldCopyable(S, e.fields[i])
  }

  function FieldCopy(S: Schema, x: Field): Field
    requires FieldCopyable(S, x)
    decreases x
  {
    match x
    case Scalar(_) => x
    case ScalarList(_) => x
    case Select(_) => x
    case NoModifier => x
    case Ptr(p) => if p.Some? then Ptr(Some(CopyOf(S, p.value))) else x
    case List(items) => List(seq(|items|, i requires 0 <= i < |items| => CopyOf(S, items[i])))
    case Modifier(orders) =>
      Modifier(seq(|orders|, i requires 0 <= i < |orders| => orders[i].(expr := CopyOf(S, orders[i].expr))))
    case Orders(nodes) =>
      Orders(seq(|nodes|, i requires 0 <= i < |nodes| => nodes[i].(expr := CopyOf(S, nodes[i].expr))))
    case Cases(checks) =>
      Cases(seq(|checks|, i requires 0 <= i < |checks| =>
        CaseCheck(CopyOf(S, checks[i].whenExpr), CopyOf(S, checks[i].thenExpr))))
    case Args(args) => Args(seq(|args|, i requires 0 <= i < |args| => args[i].(expr := CopyOf(S, args[i].expr))))
    case Map(entries) =>
      Map(seq(|entries|, i requires 0 <= i < |entries| => entries[i].(expr := CopyOf(S, entries[i].expr))))
  }

  /** The generated Copy: a fresh expression, the copied members, and CopyBase for the base members. */
  function CopyOf(S: Schema, e: Expr): Expr
    requires Copyable(S, e)
    decreases e
  {
    var members := S.classes[e.cls].members;
    Expr(e.cls, e.typ,
         seq(|e.base|, i requires 0 <= i < |e.base| =>
           if i >= |S.base| || S.base[i].Copied() then e.base[i] else DefaultField(S.base[i].mtype)),
         seq(|e.fields|, i requires 0 <= i < |e.fields| =>
           if i >= |members| then e.fields[i]
           else if members[i].Copied() then FieldCopy(S, e.fields[i])
           else DefaultField(members[i].mtype)))
  }

  datatype CopyError = TransientExpression

  function Copy(S: Schema, e: Expr): Result<Expr, CopyError> {
    if Copyable(S, e) then Ok(CopyOf(S, e)) else Err(TransientExpression)
  }

  // ---------------------------------------------------------------------------
  // Hash
  // ---------------------------------------------------------------------------

  function Fold(rt: Runtime, h: int, xs: seq<int>): int {
    if xs == [] then h else rt.combine(Fold(rt, h, xs[..|xs| - 1]), xs[|xs| - 1])
  }

  /** The hashes of the children in a field, in the order in which Children() yields them. */
  function ChildHashes(S: Schema, rt: Runtime, x: Field): seq<int>
    decreases x
  {
    match x
    case Scalar(_) => []
    case ScalarList(_) => []
    case Select(_) => []
    case NoModifier => []
    case Ptr(p) => if p.Some? then [Hash(S, rt, p.value)] else []
    case List(items) => seq(|items|, i requires 0 <= i < |items| => Hash(S, rt, items[i]))
    case Modifier(orders) => seq(|orders|, i requires 0 <= i < |orders| => Hash(S, rt, orders[i].expr))
    case Orders(nodes) => seq(|nodes|, i requires 0 <= i < |nodes| => Hash(S, rt, nodes[i].expr))
    case Cases(checks) =>
      seq(2 * |checks|, i requires 0 <= i < 2 * |checks| =>
        if i % 2 == 0 then Hash(S, rt, checks[i / 2].whenExpr) else Hash(S, rt, checks[i / 2].thenExpr))
    case Args(args) => seq(|args|, i requires 0 <= i < |args| => Hash(S, rt, args[i].expr))
    case Map(entries) => seq(|entries|, i requires 0 <= i < |entries| => Hash(S, rt, entries[i].expr))
  }

  /** The values that a subclass folds into the hash for one member. */
  function MemberHashes(S: Schema, rt: Runtime, t: MemberType, x: Field): seq<int>
    decreases x
  {
    match t
    case ScalarMember(kind) => if x.Scalar? then [rt.hash(rt.norm(kind, x.v))] else []
    case ScalarListMember(kind) =>
      if x.ScalarList? then seq(|x.vs|, i requires 0 <= i < |x.vs| => rt.hash(rt.norm(kind, x.vs[i]))) else []
    case TypeExpressionPtr => if x.Ptr? then [if x.p.Some? then Hash(S, rt, x.p.value) else 0] else []
    case OrderByList =>
      if x.Orders? then
        seq(2 * |x.nodes|, i requires 0 <= i < 2 * |x.nodes| =>
          rt.hash(if i % 2 == 0 then x.nodes[i / 2].order else x.nodes[i / 2].nullOrder))
      else []
    case _ => []
  }

  /** The hashes of all children of `e` that are in its first n members. */
  function ChildrenUpTo(S: Schema, rt: Runtime, e: Expr, members: seq<Member>, n: nat): seq<int>
    requires n <= |members|
    decreases e, n
  {
    if n == 0 then []
    else
      ChildrenUpTo(S, rt, e, members, n - 1) +
      if members[n - 1].Iterable() && n - 1 < |e.fields| then ChildHashes(S, rt, e.fields[n - 1]) else []
  }

  function MembersUpTo(S: Schema, rt: Runtime, e: Expr, members: seq<Member>, n: nat): seq<int>
    requires n <= |members|
    decreases e, n
  {
    if n == 0 then []
    else
      MembersUpTo(S, rt, e, members, n - 1) +
      if members[n - 1].Hashed() && n - 1 < |e.fields| then MemberHashes(S, rt, members[n - 1].mtype, e.fields[n - 1])
      else []
  }

  function ClassMembers(S: Schema, cls: nat): seq<Member> {
    if cls < |S.classes| then S.classes[cls].members else []
  }

  /** The virtual Hash: the base folds class, type and children, the subclass its own members. */
  function Hash(S: Schema, rt: Runtime, e: Expr): int
    decreases e, |ClassMembers(S, e.cls)| + 1
  {
    var members := ClassMembers(S, e.cls);
    Fold(rt, rt.combine(rt.hash(e.cls), rt.hash(e.typ)),
         ChildrenUpTo(S, rt, e, members, |members|) + MembersUpTo(S, rt, e, members, |members|))
  }
}
