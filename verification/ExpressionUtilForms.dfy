/**
 Reference forms of expression trees, and proofs that Equals, Hash and Copy are what the forms say: two trees
 are equal exactly if they have the same canonical form, and the hash is a fold over the hash tree.
 */
module ExpressionUtilForms {
  import opened Wrappers
  import opened ExpressionUtil
  import opened ExpressionUtilLaws

  // ---------------------------------------------------------------------------
  // Canonical forms
  // ---------------------------------------------------------------------------

  /** An expression with its scalars normalized, its uncompared members blanked and its maps without an order. */
  datatype Form = Form(cls: nat, typ: Option<int>, base: seq<FieldForm>, fields: seq<FieldForm>)

  datatype FieldForm =
    | Blank
    | ScalarsForm(ns: seq<int>)
    | PtrForm(p: Option<Form>)
    | ListForm(items: seq<Form>)
    | SelectForm(s: Option<int>)
    | OrderForm(present: bool, orders: seq<OrderItem>)
    | CasesForm(checks: seq<CaseItem>)
    | ArgsForm(args: seq<NamedForm>)
    | MapForm(m: map<int, Form>)

  datatype OrderItem = OrderItem(order: int, nullOrder: Option<int>, form: Form)

  datatype CaseItem = CaseItem(whenForm: Form, thenForm: Form)

  datatype NamedForm = NamedForm(name: int, form: Form)

  function FormOf(S: Schema, rt: Runtime, e: Expr): (f: Form)
    decreases e, 3
  {
    var members := if e.cls < |S.classes| then S.classes[e.cls].members else [];
    Form(e.cls, if S.comparesType then Some(e.typ) else None,
         seq(|e.base|, i requires 0 <= i < |e.base| => MemberForm(S, rt, S.base, i, e.base[i])),
         seq(|e.fields|, i requires 0 <= i < |e.fields| => MemberForm(S, rt, members, i, e.fields[i])))
  }

  /** A member with equals_skip, or that is read only or deleted, does not count. */
  function MemberForm(S: Schema, rt: Runtime, members: seq<Member>, i: nat, x: Field): FieldForm
    decreases x, 2
  {
    if i < |members| && !members[i].equalsSkip && members[i].status.Existing? then
      FieldFormOf(S, rt, members[i].mtype, x)
    else Blank
  }

  function FieldFormOf(S: Schema, rt: Runtime, t: MemberType, x: Field): FieldForm
    decreases x, 1
  {
    match x
    case Scalar(v) => ScalarsForm([if t.ScalarMember? then rt.norm(t.kind, v) else v])
    case ScalarList(vs) =>
      ScalarsForm(seq(|vs|, i requires 0 <= i < |vs| => if t.ScalarListMember? then rt.norm(t.kind, vs[i]) else vs[i]))
    case Ptr(p) => PtrForm(if p.Some? then Some(FormOf(S, rt, p.value)) else None)
    case List(items) => ListForm(seq(|items|, i requires 0 <= i < |items| => FormOf(S, rt, items[i])))
    case Select(s) => SelectForm(if s.Some? then Some(rt.norm(0, s.value)) else None)
    case NoModifier => OrderForm(false, [])
    case Modifier(orders) =>
      OrderForm(true, seq(|orders|, i requires 0 <= i < |orders| =>
        OrderItem(orders[i].order, None, FormOf(S, rt, orders[i].expr))))
    case Orders(nodes) =>
      OrderForm(true, seq(|nodes|, i requires 0 <= i < |nodes| =>
        OrderItem(nodes[i].order, Some(nodes[i].nullOrder), FormOf(S, rt, nodes[i].expr))))
    case Cases(checks) =>
      CasesForm(seq(|checks|, i requires 0 <= i < |checks| =>
        CaseItem(FormOf(S, rt, checks[i].whenExpr), FormOf(S, rt, checks[i].thenExpr))))
    case Args(args) =>
      ArgsForm(seq(|args|, i requires 0 <= i < |args| => NamedForm(rt.norm(0, args[i].name), FormOf(S, rt, args[i].expr))))
    case Map(entries) => MapForm(EntriesForm(S, rt, x, |entries|))
  }

  /** The first n entries of a map by key; keys are distinct. */
  function EntriesForm(S: Schema, rt: Runtime, x: Field, n: nat): (m: map<int, Form>)
    requires x.Map? && n <= |x.entries|
    decreases x, 0, n
  {
    if n == 0 then map[]
    else EntriesForm(S, rt, x, n - 1)[x.entries[n - 1].key := FormOf(S, rt, x.entries[n - 1].expr)]
  }

  lemma {:induction false} EntriesFormAt(S: Schema, rt: Runtime, x: Field, n: nat)
    requires x.Map? && n <= |x.entries| && DistinctKeys(x.entries)
    ensures EntriesForm(S, rt, x, n).Keys == Keys(x.entries[..n])
    ensures forall i :: 0 <= i < n ==>
      var key := x.entries[i].key;
      key in EntriesForm(S, rt, x, n) && EntriesForm(S, rt, x, n)[key] == FormOf(S, rt, x.entries[i].expr)
    decreases n
  {
    hide FormOf;
    if n > 0 {
      EntriesFormAt(S, rt, x, n - 1);
      assert Keys(x.entries[..n]) == Keys(x.entries[..n - 1]) + {x.entries[n - 1].key};
    }
  }

  /** Two maps have one form exactly if they have as many entries and each is found in the other with its form. */
  lemma EntriesFormSame(S: Schema, rt: Runtime, x: Field, y: Field)
    requires x.Map? && y.Map? && DistinctKeys(x.entries) && DistinctKeys(y.entries)
    ensures EntriesForm(S, rt, x, |x.entries|) == EntriesForm(S, rt, y, |y.entries|) <==>
      |x.entries| == |y.entries| && forall i :: 0 <= i < |x.entries| ==> SameEntry(S, rt, x.entries[i], y.entries)
  {
    hide FormOf, EntriesForm, DistinctKeys;
    var xs, ys := x.entries, y.entries;
    var fx, fy := EntriesForm(S, rt, x, |xs|), EntriesForm(S, rt, y, |ys|);
    EntriesFormAt(S, rt, x, |xs|);
    EntriesFormAt(S, rt, y, |ys|);
    assert xs[..|xs|] == xs && ys[..|ys|] == ys;
    KeyCount(xs);
    KeyCount(ys);
    if fx == fy {
      forall i | 0 <= i < |xs| ensures SameEntry(S, rt, xs[i], ys) {
        assert xs[i].key in Keys(ys);
      }
    }
    if |xs| == |ys| && forall i :: 0 <= i < |xs| ==> SameEntry(S, rt, xs[i], ys) {
      forall k <- fx ensures k in fy && fx[k] == fy[k] {
        var i :| 0 <= i < |xs| && xs[i].key == k;
        assert SameEntry(S, rt, xs[i], ys);
      }
      SubsetOfSameSize(fx.Keys, fy.Keys);
    }
  }

  predicate SameEntry(S: Schema, rt: Runtime, entry: MapEntry, entries: seq<MapEntry>) {
    var other := Find(entries, entry.key);
    other.Some? && FormOf(S, rt, entry.expr) == FormOf(S, rt, entries[other.value].expr)
  }

  lemma {:induction false} FieldForms(S: Schema, rt: Runtime, m: Member, x: Field, y: Field)
    requires S.comparesClass && FieldTyped(S, m, x) && FieldTyped(S, m, y)
    ensures FieldEquals(S, rt, m.mtype, x, y) <==>
      FieldSelectsPresent(S, x) && FieldFormOf(S, rt, m.mtype, x) == FieldFormOf(S, rt, m.mtype, y)
    decreases x, 1
  {
    hide Equals, WellTyped, EntryEquals, DistinctKeys, FormOf, SelectsPresent;
    match m.mtype
    case ScalarMember(kind) =>
      assert FieldFormOf(S, rt, m.mtype, x).ns[0] == rt.norm(kind, x.v) && FieldFormOf(S, rt, m.mtype, y).ns[0] == rt.norm(kind, y.v);
    case ScalarListMember(_) => ScalarForms(S, rt, m, x, y);
    case SelectStatementPtr =>
    case ExpressionPtr => if x.p.Some? && y.p.Some? { EqualForms(S, rt, x.p.value, y.p.value); }
    case TypeExpressionPtr => if x.p.Some? && y.p.Some? { EqualForms(S, rt, x.p.value, y.p.value); }
    case ExpressionList => ListForms(S, rt, m, x, y);
    case ExpressionMap => MapForms(S, rt, m, x, y);
    case OrderModifierPtr | OrderByList => OrderForms(S, rt, m, x, y);
    case CaseCheckList => CaseForms(S, rt, m, x, y);
    case FunctionArgumentList => ArgForms(S, rt, m, x, y);
  }

  lemma ScalarForms(S: Schema, rt: Runtime, m: Member, x: Field, y: Field)
    requires m.mtype.ScalarListMember? && x.ScalarList? && y.ScalarList?
    ensures FieldEquals(S, rt, m.mtype, x, y) <==>
      FieldSelectsPresent(S, x) && FieldFormOf(S, rt, m.mtype, x) == FieldFormOf(S, rt, m.mtype, y)
  {
    var fx, fy := FieldFormOf(S, rt, m.mtype, x).ns, FieldFormOf(S, rt, m.mtype, y).ns;
    assert forall i :: 0 <= i < |fx| ==> fx[i] == rt.norm(m.mtype.kind, x.vs[i]);
    assert forall i :: 0 <= i < |fy| ==> fy[i] == rt.norm(m.mtype.kind, y.vs[i]);
    assert fx == fy <==> |fx| == |fy| && forall i :: 0 <= i < |fx| ==> fx[i] == fy[i];
  }

  lemma {:induction false} ListForms(S: Schema, rt: Runtime, m: Member, x: Field, y: Field)
    requires S.comparesClass && FieldTyped(S, m, x) && FieldTyped(S, m, y) && m.mtype.ExpressionList?
    ensures FieldEquals(S, rt, m.mtype, x, y) <==>
      FieldSelectsPresent(S, x) && FieldFormOf(S, rt, m.mtype, x) == FieldFormOf(S, rt, m.mtype, y)
    decreases x, 0
  {
    hide Equals, WellTyped, FormOf, SelectsPresent;
    var fx, fy := FieldFormOf(S, rt, m.mtype, x).items, FieldFormOf(S, rt, m.mtype, y).items;
    if |x.items| == |y.items| {
      forall i | 0 <= i < |x.items|
        ensures Equals(S, rt, x.items[i], y.items[i]) <==> SelectsPresent(S, x.items[i]) && fx[i] == fy[i]
      {
        EqualForms(S, rt, x.items[i], y.items[i]);
      }
    }
    assert fx == fy <==> |fx| == |fy| && forall i :: 0 <= i < |fx| ==> fx[i] == fy[i];
  }

  lemma {:induction false} OrderForms(S: Schema, rt: Runtime, m: Member, x: Field, y: Field)
    requires S.comparesClass && FieldTyped(S, m, x) && FieldTyped(S, m, y)
    requires m.mtype.OrderModifierPtr? || m.mtype.OrderByList?
    ensures FieldEquals(S, rt, m.mtype, x, y) <==>
      FieldSelectsPresent(S, x) && FieldFormOf(S, rt, m.mtype, x) == FieldFormOf(S, rt, m.mtype, y)
    decreases x, 0
  {
    hide Equals, WellTyped, FormOf, SelectsPresent;
    var fx, fy := FieldFormOf(S, rt, m.mtype, x).orders, FieldFormOf(S, rt, m.mtype, y).orders;
    if x.Modifier? && y.Modifier? && |x.orders| == |y.orders| {
      forall i | 0 <= i < |x.orders|
        ensures Equals(S, rt, x.orders[i].expr, y.orders[i].expr) <==> SelectsPresent(S, x.orders[i].expr) && fx[i].form == fy[i].form
      {
        EqualForms(S, rt, x.orders[i].expr, y.orders[i].expr);
      }
    } else if x.Orders? && |x.nodes| == |y.nodes| {
      forall i | 0 <= i < |x.nodes|
        ensures Equals(S, rt, x.nodes[i].expr, y.nodes[i].expr) <==> SelectsPresent(S, x.nodes[i].expr) && fx[i].form == fy[i].form
      {
        EqualForms(S, rt, x.nodes[i].expr, y.nodes[i].expr);
      }
    }
    assert fx == fy <==> |fx| == |fy| && forall i :: 0 <= i < |fx| ==> fx[i] == fy[i];
  }

  lemma {:induction false} CaseForms(S: Schema, rt: Runtime, m: Member, x: Field, y: Field)
    requires S.comparesClass && FieldTyped(S, m, x) && FieldTyped(S, m, y) && m.mtype.CaseCheckList?
    ensures FieldEquals(S, rt, m.mtype, x, y) <==>
      FieldSelectsPresent(S, x) && FieldFormOf(S, rt, m.mtype, x) == FieldFormOf(S, rt, m.mtype, y)
    decreases x, 0
  {
    hide Equals, WellTyped, FormOf, SelectsPresent;
    var fx, fy := FieldFormOf(S, rt, m.mtype, x).checks, FieldFormOf(S, rt, m.mtype, y).checks;
    if |x.checks| == |y.checks| {
      forall i | 0 <= i < |x.checks|
        ensures Equals(S, rt, x.checks[i].whenExpr, y.checks[i].whenExpr) <==>
          SelectsPresent(S, x.checks[i].whenExpr) && fx[i].whenForm == fy[i].whenForm
        ensures Equals(S, rt, x.checks[i].thenExpr, y.checks[i].thenExpr) <==>
          SelectsPresent(S, x.checks[i].thenExpr) && fx[i].thenForm == fy[i].thenForm
      {
        EqualForms(S, rt, x.checks[i].whenExpr, y.checks[i].whenExpr);
        EqualForms(S, rt, x.checks[i].thenExpr, y.checks[i].thenExpr);
      }
    }
    assert fx == fy <==> |fx| == |fy| && forall i :: 0 <= i < |fx| ==> fx[i] == fy[i];
  }

  lemma {:induction false} ArgForms(S: Schema, rt: Runtime, m: Member, x: Field, y: Field)
    requires S.comparesClass && FieldTyped(S, m, x) && FieldTyped(S, m, y) && m.mtype.FunctionArgumentList?
    ensures FieldEquals(S, rt, m.mtype, x, y) <==>
      FieldSelectsPresent(S, x) && FieldFormOf(S, rt, m.mtype, x) == FieldFormOf(S, rt, m.mtype, y)
    decreases x, 0
  {
    hide Equals, WellTyped, FormOf, SelectsPresent;
    var fx, fy := FieldFormOf(S, rt, m.mtype, x).args, FieldFormOf(S, rt, m.mtype, y).args;
    if |x.args| == |y.args| {
      forall i | 0 <= i < |x.args|
        ensures Equals(S, rt, x.args[i].expr, y.args[i].expr) <==> SelectsPresent(S, x.args[i].expr) && fx[i].form == fy[i].form
      {
        EqualForms(S, rt, x.args[i].expr, y.args[i].expr);
      }
    }
    assert fx == fy <==> |fx| == |fy| && forall i :: 0 <= i < |fx| ==> fx[i] == fy[i];
  }

  lemma {:induction false} MapForms(S: Schema, rt: Runtime, m: Member, x: Field, y: Field)
    requires S.comparesClass && FieldTyped(S, m, x) && FieldTyped(S, m, y) && m.mtype.ExpressionMap?
    ensures FieldEquals(S, rt, m.mtype, x, y) <==>
      FieldSelectsPresent(S, x) && FieldFormOf(S, rt, m.mtype, x) == FieldFormOf(S, rt, m.mtype, y)
    decreases x, 0
  {
    hide Equals, WellTyped, FormOf, SelectsPresent, EntriesForm, DistinctKeys;
    EntriesFormSame(S, rt, x, y);
    forall i | 0 <= i < |x.entries|
      ensures EntryEquals(S, rt, x.entries[i], y.entries) <==>
        SelectsPresent(S, x.entries[i].expr) && SameEntry(S, rt, x.entries[i], y.entries)
    {
      var other := Find(y.entries, x.entries[i].key);
      if other.Some? {
        EqualForms(S, rt, x.entries[i].expr, y.entries[other.value].expr);
      }
    }
    hide EntryEquals, SameEntry;
  }

  /** The comparison of a member, if there is one, says that its forms are the same and no subquery is null. */
  predicate MembersAgree(S: Schema, rt: Runtime, m: Member, x: Field, y: Field, same: bool) {
    if m.Compared() then FieldEquals(S, rt, m.mtype, x, y) <==> FieldSelectsPresent(S, x) && same else same
  }

  lemma {:induction false} MemberForms(S: Schema, rt: Runtime, members: seq<Member>, i: nat, x: Field, y: Field)
    requires S.comparesClass && i < |members| && FieldTyped(S, members[i], x) && FieldTyped(S, members[i], y)
    ensures MembersAgree(S, rt, members[i], x, y, MemberForm(S, rt, members, i, x) == MemberForm(S, rt, members, i, y))
    decreases x, 2
  {
    hide FieldEquals, FieldTyped, FieldFormOf, FieldSelectsPresent;
    FieldForms(S, rt, members[i], x, y);
  }

  /**
   Equals means having the same canonical form: same class and type, same normalized scalars, same names of
   arguments, orders and keys, and children with the same forms; and no compared subquery may be null.
   */
  lemma {:induction false} EqualForms(S: Schema, rt: Runtime, a: Expr, b: Expr)
    requires S.comparesClass && WellTyped(S, a) && WellTyped(S, b)
    ensures Equals(S, rt, a, b) <==> SelectsPresent(S, a) && FormOf(S, rt, a) == FormOf(S, rt, b)
    decreases a
  {
    hide FieldEquals, FieldTyped, MemberForm, FieldSelectsPresent;
    var fa, fb := FormOf(S, rt, a), FormOf(S, rt, b);
    if a.cls == b.cls {
      var members := S.classes[a.cls].members;
      forall i | 0 <= i < |a.base|
        ensures MembersAgree(S, rt, S.base[i], a.base[i], b.base[i], fa.base[i] == fb.base[i])
      {
        MemberForms(S, rt, S.base, i, a.base[i], b.base[i]);
      }
      forall i | 0 <= i < |a.fields|
        ensures MembersAgree(S, rt, members[i], a.fields[i], b.fields[i], fa.fields[i] == fb.fields[i])
      {
        MemberForms(S, rt, members, i, a.fields[i], b.fields[i]);
      }
      assert fa.base == fb.base <==> forall i :: 0 <= i < |a.base| ==> fa.base[i] == fb.base[i];
      assert fa.fields == fb.fields <==> forall i :: 0 <= i < |a.fields| ==> fa.fields[i] == fb.fields[i];
    }
  }

  // ---------------------------------------------------------------------------
  // Hash trees
  // ---------------------------------------------------------------------------

  /** What goes into a hash, in order: the children first, then the values of the members. */
  datatype HashTree = HashTree(cls: nat, typ: int, parts: seq<HashPart>)

  datatype HashPart = ChildPart(tree: HashTree) | ValuePart(v: int) | NoTypePart

  /** The children of a field, from left to right. */
  function ChildTrees(S: Schema, rt: Runtime, x: Field): (r: seq<HashPart>)
    decreases x
  {
    match x
    case Scalar(_) => []
    case ScalarList(_) => []
    case Select(_) => []
    case NoModifier => []
    case Ptr(p) => if p.Some? then [ChildPart(TreeOf(S, rt, p.value))] else []
    case List(items) => seq(|items|, i requires 0 <= i < |items| => ChildPart(TreeOf(S, rt, items[i])))
    case Modifier(orders) => seq(|orders|, i requires 0 <= i < |orders| => ChildPart(TreeOf(S, rt, orders[i].expr)))
    case Orders(nodes) => seq(|nodes|, i requires 0 <= i < |nodes| => ChildPart(TreeOf(S, rt, nodes[i].expr)))
    case Cases(checks) =>
      seq(2 * |checks|, i requires 0 <= i < 2 * |checks| =>
        ChildPart(if i % 2 == 0 then TreeOf(S, rt, checks[i / 2].whenExpr) else TreeOf(S, rt, checks[i / 2].thenExpr)))
    case Args(args) => seq(|args|, i requires 0 <= i < |args| => ChildPart(TreeOf(S, rt, args[i].expr)))
    case Map(entries) => seq(|entries|, i requires 0 <= i < |entries| => ChildPart(TreeOf(S, rt, entries[i].expr)))
  }

  /** The values of a field that its class adds: scalars normalized, the directions of an ORDER BY, an optional type. */
  function ValueParts(S: Schema, rt: Runtime, t: MemberType, x: Field): (r: seq<HashPart>)
    decreases x
  {
    match x
    case Scalar(v) => if t.ScalarMember? then [ValuePart(rt.norm(t.kind, v))] else []
    case ScalarList(vs) =>
      if t.ScalarListMember? then seq(|vs|, i requires 0 <= i < |vs| => ValuePart(rt.norm(t.kind, vs[i]))) else []
    case Ptr(p) =>
      if !t.TypeExpressionPtr? then []
      else if p.Some? then [ChildPart(TreeOf(S, rt, p.value))]
      else [NoTypePart]
    case Orders(nodes) =>
      if t.OrderByList? then
        seq(2 * |nodes|, i requires 0 <= i < 2 * |nodes| =>
          ValuePart(if i % 2 == 0 then nodes[i / 2].order else nodes[i / 2].nullOrder))
      else []
    case _ => []
  }

  /** The members whose children count: not synthetic views; argument lists only through an accessor. */
  predicate HasChildren(m: Member) {
    && m.status.Existing? && (m.hasSerializeProperty ==> !m.equalsSkip)
    && match m.mtype
       case ExpressionPtr => true
       case ExpressionList => true
       case CaseCheckList => true
       case OrderByList => true
       case OrderModifierPtr => true
       case ExpressionMap => true
       case FunctionArgumentList => m.accessor
       case _ => false
  }

  /** The members whose values count. */
  predicate HasValues(m: Member) {
    m.status.Existing? && !m.equalsSkip && !m.hashSkip
  }

  function ChildPartsUpTo(S: Schema, rt: Runtime, e: Expr, members: seq<Member>, n: nat): (r: seq<HashPart>)
    requires n <= |members|
    decreases e, n
  {
    if n == 0 then []
    else
      ChildPartsUpTo(S, rt, e, members, n - 1) +
      if n <= |e.fields| && HasChildren(members[n - 1]) then ChildTrees(S, rt, e.fields[n - 1]) else []
  }

  function ValuePartsUpTo(S: Schema, rt: Runtime, e: Expr, members: seq<Member>, n: nat): (r: seq<HashPart>)
    requires n <= |members|
    decreases e, n
  {
    if n == 0 then []
    else
      ValuePartsUpTo(S, rt, e, members, n - 1) +
      if n <= |e.fields| && HasValues(members[n - 1]) then ValueParts(S, rt, members[n - 1].mtype, e.fields[n - 1]) else []
  }

  function TreeOf(S: Schema, rt: Runtime, e: Expr): (t: HashTree)
    decreases e, |ClassMembers(S, e.cls)| + 1
  {
    var members := ClassMembers(S, e.cls);
    HashTree(e.cls, e.typ, ChildPartsUpTo(S, rt, e, members, |members|) + ValuePartsUpTo(S, rt, e, members, |members|))
  }

  /** The parts are combined from left to right onto class and type; an absent type counts as zero. */
  function TreeHash(rt: Runtime, t: HashTree): int
    decreases t
  {
    Combined(rt, rt.combine(rt.hash(t.cls), rt.hash(t.typ)), PartHashes(rt, t.parts))
  }

  function PartHashes(rt: Runtime, parts: seq<HashPart>): (r: seq<int>)
    ensures |r| == |parts|
    decreases parts
  {
    seq(|parts|, i requires 0 <= i < |parts| => PartHash(rt, parts[i]))
  }

  function PartHash(rt: Runtime, part: HashPart): int
    decreases part
  {
    match part
    case ChildPart(tree) => TreeHash(rt, tree)
    case ValuePart(v) => rt.hash(v)
    case NoTypePart => 0
  }

  function Combined(rt: Runtime, h: int, xs: seq<int>): int
    decreases |xs|
  {
    if xs == [] then h else Combined(rt, rt.combine(h, xs[0]), xs[1..])
  }

  lemma {:induction false} CombinedIsFold(rt: Runtime, h: int, xs: seq<int>)
    ensures Combined(rt, h, xs) == Fold(rt, h, xs)
    decreases |xs|
  {
    if |xs| > 0 {
      CombinedLast(rt, h, xs);
      CombinedIsFold(rt, h, xs[..|xs| - 1]);
    }
  }

  lemma {:induction false} CombinedLast(rt: Runtime, h: int, xs: seq<int>)
    requires xs != []
    ensures Combined(rt, h, xs) == rt.combine(Combined(rt, h, xs[..|xs| - 1]), xs[|xs| - 1])
    decreases |xs|
  {
    if |xs| == 1 {
      assert xs[1..] == [] && xs[..0] == [];
    } else {
      assert xs[..|xs| - 1][1..] == xs[1..][..|xs| - 2];
      CombinedLast(rt, rt.combine(h, xs[0]), xs[1..]);
    }
  }

  lemma PartHashesConcat(rt: Runtime, a: seq<HashPart>, b: seq<HashPart>)
    ensures PartHashes(rt, a + b) == PartHashes(rt, a) + PartHashes(rt, b)
  {}

  lemma {:induction false} FieldTrees(S: Schema, rt: Runtime, x: Field)
    ensures PartHashes(rt, ChildTrees(S, rt, x)) == ChildHashes(S, rt, x)
    decreases x, 1
  {
    hide Hash, TreeOf, TreeHash;
    match x
    case Ptr(p) => if p.Some? { HashIsTreeHash(S, rt, p.value); }
    case List(items) => forall i | 0 <= i < |items| { HashIsTreeHash(S, rt, items[i]); }
    case Modifier(orders) => forall i | 0 <= i < |orders| { HashIsTreeHash(S, rt, orders[i].expr); }
    case Orders(nodes) => forall i | 0 <= i < |nodes| { HashIsTreeHash(S, rt, nodes[i].expr); }
    case Cases(checks) =>
      forall i | 0 <= i < |checks|
        ensures TreeHash(rt, TreeOf(S, rt, checks[i].whenExpr)) == Hash(S, rt, checks[i].whenExpr)
        ensures TreeHash(rt, TreeOf(S, rt, checks[i].thenExpr)) == Hash(S, rt, checks[i].thenExpr)
      {
        HashIsTreeHash(S, rt, checks[i].whenExpr);
        HashIsTreeHash(S, rt, checks[i].thenExpr);
      }
    case Args(args) => forall i | 0 <= i < |args| { HashIsTreeHash(S, rt, args[i].expr); }
    case Map(entries) => forall i | 0 <= i < |entries| { HashIsTreeHash(S, rt, entries[i].expr); }
    case _ =>
  }

  lemma {:induction false} FieldValues(S: Schema, rt: Runtime, t: MemberType, x: Field)
    ensures PartHashes(rt, ValueParts(S, rt, t, x)) == MemberHashes(S, rt, t, x)
    decreases x, 1
  {
    hide Hash, TreeOf, TreeHash;
    if x.Ptr? && x.p.Some? {
      HashIsTreeHash(S, rt, x.p.value);
    }
  }

  lemma {:induction false} ListsHash(S: Schema, rt: Runtime, e: Expr, members: seq<Member>, n: nat)
    requires n <= |members|
    ensures PartHashes(rt, ChildPartsUpTo(S, rt, e, members, n)) == ChildrenUpTo(S, rt, e, members, n)
    ensures PartHashes(rt, ValuePartsUpTo(S, rt, e, members, n)) == MembersUpTo(S, rt, e, members, n)
    decreases e, n
  {
    hide ChildTrees, ValueParts, ChildHashes, MemberHashes, PartHashes;
    NoParts(rt);
    if n > 0 {
      ListsHash(S, rt, e, members, n - 1);
      var m := members[n - 1];
      var children: seq<HashPart>, values: seq<HashPart> := [], [];
      if n <= |e.fields| {
        MemberHash(S, rt, m, e.fields[n - 1]);
        children := if HasChildren(m) then ChildTrees(S, rt, e.fields[n - 1]) else [];
        values := if HasValues(m) then ValueParts(S, rt, m.mtype, e.fields[n - 1]) else [];
      }
      hide Member.Iterable, Member.Hashed, HasChildren, HasValues;
      PartHashesConcat(rt, ChildPartsUpTo(S, rt, e, members, n - 1), children);
      PartHashesConcat(rt, ValuePartsUpTo(S, rt, e, members, n - 1), values);
    }
  }

  /** What one member adds to the hash. */
  lemma {:induction false} MemberHash(S: Schema, rt: Runtime, m: Member, x: Field)
    ensures PartHashes(rt, if HasChildren(m) then ChildTrees(S, rt, x) else []) == if m.Iterable() then ChildHashes(S, rt, x) else []
    ensures PartHashes(rt, if HasValues(m) then ValueParts(S, rt, m.mtype, x) else []) ==
      if m.Hashed() then MemberHashes(S, rt, m.mtype, x) else []
    decreases x, 2
  {
    hide ChildTrees, ChildHashes, MemberHashes, PartHashes;
    NoParts(rt);
    FieldTrees(S, rt, x);
    FieldValues(S, rt, m.mtype, x);
    UnhashedMember(S, rt, m, x);
  }

  lemma NoParts(rt: Runtime)
    ensures PartHashes(rt, []) == []
  {}

  lemma UnhashedMember(S: Schema, rt: Runtime, m: Member, x: Field)
    ensures HasValues(m) && !m.Hashed() ==> ValueParts(S, rt, m.mtype, x) == []
    ensures m.Hashed() ==> HasValues(m)
    ensures m.Iterable() <==> HasChildren(m)
  {}

  /** The hash of an expression is that of its hash tree. */
  lemma {:induction false} HashIsTreeHash(S: Schema, rt: Runtime, e: Expr)
    ensures Hash(S, rt, e) == TreeHash(rt, TreeOf(S, rt, e))
    decreases e, |ClassMembers(S, e.cls)| + 1
  {
    hide ChildPartsUpTo, ValuePartsUpTo, ChildrenUpTo, MembersUpTo, PartHashes;
    var members := ClassMembers(S, e.cls);
    ListsHash(S, rt, e, members, |members|);
    PartHashesConcat(rt, ChildPartsUpTo(S, rt, e, members, |members|), ValuePartsUpTo(S, rt, e, members, |members|));
    CombinedIsFold(rt, rt.combine(rt.hash(e.cls), rt.hash(e.typ)), PartHashes(rt, TreeOf(S, rt, e).parts));
  }

  // ---------------------------------------------------------------------------
  // Copies
  // ---------------------------------------------------------------------------

  /** What a member of the type holds in an expression that was just constructed. */
  predicate IsFresh(t: MemberType, x: Field) {
    match x
    case Scalar(v) => t.ScalarMember? && v == 0
    case ScalarList(vs) => t.ScalarListMember? && vs == []
    case Ptr(p) => (t.ExpressionPtr? || t.TypeExpressionPtr?) && p.None?
    case List(items) => t.ExpressionList? && items == []
    case Select(s) => t.SelectStatementPtr? && s.None?
    case NoModifier => t.OrderModifierPtr?
    case Modifier(orders) => false
    case Orders(nodes) => t.OrderByList? && nodes == []
    case Cases(checks) => t.CaseCheckList? && checks == []
    case Args(args) => t.FunctionArgumentList? && args == []
    case Map(entries) => t.ExpressionMap? && entries == []
  }

  /** y holds what x holds, with a copy of every child in its place. */
  predicate FieldCopied(S: Schema, x: Field, y: Field)
    decreases x
  {
    match x
    case Ptr(p) => y.Ptr? && y.p.Some? == p.Some? && (p.Some? ==> IsCopy(S, p.value, y.p.value))
    case List(items) =>
      y.List? && |y.items| == |items| && forall i :: 0 <= i < |items| ==> IsCopy(S, items[i], y.items[i])
    case Modifier(orders) =>
      && y.Modifier? && |y.orders| == |orders|
      && forall i :: 0 <= i < |orders| ==>
           && y.orders[i].order == orders[i].order && y.orders[i].nullOrder == orders[i].nullOrder
           && IsCopy(S, orders[i].expr, y.orders[i].expr)
    case Orders(nodes) =>
      && y.Orders? && |y.nodes| == |nodes|
      && forall i :: 0 <= i < |nodes| ==>
           && y.nodes[i].order == nodes[i].order && y.nodes[i].nullOrder == nodes[i].nullOrder
           && IsCopy(S, nodes[i].expr, y.nodes[i].expr)
    case Cases(checks) =>
      && y.Cases? && |y.checks| == |checks|
      && forall i :: 0 <= i < |checks| ==>
           IsCopy(S, checks[i].whenExpr, y.checks[i].whenExpr) && IsCopy(S, checks[i].thenExpr, y.checks[i].thenExpr)
    case Args(args) =>
      && y.Args? && |y.args| == |args|
      && forall i :: 0 <= i < |args| ==> y.args[i].name == args[i].name && IsCopy(S, args[i].expr, y.args[i].expr)
    case Map(entries) =>
      && y.Map? && |y.entries| == |entries|
      && forall i :: 0 <= i < |entries| ==>
           y.entries[i].key == entries[i].key && IsCopy(S, entries[i].expr, y.entries[i].expr)
    case _ => x == y
  }

  /** A member that exists is copied, unless it is a view of a field that another member copies. */
  predicate LeftOut(m: Member) {
    !m.status.Existing? || (m.hasSerializeProperty && m.equalsSkip)
  }

  /** A tree of the same classes and types in which each member is copied or fresh. */
  predicate IsCopy(S: Schema, a: Expr, b: Expr)
    decreases a
  {
    && b.cls == a.cls && b.typ == a.typ && |b.base| == |a.base| && |b.fields| == |a.fields|
    && (forall i :: 0 <= i < |a.base| && i < |S.base| ==> if LeftOut(S.base[i]) then IsFresh(S.base[i].mtype, b.base[i]) else b.base[i] == a.base[i])
    && (forall i :: 0 <= i < |a.fields| && i < |ClassMembers(S, a.cls)| ==>
          if LeftOut(ClassMembers(S, a.cls)[i]) then IsFresh(ClassMembers(S, a.cls)[i].mtype, b.fields[i]) else FieldCopied(S, a.fields[i], b.fields[i]))
  }

  lemma {:induction false} FieldIsCopied(S: Schema, x: Field)
    requires FieldCopyable(S, x)
    ensures FieldCopied(S, x, FieldCopy(S, x))
    decreases x
  {
    hide IsCopy, CopyOf, Copyable;
    match x
    case Ptr(p) => if p.Some? { CopyIsCopy(S, p.value); }
    case List(items) => forall i | 0 <= i < |items| { CopyIsCopy(S, items[i]); }
    case Modifier(orders) => forall i | 0 <= i < |orders| { CopyIsCopy(S, orders[i].expr); }
    case Orders(nodes) => forall i | 0 <= i < |nodes| { CopyIsCopy(S, nodes[i].expr); }
    case Cases(checks) =>
      forall i | 0 <= i < |checks|
        ensures IsCopy(S, checks[i].whenExpr, CopyOf(S, checks[i].whenExpr))
        ensures IsCopy(S, checks[i].thenExpr, CopyOf(S, checks[i].thenExpr))
      {
        CopyIsCopy(S, checks[i].whenExpr);
        CopyIsCopy(S, checks[i].thenExpr);
      }
    case Args(args) => forall i | 0 <= i < |args| { CopyIsCopy(S, args[i].expr); }
    case Map(entries) => forall i | 0 <= i < |entries| { CopyIsCopy(S, entries[i].expr); }
    case _ =>
  }

  lemma DefaultIsFresh(t: MemberType)
    ensures IsFresh(t, DefaultField(t))
  {}

  /** Copy gives a tree of the same classes and types whose members are copies, or fresh where they are left out. */
  lemma {:induction false} CopyIsCopy(S: Schema, e: Expr)
    requires Copyable(S, e)
    ensures IsCopy(S, e, CopyOf(S, e))
    decreases e
  {
    hide FieldCopy, FieldCopyable, FieldCopied, IsFresh, DefaultField;
    var members := ClassMembers(S, e.cls);
    forall i | 0 <= i < |e.base| && i < |S.base| && LeftOut(S.base[i]) {
      DefaultIsFresh(S.base[i].mtype);
    }
    forall i | 0 <= i < |e.fields| && i < |members|
      ensures if LeftOut(members[i]) then IsFresh(members[i].mtype, CopyOf(S, e).fields[i]) else FieldCopied(S, e.fields[i], CopyOf(S, e).fields[i])
    {
      if LeftOut(members[i]) {
        DefaultIsFresh(members[i].mtype);
      } else {
        FieldIsCopied(S, e.fields[i]);
      }
    }
  }
}
