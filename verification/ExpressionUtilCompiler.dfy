/**
 The code that the generators emit, as lists of member steps, and proofs that running the steps one after
 the other gives Equals, Copy and Hash.
 */
module ExpressionUtilCompiler {
  import opened Wrappers
  import opened ExpressionUtil
  import opened ExpressionUtilHashLaw

  datatype Purpose = ForEquals | ForCopy | ForChildren | ForHash

  /** One emitted statement block: the member it works on and the type that chose its form. */
  datatype Step = Step(index: nat, mtype: MemberType)

  predicate Wanted(p: Purpose, m: Member) {
    match p
    case ForEquals => m.Compared()
    case ForCopy => m.Copied()
    case ForChildren => m.Iterable()
    case ForHash => m.Hashed()
  }

  function StepsFrom(members: seq<Member>, p: Purpose, i: nat): (code: seq<Step>)
    requires i <= |members|
    ensures forall s <- code :: i <= s.index < |members| && s.mtype == members[s.index].mtype
    decreases |members| - i
  {
    if i == |members| then []
    else (if Wanted(p, members[i]) then [Step(i, members[i].mtype)] else []) + StepsFrom(members, p, i + 1)
  }

  /** The generator loop over the members of one class. */
  method Generate(members: seq<Member>, p: Purpose) returns (code: seq<Step>)
    ensures code == StepsFrom(members, p, 0)
  {
    code := [];
    for i := 0 to |members|
      invariant code + StepsFrom(members, p, i) == StepsFrom(members, p, 0)
    {
      hide Wanted;
      if Wanted(p, members[i]) {
        assert code + StepsFrom(members, p, i) == code + [Step(i, members[i].mtype)] + StepsFrom(members, p, i + 1);
        code := code + [Step(i, members[i].mtype)];
      } else {
        assert StepsFrom(members, p, i) == StepsFrom(members, p, i + 1);
      }
    }
  }

  // ---------------------------------------------------------------------------
  // Equals
  // ---------------------------------------------------------------------------

  /** The emitted comparisons, each returning false early. */
  predicate RunCompare(S: Schema, rt: Runtime, code: seq<Step>, xs: seq<Field>, ys: seq<Field>)
    requires |xs| == |ys| && forall s <- code :: s.index < |xs|
  {
    if code == [] then true
    else if !FieldEquals(S, rt, code[0].mtype, xs[code[0].index], ys[code[0].index]) then false
    else RunCompare(S, rt, code[1..], xs, ys)
  }

  lemma CompareEnd(S: Schema, rt: Runtime, members: seq<Member>, xs: seq<Field>, ys: seq<Field>)
    requires |xs| == |ys| == |members|
    ensures RunCompare(S, rt, StepsFrom(members, ForEquals, |members|), xs, ys)
  {
    hide FieldEquals;
  }

  lemma CompareStep(S: Schema, rt: Runtime, members: seq<Member>, i: nat, xs: seq<Field>, ys: seq<Field>)
    requires |xs| == |ys| == |members| && i < |members|
    ensures RunCompare(S, rt, StepsFrom(members, ForEquals, i), xs, ys) <==>
      && (members[i].Compared() ==> FieldEquals(S, rt, members[i].mtype, xs[i], ys[i]))
      && RunCompare(S, rt, StepsFrom(members, ForEquals, i + 1), xs, ys)
  {
    hide FieldEquals;
    var rest := StepsFrom(members, ForEquals, i + 1);
    assert ([Step(i, members[i].mtype)] + rest)[1..] == rest;
    if members[i].Compared() {
      assert StepsFrom(members, ForEquals, i) == [Step(i, members[i].mtype)] + rest;
    } else {
      assert StepsFrom(members, ForEquals, i) == rest;
    }
  }

  lemma {:induction false} CompareFrom(S: Schema, rt: Runtime, members: seq<Member>, i: nat, xs: seq<Field>, ys: seq<Field>)
    requires |xs| == |ys| == |members| && i <= |members|
    ensures RunCompare(S, rt, StepsFrom(members, ForEquals, i), xs, ys) <==>
      forall j :: i <= j < |members| && members[j].Compared() ==> FieldEquals(S, rt, members[j].mtype, xs[j], ys[j])
    decreases |members| - i
  {
    hide FieldEquals, RunCompare, StepsFrom;
    CompareEnd(S, rt, members, xs, ys);
    if i < |members| {
      CompareStep(S, rt, members, i, xs, ys);
      CompareFrom(S, rt, members, i + 1, xs, ys);
    }
  }

  /** ParsedExpression::Equals followed by the comparisons of the class decides Equals. */
  lemma EqualsCode(S: Schema, rt: Runtime, a: Expr, b: Expr)
    requires S.comparesClass && WellTyped(S, a) && WellTyped(S, b)
    ensures Equals(S, rt, a, b) <==>
      && a.cls == b.cls
      && (S.comparesType ==> a.typ == b.typ)
      && RunCompare(S, rt, StepsFrom(S.base, ForEquals, 0), a.base, b.base)
      && RunCompare(S, rt, StepsFrom(S.classes[a.cls].members, ForEquals, 0), a.fields, b.fields)
  {
    hide FieldEquals, FieldTyped, StepsFrom, RunCompare;
    CompareFrom(S, rt, S.base, 0, a.base, b.base);
    if a.cls == b.cls {
      var members := S.classes[a.cls].members;
      CompareFrom(S, rt, members, 0, a.fields, b.fields);
    }
  }

  // ---------------------------------------------------------------------------
  // Copy
  // ---------------------------------------------------------------------------

  /** The emitted assignments into the fields of the new object. */
  function RunCopy(S: Schema, code: seq<Step>, from: seq<Field>, to: seq<Field>): (r: seq<Field>)
    requires |from| == |to| && forall s <- code :: s.index < |from| && FieldCopyable(S, from[s.index])
    ensures |r| == |to|
  {
    if code == [] then to
    else
      var i := code[0].index;
      RunCopy(S, code[1..], from, to[i := FieldCopy(S, from[i])])
  }

  lemma {:induction false} CopyFrom(S: Schema, members: seq<Member>, i: nat, from: seq<Field>, to: seq<Field>)
    requires |from| == |to| == |members| && i <= |members|
    requires forall j :: 0 <= j < |members| && members[j].Copied() ==> FieldCopyable(S, from[j])
    ensures forall s <- StepsFrom(members, ForCopy, i) :: FieldCopyable(S, from[s.index])
    ensures var r := RunCopy(S, StepsFrom(members, ForCopy, i), from, to); forall j :: 0 <= j < |r| ==>
      r[j] == if j >= i && members[j].Copied() then FieldCopy(S, from[j]) else to[j]
    decreases |members| - i
  {
    hide FieldCopy, FieldCopyable;
    if i < |members| {
      var rest := StepsFrom(members, ForCopy, i + 1);
      assert ([Step(i, members[i].mtype)] + rest)[1..] == rest;
      if members[i].Copied() {
        assert StepsFrom(members, ForCopy, i) == [Step(i, members[i].mtype)] + rest;
        CopyFrom(S, members, i + 1, from, to[i := FieldCopy(S, from[i])]);
      } else {
        assert StepsFrom(members, ForCopy, i) == rest;
        CopyFrom(S, members, i + 1, from, to);
      }
    }
  }

  function Defaults(members: seq<Member>): seq<Field> {
    seq(|members|, i requires 0 <= i < |members| => DefaultField(members[i].mtype))
  }

  /** Assigning the copied members of a default-constructed object gives the fields of the copy. */
  lemma CopyCode(S: Schema, e: Expr)
    requires WellTyped(S, e) && Copyable(S, e)
    ensures var members := S.classes[e.cls].members;
      && (forall s <- StepsFrom(members, ForCopy, 0) :: FieldCopyable(S, e.fields[s.index]))
      && RunCopy(S, StepsFrom(members, ForCopy, 0), e.fields, Defaults(members)) == CopyOf(S, e).fields
  {
    hide FieldCopy, FieldCopyable, FieldTyped, StepsFrom, RunCopy;
    var members := S.classes[e.cls].members;
    CopyFrom(S, members, 0, e.fields, Defaults(members));
    var r := RunCopy(S, StepsFrom(members, ForCopy, 0), e.fields, Defaults(members));
    assert r == CopyOf(S, e).fields;
  }

  // ---------------------------------------------------------------------------
  // Hash
  // ---------------------------------------------------------------------------

  /** CombineHash over the children of the listed members, starting from h. */
  function RunChildren(S: Schema, rt: Runtime, code: seq<Step>, xs: seq<Field>, h: int): int
    requires forall s <- code :: s.index < |xs|
  {
    if code == [] then h
    else RunChildren(S, rt, code[1..], xs, Fold(rt, h, ChildHashes(S, rt, xs[code[0].index])))
  }

  /** The statements of a subclass Hash, starting from h. */
  function RunMembers(S: Schema, rt: Runtime, code: seq<Step>, xs: seq<Field>, h: int): int
    requires forall s <- code :: s.index < |xs|
  {
    if code == [] then h
    else RunMembers(S, rt, code[1..], xs, Fold(rt, h, MemberHashes(S, rt, code[0].mtype, xs[code[0].index])))
  }

  lemma StepsEnd(S: Schema, rt: Runtime, members: seq<Member>, p: Purpose, xs: seq<Field>, h: int)
    requires |xs| == |members|
    ensures RunChildren(S, rt, StepsFrom(members, p, |members|), xs, h) == h
    ensures RunMembers(S, rt, StepsFrom(members, p, |members|), xs, h) == h
  {
    hide ChildHashes, MemberHashes, Fold;
  }

  lemma ChildrenStep(S: Schema, rt: Runtime, e: Expr, members: seq<Member>, i: nat, h: int)
    requires |e.fields| == |members| && i < |members|
    ensures
      RunChildren(S, rt, StepsFrom(members, ForChildren, i), e.fields, Fold(rt, h, ChildrenUpTo(S, rt, e, members, i))) ==
      RunChildren(S, rt, StepsFrom(members, ForChildren, i + 1), e.fields, Fold(rt, h, ChildrenUpTo(S, rt, e, members, i + 1)))
  {
    hide ChildHashes, Fold;
    var rest := StepsFrom(members, ForChildren, i + 1);
    var before := ChildrenUpTo(S, rt, e, members, i);
    if members[i].Iterable() {
      assert ([Step(i, members[i].mtype)] + rest)[1..] == rest;
      FoldConcat(rt, h, before, ChildHashes(S, rt, e.fields[i]));
    } else {
      assert StepsFrom(members, ForChildren, i) == rest;
      assert ChildrenUpTo(S, rt, e, members, i + 1) == before;
    }
  }

  lemma {:induction false} ChildrenFrom(S: Schema, rt: Runtime, e: Expr, members: seq<Member>, i: nat, h: int)
    requires |e.fields| == |members| && i <= |members|
    ensures RunChildren(S, rt, StepsFrom(members, ForChildren, i), e.fields, Fold(rt, h, ChildrenUpTo(S, rt, e, members, i))) ==
      Fold(rt, h, ChildrenUpTo(S, rt, e, members, |members|))
    decreases |members| - i
  {
    hide ChildHashes, Fold, StepsFrom, ChildrenUpTo, RunChildren;
    StepsEnd(S, rt, members, ForChildren, e.fields, Fold(rt, h, ChildrenUpTo(S, rt, e, members, |members|)));
    if i < |members| {
      ChildrenFrom(S, rt, e, members, i + 1, h);
      ChildrenStep(S, rt, e, members, i, h);
    }
  }

  lemma MembersStep(S: Schema, rt: Runtime, e: Expr, members: seq<Member>, i: nat, h: int)
    requires |e.fields| == |members| && i < |members|
    ensures
      RunMembers(S, rt, StepsFrom(members, ForHash, i), e.fields, Fold(rt, h, MembersUpTo(S, rt, e, members, i))) ==
      RunMembers(S, rt, StepsFrom(members, ForHash, i + 1), e.fields, Fold(rt, h, MembersUpTo(S, rt, e, members, i + 1)))
  {
    hide MemberHashes, Fold;
    var rest := StepsFrom(members, ForHash, i + 1);
    var before := MembersUpTo(S, rt, e, members, i);
    if members[i].Hashed() {
      assert ([Step(i, members[i].mtype)] + rest)[1..] == rest;
      FoldConcat(rt, h, before, MemberHashes(S, rt, members[i].mtype, e.fields[i]));
    } else {
      assert StepsFrom(members, ForHash, i) == rest;
      assert MembersUpTo(S, rt, e, members, i + 1) == before;
    }
  }

  lemma {:induction false} MembersFrom(S: Schema, rt: Runtime, e: Expr, members: seq<Member>, i: nat, h: int)
    requires |e.fields| == |members| && i <= |members|
    ensures RunMembers(S, rt, StepsFrom(members, ForHash, i), e.fields, Fold(rt, h, MembersUpTo(S, rt, e, members, i))) ==
      Fold(rt, h, MembersUpTo(S, rt, e, members, |members|))
    decreases |members| - i
  {
    hide MemberHashes, Fold, StepsFrom, MembersUpTo, RunMembers;
    StepsEnd(S, rt, members, ForHash, e.fields, Fold(rt, h, MembersUpTo(S, rt, e, members, |members|)));
    if i < |members| {
      MembersFrom(S, rt, e, members, i + 1, h);
      MembersStep(S, rt, e, members, i, h);
    }
  }

  lemma FoldNothing(rt: Runtime, h: int)
    ensures Fold(rt, h, []) == h
  {}

  /**
   ParsedExpression::Hash followed by the statements of the class computes Hash; a class for which no
   statement is emitted keeps the base Hash.
   */
  lemma HashCode(S: Schema, rt: Runtime, e: Expr)
    requires WellTyped(S, e)
    ensures
      var members := S.classes[e.cls].members;
      var start := rt.combine(rt.hash(e.cls), rt.hash(e.typ));
      var baseHash := RunChildren(S, rt, StepsFrom(members, ForChildren, 0), e.fields, start);
      && Hash(S, rt, e) == RunMembers(S, rt, StepsFrom(members, ForHash, 0), e.fields, baseHash)
      && (StepsFrom(members, ForHash, 0) == [] ==> Hash(S, rt, e) == baseHash)
  {
    hide Fold, StepsFrom, ChildHashes, MemberHashes, FieldTyped;
    var members := S.classes[e.cls].members;
    var start := rt.combine(rt.hash(e.cls), rt.hash(e.typ));
    var baseHash := RunChildren(S, rt, StepsFrom(members, ForChildren, 0), e.fields, start);
    ChildrenFrom(S, rt, e, members, 0, start);
    MembersFrom(S, rt, e, members, 0, baseHash);
    FoldNothing(rt, start);
    FoldNothing(rt, baseHash);
    FoldConcat(rt, start, ChildrenUpTo(S, rt, e, members, |members|), MembersUpTo(S, rt, e, members, |members|));
  }
}
