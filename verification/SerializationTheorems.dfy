/** The theorems about serialization: round trip, read order, and the hierarchy check. */
module SerializationTheorems {
  import opened Wrappers
  import opened SerializationCode
  import opened SerializationRuntime
  import opened SerializationRoundTrip

  // ---------------------------------------------------------------------------
  // Round trip
  // ---------------------------------------------------------------------------

  ghost predicate DistinctNames(ms: seq<Member>) {
    forall i, j :: 0 <= i < j < |ms| ==> ms[i].name != ms[j].name
  }

  /** The value that every planned read yields. */
  function Truth(plan: seq<Planned>, obj: Object, opts: Options): map<string, Value> {
    if plan == [] then map[] else Truth(plan[1..], obj, opts)[plan[0].member.name := plan[0].ReadBack(obj, opts)]
  }

  lemma {:induction false} TruthKnows(plan: seq<Planned>, obj: Object, opts: Options)
    requires DistinctNames(Members(plan))
    ensures var truth := Truth(plan, obj, opts);
      forall p <- plan :: p.member.name in truth && truth[p.member.name] == p.ReadBack(obj, opts)
  {
    hide Planned.ReadBack;
    if plan != [] {
      assert Members(plan)[1..] == Members(plan[1..]);
      forall i, j | 0 <= i < j < |plan| - 1 ensures Members(plan[1..])[i].name != Members(plan[1..])[j].name {
        assert Members(plan)[i + 1].name != Members(plan)[j + 1].name;
      }
      TruthKnows(plan[1..], obj, opts);
      forall p <- plan[1..] ensures p.member.name != plan[0].member.name {
        var i :| 0 <= i < |plan| - 1 && plan[1..][i] == p;
        assert Members(plan)[0].name != Members(plan)[i + 1].name;
      }
    }
  }

  lemma {:induction false} PlanHas(cls: Class, low: nat, i: nat)
    requires low <= i < |cls.members| && (cls.isBase || !cls.members[i].serializeSkip)
    ensures PlannedAt(cls, i) in Plan(cls, low)
    decreases i - low
  {
    hide LocalReadKind, FieldReadKind, ReadLocally;
    if low < i {
      PlanHas(cls, low + 1, i);
    }
  }

  lemma {:induction false} PathPlanHas(path: seq<Class>, cls: Class, i: nat)
    requires cls in path && i < |cls.members| && (cls.isBase || !cls.members[i].serializeSkip)
    ensures PlannedAt(cls, i) in PathPlan(path)
  {
    hide Plan, PlannedAt;
    if path[0] == cls {
      PlanHas(cls, 0, i);
    } else {
      PathPlanHas(path[1..], cls, i);
    }
  }

  /**
   Reading back what was written for any storage version either restores the object, or fails because a
   member that the reader requires was suppressed by its gate; both are decided by the schema and the
   target version.  Every delivered member gets the value that was written, or its default.
   */
  lemma RoundTrip(path: seq<Class>, obj: Object, opts: Options)
    requires WellFormedPath(path, [], obj)
    requires DistinctIds(PathMembers(path)) && DistinctNames(PathMembers(path))
    ensures var r := ReadObject(path[0], Serialize(path, obj, opts));
      && (r.Ok? <==> PathPresent(path, obj, opts))
      && (r.Ok? ==> r.value.dispatched == path)
      && (r.Ok? ==> forall c <- path :: forall i :: 0 <= i < |c.members| && Delivers(c, i) ==>
            && c.members[i].name in r.value.fields
            && r.value.fields[c.members[i].name] == PlannedAt(c, i).ReadBack(obj, opts))
  {
    hide EmitAll, Deserialize, WellFormedLeaf, WellFormedBase, OwnPresent, PlannedAt, Planned.ReadBack, OwnMembers;
    SerializeMeaning(path, obj, opts);
    PathPlanMembers(path);
    var truth := Truth(PathPlan(path), obj, opts);
    TruthKnows(PathPlan(path), obj, opts);
    forall c <- path ensures OwnKnown(c, truth, obj, opts) {
      ClassKnown(path, c, obj, opts);
    }
    DeserializePath(path, [], map[], truth, obj, opts);
    var r := ReadObject(path[0], Serialize(path, obj, opts));
    if r.Ok? {
      forall c <- path, i | 0 <= i < |c.members| && Delivers(c, i)
        ensures c.members[i].name in r.value.fields
        ensures r.value.fields[c.members[i].name] == PlannedAt(c, i).ReadBack(obj, opts)
      {
        DeliveredIsWired(c, i);
        PathPlanHas(path, c, i);
        assert PlannedAt(c, i).member == c.members[i] by { PlannedMember(c, i); }
      }
    }
  }

  lemma PlannedMember(cls: Class, i: nat)
    requires i < |cls.members|
    ensures PlannedAt(cls, i).member == cls.members[i]
  {}

  lemma DeliveredIsWired(cls: Class, i: nat)
    requires i < |cls.members| && Delivers(cls, i)
    ensures cls.isBase || !cls.members[i].serializeSkip
  {}

  lemma ClassKnown(path: seq<Class>, cls: Class, obj: Object, opts: Options)
    requires cls in path && DistinctNames(Members(PathPlan(path)))
    ensures OwnKnown(cls, Truth(PathPlan(path), obj, opts), obj, opts)
  {
    hide PlannedAt, Planned.ReadBack, Planned.Present, Truth;
    TruthKnows(PathPlan(path), obj, opts);
    forall i | 0 <= i < |cls.members| && (cls.isBase || !cls.members[i].serializeSkip)
      ensures Knows(Truth(PathPlan(path), obj, opts), PlannedAt(cls, i), obj, opts)
    {
      PathPlanHas(path, cls, i);
    }
  }

  /** Without deserialize_default a member comes back unchanged, unless its gate suppressed it. */
  lemma ReadBackValue(cls: Class, i: nat, obj: Object, opts: Options)
    requires i < |cls.members| && cls.members[i].deserializeDefault.None? && cls.members[i].status != Deleted
    requires PlannedAt(cls, i).Present(obj, opts)
    ensures var m := cls.members[i];
      PlannedAt(cls, i).ReadBack(obj, opts) ==
        if Written(m, obj, opts) || obj(m.name) == m.Default() then obj(m.name) else m.Default()
  {}

  /** The schema rule under which every storage version can be read back. */
  predicate Tolerant(m: Member) {
    m.status == Deleted || m.hasDefault || (m.status == Existing && m.version == 1 && m.serializeUntil.None?)
  }

  /** A default on every gated member is all it takes: reading never fails. */
  lemma TolerantPath(path: seq<Class>, obj: Object, opts: Options)
    requires forall c <- path :: forall m <- c.members :: Tolerant(m)
    ensures PathPresent(path, obj, opts)
  {
    forall c <- path ensures OwnPresent(c, 0, |c.members|, obj, opts) {
      forall i | 0 <= i < |c.members| ensures PlannedAt(c, i).Present(obj, opts) {
        assert Tolerant(c.members[i]);
      }
    }
  }

  /**
   A schema entry with required_until is read back by every version: versions below it get the value even
   when it is the default, because their readers require it, and later ones get by with the default.
   */
  lemma RequiredUntilServesAll(e: MemberEntry, obj: Object, opts: Options)
    requires e.requiredUntil.Some? && e.serializeUntil.None? && e.deserializeDefault.None?
    ensures var m := MemberOf(e);
      && Tolerant(m)
      && (opts.target < e.requiredUntil.value ==> Written(m, obj, opts))
      && (m.status == Existing ==> forall kind :: kind == LocalReadKind(m) || kind == FieldReadKind(m) ==>
            Planned(m, kind).Present(obj, opts) && Planned(m, kind).ReadBack(obj, opts) == obj(m.name))
  {}

  /** Every storage version gets the member of this object, or can do without it. */
  predicate Served(m: Member, obj: Object) {
    || m.status == Deleted
    || m.hasDefault
    || (&& m.serializeUntil.None? && !Gone(m)
        && (|| m.requiredUntil.Some?
            || (m.status == Existing &&
                (m.version <= 1 || (m.serializeCondition.Some? && m.serializeCondition.value(obj))))))
  }

  /** A read into a field succeeds for every version exactly when the member is served; a local has one more way out. */
  lemma ServedMeaning(m: Member, obj: Object)
    ensures (forall opts: Options :: Planned(m, FieldReadKind(m)).Present(obj, opts)) <==> Served(m, obj)
    ensures (forall opts: Options :: Planned(m, LocalReadKind(m)).Present(obj, opts)) <==>
      Served(m, obj) || m.deserializeDefault.Some?
    ensures Tolerant(m) ==> Served(m, obj)
  {
    if !Served(m, obj) {
      var target: nat :=
        if m.serializeUntil.Some? then m.serializeUntil.value
        else if m.requiredUntil.Some? then m.requiredUntil.value
        else if m.status == Existing then m.version - 1 else m.version;
      assert !Written(m, obj, Options(target, true));
      assert !Planned(m, LocalReadKind(m)).Present(obj, Options(target, true)) || m.deserializeDefault.Some?;
      assert !Planned(m, FieldReadKind(m)).Present(obj, Options(target, true));
    }
  }

  ghost predicate ServedAt(cls: Class, i: nat, obj: Object)
    requires i < |cls.members|
  {
    Served(cls.members[i], obj) || (ReadLocally(cls, i) && cls.members[i].deserializeDefault.Some?)
  }

  ghost predicate PathServed(path: seq<Class>, obj: Object) {
    forall c <- path :: forall i :: 0 <= i < |c.members| && (c.isBase || !c.members[i].serializeSkip) ==> ServedAt(c, i, obj)
  }

  lemma ServedAtMeaning(cls: Class, i: nat, obj: Object)
    requires i < |cls.members|
    ensures (forall opts: Options :: PlannedAt(cls, i).Present(obj, opts)) <==> ServedAt(cls, i, obj)
  {
    hide Served, ReadLocally, Planned.Present, LocalReadKind, FieldReadKind;
    var m := cls.members[i];
    ServedMeaning(m, obj);
    if ReadLocally(cls, i) {
      assert PlannedAt(cls, i) == Planned(m, LocalReadKind(m));
    } else {
      assert PlannedAt(cls, i) == Planned(m, FieldReadKind(m));
    }
  }

  lemma PathServedMeaning(path: seq<Class>, obj: Object)
    ensures (forall opts: Options :: PathPresent(path, obj, opts)) <==> PathServed(path, obj)
  {
    hide PlannedAt, Planned.Present, ServedAt;
    if PathServed(path, obj) {
      forall opts: Options, c <- path ensures OwnPresent(c, 0, |c.members|, obj, opts) {
        forall i | 0 <= i < |c.members| && (c.isBase || !c.members[i].serializeSkip)
          ensures PlannedAt(c, i).Present(obj, opts)
        {
          ServedAtMeaning(c, i, obj);
        }
      }
    } else {
      var c :| c in path && exists i :: 0 <= i < |c.members| && (c.isBase || !c.members[i].serializeSkip) && !ServedAt(c, i, obj);
      var i :| 0 <= i < |c.members| && (c.isBase || !c.members[i].serializeSkip) && !ServedAt(c, i, obj);
      ServedAtMeaning(c, i, obj);
      var opts: Options :| !PlannedAt(c, i).Present(obj, opts);
      assert !OwnPresent(c, 0, |c.members|, obj, opts);
      assert !PathPresent(path, obj, opts);
    }
  }

  predicate ReadsBack(path: seq<Class>, obj: Object, opts: Options)
    requires path != []
  {
    ReadObject(path[0], Serialize(path, obj, opts)).Ok?
  }

  /**
   An object can be read back from every storage version if and only if each of its members is served, or
   is read into a local and has a deserialize_default.
   */
  lemma ReadByEveryVersion(path: seq<Class>, obj: Object)
    requires WellFormedPath(path, [], obj)
    requires DistinctIds(PathMembers(path)) && DistinctNames(PathMembers(path))
    ensures (forall opts: Options :: ReadsBack(path, obj, opts)) <==> PathServed(path, obj)
  {
    assert path != [];
    hide WellFormedPath, DistinctIds, DistinctNames, PathPresent, PathServed, ReadObject, Serialize;
    forall opts: Options ensures ReadsBack(path, obj, opts) <==> PathPresent(path, obj, opts) {
      RoundTrip(path, obj, opts);
    }
    PathServedMeaning(path, obj);
  }

  /** Everything but member i of class `cls` can be read. */
  ghost predicate OthersPresent(path: seq<Class>, cls: Class, i: nat, obj: Object, opts: Options) {
    forall c <- path :: forall j :: 0 <= j < |c.members| && (c.isBase || !c.members[j].serializeSkip) ==>
      PlannedAt(c, j).Present(obj, opts) || (c == cls && j == i)
  }

  /**
   deserialize_default is honoured only where a member is read into a local: an object whose only missing
   member relies on it can be read back if and only if the constructor, a method or skip_assign wants that
   member in a local, or it belongs to a base class.
   */
  lemma DeserializeDefaultNeedsLocal(path: seq<Class>, cls: Class, i: nat, obj: Object, opts: Options)
    requires WellFormedPath(path, [], obj)
    requires DistinctIds(PathMembers(path)) && DistinctNames(PathMembers(path))
    requires cls in path && i < |cls.members| && (cls.isBase || !cls.members[i].serializeSkip)
    requires cls.members[i].status != Deleted && !cls.members[i].hasDefault && cls.members[i].deserializeDefault.Some?
    requires !Written(cls.members[i], obj, opts) && OthersPresent(path, cls, i, obj, opts)
    ensures ReadObject(path[0], Serialize(path, obj, opts)).Ok? <==>
      || cls.isBase || i < ConstructorPrefix(cls)
      || cls.members[i].name in cls.methodArgs || cls.members[i].skipAssign
  {
    assert PlannedAt(cls, i).Present(obj, opts) <==> ReadLocally(cls, i);
    assert ReadLocally(cls, i) <==>
      || cls.isBase || i < ConstructorPrefix(cls)
      || cls.members[i].name in cls.methodArgs || cls.members[i].skipAssign;
    hide WellFormedPath, DistinctIds, DistinctNames, ReadObject, Serialize, PlannedAt, Planned.Present, Written,
      ReadLocally, ConstructorPrefix;
    RoundTrip(path, obj, opts);
    if PlannedAt(cls, i).Present(obj, opts) {
      assert PathPresent(path, obj, opts);
    } else {
      assert !OwnPresent(cls, 0, |cls.members|, obj, opts);
    }
  }

  // ---------------------------------------------------------------------------
  // Read order
  // ---------------------------------------------------------------------------

  lemma {:induction false} ReadIdsConcat(a: seq<Instr>, b: seq<Instr>)
    ensures ReadIds(a + b) == ReadIds(a) + ReadIds(b)
  {
    if b == [] {
      assert a + b == a;
    } else {
      var n := |b| - 1;
      assert (a + b)[..|a + b| - 1] == a + b[..n];
      ReadIdsConcat(a, b[..n]);
    }
  }

  lemma {:induction false} ReadIdsOfLocals(ms: seq<Member>)
    ensures ReadIds(LocalReads(ms)) == Ids(ms)
  {
    if ms != [] {
      var n := |ms| - 1;
      assert LocalReads(ms)[..n] == LocalReads(ms[..n]);
      ReadIdsOfLocals(ms[..n]);
      assert Ids(ms) == Ids(ms[..n]) + [ms[n].id];
    }
  }

  lemma {:induction false} NoReads(code: seq<Instr>)
    requires forall c <- code :: !c.ReadLocal? && !c.ReadField?
    ensures ReadIds(code) == []
  {
    if code != [] {
      NoReads(code[..|code| - 1]);
      assert code[|code| - 1] in code;
    }
  }

  lemma {:induction false} ReadIdsAfterConstruct(cls: Class, n: nat)
    requires n <= |cls.members|
    ensures ReadIds(AfterConstructs(cls, n)) == IdsBetween(cls.members, ConstructorPrefix(cls), n)
  {
    hide ConstructorPrefix, AfterConstruct, AfterConstructs, ReadIds, IdsBetween;
    AfterConstructsParts(cls, n);
    if n > 0 {
      ReadIdsAfterConstruct(cls, n - 1);
      ReadIdsConcat(AfterConstructs(cls, n - 1), AfterConstruct(cls, n - 1));
      ReadIdsOfMember(cls, n - 1);
      IdsBetweenStep(cls.members, ConstructorPrefix(cls), n);
    }
  }

  lemma AfterConstructsParts(cls: Class, n: nat)
    requires n <= |cls.members|
    ensures n == 0 ==> ReadIds(AfterConstructs(cls, n)) == [] == IdsBetween(cls.members, ConstructorPrefix(cls), n)
    ensures n > 0 ==> AfterConstructs(cls, n) == AfterConstructs(cls, n - 1) + AfterConstruct(cls, n - 1)
  {
    hide ConstructorPrefix, AfterConstruct;
  }

  lemma ReadIdsOfMember(cls: Class, i: nat)
    requires i < |cls.members|
    ensures ReadIds(AfterConstruct(cls, i)) ==
      if i < ConstructorPrefix(cls) || cls.members[i].serializeSkip then [] else [cls.members[i].id]
  {
    hide ConstructorPrefix, ConstructorNames, LocalReadKind, FieldReadKind;
    ReadIdsConcat(AfterConstructRead(cls, i), AfterConstructSet(cls, i));
    NoReads(AfterConstructSet(cls, i));
    if i < ConstructorPrefix(cls) || cls.members[i].serializeSkip {
      NoReads(AfterConstructRead(cls, i));
    } else {
      ReadIdsOne(AfterConstructRead(cls, i), cls.members[i].id);
    }
  }

  /** The ids of the wired members from position k to n. */
  function IdsBetween(ms: seq<Member>, k: nat, n: nat): seq<int>
    requires n <= |ms|
  {
    if n <= k then [] else Ids(Wired(ms[k..n]))
  }

  lemma IdsConcat(a: seq<Member>, b: seq<Member>)
    ensures Ids(a + b) == Ids(a) + Ids(b)
  {}

  lemma IdsBetweenStep(ms: seq<Member>, k: nat, n: nat)
    requires 0 < n <= |ms|
    ensures IdsBetween(ms, k, n) ==
      IdsBetween(ms, k, n - 1) + if n - 1 < k || ms[n - 1].serializeSkip then [] else [ms[n - 1].id]
  {
    hide Wired;
    if n - 1 >= k {
      var last := if ms[n - 1].serializeSkip then [] else [ms[n - 1]];
      SplitLast(ms[k..n]);
      assert ms[k..n][..n - 1 - k] == ms[k..n - 1];
      WiredAppend(ms[k..n - 1], ms[n - 1]);
      IdsConcat(Wired(ms[k..n - 1]), last);
      if n - 1 == k {
        NoWired(ms[k..n - 1]);
      }
    }
  }

  lemma NoWired(ms: seq<Member>)
    requires ms == []
    ensures Wired(ms) == []
  {}

  lemma WiredAppend(ms: seq<Member>, m: Member)
    ensures Wired(ms + [m]) == Wired(ms) + if m.serializeSkip then [] else [m]
  {
    WiredConcat(ms, [m]);
    assert [m][1..] == [];
  }

  lemma ReadIdsOne(code: seq<Instr>, id: int)
    requires |code| == 1 && (code[0].ReadLocal? || code[0].ReadField?) && code[0].id == id
    ensures ReadIds(code) == [id]
  {
    assert code[..0] == [];
  }

  lemma {:induction false} BaseAssignmentsRead(cls: Class, ms: seq<Member>)
    ensures forall c <- BaseAssignments(cls, ms) :: c.Assign?
  {
    if ms != [] {
      BaseAssignmentsRead(cls, ms[..|ms| - 1]);
    }
  }

  /**
   Deserialize of a class reads exactly the ids that its Serialize may write, each once and in the same
   order, whichever members its constructor takes.
   */
  lemma ReadOrder(cls: Class, parameters: seq<string>)
    ensures ReadIds(DeserializeCode(cls, parameters)) == Ids(OwnMembers(cls))
  {
    if cls.isBase {
      BaseReadOrder(cls);
    } else {
      ClassReadOrder(cls, parameters);
    }
  }

  lemma BaseReadOrder(cls: Class)
    ensures ReadIds(BaseDeserialize(cls)) == Ids(cls.members)
  {
    hide LocalReads, BaseAssignments, ReadIds;
    var rest := Unsets(cls.setParameters) + BaseAssignments(cls, cls.members) + [CallMethods(cls.methodArgs)];
    var sets := Sets(cls.setParameters) + [Dispatch(cls.tag)];
    assert BaseDeserialize(cls) == LocalReads(cls.members) + (sets + rest);
    BaseAssignmentsRead(cls, cls.members);
    NoReads(sets + rest);
    ReadIdsConcat(LocalReads(cls.members), sets + rest);
    ReadIdsOfLocals(cls.members);
  }

  lemma ClassReadOrder(cls: Class, parameters: seq<string>)
    ensures ReadIds(ClassDeserialize(cls, parameters)) == Ids(Wired(cls.members))
  {
    hide ConstructorPrefix, AfterConstructs, ClassConstructorArgs, LocalReads, Wired, ReadIds;
    var k := ConstructorPrefix(cls);
    var first := LocalReads(Wired(cls.members[..k]));
    var construct := [Construct(ClassConstructorArgs(cls, parameters))];
    var after := AfterConstructs(cls, |cls.members|);
    var rest := [CallMethods(cls.methodArgs)] + Unsets(cls.setParameters);
    assert ClassDeserialize(cls, parameters) == first + (construct + (after + rest));
    ReadIdsConcat(first, construct + (after + rest));
    ReadIdsConcat(construct, after + rest);
    ReadIdsConcat(after, rest);
    ReadIdsOfLocals(Wired(cls.members[..k]));
    NoReads(construct);
    NoReads(rest);
    ReadIdsAfterConstruct(cls, |cls.members|);
    IdsSplit(cls.members, k);
  }

  lemma IdsSplit(ms: seq<Member>, k: nat)
    requires k <= |ms|
    ensures Ids(Wired(ms)) == Ids(Wired(ms[..k])) + IdsBetween(ms, k, |ms|)
  {
    hide Wired;
    WiredPrefix(ms, k);
    IdsConcat(Wired(ms[..k]), Wired(ms[k..]));
    if k == |ms| {
      NoWired(ms[k..]);
    }
    assert ms[k..|ms|] == ms[k..];
  }

  // ---------------------------------------------------------------------------
  // The hierarchy check
  // ---------------------------------------------------------------------------

  /** A descent through the hierarchy that starts at `node`. */
  ghost predicate IsChain(chain: seq<Class>, node: Class) {
    && chain != [] && chain[0] == node
    && (|chain| > 1 ==> IsChild(node, chain[1]) && IsChain(chain[1..], chain[1]))
  }

  ghost predicate IsChild(parent: Class, cls: Class) {
    exists c <- parent.children :: c.cls == cls
  }

  function AllMembers(chain: seq<Class>): (r: seq<Member>) {
    if chain == [] then [] else chain[0].members + AllMembers(chain[1..])
  }

  /** No name or id occurs twice among the members, or in the sets. */
  ghost predicate Clean(ms: seq<Member>, names: set<string>, ids: set<int>) {
    && DistinctNames(ms) && DistinctIds(ms)
    && (forall m <- ms :: m.name !in names && m.id !in ids)
  }

  ghost predicate CleanBelow(node: Class, names: set<string>, ids: set<int>) {
    forall chain :: IsChain(chain, node) ==> Clean(AllMembers(chain), names, ids)
  }

  ghost function NameSet(ms: seq<Member>): set<string> {
    set m <- ms :: m.name
  }

  ghost function IdSet(ms: seq<Member>): set<int> {
    set m <- ms :: m.id
  }

  lemma CleanConcat(a: seq<Member>, b: seq<Member>, names: set<string>, ids: set<int>)
    ensures Clean(a + b, names, ids) <==> Clean(a, names, ids) && Clean(b, names + NameSet(a), ids + IdSet(a))
  {
    var ab := a + b;
    if Clean(ab, names, ids) {
      forall i, j | 0 <= i < j < |a| ensures a[i].name != a[j].name && a[i].id != a[j].id {
        assert ab[i] == a[i] && ab[j] == a[j];
      }
      forall i, j | 0 <= i < j < |b| ensures b[i].name != b[j].name && b[i].id != b[j].id {
        assert ab[|a| + i] == b[i] && ab[|a| + j] == b[j];
      }
      forall m <- b ensures m.name !in NameSet(a) && m.id !in IdSet(a) && m.name !in names && m.id !in ids {
        var j :| 0 <= j < |b| && b[j] == m;
        assert ab[|a| + j] == m && m in ab;
        forall x <- a ensures x.name != m.name && x.id != m.id {
          var i :| 0 <= i < |a| && a[i] == x;
          assert ab[i] == x;
        }
      }
    }
    if Clean(a, names, ids) && Clean(b, names + NameSet(a), ids + IdSet(a)) {
      forall i, j | 0 <= i < j < |ab| ensures ab[i].name != ab[j].name && ab[i].id != ab[j].id {
        if i < |a| <= j {
          assert ab[i] in a && ab[j] in b;
          assert ab[i].name in NameSet(a) && ab[i].id in IdSet(a);
        }
      }
    }
  }

  /** The check goes down one level at a time. */
  lemma CleanLevel(node: Class, names: set<string>, ids: set<int>)
    ensures CleanBelow(node, names, ids) <==>
      && Clean(node.members, names, ids)
      && forall c <- node.children :: CleanBelow(c.cls, names + NameSet(node.members), ids + IdSet(node.members))
  {
    hide Clean;
    var names', ids' := names + NameSet(node.members), ids + IdSet(node.members);
    if CleanBelow(node, names, ids) {
      assert IsChain([node], node) && AllMembers([node]) == node.members + AllMembers([]);
      assert node.members + AllMembers([]) == node.members;
      forall c <- node.children, chain | IsChain(chain, c.cls) ensures Clean(AllMembers(chain), names', ids') {
        var longer := [node] + chain;
        assert longer[1..] == chain;
        assert IsChild(node, c.cls);
        assert IsChain(longer, node);
        CleanConcat(node.members, AllMembers(chain), names, ids);
      }
    }
    if Clean(node.members, names, ids) && forall c <- node.children :: CleanBelow(c.cls, names', ids') {
      forall chain | IsChain(chain, node) ensures Clean(AllMembers(chain), names, ids) {
        if |chain| == 1 {
          assert AllMembers(chain) == node.members + AllMembers([]);
          assert node.members + AllMembers([]) == node.members;
        } else {
          var c :| c in node.children && c.cls == chain[1];
          assert CleanBelow(c.cls, names', ids');
          CleanConcat(node.members, AllMembers(chain[1..]), names, ids);
        }
      }
    }
  }

  /** Adds the members of one class to the sets, unless one of them is already there. */
  method CheckMembers(ms: seq<Member>, names: set<string>, ids: set<int>)
    returns (ok: bool, seenNames: set<string>, seenIds: set<int>)
    ensures ok <==> Clean(ms, names, ids)
    ensures ok ==> seenNames == names + NameSet(ms) && seenIds == ids + IdSet(ms)
  {
    seenNames, seenIds := names, ids;
    assert Clean([], names, ids) && NameSet([]) == {} && IdSet([]) == {};
    hide Clean;
    for i := 0 to |ms|
      invariant Clean(ms[..i], names, ids)
      invariant seenNames == names + NameSet(ms[..i])
      invariant seenIds == ids + IdSet(ms[..i])
    {
      PrefixClean(ms, i, names, ids);
      if ms[i].name in seenNames {
        return false, seenNames, seenIds;
      }
      seenNames := seenNames + {ms[i].name};
      if ms[i].id in seenIds {
        return false, seenNames, seenIds;
      }
      seenIds := seenIds + {ms[i].id};
    }
    assert ms[..|ms|] == ms;
    ok := true;
  }

  /**
   The duplicate check passes if and only if no descent through the hierarchy below `node` repeats a name
   or an id, or uses one that its ancestors have used.
   */
  method CheckChildrenForDuplicateMembers(node: Class, names: set<string>, ids: set<int>) returns (ok: bool)
    ensures ok <==> CleanBelow(node, names, ids)
    decreases node
  {
    hide CleanBelow, Clean, NameSet, IdSet;
    CleanLevel(node, names, ids);
    var own, seenNames, seenIds := CheckMembers(node.members, names, ids);
    if !own {
      return false;
    }
    for i := 0 to |node.children|
      invariant forall c <- node.children[..i] :: CleanBelow(c.cls, seenNames, seenIds)
    {
      var childOk := CheckChildrenForDuplicateMembers(node.children[i].cls, seenNames, seenIds);
      if !childOk {
        assert node.children[i] in node.children;
        return false;
      }
    }
    ok := true;
  }

  lemma PrefixClean(ms: seq<Member>, i: nat, names: set<string>, ids: set<int>)
    requires i < |ms|
    ensures NameSet(ms[..i + 1]) == NameSet(ms[..i]) + {ms[i].name}
    ensures IdSet(ms[..i + 1]) == IdSet(ms[..i]) + {ms[i].id}
    ensures Clean(ms[..i + 1], names, ids) <==>
      && Clean(ms[..i], names, ids)
      && ms[i].name !in names + NameSet(ms[..i]) && ms[i].id !in ids + IdSet(ms[..i])
    ensures Clean(ms, names, ids) ==> Clean(ms[..i + 1], names, ids)
  {
    assert ms[..i + 1] == ms[..i] + [ms[i]];
    CleanConcat(ms[..i], [ms[i]], names, ids);
    CleanOne(ms[i], names + NameSet(ms[..i]), ids + IdSet(ms[..i]));
    hide Clean;
    assert ms == ms[..i + 1] + ms[i + 1..];
    CleanConcat(ms[..i + 1], ms[i + 1..], names, ids);
  }

  lemma CleanOne(m: Member, names: set<string>, ids: set<int>)
    ensures Clean([m], names, ids) <==> m.name !in names && m.id !in ids
  {
    assert m in [m];
  }

  // ---------------------------------------------------------------------------
  // A checked hierarchy round-trips
  // ---------------------------------------------------------------------------

  lemma {:induction false} WiredClean(ms: seq<Member>, names: set<string>, ids: set<int>)
    requires Clean(ms, names, ids)
    ensures Clean(Wired(ms), names, ids)
    ensures forall m <- Wired(ms) :: m in ms
  {
    hide Clean;
    if ms != [] {
      var head, tail := [ms[0]], ms[1..];
      assert ms == head + tail;
      CleanConcat(head, tail, names, ids);
      WiredClean(tail, names + NameSet(head), ids + IdSet(head));
      CleanConcat(head, Wired(tail), names, ids);
      CleanFewer(Wired(tail), names + NameSet(head), ids + IdSet(head), names, ids);
      assert Wired(ms) == if ms[0].serializeSkip then Wired(tail) else head + Wired(tail);
      assert forall m <- Wired(ms) :: m == ms[0] || m in Wired(tail);
    }
  }

  lemma CleanFewer(ms: seq<Member>, more: set<string>, moreIds: set<int>, names: set<string>, ids: set<int>)
    requires Clean(ms, more, moreIds) && names <= more && ids <= moreIds
    ensures Clean(ms, names, ids)
  {}

  lemma {:induction false} PathClean(path: seq<Class>, inherited: seq<string>, obj: Object,
                                     names: set<string>, ids: set<int>)
    requires WellFormedPath(path, inherited, obj) && Clean(AllMembers(path), names, ids)
    ensures Clean(PathMembers(path), names, ids)
    decreases |path|
  {
    hide Clean, WellFormedLeaf, WellFormedBase, Wired;
    var node := path[0];
    if node.isBase {
      CleanConcat(node.members, AllMembers(path[1..]), names, ids);
      PathClean(path[1..], node.setParameters, obj, names + NameSet(node.members), ids + IdSet(node.members));
      CleanConcat(node.members, PathMembers(path[1..]), names, ids);
    } else {
      assert path[1..] == [];
      assert AllMembers(path) == node.members && PathMembers(path) == Wired(node.members) by {
        LeafIsLeaf(node, inherited);
      }
      WiredClean(node.members, names, ids);
    }
  }

  lemma {:induction false} PathIsChain(path: seq<Class>, inherited: seq<string>, obj: Object)
    requires WellFormedPath(path, inherited, obj)
    ensures IsChain(path, path[0])
    decreases |path|
  {
    hide WellFormedLeaf, WellFormedBase;
    if path[0].isBase {
      PathIsChain(path[1..], path[0].setParameters, obj);
    }
  }

  /** What the duplicate check is for: it is enough for every object below the root to round-trip. */
  lemma CheckedRoundTrip(root: Class, path: seq<Class>, obj: Object, opts: Options)
    requires CleanBelow(root, {}, {}) && WellFormedPath(path, [], obj) && path[0] == root
    requires forall c <- path :: forall m <- c.members :: Tolerant(m)
    ensures var r := ReadObject(root, Serialize(path, obj, opts));
      && r.Ok? && r.value.dispatched == path
      && (forall c <- path :: forall i :: 0 <= i < |c.members| && Delivers(c, i) ==>
            && c.members[i].name in r.value.fields
            && r.value.fields[c.members[i].name] == PlannedAt(c, i).ReadBack(obj, opts))
  {
    hide WellFormedPath, ReadObject, Serialize, Delivers, PlannedAt, Planned.ReadBack, Tolerant, PathMembers, PathPresent;
    PathIsChain(path, [], obj);
    assert Clean(AllMembers(path), {}, {});
    PathClean(path, [], obj, {}, {});
    TolerantPath(path, obj, opts);
    RoundTrip(path, obj, opts);
  }
}
