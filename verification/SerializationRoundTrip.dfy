/**
 What serialization promises: reading back what was written for any storage version yields the object
 again, up to the members that the version gates suppressed.
 */
module SerializationRoundTrip {
  import opened Wrappers
  import opened SerializationCode
  import opened SerializationRuntime

  // ---------------------------------------------------------------------------
  // Which members are written
  // ---------------------------------------------------------------------------

  /** An optional property is left out when it equals its default. */
  predicate Omitted(m: Member, obj: Object, opts: Options) {
    m.hasDefault && !opts.serializeDefaults && obj(m.name) == m.Default()
  }

  /** A member that is gone since the first version is not written at all. */
  predicate Gone(m: Member) {
    m.status != Existing && m.version == 1
  }

  predicate Written(m: Member, obj: Object, opts: Options) {
    if m.serializeUntil.Some? then
      opts.target < m.serializeUntil.value && !Gone(m) && !Omitted(m, obj, opts)
    else if m.requiredUntil.Some? && opts.target < m.requiredUntil.value then
      true
    else
      && !Gone(m)
      && !Omitted(m, obj, opts)
      && (m.requiredUntil.None? && m.version != 1 ==>
            if m.status == Existing then
              opts.target >= m.version || (m.serializeCondition.Some? && m.serializeCondition.value(obj))
            else
              opts.target < m.version)
  }

  function Emit(m: Member, obj: Object, opts: Options): (r: seq<Field>)
  {
    if Written(m, obj, opts) then [Field(m.id, obj(m.name))] else []
  }

  /** The generated write code writes a member exactly when its status, gates and default say so. */
  lemma WriteMeaning(m: Member, obj: Object, opts: Options)
    ensures RunWrite(GetSerializeElement(m), obj, opts) == Emit(m, obj, opts)
  {}

  function EmitAll(ms: seq<Member>, obj: Object, opts: Options): (r: seq<Field>) {
    if ms == [] then [] else Emit(ms[0], obj, opts) + EmitAll(ms[1..], obj, opts)
  }

  lemma {:induction false} EmitConcat(a: seq<Member>, b: seq<Member>, obj: Object, opts: Options)
    ensures EmitAll(a + b, obj, opts) == EmitAll(a, obj, opts) + EmitAll(b, obj, opts)
  {
    if a == [] {
      assert a + b == b;
    } else {
      assert (a + b)[1..] == a[1..] + b;
      EmitConcat(a[1..], b, obj, opts);
    }
  }

  /** All members of the classes along a path, base class first. */
  function PathMembers(path: seq<Class>): (r: seq<Member>) {
    if path == [] then [] else OwnMembers(path[0]) + PathMembers(path[1..])
  }

  lemma {:induction false} WritesMeaning(ms: seq<Member>, obj: Object, opts: Options)
    ensures RunWrites(WriteCodes(ms), obj, opts) == EmitAll(ms, obj, opts)
  {
    if ms != [] {
      var n := |ms| - 1;
      assert WriteCodes(ms)[..n] == WriteCodes(ms[..n]);
      WritesMeaning(ms[..n], obj, opts);
      WriteMeaning(ms[n], obj, opts);
      assert ms == ms[..n] + [ms[n]];
      EmitConcat(ms[..n], [ms[n]], obj, opts);
      assert EmitAll([ms[n]], obj, opts) == Emit(ms[n], obj, opts) + [];
    }
  }

  lemma {:induction false} PathMembersConcat(a: seq<Class>, b: seq<Class>)
    ensures PathMembers(a + b) == PathMembers(a) + PathMembers(b)
  {
    hide OwnMembers;
    if a == [] {
      assert a + b == b;
    } else {
      assert (a + b)[1..] == a[1..] + b;
      PathMembersConcat(a[1..], b);
    }
  }

  lemma SplitLast<T>(s: seq<T>)
    requires s != []
    ensures s == s[..|s| - 1] + [s[|s| - 1]]
  {}

  lemma LastClass(path: seq<Class>)
    requires path != []
    ensures PathMembers(path) ==
      (if |path| == 1 then [] else PathMembers(path[..|path| - 1])) + OwnMembers(path[|path| - 1])
  {
    hide OwnMembers;
    var n := |path| - 1;
    SplitLast(path);
    PathMembersConcat(path[..n], [path[n]]);
    assert PathMembers([path[n]]) == OwnMembers(path[n]) by {
      assert [path[n]][1..] == [];
    }
    if n == 0 {
      assert PathMembers(path[..n]) == [];
    }
  }

  /** Serialize writes the members of all classes on the path in order, base class first. */
  lemma {:induction false} SerializeMeaning(path: seq<Class>, obj: Object, opts: Options)
    requires path != []
    ensures Serialize(path, obj, opts) == EmitAll(PathMembers(path), obj, opts)
  {
    hide EmitAll, RunWrites, OwnMembers, WriteCodes;
    var n := |path| - 1;
    WritesMeaning(OwnMembers(path[n]), obj, opts);
    LastClass(path);
    if n > 0 {
      SerializeMeaning(path[..n], obj, opts);
      EmitConcat(PathMembers(path[..n]), OwnMembers(path[n]), obj, opts);
    } else {
      assert PathMembers(path) == OwnMembers(path[0]);
    }
  }

  // ---------------------------------------------------------------------------
  // What is read
  // ---------------------------------------------------------------------------

  /** A member together with the way its value is read. */
  datatype Planned = Planned(member: Member, kind: ReadKind)
  {
    /** The read succeeds on what was written. */
    predicate Present(obj: Object, opts: Options) {
      kind.Required? ==> Written(member, obj, opts)
    }

    /** The value that is read. */
    function ReadBack(obj: Object, opts: Options): Value {
      if Written(member, obj, opts) then obj(member.name)
      else if kind.WithDefault? then kind.default
      else 0
    }
  }

  predicate ReadLocally(cls: Class, i: nat)
    requires i < |cls.members|
  {
    cls.isBase || i < ConstructorPrefix(cls) || cls.members[i].name in cls.methodArgs || cls.members[i].skipAssign
  }

  /** The reads of the members from position i on. */
  function Plan(cls: Class, i: nat): (r: seq<Planned>)
    requires i <= |cls.members|
    decreases |cls.members| - i
  {
    if i == |cls.members| then []
    else
      var m := cls.members[i];
      (if m.serializeSkip && !cls.isBase then []
       else [Planned(m, if ReadLocally(cls, i) then LocalReadKind(m) else FieldReadKind(m))]) +
      Plan(cls, i + 1)
  }

  function PathPlan(path: seq<Class>): (r: seq<Planned>) {
    if path == [] then [] else Plan(path[0], 0) + PathPlan(path[1..])
  }

  function Members(plan: seq<Planned>): (r: seq<Member>) {
    seq(|plan|, i requires 0 <= i < |plan| => plan[i].member)
  }

  lemma {:induction false} WiredConcat(a: seq<Member>, b: seq<Member>)
    ensures Wired(a + b) == Wired(a) + Wired(b)
  {
    if a == [] {
      assert a + b == b;
    } else {
      assert (a + b)[1..] == a[1..] + b;
      WiredConcat(a[1..], b);
    }
  }

  lemma {:induction false} PlanMembers(cls: Class, i: nat)
    requires i <= |cls.members|
    ensures Members(Plan(cls, i)) == if cls.isBase then cls.members[i..] else Wired(cls.members[i..])
    decreases |cls.members| - i
  {
    hide Plan, Wired, Members;
    if i == |cls.members| {
      PlanEnd(cls);
    } else {
      PlanStep(cls, i);
      PlanMembers(cls, i + 1);
      WiredStep(cls.members, i);
      assert cls.members[i..] == [cls.members[i]] + cls.members[i + 1..];
    }
  }

  lemma PlanEnd(cls: Class)
    ensures Members(Plan(cls, |cls.members|)) == [] == cls.members[|cls.members|..] == Wired(cls.members[|cls.members|..])
  {}

  lemma PlanStep(cls: Class, i: nat)
    requires i < |cls.members|
    ensures Members(Plan(cls, i)) ==
      (if cls.members[i].serializeSkip && !cls.isBase then [] else [cls.members[i]]) + Members(Plan(cls, i + 1))
  {
    hide LocalReadKind, FieldReadKind, ReadLocally;
    var rest := Plan(cls, i + 1);
    if cls.members[i].serializeSkip && !cls.isBase {
      assert Plan(cls, i) == rest;
    } else {
      assert Plan(cls, i) == [PlannedAt(cls, i)] + rest;
      hide Plan;
      assert Members([PlannedAt(cls, i)] + rest) == [cls.members[i]] + Members(rest);
    }
  }

  lemma WiredStep(ms: seq<Member>, i: nat)
    requires i < |ms|
    ensures Wired(ms[i..]) == (if ms[i].serializeSkip then [] else [ms[i]]) + Wired(ms[i + 1..])
  {
    assert ms[i..][1..] == ms[i + 1..];
  }

  lemma MembersConcat(a: seq<Planned>, b: seq<Planned>)
    ensures Members(a + b) == Members(a) + Members(b)
  {}

  lemma {:induction false} PathPlanMembers(path: seq<Class>)
    ensures Members(PathPlan(path)) == PathMembers(path)
  {
    hide Plan, Wired;
    if path != [] {
      PlanMembers(path[0], 0);
      PathPlanMembers(path[1..]);
      assert path[0].members[0..] == path[0].members;
      hide OwnMembers;
      MembersConcat(Plan(path[0], 0), PathPlan(path[1..]));
    }
  }

  // ---------------------------------------------------------------------------
  // Running the deserialize instructions
  // ---------------------------------------------------------------------------

  lemma {:induction false} RunConcat(cls: Class, a: seq<Instr>, b: seq<Instr>, st: State)
    ensures Run(cls, a + b, st) ==
      match Run(cls, a, st)
      case Err(e) => Err(e)
      case Ok(st') => Run(cls, b, st')
    decreases |a|
  {
    hide Step, DispatchTo;
    if a == [] {
      assert a + b == b;
    } else {
      assert (a + b)[1..] == a[1..] + b;
      var next := if a[0].Dispatch? then DispatchTo(cls, a[0].tag, st) else Step(a[0], st);
      if next.Ok? {
        RunConcat(cls, a[1..], b, next.value);
      }
    }
  }

  lemma RunOne(cls: Class, instr: Instr, st: State)
    ensures Run(cls, [instr], st) == if instr.Dispatch? then DispatchTo(cls, instr.tag, st) else Step(instr, st)
  {
    hide Step, DispatchTo;
    assert [instr][1..] == [];
  }

  /** Known values: every entry of `known` is what `truth` says. */
  ghost predicate Agrees(known: map<string, Value>, truth: map<string, Value>) {
    forall n :: n in known ==> n in truth && known[n] == truth[n]
  }

  ghost predicate StateAgrees(st: State, truth: map<string, Value>) {
    Agrees(st.locals, truth) && Agrees(st.fields, truth) && Agrees(st.parameters, truth)
  }

  /** `truth` gives the value that is read back for a planned read. */
  ghost predicate Knows(truth: map<string, Value>, p: Planned, obj: Object, opts: Options) {
    p.kind != Drop && p.Present(obj, opts) ==>
      p.member.name in truth && truth[p.member.name] == p.ReadBack(obj, opts)
  }

  function Stored(m: map<string, Value>, p: Planned, obj: Object, opts: Options): map<string, Value> {
    if p.kind == Drop then m else m[p.member.name := p.ReadBack(obj, opts)]
  }

  /** Reading one member from the front of the stream. */
  lemma ReadStep(p: Planned, rest: seq<Field>, st: State, obj: Object, opts: Options)
    requires st.stream == Emit(p.member, obj, opts) + rest
    requires rest != [] ==> rest[0].id != p.member.id
    ensures Step(ReadLocal(p.kind, p.member.id, p.member.name), st) ==
      if p.Present(obj, opts) then Ok(st.(stream := rest, locals := Stored(st.locals, p, obj, opts)))
      else Err(FieldIdMismatch(p.member.id))
    ensures Step(ReadField(p.kind, p.member.id, p.member.name), st) ==
      if p.Present(obj, opts) then Ok(st.(stream := rest, fields := Stored(st.fields, p, obj, opts)))
      else Err(FieldIdMismatch(p.member.id))
  {
    hide Written;
    if Written(p.member, obj, opts) {
      assert st.stream[1..] == rest;
    } else {
      assert st.stream == rest;
    }
  }

  ghost predicate DistinctIds(ms: seq<Member>) {
    forall i, j :: 0 <= i < j < |ms| ==> ms[i].id != ms[j].id
  }

  /** The first field of a stream of members belongs to one of them. */
  lemma {:induction false} FirstFieldIsMember(ms: seq<Member>, id: int, obj: Object, opts: Options)
    requires forall i :: 0 <= i < |ms| ==> ms[i].id != id
    ensures EmitAll(ms, obj, opts) != [] ==> EmitAll(ms, obj, opts)[0].id != id
  {
    hide Written;
    if ms != [] {
      FirstFieldIsMember(ms[1..], id, obj, opts);
    }
  }

  predicate LocallyPresent(m: Member, obj: Object, opts: Options) {
    Planned(m, LocalReadKind(m)).Present(obj, opts)
  }

  /** The locals after reading the members into them. */
  function AddLocals(locals: map<string, Value>, ms: seq<Member>, obj: Object, opts: Options): map<string, Value>
    decreases |ms|
  {
    if ms == [] then locals
    else AddLocals(Stored(locals, Planned(ms[0], LocalReadKind(ms[0])), obj, opts), ms[1..], obj, opts)
  }

  lemma {:induction false} RunLocalReads(cls: Class, ms: seq<Member>, rest: seq<Member>, st: State,
                                         obj: Object, opts: Options)
    requires DistinctIds(ms + rest)
    requires st.stream == EmitAll(ms + rest, obj, opts)
    ensures (forall m <- ms :: LocallyPresent(m, obj, opts)) ==>
      Run(cls, LocalReads(ms), st) ==
        Ok(st.(stream := EmitAll(rest, obj, opts), locals := AddLocals(st.locals, ms, obj, opts)))
    ensures !(forall m <- ms :: LocallyPresent(m, obj, opts)) ==> Run(cls, LocalReads(ms), st).Err?
    decreases |ms|
  {
    hide Step, LocalReadKind, Stored, Emit;
    if ms == [] {
      assert ms + rest == rest;
    } else {
      var p := Planned(ms[0], LocalReadKind(ms[0]));
      var others := ms[1..] + rest;
      assert (ms + rest)[1..] == others;
      forall i | 0 <= i < |others| ensures others[i].id != ms[0].id {
        assert others[i] == (ms + rest)[i + 1];
      }
      FirstFieldIsMember(others, ms[0].id, obj, opts);
      ReadStep(p, EmitAll(others, obj, opts), st, obj, opts);
      assert LocalReads(ms)[0] == ReadIntoLocal(ms[0]) && LocalReads(ms)[1..] == LocalReads(ms[1..]);
      if p.Present(obj, opts) {
        forall i, j | 0 <= i < j < |others| ensures others[i].id != others[j].id {
          assert others[i] == (ms + rest)[i + 1] && others[j] == (ms + rest)[j + 1];
        }
        var next := st.(stream := EmitAll(others, obj, opts), locals := Stored(st.locals, p, obj, opts));
        RunLocalReads(cls, ms[1..], rest, next, obj, opts);
        assert LocallyPresent(ms[0], obj, opts);
        assert forall m <- ms :: m == ms[0] || m in ms[1..];
      } else {
        assert !LocallyPresent(ms[0], obj, opts) && ms[0] in ms;
      }
    }
  }

  lemma {:induction false} AddedLocals(locals: map<string, Value>, ms: seq<Member>, truth: map<string, Value>,
                                       obj: Object, opts: Options)
    requires Agrees(locals, truth)
    requires forall m <- ms :: LocallyPresent(m, obj, opts)
    requires forall m <- ms :: Knows(truth, Planned(m, LocalReadKind(m)), obj, opts)
    ensures Agrees(AddLocals(locals, ms, obj, opts), truth)
    ensures locals.Keys <= AddLocals(locals, ms, obj, opts).Keys
    ensures forall m <- ms :: m.status != Deleted ==> m.name in AddLocals(locals, ms, obj, opts)
    decreases |ms|
  {
    hide Written, Planned.ReadBack;
    if ms != [] {
      var p := Planned(ms[0], LocalReadKind(ms[0]));
      assert ms[0] in ms && LocallyPresent(ms[0], obj, opts) && Knows(truth, p, obj, opts);
      AddedLocals(Stored(locals, p, obj, opts), ms[1..], truth, obj, opts);
    }
  }

  // ---------------------------------------------------------------------------
  // Delivering locals to the result
  // ---------------------------------------------------------------------------

  predicate Resolvable(st: State, arg: ConstructorArg) {
    if arg.LocalArg? then arg.name in st.locals else arg.name in st.parameters
  }

  lemma ConstructStep(st: State, args: seq<ConstructorArg>, truth: map<string, Value>)
    requires StateAgrees(st, truth) && args != [] && Resolvable(st, args[|args| - 1])
    ensures var name, before := args[|args| - 1].name, ConstructResult(st, args[..|args| - 1]);
      before.Ok? && before.value == st.(fields := before.value.fields) && Agrees(before.value.fields, truth) ==>
        && name in truth
        && ConstructResult(st, args) == Ok(st.(fields := before.value.fields[name := truth[name]]))
        && Agrees(before.value.fields[name := truth[name]], truth)
  {
  }

  lemma {:induction false} ConstructDelivers(st: State, args: seq<ConstructorArg>, truth: map<string, Value>)
    requires StateAgrees(st, truth) && forall a <- args :: Resolvable(st, a)
    ensures var r := ConstructResult(st, args);
      && r.Ok? && r.value == st.(fields := r.value.fields)
      && Agrees(r.value.fields, truth) && st.fields.Keys <= r.value.fields.Keys
      && forall a <- args :: a.name in r.value.fields
  {
    if args != [] {
      var n := |args| - 1;
      ConstructDelivers(st, args[..n], truth);
      assert args[n] in args && Resolvable(st, args[n]);
      hide ConstructResult, Agrees;
      ConstructStep(st, args, truth);
      assert forall a <- args :: a in args[..n] || a == args[n];
    }
  }

  lemma {:induction false} MethodsDeliver(st: State, names: seq<string>, truth: map<string, Value>)
    requires StateAgrees(st, truth) && forall n <- names :: n in st.locals
    ensures var r := Deliver(st, names);
      && r.Ok? && r.value == st.(fields := r.value.fields)
      && Agrees(r.value.fields, truth) && st.fields.Keys <= r.value.fields.Keys
      && forall n <- names :: n in r.value.fields
  {
    if names != [] {
      var n := |names| - 1;
      MethodsDeliver(st, names[..n], truth);
      assert names[n] in names;
      assert forall a <- names :: a in names[..n] || a == names[n];
    }
  }

  lemma {:induction false} RunUnsets(cls: Class, names: seq<string>, st: State)
    ensures var r := Run(cls, Unsets(names), st);
      && r.Ok? && r.value == st.(parameters := st.parameters - (set n <- names))
    decreases |names|
  {
    if names == [] {
      assert st.parameters - (set n <- names) == st.parameters;
    } else {
      assert Unsets(names)[1..] == Unsets(names[1..]);
      var next := st.(parameters := st.parameters - {names[0]});
      RunUnsets(cls, names[1..], next);
      assert next.parameters - (set n <- names[1..]) == st.parameters - (set n <- names);
    }
  }

  lemma {:induction false} RunSets(cls: Class, names: seq<string>, st: State, truth: map<string, Value>)
    requires StateAgrees(st, truth) && forall n <- names :: n in st.locals
    ensures var r := Run(cls, Sets(names), st);
      && r.Ok? && r.value == st.(parameters := r.value.parameters)
      && Agrees(r.value.parameters, truth)
      && r.value.parameters.Keys == st.parameters.Keys + set n <- names
    decreases |names|
  {
    if names != [] {
      assert Sets(names)[1..] == Sets(names[1..]);
      assert names[0] in names && forall n <- names[1..] :: n in names;
      var next := st.(parameters := st.parameters[names[0] := st.locals[names[0]]]);
      RunSets(cls, names[1..], next, truth);
      assert (set n <- names) == {names[0]} + set n <- names[1..];
    }
  }

  // ---------------------------------------------------------------------------
  // Deserialize of a class without children
  // ---------------------------------------------------------------------------

  predicate Takes(m: Member) {
    !m.serializeSkip && m.status != Deleted
  }

  /** The emitted code of the class compiles: every name it uses is a local or a parameter that exists. */
  ghost predicate WellFormedLeaf(cls: Class, inherited: seq<string>) {
    && !cls.isBase
    && (forall i, j :: 0 <= i < j < |cls.members| ==> cls.members[i].name != cls.members[j].name)
    && (forall n <- ConstructorNames(cls) :: n in Names(cls.members) || n in inherited)
    && (forall i :: 0 <= i < |cls.members| && cls.members[i].name in ConstructorNames(cls) ==> Takes(cls.members[i]))
    && (forall n <- cls.methodArgs :: n in Names(cls.members))
    && (forall i :: 0 <= i < |cls.members| && cls.members[i].name in cls.methodArgs ==> Takes(cls.members[i]))
    && (forall i :: 0 <= i < |cls.members| && cls.members[i].name in cls.setParameters ==> ReadLocally(cls, i))
  }

  lemma {:induction false} ArgsNames(ms: seq<Member>, parameters: seq<string>, names: seq<string>)
    ensures forall a <- ConstructorArgs(ms, parameters, names) ::
      a.name in names && (if a.LocalArg? then a.name in Names(ms) else a.name in parameters)
    ensures forall n <- names :: n in Names(ms) || n in parameters ==>
      exists a <- ConstructorArgs(ms, parameters, names) :: a.name == n
  {
    if names != [] {
      var n := |names| - 1;
      ArgsNames(ms, parameters, names[..n]);
      var before := ConstructorArgs(ms, parameters, names[..n]);
      var args := ConstructorArgs(ms, parameters, names);
      assert args == before + ArgsOf(ms, parameters, names[n]);
      forall x <- names | x in Names(ms) || x in parameters ensures exists a <- args :: a.name == x {
        if x in names[..n] {
          var a :| a in before && a.name == x;
          assert a in args;
        } else {
          assert x == names[n];
          var a := ArgsOf(ms, parameters, x)[0];
          assert a in args && a.name == x;
        }
      }
    }
  }

  lemma {:induction false} NotDeletedContents(ms: seq<Member>)
    ensures forall m <- NotDeleted(ms) :: m in ms && m.status != Deleted
    ensures forall m <- ms :: m.status != Deleted ==> m in NotDeleted(ms)
  {
    if ms != [] {
      NotDeletedContents(ms[1..]);
      assert forall m <- ms :: m == ms[0] || m in ms[1..];
    }
  }

  lemma NotDeletedNames(ms: seq<Member>)
    ensures forall n <- Names(NotDeleted(ms)) :: n in Names(ms)
  {
    NotDeletedContents(ms);
    var kept := NotDeleted(ms);
    forall n <- Names(kept) ensures n in Names(ms) {
      var i :| 0 <= i < |kept| && Names(kept)[i] == n;
      assert kept[i] in kept && kept[i] in ms;
      var j :| 0 <= j < |ms| && ms[j] == kept[i];
      assert Names(ms)[j] == n;
    }
  }

  /** Constructor arguments resolve, and cover the constructor's names. */
  lemma LeafArgs(cls: Class, inherited: seq<string>)
    requires WellFormedLeaf(cls, inherited)
    ensures forall a <- ClassConstructorArgs(cls, inherited) ::
      a.name in ConstructorNames(cls) && (if a.LocalArg? then a.name in Names(cls.members) else a.name in inherited)
    ensures forall n <- ConstructorNames(cls) :: exists a <- ClassConstructorArgs(cls, inherited) :: a.name == n
  {
    if cls.constructorEntries.Some? {
      ArgsNames(cls.members, inherited, cls.constructorEntries.value);
    } else {
      NotDeletedNames(cls.members);
      var args := ClassConstructorArgs(cls, inherited);
      forall n <- ConstructorNames(cls) ensures exists a <- args :: a.name == n {
        var i :| 0 <= i < |ConstructorNames(cls)| && ConstructorNames(cls)[i] == n;
        assert args[i] in args;
      }
    }
  }

  /** Every member the constructor names is read before the constructor runs. */
  lemma ConstructorReadFirst(cls: Class, inherited: seq<string>, i: nat)
    requires WellFormedLeaf(cls, inherited) && i < |cls.members| && cls.members[i].name in ConstructorNames(cls)
    ensures i < ConstructorPrefix(cls)
  {
    if cls.constructorEntries.Some? {
      assert IsFirstNamed(cls.members, i, cls.members[i].name);
    }
  }

  lemma WiredPrefix(ms: seq<Member>, k: nat)
    requires k <= |ms|
    ensures Wired(ms) == Wired(ms[..k]) + Wired(ms[k..])
  {
    hide Wired;
    assert ms == ms[..k] + ms[k..];
    WiredConcat(ms[..k], ms[k..]);
  }

  lemma {:induction false} WiredContents(ms: seq<Member>)
    ensures forall m <- Wired(ms) :: m in ms && !m.serializeSkip
    ensures forall m <- ms :: !m.serializeSkip ==> m in Wired(ms)
  {
    if ms != [] {
      WiredContents(ms[1..]);
      assert forall m <- ms :: m == ms[0] || m in ms[1..];
    }
  }

  function PlannedAt(cls: Class, i: nat): Planned
    requires i < |cls.members|
  {
    Planned(cls.members[i], if ReadLocally(cls, i) then LocalReadKind(cls.members[i]) else FieldReadKind(cls.members[i]))
  }

  ghost predicate OwnPresent(cls: Class, low: nat, high: nat, obj: Object, opts: Options)
    requires high <= |cls.members|
  {
    forall i :: low <= i < high && (cls.isBase || !cls.members[i].serializeSkip) ==>
      PlannedAt(cls, i).Present(obj, opts)
  }

  ghost predicate OwnKnown(cls: Class, truth: map<string, Value>, obj: Object, opts: Options) {
    forall i :: 0 <= i < |cls.members| && (cls.isBase || !cls.members[i].serializeSkip) ==>
      Knows(truth, PlannedAt(cls, i), obj, opts)
  }

  /** The code after the constructor call sets the member's field by itself. */
  predicate Settled(cls: Class, i: nat)
    requires i < |cls.members|
  {
    var m := cls.members[i];
    && m.status == Existing && !m.serializeSkip
    && m.name !in cls.methodArgs && m.name !in ConstructorNames(cls)
    && (i < ConstructorPrefix(cls) || !ReadLocally(cls, i))
  }

  /** After the constructor call and the code for the first n members. */
  ghost predicate LeafProgress(cls: Class, n: nat, st: State, truth: map<string, Value>, obj: Object, opts: Options)
    requires n <= |cls.members|
  {
    var k := if n > ConstructorPrefix(cls) then n else ConstructorPrefix(cls);
    && st.stream == EmitAll(Wired(cls.members[k..]), obj, opts)
    && st.dispatched == []
    && StateAgrees(st, truth)
    && (forall j :: 0 <= j < k && Takes(cls.members[j]) && ReadLocally(cls, j) ==> cls.members[j].name in st.locals)
    && (forall j :: 0 <= j < n && Settled(cls, j) ==> cls.members[j].name in st.fields)
  }

  ghost predicate Grows(st: State, st': State) {
    st.locals.Keys <= st'.locals.Keys && st.fields.Keys <= st'.fields.Keys && st.parameters.Keys <= st'.parameters.Keys
  }

  lemma WiredHead(ms: seq<Member>, n: nat)
    requires n < |ms| && !ms[n].serializeSkip && DistinctIds(Wired(ms[n..]))
    ensures Wired(ms[n..]) == [ms[n]] + Wired(ms[n + 1..])
    ensures var others := Wired(ms[n + 1..]); forall i :: 0 <= i < |others| ==> others[i].id != ms[n].id
  {
    hide Wired;
    WiredStep(ms, n);
    var whole, others := Wired(ms[n..]), Wired(ms[n + 1..]);
    assert whole == [ms[n]] + others;
    forall i | 0 <= i < |others| ensures others[i].id != ms[n].id {
      assert whole[0].id != whole[i + 1].id;
    }
  }

  /** The stream position and the knowledge that reading member n needs. */
  lemma AfterRead(cls: Class, n: nat, st: State, truth: map<string, Value>, obj: Object, opts: Options)
    requires !cls.isBase && ConstructorPrefix(cls) <= n < |cls.members| && !cls.members[n].serializeSkip
    requires DistinctIds(Wired(cls.members[n..])) && OwnKnown(cls, truth, obj, opts)
    requires LeafProgress(cls, n, st, truth, obj, opts)
    ensures var m := cls.members[n];
      var instr := if ReadLocally(cls, n) then ReadIntoLocal(m) else ReadIntoField(m);
      var r := Step(instr, st);
      if PlannedAt(cls, n).Present(obj, opts) then
        && r.Ok? && Grows(st, r.value) && StateAgrees(r.value, truth)
        && r.value == st.(stream := EmitAll(Wired(cls.members[n + 1..]), obj, opts),
                          locals := r.value.locals, fields := r.value.fields)
        && (Takes(m) ==> if ReadLocally(cls, n) then m.name in r.value.locals else m.name in r.value.fields)
      else r.Err?
  {
    hide Step, Written, ReadLocally, ConstructorPrefix, Wired;
    var m := cls.members[n];
    var p := PlannedAt(cls, n);
    WiredHead(cls.members, n);
    var others := Wired(cls.members[n + 1..]);
    FirstFieldIsMember(others, m.id, obj, opts);
    ReadStep(p, EmitAll(others, obj, opts), st, obj, opts);
    assert Knows(truth, p, obj, opts);
  }

  lemma AfterMemberRead(cls: Class, inherited: seq<string>, n: nat, st: State, truth: map<string, Value>,
                        obj: Object, opts: Options)
    requires WellFormedLeaf(cls, inherited) && ConstructorPrefix(cls) <= n < |cls.members|
    requires !cls.members[n].serializeSkip && DistinctIds(Wired(cls.members[n..]))
    requires OwnKnown(cls, truth, obj, opts) && LeafProgress(cls, n, st, truth, obj, opts)
    ensures var r := Run(cls, AfterConstructRead(cls, n), st);
      if PlannedAt(cls, n).Present(obj, opts) then
        r.Ok? && Grows(st, r.value) && LeafProgress(cls, n + 1, r.value, truth, obj, opts)
      else r.Err?
  {
    hide Step, Written, ConstructorPrefix, EmitAll, LocalReadKind, FieldReadKind, Wired, DistinctIds, OwnKnown, PlannedAt;
    var m := cls.members[n];
    var instr := if ReadLocally(cls, n) then ReadIntoLocal(m) else ReadIntoField(m);
    assert AfterConstructRead(cls, n) == [instr];
    AfterRead(cls, n, st, truth, obj, opts);
    RunOne(cls, instr, st);
  }

  lemma AfterMemberSkip(cls: Class, n: nat, st: State, truth: map<string, Value>, obj: Object, opts: Options)
    requires n < |cls.members| && cls.members[n].serializeSkip
    requires LeafProgress(cls, n, st, truth, obj, opts)
    ensures Run(cls, AfterConstructRead(cls, n), st) == Ok(st)
    ensures LeafProgress(cls, n + 1, st, truth, obj, opts)
  {
    hide Step, Written, ConstructorPrefix, EmitAll, Wired;
    WiredStep(cls.members, n);
    assert AfterConstructRead(cls, n) == [];
    assert Wired(cls.members[n..]) == Wired(cls.members[n + 1..]);
  }

  lemma AfterMemberAssign(cls: Class, n: nat, st: State, truth: map<string, Value>, obj: Object, opts: Options)
    requires n < |cls.members| && n < ConstructorPrefix(cls) && !cls.members[n].serializeSkip
    requires LeafProgress(cls, n, st, truth, obj, opts)
    ensures var r := Run(cls, AfterConstructRead(cls, n), st);
      r.Ok? && Grows(st, r.value) && LeafProgress(cls, n + 1, r.value, truth, obj, opts)
  {
    hide Step, Written, ConstructorPrefix, EmitAll, Wired;
    var m := cls.members[n];
    if Settled(cls, n) {
      assert AfterConstructRead(cls, n) == [Assign(m.name)];
      assert Takes(m) && ReadLocally(cls, n);
      RunOne(cls, Assign(m.name), st);
      AssignStep(st, m.name, truth);
    } else {
      assert AfterConstructRead(cls, n) == [];
    }
  }

  lemma AfterMember(cls: Class, inherited: seq<string>, n: nat, st: State, truth: map<string, Value>,
                    obj: Object, opts: Options)
    requires WellFormedLeaf(cls, inherited) && n < |cls.members|
    requires n >= ConstructorPrefix(cls) ==> DistinctIds(Wired(cls.members[n..]))
    requires OwnKnown(cls, truth, obj, opts) && LeafProgress(cls, n, st, truth, obj, opts)
    ensures var r := Run(cls, AfterConstruct(cls, n), st);
      if n < ConstructorPrefix(cls) || cls.members[n].serializeSkip || PlannedAt(cls, n).Present(obj, opts) then
        r.Ok? && Grows(st, r.value) && LeafProgress(cls, n + 1, r.value, truth, obj, opts)
      else r.Err?
  {
    hide Step, Written, ConstructorPrefix, EmitAll, AfterConstructRead, Run;
    if cls.members[n].serializeSkip {
      AfterMemberSkip(cls, n, st, truth, obj, opts);
    } else if n < ConstructorPrefix(cls) {
      AfterMemberAssign(cls, n, st, truth, obj, opts);
    } else {
      AfterMemberRead(cls, inherited, n, st, truth, obj, opts);
    }
    RunConcat(cls, AfterConstructRead(cls, n), AfterConstructSet(cls, n), st);
    var mid := Run(cls, AfterConstructRead(cls, n), st);
    if mid.Ok? {
      AfterMemberSet(cls, inherited, n, mid.value, truth, obj, opts);
    }
  }

  lemma AfterMemberSet(cls: Class, inherited: seq<string>, n: nat, st: State, truth: map<string, Value>,
                       obj: Object, opts: Options)
    requires WellFormedLeaf(cls, inherited) && n < |cls.members|
    requires LeafProgress(cls, n + 1, st, truth, obj, opts)
    ensures var r := Run(cls, AfterConstructSet(cls, n), st);
      r.Ok? && Grows(st, r.value) && LeafProgress(cls, n + 1, r.value, truth, obj, opts)
  {
    hide Step, Written, ConstructorPrefix, EmitAll;
    var m := cls.members[n];
    if AfterConstructSet(cls, n) != [] {
      RunOne(cls, Set(m.name), st);
      SetStep(st, m.name, truth);
    }
  }

  lemma AssignStep(st: State, name: string, truth: map<string, Value>)
    requires StateAgrees(st, truth) && name in st.locals
    ensures Step(Assign(name), st) == Ok(st.(fields := st.fields[name := truth[name]]))
  {}

  lemma SetStep(st: State, name: string, truth: map<string, Value>)
    requires StateAgrees(st, truth) && name in st.locals
    ensures Step(Set(name), st) == Ok(st.(parameters := st.parameters[name := truth[name]]))
  {}

  lemma OwnPresentStep(cls: Class, low: nat, n: nat, obj: Object, opts: Options)
    requires !cls.isBase && 0 < n <= |cls.members|
    ensures OwnPresent(cls, low, n, obj, opts) <==>
      && OwnPresent(cls, low, n - 1, obj, opts)
      && (n - 1 < low || cls.members[n - 1].serializeSkip || PlannedAt(cls, n - 1).Present(obj, opts))
  {
    hide PlannedAt, Planned.Present;
    if OwnPresent(cls, low, n - 1, obj, opts) && n - 1 >= low && !cls.members[n - 1].serializeSkip {
      assert OwnPresent(cls, low, n, obj, opts) ==> PlannedAt(cls, n - 1).Present(obj, opts);
    }
  }

  lemma {:induction false} AfterMembers(cls: Class, inherited: seq<string>, n: nat, st: State,
                                        truth: map<string, Value>, obj: Object, opts: Options)
    requires WellFormedLeaf(cls, inherited) && n <= |cls.members|
    requires DistinctIds(Wired(cls.members[ConstructorPrefix(cls)..]))
    requires OwnKnown(cls, truth, obj, opts) && LeafProgress(cls, 0, st, truth, obj, opts)
    ensures var r := Run(cls, AfterConstructs(cls, n), st);
      if OwnPresent(cls, ConstructorPrefix(cls), n, obj, opts) then
        r.Ok? && Grows(st, r.value) && LeafProgress(cls, n, r.value, truth, obj, opts)
      else r.Err?
  {
    hide Written, ConstructorPrefix, LeafProgress, WellFormedLeaf, Run, OwnKnown, DistinctIds,
      PlannedAt, AfterConstructs, Wired;
    if n == 0 {
      NoMembers(cls, st);
    } else {
      AfterMembers(cls, inherited, n - 1, st, truth, obj, opts);
      LeafIsLeaf(cls, inherited);
      OwnPresentStep(cls, ConstructorPrefix(cls), n, obj, opts);
      AfterMembersStep(cls, inherited, n, st, truth, obj, opts);
    }
  }

  lemma NoMembers(cls: Class, st: State)
    ensures Run(cls, AfterConstructs(cls, 0), st) == Ok(st)
  {}

  lemma AfterMembersStep(cls: Class, inherited: seq<string>, n: nat, st: State, truth: map<string, Value>,
                         obj: Object, opts: Options)
    requires WellFormedLeaf(cls, inherited) && 0 < n <= |cls.members|
    requires DistinctIds(Wired(cls.members[ConstructorPrefix(cls)..])) && OwnKnown(cls, truth, obj, opts)
    requires var mid := Run(cls, AfterConstructs(cls, n - 1), st);
      mid.Ok? ==> Grows(st, mid.value) && LeafProgress(cls, n - 1, mid.value, truth, obj, opts)
    ensures var mid := Run(cls, AfterConstructs(cls, n - 1), st);
      var r := Run(cls, AfterConstructs(cls, n), st);
      if mid.Err? then r.Err?
      else if n - 1 < ConstructorPrefix(cls) || cls.members[n - 1].serializeSkip || PlannedAt(cls, n - 1).Present(obj, opts) then
        r.Ok? && Grows(st, r.value) && LeafProgress(cls, n, r.value, truth, obj, opts)
      else r.Err?
  {
    hide Written, ConstructorPrefix, LeafProgress, AfterConstruct, WellFormedLeaf, Wired, Planned.Present, Run,
      OwnKnown, DistinctIds, PlannedAt;
    RunConcat(cls, AfterConstructs(cls, n - 1), AfterConstruct(cls, n - 1), st);
    var mid := Run(cls, AfterConstructs(cls, n - 1), st);
    if mid.Ok? {
      if n - 1 >= ConstructorPrefix(cls) {
        WiredSuffixDistinct(cls.members, ConstructorPrefix(cls), n - 1);
      }
      AfterMember(cls, inherited, n - 1, mid.value, truth, obj, opts);
    }
  }

  lemma WiredSuffixDistinct(ms: seq<Member>, low: nat, high: nat)
    requires low <= high <= |ms| && DistinctIds(Wired(ms[low..]))
    ensures DistinctIds(Wired(ms[high..]))
  {
    hide Wired;
    WiredPrefix(ms[low..], high - low);
    assert ms[low..][high - low..] == ms[high..];
    var whole, k := Wired(ms[low..]), |Wired(ms[low..][..high - low])|;
    var part := Wired(ms[high..]);
    forall i, j | 0 <= i < j < |part| ensures part[i].id != part[j].id {
      assert part[i] == whole[k + i] && part[j] == whole[k + j];
    }
  }

  // ---------------------------------------------------------------------------
  // One class at the end of a path
  // ---------------------------------------------------------------------------

  /** The members whose value is put into the result by the Deserialize of the class itself. */
  ghost predicate LeafDelivers(cls: Class, i: nat)
    requires i < |cls.members|
  {
    var m := cls.members[i];
    Settled(cls, i) || (Takes(m) && (m.name in ConstructorNames(cls) || m.name in cls.methodArgs))
  }

  lemma PlannedPrefix(cls: Class, obj: Object, opts: Options)
    requires !cls.isBase
    ensures (forall m <- Wired(cls.members[..ConstructorPrefix(cls)]) :: LocallyPresent(m, obj, opts)) <==>
      OwnPresent(cls, 0, ConstructorPrefix(cls), obj, opts)
  {
    hide Written, ConstructorPrefix, LocalReadKind;
    var k := ConstructorPrefix(cls);
    WiredContents(cls.members[..k]);
    if OwnPresent(cls, 0, k, obj, opts) {
      forall m <- Wired(cls.members[..k]) ensures LocallyPresent(m, obj, opts) {
        var i :| 0 <= i < k && cls.members[..k][i] == m;
        assert PlannedAt(cls, i).Present(obj, opts);
      }
    } else {
      var i :| 0 <= i < k && !cls.members[i].serializeSkip && !PlannedAt(cls, i).Present(obj, opts);
      assert cls.members[..k][i] == cls.members[i];
      assert !LocallyPresent(cls.members[i], obj, opts);
    }
  }

  /** Reading the constructor prefix of a class without children. */
  lemma LeafPrefix(cls: Class, inherited: seq<string>, st: State, truth: map<string, Value>, obj: Object, opts: Options)
    requires WellFormedLeaf(cls, inherited) && DistinctIds(Wired(cls.members))
    requires st.stream == EmitAll(Wired(cls.members), obj, opts)
    requires st.locals == st.fields == map[] && st.dispatched == [] && Agrees(st.parameters, truth)
    requires OwnKnown(cls, truth, obj, opts)
    ensures var r := Run(cls, LocalReads(Wired(cls.members[..ConstructorPrefix(cls)])), st);
      if OwnPresent(cls, 0, ConstructorPrefix(cls), obj, opts) then
        r.Ok? && Grows(st, r.value) && LeafProgress(cls, 0, r.value, truth, obj, opts)
      else r.Err?
  {
    hide Written, ConstructorPrefix, LocalReadKind, FieldReadKind, EmitAll, Run;
    var k := ConstructorPrefix(cls);
    var head := Wired(cls.members[..k]);
    WiredPrefix(cls.members, k);
    RunLocalReads(cls, head, Wired(cls.members[k..]), st, obj, opts);
    PlannedPrefix(cls, obj, opts);
    if OwnPresent(cls, 0, k, obj, opts) {
      PrefixKnown(cls, truth, obj, opts);
      AddedLocals(st.locals, head, truth, obj, opts);
    }
  }

  lemma PrefixKnown(cls: Class, truth: map<string, Value>, obj: Object, opts: Options)
    requires !cls.isBase && OwnKnown(cls, truth, obj, opts)
    ensures var head := Wired(cls.members[..ConstructorPrefix(cls)]);
      && (forall m <- head :: Knows(truth, Planned(m, LocalReadKind(m)), obj, opts))
      && (forall j :: 0 <= j < ConstructorPrefix(cls) && Takes(cls.members[j]) ==> cls.members[j] in head)
  {
    hide Written, ConstructorPrefix, LocalReadKind, FieldReadKind, Knows;
    var k := ConstructorPrefix(cls);
    var head := Wired(cls.members[..k]);
    WiredContents(cls.members[..k]);
    forall m <- head ensures Knows(truth, Planned(m, LocalReadKind(m)), obj, opts) {
      var i :| 0 <= i < k && cls.members[..k][i] == m;
      assert Knows(truth, PlannedAt(cls, i), obj, opts);
    }
    forall j | 0 <= j < k && Takes(cls.members[j]) ensures cls.members[j] in head {
      assert cls.members[..k][j] == cls.members[j];
    }
  }

  /** Calling the constructor. */
  lemma LeafConstruct(cls: Class, inherited: seq<string>, st: State, truth: map<string, Value>,
                      obj: Object, opts: Options)
    requires WellFormedLeaf(cls, inherited) && LeafProgress(cls, 0, st, truth, obj, opts)
    requires forall n <- inherited :: n in st.parameters
    ensures var r := Run(cls, [Construct(ClassConstructorArgs(cls, inherited))], st);
      && r.Ok? && Grows(st, r.value) && LeafProgress(cls, 0, r.value, truth, obj, opts)
      && forall n <- ConstructorNames(cls) :: n in r.value.fields
  {
    hide Written, ConstructorPrefix, EmitAll, ClassConstructorArgs, ConstructorNames, Wired;
    var args := ClassConstructorArgs(cls, inherited);
    LeafArgs(cls, inherited);
    forall a <- args ensures Resolvable(st, a) {
      if a.LocalArg? {
        var i :| 0 <= i < |cls.members| && Names(cls.members)[i] == a.name;
        assert cls.members[i].name in ConstructorNames(cls);
        ConstructorReadFirst(cls, inherited, i);
        assert ReadLocally(cls, i);
      }
    }
    ConstructDelivers(st, args, truth);
    RunOne(cls, Construct(args), st);
  }

  /** Everything after the constructor call. */
  lemma LeafFinish(cls: Class, inherited: seq<string>, st: State, truth: map<string, Value>, obj: Object, opts: Options)
    requires WellFormedLeaf(cls, inherited) && LeafProgress(cls, |cls.members|, st, truth, obj, opts)
    ensures var r := Run(cls, [CallMethods(cls.methodArgs)] + Unsets(cls.setParameters), st);
      && r.Ok? && st.fields.Keys <= r.value.fields.Keys && r.value.stream == [] && r.value.dispatched == []
      && StateAgrees(r.value, truth)
      && r.value.parameters.Keys == st.parameters.Keys - (set n <- cls.setParameters)
      && (forall n <- cls.methodArgs :: n in r.value.fields)
  {
    hide Written, ConstructorPrefix, ClassConstructorArgs, ConstructorNames;
    forall n <- cls.methodArgs ensures n in st.locals {
      var i :| 0 <= i < |cls.members| && Names(cls.members)[i] == n;
      assert Takes(cls.members[i]) && ReadLocally(cls, i);
    }
    MethodsDeliver(st, cls.methodArgs, truth);
    RunOne(cls, CallMethods(cls.methodArgs), st);
    RunConcat(cls, [CallMethods(cls.methodArgs)], Unsets(cls.setParameters), st);
    RunUnsets(cls, cls.setParameters, Deliver(st, cls.methodArgs).value);
    assert cls.members[|cls.members|..] == [];
  }

  /** The result of the Deserialize of `cls` on a path. */
  ghost predicate Restored(cls: Class, r: Result<State, ReadError>, path: seq<Class>, truth: map<string, Value>) {
    && r.Ok?
    && r.value.stream == []
    && r.value.dispatched == path
    && Agrees(r.value.fields, truth)
    && Agrees(r.value.parameters, truth)
  }

  lemma DeserializeLeaf(cls: Class, inherited: seq<string>, parameters: map<string, Value>, truth: map<string, Value>,
                        obj: Object, opts: Options)
    requires WellFormedLeaf(cls, inherited) && DistinctIds(Wired(cls.members))
    requires Agrees(parameters, truth) && forall n <- inherited :: n in parameters
    requires OwnKnown(cls, truth, obj, opts)
    ensures var r := Deserialize(cls, inherited, EmitAll(Wired(cls.members), obj, opts), parameters);
      if OwnPresent(cls, 0, |cls.members|, obj, opts) then
        && Restored(cls, r, [cls], truth)
        && (forall i :: 0 <= i < |cls.members| && LeafDelivers(cls, i) ==> cls.members[i].name in r.value.fields)
        && (forall n <- ConstructorNames(cls) :: n in r.value.fields)
      else r.Err?
  {
    hide Written, ConstructorPrefix, EmitAll, ClassConstructorArgs, ConstructorNames, Wired, Run, LeafProgress,
      WellFormedLeaf, OwnKnown;
    var k := ConstructorPrefix(cls);
    var st0 := State(EmitAll(Wired(cls.members), obj, opts), map[], map[], parameters, []);
    var c1 := LocalReads(Wired(cls.members[..k]));
    var c2 := [Construct(ClassConstructorArgs(cls, inherited))];
    var c3 := AfterConstructs(cls, |cls.members|);
    var c4 := [CallMethods(cls.methodArgs)] + Unsets(cls.setParameters);
    assert !cls.isBase by { LeafIsLeaf(cls, inherited); }
    assert DeserializeCode(cls, inherited) == c1 + c2 + c3 + c4;
    RunConcat(cls, c1 + c2 + c3, c4, st0);
    RunConcat(cls, c1 + c2, c3, st0);
    RunConcat(cls, c1, c2, st0);
    LeafPrefix(cls, inherited, st0, truth, obj, opts);
    var r1 := Run(cls, c1, st0);
    if r1.Ok? {
      LeafConstruct(cls, inherited, r1.value, truth, obj, opts);
      var r2 := Run(cls, c2, r1.value);
      assert cls.members[0..] == cls.members;
      WiredSuffixDistinct(cls.members, 0, k);
      AfterMembers(cls, inherited, |cls.members|, r2.value, truth, obj, opts);
      var r3 := Run(cls, c3, r2.value);
      if r3.Ok? {
        LeafFinish(cls, inherited, r3.value, truth, obj, opts);
        SettledFields(cls, r3.value, truth, obj, opts);
      }
    }
  }

  lemma LeafIsLeaf(cls: Class, inherited: seq<string>)
    requires WellFormedLeaf(cls, inherited)
    ensures !cls.isBase
  {}

  lemma SettledFields(cls: Class, st: State, truth: map<string, Value>, obj: Object, opts: Options)
    requires LeafProgress(cls, |cls.members|, st, truth, obj, opts)
    ensures forall i :: 0 <= i < |cls.members| && Settled(cls, i) ==> cls.members[i].name in st.fields
  {}

  // ---------------------------------------------------------------------------
  // A base class, and whole paths
  // ---------------------------------------------------------------------------

  /** The member that selects the subclass is written by every version. */
  predicate IsTag(m: Member) {
    m.status == Existing && m.version == 1 && m.serializeUntil.None? && m.deserializeDefault.None?
  }

  ghost predicate WellFormedBase(cls: Class) {
    && cls.isBase
    && (forall i, j :: 0 <= i < j < |cls.members| ==> cls.members[i].name != cls.members[j].name)
    && (exists i :: 0 <= i < |cls.members| && cls.members[i].name == cls.tag && IsTag(cls.members[i]))
    && (forall n <- cls.setParameters :: HasMember(cls, n))
    && (forall n <- cls.methodArgs :: HasMember(cls, n))
  }

  ghost predicate HasMember(cls: Class, name: string) {
    exists i :: 0 <= i < |cls.members| && cls.members[i].name == name && cls.members[i].status != Deleted
  }

  /** The classes from `path[0]` down to the class that the tags of the object name; their code compiles. */
  ghost predicate WellFormedPath(path: seq<Class>, inherited: seq<string>, obj: Object)
    decreases |path|
  {
    && path != []
    && (if path[0].isBase then
          && WellFormedBase(path[0])
          && |path| > 1
          && (var child := FindChild(path[0].children, obj(path[0].tag)); child.Some? && child.value.cls == path[1])
          && WellFormedPath(path[1..], path[0].setParameters, obj)
        else
          && |path| == 1 && WellFormedLeaf(path[0], inherited))
  }

  ghost predicate PathKnown(path: seq<Class>, truth: map<string, Value>, obj: Object, opts: Options) {
    forall c <- path :: OwnKnown(c, truth, obj, opts)
  }

  /** Everything that must be in the stream was written. */
  ghost predicate PathPresent(path: seq<Class>, obj: Object, opts: Options) {
    forall c <- path :: OwnPresent(c, 0, |c.members|, obj, opts)
  }

  /** Class `cls` on a path puts the value of its member i into the result. */
  ghost predicate Delivers(cls: Class, i: nat)
    requires i < |cls.members|
  {
    if cls.isBase then
      BaseAssigns(cls, cls.members[i]) || (cls.members[i].name in cls.methodArgs && cls.members[i].status != Deleted)
    else LeafDelivers(cls, i)
  }

  ghost predicate AllDelivered(path: seq<Class>, fields: map<string, Value>) {
    && (forall c <- path :: forall i :: 0 <= i < |c.members| && Delivers(c, i) ==> c.members[i].name in fields)
    && (path != [] ==> forall n <- ConstructorNames(path[|path| - 1]) :: n in fields)
  }

  lemma {:induction false} RunBaseAssignments(cls: Class, ms: seq<Member>, st: State, truth: map<string, Value>)
    requires StateAgrees(st, truth)
    requires forall m <- ms :: m.status != Deleted ==> m.name in st.locals
    ensures var r := Run(cls, BaseAssignments(cls, ms), st);
      && r.Ok? && r.value == st.(fields := r.value.fields)
      && Agrees(r.value.fields, truth) && st.fields.Keys <= r.value.fields.Keys
      && forall m <- ms :: BaseAssigns(cls, m) ==> m.name in r.value.fields
  {
    if ms != [] {
      var n := |ms| - 1;
      RunBaseAssignments(cls, ms[..n], st, truth);
      BaseAssignmentStep(cls, ms, st, truth);
      assert forall m <- ms :: m in ms[..n] || m == ms[n];
    }
  }

  lemma BaseAssignmentStep(cls: Class, ms: seq<Member>, st: State, truth: map<string, Value>)
    requires StateAgrees(st, truth) && ms != []
    requires ms[|ms| - 1].status != Deleted ==> ms[|ms| - 1].name in st.locals
    requires var r := Run(cls, BaseAssignments(cls, ms[..|ms| - 1]), st);
      r.Ok? && r.value == st.(fields := r.value.fields) && Agrees(r.value.fields, truth)
    ensures var before := Run(cls, BaseAssignments(cls, ms[..|ms| - 1]), st).value.fields;
      var name := ms[|ms| - 1].name;
      Run(cls, BaseAssignments(cls, ms), st) ==
        Ok(st.(fields := if BaseAssigns(cls, ms[|ms| - 1]) then before[name := st.locals[name]] else before))
  {
    hide Step, Run;
    var last := ms[|ms| - 1];
    var code := BaseAssignments(cls, ms[..|ms| - 1]);
    if BaseAssigns(cls, last) {
      assert BaseAssignments(cls, ms) == code + [Assign(last.name)];
      RunConcat(cls, code, [Assign(last.name)], st);
      var mid := Run(cls, code, st).value;
      RunOne(cls, Assign(last.name), mid);
      AssignStep(mid, last.name, truth);
    } else {
      assert BaseAssignments(cls, ms) == code;
    }
  }

  /** The tag is read back as it was. */
  lemma TagReadBack(cls: Class, truth: map<string, Value>, obj: Object, opts: Options)
    requires WellFormedBase(cls) && OwnKnown(cls, truth, obj, opts)
    requires OwnPresent(cls, 0, |cls.members|, obj, opts)
    ensures cls.tag in truth && truth[cls.tag] == obj(cls.tag)
  {
    var i :| 0 <= i < |cls.members| && cls.members[i].name == cls.tag && IsTag(cls.members[i]);
    assert Knows(truth, PlannedAt(cls, i), obj, opts) && PlannedAt(cls, i).Present(obj, opts);
  }

  lemma OwnPresentLocally(cls: Class, obj: Object, opts: Options)
    requires cls.isBase
    ensures (forall m <- cls.members :: LocallyPresent(m, obj, opts)) <==> OwnPresent(cls, 0, |cls.members|, obj, opts)
  {
    hide Written, LocalReadKind;
    if OwnPresent(cls, 0, |cls.members|, obj, opts) {
      forall m <- cls.members ensures LocallyPresent(m, obj, opts) {
        var i :| 0 <= i < |cls.members| && cls.members[i] == m;
        assert PlannedAt(cls, i).Present(obj, opts);
      }
    } else {
      var i :| 0 <= i < |cls.members| && !PlannedAt(cls, i).Present(obj, opts);
      assert !LocallyPresent(cls.members[i], obj, opts);
    }
  }

  lemma OwnKnownLocally(cls: Class, truth: map<string, Value>, obj: Object, opts: Options)
    requires cls.isBase && OwnKnown(cls, truth, obj, opts)
    ensures forall m <- cls.members :: Knows(truth, Planned(m, LocalReadKind(m)), obj, opts)
  {
    hide Written, LocalReadKind, Knows;
    forall m <- cls.members ensures Knows(truth, Planned(m, LocalReadKind(m)), obj, opts) {
      var i :| 0 <= i < |cls.members| && cls.members[i] == m;
      assert Knows(truth, PlannedAt(cls, i), obj, opts);
    }
  }

  /** The base class reads its members and sets the parameters of its subclasses. */
  lemma BasePrefix(cls: Class, rest: seq<Member>, st: State, truth: map<string, Value>, obj: Object, opts: Options)
    requires WellFormedBase(cls) && DistinctIds(cls.members + rest)
    requires st.stream == EmitAll(cls.members + rest, obj, opts)
    requires st.locals == st.fields == map[] && st.dispatched == [] && Agrees(st.parameters, truth)
    requires OwnKnown(cls, truth, obj, opts)
    ensures var r := Run(cls, LocalReads(cls.members) + Sets(cls.setParameters), st);
      if OwnPresent(cls, 0, |cls.members|, obj, opts) then
        && r.Ok? && r.value.stream == EmitAll(rest, obj, opts) && StateAgrees(r.value, truth)
        && (forall m <- cls.members :: m.status != Deleted ==> m.name in r.value.locals)
        && (forall n <- cls.setParameters :: n in r.value.parameters)
      else r.Err?
  {
    hide Written, LocalReadKind, EmitAll, Run, OwnKnown, OwnPresent, AddLocals;
    var c1, c2 := LocalReads(cls.members), Sets(cls.setParameters);
    RunConcat(cls, c1, c2, st);
    RunLocalReads(cls, cls.members, rest, st, obj, opts);
    OwnPresentLocally(cls, obj, opts);
    OwnKnownLocally(cls, truth, obj, opts);
    if OwnPresent(cls, 0, |cls.members|, obj, opts) {
      AddedLocals(st.locals, cls.members, truth, obj, opts);
      var mid := Run(cls, c1, st).value;
      forall n <- cls.setParameters ensures n in mid.locals {
        assert HasMember(cls, n);
      }
      RunSets(cls, cls.setParameters, mid, truth);
    }
  }

  /** After the switch the base class assigns its members to the result. */
  lemma BaseSuffix(cls: Class, st: State, truth: map<string, Value>)
    requires WellFormedBase(cls) && StateAgrees(st, truth)
    requires forall m <- cls.members :: m.status != Deleted ==> m.name in st.locals
    ensures var r := Run(cls, Unsets(cls.setParameters) + BaseAssignments(cls, cls.members) +
                              [CallMethods(cls.methodArgs)], st);
      && r.Ok? && r.value == st.(fields := r.value.fields, parameters := r.value.parameters)
      && StateAgrees(r.value, truth) && st.fields.Keys <= r.value.fields.Keys
      && (forall i :: 0 <= i < |cls.members| && Delivers(cls, i) ==> cls.members[i].name in r.value.fields)
  {
    hide Run, Step;
    var c1, c2, c3 := Unsets(cls.setParameters), BaseAssignments(cls, cls.members), [CallMethods(cls.methodArgs)];
    RunConcat(cls, c1 + c2, c3, st);
    RunConcat(cls, c1, c2, st);
    RunUnsets(cls, cls.setParameters, st);
    var s1 := Run(cls, c1, st).value;
    RunBaseAssignments(cls, cls.members, s1, truth);
    var s2 := Run(cls, c2, s1).value;
    forall n <- cls.methodArgs ensures n in s2.locals {
      assert HasMember(cls, n);
    }
    MethodsDeliver(s2, cls.methodArgs, truth);
    RunOne(cls, c3[0], s2);
    CallStep(s2, cls.methodArgs);
  }

  lemma CallStep(st: State, names: seq<string>)
    ensures Step(CallMethods(names), st) == Deliver(st, names)
  {}

  lemma DistinctParts(a: seq<Member>, b: seq<Member>)
    requires DistinctIds(a + b)
    ensures DistinctIds(a) && DistinctIds(b)
  {
    forall i, j | 0 <= i < j < |a| ensures a[i].id != a[j].id {
      assert (a + b)[i] == a[i] && (a + b)[j] == a[j];
    }
    forall i, j | 0 <= i < j < |b| ensures b[i].id != b[j].id {
      assert (a + b)[|a| + i] == b[i] && (a + b)[|a| + j] == b[j];
    }
  }

  lemma {:induction false} DeserializePath(path: seq<Class>, inherited: seq<string>, parameters: map<string, Value>,
                                           truth: map<string, Value>, obj: Object, opts: Options)
    requires WellFormedPath(path, inherited, obj) && DistinctIds(PathMembers(path))
    requires Agrees(parameters, truth) && forall n <- inherited :: n in parameters
    requires PathKnown(path, truth, obj, opts)
    ensures var r := Deserialize(path[0], inherited, EmitAll(PathMembers(path), obj, opts), parameters);
      if PathPresent(path, obj, opts) then Restored(path[0], r, path, truth) && AllDelivered(path, r.value.fields)
      else r.Err?
    decreases |path|, 2
  {
    hide Written, EmitAll, Run, OwnKnown, OwnPresent, WellFormedLeaf, WellFormedBase, DistinctIds, Delivers,
      DeserializeCode, Deserialize, StateAgrees, ConstructorNames;
    var cls := path[0];
    PathParts(path, obj, opts);
    DistinctParts(OwnMembers(cls), PathMembers(path[1..]));
    assert cls in path;
    if cls.isBase {
      DeserializeBase(path, inherited, parameters, truth, obj, opts);
    } else {
      DeserializeSingle(path, inherited, parameters, truth, obj, opts);
    }
  }

  lemma PathParts(path: seq<Class>, obj: Object, opts: Options)
    requires path != []
    ensures PathMembers(path) == OwnMembers(path[0]) + PathMembers(path[1..])
    ensures PathPresent(path, obj, opts) <==>
      OwnPresent(path[0], 0, |path[0].members|, obj, opts) && PathPresent(path[1..], obj, opts)
  {
    hide OwnPresent, OwnMembers;
    assert forall c <- path :: c == path[0] || c in path[1..];
  }

  lemma DeserializeSingle(path: seq<Class>, inherited: seq<string>, parameters: map<string, Value>,
                          truth: map<string, Value>, obj: Object, opts: Options)
    requires WellFormedPath(path, inherited, obj) && !path[0].isBase && DistinctIds(OwnMembers(path[0]))
    requires Agrees(parameters, truth) && forall n <- inherited :: n in parameters
    requires PathKnown(path, truth, obj, opts)
    ensures var r := Deserialize(path[0], inherited, EmitAll(PathMembers(path), obj, opts), parameters);
      if PathPresent(path, obj, opts) then Restored(path[0], r, path, truth) && AllDelivered(path, r.value.fields)
      else r.Err?
  {
    hide Written, EmitAll, Run, OwnKnown, OwnPresent, WellFormedLeaf, DistinctIds, LeafDelivers, Deserialize;
    var cls := path[0];
    assert cls in path;
    assert path[1..] == [] && PathMembers(path) == Wired(cls.members);
    assert path == [cls];
    DeserializeLeaf(cls, inherited, parameters, truth, obj, opts);
    PathParts(path, obj, opts);
  }

  lemma DeserializeBase(path: seq<Class>, inherited: seq<string>, parameters: map<string, Value>,
                        truth: map<string, Value>, obj: Object, opts: Options)
    requires WellFormedPath(path, inherited, obj) && path[0].isBase && DistinctIds(PathMembers(path))
    requires DistinctIds(PathMembers(path[1..]))
    requires Agrees(parameters, truth) && forall n <- inherited :: n in parameters
    requires PathKnown(path, truth, obj, opts)
    ensures var r := Deserialize(path[0], inherited, EmitAll(PathMembers(path), obj, opts), parameters);
      if PathPresent(path, obj, opts) then Restored(path[0], r, path, truth) && AllDelivered(path, r.value.fields)
      else r.Err?
    decreases |path|, 1
  {
    hide Written, EmitAll, Run, OwnKnown, OwnPresent, WellFormedLeaf, WellFormedBase, DistinctIds, Delivers,
      DispatchTo, BaseAssignments, Unsets, Sets, LocalReads, ConstructorNames, AllDelivered;
    var cls := path[0];
    var tail := path[1..];
    assert cls in path;
    var st0 := State(EmitAll(PathMembers(path), obj, opts), map[], map[], parameters, []);
    var c1 := LocalReads(cls.members) + Sets(cls.setParameters);
    var c2 := [Dispatch(cls.tag)];
    var c3 := Unsets(cls.setParameters) + BaseAssignments(cls, cls.members) + [CallMethods(cls.methodArgs)];
    assert DeserializeCode(cls, inherited) == c1 + c2 + c3;
    RunConcat(cls, c1 + c2, c3, st0);
    RunConcat(cls, c1, c2, st0);
    BasePrefix(cls, PathMembers(tail), st0, truth, obj, opts);
    PathParts(path, obj, opts);
    var r1 := Run(cls, c1, st0);
    if r1.Ok? {
      RunOne(cls, c2[0], r1.value);
      DispatchPath(path, r1.value, truth, obj, opts);
      var r2 := Run(cls, c2, r1.value);
      if r2.Ok? {
        BaseSuffix(cls, r2.value, truth);
        DeliveredPath(path, r2.value.fields, Run(cls, c3, r2.value).value.fields);
        assert [cls] + tail == path;
      }
    }
  }

  /** The base class adds its own members to what its subclass has delivered. */
  lemma DeliveredPath(path: seq<Class>, before: map<string, Value>, after: map<string, Value>)
    requires |path| > 1 && AllDelivered(path[1..], before) && before.Keys <= after.Keys
    requires forall i :: 0 <= i < |path[0].members| && Delivers(path[0], i) ==> path[0].members[i].name in after
    ensures AllDelivered(path, after)
  {
    hide Delivers, ConstructorNames;
    forall c <- path, i | 0 <= i < |c.members| && Delivers(c, i) ensures c.members[i].name in after {
      assert c == path[0] || c in path[1..];
    }
    assert path[1..][|path| - 2] == path[|path| - 1];
  }

  /** The switch continues with the rest of the path. */
  lemma DispatchPath(path: seq<Class>, st: State, truth: map<string, Value>, obj: Object, opts: Options)
    requires path != [] && path[0].isBase && WellFormedPath(path, [], obj)
    requires DistinctIds(PathMembers(path[1..])) && PathKnown(path, truth, obj, opts)
    requires OwnPresent(path[0], 0, |path[0].members|, obj, opts)
    requires st.stream == EmitAll(PathMembers(path[1..]), obj, opts) && StateAgrees(st, truth)
    requires forall m <- path[0].members :: m.status != Deleted ==> m.name in st.locals
    requires forall n <- path[0].setParameters :: n in st.parameters
    ensures var r := DispatchTo(path[0], path[0].tag, st);
      if PathPresent(path[1..], obj, opts) then
        && r.Ok? && StateAgrees(r.value, truth) && r.value.locals == st.locals
        && r.value.stream == [] && r.value.dispatched == path[1..] && AllDelivered(path[1..], r.value.fields)
      else r.Err?
    decreases |path|, 0
  {
    hide Written, EmitAll, Run, OwnKnown, OwnPresent, WellFormedLeaf, DistinctIds, Delivers, Deserialize, AllDelivered;
    var cls := path[0];
    assert cls in path && path[1..][0] == path[1];
    assert PathKnown(path[1..], truth, obj, opts);
    TagReadBack(cls, truth, obj, opts);
    assert HasMember(cls, cls.tag) && cls.tag in st.locals && st.locals[cls.tag] == obj(cls.tag);
    DeserializePath(path[1..], cls.setParameters, st.parameters, truth, obj, opts);
  }
}
