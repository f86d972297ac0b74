/** What a schema file promises entry by entry, said of the entries themselves. */
module SerializationEntries {
  import opened Wrappers
  import opened SerializationCode
  import opened SerializationRuntime
  import opened SerializationRoundTrip
  import opened SerializationTheorems
  import opened Selections

  // ---------------------------------------------------------------------------
  // Writing
  // ---------------------------------------------------------------------------

  /** The value is the one that may be left out: the default of the entry, or else that of its type. */
  predicate IsDefault(e: MemberEntry, v: Value) {
    match e.default
    case Some(d) => v == d
    case None => (e.typeHasDefault || e.requiredUntil.Some?) && v == e.typeDefault
  }

  /** A storage version other than the first introduced or removed the member. */
  predicate Gated(e: MemberEntry) {
    e.version.Some? && e.version.value != 1
  }

  predicate EverWritten(e: MemberEntry) {
    e.status == Existing || Gated(e)
  }

  /** The target version is one that the member is written for. */
  predicate TargetAllows(e: MemberEntry, obj: Object, target: nat) {
    match (e.serializeUntil, e.requiredUntil)
    case (Some(until), _) => target < until
    case (None, Some(_)) => true
    case (None, None) =>
      Gated(e) ==>
        if e.status == Existing then target >= e.version.value || (e.serializeCondition.Some? && e.serializeCondition.value(obj))
        else target < e.version.value
  }

  /** Up to required_until a member without serialize_until is written in any case. */
  predicate Forced(e: MemberEntry, target: nat) {
    e.serializeUntil.None? && e.requiredUntil.Some? && target < e.requiredUntil.value
  }

  predicate EntryWritten(e: MemberEntry, obj: Object, opts: Options) {
    || Forced(e, opts.target)
    || (EverWritten(e) && TargetAllows(e, obj, opts.target) && (opts.serializeDefaults || !IsDefault(e, obj(e.name))))
  }

  /** The write code of an entry writes its value exactly when its status, its gates and its default say so. */
  lemma EntryWrites(e: MemberEntry, obj: Object, opts: Options)
    ensures RunWrite(GetSerializeElement(MemberOf(e)), obj, opts) ==
      if EntryWritten(e, obj, opts) then [Field(if e.id.Some? then e.id.value else -1, obj(e.name))] else []
  {
    WriteMeaning(MemberOf(e), obj, opts);
    EntryWrittenMeaning(e, obj, opts);
  }

  lemma EntryWrittenMeaning(e: MemberEntry, obj: Object, opts: Options)
    ensures Written(MemberOf(e), obj, opts) <==> EntryWritten(e, obj, opts)
  {}

  // ---------------------------------------------------------------------------
  // Reading
  // ---------------------------------------------------------------------------

  predicate Absent(id: int, stream: seq<Field>) {
    stream == [] || stream[0].id != id
  }

  /** What a read yields that finds nothing: a default that was given, or that of the type; none without either. */
  function WhenAbsent(e: MemberEntry, local: bool): Option<Value> {
    if local && e.deserializeDefault.Some? then e.deserializeDefault
    else if e.default.Some? then e.default
    else if e.typeHasDefault || e.requiredUntil.Some? then Some(e.typeDefault)
    else None
  }

  function ReadResult(e: MemberEntry, local: bool, id: int, stream: seq<Field>): Result<(seq<Field>, Option<Value>), ReadError> {
    if !Absent(id, stream) then
      Ok((stream[1..], if e.status == Deleted then None else Some(stream[0].value)))
    else if e.status == Deleted then Ok((stream, None))
    else if WhenAbsent(e, local).Some? then Ok((stream, WhenAbsent(e, local)))
    else Err(FieldIdMismatch(id))
  }

  /** Only a read into a local uses deserialize_default; a deleted member is skipped over. */
  lemma EntryReads(e: MemberEntry, id: int, stream: seq<Field>)
    ensures Read(LocalReadKind(MemberOf(e)), id, stream) == ReadResult(e, true, id, stream)
    ensures Read(FieldReadKind(MemberOf(e)), id, stream) == ReadResult(e, false, id, stream)
  {}

  // ---------------------------------------------------------------------------
  // The round trip of an entry
  // ---------------------------------------------------------------------------

  /** The value that an entry has after the round trip. */
  function ValueBack(e: MemberEntry, local: bool, obj: Object, opts: Options): Option<Value> {
    if EntryWritten(e, obj, opts) then Some(obj(e.name)) else WhenAbsent(e, local)
  }

  /** The class reads the member into a local first. */
  predicate IntoLocal(cls: Class, i: nat)
    requires i < |cls.members|
  {
    cls.isBase || i < ConstructorPrefix(cls) || cls.members[i].name in cls.methodArgs || cls.members[i].skipAssign
  }

  /**
   On every path, for every object and storage version: an entry that its class puts into the result comes back
   with its written value, and otherwise with the default that its schema entry gives for this kind of read.
   */
  lemma EntryRoundTrip(path: seq<Class>, cls: Class, i: nat, e: MemberEntry, obj: Object, opts: Options)
    requires WellFormedPath(path, [], obj)
    requires DistinctIds(PathMembers(path)) && DistinctNames(PathMembers(path))
    requires cls in path && i < |cls.members| && cls.members[i] == MemberOf(e) && Delivers(cls, i) && e.status != Deleted
    ensures var r := ReadObject(path[0], Serialize(path, obj, opts));
      r.Ok? ==>
        e.name in r.value.fields && Some(r.value.fields[e.name]) == ValueBack(e, IntoLocal(cls, i), obj, opts)
  {
    hide WellFormedPath, DistinctIds, DistinctNames, ReadObject, Serialize, Written, EntryWritten, Delivers;
    RoundTrip(path, obj, opts);
    EntryWrittenMeaning(e, obj, opts);
    if ReadObject(path[0], Serialize(path, obj, opts)).Ok? {
      DeliveredPresent(path, cls, i, obj, opts);
    }
  }

  lemma DeliveredPresent(path: seq<Class>, cls: Class, i: nat, obj: Object, opts: Options)
    requires PathPresent(path, obj, opts) && cls in path && i < |cls.members| && Delivers(cls, i)
    ensures PlannedAt(cls, i).Present(obj, opts)
  {
    hide PlannedAt, Planned.Present;
    DeliveredIsWired(cls, i);
    assert OwnPresent(cls, 0, |cls.members|, obj, opts);
  }

  /** Which members the Deserialize of a class puts into the result itself. */
  lemma DeliversMeaning(cls: Class, i: nat)
    requires i < |cls.members|
    ensures
      var m := cls.members[i];
      Delivers(cls, i) <==>
        if cls.isBase then
          if m.name in cls.methodArgs then m.status != Deleted
          else m.status == Existing && !m.skipAssign && m.name != cls.tag && m.name !in cls.setParameters
        else
          && !m.serializeSkip
          && if m.name in cls.methodArgs || m.name in ConstructorNames(cls) then m.status != Deleted
             else m.status == Existing && (m.skipAssign ==> i < ConstructorPrefix(cls))
  {
    hide ConstructorNames, ConstructorPrefix;
  }

  /** The tag of class i of the path selects the next class. */
  ghost predicate Selects(path: seq<Class>, i: nat, obj: Object)
    requires i + 1 < |path|
  {
    var child := FindChild(path[i].children, obj(path[i].tag));
    child.Some? && child.value.cls == path[i + 1]
  }

  /** A path leads through base classes, each selecting the next class, to one class without children. */
  lemma {:induction false} PathMeaning(path: seq<Class>, inherited: seq<string>, obj: Object)
    ensures WellFormedPath(path, inherited, obj) <==>
      && path != []
      && (forall i :: 0 <= i < |path| - 1 ==> WellFormedBase(path[i]) && Selects(path, i, obj))
      && WellFormedLeaf(path[|path| - 1], if |path| == 1 then inherited else path[|path| - 2].setParameters)
    decreases |path|
  {
    hide WellFormedBase;
    if |path| > 1 {
      PathMeaning(path[1..], path[0].setParameters, obj);
      BaseOrLeaf(path[0], inherited);
      hide WellFormedLeaf;
      forall i | 0 < i < |path| - 1
        ensures WellFormedBase(path[i]) && Selects(path, i, obj) <==> WellFormedBase(path[1..][i - 1]) && Selects(path[1..], i - 1, obj)
      {
        assert path[1..][i - 1] == path[i] && path[1..][i] == path[i + 1];
      }
      assert WellFormedPath(path, inherited, obj) <==>
        WellFormedBase(path[0]) && Selects(path, 0, obj) && WellFormedPath(path[1..], path[0].setParameters, obj);
    } else if path != [] {
      BaseOrLeaf(path[0], inherited);
    }
  }

  lemma BaseOrLeaf(cls: Class, inherited: seq<string>)
    ensures WellFormedBase(cls) ==> cls.isBase
    ensures WellFormedLeaf(cls, inherited) ==> !cls.isBase
  {}

  // ---------------------------------------------------------------------------
  // Order
  // ---------------------------------------------------------------------------

  /** A class without children writes and reads its members in schema order, but for those with serialize_skip. */
  lemma WiredOrder(ms: seq<Member>)
    ensures Picks(ms, 0, (m: Member) => !m.serializeSkip, Wired(ms))
  {
    WiredFrom(ms, 0, (m: Member) => !m.serializeSkip);
    assert ms[0..] == ms;
  }

  lemma {:induction false} WiredFrom(ms: seq<Member>, low: nat, keep: Member -> bool)
    requires low <= |ms| && forall m :: keep(m) <==> !m.serializeSkip
    ensures Picks(ms, low, keep, Wired(ms[low..]))
    decreases |ms| - low
  {
    hide Picks;
    if low == |ms| {
      PicksNone(ms, keep);
    } else {
      assert ms[low..][1..] == ms[low + 1..];
      WiredFrom(ms, low + 1, keep);
      PicksMore(ms, low, keep, Wired(ms[low + 1..]));
    }
  }

  /** A constructor method takes the members that are not deleted, in schema order. */
  lemma MethodArgOrder(ms: seq<Member>)
    ensures Picks(ms, 0, (m: Member) => m.status != Deleted, NotDeleted(ms))
  {
    NotDeletedFrom(ms, 0, (m: Member) => m.status != Deleted);
    assert ms[0..] == ms;
  }

  lemma {:induction false} NotDeletedFrom(ms: seq<Member>, low: nat, keep: Member -> bool)
    requires low <= |ms| && forall m :: keep(m) <==> m.status != Deleted
    ensures Picks(ms, low, keep, NotDeleted(ms[low..]))
    decreases |ms| - low
  {
    hide Picks;
    if low == |ms| {
      PicksNone(ms, keep);
    } else {
      assert ms[low..][1..] == ms[low + 1..];
      NotDeletedFrom(ms, low + 1, keep);
      PicksMore(ms, low, keep, NotDeleted(ms[low + 1..]));
    }
  }

  /** Entry i of the constructor list stands for argument j: a member's local comes before a base parameter. */
  datatype Source = Source(entry: nat, parameter: bool)
  {
    predicate Before(s: Source) {
      entry < s.entry || (entry == s.entry && !parameter && s.parameter)
    }
  }

  ghost predicate NamesMember(ms: seq<Member>, name: string) {
    exists i :: 0 <= i < |ms| && ms[i].name == name
  }

  ghost predicate Resolves(ms: seq<Member>, parameters: seq<string>, names: seq<string>, s: Source) {
    s.entry < |names| && if s.parameter then names[s.entry] in parameters else NamesMember(ms, names[s.entry])
  }

  /** The arguments are what the entries resolve to, each once and in the order of the entries. */
  ghost predicate ArgsFrom(ms: seq<Member>, parameters: seq<string>, names: seq<string>, args: seq<ConstructorArg>, from: seq<Source>) {
    && |from| == |args|
    && (forall c, d :: 0 <= c < d < |from| ==> from[c].Before(from[d]))
    && (forall c :: 0 <= c < |from| ==>
          && Resolves(ms, parameters, names, from[c])
          && args[c] == if from[c].parameter then ParameterArg(names[from[c].entry]) else LocalArg(names[from[c].entry]))
    && (forall s :: Resolves(ms, parameters, names, s) ==> s in from)
  }

  lemma NamesMemberMeaning(ms: seq<Member>, name: string)
    ensures NamesMember(ms, name) <==> name in Names(ms)
  {
    if NamesMember(ms, name) {
      var i :| 0 <= i < |ms| && ms[i].name == name;
      assert Names(ms)[i] == name;
    }
  }

  lemma {:induction false} ConstructorArgOrder(ms: seq<Member>, parameters: seq<string>, names: seq<string>) returns (from: seq<Source>)
    ensures ArgsFrom(ms, parameters, names, ConstructorArgs(ms, parameters, names), from)
  {
    if names == [] {
      return [];
    }
    var n := |names| - 1;
    var before := ConstructorArgOrder(ms, parameters, names[..n]);
    from := before + SourcesOf(ms, parameters, names[n], n);
    MoreArgs(ms, parameters, names, ConstructorArgs(ms, parameters, names[..n]), before);
  }

  ghost function SourcesOf(ms: seq<Member>, parameters: seq<string>, name: string, n: nat): seq<Source> {
    (if NamesMember(ms, name) then [Source(n, false)] else []) + (if name in parameters then [Source(n, true)] else [])
  }

  lemma MoreArgs(ms: seq<Member>, parameters: seq<string>, names: seq<string>, args: seq<ConstructorArg>, from: seq<Source>)
    requires names != [] && ArgsFrom(ms, parameters, names[..|names| - 1], args, from)
    ensures var n := |names| - 1;
      ArgsFrom(ms, parameters, names, args + ArgsOf(ms, parameters, names[n]), from + SourcesOf(ms, parameters, names[n], n))
  {
    hide NamesMember;
    var n := |names| - 1;
    var added, last := ArgsOf(ms, parameters, names[n]), SourcesOf(ms, parameters, names[n], n);
    NamesMemberMeaning(ms, names[n]);
    assert |added| == |last|;
    forall c | 0 <= c < |from|
      ensures Resolves(ms, parameters, names, from[c]) && from[c].entry < n
    {
      assert Resolves(ms, parameters, names[..n], from[c]);
    }
    forall s | Resolves(ms, parameters, names, s) ensures s in from + last {
      if s.entry < n {
        assert Resolves(ms, parameters, names[..n], s);
      } else {
        assert s == Source(n, s.parameter) && s in last;
      }
    }
  }

  // ---------------------------------------------------------------------------
  // What the emitted code does besides reading
  // ---------------------------------------------------------------------------

  /** A member of that name which exists and is neither skipped nor handed to the constructor or a method. */
  ghost predicate AssignedLater(cls: Class, name: string) {
    exists i :: 0 <= i < ConstructorPrefix(cls) && AssignedAt(cls, i, name)
  }

  predicate AssignedAt(cls: Class, i: nat, name: string)
    requires i < |cls.members|
  {
    var m := cls.members[i];
    && m.name == name && m.status.Existing? && !m.serializeSkip
    && name !in cls.methodArgs && name !in ConstructorNames(cls)
  }

  predicate SetAt(cls: Class, i: nat, name: string)
    requires i < |cls.members|
  {
    var m := cls.members[i];
    m.name == name && m.status.Existing? && !m.serializeSkip && name in cls.setParameters
  }

  ghost predicate AssignedBelow(cls: Class, n: nat, name: string)
    requires n <= |cls.members|
  {
    exists i :: 0 <= i < n && i < ConstructorPrefix(cls) && AssignedAt(cls, i, name)
  }

  ghost predicate SetBelow(cls: Class, n: nat, name: string)
    requires n <= |cls.members|
  {
    exists i :: 0 <= i < n && SetAt(cls, i, name)
  }

  lemma OneMore(cls: Class, n: nat, name: string)
    requires 0 < n <= |cls.members|
    ensures AssignedBelow(cls, n, name) <==>
      AssignedBelow(cls, n - 1, name) || (n - 1 < ConstructorPrefix(cls) && AssignedAt(cls, n - 1, name))
    ensures SetBelow(cls, n, name) <==> SetBelow(cls, n - 1, name) || SetAt(cls, n - 1, name)
  {
    hide AssignedAt, SetAt, ConstructorPrefix;
  }

  lemma {:induction false} AfterConstructsDo(cls: Class, n: nat, name: string)
    requires n <= |cls.members|
    ensures Assign(name) in AfterConstructs(cls, n) <==> AssignedBelow(cls, n, name)
    ensures Set(name) in AfterConstructs(cls, n) <==> SetBelow(cls, n, name)
  {
    hide ConstructorPrefix, AfterConstruct, AssignedAt, SetAt;
    if n > 0 {
      AfterConstructsDo(cls, n - 1, name);
      AfterConstructDoes(cls, n - 1, name);
      OneMore(cls, n, name);
      hide AssignedBelow, SetBelow;
    }
  }

  lemma AfterConstructDoes(cls: Class, i: nat, name: string)
    requires i < |cls.members|
    ensures Assign(name) in AfterConstruct(cls, i) <==> i < ConstructorPrefix(cls) && AssignedAt(cls, i, name)
    ensures Set(name) in AfterConstruct(cls, i) <==> SetAt(cls, i, name)
  {
    hide ConstructorPrefix, ConstructorNames, LocalReadKind, FieldReadKind;
  }

  /**
   The Deserialize of a class without children assigns what it had to read before the constructor call and has not
   handed over, and sets the parameters that the class names.
   */
  lemma ClassEffects(cls: Class, parameters: seq<string>, name: string)
    ensures Assign(name) in ClassDeserialize(cls, parameters) <==> AssignedLater(cls, name)
    ensures Set(name) in ClassDeserialize(cls, parameters) <==> exists i :: 0 <= i < |cls.members| && SetAt(cls, i, name)
    ensures Unset(name) in ClassDeserialize(cls, parameters) <==> name in cls.setParameters
  {
    hide ConstructorPrefix, ClassConstructorArgs, AfterConstructs, AssignedAt, SetAt;
    AfterConstructsDo(cls, |cls.members|, name);
    UnsetNames(cls.setParameters, name);
    NoUnset(cls, |cls.members|, name);
  }

  lemma UnsetNames(names: seq<string>, name: string)
    ensures Unset(name) in Unsets(names) <==> name in names
    ensures Set(name) in Sets(names) <==> name in names
  {
    if name in names {
      var i :| 0 <= i < |names| && names[i] == name;
      assert Unsets(names)[i] == Unset(name) && Sets(names)[i] == Set(name);
    }
  }

  lemma {:induction false} NoUnset(cls: Class, n: nat, name: string)
    requires n <= |cls.members|
    ensures Unset(name) !in AfterConstructs(cls, n)
  {
    hide AfterConstruct;
    if n > 0 {
      NoUnset(cls, n - 1, name);
      NoUnsetAt(cls, n - 1, name);
    }
  }

  lemma NoUnsetAt(cls: Class, i: nat, name: string)
    requires i < |cls.members|
    ensures Unset(name) !in AfterConstruct(cls, i)
  {
    hide ConstructorPrefix, ConstructorNames, LocalReadKind, FieldReadKind;
  }

  /** A member that the base class assigns to the result of its subclass. */
  predicate BaseAssignedAt(cls: Class, i: nat, name: string)
    requires i < |cls.members|
  {
    var m := cls.members[i];
    && m.name == name && m.status.Existing? && !m.skipAssign
    && name != cls.tag && name !in cls.setParameters && name !in cls.methodArgs
  }

  lemma {:induction false} BaseAssignmentsDo(cls: Class, n: nat, name: string)
    requires n <= |cls.members|
    ensures Assign(name) in BaseAssignments(cls, cls.members[..n]) <==> exists i :: 0 <= i < n && BaseAssignedAt(cls, i, name)
  {
    if n > 0 {
      assert cls.members[..n][..n - 1] == cls.members[..n - 1];
      BaseAssignmentsDo(cls, n - 1, name);
      assert BaseAssigns(cls, cls.members[n - 1]) && cls.members[n - 1].name == name <==> BaseAssignedAt(cls, n - 1, name);
      hide BaseAssigns, BaseAssignedAt;
    }
  }

  /** The Deserialize of a base class sets and unsets its parameters and assigns what no one else hands over. */
  lemma BaseEffects(cls: Class, name: string)
    ensures Assign(name) in BaseDeserialize(cls) <==> exists i :: 0 <= i < |cls.members| && BaseAssignedAt(cls, i, name)
    ensures Set(name) in BaseDeserialize(cls) <==> name in cls.setParameters
    ensures Unset(name) in BaseDeserialize(cls) <==> name in cls.setParameters
  {
    assert cls.members[..|cls.members|] == cls.members;
    BaseAssignmentsDo(cls, |cls.members|, name);
    BaseAssignmentsRead(cls, cls.members);
    hide BaseAssignments, BaseAssignedAt;
    UnsetNames(cls.setParameters, name);
  }

  /** An object is read only if nothing is left of the stream. */
  lemma ReadToTheEnd(root: Class, stream: seq<Field>)
    ensures ReadObject(root, stream).Ok? ==> ReadObject(root, stream).value.stream == []
  {
    hide Deserialize;
  }
}
