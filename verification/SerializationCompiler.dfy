/** The code generators of the serialization compiler, as the loops that build the code. */
module SerializationCompiler {
  import opened Wrappers
  import opened SerializationCode
  import opened SerializationRoundTrip

  datatype ClassCode = ClassCode(writes: seq<WriteCode>, instrs: seq<Instr>)

  /** 'read_only' is not allowed without a default value. */
  predicate Readable(m: Member, kind: ReadKind) {
    m.status == ReadOnly ==> kind.WithDefault?
  }

  lemma WiredSnoc(ms: seq<Member>, i: nat)
    requires i < |ms|
    ensures Wired(ms[..i + 1]) == Wired(ms[..i]) + if ms[i].serializeSkip then [] else [ms[i]]
  {
    assert ms[..i + 1] == ms[..i] + [ms[i]];
    WiredConcat(ms[..i], [ms[i]]);
    assert [ms[i]][1..] == [];
  }

  /** Looks up a constructor entry in the member list; the search stops at the first match. */
  method FindMember(ms: seq<Member>, name: string) returns (index: Option<nat>)
    ensures index == FirstNamed(ms, name)
    ensures index.Some? <==> name in Names(ms)
  {
    for i := 0 to |ms|
      invariant FirstNamed(ms[..i], name) == None
    {
      assert ms[..i + 1][..i] == ms[..i];
      if ms[i].name == name {
        FirstNamedIs(ms, i, name);
        assert Names(ms)[i] == name;
        return Some(i);
      }
    }
    assert ms[..|ms|] == ms;
    index := None;
  }

  lemma {:induction false} FirstNamedIs(ms: seq<Member>, i: nat, name: string)
    requires i < |ms| && ms[i].name == name && FirstNamed(ms[..i], name) == None
    ensures FirstNamed(ms, name) == Some(i)
  {
    assert forall j :: 0 <= j < i ==> ms[j] == ms[..i][j];
    assert forall j :: 0 <= j < i ==> ms[..i][j].name != name;
  }

  /** A constructor entry as a member, as a parameter, or as both. */
  method ResolveEntry(ms: seq<Member>, parameters: seq<string>, name: string)
    returns (index: Option<nat>, args: seq<ConstructorArg>)
    ensures index == FirstNamed(ms, name) && args == ArgsOf(ms, parameters, name)
    ensures args == [] <==> name !in Names(ms) && name !in parameters
  {
    index := FindMember(ms, name);
    args := if index.Some? then [LocalArg(name)] else [];
    if name in parameters {
      args := args + [ParameterArg(name)];
    }
  }

  /** Every name is that of a member or of a parameter. */
  predicate AllResolve(ms: seq<Member>, parameters: seq<string>, names: seq<string>) {
    forall n <- names :: n in Names(ms) || n in parameters
  }

  function Entries(names: seq<string>): set<string> {
    set n <- names
  }

  lemma ResolveStep(ms: seq<Member>, parameters: seq<string>, names: seq<string>, i: nat)
    requires i < |names|
    ensures AllResolve(ms, parameters, names[..i + 1]) <==>
      AllResolve(ms, parameters, names[..i]) && (names[i] in Names(ms) || names[i] in parameters)
    ensures AllResolve(ms, parameters, names) ==> AllResolve(ms, parameters, names[..i + 1])
    ensures Entries(names[..i + 1]) == Entries(names[..i]) + {names[i]}
  {
    hide Names;
    assert names[..i + 1] == names[..i] + [names[i]];
  }

  /** One more constructor entry. */
  lemma ScanStep(ms: seq<Member>, parameters: seq<string>, names: seq<string>, i: nat)
    requires i < |names|
    ensures ConstructorArgs(ms, parameters, names[..i + 1]) ==
      ConstructorArgs(ms, parameters, names[..i]) + ArgsOf(ms, parameters, names[i])
    ensures
      var k, first := LastNamed(ms, names[..i]), FirstNamed(ms, names[i]);
      LastNamed(ms, names[..i + 1]) == if first.Some? && first.value >= k then first.value + 1 else k
  {
    hide ArgsOf, FirstNamed;
    assert names[..i + 1][..i] == names[..i];
  }

  /**
   Resolves the constructor entries: the arguments of the constructor call, the set of entries, and the
   number of members that must be read first.
   */
  method ScanConstructor(cls: Class, parameters: seq<string>, names: seq<string>)
    returns (r: Result<seq<ConstructorArg>, CompileError>, entries: set<string>, prefix: nat)
    ensures r.Ok? <==> AllResolve(cls.members, parameters, names)
    ensures r.Ok? ==> r.value == ConstructorArgs(cls.members, parameters, names)
    ensures r.Ok? ==> prefix == LastNamed(cls.members, names) && entries == Entries(names)
  {
    var args := [];
    var lastConstructorIndex: int := -1;
    entries := {};
    for i := 0 to |names|
      invariant AllResolve(cls.members, parameters, names[..i])
      invariant args == ConstructorArgs(cls.members, parameters, names[..i])
      invariant lastConstructorIndex + 1 == LastNamed(cls.members, names[..i])
      invariant entries == Entries(names[..i])
    {
      var name := names[i];
      ScanStep(cls.members, parameters, names, i);
      ResolveStep(cls.members, parameters, names, i);
      hide ConstructorArgs, LastNamed, FirstNamed, Names, ArgsOf, AllResolve, IsFirstNamed, Entries;
      entries := entries + {name};
      var index, found := ResolveEntry(cls.members, parameters, name);
      if index.Some? && index.value > lastConstructorIndex {
        lastConstructorIndex := index.value;
      }
      if found == [] {
        return Err(ConstructorMemberNotFound(name)), entries, 0;
      }
      args := args + found;
    }
    assert names[..|names|] == names;
    r, prefix := Ok(args), lastConstructorIndex + 1;
  }

  /** generate_base_class_code. */
  method GenerateBaseClassCode(cls: Class) returns (r: Result<ClassCode, CompileError>)
    ensures r.Ok? <==> forall m <- cls.members :: Readable(m, LocalReadKind(m))
    ensures r.Ok? ==> r.value == ClassCode(WriteCodes(cls.members), BaseDeserialize(cls))
  {
    var writes, instrs := [], [];
    for i := 0 to |cls.members|
      invariant writes == WriteCodes(cls.members[..i])
      invariant instrs == LocalReads(cls.members[..i])
      invariant forall m <- cls.members[..i] :: Readable(m, LocalReadKind(m))
    {
      var entry := cls.members[i];
      writes := writes + [GetSerializeElement(entry)];
      if !Readable(entry, LocalReadKind(entry)) {
        assert entry in cls.members;
        return Err(ReadOnlyWithoutDefault(entry.name));
      }
      instrs := instrs + [ReadIntoLocal(entry)];
    }
    assert cls.members[..|cls.members|] == cls.members;
    instrs := instrs + Sets(cls.setParameters) + [Dispatch(cls.tag)];
    var assignEntries := [];
    for i := 0 to |cls.members|
      invariant assignEntries == BaseAssignments(cls, cls.members[..i])
    {
      var entry := cls.members[i];
      assert cls.members[..i + 1][..i] == cls.members[..i];
      var skip := entry.name in cls.setParameters || entry.name == cls.tag;
      if !skip && entry.status == Existing && entry.name !in cls.methodArgs && !entry.skipAssign {
        assignEntries := assignEntries + [Assign(entry.name)];
      }
    }
    instrs := instrs + Unsets(cls.setParameters) + assignEntries + [CallMethods(cls.methodArgs)];
    assert cls.members[..|cls.members|] == cls.members;
    r := Ok(ClassCode(writes, instrs));
  }

  /** Every wired member can be read the way the class reads it. */
  ghost predicate AllReadable(cls: Class, n: nat)
    requires n <= |cls.members|
  {
    forall i :: 0 <= i < n && !cls.members[i].serializeSkip ==> Readable(cls.members[i], PlannedAt(cls, i).kind)
  }

  ghost predicate ConstructorResolves(cls: Class, parameters: seq<string>) {
    cls.constructorEntries.Some? ==> AllResolve(cls.members, parameters, cls.constructorEntries.value)
  }

  /** generate_class_code. */
  method GenerateClassCode(cls: Class, parameters: seq<string>) returns (r: Result<ClassCode, CompileError>)
    requires !cls.isBase
    ensures r.Ok? <==> ConstructorResolves(cls, parameters) && AllReadable(cls, |cls.members|)
    ensures r.Ok? ==> r.value == ClassCode(WriteCodes(Wired(cls.members)), ClassDeserialize(cls, parameters))
  {
    var args: seq<ConstructorArg> := [];
    var entries: set<string> := {};
    var prefix: nat := 0;
    if cls.constructorEntries.Some? {
      var scan, es, k := ScanConstructor(cls, parameters, cls.constructorEntries.value);
      if scan.Err? {
        return Err(scan.error);
      }
      args, entries, prefix := scan.value, es, k;
    } else if cls.constructorMethod {
      args, entries := ScanMembers(cls.members);
      prefix := |cls.members|;
    }
    assert prefix == ConstructorPrefix(cls) && args == ClassConstructorArgs(cls, parameters);
    assert entries == set n <- ConstructorNames(cls);
    var head := ReadPrefix(cls, prefix);
    if head.Err? {
      return Err(head.error);
    }
    var rest := ReadRest(cls, entries);
    if rest.Err? {
      return Err(rest.error);
    }
    r := Ok(ClassCode(rest.value.writes,
                      head.value + [Construct(args)] + rest.value.instrs + [CallMethods(cls.methodArgs)] +
                      Unsets(cls.setParameters)));
  }

  lemma {:induction false} NotDeletedSnoc(ms: seq<Member>, m: Member)
    ensures NotDeleted(ms + [m]) == NotDeleted(ms) + if m.status != Deleted then [m] else []
    decreases |ms|
  {
    NotDeletedHead(ms + [m]);
    if ms == [] {
      assert NotDeleted([m][1..]) == [];
    } else {
      assert (ms + [m])[1..] == ms[1..] + [m];
      NotDeletedSnoc(ms[1..], m);
      NotDeletedHead(ms);
    }
  }

  lemma NotDeletedHead(ms: seq<Member>)
    requires ms != []
    ensures NotDeleted(ms) == (if ms[0].status != Deleted then [ms[0]] else []) + NotDeleted(ms[1..])
  {}

  lemma NamesSnoc(ms: seq<Member>, m: Member)
    ensures Names(ms + [m]) == Names(ms) + [m.name]
  {}

  /** A constructor method takes every member that is not deleted. */
  method ScanMembers(ms: seq<Member>) returns (args: seq<ConstructorArg>, entries: set<string>)
    ensures |args| == |NotDeleted(ms)| && forall i :: 0 <= i < |args| ==> args[i] == LocalArg(NotDeleted(ms)[i].name)
    ensures entries == set n <- Names(NotDeleted(ms))
  {
    args, entries := [], {};
    for i := 0 to |ms|
      invariant |args| == |NotDeleted(ms[..i])|
      invariant forall j :: 0 <= j < |args| ==> args[j] == LocalArg(NotDeleted(ms[..i])[j].name)
      invariant entries == set n <- Names(NotDeleted(ms[..i]))
    {
      assert ms[..i + 1] == ms[..i] + [ms[i]];
      NotDeletedSnoc(ms[..i], ms[i]);
      hide NotDeleted, Names;
      if ms[i].status != Deleted {
        NamesSnoc(NotDeleted(ms[..i]), ms[i]);
        entries := entries + {ms[i].name};
        args := args + [LocalArg(ms[i].name)];
      }
    }
    assert ms[..|ms|] == ms;
  }

  lemma LocalReadsSnoc(ms: seq<Member>, m: Member)
    ensures LocalReads(ms + [m]) == LocalReads(ms) + [ReadIntoLocal(m)]
  {}

  /** The members that the constructor needs are read into locals. */
  method ReadPrefix(cls: Class, prefix: nat) returns (r: Result<seq<Instr>, CompileError>)
    requires !cls.isBase && prefix == ConstructorPrefix(cls)
    ensures r.Ok? <==> AllReadable(cls, prefix)
    ensures r.Ok? ==> r.value == LocalReads(Wired(cls.members[..prefix]))
  {
    hide ConstructorPrefix;
    var instrs := [];
    for i := 0 to prefix
      invariant instrs == LocalReads(Wired(cls.members[..i]))
      invariant AllReadable(cls, i)
    {
      var entry := cls.members[i];
      WiredSnoc(cls.members, i);
      if entry.serializeSkip {
        continue;
      }
      assert PlannedAt(cls, i).kind == LocalReadKind(entry);
      LocalReadsSnoc(Wired(cls.members[..i]), entry);
      hide Wired, LocalReads;
      if !Readable(entry, LocalReadKind(entry)) {
        return Err(ReadOnlyWithoutDefault(entry.name));
      }
      instrs := instrs + [ReadIntoLocal(entry)];
    }
    r := Ok(instrs);
  }

  /** The code for one member after the constructor call. */
  method MemberCode(cls: Class, entries: set<string>, i: nat) returns (r: Result<seq<Instr>, CompileError>)
    requires !cls.isBase && i < |cls.members| && !cls.members[i].serializeSkip
    requires entries == set n <- ConstructorNames(cls)
    ensures r.Ok? <==> i < ConstructorPrefix(cls) || Readable(cls.members[i], PlannedAt(cls, i).kind)
    ensures r.Ok? ==> r.value == AfterConstruct(cls, i)
  {
    hide ConstructorPrefix, ConstructorNames, LocalReadKind, FieldReadKind;
    var entry := cls.members[i];
    var instrs := [];
    var isMethodArg := entry.name in cls.methodArgs;
    if i >= ConstructorPrefix(cls) {
      var local := isMethodArg || entry.skipAssign;
      var kind := if local then LocalReadKind(entry) else FieldReadKind(entry);
      if !Readable(entry, kind) {
        return Err(ReadOnlyWithoutDefault(entry.name));
      }
      instrs := [if local then ReadIntoLocal(entry) else ReadIntoField(entry)];
    } else if !isMethodArg && entry.name !in entries && entry.status == Existing {
      instrs := [Assign(entry.name)];
    }
    if entry.name in cls.setParameters && entry.status == Existing {
      instrs := instrs + [Set(entry.name)];
    }
    r := Ok(instrs);
  }

  /** The loop over all members after the constructor call; it also builds the write code. */
  method ReadRest(cls: Class, entries: set<string>) returns (r: Result<ClassCode, CompileError>)
    requires !cls.isBase && entries == set n <- ConstructorNames(cls)
    requires AllReadable(cls, ConstructorPrefix(cls))
    ensures r.Ok? <==> AllReadable(cls, |cls.members|)
    ensures r.Ok? ==> r.value == ClassCode(WriteCodes(Wired(cls.members)), AfterConstructs(cls, |cls.members|))
  {
    hide ConstructorPrefix, ConstructorNames, PlannedAt, Readable, Wired;
    var writes, instrs := [], [];
    assert cls.members[..0] == [];
    assert Wired(cls.members[..0]) == [] by { NoneWired(cls.members); }
    for i := 0 to |cls.members|
      invariant writes == WriteCodes(Wired(cls.members[..i]))
      invariant instrs == AfterConstructs(cls, i)
      invariant AllReadable(cls, i)
    {
      WiredSnoc(cls.members, i);
      ReadableSnoc(cls, i);
      hide AllReadable;
      if cls.members[i].serializeSkip {
        continue;
      }
      writes := writes + [GetSerializeElement(cls.members[i])];
      var code := MemberCode(cls, entries, i);
      if code.Err? {
        return Err(code.error);
      }
      instrs := instrs + code.value;
    }
    assert cls.members[..|cls.members|] == cls.members;
    r := Ok(ClassCode(writes, instrs));
  }

  lemma ReadableSnoc(cls: Class, i: nat)
    requires i < |cls.members|
    ensures AllReadable(cls, i + 1) <==>
      AllReadable(cls, i) && (cls.members[i].serializeSkip || Readable(cls.members[i], PlannedAt(cls, i).kind))
    ensures AllReadable(cls, |cls.members|) ==> AllReadable(cls, i + 1)
    ensures i < ConstructorPrefix(cls) && AllReadable(cls, ConstructorPrefix(cls)) ==> AllReadable(cls, i + 1)
  {
    hide Readable, PlannedAt, ConstructorPrefix;
  }

  lemma NoneWired(ms: seq<Member>)
    ensures Wired(ms[..0]) == []
  {}
}
