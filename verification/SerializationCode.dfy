/**
 The serialization compiler: what a JSON class schema is turned into.

 A schema is a forest of classes.  Every class is compiled into write code, which a Serialize method
 runs, and into a list of deserialize instructions.  Both are small programs over a stream of
 (field id, value) pairs; the module SerializationRuntime runs them.
 */
module SerializationCode {
  import opened Wrappers

  type Value = int

  /** The properties of an object, by member name. */
  type Object = string -> Value

  datatype Status = Existing | ReadOnly | Deleted

  /**
   A member variable after its constructor has filled in the defaults: `version` is the number of the
   storage version that introduced (or deleted) it, 1 being the first one, and `typeDefault` is what
   the runtime uses for a type that has a default when the schema names none.
   */
  datatype Member = Member(
    id: int,
    name: string,
    hasDefault: bool,
    explicitDefault: Option<Value>,
    typeDefault: Value,
    status: Status,
    version: nat,
    serializeUntil: Option<nat>,
    requiredUntil: Option<nat>,
    serializeCondition: Option<Object -> bool>,
    deserializeDefault: Option<Value>,
    skipAssign: bool,
    serializeSkip: bool)
  {
    function Default(): Value {
      if explicitDefault.Some? then explicitDefault.value else typeDefault
    }
  }

  datatype Child = Child(enumValue: Value, cls: Class)

  /** A base class dispatches on its member `tag`; any other class has no children. */
  datatype Class = Class(
    name: string,
    isBase: bool,
    tag: string,
    members: seq<Member>,
    constructorEntries: Option<seq<string>>,
    constructorMethod: bool,
    methodArgs: seq<string>,
    setParameters: seq<string>,
    children: seq<Child>)

  /** The entry of a JSON file that describes a member. */
  datatype MemberEntry = MemberEntry(
    id: Option<int>,
    name: string,
    typeHasDefault: bool,
    typeDefault: Value,
    default: Option<Value>,
    deserializeDefault: Option<Value>,
    status: Status,
    version: Option<nat>,
    serializeUntil: Option<nat>,
    requiredUntil: Option<nat>,
    serializeCondition: Option<Object -> bool>,
    skipAssign: bool,
    serializeSkip: bool)

  function MemberOf(e: MemberEntry): Member {
    Member(
      if e.id.Some? then e.id.value else -1,
      e.name,
      e.default.Some? || e.typeHasDefault || e.requiredUntil.Some?,
      e.default,
      e.typeDefault,
      e.status,
      if e.version.Some? then e.version.value else 1,
      e.serializeUntil, e.requiredUntil, e.serializeCondition,
      e.deserializeDefault, e.skipAssign, e.serializeSkip)
  }

  // ---------------------------------------------------------------------------
  // Write code
  // ---------------------------------------------------------------------------

  datatype Guard =
    | Since(version: nat)
    | Before(version: nat)
    | SinceOr(version: nat, condition: Object -> bool)

  datatype WriteCode =
    | Comment
    | WriteProperty(id: int, name: string)
    | WritePropertyWithDefault(id: int, name: string, default: Value)
    | When(guard: Guard, thn: WriteCode, els: WriteCode)

  /** The write statement without its version gate. */
  function UngatedWrite(m: Member): WriteCode {
    if m.status != Existing && m.version == 1 then Comment
    else if m.hasDefault then WritePropertyWithDefault(m.id, m.name, m.Default())
    else WriteProperty(m.id, m.name)
  }

  function GetSerializeElement(m: Member): WriteCode {
    var code := UngatedWrite(m);
    if m.serializeUntil.Some? then
      When(Before(m.serializeUntil.value), code, Comment)
    else if m.requiredUntil.Some? then
      When(Since(m.requiredUntil.value), code, WriteProperty(m.id, m.name))
    else if m.version != 1 then
      if m.status != Existing then When(Before(m.version), code, Comment)
      else if m.serializeCondition.Some? then When(SinceOr(m.version, m.serializeCondition.value), code, Comment)
      else When(Since(m.version), code, Comment)
    else code
  }

  // ---------------------------------------------------------------------------
  // Deserialize instructions
  // ---------------------------------------------------------------------------

  datatype ReadKind = Required | WithDefault(default: Value) | Drop

  datatype ConstructorArg = LocalArg(name: string) | ParameterArg(name: string)

  datatype Instr =
    | ReadLocal(kind: ReadKind, id: int, name: string)   // auto name = deserializer.Read...
    | ReadField(kind: ReadKind, id: int, name: string)   // deserializer.Read... into result->name
    | Construct(args: seq<ConstructorArg>)
    | Assign(name: string)                               // result->name = name
    | CallMethods(names: seq<string>)
    | Set(name: string)
    | Unset(name: string)
    | Dispatch(tag: string)

  datatype CompileError = ReadOnlyWithoutDefault(name: string) | ConstructorMemberNotFound(name: string)

  /** Reading into a local honours deserialize_default. */
  function LocalReadKind(m: Member): ReadKind {
    if m.status == Deleted then Drop
    else if m.deserializeDefault.Some? then WithDefault(m.deserializeDefault.value)
    else if m.hasDefault then WithDefault(m.Default())
    else Required
  }

  /** Reading into a field of the result uses the member's own default only. */
  function FieldReadKind(m: Member): ReadKind {
    if m.status == Deleted then Drop
    else if m.hasDefault then WithDefault(m.Default())
    else Required
  }

  function ReadIntoLocal(m: Member): Instr {
    ReadLocal(LocalReadKind(m), m.id, m.name)
  }

  function ReadIntoField(m: Member): Instr {
    ReadField(FieldReadKind(m), m.id, m.name)
  }

  // ---------------------------------------------------------------------------
  // What the code generators produce, member by member
  // ---------------------------------------------------------------------------

  function Names(ms: seq<Member>): (r: seq<string>)
    ensures |r| == |ms| && forall i :: 0 <= i < |ms| ==> r[i] == ms[i].name
  {
    seq(|ms|, i requires 0 <= i < |ms| => ms[i].name)
  }

  function Ids(ms: seq<Member>): (r: seq<int>)
    ensures |r| == |ms| && forall i :: 0 <= i < |ms| ==> r[i] == ms[i].id
  {
    seq(|ms|, i requires 0 <= i < |ms| => ms[i].id)
  }

  /** The members that take part in (de)serialization of a class without children. */
  function Wired(ms: seq<Member>): (r: seq<Member>) {
    if ms == [] then [] else (if ms[0].serializeSkip then [] else [ms[0]]) + Wired(ms[1..])
  }

  function LocalReads(ms: seq<Member>): (r: seq<Instr>) {
    seq(|ms|, i requires 0 <= i < |ms| => ReadIntoLocal(ms[i]))
  }

  /** One more than the index of the last member that the constructor needs. */
  function ConstructorPrefix(cls: Class): (k: nat)
    ensures k <= |cls.members|
  {
    if cls.constructorEntries.Some? then LastNamed(cls.members, cls.constructorEntries.value)
    else if cls.constructorMethod then |cls.members|
    else 0
  }

  /** Names resolve to the first member that has them. */
  predicate IsFirstNamed(ms: seq<Member>, i: nat, name: string)
    requires i < |ms|
  {
    ms[i].name == name && forall j :: 0 <= j < i ==> ms[j].name != name
  }

  function LastNamed(ms: seq<Member>, names: seq<string>): (k: nat)
    ensures k <= |ms|
    ensures forall i, n :: 0 <= i < |ms| && n in names && IsFirstNamed(ms, i, n) ==> i < k
  {
    if names == [] then 0
    else
      var k := LastNamed(ms, names[..|names| - 1]);
      var i := FirstNamed(ms, names[|names| - 1]);
      if i.Some? && i.value >= k then i.value + 1 else k
  }

  function FirstNamed(ms: seq<Member>, name: string): (i: Option<nat>)
    ensures i.Some? ==> i.value < |ms| && IsFirstNamed(ms, i.value, name)
    ensures i.None? ==> forall j :: 0 <= j < |ms| ==> ms[j].name != name
  {
    if ms == [] then None
    else
      var n := |ms| - 1;
      var before := FirstNamed(ms[..n], name);
      if before.Some? then before else if ms[n].name == name then Some(n) else None
  }

  /** The names whose values the constructor consumes. */
  function ConstructorNames(cls: Class): (r: seq<string>) {
    if cls.constructorEntries.Some? then cls.constructorEntries.value
    else if cls.constructorMethod then Names(NotDeleted(cls.members))
    else []
  }

  function NotDeleted(ms: seq<Member>): (r: seq<Member>) {
    if ms == [] then [] else (if ms[0].status == Deleted then [] else [ms[0]]) + NotDeleted(ms[1..])
  }

  /** A constructor entry names a member, a parameter set by the base class, or both. */
  function ArgsOf(ms: seq<Member>, parameters: seq<string>, name: string): seq<ConstructorArg> {
    (if name in Names(ms) then [LocalArg(name)] else []) +
    (if name in parameters then [ParameterArg(name)] else [])
  }

  function ConstructorArgs(ms: seq<Member>, parameters: seq<string>, names: seq<string>): (r: seq<ConstructorArg>) {
    if names == [] then []
    else
      ConstructorArgs(ms, parameters, names[..|names| - 1]) + ArgsOf(ms, parameters, names[|names| - 1])
  }

  /** How the member at position i reaches the result after the constructor call. */
  function AfterConstructRead(cls: Class, i: nat): (r: seq<Instr>)
    requires i < |cls.members|
  {
    var m := cls.members[i];
    if m.serializeSkip then []
    else if i >= ConstructorPrefix(cls) then
      [if m.name in cls.methodArgs || m.skipAssign then ReadIntoLocal(m) else ReadIntoField(m)]
    else if m.name !in cls.methodArgs && m.name !in ConstructorNames(cls) && m.status == Existing then
      [Assign(m.name)]
    else []
  }

  function AfterConstructSet(cls: Class, i: nat): (r: seq<Instr>)
    requires i < |cls.members|
  {
    var m := cls.members[i];
    if !m.serializeSkip && m.name in cls.setParameters && m.status == Existing then [Set(m.name)] else []
  }

  /** What follows the constructor call for the member at position i. */
  function AfterConstruct(cls: Class, i: nat): (r: seq<Instr>)
    requires i < |cls.members|
  {
    AfterConstructRead(cls, i) + AfterConstructSet(cls, i)
  }

  function AfterConstructs(cls: Class, n: nat): (r: seq<Instr>)
    requires n <= |cls.members|
  {
    if n == 0 then [] else AfterConstructs(cls, n - 1) + AfterConstruct(cls, n - 1)
  }

  function Unsets(names: seq<string>): (r: seq<Instr>) {
    seq(|names|, i requires 0 <= i < |names| => Unset(names[i]))
  }

  function Sets(names: seq<string>): (r: seq<Instr>) {
    seq(|names|, i requires 0 <= i < |names| => Set(names[i]))
  }

  /** Deserialize of a class without children; `parameters` are those its base class has set. */
  function ClassDeserialize(cls: Class, parameters: seq<string>): (r: seq<Instr>) {
    LocalReads(Wired(cls.members[..ConstructorPrefix(cls)])) +
    [Construct(ClassConstructorArgs(cls, parameters))] +
    AfterConstructs(cls, |cls.members|) +
    [CallMethods(cls.methodArgs)] +
    Unsets(cls.setParameters)
  }

  function ClassConstructorArgs(cls: Class, parameters: seq<string>): seq<ConstructorArg> {
    if cls.constructorEntries.Some? then ConstructorArgs(cls.members, parameters, cls.constructorEntries.value)
    else seq(|ConstructorNames(cls)|, i requires 0 <= i < |ConstructorNames(cls)| => LocalArg(ConstructorNames(cls)[i]))
  }

  /** The base class assigns a member itself unless the subclass already knows it. */
  predicate BaseAssigns(cls: Class, m: Member) {
    m.name !in cls.setParameters && m.name != cls.tag &&
    m.status == Existing && m.name !in cls.methodArgs && !m.skipAssign
  }

  function BaseAssignments(cls: Class, ms: seq<Member>): (r: seq<Instr>) {
    if ms == [] then []
    else
      var last := ms[|ms| - 1];
      BaseAssignments(cls, ms[..|ms| - 1]) + if BaseAssigns(cls, last) then [Assign(last.name)] else []
  }

  /** Deserialize of a base class. */
  function BaseDeserialize(cls: Class): (r: seq<Instr>) {
    LocalReads(cls.members) + Sets(cls.setParameters) + [Dispatch(cls.tag)] + Unsets(cls.setParameters) +
    BaseAssignments(cls, cls.members) + [CallMethods(cls.methodArgs)]
  }

  function DeserializeCode(cls: Class, parameters: seq<string>): seq<Instr> {
    if cls.isBase then BaseDeserialize(cls) else ClassDeserialize(cls, parameters)
  }

  /** The members a class writes and reads itself, in order; a base class ignores serialize_skip. */
  function OwnMembers(cls: Class): (r: seq<Member>) {
    if cls.isBase then cls.members else Wired(cls.members)
  }

  function WriteCodes(ms: seq<Member>): (r: seq<WriteCode>) {
    seq(|ms|, i requires 0 <= i < |ms| => GetSerializeElement(ms[i]))
  }

  /** The ids that a list of instructions reads, in order. */
  function ReadIds(code: seq<Instr>): (r: seq<int>) {
    if code == [] then []
    else
      var last := code[|code| - 1];
      ReadIds(code[..|code| - 1]) + if last.ReadLocal? || last.ReadField? then [last.id] else []
  }
}
