/**
 The runtime of the generated (de)serialization code: a serializer that appends (field id, value) pairs,
 and a deserializer that reads them back in order.
 */
module SerializationRuntime {
  import opened Wrappers
  import opened SerializationCode

  datatype Field = Field(id: int, value: Value)

  /** The storage version to write for, and whether properties that equal their default are written too. */
  datatype Options = Options(target: nat, serializeDefaults: bool)
  {
    predicate ShouldSerialize(version: nat) {
      target >= version
    }
  }

  // ---------------------------------------------------------------------------
  // Serializer
  // ---------------------------------------------------------------------------

  predicate Holds(g: Guard, obj: Object, opts: Options) {
    match g
    case Since(v) => opts.ShouldSerialize(v)
    case Before(v) => !opts.ShouldSerialize(v)
    case SinceOr(v, condition) => opts.ShouldSerialize(v) || condition(obj)
  }

  function RunWrite(code: WriteCode, obj: Object, opts: Options): seq<Field> {
    match code
    case Comment => []
    case WriteProperty(id, name) => [Field(id, obj(name))]
    case WritePropertyWithDefault(id, name, default) =>
      if !opts.serializeDefaults && obj(name) == default then [] else [Field(id, obj(name))]
    case When(guard, thn, els) => if Holds(guard, obj, opts) then RunWrite(thn, obj, opts) else RunWrite(els, obj, opts)
  }

  function RunWrites(codes: seq<WriteCode>, obj: Object, opts: Options): seq<Field> {
    if codes == [] then []
    else RunWrites(codes[..|codes| - 1], obj, opts) + RunWrite(codes[|codes| - 1], obj, opts)
  }

  /**
   The classes from a root base class down to the dynamic class of an object.  Serialize of a class calls
   Serialize of its base class first.
   */
  function Serialize(path: seq<Class>, obj: Object, opts: Options): seq<Field>
    requires path != []
  {
    var n := |path| - 1;
    (if n > 0 then Serialize(path[..n], obj, opts) else []) + RunWrites(WriteCodes(OwnMembers(path[n])), obj, opts)
  }

  // ---------------------------------------------------------------------------
  // Deserializer
  // ---------------------------------------------------------------------------

  datatype ReadError =
    | FieldIdMismatch(expected: int)
    | Undeclared(name: string)
    | UnsupportedType
    | TrailingFields

  /** Locals of the running Deserialize, fields of its result, parameters set by the callers. */
  datatype State = State(
    stream: seq<Field>,
    locals: map<string, Value>,
    fields: map<string, Value>,
    parameters: map<string, Value>,
    dispatched: seq<Class>)

  /** Reading one property: the rest of the stream and the value, which a dropped property does not have. */
  function Read(kind: ReadKind, id: int, stream: seq<Field>): Result<(seq<Field>, Option<Value>), ReadError> {
    var present := stream != [] && stream[0].id == id;
    match kind
    case Required => if present then Ok((stream[1..], Some(stream[0].value))) else Err(FieldIdMismatch(id))
    case WithDefault(d) => if present then Ok((stream[1..], Some(stream[0].value))) else Ok((stream, Some(d)))
    case Drop => if present then Ok((stream[1..], None)) else Ok((stream, None))
  }

  function Lookup(m: map<string, Value>, name: string): Result<Value, ReadError> {
    if name in m then Ok(m[name]) else Err(Undeclared(name))
  }

  /** Hands the named locals to the result: as constructor arguments or as method arguments. */
  function Deliver(st: State, names: seq<string>): Result<State, ReadError> {
    if names == [] then Ok(st)
    else
      var rest := Deliver(st, names[..|names| - 1]);
      if rest.Err? then rest
      else
        var name := names[|names| - 1];
        var v := Lookup(st.locals, name);
        if v.Err? then Err(v.error) else Ok(rest.value.(fields := rest.value.fields[name := v.value]))
  }

  function ConstructResult(st: State, args: seq<ConstructorArg>): Result<State, ReadError> {
    if args == [] then Ok(st)
    else
      var rest := ConstructResult(st, args[..|args| - 1]);
      if rest.Err? then rest
      else
        var arg := args[|args| - 1];
        var v := if arg.LocalArg? then Lookup(st.locals, arg.name) else Lookup(st.parameters, arg.name);
        if v.Err? then Err(v.error) else Ok(rest.value.(fields := rest.value.fields[arg.name := v.value]))
  }

  /** Every instruction but the dispatch to a subclass. */
  function Step(instr: Instr, st: State): Result<State, ReadError>
    requires !instr.Dispatch?
  {
    match instr
    case ReadLocal(kind, id, name) =>
      (match Read(kind, id, st.stream)
       case Err(e) => Err(e)
       case Ok((rest, None)) => Ok(st.(stream := rest))
       case Ok((rest, Some(v))) => Ok(st.(stream := rest, locals := st.locals[name := v])))
    case ReadField(kind, id, name) =>
      (match Read(kind, id, st.stream)
       case Err(e) => Err(e)
       case Ok((rest, None)) => Ok(st.(stream := rest))
       case Ok((rest, Some(v))) => Ok(st.(stream := rest, fields := st.fields[name := v])))
    case Construct(args) => ConstructResult(st, args)
    case Assign(name) =>
      (match Lookup(st.locals, name)
       case Err(e) => Err(e)
       case Ok(v) => Ok(st.(fields := st.fields[name := v])))
    case CallMethods(names) => Deliver(st, names)
    case Set(name) =>
      (match Lookup(st.locals, name)
       case Err(e) => Err(e)
       case Ok(v) => Ok(st.(parameters := st.parameters[name := v])))
    case Unset(name) => Ok(st.(parameters := st.parameters - {name}))
  }

  /** The switch of a base class. */
  function FindChild(children: seq<Child>, v: Value): (r: Option<Child>)
    ensures r.Some? ==> r.value in children && r.value.enumValue == v
    ensures r.None? ==> forall c <- children :: c.enumValue != v
  {
    if children == [] then None
    else if children[0].enumValue == v then Some(children[0])
    else FindChild(children[1..], v)
  }

  /** Runs the instructions of `cls`; a Deserialize method has its own locals and result. */
  function Run(cls: Class, code: seq<Instr>, st: State): Result<State, ReadError>
    decreases cls, 0, |code|
  {
    if code == [] then Ok(st)
    else
      var next :=
        if code[0].Dispatch? then DispatchTo(cls, code[0].tag, st) else Step(code[0], st);
      match next
      case Err(e) => Err(e)
      case Ok(st') => Run(cls, code[1..], st')
  }

  function DispatchTo(cls: Class, tag: string, st: State): Result<State, ReadError>
    decreases cls, 0, 0
  {
    match Lookup(st.locals, tag)
    case Err(e) => Err(e)
    case Ok(v) =>
      match FindChild(cls.children, v)
      case None => Err(UnsupportedType)
      case Some(child) =>
        match Deserialize(child.cls, cls.setParameters, st.stream, st.parameters)
        case Err(e) => Err(e)
        case Ok(sub) =>
          Ok(st.(stream := sub.stream, fields := sub.fields, parameters := sub.parameters, dispatched := sub.dispatched))
  }

  function Deserialize(cls: Class, inherited: seq<string>, stream: seq<Field>, parameters: map<string, Value>)
    : Result<State, ReadError>
    decreases cls, 1, 0
  {
    match Run(cls, DeserializeCode(cls, inherited), State(stream, map[], map[], parameters, []))
    case Err(e) => Err(e)
    case Ok(st) => Ok(st.(dispatched := [cls] + st.dispatched))
  }

  /** Reading a whole object: the end of the object must follow. */
  function ReadObject(root: Class, stream: seq<Field>): Result<State, ReadError> {
    match Deserialize(root, [], stream, map[])
    case Err(e) => Err(e)
    case Ok(st) => if st.stream == [] then Ok(st) else Err(TrailingFields)
  }
}
