/** The constant pool the encoder reads: a table of definitions addressed by
    index and a separate table of interned names. The binary decoder that fills
    it is outside the model; only the lookups the encoder uses are modelled. */
module Pool {
  import opened Results

  /** The reserved index that means "no reference" (for a class: no base). */
  const Undefined: nat := 0

  datatype Visibility = Public | Protected | Private

  /** The lower-cased display form of a visibility, as written to the output. */
  function VisibilityName(v: Visibility): string
  {
    match v
    case Public => "public"
    case Protected => "protected"
    case Private => "private"
  }

  /** The variants of a Type definition; the wrappers carry the index of the
      wrapped (or element) type. */
  datatype TypeKind =
    | Prim
    | ClassType
    | Ref(inner: nat)
    | WeakRef(inner: nat)
    | ScriptRef(inner: nat)
    | Array(inner: nat)
    | StaticArray(inner: nat, size: nat)

  datatype ClassFlags = ClassFlags(isNative: bool, isAbstract: bool, isFinal: bool, isStruct: bool)

  datatype FunctionFlags = FunctionFlags(isStatic: bool, isFinal: bool, isExec: bool, isCallback: bool, isNative: bool)

  datatype FieldFlags = FieldFlags(isNative: bool, isEditable: bool, isInline: bool, isConst: bool, isReplicated: bool, isPersistent: bool)

  datatype ParameterFlags = ParameterFlags(isOut: bool, isOptional: bool)

  datatype Class = Class(visibility: Visibility, flags: ClassFlags, base: nat, fields: seq<nat>, functions: seq<nat>)

  /** `source` is the index of the SourceFile definition of the function's
      source location; the rest of the location is not read by the encoder. */
  datatype Function = Function(visibility: Visibility, flags: FunctionFlags, parameters: seq<nat>,
                               returnType: Option<nat>, source: Option<nat>)

  datatype Field = Field(typeIndex: nat, flags: FieldFlags)

  datatype Parameter = Parameter(typeIndex: nat, flags: ParameterFlags)

  datatype Enum = Enum(members: seq<nat>)

  datatype AnyDefinition =
    | TypeDef(ty: TypeKind)
    | ClassDef(cls: Class)
    | FunctionDef(fun: Function)
    | FieldDef(field: Field)
    | ParameterDef(param: Parameter)
    | EnumDef(enum: Enum)
    | EnumValueDef(value: int)
    | SourceFileDef(path: string)
    | LocalDef

  /** A pool entry: the index of its name, the index of its parent (the
      sentinel for a root definition) and its kind-specific payload. */
  datatype Definition = Definition(name: nat, parent: nat, value: AnyDefinition)

  datatype Pool = Pool(definitions: seq<Definition>, names: seq<string>)

  /** Errors the pool lookups report; the encoder passes them on with `?`. */
  datatype PoolError =
    | UnresolvedDefinition(index: nat)
    | UnresolvedName(nameIndex: nat)
    | NotAClass(index: nat)

  /** Ways the generator stops without returning: a panic (`unwrap`, `panic!`)
      or a recursion that never ends on a cyclic graph. */
  datatype AbortCause =
    | TypeNotFound(nameIndex: nat)
    | LocalDefinition
    | FailedUnwrap(error: PoolError)
    | CyclicBaseChain(index: nat)
    | DepthExceeded

  /** `Error` is a returned `Err`; `Abort` is the process stopping. */
  datatype Fault = Error(error: PoolError) | Abort(cause: AbortCause)

  predicate Aborted<T>(r: Result<T, Fault>)
  {
    r.Failure? && r.error.Abort?
  }

  /** Resolves a definition index. */
  function DefinitionAt(pool: Pool, index: nat): (r: Result<Definition, Fault>)
    ensures r.Success? <==> index < |pool.definitions|
    ensures r.Success? ==> r.value == pool.definitions[index]
    ensures r.Failure? ==> r.error == Error(UnresolvedDefinition(index))
  {
    if index < |pool.definitions| then Success(pool.definitions[index])
    else Failure(Error(UnresolvedDefinition(index)))
  }

  /** Resolves a name index. */
  function NameAt(pool: Pool, nameIndex: nat): (r: Result<string, Fault>)
    ensures r.Success? <==> nameIndex < |pool.names|
    ensures r.Success? ==> r.value == pool.names[nameIndex]
    ensures r.Failure? ==> r.error == Error(UnresolvedName(nameIndex))
  {
    if nameIndex < |pool.names| then Success(pool.names[nameIndex])
    else Failure(Error(UnresolvedName(nameIndex)))
  }

  /** The name of the definition at `index`: resolves the definition, then its name. */
  function DefNameAt(pool: Pool, index: nat): (r: Result<string, Fault>)
    ensures r.Success? <==> index < |pool.definitions| && pool.definitions[index].name < |pool.names|
    ensures r.Success? ==> r.value == pool.names[pool.definitions[index].name]
  {
    var def :- DefinitionAt(pool, index);
    NameAt(pool, def.name)
  }

  /** The class at `index`; fails when the definition is missing or of another kind. */
  function ClassAt(pool: Pool, index: nat): (r: Result<Class, Fault>)
    ensures r.Success? <==> index < |pool.definitions| && pool.definitions[index].value.ClassDef?
    ensures r.Success? ==> r.value == pool.definitions[index].value.cls
  {
    var def :- DefinitionAt(pool, index);
    if def.value.ClassDef? then Success(def.value.cls) else Failure(Error(NotAClass(index)))
  }
}
