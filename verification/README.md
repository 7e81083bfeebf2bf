# Definition-graph encoder, modelled in Dafny

The documentation generator reads a compiled redscript bundle. A bundle holds a
constant pool: a table of definitions (classes, functions, fields, parameters,
enums, enum values, types, source files, locals), each with a name index, a
parent index and a kind-specific payload, plus a table of names. For every
root class, function and enum, the generator writes a JSON document. Each
document is produced by recursively encoding the definition and everything it
refers to, except that base classes appear only as name-and-index references
and a class-typed type only as the index of its class. The generator also
writes a flat index of the root classes, functions and enums.

This project models that encoder and proves what its output says about its
input:

- `Pool`: the constant pool. The sentinel index `Undefined` is 0. Lookups fail
  with `UnresolvedDefinition`, `UnresolvedName` or `NotAClass`.
- `Json`: JSON values, plus the `Reference` record and its serialization.
- `TypeLookup`: `find_type`. It returns the first class or enum that declares
  a given name.
- `Bases`: `collect_bases`, the walk up a class's base chain.
- `ReferenceIndex`: `build_index`, the flat index of roots with demangled names.
- `Encoder`: `encode_definition`, one function per definition kind, mutually
  recursive.
- `EncoderProperties`, `EncoderDepth`: what each kind's output contains,
  how failures propagate, and when the encoder terminates.
- `Scenarios`: small concrete pools and their exact results.

Failures come in two tiers. `Fault.Error` is a Rust `Err` returned through
`?`; the caller sees it as a returned error. `Fault.Abort` is the process
stopping. The causes of an abort are:

- `unwrap` on a missing value, or `panic!` on a local;
- a recursion that never ends, which overflows the stack in the program.

The model keeps the program's evaluation order. Child lists (fields, methods,
parameters, members) are encoded before the output object is built. An abort
inside a list therefore stops the whole encoding at once. A plain error inside
a list surfaces only after the definition's own name and base chain have
resolved (`EncoderProperties.ClassFailure` and its siblings).

Recursion is bounded by fuel. `EncodeDefinition` uses as much fuel as the pool
has definitions, and when no reference cycle is reachable from the encoded
definition that fuel never runs out (`EncoderDepth.AcyclicWithinDepth`).
Running out of fuel stands for the stack overflow the program would hit on a
cycle it enters. `CollectBases` works the same
way: it reports `CyclicBaseChain` exactly on the walks that never reach the
sentinel or a broken link.

Behaviours of the code worth knowing, all modelled as written:

- `build_index` gives every class entry a `base` of `Some(index)`, even when
  the class has no base (index 0). Only functions and enums get `None`.
- A field's `name` is its full stored name, for example `speed;Float`. Only
  the index demangles names.
- An unknown class type in `find_type`, a return type or source file that
  fails to encode, and an unresolvable root name in `build_index` are all
  panics (`unwrap`), not returned errors.
- `find_type` and `build_index` walk the pool through redscript's definition
  iterator, which starts after entry 0, the slot reserved for the sentinel.
  Both scans here start at entry 1 accordingly.
- `collect_bases` has no cycle guard. A cyclic base chain recurses until the
  stack overflows.

## Model

| member | source | states |
|---|---|---|
| Json.ReferenceJson | src/main.rs:199-216 | a reference serializes to an object with exactly `name`, `index`, `base`, with `base` null when absent; reading the object back yields the same reference |
| Json.ReferencesJson | src/main.rs:86 | a list of references serializes to an array of the same length, each item reading back to the reference at its position |
| TypeLookup.FindType | src/main.rs:156-162 | a found index is the first definition after the sentinel entry that is a class or enum with that name; nothing is found exactly when no such definition has that name |
| Bases.CollectBasesFuel | src/main.rs:184-197 | on success the entries follow the base links from the start to the sentinel, each is the named class at that index with no base; the only abort is a cyclic chain |
| Bases.CollectBases | src/main.rs:184-197 | the sentinel gives an empty list; otherwise the first entry is the start class; entries follow the base chain to the sentinel, each with its own name and no base |
| Bases.PathStopsOnce | src/main.rs:186-194 | a base chain that ends at a link it cannot pass ends in exactly one way |
| Bases.PathDistinct | src/main.rs:186-194 | a base chain that ends at a link it cannot pass never visits a class twice |
| Bases.PathShorterThanPool | src/main.rs:186-194 | such a chain is shorter than the pool |
| Bases.CollectBasesFuelFollowsChain | src/main.rs:184-197 | with enough fuel, a chain to the sentinel is collected exactly, index for index |
| Bases.CollectBasesFuelOnEndlessWalk | src/main.rs:184-197 | a walk that only ever meets classes aborts as a cyclic chain, whatever the fuel |
| Bases.CollectBasesOfChain | src/main.rs:184-197 | every chain to the sentinel is collected exactly |
| Bases.CollectBasesOfBrokenChain | src/main.rs:188-192 | a chain that reaches a link it cannot pass, other than the sentinel, fails with that link's lookup error: missing definition, missing name or not a class |
| Bases.CollectBasesOutcome | src/main.rs:184-197 | collection succeeds if and only if the chain reaches the sentinel, and aborts if and only if the walk never stops |
| ReferenceIndex.PrettyName | src/main.rs:173 | the pretty name is the prefix before the first `;`, or the whole name when it has none |
| ReferenceIndex.PrettyNameOfMangled | src/main.rs:173 | a `;`-free prefix followed by `;` and anything at all demangles to exactly that prefix |
| ReferenceIndex.SkipUnlisted | src/main.rs:165-170 | a root that is not a class, function or enum adds no entry to the index |
| ReferenceIndex.AppendRoot | src/main.rs:171-181 | adding a listed root's entry keeps the index describing each root, in pool order, with every listed root so far present |
| ReferenceIndex.BuildIndex | src/main.rs:164-182 | succeeds if and only if every indexed root's name resolves; entries are exactly the root classes, functions and enums after the sentinel entry, in pool order, each with its demangled name, its index and, for classes, its raw base; otherwise it aborts on the first unresolvable name |
| Encoder.EncodeDefinition | src/main.rs:46-154 | `encode_definition` itself, with one depth unit per pool entry; specified by the per-kind lemmas below, `EncoderProperties.EncodeShape` and `EncoderDepth.AcyclicDepthIrrelevant` |
| Encoder.Encode | src/main.rs:47-152 | the dispatch on the definition kind; specified by `EncoderProperties.EncodeShape` and `EncoderProperties.EnumValueEncoding` |
| Encoder.EncodeAt | src/main.rs:56 | resolves a referenced index, then encodes it one level deeper; specified by `EncoderDepth.EncodeAtWithinDepth` and `EncoderProperties.EncodedDepthIsNesting` |
| Encoder.EncodeList | src/main.rs:72-81 | encodes a child list and collects it; specified by `EncoderProperties.EncodeListCollects` |
| Encoder.EncodeType | src/main.rs:48-70 | the Type arm; specified by `EncoderProperties.PrimEncoding`, `ClassTypeEncoding` and `WrapperEncoding` |
| Encoder.EncodeClass | src/main.rs:71-94 | the Class arm; specified by `EncoderProperties.ClassEncodes`, `ClassEncoding`, `ClassAbortsFirst` and `ClassFailure` |
| Encoder.EncodeEnum | src/main.rs:100-111 | the Enum arm; specified by `EncoderProperties.EnumEncoding` and `EnumFailure` |
| Encoder.EncodeFunction | src/main.rs:112-131 | the Function arm; specified by `EncoderProperties.FunctionEncoding` and `FunctionFailure` |
| Encoder.EncodeParameter | src/main.rs:132-138 | the Parameter arm; specified by `EncoderProperties.ParameterEncoding` |
| Encoder.EncodeField | src/main.rs:139-149 | the Field arm; specified by `EncoderProperties.FieldEncoding` |
| Encoder.EncodeUnwrapped | src/main.rs:122 | an optional child encoded through `unwrap`: absent is null, present is the child's encoding; a child's abort passes through, and a child's error becomes a failed-unwrap abort, so no error is ever returned |
| EncoderProperties.FirstFaultOfList | src/main.rs:72-81 | the collected list fails exactly when the element-by-element scan finds a failing element, with that element's fault, and the scan finds the first failing element |
| EncoderProperties.EncodeListCollects | src/main.rs:72-81 | a child list encodes if and only if every element does, keeping length and order; otherwise it fails with the first failing element's fault |
| EncoderProperties.ListFailsAsFirstFailure | src/main.rs:72-81 | a list fails with exactly its first failing element's fault |
| EncoderProperties.WrapperEncoding | src/main.rs:55-69 | a Ref, WeakRef, ScriptRef, Array or StaticArray type encodes exactly when its inner type does; the node carries its kind, the inner encoding and, for StaticArray only, the size |
| EncoderProperties.PrimEncoding | src/main.rs:49 | a primitive type encodes exactly when its own name resolves, to a `Type` node of kind `Prim` with that name; otherwise it fails with the unresolved name |
| EncoderProperties.ClassTypeEncoding | src/main.rs:50-54 | a class-typed Type node carries its name and the index of the first class or enum declared under it; a missing declaration aborts, and a found declaration with an unresolved name fails with that name |
| EncoderProperties.ClassEncodes | src/main.rs:71-94 | a class encodes if and only if its name, its base chain and all its fields and methods resolve |
| EncoderProperties.ClassEncoding | src/main.rs:82-93 | a class node has exactly the class schema's members: name, lower-case visibility, the transitive bases, fields and methods in order, and the four flags |
| EncoderProperties.ClassAbortsFirst | src/main.rs:72-88 | an abort in a field stops the class with that fault before the name or base chain is looked at |
| EncoderProperties.ClassFailure | src/main.rs:71-94 | a failing class reports, in order: an abort among its fields, then among its methods; an unresolved name; a failing base chain's fault; the first failing field's fault, then the first failing method's |
| EncoderProperties.EnumEncoding | src/main.rs:100-111 | an enum encodes if and only if its name and members resolve; the node lists the members in order |
| EncoderProperties.EnumFailure | src/main.rs:100-111 | a failing enum reports an abort among its members first, then an unresolved name, then the first failing member's fault |
| EncoderProperties.FunctionEncoding | src/main.rs:112-131 | a function encodes if and only if its name, parameters, return type and source resolve; the node holds them with null for absent optionals and all five flags; a failing return type aborts |
| EncoderProperties.FunctionFailure | src/main.rs:112-131 | a failing function reports an abort among its parameters first, then an unresolved name, then the first failing parameter's fault, then the return type's and then the source file's failed unwrap |
| EncoderProperties.ParameterEncoding | src/main.rs:132-138 | a parameter node holds its name, its type's encoding and both flags; it succeeds if and only if the name and type resolve; an unresolved name is reported before the type's fault |
| EncoderProperties.FieldEncoding | src/main.rs:139-149 | a field node holds its full stored name, its type's encoding and all six flags; it succeeds if and only if the name and type resolve; an unresolved name is reported before the type's fault |
| EncoderProperties.EncodeShape | src/main.rs:46-154 | every encoded node has exactly its kind's schema members and tag; a source file is its bare path; a local aborts; an enum value carries its value |
| EncoderProperties.EnumValueEncoding | src/main.rs:95-99 | an enum value encodes exactly when its name resolves, to a node with its own name and its value; otherwise it fails with the unresolved name |
| EncoderProperties.InnerOnlyInWrappers | src/main.rs:55-69 | among the schemas, only wrapper types have an `inner` member |
| EncoderProperties.NoInnerUnlessWrapper | src/main.rs:46-154 | an encoded non-wrapper definition has no `inner` nesting |
| EncoderProperties.EncodedDepthIsNesting | src/main.rs:55-69 | the `inner` nesting of an encoded type equals its wrapper nesting in the pool |
| EncoderDepth.EncodeWithinDepth | src/main.rs:46-154 | given a ranking of the definitions reachable from the encoded one, closed under references and dropping along each, fuel above the children's ranks never runs out |
| EncoderDepth.AcyclicWithinDepth | src/main.rs:46-154 | when no reference cycle is reachable from the definition, encoding never exceeds its depth; cycles elsewhere in the pool do not matter |
| EncoderDepth.EncodeFuelMonotone | src/main.rs:46-154 | once encoding finishes within some fuel, more fuel gives the same result |
| EncoderDepth.AcyclicDepthIrrelevant | src/main.rs:46-154 | when no cycle is reachable from the definition, the fuel bound is invisible: any fuel at least the pool size gives the same result as the encoder |
| Scenarios.VehicleDocument | src/main.rs:71-94 | a root class with one primitive-typed field encodes to the exact expected document |
| Scenarios.DanglingFieldType | src/main.rs:139-142 | a field whose type index is past the pool makes its class fail with that unresolved index |
| Scenarios.ChainBases | src/main.rs:184-197 | A → B → C gives the bases B then C, nearest first |
| Scenarios.CycleDetected | src/main.rs:184-197 | two classes that name each other as base abort as a cyclic chain |
| Scenarios.UnreachableCycleIgnored | src/main.rs:139-142 | a field whose type is primitive encodes within depth although another type in the pool wraps itself |
| Scenarios.ReachableCycleExceedsDepth | src/main.rs:55-56 | a reference type that wraps itself reaches a cycle, and its encoding runs out of depth |
| Scenarios.NameBeforeFieldError | src/main.rs:82-87 | a class whose own name and whose field's type are both missing fails with the unresolved name |
| Scenarios.SentinelEntrySkipped | src/main.rs:156-162 | a class stored in entry 0 is not found by its name |
| Scenarios.Demangling | src/main.rs:173 | a mangled name `Foo;Bar` demangles to `Foo` |

## Left out

- `main` (src/main.rs:21-44): argument parsing, reading the bundle, creating directories and writing files are I/O. The roots it encodes are the ones `Indexed` describes.
- Bundle decoding and the internals of the constant pool are outside this model. The pool is given as two sequences, and `roots()` is modelled as "parent is the sentinel".
- JSON text, and the order of keys in an object: objects are maps, so key order and string escaping are not modelled.
- Visibility display and flag bit accessors: visibility is an enum with its lower-case name, and flags are records of booleans.
- Reference counting (`Rc`): it has no observable effect here.
- Integer widths: pool indices are `nat` rather than `u32`, and enum values are `int` rather than `i64`.
- Source locations: a function's source keeps only the source file index, which is all the encoder reads.
- Encoder.EncodeDefinition: a stack overflow is modelled as the `DepthExceeded` abort after as many nested steps as the pool has definitions. The program's real stack limit is not modelled. When no cycle is reachable from the definition, the two agree (`EncoderDepth.AcyclicDepthIrrelevant`).
- Bases.CollectBases: a cyclic base chain becomes the `CyclicBaseChain` abort after as many steps as the pool has definitions, rather than a stack overflow.
- EncoderDepth.AcyclicWithinDepth: a reachable cycle does not by itself give `DepthExceeded`; a failure met before the cycle is entered (an unresolved name, say) is reported instead. That `DepthExceeded` arises only where the program's recursion is unbounded is not proved: in Dafny terms, that `Encode(pool, def, more) == EncodeDefinition(pool, def)` for every `more` of at least the pool size, without the acyclicity premise. `Scenarios.ReachableCycleExceedsDepth` shows one reachable cycle that does exceed the depth.
- Bundle layout: that the pool's definition iterator skips entry 0 is a property of redscript's `ConstantPool`, which is not part of this model.
