module Accessors {
  // From field paths to generated readers (internal/validate, internal/backend/otelc).

  // Resolving the fields of an attribute (internal/validate/attributes.go), emitting the reader
  // (internal/backend/otelc/typed_accessors.go), and what the emitted statements do on every value.

  import opened FieldLookup
  import opened Policies

  // ------------------------------------------------------------------------------ field paths

  function EndType(root: TypeName, fields: seq<TypeField>): TypeName
  {
    if |fields| == 0 then root else fields[|fields| - 1].typ
  }

  /** Exported fields, each of the struct that the ones before lead to. */
  ghost predicate IsFieldPath(index: TypeIndex, root: TypeName, fields: seq<TypeField>)
  {
    |fields| == 0 ||
    var front, last := fields[..|fields| - 1], fields[|fields| - 1];
    && IsFieldPath(index, root, front) && last.exported && last in ShapeFields(index, EndType(root, front))
  }

  function FieldNames(fields: seq<TypeField>): (names: seq<string>)
    ensures |names| == |fields| && forall i :: 0 <= i < |fields| ==> names[i] == fields[i].name
  {
    seq(|fields|, i requires 0 <= i < |fields| => fields[i].name)
  }

  lemma {:induction false} EmbeddingIsFieldPath(index: TypeIndex, root: TypeName, path: Path)
    requires IsEmbedding(index, root, path)
    ensures IsFieldPath(index, root, Fields(path)) && EndType(root, Fields(path)) == TypeAt(root, path)
  {
    if path.Then? {
      EmbeddingIsFieldPath(index, root, path.prefix);
      assert Fields(path)[..|Fields(path)| - 1] == Fields(path.prefix);
    }
  }

  /** What a lookup finds is a field path. */
  lemma SelectedIsFieldPath(index: TypeIndex, root: TypeName, name: string)
    requires Selected(index, root, name).Found?
    ensures IsFieldPath(index, root, Selected(index, root, name).path) && |Selected(index, root, name).path| > 0
  {
    hide MatchesAt, Fields, ShapeFields;
    var depth: nat :| IsShallowest(index, root, name, depth) &&
                      Selected(index, root, name) == Decide(MatchesAt(index, root, name, depth));
    var q := MatchesAt(index, root, name, depth)[0];
    assert q in MatchesAt(index, root, name, depth);
    MatchesAtContain(index, root, name, depth, q);
    EmbeddingIsFieldPath(index, root, q.prefix);
    LastField(q);
  }

  lemma LastField(q: Path)
    requires q.Then?
    ensures Fields(q) == Fields(q.prefix) + [q.field] && Fields(q)[..|Fields(q)| - 1] == Fields(q.prefix)
  {
  }

  lemma FieldPathStep(index: TypeIndex, root: TypeName, front: seq<TypeField>, last: TypeField)
    ensures IsFieldPath(index, root, front + [last]) <==>
            IsFieldPath(index, root, front) && last.exported && last in ShapeFields(index, EndType(root, front))
  {
  }

  lemma {:induction false} FieldPathsCompose(index: TypeIndex, root: TypeName, a: seq<TypeField>, b: seq<TypeField>)
    requires IsFieldPath(index, root, a) && IsFieldPath(index, EndType(root, a), b)
    ensures IsFieldPath(index, root, a + b) && EndType(root, a + b) == EndType(EndType(root, a), b)
    decreases |b|
  {
    hide ShapeFields, IsFieldPath;
    if |b| == 0 {
      assert a + b == a;
    } else {
      var front, last := b[..|b| - 1], b[|b| - 1];
      assert b == front + [last] && a + b == (a + front) + [last];
      FieldPathStep(index, EndType(root, a), front, last);
      FieldPathsCompose(index, root, a, front);
      FieldPathStep(index, root, a + front, last);
    }
  }

  // ------------------------------------------------------------------------------- resolving

  const BOOL_KIND := "bool"
  const INTEGER_KIND := "integer"
  const FLOAT_KIND := "float"
  const STRING_KIND := "string"
  const INTERFACE_KIND := "interface"

  predicate IsScalarKind(kind: string)
  {
    kind == BOOL_KIND || kind == INTEGER_KIND || kind == FLOAT_KIND || kind == STRING_KIND
  }

  predicate IsNilableKind(kind: string)
  {
    || kind == "pointer" || kind == "interface" || kind == "slice" || kind == "map" || kind == "function"
    || kind == "channel"
  }

  datatype Accessor = Accessor(fields: seq<string>, typ: TypeName, kind: string, stringer: bool)

  datatype Resolution =
    | Resolved(accessor: Accessor) | FieldAmbiguous | FieldInaccessible | TypeUnavailable | NotStringer | NotScalar

  /** `classifyAccessor`. */
  function Classify(index: TypeIndex, names: seq<string>, typ: TypeName, stringer: bool): Resolution
  {
    if typ !in index then TypeUnavailable
    else if stringer then
      if index[typ].stringer then Resolved(Accessor(names, typ, STRING_KIND, true)) else NotStringer
    else if IsScalarKind(index[typ].kind) then Resolved(Accessor(names, typ, index[typ].kind, false))
    else NotScalar
  }

  /** Selecting the names one after the other: all fields, embedded ones included, and none if one fails. */
  ghost function SelectAll(index: TypeIndex, root: TypeName, names: seq<string>): Lookup
  {
    if |names| == 0 then Found([])
    else
      match SelectAll(index, root, names[..|names| - 1])
      case Found(fields) =>
        (match Selected(index, EndType(root, fields), names[|names| - 1])
         case Found(more) => Found(fields + more)
         case other => other)
      case other => other
  }

  ghost function Resolve(index: TypeIndex, root: TypeName, names: seq<string>, stringer: bool): Resolution
  {
    match SelectAll(index, root, names)
    case Found(fields) => Classify(index, FieldNames(fields), EndType(root, fields), stringer)
    case Ambiguous => FieldAmbiguous
    case Inaccessible => FieldInaccessible
  }

  lemma {:induction false} SelectAllIsFieldPath(index: TypeIndex, root: TypeName, names: seq<string>)
    requires SelectAll(index, root, names).Found?
    ensures IsFieldPath(index, root, SelectAll(index, root, names).path)
  {
    hide Selected;
    if |names| == 0 {
    } else {
      var front := names[..|names| - 1];
      SelectAllIsFieldPath(index, root, front);
      var fields := SelectAll(index, root, front).path;
      SelectedIsFieldPath(index, EndType(root, fields), names[|names| - 1]);
      FieldPathsCompose(index, root, fields, Selected(index, EndType(root, fields), names[|names| - 1]).path);
    }
  }

  /** `resolveAccessorFields`. */
  method ResolveAccessorFields(index: TypeIndex, root: TypeName, names: seq<string>, stringer: bool)
    returns (r: Resolution)
    ensures r == Resolve(index, root, names, stringer)
  {
    hide Selected;
    var current, fields: seq<TypeField> := root, [];
    for k := 0 to |names|
      invariant SelectAll(index, root, names[..k]) == Found(fields) && current == EndType(root, fields)
    {
      assert names[..k + 1][..k] == names[..k];
      var found := LookupField(index, current, names[k]);
      if !found.Found? {
        FailureStays(index, root, names, k + 1);
        return if found.Ambiguous? then FieldAmbiguous else FieldInaccessible;
      }
      ghost var before := fields;
      for i := 0 to |found.path|
        invariant fields == before + found.path[..i] && current == EndType(root, fields)
      {
        fields, current := fields + [found.path[i]], found.path[i].typ;
      }
      assert found.path[..|found.path|] == found.path;
    }
    assert names[..|names|] == names;
    return Classify(index, FieldNames(fields), current, stringer);
  }

  lemma {:induction false} FailureStays(index: TypeIndex, root: TypeName, names: seq<string>, k: nat)
    requires k <= |names| && !SelectAll(index, root, names[..k]).Found?
    ensures SelectAll(index, root, names) == SelectAll(index, root, names[..k])
    decreases |names|
  {
    hide Selected;
    if k == |names| {
      assert names[..k] == names;
    } else {
      var front := names[..|names| - 1];
      assert front[..k] == names[..k];
      FailureStays(index, root, front, k);
    }
  }

  // ------------------------------------------------------------------------- runtime values

  datatype FloatValue = Finite(value: real) | NaN | Infinite(negative: bool)

  datatype Field = Field(name: string, value: Value)

  /** A value as a reader sees it; what a reader cannot look into is opaque. */
  datatype Value =
    | BoolValue(b: bool) | IntegerValue(i: int) | Float(f: FloatValue) | Text(text: string)
    | StructValue(fields: seq<Field>) | PointerValue(target: Value) | InterfaceValue(dynamic: TypeName, held: Value)
    | Nil | Opaque(id: nat)

  /**
   The parts of the language and of the application that a reader meets: the type a name stands for once
   aliases are resolved, which types are interfaces, which types implement them, and the String methods,
   which may panic.
   */
  datatype Runtime = Runtime(
    identity: TypeName -> TypeName, isInterface: TypeName -> bool, implements: (TypeName, TypeName) -> bool,
    text: Value -> Option<string>)

  predicate Identical(go: Runtime, a: TypeName, b: TypeName)
  {
    go.identity(a) == go.identity(b)
  }

  predicate IsInterface(go: Runtime, typ: TypeName)
  {
    go.isInterface(go.identity(typ))
  }

  predicate Implements(go: Runtime, dynamic: TypeName, typ: TypeName)
  {
    go.implements(go.identity(dynamic), go.identity(typ))
  }

  /** The value is one of this type, as recorded under every name of it; types not recorded are unrestricted. */
  ghost predicate HasType(index: TypeIndex, go: Runtime, v: Value, typ: TypeName)
    decreases v, 1
  {
    forall name :: name in index && Identical(go, name, typ) ==> Fits(index, go, v, name)
  }

  ghost predicate Fits(index: TypeIndex, go: Runtime, v: Value, name: TypeName)
    requires name in index
    decreases v, 0
  {
    var info := index[name];
    if info.kind == BOOL_KIND then v.BoolValue?
    else if info.kind == INTEGER_KIND then v.IntegerValue? && -0x8000_0000_0000_0000 <= v.i < 0x1_0000_0000_0000_0000
    else if info.kind == FLOAT_KIND then v.Float?
    else if info.kind == STRING_KIND then v.Text?
    else if info.kind == STRUCT_KIND then v.StructValue? && HasFields(index, go, v.fields, info.fields)
    else if info.kind == REFERENCE_KIND then v.Nil? || (v.PointerValue? && HasType(index, go, v.target, info.element))
    else if info.kind == INTERFACE_KIND then v.Nil? || HoldsImplementation(index, go, v, name)
    else v.Opaque? || (v.Nil? && IsNilableKind(info.kind))
  }

  /** A value in an interface has a dynamic type that is no interface and implements this one. */
  ghost predicate HoldsImplementation(index: TypeIndex, go: Runtime, v: Value, name: TypeName)
    decreases v, 0, 0
  {
    && v.InterfaceValue? && !IsInterface(go, v.dynamic) && Implements(go, v.dynamic, name)
    && HasType(index, go, v.held, v.dynamic)
  }

  ghost predicate HasFields(index: TypeIndex, go: Runtime, values: seq<Field>, fields: seq<TypeField>)
    decreases values
  {
    && |values| == |fields|
    && forall i :: 0 <= i < |values| ==>
         values[i].name == fields[i].name && HasType(index, go, values[i].value, fields[i].typ)
  }

  /** The index records as interfaces the types that are. */
  ghost predicate KindsRecorded(index: TypeIndex, go: Runtime)
  {
    forall name :: name in index ==> (index[name].kind == INTERFACE_KIND <==> IsInterface(go, name))
  }

  function ValueOf(values: seq<Field>, name: string): Option<Value>
  {
    if |values| == 0 then None
    else if values[0].name == name then Some(values[0].value)
    else ValueOf(values[1..], name)
  }

  /** No struct has two fields of one name. */
  ghost predicate UniqueFields(index: TypeIndex)
  {
    forall typ, i, j :: typ in index && 0 <= i < j < |index[typ].fields| ==>
      index[typ].fields[i].name != index[typ].fields[j].name
  }

  /** The value at the end of the path, unless a pointer on it is nil. */
  function ChainValue(v: Value, names: seq<string>): Option<Value>
  {
    if |names| == 0 then Some(v)
    else
      match ChainValue(v, names[..|names| - 1])
      case None => None
      case Some(base) =>
        if base.PointerValue? && base.target.StructValue? then ValueOf(base.target.fields, names[|names| - 1])
        else if base.StructValue? then ValueOf(base.fields, names[|names| - 1])
        else None
  }

  // ------------------------------------------------------------------------ the emitted code

  datatype Variable = Typed | PointerVariable(k: nat) | ScalarVariable | ConvertedVariable

  datatype Expression = Variable(v: Variable) | Select(base: Expression, field: string)

  /** The statements of a reader, in which a guard returns the zero value and false. */
  datatype Statement =
    | AssertType(typ: TypeName)
    | DefinePointer(k: nat, e: Expression)
    | GuardPointer(k: nat)
    | DefineScalar(e: Expression)
    | GuardScalar
    | ReturnString
    | Convert(kind: string)
    | GuardSign
    | GuardFinite
    | ReturnConverted

  datatype Outcome = Available(value: Value) | Unavailable | NilDereference | StringerPanics | IllTyped

  type Environment = map<Variable, Value>

  datatype Machine = Running(env: Environment) | Stopped(outcome: Outcome)

  /** The argument of a reader: an empty interface, or a value with its dynamic type. */
  datatype Input = NoValue | Dynamic(typ: TypeName, value: Value)

  /** The `any` holds a value of its dynamic type, which is no interface. */
  ghost predicate WellTyped(index: TypeIndex, go: Runtime, input: Input)
  {
    input.Dynamic? ==> !IsInterface(go, input.typ) && HasType(index, go, input.value, input.typ)
  }

  /** `value.(T)` succeeds for the implementations of an interface, and otherwise for the type itself. */
  predicate Accepts(go: Runtime, typ: TypeName, input: Input)
  {
    input.Dynamic? && if IsInterface(go, typ) then Implements(go, input.typ, typ) else Identical(go, input.typ, typ)
  }

  /** The value of the asserted type: an interface still holds the dynamic value. */
  function Asserted(go: Runtime, typ: TypeName, input: Input): Value
    requires input.Dynamic?
  {
    if IsInterface(go, typ) then InterfaceValue(input.typ, input.value) else input.value
  }

  /** What a call of the String method returns, unless the method panics. */
  function Call(go: Runtime, receiver: Value): Outcome
  {
    match go.text(receiver)
    case Some(text) => Available(Text(text))
    case None => StringerPanics
  }

  datatype Evaluation = Evaluated(value: Value) | Failed(outcome: Outcome)

  /** Selecting a field dereferences a pointer to a struct implicitly. */
  function SelectField(v: Value, name: string): Evaluation
  {
    match v
    case StructValue(fields) =>
      (match ValueOf(fields, name) case Some(w) => Evaluated(w) case None => Failed(IllTyped))
    case PointerValue(StructValue(fields)) =>
      (match ValueOf(fields, name) case Some(w) => Evaluated(w) case None => Failed(IllTyped))
    case Nil => Failed(NilDereference)
    case _ => Failed(IllTyped)
  }

  function Evaluate(env: Environment, e: Expression): Evaluation
  {
    match e
    case Variable(v) => if v in env then Evaluated(env[v]) else Failed(IllTyped)
    case Select(base, name) =>
      match Evaluate(env, base)
      case Failed(outcome) => Failed(outcome)
      case Evaluated(v) => SelectField(v, name)
  }

  /** Conversion of an integer to `int64`, with wrap-around. */
  function ToInt64(i: int): int
  {
    (i + 0x8000_0000_0000_0000) % 0x1_0000_0000_0000_0000 - 0x8000_0000_0000_0000
  }

  function ConvertValue(kind: string, v: Value): Evaluation
  {
    if kind == BOOL_KIND then if v.BoolValue? then Evaluated(v) else Failed(IllTyped)
    else if kind == STRING_KIND then if v.Text? then Evaluated(v) else Failed(IllTyped)
    else if kind == FLOAT_KIND then if v.Float? then Evaluated(v) else Failed(IllTyped)
    else if v.IntegerValue? then Evaluated(IntegerValue(ToInt64(v.i))) else Failed(IllTyped)
  }

  function Define(env: Environment, variable: Variable, e: Evaluation): Machine
  {
    match e
    case Failed(outcome) => Stopped(outcome)
    case Evaluated(v) => Running(env[variable := v])
  }

  function Execute(env: Environment, s: Statement, input: Input, go: Runtime): Machine
  {
    match s
    case AssertType(typ) =>
      if Accepts(go, typ, input) then Running(env[Typed := Asserted(go, typ, input)]) else Stopped(Unavailable)
    case DefinePointer(k, e) => Define(env, PointerVariable(k), Evaluate(env, e))
    case GuardPointer(k) =>
      if PointerVariable(k) !in env then Stopped(IllTyped)
      else if env[PointerVariable(k)].Nil? then Stopped(Unavailable) else Running(env)
    case DefineScalar(e) => Define(env, ScalarVariable, Evaluate(env, e))
    case GuardScalar =>
      if ScalarVariable !in env then Stopped(IllTyped)
      else if env[ScalarVariable].Nil? then Stopped(Unavailable) else Running(env)
    case ReturnString =>
      if ScalarVariable !in env then Stopped(IllTyped)
      else if env[ScalarVariable].Nil? then Stopped(NilDereference)
      else Stopped(Call(go, env[ScalarVariable]))
    case Convert(kind) =>
      if ScalarVariable !in env then Stopped(IllTyped)
      else Define(env, ConvertedVariable, ConvertValue(kind, env[ScalarVariable]))
    case GuardSign =>
      if ScalarVariable !in env || ConvertedVariable !in env || !env[ScalarVariable].IntegerValue? ||
         !env[ConvertedVariable].IntegerValue? then Stopped(IllTyped)
      else if env[ScalarVariable].i > 0 && env[ConvertedVariable].i < 0 then Stopped(Unavailable)
      else Running(env)
    case GuardFinite =>
      if ConvertedVariable !in env || !env[ConvertedVariable].Float? then Stopped(IllTyped)
      else if env[ConvertedVariable].f.Finite? then Running(env) else Stopped(Unavailable)
    case ReturnConverted =>
      if ConvertedVariable !in env then Stopped(IllTyped) else Stopped(Available(env[ConvertedVariable]))
  }

  /** Running a reader up to the end of these statements. */
  function Run(code: seq<Statement>, input: Input, go: Runtime): Machine
  {
    if |code| == 0 then Running(map[])
    else Continue(Run(code[..|code| - 1], input, go), code[|code| - 1], input, go)
  }

  function Continue(machine: Machine, s: Statement, input: Input, go: Runtime): Machine
  {
    if machine.Stopped? then machine else Execute(machine.env, s, input, go)
  }

  lemma RunNext(code: seq<Statement>, s: Statement, input: Input, go: Runtime)
    ensures Run(code + [s], input, go) == Continue(Run(code, input, go), s, input, go)
  {
  }

  // ------------------------------------------------------------------------------- emitting

  datatype Rendering =
    | Rendered(code: seq<Statement>, expression: Expression, current: TypeName) | BadIdentifier | MissingFieldType

  /** `accessorFieldType`: the type of the first field with this name. */
  function FieldType(fields: seq<TypeField>, name: string): Option<TypeName>
  {
    if |fields| == 0 then None
    else if fields[0].name == name then Some(fields[0].typ)
    else FieldType(fields[1..], name)
  }

  function ShapeOf(index: TypeIndex, typ: TypeName): seq<TypeField>
  {
    if typ in index then index[typ].fields else []
  }

  predicate IsPointer(index: TypeIndex, typ: TypeName)
  {
    typ in index && index[typ].kind == REFERENCE_KIND
  }

  /** The code for one more field: a guarded pointer variable if the value so far is a pointer. */
  function RenderField(index: TypeIndex, identifier: string -> bool, before: Rendering, k: nat, name: string): Rendering
    requires before.Rendered?
  {
    if !identifier(name) then BadIdentifier
    else if IsPointer(index, before.current) then
      match FieldType(ShapeOf(index, index[before.current].element), name)
      case None => MissingFieldType
      case Some(typ) =>
        Rendered(before.code + [DefinePointer(k, before.expression)] + [GuardPointer(k)],
                 Select(Variable(PointerVariable(k)), name), typ)
    else
      match FieldType(ShapeOf(index, before.current), name)
      case None => MissingFieldType
      case Some(typ) => Rendered(before.code, Select(before.expression, name), typ)
  }

  /** `fieldExpression`, after the statements emitted so far. */
  function RenderFields(index: TypeIndex, identifier: string -> bool, start: seq<Statement>, root: TypeName,
                        names: seq<string>): Rendering
  {
    if |names| == 0 then Rendered(start, Variable(Typed), root)
    else
      var before := RenderFields(index, identifier, start, root, names[..|names| - 1]);
      if before.Rendered? then RenderField(index, identifier, before, |names| - 1, names[|names| - 1]) else before
  }

  function ReturnStatements(index: TypeIndex, accessor: Accessor): seq<Statement>
  {
    if accessor.stringer then
      (if accessor.typ in index && IsNilableKind(index[accessor.typ].kind) then [GuardScalar] else []) + [ReturnString]
    else
      [Convert(accessor.kind)] +
      (if accessor.kind == INTEGER_KIND then [GuardSign]
       else if accessor.kind == FLOAT_KIND then [GuardFinite] else []) +
      [ReturnConverted]
  }

  /** The whole reader, if its field expression can be rendered. */
  function Reader(index: TypeIndex, identifier: string -> bool, root: TypeName, accessor: Accessor)
    : Option<seq<Statement>>
  {
    match RenderFields(index, identifier, [AssertType(root)], root, accessor.fields)
    case Rendered(code, expression, _) => Some(code + [DefineScalar(expression)] + ReturnStatements(index, accessor))
    case _ => None
  }

  lemma {:induction false} RenderingKeepsFirst(index: TypeIndex, identifier: string -> bool, start: seq<Statement>,
                                               root: TypeName, names: seq<string>)
    requires |start| > 0
    ensures var r := RenderFields(index, identifier, start, root, names);
            r.Rendered? ==> |r.code| > 0 && r.code[0] == start[0]
  {
    if |names| == 0 {
    } else {
      RenderingKeepsFirst(index, identifier, start, root, names[..|names| - 1]);
    }
  }

  /** A reader begins with the assertion of its root. */
  lemma ReaderAssertsRoot(index: TypeIndex, identifier: string -> bool, root: TypeName, accessor: Accessor)
    ensures var reader := Reader(index, identifier, root, accessor);
            reader.Some? ==> |reader.value| > 0 && reader.value[0] == AssertType(root)
  {
    hide RenderFields, ReturnStatements;
    RenderingKeepsFirst(index, identifier, [AssertType(root)], root, accessor.fields);
  }

  class AccessorRenderer {
    const types: TypeIndex
    const parameters: seq<TypeName>
    const results: seq<TypeName>
    const identifier: string -> bool
    const expressible: TypeName -> bool
    var body: seq<Statement>

    /** `expressible` are the types that `accessorTypeExpression` can write in the generated file. */
    constructor (types: TypeIndex, parameters: seq<TypeName>, results: seq<TypeName>, identifier: string -> bool,
                 expressible: TypeName -> bool)
      ensures this.types == types && this.parameters == parameters && this.results == results
      ensures this.identifier == identifier && this.expressible == expressible && body == []
    {
      this.types, this.parameters, this.results := types, parameters, results;
      this.identifier, this.expressible, this.body := identifier, expressible, [];
    }

    method FieldExpression(root: TypeName, fields: seq<string>) returns (r: Rendering)
      modifies this
      ensures r == RenderFields(types, identifier, old(body), root, fields)
      ensures r.Rendered? ==> body == r.code
    {
      hide FieldType, ShapeOf, IsPointer;
      var current, expression := root, Variable(Typed);
      for k := 0 to |fields|
        invariant RenderFields(types, identifier, old(body), root, fields[..k]) == Rendered(body, expression, current)
      {
        assert fields[..k + 1][..k] == fields[..k];
        var name := fields[k];
        ghost var next := RenderFields(types, identifier, old(body), root, fields[..k + 1]);
        FailedRendering(types, identifier, old(body), root, fields, k + 1);
        if !identifier(name) {
          return BadIdentifier;
        }
        var shape := current;
        if IsPointer(types, current) {
          PointerKnown(types, current);
          shape := types[current].element;
          body := body + [DefinePointer(k, expression)];
          body := body + [GuardPointer(k)];
          expression := Variable(PointerVariable(k));
        }
        var fieldType := FieldType(ShapeOf(types, shape), name);
        if fieldType == None {
          return MissingFieldType;
        }
        current, expression := fieldType.value, Select(expression, name);
      }
      assert fields[..|fields|] == fields;
      return Rendered(body, expression, current);
    }

    /** `renderValueAccessor`. */
    method RenderValueAccessor(argument: bool, index: nat, accessor: Accessor) returns (ok: bool)
      requires index < |if argument then parameters else results|
      requires body == []
      modifies this
      ensures argument ==>
                var reader := Reader(types, identifier, parameters[index], accessor);
                && (ok <==> expressible(parameters[index]) && reader.Some?)
                && (ok ==> body == reader.value && body[0] == AssertType(parameters[index]))
      ensures !argument ==>
                var reader := Reader(types, identifier, results[index], accessor);
                && (ok <==> expressible(results[index]) && reader.Some?)
                && (ok ==> body == reader.value && body[0] == AssertType(results[index]))
    {
      hide RenderFields;
      var root := if argument then parameters[index] else results[index];
      ReaderAssertsRoot(types, identifier, root, accessor);
      if !expressible(root) {
        return false;
      }
      body := body + [AssertType(root)];
      assert body == [AssertType(root)];
      var rendered := FieldExpression(root, accessor.fields);
      if !rendered.Rendered? {
        return false;
      }
      body := body + [DefineScalar(rendered.expression)];
      ghost var start := body;
      if accessor.stringer {
        if accessor.typ in types && IsNilableKind(types[accessor.typ].kind) {
          body := body + [GuardScalar];
        }
        body := body + [ReturnString];
        assert body == start + ReturnStatements(types, accessor);
        return true;
      }
      body := body + [Convert(accessor.kind)];
      if accessor.kind == INTEGER_KIND {
        body := body + [GuardSign];
      } else if accessor.kind == FLOAT_KIND {
        body := body + [GuardFinite];
      }
      body := body + [ReturnConverted];
      assert body == start + ReturnStatements(types, accessor);
      return true;
    }
  }

  lemma PointerKnown(index: TypeIndex, typ: TypeName)
    requires IsPointer(index, typ)
    ensures typ in index
  {
  }

  lemma {:induction false} FailedRendering(index: TypeIndex, identifier: string -> bool, start: seq<Statement>,
                                           root: TypeName, names: seq<string>, k: nat)
    requires k <= |names|
    ensures !RenderFields(index, identifier, start, root, names[..k]).Rendered? ==>
              RenderFields(index, identifier, start, root, names) ==
              RenderFields(index, identifier, start, root, names[..k])
    decreases |names|
  {
    hide RenderField;
    if k == |names| {
      assert names[..k] == names;
    } else {
      var front := names[..|names| - 1];
      assert front[..k] == names[..k];
      FailedRendering(index, identifier, start, root, front, k);
    }
  }

  // ------------------------------------------------------------- emitting always succeeds

  /** Exported fields have names that may be written in a selector. */
  ghost predicate ExportedNames(index: TypeIndex, identifier: string -> bool)
  {
    forall typ, i :: typ in index && 0 <= i < |index[typ].fields| && index[typ].fields[i].exported ==>
      identifier(index[typ].fields[i].name)
  }

  lemma {:induction false} FieldTypeOf(fields: seq<TypeField>, field: TypeField)
    requires field in fields
    requires forall i, j :: 0 <= i < j < |fields| ==> fields[i].name != fields[j].name
    ensures FieldType(fields, field.name) == Some(field.typ)
  {
    var k :| 0 <= k < |fields| && fields[k] == field;
    if k == 0 {
    } else {
      assert fields[0].name != fields[k].name;
      assert fields[1..][k - 1] == field;
      FieldTypeOf(fields[1..], field);
    }
  }

  /** The struct behind a type, when it has a field. */
  lemma FieldOfShape(index: TypeIndex, identifier: string -> bool, typ: TypeName, field: TypeField)
    requires UniqueFields(index) && ExportedNames(index, identifier)
    requires field in ShapeFields(index, typ) && field.exported
    ensures var shape := if IsPointer(index, typ) then index[typ].element else typ;
            && shape in index && index[shape].kind == STRUCT_KIND && field in index[shape].fields
            && FieldType(ShapeOf(index, shape), field.name) == Some(field.typ)
    ensures identifier(field.name)
  {
    var shape := if IsPointer(index, typ) then index[typ].element else typ;
    FieldTypeOf(index[shape].fields, field);
    var i :| 0 <= i < |index[shape].fields| && index[shape].fields[i] == field;
  }

  lemma FrontNames(fields: seq<TypeField>)
    requires |fields| > 0
    ensures FieldNames(fields)[..|fields| - 1] == FieldNames(fields[..|fields| - 1])
    ensures FieldNames(fields)[|fields| - 1] == fields[|fields| - 1].name
  {
  }

  /** For a field path, the field expression is rendered and ends at the type the lookup ended at. */
  lemma {:induction false} FieldExpressionSucceeds(index: TypeIndex, identifier: string -> bool, start: seq<Statement>,
                                                   root: TypeName, fields: seq<TypeField>)
    requires UniqueFields(index) && ExportedNames(index, identifier) && IsFieldPath(index, root, fields)
    ensures var r := RenderFields(index, identifier, start, root, FieldNames(fields));
            r.Rendered? && r.current == EndType(root, fields)
    decreases |fields|
  {
    hide UniqueFields, ExportedNames, ShapeFields, FieldType, ShapeOf;
    if |fields| == 0 {
    } else {
      var front, last := fields[..|fields| - 1], fields[|fields| - 1];
      FieldExpressionSucceeds(index, identifier, start, root, front);
      FieldOfShape(index, identifier, EndType(root, front), last);
      FrontNames(fields);
    }
  }

  // ----------------------------------------------------------------- what the code computes

  lemma {:induction false} ValueOfField(index: TypeIndex, go: Runtime, values: seq<Field>, fields: seq<TypeField>,
                                        field: TypeField)
    requires HasFields(index, go, values, fields) && field in fields
    requires forall i, j :: 0 <= i < j < |fields| ==> fields[i].name != fields[j].name
    ensures ValueOf(values, field.name).Some? && HasType(index, go, ValueOf(values, field.name).value, field.typ)
  {
    hide HasType;
    var k :| 0 <= k < |fields| && fields[k] == field;
    assert values[0].name == fields[0].name;
    if k == 0 {
    } else {
      assert fields[0].name != fields[k].name;
      assert fields[1..][k - 1] == field;
      assert forall i :: 0 <= i < |values[1..]| ==> values[1..][i] == values[i + 1] && fields[1..][i] == fields[i + 1];
      ValueOfField(index, go, values[1..], fields[1..], field);
    }
  }

  lemma TypeFits(index: TypeIndex, go: Runtime, v: Value, typ: TypeName)
    requires typ in index && HasType(index, go, v, typ)
    ensures Fits(index, go, v, typ)
  {
    assert Identical(go, typ, typ);
  }

  /** A value of a type with a field: a struct, a pointer to one, or nil. */
  lemma BaseShape(index: TypeIndex, identifier: string -> bool, go: Runtime, typ: TypeName, field: TypeField,
                  base: Value)
    requires UniqueFields(index) && ExportedNames(index, identifier)
    requires field in ShapeFields(index, typ) && field.exported && HasType(index, go, base, typ)
    ensures if IsPointer(index, typ) then base.Nil? || (base.PointerValue? && base.target.StructValue?)
            else base.StructValue?
    ensures !base.Nil? ==>
              var fields := if base.PointerValue? then base.target.fields else base.fields;
              ValueOf(fields, field.name).Some? && HasType(index, go, ValueOf(fields, field.name).value, field.typ)
  {
    FieldOfShape(index, identifier, typ, field);
    var shape := if IsPointer(index, typ) then index[typ].element else typ;
    TypeFits(index, go, base, typ);
    if IsPointer(index, typ) && !base.Nil? {
      TypeFits(index, go, base.target, shape);
    }
    if !base.Nil? {
      var fields := if base.PointerValue? then base.target.fields else base.fields;
      ValueOfField(index, go, fields, index[shape].fields, field);
    }
  }

  /** After the code for a field path, its expression is the value at the end, or a guard has returned. */
  ghost predicate Reached(machine: Machine, expression: Expression, chain: Option<Value>)
  {
    match chain
    case None => machine == Stopped(Unavailable)
    case Some(w) => machine.Running? && Evaluate(machine.env, expression) == Evaluated(w)
  }

  lemma {:induction false} FieldsAreRead(index: TypeIndex, identifier: string -> bool, root: TypeName,
                                         fields: seq<TypeField>, input: Input, v: Value, go: Runtime)
    requires UniqueFields(index) && ExportedNames(index, identifier) && IsFieldPath(index, root, fields)
    requires Accepts(go, root, input) && v == Asserted(go, root, input) && HasType(index, go, v, root)
    ensures var names := FieldNames(fields);
            var r := RenderFields(index, identifier, [AssertType(root)], root, names);
            && r.Rendered? && Reached(Run(r.code, input, go), r.expression, ChainValue(v, names))
            && (ChainValue(v, names).Some? ==> HasType(index, go, ChainValue(v, names).value, EndType(root, fields)))
    decreases |fields|
  {
    hide UniqueFields, ExportedNames, ShapeFields, HasType, ValueOf, RenderField, Reached, Run, Follow, Accepts;
    FieldExpressionSucceeds(index, identifier, [AssertType(root)], root, fields);
    if |fields| == 0 {
      TypeAsserted(root, input, go);
    } else {
      var front, last := fields[..|fields| - 1], fields[|fields| - 1];
      FieldsAreRead(index, identifier, root, front, input, v, go);
      FieldExpressionSucceeds(index, identifier, [AssertType(root)], root, front);
      FrontNames(fields);
      FieldOfShape(index, identifier, EndType(root, front), last);
      var before := RenderFields(index, identifier, [AssertType(root)], root, FieldNames(front));
      ChainFollows(v, FieldNames(fields));
      OneFieldRead(index, identifier, before, EndType(root, front), last, v, ChainValue(v, FieldNames(front)),
                   |front|, input, go);
    }
  }

  lemma TypeAsserted(root: TypeName, input: Input, go: Runtime)
    requires Accepts(go, root, input)
    ensures Reached(Run([AssertType(root)], input, go), Variable(Typed), Some(Asserted(go, root, input)))
  {
    RunNext([], AssertType(root), input, go);
    NothingRun(input, go);
    assert [] + [AssertType(root)] == [AssertType(root)];
  }

  lemma ChainFollows(v: Value, names: seq<string>)
    requires |names| > 0
    ensures ChainValue(v, names) == Follow(ChainValue(v, names[..|names| - 1]), names[|names| - 1])
  {
  }

  lemma OneFieldRead(index: TypeIndex, identifier: string -> bool, before: Rendering, typ: TypeName, field: TypeField,
                     v: Value, chain: Option<Value>, k: nat, input: Input, go: Runtime)
    requires UniqueFields(index) && ExportedNames(index, identifier)
    requires before.Rendered? && before.current == typ && field in ShapeFields(index, typ) && field.exported
    requires Reached(Run(before.code, input, go), before.expression, chain)
    requires chain.Some? ==> HasType(index, go, chain.value, typ)
    ensures var r := RenderField(index, identifier, before, k, field.name);
            && r.Rendered?
            && Reached(Run(r.code, input, go), r.expression, Follow(chain, field.name))
            && (Follow(chain, field.name).Some? ==> HasType(index, go, Follow(chain, field.name).value, field.typ))
  {
    hide UniqueFields, ExportedNames, ShapeFields, FieldType, ShapeOf, HasType, ValueOf, Run, Reached;
    FieldOfShape(index, identifier, typ, field);
    if chain.Some? {
      BaseShape(index, identifier, go, typ, field, chain.value);
    }
    if IsPointer(index, typ) {
      PointerRead(before.code, before.expression, chain, k, field.name, input, go);
    } else {
      StructRead(before.code, before.expression, chain, field.name, input, go);
    }
  }

  lemma StructRead(code: seq<Statement>, e: Expression, chain: Option<Value>, name: string, input: Input,
                   go: Runtime)
    requires Reached(Run(code, input, go), e, chain)
    requires chain.Some? ==> chain.value.StructValue? && ValueOf(chain.value.fields, name).Some?
    ensures Reached(Run(code, input, go), Select(e, name), Follow(chain, name))
  {
  }

  lemma PointerRead(code: seq<Statement>, e: Expression, chain: Option<Value>, k: nat, name: string, input: Input,
                    go: Runtime)
    requires Reached(Run(code, input, go), e, chain)
    requires chain.Some? ==>
               chain.value.Nil? || (chain.value.PointerValue? && chain.value.target.StructValue? &&
                                    ValueOf(chain.value.target.fields, name).Some?)
    ensures Reached(Run(code + [DefinePointer(k, e)] + [GuardPointer(k)], input, go),
                    Select(Variable(PointerVariable(k)), name), Follow(chain, name))
  {
  }

  /** One step of `ChainValue`. */
  function Follow(chain: Option<Value>, name: string): Option<Value>
  {
    match chain
    case None => None
    case Some(base) =>
      if base.PointerValue? && base.target.StructValue? then ValueOf(base.target.fields, name)
      else if base.StructValue? then ValueOf(base.fields, name)
      else None
  }

  /** An integer that fits `int64`, a finite float, and every other scalar. */
  predicate Representable(v: Value)
  {
    match v
    case IntegerValue(i) => i <= 0x7FFF_FFFF_FFFF_FFFF
    case Float(f) => f.Finite?
    case _ => true
  }

  /** What a reader is for: the value at the end of the path, if there is one and telemetry can hold it. */
  function Expected(root: TypeName, accessor: Accessor, input: Input, go: Runtime): Outcome
  {
    if !Accepts(go, root, input) then Unavailable
    else
      match ChainValue(Asserted(go, root, input), accessor.fields)
      case None => Unavailable
      case Some(w) => Returned(accessor, w, go)
  }

  lemma Int64Sign(i: int)
    requires -0x8000_0000_0000_0000 <= i < 0x1_0000_0000_0000_0000
    ensures if i <= 0x7FFF_FFFF_FFFF_FFFF then ToInt64(i) == i else ToInt64(i) == i - 0x1_0000_0000_0000_0000
  {
  }

  /** What the value at the end of the path is turned into. */
  function Returned(accessor: Accessor, w: Value, go: Runtime): Outcome
  {
    if accessor.stringer then if w.Nil? then Unavailable else Call(go, w)
    else if Representable(w) then Available(w) else Unavailable
  }

  /** The statements after the field expression return its value exactly if it is representable. */
  lemma ReturnsValue(index: TypeIndex, accessor: Accessor, code: seq<Statement>, e: Expression, w: Value,
                     input: Input, go: Runtime)
    requires accessor.typ in index && HasType(index, go, w, accessor.typ)
    requires accessor.stringer || (accessor.kind == index[accessor.typ].kind && IsScalarKind(accessor.kind))
    requires Reached(Run(code, input, go), e, Some(w))
    ensures Run(code + [DefineScalar(e)] + ReturnStatements(index, accessor), input, go) ==
            Stopped(Returned(accessor, w, go))
  {
    hide Run, Evaluate, HasType, Fits, ConvertValue, Returned, Execute;
    RunNext(code, DefineScalar(e), input, go);
    ScalarDefined(e, w, Run(code, input, go), input, go);
    TypeFits(index, go, w, accessor.typ);
    if accessor.stringer {
      ReturnsText(index, accessor, code + [DefineScalar(e)], w, input, go);
    } else {
      ReturnsScalar(index, accessor, code + [DefineScalar(e)], w, input, go);
    }
  }

  lemma ScalarDefined(e: Expression, w: Value, machine: Machine, input: Input, go: Runtime)
    requires Reached(machine, e, Some(w))
    ensures HasScalar(Continue(machine, DefineScalar(e), input, go), w)
  {
  }

  ghost predicate HasScalar(machine: Machine, w: Value)
  {
    machine.Running? && ScalarVariable in machine.env && machine.env[ScalarVariable] == w
  }

  lemma ReturnsText(index: TypeIndex, accessor: Accessor, start: seq<Statement>, w: Value, input: Input, go: Runtime)
    requires accessor.typ in index && Fits(index, go, w, accessor.typ) && accessor.stringer
    requires HasScalar(Run(start, input, go), w)
    ensures Run(start + ReturnStatements(index, accessor), input, go) == Stopped(Returned(accessor, w, go))
  {
    hide Run, HasFields, HoldsImplementation, HasType, Call;
    RunNext(start, GuardScalar, input, go);
    RunNext(start, ReturnString, input, go);
    RunNext(start + [GuardScalar], ReturnString, input, go);
    assert start + ReturnStatements(index, accessor) ==
           if IsNilableKind(index[accessor.typ].kind) then start + [GuardScalar] + [ReturnString]
           else start + [ReturnString];
  }

  lemma ReturnsScalar(index: TypeIndex, accessor: Accessor, start: seq<Statement>, w: Value, input: Input, go: Runtime)
    requires accessor.typ in index && Fits(index, go, w, accessor.typ) && !accessor.stringer
    requires accessor.kind == index[accessor.typ].kind && IsScalarKind(accessor.kind)
    requires HasScalar(Run(start, input, go), w)
    ensures Run(start + ReturnStatements(index, accessor), input, go) == Stopped(Returned(accessor, w, go))
  {
    hide Run, HasFields, HoldsImplementation, HasType;
    var convert := start + [Convert(accessor.kind)];
    RunNext(start, Convert(accessor.kind), input, go);
    if accessor.kind == INTEGER_KIND {
      Int64Sign(w.i);
      RunNext(convert, GuardSign, input, go);
      RunNext(convert + [GuardSign], ReturnConverted, input, go);
      assert start + ReturnStatements(index, accessor) == convert + [GuardSign] + [ReturnConverted];
    } else if accessor.kind == FLOAT_KIND {
      RunNext(convert, GuardFinite, input, go);
      RunNext(convert + [GuardFinite], ReturnConverted, input, go);
      assert start + ReturnStatements(index, accessor) == convert + [GuardFinite] + [ReturnConverted];
    } else {
      RunNext(convert, ReturnConverted, input, go);
      assert start + ReturnStatements(index, accessor) == convert + [ReturnConverted];
    }
  }

  lemma {:induction false} StoppedStays(code: seq<Statement>, more: seq<Statement>, input: Input, go: Runtime)
    requires Run(code, input, go).Stopped?
    ensures Run(code + more, input, go) == Run(code, input, go)
    decreases |more|
  {
    hide Run, Execute;
    if |more| == 0 {
      assert code + more == code;
    } else {
      var front := more[..|more| - 1];
      StoppedStays(code, front, input, go);
      RunNext(code + front, more[|more| - 1], input, go);
      assert code + more == code + front + [more[|more| - 1]];
    }
  }

  lemma {:induction false} WrongTypeStops(index: TypeIndex, identifier: string -> bool, root: TypeName,
                                          names: seq<string>, input: Input, go: Runtime)
    requires RenderFields(index, identifier, [AssertType(root)], root, names).Rendered?
    requires !Accepts(go, root, input)
    ensures Run(RenderFields(index, identifier, [AssertType(root)], root, names).code, input, go) ==
            Stopped(Unavailable)
  {
    hide FieldType, ShapeOf, IsPointer, Run;
    if |names| == 0 {
      RunNext([], AssertType(root), input, go);
      NothingRun(input, go);
      assert [] + [AssertType(root)] == [AssertType(root)];
    } else {
      var front := names[..|names| - 1];
      WrongTypeStops(index, identifier, root, front, input, go);
      var before := RenderFields(index, identifier, [AssertType(root)], root, front);
      RunNext(before.code, DefinePointer(|names| - 1, before.expression), input, go);
      RunNext(before.code + [DefinePointer(|names| - 1, before.expression)], GuardPointer(|names| - 1), input, go);
    }
  }

  lemma NothingRun(input: Input, go: Runtime)
    ensures Run([], input, go) == Running(map[])
  {
  }

  /** A successful assertion gives a value of the asserted type. */
  lemma AssertionKeepsType(index: TypeIndex, go: Runtime, typ: TypeName, input: Input)
    requires KindsRecorded(index, go) && WellTyped(index, go, input) && Accepts(go, typ, input)
    ensures HasType(index, go, Asserted(go, typ, input), typ)
  {
    if IsInterface(go, typ) {
      var v := Asserted(go, typ, input);
      forall name | name in index && Identical(go, name, typ)
        ensures Fits(index, go, v, name)
      {
        assert IsInterface(go, name) && HoldsImplementation(index, go, v, name);
      }
    }
  }

  /**
   For every attribute that resolves, the reader is rendered, and on every well-typed argument it returns
   what it is for; in particular it never dereferences nil.
   */
  lemma ReaderIsCorrect(index: TypeIndex, identifier: string -> bool, root: TypeName, names: seq<string>,
                        stringer: bool, input: Input, go: Runtime)
    requires UniqueFields(index) && ExportedNames(index, identifier) && KindsRecorded(index, go)
    requires Resolve(index, root, names, stringer).Resolved? && WellTyped(index, go, input)
    ensures var accessor := Resolve(index, root, names, stringer).accessor;
            var reader := Reader(index, identifier, root, accessor);
            reader.Some? && Run(reader.value, input, go) == Stopped(Expected(root, accessor, input, go))
  {
    hide UniqueFields, ExportedNames, Run, HasType, SelectAll, RenderFields, ReturnStatements, ChainValue;
    hide Representable, Accepts, Asserted, KindsRecorded, WellTyped, Call;
    var accessor := Resolve(index, root, names, stringer).accessor;
    var fields := SelectAll(index, root, names).path;
    SelectAllIsFieldPath(index, root, names);
    FieldExpressionSucceeds(index, identifier, [AssertType(root)], root, fields);
    var r := RenderFields(index, identifier, [AssertType(root)], root, accessor.fields);
    var more := [DefineScalar(r.expression)] + ReturnStatements(index, accessor);
    assert r.code + more == r.code + [DefineScalar(r.expression)] + ReturnStatements(index, accessor);
    if Accepts(go, root, input) {
      AcceptedIsDynamic(go, root, input);
      var v := Asserted(go, root, input);
      AssertionKeepsType(index, go, root, input);
      FieldsAreRead(index, identifier, root, fields, input, v, go);
      match ChainValue(v, accessor.fields) {
        case None => StoppedStays(r.code, more, input, go);
        case Some(w) => ReturnsValue(index, accessor, r.code, r.expression, w, input, go);
      }
    } else {
      WrongTypeStops(index, identifier, root, accessor.fields, input, go);
      StoppedStays(r.code, more, input, go);
    }
  }

  lemma AcceptedIsDynamic(go: Runtime, typ: TypeName, input: Input)
    requires Accepts(go, typ, input)
    ensures input.Dynamic?
  {
  }

  /** An interface source with String is read through whatever implementation the argument holds, nil or not. */
  lemma InterfaceSourceIsRead(index: TypeIndex, identifier: string -> bool, root: TypeName, input: Input, go: Runtime)
    requires UniqueFields(index) && ExportedNames(index, identifier) && KindsRecorded(index, go)
    requires root in index && index[root].kind == INTERFACE_KIND && index[root].stringer
    requires WellTyped(index, go, input) && input.Dynamic? && Implements(go, input.typ, root)
    ensures Resolve(index, root, [], true) == Resolved(Accessor([], root, STRING_KIND, true))
    ensures var reader := Reader(index, identifier, root, Accessor([], root, STRING_KIND, true));
            reader.Some? && Run(reader.value, input, go) == Stopped(Call(go, InterfaceValue(input.typ, input.value)))
  {
    hide Run, RenderFields, ReturnStatements, UniqueFields, ExportedNames, HasType;
    ReaderIsCorrect(index, identifier, root, [], true, input, go);
  }

  /** An alias is read like the type it stands for. */
  lemma AliasIsTransparent(root: TypeName, synonym: TypeName, accessor: Accessor, input: Input, go: Runtime)
    requires Identical(go, root, synonym)
    ensures Expected(root, accessor, input, go) == Expected(synonym, accessor, input, go)
    ensures !IsInterface(go, synonym) ==>
              (Accepts(go, synonym, input) <==> input.Dynamic? && Identical(go, input.typ, root))
  {
  }

  /** Some value on the path, before its end, is nil. */
  ghost predicate NilBefore(v: Value, names: seq<string>)
  {
    exists k :: 0 <= k < |names| && ChainValue(v, names[..k]) == Some(Nil)
  }

  lemma NilBeforeLast(v: Value, names: seq<string>)
    requires |names| > 0
    ensures NilBefore(v, names) <==>
            NilBefore(v, names[..|names| - 1]) || ChainValue(v, names[..|names| - 1]) == Some(Nil)
  {
    hide ChainValue;
    var front := names[..|names| - 1];
    forall k | 0 <= k < |front|
      ensures names[..k] == front[..k]
    {
    }
  }

  lemma {:induction false} ChainIsTyped(index: TypeIndex, identifier: string -> bool, root: TypeName,
                                        fields: seq<TypeField>, v: Value, go: Runtime)
    requires UniqueFields(index) && ExportedNames(index, identifier) && IsFieldPath(index, root, fields)
    requires HasType(index, go, v, root)
    ensures var chain := ChainValue(v, FieldNames(fields));
            chain.Some? ==> HasType(index, go, chain.value, EndType(root, fields))
    decreases |fields|
  {
    hide UniqueFields, ExportedNames, ShapeFields, HasType, ValueOf, FieldNames;
    if |fields| == 0 {
    } else {
      hide ChainValue;
      var front, last := fields[..|fields| - 1], fields[|fields| - 1];
      ChainIsTyped(index, identifier, root, front, v, go);
      FrontNames(fields);
      ChainFollows(v, FieldNames(fields));
      var chain := ChainValue(v, FieldNames(front));
      if chain.Some? {
        BaseShape(index, identifier, go, EndType(root, front), last, chain.value);
      }
    }
  }

  /** The path has no value exactly if something before its end is nil. */
  lemma {:induction false} MissingMeansNil(index: TypeIndex, identifier: string -> bool, root: TypeName,
                                           fields: seq<TypeField>, v: Value, go: Runtime)
    requires UniqueFields(index) && ExportedNames(index, identifier) && IsFieldPath(index, root, fields)
    requires HasType(index, go, v, root)
    ensures ChainValue(v, FieldNames(fields)) == None <==> NilBefore(v, FieldNames(fields))
    decreases |fields|
  {
    hide UniqueFields, ExportedNames, ShapeFields, HasType, ValueOf, FieldNames, RenderFields, Reached, Run;
    if |fields| == 0 {
    } else {
      hide ChainValue, NilBefore;
      var front, last := fields[..|fields| - 1], fields[|fields| - 1];
      MissingMeansNil(index, identifier, root, front, v, go);
      ChainIsTyped(index, identifier, root, front, v, go);
      FrontNames(fields);
      NilBeforeLast(v, FieldNames(fields));
      ChainFollows(v, FieldNames(fields));
      var chain := ChainValue(v, FieldNames(front));
      if chain.Some? {
        BaseShape(index, identifier, go, EndType(root, front), last, chain.value);
      }
    }
  }
}
