module AccessorRules {
  // What readers return for the values they are for (internal/validate, internal/backend/otelc).

  import opened Accessors
  import opened FieldLookup
  import opened Policies
  import opened SelectorRule

  // ------------------------------------------------------------------------------ resolving

  /** Only scalars are read as they are, and only types with a `String` method through it. */
  lemma ResolvedKinds(index: TypeIndex, root: TypeName, names: seq<string>, stringer: bool)
    requires Resolve(index, root, names, stringer).Resolved?
    ensures var accessor := Resolve(index, root, names, stringer).accessor;
            && accessor.stringer == stringer && accessor.typ in index
            && if stringer then accessor.kind == "string" && index[accessor.typ].stringer
               else accessor.kind == index[accessor.typ].kind &&
                    accessor.kind in {"bool", "integer", "float", "string"}
    ensures |names| == 0 ==> Resolve(index, root, names, stringer).accessor.typ == root
  {
    hide SelectAll;
    EmptySelection(index, root);
    assert |names| == 0 ==> names == [];
  }

  lemma EmptySelection(index: TypeIndex, root: TypeName)
    ensures SelectAll(index, root, []) == Found([])
  {
  }

  /** Anything else is refused, for the reason that is met first. */
  lemma RefusedKinds(index: TypeIndex, root: TypeName, names: seq<string>, stringer: bool)
    requires SelectAll(index, root, names).Found?
    ensures var end := EndType(root, SelectAll(index, root, names).path);
            Resolve(index, root, names, stringer) ==
            if end !in index then TypeUnavailable
            else if stringer then
              if index[end].stringer
              then Resolved(Accessor(FieldNames(SelectAll(index, root, names).path), end, "string", true))
              else NotStringer
            else if index[end].kind in {"bool", "integer", "float", "string"}
            then Resolved(Accessor(FieldNames(SelectAll(index, root, names).path), end, index[end].kind, false))
            else NotScalar
  {
    hide SelectAll;
  }

  // -------------------------------------------------------------------------------- reading

  /** What a type index and the program it describes guarantee. */
  ghost predicate IsSound(index: TypeIndex, identifier: string -> bool, go: Runtime)
  {
    UniqueFields(index) && ExportedNames(index, identifier) && KindsRecorded(index, go)
  }

  /** What telemetry can hold: bools, texts, finite floats and integers of 64 bits with a sign. */
  predicate CanBeReported(v: Value)
  {
    match v
    case BoolValue(_) => true
    case Text(_) => true
    case Float(Finite(_)) => true
    case IntegerValue(i) => i <= 9223372036854775807
    case _ => false
  }

  /** An argument of a scalar type, under whatever alias, is returned if telemetry can hold it. */
  lemma ScalarIsRead(index: TypeIndex, identifier: string -> bool, root: TypeName, typ: TypeName, value: Value,
                     go: Runtime)
    requires IsSound(index, identifier, go) && root in index && WellTyped(index, go, Dynamic(typ, value))
    requires index[root].kind in {"bool", "integer", "float", "string"} && go.identity(typ) == go.identity(root)
    ensures Resolve(index, root, [], false) == Resolved(Accessor([], root, index[root].kind, false))
    ensures var reader := Reader(index, identifier, root, Accessor([], root, index[root].kind, false));
            reader.Some? && Run(reader.value, Dynamic(typ, value), go) ==
                            Stopped(if CanBeReported(value) then Available(value) else Unavailable)
  {
    hide Run, RenderFields, ReturnStatements, UniqueFields, ExportedNames, HasFields, HoldsImplementation;
    ReaderIsCorrect(index, identifier, root, [], false, Dynamic(typ, value), go);
    assert Fits(index, go, value, root);
  }

  /** A nil argument with a `String` method is unavailable; any other is asked for its text. */
  lemma NilIsNotAsked(index: TypeIndex, identifier: string -> bool, root: TypeName, typ: TypeName, value: Value,
                      go: Runtime)
    requires IsSound(index, identifier, go) && root in index && WellTyped(index, go, Dynamic(typ, value))
    requires index[root].kind in {"pointer", "slice", "map", "function", "channel"} && index[root].stringer
    requires go.identity(typ) == go.identity(root)
    ensures var reader := Reader(index, identifier, root, Accessor([], root, "string", true));
            reader.Some? && Run(reader.value, Dynamic(typ, value), go) ==
                            Stopped(if value == Nil then Unavailable
                                    else match go.text(value) case Some(text) => Available(Text(text))
                                                              case None => StringerPanics)
  {
    hide Run, RenderFields, ReturnStatements, UniqueFields, ExportedNames, HasFields, HoldsImplementation, HasType;
    ReaderIsCorrect(index, identifier, root, [], true, Dynamic(typ, value), go);
    CalledOn(go, value);
  }

  /** Exactly the values of these kinds can be nil. */
  lemma NilFits(index: TypeIndex, go: Runtime, name: TypeName)
    requires name in index
    ensures Fits(index, go, Nil, name) <==>
            index[name].kind in {"pointer", "interface", "slice", "map", "function", "channel"}
  {
  }

  lemma CalledOn(go: Runtime, value: Value)
    ensures !value.InterfaceValue? && value != Nil ==>
              Call(go, value) ==
              match go.text(value) case Some(text) => Available(Text(text)) case None => StringerPanics
  {
  }

  /** A missing argument, and one of another type that is not accepted, are unavailable. */
  lemma OthersAreUnavailable(index: TypeIndex, identifier: string -> bool, root: TypeName, names: seq<string>,
                             stringer: bool, input: Input, go: Runtime)
    requires IsSound(index, identifier, go) && WellTyped(index, go, input)
    requires Resolve(index, root, names, stringer).Resolved?
    requires input.Dynamic? ==> !go.isInterface(go.identity(root)) && go.identity(input.typ) != go.identity(root)
    ensures var reader := Reader(index, identifier, root, Resolve(index, root, names, stringer).accessor);
            reader.Some? && Run(reader.value, input, go) == Stopped(Unavailable)
  {
    hide Run, Reader, UniqueFields, ExportedNames, HasType, Resolve;
    ReaderIsCorrect(index, identifier, root, names, stringer, input, go);
  }

  /**
   A field behind a pointer is resolved, and read: its value if the pointer is not nil and telemetry can
   hold it.
   */
  lemma FieldBehindPointerIsRead(index: TypeIndex, identifier: string -> bool, root: TypeName, k: nat, value: Value,
                                 go: Runtime)
    requires IsSound(index, identifier, go) && root in index && index[root].kind == "pointer"
    requires index[root].element in index && index[index[root].element].kind == "struct"
    requires k < |index[index[root].element].fields| && index[index[root].element].fields[k].exported
    requires var field := index[index[root].element].fields[k];
             field.typ in index && index[field.typ].kind in {"bool", "integer", "float", "string"}
    requires WellTyped(index, go, Dynamic(root, value))
    ensures var field := index[index[root].element].fields[k];
            var accessor := Accessor([field.name], field.typ, index[field.typ].kind, false);
            var reader := Reader(index, identifier, root, accessor);
            && Resolve(index, root, [field.name], false) == Resolved(accessor)
            && reader.Some?
            && (value == Nil ==> Run(reader.value, Dynamic(root, value), go) == Stopped(Unavailable))
            && (value.PointerValue? && value.target.StructValue? &&
                k < |value.target.fields| ==>
                  var held := value.target.fields[k].value;
                  Run(reader.value, Dynamic(root, value), go) ==
                  Stopped(if CanBeReported(held) then Available(held) else Unavailable))
  {
    hide Run, RenderFields, ReturnStatements, ExportedNames, Selected, HasFields, HoldsImplementation, HasType;
    var structure := index[root].element;
    var field := index[structure].fields[k];
    PointerIsFollowed(index, root, field.name);
    OwnFieldIsFound(index, structure, k);
    OneSelected(index, root, field);
    ReaderIsCorrect(index, identifier, root, [field.name], false, Dynamic(root, value), go);
    if value.PointerValue? && value.target.StructValue? && k < |value.target.fields| {
      ValueBehindPointer(index, go, root, value, k);
      OneFieldDown(value, field.name);
      TypeFits(index, go, value.target.fields[k].value, field.typ);
    } else if value == Nil {
      NothingBehindNil(field.name);
    }
  }

  lemma ValueBehindPointer(index: TypeIndex, go: Runtime, root: TypeName, value: Value, k: nat)
    requires UniqueFields(index) && root in index && index[root].kind == "pointer" && index[root].element in index
    requires index[index[root].element].kind == "struct" && k < |index[index[root].element].fields|
    requires HasType(index, go, value, root) && value.PointerValue? && value.target.StructValue?
    requires k < |value.target.fields|
    ensures var fields := index[index[root].element].fields;
            && ValueOf(value.target.fields, fields[k].name) == Some(value.target.fields[k].value)
            && HasType(index, go, value.target.fields[k].value, fields[k].typ)
  {
    hide HasType, HasFields;
    var structure := index[root].element;
    TypeFits(index, go, value, root);
    TypeFits(index, go, value.target, structure);
    HeldValue(index, go, value.target.fields, index[structure].fields, k);
  }

  lemma OneSelected(index: TypeIndex, root: TypeName, field: TypeField)
    requires Selected(index, root, field.name) == Found([field])
    ensures SelectAll(index, root, [field.name]) == Found([field])
    ensures FieldNames([field]) == [field.name] && EndType(root, [field]) == field.typ
  {
    hide Selected;
    EmptySelection(index, root);
    assert [field.name][..0] == [];
    assert [] + [field] == [field];
  }

  lemma OneFieldDown(value: Value, name: string)
    requires value.PointerValue? && value.target.StructValue?
    ensures ChainValue(value, [name]) == ValueOf(value.target.fields, name)
  {
    assert [name][..0] == [];
    assert ChainValue(value, []) == Some(value);
  }

  lemma NothingBehindNil(name: string)
    ensures ChainValue(Nil, [name]) == None
  {
    assert [name][..0] == [];
    assert ChainValue(Nil, []) == Some(Nil);
  }

  lemma HeldValue(index: TypeIndex, go: Runtime, values: seq<Field>, fields: seq<TypeField>, k: nat)
    requires k < |fields| && HasFields(index, go, values, fields)
    requires forall i, j :: 0 <= i < j < |fields| ==> fields[i].name != fields[j].name
    ensures |values| == |fields| && ValueOf(values, fields[k].name) == Some(values[k].value)
    ensures HasType(index, go, values[k].value, fields[k].typ)
  {
    hide HasType;
    assert forall i, j :: 0 <= i < j < |values| ==> values[i].name != values[j].name;
    NamedValue(values, k);
  }

  lemma {:induction false} NamedValue(values: seq<Field>, k: nat)
    requires k < |values| && forall i, j :: 0 <= i < j < |values| ==> values[i].name != values[j].name
    ensures ValueOf(values, values[k].name) == Some(values[k].value)
  {
    if k == 0 {
    } else {
      assert values[0].name != values[k].name;
      NamedValue(values[1..], k - 1);
    }
  }
}
