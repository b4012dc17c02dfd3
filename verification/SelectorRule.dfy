module SelectorRule {
  // What field selection means for the recorded types themselves (internal/validate/attributes.go).

  import opened FieldLookup

  // ------------------------------------------------------------------------ the specification

  /** A struct has its own fields, a pointer those of the struct it points to, and nothing else has any. */
  ghost predicate HasField(index: TypeIndex, typ: TypeName, field: TypeField)
  {
    && typ in index
    && (|| (index[typ].kind == "struct" && field in index[typ].fields)
        || (index[typ].kind == "pointer" && index[typ].element in index &&
            index[index[typ].element].kind == "struct" && field in index[index[typ].element].fields))
  }

  /** The exported field at `i` belongs to the type the fields before it lead to. */
  ghost predicate IsLink(index: TypeIndex, root: TypeName, path: seq<TypeField>, i: nat)
  {
    i < |path| && path[i].exported && HasField(index, if i == 0 then root else path[i - 1].typ, path[i])
  }

  ghost predicate IsEmbeddedChain(index: TypeIndex, root: TypeName, path: seq<TypeField>)
  {
    forall i :: 0 <= i < |path| ==> IsLink(index, root, path, i) && path[i].embedded
  }

  /** A way to a field of that name through any number of embedded fields. */
  ghost predicate IsChain(index: TypeIndex, root: TypeName, name: string, path: seq<TypeField>)
  {
    && |path| > 0 && path[|path| - 1].name == name && IsLink(index, root, path, |path| - 1)
    && forall i :: 0 <= i < |path| - 1 ==> IsLink(index, root, path, i) && path[i].embedded
  }

  /** No struct lists a field twice. */
  ghost predicate DistinctFields(index: TypeIndex)
  {
    forall typ, i, j :: typ in index && 0 <= i < j < |index[typ].fields| ==>
      index[typ].fields[i] != index[typ].fields[j]
  }

  // ------------------------------------------------------------------------ paths and chains

  lemma FieldsOfShape(index: TypeIndex, typ: TypeName, field: TypeField)
    ensures field in ShapeFields(index, typ) <==> HasField(index, typ, field)
  {
  }

  function PathOf(fields: seq<TypeField>): Path
  {
    if |fields| == 0 then Here else Then(PathOf(fields[..|fields| - 1]), fields[|fields| - 1])
  }

  lemma {:induction false} FieldsOfPath(fields: seq<TypeField>)
    ensures Fields(PathOf(fields)) == fields
  {
    if |fields| == 0 {
    } else {
      FieldsOfPath(fields[..|fields| - 1]);
    }
  }

  lemma {:induction false} PathOfFields(path: Path)
    ensures PathOf(Fields(path)) == path && |Fields(path)| == Depth(path)
  {
    if path.Then? {
      PathOfFields(path.prefix);
      assert Fields(path)[..|Fields(path)| - 1] == Fields(path.prefix);
    }
  }

  lemma LastType(root: TypeName, path: Path)
    ensures TypeAt(root, path) ==
            if |Fields(path)| == 0 then root else Fields(path)[|Fields(path)| - 1].typ
  {
  }

  lemma LinksOfPrefix(index: TypeIndex, root: TypeName, front: seq<TypeField>, last: TypeField, i: nat)
    requires i < |front|
    ensures IsLink(index, root, front + [last], i) <==> IsLink(index, root, front, i)
  {
    hide HasField;
  }

  lemma {:induction false} EmbeddingIsChain(index: TypeIndex, root: TypeName, path: Path)
    ensures IsEmbedding(index, root, path) <==> IsEmbeddedChain(index, root, Fields(path))
  {
    hide HasField;
    if path.Then? {
      var front := Fields(path.prefix);
      EmbeddingIsChain(index, root, path.prefix);
      LastType(root, path.prefix);
      FieldsOfShape(index, TypeAt(root, path.prefix), path.field);
      forall i: nat | i < |front|
        ensures IsLink(index, root, Fields(path), i) <==> IsLink(index, root, front, i)
        ensures Fields(path)[i] == front[i]
      {
        LinksOfPrefix(index, root, front, path.field, i);
      }
      assert IsLink(index, root, Fields(path), |front|) <==>
             path.field.exported && HasField(index, TypeAt(root, path.prefix), path.field);
    }
  }

  lemma MatchIsChain(index: TypeIndex, root: TypeName, name: string, depth: nat, path: Path)
    ensures path in MatchesAt(index, root, name, depth) <==>
            |Fields(path)| == depth + 1 && IsChain(index, root, name, Fields(path))
  {
    hide HasField, MatchesAt;
    MatchesAtContain(index, root, name, depth, path);
    if path.Then? {
      var front := Fields(path.prefix);
      PathOfFields(path.prefix);
      EmbeddingIsChain(index, root, path.prefix);
      LastType(root, path.prefix);
      FieldsOfShape(index, TypeAt(root, path.prefix), path.field);
      forall i: nat | i < |front|
        ensures IsLink(index, root, Fields(path), i) <==> IsLink(index, root, front, i)
        ensures Fields(path)[i] == front[i]
      {
        LinksOfPrefix(index, root, front, path.field, i);
      }
      assert IsLink(index, root, Fields(path), |front|) <==>
             path.field.exported && HasField(index, TypeAt(root, path.prefix), path.field);
    }
  }

  // -------------------------------------------------------------------- no path is met twice

  ghost predicate NoRepetition(paths: seq<Path>)
  {
    forall i, j :: 0 <= i < j < |paths| ==> paths[i] != paths[j]
  }

  lemma {:induction false} EmbeddedOnce(fields: seq<TypeField>, path: Path)
    requires forall i, j :: 0 <= i < j < |fields| ==> fields[i] != fields[j]
    ensures NoRepetition(Embedded(fields, path))
  {
    if |fields| == 0 {
    } else {
      EmbeddedOnce(fields[1..], path);
      forall q | q in Embedded(fields[1..], path)
        ensures q != Then(path, fields[0])
      {
        EmbeddedContains(fields[1..], path, q);
      }
      Appended([Then(path, fields[0])], Embedded(fields[1..], path));
    }
  }

  lemma {:induction false} NamedOnce(fields: seq<TypeField>, path: Path, name: string)
    requires forall i, j :: 0 <= i < j < |fields| ==> fields[i] != fields[j]
    ensures NoRepetition(Named(fields, path, name))
  {
    if |fields| == 0 {
    } else {
      NamedOnce(fields[1..], path, name);
      forall q | q in Named(fields[1..], path, name)
        ensures q != Then(path, fields[0])
      {
        NamedContains(fields[1..], path, name, q);
      }
      Appended([Then(path, fields[0])], Named(fields[1..], path, name));
    }
  }

  lemma ShapeFieldsDiffer(index: TypeIndex, typ: TypeName)
    requires DistinctFields(index)
    ensures var fields := ShapeFields(index, typ);
            forall i, j :: 0 <= i < j < |fields| ==> fields[i] != fields[j]
  {
  }

  lemma Appended(first: seq<Path>, second: seq<Path>)
    requires NoRepetition(first) && NoRepetition(second) && forall q :: q in first ==> q !in second
    ensures NoRepetition(first + second)
  {
    forall i, j | 0 <= i < j < |first + second|
      ensures (first + second)[i] != (first + second)[j]
    {
      if i < |first| <= j {
        assert first[i] in first && second[j - |first|] in second;
      }
    }
  }

  lemma {:induction false} ExtendedOnce(index: TypeIndex, root: TypeName, layer: seq<Path>)
    requires DistinctFields(index) && NoRepetition(layer)
    ensures NoRepetition(ExtendAll(index, root, layer))
  {
    hide DistinctFields, ShapeFields;
    if |layer| == 0 {
    } else {
      var fields := ShapeFields(index, TypeAt(root, layer[0]));
      ExtendedOnce(index, root, layer[1..]);
      ShapeFieldsDiffer(index, TypeAt(root, layer[0]));
      EmbeddedOnce(fields, layer[0]);
      forall q | q in Embedded(fields, layer[0])
        ensures q !in ExtendAll(index, root, layer[1..])
      {
        EmbeddedContains(fields, layer[0], q);
        ExtendAllContains(index, root, layer[1..], q);
      }
      Appended(Children(index, root, layer[0]), ExtendAll(index, root, layer[1..]));
    }
  }

  lemma {:induction false} MatchedOnce(index: TypeIndex, root: TypeName, name: string, layer: seq<Path>)
    requires DistinctFields(index) && NoRepetition(layer)
    ensures NoRepetition(MatchAll(index, root, name, layer))
  {
    hide DistinctFields, ShapeFields;
    if |layer| == 0 {
    } else {
      var fields := ShapeFields(index, TypeAt(root, layer[0]));
      MatchedOnce(index, root, name, layer[1..]);
      ShapeFieldsDiffer(index, TypeAt(root, layer[0]));
      NamedOnce(fields, layer[0], name);
      forall q | q in Named(fields, layer[0], name)
        ensures q !in MatchAll(index, root, name, layer[1..])
      {
        NamedContains(fields, layer[0], name, q);
        MatchAllContains(index, root, name, layer[1..], q);
      }
      Appended(MatchesOf(index, root, name, layer[0]), MatchAll(index, root, name, layer[1..]));
    }
  }

  lemma {:induction false} EmbeddingsOnce(index: TypeIndex, root: TypeName, depth: nat)
    requires DistinctFields(index)
    ensures NoRepetition(Embeddings(index, root, depth))
  {
    if depth == 0 {
    } else {
      EmbeddingsOnce(index, root, depth - 1);
      ExtendedOnce(index, root, Embeddings(index, root, depth - 1));
    }
  }

  // ------------------------------------------------------------------------------ main results

  lemma {:induction false} LeastDepth(index: TypeIndex, root: TypeName, name: string, depth: nat) returns (least: nat)
    requires MatchesAt(index, root, name, depth) != []
    ensures IsShallowest(index, root, name, least)
  {
    if shallower: nat :| shallower < depth && MatchesAt(index, root, name, shallower) != [] {
      least := LeastDepth(index, root, name, shallower);
    } else {
      least := depth;
    }
  }

  lemma ChainIsMatch(index: TypeIndex, root: TypeName, name: string, path: seq<TypeField>)
    requires IsChain(index, root, name, path)
    ensures |path| > 0
    ensures PathOf(path) in MatchesAt(index, root, name, |path| - 1)
  {
    FieldsOfPath(path);
    MatchIsChain(index, root, name, |path| - 1, PathOf(path));
  }

  /** Every chain is at least as long as those of the shallowest depth. */
  lemma ChainsAreDeeper(index: TypeIndex, root: TypeName, name: string, depth: nat, path: seq<TypeField>)
    requires IsShallowest(index, root, name, depth) && IsChain(index, root, name, path)
    ensures |path| > depth
    ensures |path| == depth + 1 ==> PathOf(path) in MatchesAt(index, root, name, depth)
  {
    hide IsChain, MatchesAt;
    ChainIsMatch(index, root, name, path);
  }

  /** What the selector rule demands of a lookup. */
  ghost predicate SelectedBy(index: TypeIndex, root: TypeName, name: string, lookup: Lookup)
  {
    match lookup
    case Found(path) =>
      && IsChain(index, root, name, path)
      && forall other :: IsChain(index, root, name, other) && other != path ==> |other| > |path|
    case Ambiguous =>
      exists first, second ::
        && IsShortest(index, root, name, first) && IsShortest(index, root, name, second) && first != second
    case Inaccessible =>
      forall path :: !IsChain(index, root, name, path)
  }

  /**
   The selector rule: what is found is the one shortest chain of exported fields; several shortest
   chains are ambiguous, and without any chain the field is inaccessible.
   */
  lemma SelectionRule(index: TypeIndex, root: TypeName, name: string, lookup: Lookup)
    requires DistinctFields(index)
    ensures lookup == Selected(index, root, name) <==> SelectedBy(index, root, name, lookup)
  {
    hide MatchesAt, DistinctFields, Decide, SelectedBy;
    var selected := Selected(index, root, name);
    assert SelectedBy(index, root, name, selected) by {
      if depth: nat :| MatchesAt(index, root, name, depth) != [] {
        var least := LeastDepth(index, root, name, depth);
        ShallowestSelected(index, root, name, least);
        ShallowestRule(index, root, name, least);
      } else {
        NoMatchNoChain(index, root, name);
      }
    }
    if SelectedBy(index, root, name, lookup) {
      OneAnswer(index, root, name, selected, lookup);
    }
  }

  lemma NoMatchNoChain(index: TypeIndex, root: TypeName, name: string)
    requires forall depth: nat :: MatchesAt(index, root, name, depth) == []
    ensures Selected(index, root, name) == Inaccessible && SelectedBy(index, root, name, Inaccessible)
  {
    hide MatchesAt, IsChain;
    forall path
      ensures !IsChain(index, root, name, path)
    {
      if IsChain(index, root, name, path) {
        ChainIsMatch(index, root, name, path);
        assert false;
      }
    }
  }

  lemma OneAnswer(index: TypeIndex, root: TypeName, name: string, a: Lookup, b: Lookup)
    requires SelectedBy(index, root, name, a) && SelectedBy(index, root, name, b)
    ensures a == b
  {
    hide IsChain;
  }

  lemma ShallowestSelected(index: TypeIndex, root: TypeName, name: string, least: nat)
    requires IsShallowest(index, root, name, least)
    ensures Selected(index, root, name) == Decide(MatchesAt(index, root, name, least))
  {
    hide MatchesAt, Decide, IsShallowest;
    var depth: nat :| IsShallowest(index, root, name, depth) &&
                      Selected(index, root, name) == Decide(MatchesAt(index, root, name, depth));
    ShallowestIsUnique(index, root, name, depth, least);
  }

  /** No chain is shorter than the path, and another of its length is another match. */
  ghost predicate IsShortest(index: TypeIndex, root: TypeName, name: string, path: seq<TypeField>)
  {
    IsChain(index, root, name, path) && forall other :: IsChain(index, root, name, other) ==> |other| >= |path|
  }

  lemma MatchIsShortest(index: TypeIndex, root: TypeName, name: string, least: nat, path: Path)
    requires IsShallowest(index, root, name, least) && path in MatchesAt(index, root, name, least)
    ensures IsShortest(index, root, name, Fields(path)) && |Fields(path)| == least + 1
  {
    hide IsChain, IsShallowest, MatchesAt;
    MatchIsChain(index, root, name, least, path);
    forall other | IsChain(index, root, name, other)
      ensures |other| >= least + 1
    {
      ChainsAreDeeper(index, root, name, least, other);
    }
  }

  lemma OnlyMatch(index: TypeIndex, root: TypeName, name: string, least: nat, path: seq<TypeField>)
    requires IsShallowest(index, root, name, least) && IsShortest(index, root, name, path)
    requires |path| == least + 1 && MatchesAt(index, root, name, least) == [PathOf(path)]
    ensures forall other :: IsChain(index, root, name, other) && other != path ==> |other| > |path|
  {
    hide IsChain, IsShallowest, MatchesAt;
    forall other | IsChain(index, root, name, other) && other != path
      ensures |other| > |path|
    {
      ChainsAreDeeper(index, root, name, least, other);
      FieldsOfPath(other);
      FieldsOfPath(path);
    }
  }

  lemma MatchesDiffer(index: TypeIndex, root: TypeName, name: string, depth: nat)
    requires DistinctFields(index)
    ensures NoRepetition(MatchesAt(index, root, name, depth))
  {
    hide DistinctFields;
    EmbeddingsOnce(index, root, depth);
    MatchedOnce(index, root, name, Embeddings(index, root, depth));
  }

  lemma ShallowestRule(index: TypeIndex, root: TypeName, name: string, least: nat)
    requires DistinctFields(index) && IsShallowest(index, root, name, least)
    ensures SelectedBy(index, root, name, Decide(MatchesAt(index, root, name, least)))
  {
    hide IsChain, DistinctFields, IsShallowest, MatchesAt;
    var matches := MatchesAt(index, root, name, least);
    assert matches != [] by {
      NotEmpty(index, root, name, least);
    }
    assert matches[0] in matches;
    MatchIsShortest(index, root, name, least, matches[0]);
    PathOfFields(matches[0]);
    if |matches| == 1 {
      OnlyMatch(index, root, name, least, Fields(matches[0]));
    } else {
      assert matches[1] in matches;
      MatchIsShortest(index, root, name, least, matches[1]);
      PathOfFields(matches[1]);
      MatchesDiffer(index, root, name, least);
      assert Fields(matches[0]) != Fields(matches[1]);
    }
  }

  lemma NotEmpty(index: TypeIndex, root: TypeName, name: string, least: nat)
    requires IsShallowest(index, root, name, least)
    ensures MatchesAt(index, root, name, least) != []
  {
  }

  /** Only the fields behind a type matter to what is selected from it. */
  lemma SameFieldsSameSelection(index: TypeIndex, first: TypeName, second: TypeName, name: string)
    requires ShapeFields(index, first) == ShapeFields(index, second)
    ensures Selected(index, first, name) == Selected(index, second, name)
  {
    forall depth: nat
      ensures MatchesAt(index, first, name, depth) == MatchesAt(index, second, name, depth)
    {
      SameEmbeddings(index, first, second, depth);
      SameMatches(index, first, second, name, Embeddings(index, first, depth));
    }
    hide MatchesAt, Decide;
    assert forall depth: nat :: IsShallowest(index, first, name, depth) <==> IsShallowest(index, second, name, depth);
    if depth: nat :| IsShallowest(index, first, name, depth) {
      ShallowestSelected(index, first, name, depth);
      ShallowestSelected(index, second, name, depth);
    }
  }

  lemma {:induction false} SameEmbeddings(index: TypeIndex, first: TypeName, second: TypeName, depth: nat)
    requires ShapeFields(index, first) == ShapeFields(index, second)
    ensures Embeddings(index, first, depth) == Embeddings(index, second, depth)
  {
    hide ShapeFields;
    if depth == 0 {
    } else {
      SameEmbeddings(index, first, second, depth - 1);
      SameExtension(index, first, second, Embeddings(index, first, depth - 1));
    }
  }

  lemma {:induction false} SameExtension(index: TypeIndex, first: TypeName, second: TypeName, layer: seq<Path>)
    requires ShapeFields(index, first) == ShapeFields(index, second)
    ensures ExtendAll(index, first, layer) == ExtendAll(index, second, layer)
  {
    hide ShapeFields;
    if |layer| == 0 {
    } else {
      SameExtension(index, first, second, layer[1..]);
    }
  }

  lemma {:induction false} SameMatches(index: TypeIndex, first: TypeName, second: TypeName, name: string,
                                       layer: seq<Path>)
    requires ShapeFields(index, first) == ShapeFields(index, second)
    ensures MatchAll(index, first, name, layer) == MatchAll(index, second, name, layer)
  {
    hide ShapeFields;
    if |layer| == 0 {
    } else {
      SameMatches(index, first, second, name, layer[1..]);
    }
  }

  /** A pointer to a recorded struct is searched like the struct. */
  lemma PointerIsFollowed(index: TypeIndex, typ: TypeName, name: string)
    requires typ in index && index[typ].kind == "pointer"
    requires index[typ].element in index && index[index[typ].element].kind == "struct"
    ensures Selected(index, typ, name) == Selected(index, index[typ].element, name)
  {
    SameFieldsSameSelection(index, typ, index[typ].element, name);
  }

  /** Whatever is no struct and no pointer to one, a pointer to a pointer included, has no fields. */
  lemma OthersHaveNoFields(index: TypeIndex, typ: TypeName, name: string)
    requires typ in index ==>
               && index[typ].kind != "struct"
               && (index[typ].kind == "pointer" && index[typ].element in index ==>
                     index[index[typ].element].kind != "struct")
    ensures Selected(index, typ, name) == Inaccessible
  {
    forall depth: nat
      ensures MatchesAt(index, typ, name, depth) == []
    {
      NoneReached(index, typ, name, depth);
    }
    hide MatchesAt;
  }

  lemma {:induction false} NoneReached(index: TypeIndex, typ: TypeName, name: string, depth: nat)
    requires forall field :: !HasField(index, typ, field)
    ensures MatchesAt(index, typ, name, depth) == []
  {
    var matches := MatchesAt(index, typ, name, depth);
    if |matches| == 0 {
    } else {
      assert matches[0] in matches;
      MatchIsChain(index, typ, name, depth, matches[0]);
      NoFirstLink(index, typ, Fields(matches[0]));
      assert false;
    }
  }

  lemma NoFirstLink(index: TypeIndex, typ: TypeName, path: seq<TypeField>)
    requires forall field :: !HasField(index, typ, field)
    ensures !IsLink(index, typ, path, 0)
  {
  }

  /** A struct's own field, if it is the only exported one of its name, is what is selected. */
  lemma OwnFieldIsFound(index: TypeIndex, typ: TypeName, k: nat)
    requires typ in index && index[typ].kind == "struct" && k < |index[typ].fields| && index[typ].fields[k].exported
    requires forall i :: 0 <= i < |index[typ].fields| && i != k && index[typ].fields[i].exported ==>
               index[typ].fields[i].name != index[typ].fields[k].name
    ensures Selected(index, typ, index[typ].fields[k].name) == Found([index[typ].fields[k]])
  {
    var fields := index[typ].fields;
    var name := fields[k].name;
    OnlyNamed(fields, k, Here);
    assert MatchAll(index, typ, name, []) == [];
    assert [Here][1..] == [];
    assert Embeddings(index, typ, 0) == [Here];
    assert MatchesAt(index, typ, name, 0) == [Then(Here, fields[k])];
    ShallowestSelected(index, typ, name, 0);
    assert Fields(Then(Here, fields[k])) == [fields[k]];
  }

  lemma {:induction false} OnlyNamed(fields: seq<TypeField>, k: nat, path: Path)
    requires k < |fields| && fields[k].exported
    requires forall i :: 0 <= i < |fields| && i != k && fields[i].exported ==> fields[i].name != fields[k].name
    ensures Named(fields, path, fields[k].name) == [Then(path, fields[k])]
  {
    if k == 0 {
      NoneNamed(fields[1..], path, fields[0].name);
    } else {
      OnlyNamed(fields[1..], k - 1, path);
    }
  }

  lemma {:induction false} NoneNamed(fields: seq<TypeField>, path: Path, name: string)
    requires forall i :: 0 <= i < |fields| && fields[i].exported ==> fields[i].name != name
    ensures Named(fields, path, name) == []
  {
    if |fields| == 0 {
    } else {
      NoneNamed(fields[1..], path, name);
    }
  }
}
