/** Attribute field lookup (internal/validate/attributes.go). */
module FieldLookup {
  // The search goes through embedded fields, one embedding depth at a time, and drops a candidate once
  // its own path visits a type again. The reference is the selector rule without any dropping: the field
  // at the least depth, if unique.

  const REFERENCE_KIND := "pointer"
  const STRUCT_KIND := "struct"

  /** A printed type, the key under which discovery records it. */
  datatype TypeName = TypeName(text: string)

  datatype TypeField = TypeField(name: string, typ: TypeName, exported: bool, embedded: bool)

  datatype TypeInfo = TypeInfo(kind: string, element: TypeName, fields: seq<TypeField>, stringer: bool)

  type TypeIndex = map<TypeName, TypeInfo>

  /** A path of fields, built one field at a time as the search extends its candidates. */
  datatype Path = Here | Then(prefix: Path, field: TypeField)

  datatype Lookup = Found(path: seq<TypeField>) | Ambiguous | Inaccessible

  datatype Shape = Struct(fields: seq<TypeField>) | NoStruct

  /** `fieldStruct`: the struct behind a type or behind one pointer to it. */
  function FieldStruct(index: TypeIndex, typ: TypeName): Shape
  {
    if typ !in index then
      NoStruct
    else
      var name := if index[typ].kind == REFERENCE_KIND then index[typ].element else typ;
      if name in index && index[name].kind == STRUCT_KIND then Struct(index[name].fields) else NoStruct
  }

  function ShapeFields(index: TypeIndex, typ: TypeName): seq<TypeField>
  {
    var shape := FieldStruct(index, typ);
    if shape.NoStruct? then [] else shape.fields
  }

  // ---------------------------------------------------------------------- the selector rule

  /** The type a path of fields leads to. */
  function TypeAt(root: TypeName, path: Path): TypeName
  {
    if path.Here? then root else path.field.typ
  }

  function Depth(path: Path): nat
  {
    if path.Here? then 0 else Depth(path.prefix) + 1
  }

  function Fields(path: Path): seq<TypeField>
  {
    if path.Here? then [] else Fields(path.prefix) + [path.field]
  }

  function Embedded(fields: seq<TypeField>, path: Path): seq<Path>
  {
    if |fields| == 0 then []
    else if fields[0].exported && fields[0].embedded then [Then(path, fields[0])] + Embedded(fields[1..], path)
    else Embedded(fields[1..], path)
  }

  function Named(fields: seq<TypeField>, path: Path, name: string): seq<Path>
  {
    if |fields| == 0 then []
    else if fields[0].exported && fields[0].name == name then [Then(path, fields[0])] + Named(fields[1..], path, name)
    else Named(fields[1..], path, name)
  }

  function Children(index: TypeIndex, root: TypeName, path: Path): seq<Path>
  {
    Embedded(ShapeFields(index, TypeAt(root, path)), path)
  }

  function MatchesOf(index: TypeIndex, root: TypeName, name: string, path: Path): seq<Path>
  {
    Named(ShapeFields(index, TypeAt(root, path)), path, name)
  }

  function ExtendAll(index: TypeIndex, root: TypeName, layer: seq<Path>): seq<Path>
  {
    if |layer| == 0 then [] else Children(index, root, layer[0]) + ExtendAll(index, root, layer[1..])
  }

  function MatchAll(index: TypeIndex, root: TypeName, name: string, layer: seq<Path>): seq<Path>
  {
    if |layer| == 0 then []
    else MatchesOf(index, root, name, layer[0]) + MatchAll(index, root, name, layer[1..])
  }

  /** All paths of `depth` exported embedded fields, cyclic ones included. */
  function Embeddings(index: TypeIndex, root: TypeName, depth: nat): seq<Path>
  {
    if depth == 0 then [Here] else ExtendAll(index, root, Embeddings(index, root, depth - 1))
  }

  /** All field paths that end in an exported field `name` after `depth` embedded fields. */
  function MatchesAt(index: TypeIndex, root: TypeName, name: string, depth: nat): seq<Path>
  {
    MatchAll(index, root, name, Embeddings(index, root, depth))
  }

  ghost predicate IsShallowest(index: TypeIndex, root: TypeName, name: string, depth: nat)
  {
    && MatchesAt(index, root, name, depth) != []
    && forall shallower: nat :: shallower < depth ==> MatchesAt(index, root, name, shallower) == []
  }

  function Decide(matches: seq<Path>): Lookup
  {
    if |matches| == 0 then Inaccessible else if |matches| == 1 then Found(Fields(matches[0])) else Ambiguous
  }

  /** The field selected by `name`: the only one at the least depth at which there is any. */
  ghost function Selected(index: TypeIndex, root: TypeName, name: string): Lookup
  {
    if depth: nat :| IsShallowest(index, root, name, depth) then
      Decide(MatchesAt(index, root, name, depth))
    else
      Inaccessible
  }

  lemma ShallowestIsUnique(index: TypeIndex, root: TypeName, name: string, first: nat, second: nat)
    requires IsShallowest(index, root, name, first) && IsShallowest(index, root, name, second)
    ensures first == second
  {
  }

  // ------------------------------------------------------------------ what the layers contain

  /** `field` may be followed implicitly from a value of type `from`. */
  ghost predicate Embeds(index: TypeIndex, from: TypeName, field: TypeField)
  {
    field.exported && field.embedded && field in ShapeFields(index, from)
  }

  ghost predicate IsEmbedding(index: TypeIndex, root: TypeName, path: Path)
  {
    path.Here? || (IsEmbedding(index, root, path.prefix) && Embeds(index, TypeAt(root, path.prefix), path.field))
  }

  lemma {:induction false} EmbeddedContains(fields: seq<TypeField>, path: Path, q: Path)
    ensures q in Embedded(fields, path) <==>
            q.Then? && q.prefix == path && q.field in fields && q.field.exported && q.field.embedded
  {
    if |fields| == 0 {
    } else {
      EmbeddedContains(fields[1..], path, q);
      assert fields == [fields[0]] + fields[1..];
    }
  }

  lemma {:induction false} NamedContains(fields: seq<TypeField>, path: Path, name: string, q: Path)
    ensures q in Named(fields, path, name) <==>
            q.Then? && q.prefix == path && q.field in fields && q.field.exported && q.field.name == name
  {
    if |fields| == 0 {
    } else {
      NamedContains(fields[1..], path, name, q);
      assert fields == [fields[0]] + fields[1..];
    }
  }

  lemma {:induction false} ExtendAllContains(index: TypeIndex, root: TypeName, layer: seq<Path>, q: Path)
    ensures q in ExtendAll(index, root, layer) <==>
            q.Then? && q.prefix in layer && Embeds(index, TypeAt(root, q.prefix), q.field)
  {
    if |layer| == 0 {
    } else {
      ExtendAllContains(index, root, layer[1..], q);
      EmbeddedContains(ShapeFields(index, TypeAt(root, layer[0])), layer[0], q);
      assert layer == [layer[0]] + layer[1..];
    }
  }

  /** Layer `depth` of the unpruned search holds exactly the embeddings of that length. */
  lemma {:induction false} EmbeddingsContain(index: TypeIndex, root: TypeName, depth: nat, q: Path)
    ensures q in Embeddings(index, root, depth) <==> Depth(q) == depth && IsEmbedding(index, root, q)
    decreases depth
  {
    if depth == 0 {
    } else {
      ExtendAllContains(index, root, Embeddings(index, root, depth - 1), q);
      if q.Then? {
        EmbeddingsContain(index, root, depth - 1, q.prefix);
      }
    }
  }

  lemma {:induction false} MatchAllContains(index: TypeIndex, root: TypeName, name: string, layer: seq<Path>,
                                            q: Path)
    ensures q in MatchAll(index, root, name, layer) <==>
            q.Then? && q.prefix in layer && q.field in ShapeFields(index, TypeAt(root, q.prefix)) &&
            q.field.exported && q.field.name == name
  {
    if |layer| == 0 {
    } else {
      MatchAllContains(index, root, name, layer[1..], q);
      NamedContains(ShapeFields(index, TypeAt(root, layer[0])), layer[0], name, q);
      assert layer == [layer[0]] + layer[1..];
    }
  }

  /** The matches at a depth are exactly the field paths of that depth ending in the wanted name. */
  lemma MatchesAtContain(index: TypeIndex, root: TypeName, name: string, depth: nat, q: Path)
    ensures q in MatchesAt(index, root, name, depth) <==>
            q.Then? && Depth(q.prefix) == depth && IsEmbedding(index, root, q.prefix) &&
            q.field in ShapeFields(index, TypeAt(root, q.prefix)) && q.field.exported && q.field.name == name
  {
    MatchAllContains(index, root, name, Embeddings(index, root, depth), q);
    if q.Then? {
      EmbeddingsContain(index, root, depth, q.prefix);
    }
  }

  // -------------------------------------------------------------------------------- pruning

  /** The types a candidate has expanded before reaching its current one. */
  function Visited(root: TypeName, path: Path): set<TypeName>
  {
    if path.Here? then {} else Visited(root, path.prefix) + {TypeAt(root, path.prefix)}
  }

  /** The candidate's current type was already expanded on its own path. */
  predicate Repeats(root: TypeName, path: Path)
  {
    TypeAt(root, path) in Visited(root, path)
  }

  /** The candidate was not dropped before reaching its current type. */
  predicate Survives(root: TypeName, path: Path)
  {
    path.Here? || (Survives(root, path.prefix) && !Repeats(root, path.prefix))
  }

  function NewChildren(index: TypeIndex, root: TypeName, path: Path): seq<Path>
  {
    if Repeats(root, path) then [] else Children(index, root, path)
  }

  function NewMatches(index: TypeIndex, root: TypeName, name: string, path: Path): seq<Path>
  {
    if Repeats(root, path) then [] else MatchesOf(index, root, name, path)
  }

  function ExtendUnvisited(index: TypeIndex, root: TypeName, layer: seq<Path>): seq<Path>
  {
    if |layer| == 0 then [] else NewChildren(index, root, layer[0]) + ExtendUnvisited(index, root, layer[1..])
  }

  function MatchUnvisited(index: TypeIndex, root: TypeName, name: string, layer: seq<Path>): seq<Path>
  {
    if |layer| == 0 then []
    else NewMatches(index, root, name, layer[0]) + MatchUnvisited(index, root, name, layer[1..])
  }

  function Pruned(index: TypeIndex, root: TypeName, depth: nat): seq<Path>
  {
    if depth == 0 then [Here] else ExtendUnvisited(index, root, Pruned(index, root, depth - 1))
  }

  function Survivors(root: TypeName, layer: seq<Path>): seq<Path>
  {
    if |layer| == 0 then []
    else if Survives(root, layer[0]) then [layer[0]] + Survivors(root, layer[1..])
    else Survivors(root, layer[1..])
  }

  lemma {:induction false} SurvivorsOfConcat(root: TypeName, a: seq<Path>, b: seq<Path>)
    ensures Survivors(root, a + b) == Survivors(root, a) + Survivors(root, b)
  {
    if |a| == 0 {
      assert a + b == b;
    } else {
      SurvivorsOfConcat(root, a[1..], b);
      assert (a + b)[1..] == a[1..] + b;
    }
  }

  lemma {:induction false} SurvivorsOfChildren(root: TypeName, fields: seq<TypeField>, path: Path)
    ensures Survivors(root, Embedded(fields, path)) ==
            if Survives(root, path) && !Repeats(root, path) then Embedded(fields, path) else []
  {
    if |fields| == 0 {
    } else {
      SurvivorsOfChildren(root, fields[1..], path);
    }
  }

  lemma {:induction false} PruneOneLayer(index: TypeIndex, root: TypeName, layer: seq<Path>)
    ensures Survivors(root, ExtendAll(index, root, layer)) ==
            ExtendUnvisited(index, root, Survivors(root, layer))
  {
    if |layer| == 0 {
    } else {
      PruneOneLayer(index, root, layer[1..]);
      SurvivorsOfConcat(root, Children(index, root, layer[0]), ExtendAll(index, root, layer[1..]));
      SurvivorsOfChildren(root, ShapeFields(index, TypeAt(root, layer[0])), layer[0]);
      if Survives(root, layer[0]) {
        assert Survivors(root, layer)[1..] == Survivors(root, layer[1..]);
      }
    }
  }

  /** Pruning removes from each layer exactly the candidates whose path repeats a type. */
  lemma {:induction false} PrunedAreSurvivors(index: TypeIndex, root: TypeName, depth: nat)
    ensures Pruned(index, root, depth) == Survivors(root, Embeddings(index, root, depth))
  {
    if depth == 0 {
    } else {
      PrunedAreSurvivors(index, root, depth - 1);
      PruneOneLayer(index, root, Embeddings(index, root, depth - 1));
    }
  }

  lemma {:induction false} PrefixOfType(index: TypeIndex, root: TypeName, path: Path, typ: TypeName)
    returns (prefix: Path)
    requires IsEmbedding(index, root, path) && typ in Visited(root, path)
    ensures IsEmbedding(index, root, prefix) && Depth(prefix) < Depth(path) && TypeAt(root, prefix) == typ
  {
    prefix := path.prefix;
    if TypeAt(root, prefix) != typ {
      prefix := PrefixOfType(index, root, path.prefix, typ);
    }
  }

  /** A path that meets a type twice can be cut short without changing where it ends. */
  lemma {:induction false} CutCycle(index: TypeIndex, root: TypeName, path: Path) returns (shorter: Path)
    requires IsEmbedding(index, root, path) && (!Survives(root, path) || Repeats(root, path))
    ensures IsEmbedding(index, root, shorter) && Depth(shorter) < Depth(path)
    ensures TypeAt(root, shorter) == TypeAt(root, path)
  {
    if Repeats(root, path) {
      shorter := PrefixOfType(index, root, path, TypeAt(root, path));
    } else {
      shorter := CutCycle(index, root, path.prefix);
      shorter := Then(shorter, path.field);
    }
  }

  /** A candidate that pruning drops could only contribute matches that already occur less deeply. */
  lemma DroppedIsDeeper(index: TypeIndex, root: TypeName, name: string, depth: nat, path: Path)
    requires path in Embeddings(index, root, depth)
    requires !Survives(root, path) || Repeats(root, path)
    requires MatchesOf(index, root, name, path) != []
    ensures exists shallower: nat :: shallower < depth && MatchesAt(index, root, name, shallower) != []
  {
    EmbeddingsContain(index, root, depth, path);
    var shorter := CutCycle(index, root, path);
    var found := MatchesOf(index, root, name, path)[0];
    assert found in MatchesOf(index, root, name, path);
    NamedContains(ShapeFields(index, TypeAt(root, path)), path, name, found);
    MatchesAtContain(index, root, name, Depth(shorter), Then(shorter, found.field));
  }

  lemma {:induction false} MatchesOfSurvivors(index: TypeIndex, root: TypeName, name: string, layer: seq<Path>)
    requires forall p :: p in layer && (!Survives(root, p) || Repeats(root, p)) ==>
               MatchesOf(index, root, name, p) == []
    ensures MatchUnvisited(index, root, name, Survivors(root, layer)) == MatchAll(index, root, name, layer)
  {
    if |layer| == 0 {
    } else {
      assert layer == [layer[0]] + layer[1..];
      assert layer[0] in layer;
      MatchesOfSurvivors(index, root, name, layer[1..]);
      if Survives(root, layer[0]) {
        assert Survivors(root, layer)[1..] == Survivors(root, layer[1..]);
      }
    }
  }

  /** Until a match is found, pruning changes neither whether nor how often the name occurs. */
  lemma PruningKeepsMatches(index: TypeIndex, root: TypeName, name: string, depth: nat)
    requires forall shallower: nat :: shallower < depth ==> MatchesAt(index, root, name, shallower) == []
    ensures MatchUnvisited(index, root, name, Pruned(index, root, depth)) == MatchesAt(index, root, name, depth)
  {
    PrunedAreSurvivors(index, root, depth);
    var layer := Embeddings(index, root, depth);
    forall p | p in layer && (!Survives(root, p) || Repeats(root, p))
      ensures MatchesOf(index, root, name, p) == []
    {
      if MatchesOf(index, root, name, p) != [] {
        DroppedIsDeeper(index, root, name, depth, p);
      }
    }
    MatchesOfSurvivors(index, root, name, layer);
  }

  lemma {:induction false} EmptyStaysEmpty(index: TypeIndex, root: TypeName, depth: nat, deeper: nat)
    requires Pruned(index, root, depth) == [] && depth <= deeper
    ensures Pruned(index, root, deeper) == []
    decreases deeper
  {
    if depth < deeper {
      EmptyStaysEmpty(index, root, depth, deeper - 1);
    }
  }

  // ----------------------------------------------------------------------------- termination

  lemma {:induction false} SurvivorsContain(root: TypeName, layer: seq<Path>, p: Path)
    requires p in Survivors(root, layer)
    ensures p in layer && Survives(root, p)
  {
    if !(Survives(root, layer[0]) && p == layer[0]) {
      SurvivorsContain(root, layer[1..], p);
    }
  }

  /** A surviving candidate has expanded as many different known types as it is deep. */
  lemma {:induction false} SurvivorVisits(index: TypeIndex, root: TypeName, path: Path)
    requires IsEmbedding(index, root, path) && Survives(root, path)
    ensures Visited(root, path) <= index.Keys && |Visited(root, path)| == Depth(path)
  {
    if path.Then? {
      SurvivorVisits(index, root, path.prefix);
    }
  }

  lemma {:induction false} SubsetIsSmaller(a: set<TypeName>, b: set<TypeName>)
    requires a <= b
    ensures |a| <= |b|
  {
    if x :| x in a {
      SubsetIsSmaller(a - {x}, b - {x});
    }
  }

  /** A candidate can only be as deep as there are types to expand on the way. */
  lemma PrunedIsShallow(index: TypeIndex, root: TypeName, depth: nat)
    requires Pruned(index, root, depth) != []
    ensures depth <= |index|
  {
    PrunedAreSurvivors(index, root, depth);
    var p := Pruned(index, root, depth)[0];
    assert p in Pruned(index, root, depth);
    SurvivorsContain(root, Embeddings(index, root, depth), p);
    EmbeddingsContain(index, root, depth, p);
    SurvivorVisits(index, root, p);
    SubsetIsSmaller(Visited(root, p), index.Keys);
  }

  // --------------------------------------------------------------------------------- the code

  datatype FieldCandidate = FieldCandidate(typ: TypeName, path: Path, visited: set<TypeName>)

  ghost predicate IsCandidate(root: TypeName, candidate: FieldCandidate)
  {
    && candidate.typ == TypeAt(root, candidate.path)
    && candidate.visited == Visited(root, candidate.path)
  }

  ghost function Paths(layer: seq<FieldCandidate>): seq<Path>
  {
    seq(|layer|, k requires 0 <= k < |layer| => layer[k].path)
  }

  method ExpandFieldCandidate(index: TypeIndex, ghost root: TypeName, entry: FieldCandidate, name: string)
    returns (next: seq<FieldCandidate>, matches: seq<Path>)
    requires IsCandidate(root, entry)
    ensures forall c :: c in next ==> IsCandidate(root, c)
    ensures Paths(next) == NewChildren(index, root, entry.path)
    ensures matches == NewMatches(index, root, name, entry.path)
  {
    next, matches := [], [];
    if entry.typ in entry.visited {
      return;
    }
    var visited := entry.visited + {entry.typ};
    var shape := FieldStruct(index, entry.typ);
    if shape.NoStruct? {
      return;
    }
    for k := 0 to |shape.fields|
      invariant forall c :: c in next ==> IsCandidate(root, c)
      invariant Paths(next) + Embedded(shape.fields[k..], entry.path) == Embedded(shape.fields, entry.path)
      invariant matches + Named(shape.fields[k..], entry.path, name) == Named(shape.fields, entry.path, name)
    {
      var field := shape.fields[k];
      assert shape.fields[k..] == [field] + shape.fields[k + 1..];
      if !field.exported {
        continue;
      }
      var path := Then(entry.path, field);
      if field.name == name {
        matches := matches + [path];
      }
      if field.embedded {
        ghost var before := next;
        next := next + [FieldCandidate(field.typ, path, visited)];
        assert Paths(next) == Paths(before) + [path];
      }
    }
    assert shape.fields[|shape.fields|..] == [];
  }

  lemma {:induction false} ExtendPrefix(index: TypeIndex, root: TypeName, layer: seq<Path>, p: Path)
    ensures ExtendUnvisited(index, root, layer + [p]) ==
            ExtendUnvisited(index, root, layer) + NewChildren(index, root, p)
  {
    if |layer| == 0 {
      assert layer + [p] == [p];
    } else {
      ExtendPrefix(index, root, layer[1..], p);
      assert (layer + [p])[1..] == layer[1..] + [p];
      Associative(NewChildren(index, root, layer[0]), ExtendUnvisited(index, root, layer[1..]),
                  NewChildren(index, root, p));
    }
  }

  lemma {:induction false} MatchPrefix(index: TypeIndex, root: TypeName, name: string, layer: seq<Path>, p: Path)
    ensures MatchUnvisited(index, root, name, layer + [p]) ==
            MatchUnvisited(index, root, name, layer) + NewMatches(index, root, name, p)
  {
    if |layer| == 0 {
      assert layer + [p] == [p];
    } else {
      MatchPrefix(index, root, name, layer[1..], p);
      assert (layer + [p])[1..] == layer[1..] + [p];
      Associative(NewMatches(index, root, name, layer[0]), MatchUnvisited(index, root, name, layer[1..]),
                  NewMatches(index, root, name, p));
    }
  }

  lemma Associative<T>(a: seq<T>, b: seq<T>, c: seq<T>)
    ensures (a + b) + c == a + (b + c)
  {
  }

  /** One round of the layer loop. */
  method ExpandLayer(index: TypeIndex, ghost root: TypeName, layer: seq<FieldCandidate>, name: string)
    returns (next: seq<FieldCandidate>, matches: seq<Path>)
    requires forall c :: c in layer ==> IsCandidate(root, c)
    ensures forall c :: c in next ==> IsCandidate(root, c)
    ensures Paths(next) == ExtendUnvisited(index, root, Paths(layer))
    ensures matches == MatchUnvisited(index, root, name, Paths(layer))
  {
    next, matches := [], [];
    for k := 0 to |layer|
      invariant forall c :: c in next ==> IsCandidate(root, c)
      invariant Paths(next) == ExtendUnvisited(index, root, Paths(layer[..k]))
      invariant matches == MatchUnvisited(index, root, name, Paths(layer[..k]))
    {
      var entry := layer[k];
      assert entry in layer;
      ExtendPrefix(index, root, Paths(layer[..k]), entry.path);
      MatchPrefix(index, root, name, Paths(layer[..k]), entry.path);
      assert Paths(layer[..k + 1]) == Paths(layer[..k]) + [entry.path];
      var children, found := ExpandFieldCandidate(index, root, entry, name);
      assert Paths(next + children) == Paths(next) + Paths(children);
      next := next + children;
      matches := matches + found;
    }
    assert layer[..|layer|] == layer;
  }

  ghost predicate NoneAbove(index: TypeIndex, root: TypeName, name: string, depth: nat)
  {
    forall shallower: nat :: shallower < depth ==> MatchesAt(index, root, name, shallower) == []
  }

  /** The matches of one round settle the lookup, or rule out one more depth. */
  lemma RoundDecides(index: TypeIndex, root: TypeName, name: string, depth: nat, matches: seq<Path>)
    requires NoneAbove(index, root, name, depth)
    requires matches == MatchUnvisited(index, root, name, Pruned(index, root, depth))
    ensures |matches| == 0 ==> NoneAbove(index, root, name, depth + 1)
    ensures |matches| > 0 ==> Selected(index, root, name) == Decide(matches)
  {
    PruningKeepsMatches(index, root, name, depth);
    if |matches| > 0 {
      assert IsShallowest(index, root, name, depth);
      forall other: nat | IsShallowest(index, root, name, other)
        ensures other == depth
      {
        ShallowestIsUnique(index, root, name, other, depth);
      }
    }
  }

  lemma NothingSelected(index: TypeIndex, root: TypeName, name: string, depth: nat)
    requires Pruned(index, root, depth) == [] && NoneAbove(index, root, name, depth)
    ensures Selected(index, root, name) == Inaccessible
  {
    if other: nat :| IsShallowest(index, root, name, other) {
      EmptyStaysEmpty(index, root, depth, other);
      PruningKeepsMatches(index, root, name, other);
    }
  }

  /** The pruned search always ends, and ends with the answer of the unpruned selector rule. */
  method LookupField(index: TypeIndex, root: TypeName, name: string) returns (result: Lookup)
    ensures result == Selected(index, root, name)
  {
    var layer := [FieldCandidate(root, Here, {})];
    ghost var depth: nat := 0;
    assert Paths(layer) == [Here];
    while |layer| > 0
      invariant forall c :: c in layer ==> IsCandidate(root, c)
      invariant Paths(layer) == Pruned(index, root, depth)
      invariant NoneAbove(index, root, name, depth)
      decreases |index| + 1 - depth
    {
      PrunedIsShallow(index, root, depth);
      var next, matches := ExpandLayer(index, root, layer, name);
      RoundDecides(index, root, name, depth, matches);
      if |matches| == 1 {
        return Found(Fields(matches[0]));
      }
      if |matches| > 1 {
        return Ambiguous;
      }
      layer := next;
      depth := depth + 1;
    }
    NothingSelected(index, root, name, depth);
    return Inaccessible;
  }
}
