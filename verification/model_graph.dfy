/**
 * `ModelGraph`: the Java classes to generate, one `ModelClass` per `SchemaObject`
 * instance, keyed by qualified name.
 *
 * `From` walks the schema tree from the root object. `BuildClassForNode` builds the
 * class of one object node after the classes nested below its fields, and records
 * it in the identity-keyed `created` map; `CreateNestedClassesIfNeeded` looks for
 * object nodes below a field schema, through array element types and union variants.
 * The recursion is sound only on an acyclic node graph, which the ghost ranking
 * `rank` witnesses and which also bounds the recursion.
 */
module ModelGraph {
  import opened Outcomes
  import opened LinkedCollections
  import opened Schema
  import opened TypeInferencer
  import NameConverter

  /** `ModelGraph.Field`. */
  datatype Field = Field(jsonName: string, fieldName: string, typeName: string, nullable: bool)

  /** `ModelGraph.ModelClass`: immutable, with its fields in declaration order. */
  datatype ModelClass = ModelClass(packageName: string, simpleName: string, fields: seq<Field>, root: bool)
  {
    /** `getQualifiedName`: the simple name, prefixed by the package and a dot when there is a package. */
    function QualifiedName(): string
    {
      if packageName == [] then simpleName else packageName + "." + simpleName
    }
  }

  /**
   * The shape of a qualified name: the simple name alone without a package, else the
   * package, a dot and the simple name.
   */
  lemma QualifiedNameShape(c: ModelClass)
    ensures var q := c.QualifiedName();
      && |c.simpleName| <= |q| && q[|q| - |c.simpleName|..] == c.simpleName
      && (c.packageName == [] ==> q == c.simpleName)
      && (c.packageName != [] ==>
        && |q| == |c.packageName| + 1 + |c.simpleName|
        && q[..|c.packageName|] == c.packageName
        && q[|c.packageName|] == '.')
  {
    var q := c.QualifiedName();
    if c.packageName != [] {
      assert q == c.packageName + ("." + c.simpleName);
    }
  }

  /** Within one package, two classes share a qualified name exactly when they share a simple name. */
  lemma SamePackageNames(a: ModelClass, b: ModelClass)
    requires a.packageName == b.packageName
    ensures a.QualifiedName() == b.QualifiedName() <==> a.simpleName == b.simpleName
  {
    var p := a.packageName;
    if p != [] {
      assert (p + "." + a.simpleName)[|p| + 1..] == a.simpleName;
      assert (p + "." + b.simpleName)[|p| + 1..] == b.simpleName;
    }
  }

  /** The graph: the root class and every class by qualified name, in declaration order. */
  datatype Graph = Graph(rootClass: ModelClass, classesByQualifiedName: seq<(string, ModelClass)>)
  {
    /** `getDeclaredClasses`: the classes of the map, in its insertion order. */
    function DeclaredClasses(): (cs: seq<ModelClass>)
      ensures |cs| == |classesByQualifiedName|
      ensures forall i :: 0 <= i < |cs| ==> cs[i] == classesByQualifiedName[i].1
    {
      Values(classesByQualifiedName)
    }

    /** `findClass`: `Optional.empty()` for an unknown name, else the class stored under it. */
    function FindClass(qualifiedName: string): (r: Option<ModelClass>)
      ensures r.None? <==> qualifiedName !in Keys(classesByQualifiedName)
      ensures r.Some? ==> r.value in DeclaredClasses()
      ensures Distinct(Keys(classesByQualifiedName)) ==>
        forall i :: 0 <= i < |classesByQualifiedName| && classesByQualifiedName[i].0 == qualifiedName ==>
          r == Some(classesByQualifiedName[i].1)
    {
      Get(classesByQualifiedName, qualifiedName)
    }

    /** `size`: the number of declared classes. */
    function Size(): (n: nat)
      ensures n == |DeclaredClasses()|
    {
      |classesByQualifiedName|
    }
  }

  const DUPLICATE_NAME := "Duplicate model class qualified name: "
  const NOT_AN_OBJECT := "Object schema expected for class generation: "
  const NO_FIELD_TYPE := "No TypeRef found for schema node: "
  const NO_OBJECT_TYPE := "No TypeRef found for object schema node: "

  /** The qualified names of a collection of classes, in order. */
  function Names(cs: seq<ModelClass>): (ns: seq<string>)
    ensures |ns| == |cs|
    ensures forall i :: 0 <= i < |cs| ==> ns[i] == cs[i].QualifiedName()
  {
    seq(|cs|, i requires 0 <= i < |cs| => cs[i].QualifiedName())
  }

  /** The entries `of` puts, one per class, keyed by qualified name. */
  function Entries(cs: seq<ModelClass>): (es: seq<(string, ModelClass)>)
    ensures |es| == |cs|
    ensures forall i :: 0 <= i < |cs| ==> es[i] == (cs[i].QualifiedName(), cs[i])
  {
    seq(|cs|, i requires 0 <= i < |cs| => (cs[i].QualifiedName(), cs[i]))
  }

  lemma EntriesKeysValues(cs: seq<ModelClass>)
    ensures Keys(Entries(cs)) == Names(cs)
    ensures Values(Entries(cs)) == cs
  {
  }

  /**
   * `of`: the classes keyed by qualified name in input order, rejecting the first
   * name seen twice; the root class is appended only if its name is not yet a key.
   */
  method Of(rootClass: ModelClass, allClasses: seq<ModelClass>) returns (r: Result<Graph, Failure>)
    ensures r.Err? <==> !Distinct(Names(allClasses))
    ensures r.Err? ==> exists j :: 0 <= j < |allClasses| && FirstRepeat(Names(allClasses), j) &&
                                   r.error == IllegalArgument(DUPLICATE_NAME + Names(allClasses)[j])
    ensures r.Ok? ==> r.value.rootClass == rootClass
    ensures r.Ok? ==> (r.value.classesByQualifiedName ==
      Entries(allClasses) + (if rootClass.QualifiedName() in Names(allClasses) then [] else [(rootClass.QualifiedName(), rootClass)]))
    ensures r.Ok? ==> Distinct(Keys(r.value.classesByQualifiedName))
    ensures r.Ok? ==> r.value.FindClass(rootClass.QualifiedName()).Some?
  {
    var indexed := IndexClasses(allClasses);
    if indexed.Err? {
      return Err(indexed.error);
    }
    var map_ := indexed.value;
    EntriesKeysValues(allClasses);
    var rootQualifiedName := rootClass.QualifiedName();
    if rootQualifiedName !in Keys(map_) {
      map_ := Put(map_, rootQualifiedName, rootClass);
    }
    return Ok(Graph(rootClass, map_));
  }

  /** The loop of `of`: each class put under its qualified name, in order, stopping at the first repeat. */
  method IndexClasses(allClasses: seq<ModelClass>) returns (r: Result<seq<(string, ModelClass)>, Failure>)
    ensures r.Err? <==> !Distinct(Names(allClasses))
    ensures r.Err? ==> exists j :: 0 <= j < |allClasses| && FirstRepeat(Names(allClasses), j) &&
                                   r.error == IllegalArgument(DUPLICATE_NAME + Names(allClasses)[j])
    ensures r.Ok? ==> r.value == Entries(allClasses) && Distinct(Keys(r.value))
  {
    ghost var names := Names(allClasses);
    ghost var entries := Entries(allClasses);
    var map_: seq<(string, ModelClass)> := [];
    for i := 0 to |allClasses|
      invariant map_ == entries[..i]
      invariant Distinct(Keys(map_))
    {
      var qualifiedName := allClasses[i].QualifiedName();
      if qualifiedName in Keys(map_) {
        FirstRepeatFound(names, map_, i);
        return Err(IllegalArgument(DUPLICATE_NAME + qualifiedName));
      }
      assert entries[..i + 1] == entries[..i] + [entries[i]];
      assert entries[i] == (qualifiedName, allClasses[i]);
      map_ := Put(map_, qualifiedName, allClasses[i]);
    }
    NoRepeat(names, map_);
    assert entries[..|allClasses|] == entries;
    return Ok(map_);
  }

  /** Position `j` holds the first name that occurred before. */
  predicate FirstRepeat(names: seq<string>, j: nat)
    requires j < |names|
  {
    Distinct(names[..j]) && names[j] in names[..j]
  }

  /** The keys of entries made for the first `i` names are those names. */
  lemma KeysOfPrefix(names: seq<string>, m: seq<(string, ModelClass)>, i: nat)
    requires |m| == i <= |names|
    requires forall k :: 0 <= k < i ==> m[k].0 == names[k]
    ensures Keys(m) == names[..i]
  {
  }

  /** A name that occurred before makes the names not distinct. */
  lemma RepeatFound(names: seq<string>, i: nat)
    requires i < |names| && names[i] in names[..i]
    ensures !Distinct(names)
  {
    var k :| 0 <= k < i && names[..i][k] == names[i];
    assert names[k] == names[i];
  }

  /** A name at position `i` that is already a key of the entries for `names[..i]` is the first repeat. */
  lemma FirstRepeatFound(names: seq<string>, m: seq<(string, ModelClass)>, i: nat)
    requires i < |names| && |m| == i && Distinct(Keys(m))
    requires forall k :: 0 <= k < i ==> m[k].0 == names[k]
    requires names[i] in Keys(m)
    ensures FirstRepeat(names, i) && !Distinct(names)
  {
    KeysOfPrefix(names, m, i);
    RepeatFound(names, i);
  }

  /** Entries for every name, with distinct keys, mean the names are distinct. */
  lemma NoRepeat(names: seq<string>, m: seq<(string, ModelClass)>)
    requires |m| == |names| && Distinct(Keys(m))
    requires forall k :: 0 <= k < |names| ==> m[k].0 == names[k]
    ensures Distinct(names)
  {
    assert Keys(m) == names;
  }

  /** `typeMap` has a type for every field schema of an object. */
  predicate Typed(fields: seq<(string, FieldInfo)>, typeMap: map<SchemaNode, TypeRef>) {
    forall k :: 0 <= k < |fields| ==> fields[k].1.schema in typeMap
  }

  /** The `Field` `buildClassForNode` makes for one entry of an object's field map. */
  function FieldFor(entry: (string, FieldInfo), typeMap: map<SchemaNode, TypeRef>): (f: Field)
    requires entry.1.schema in typeMap
    ensures f.jsonName == entry.0 && f.typeName == typeMap[entry.1.schema].javaType
    ensures f.nullable <==> entry.1.Optional()
    ensures NameConverter.AllAlnum(f.fieldName) && (f.fieldName == [] || !('A' <= f.fieldName[0] <= 'Z'))
    ensures NameConverter.Pascal(entry.0) != [] ==> f.fieldName != []
  {
    NameConverter.CamelAlnum(entry.0);
    Field(entry.0, NameConverter.Camel(entry.0), typeMap[entry.1.schema].javaType, entry.1.Optional())
  }

  /** The fields of the class built for an object, in the object's key order. */
  function FieldsOf(fields: seq<(string, FieldInfo)>, typeMap: map<SchemaNode, TypeRef>): (fs: seq<Field>)
    requires Typed(fields, typeMap)
    ensures |fs| == |fields|
    ensures forall k :: 0 <= k < |fields| ==> fs[k] == FieldFor(fields[k], typeMap)
  {
    seq(|fields|, k requires 0 <= k < |fields| => FieldFor(fields[k], typeMap))
  }

  /**
   * Every node below a ranked node has a type: the condition under which `from`
   * finds a `TypeRef` for every field schema and every nested object.
   */
  ghost predicate Covered(rank: map<SchemaNode, nat>, typeMap: map<SchemaNode, TypeRef>)
    reads Footprint(rank.Keys)
  {
    forall n, i :: n in rank && 0 <= i < |Children(n)| ==> Children(n)[i] in typeMap
  }

  /**
   * Every object node at or below `s`, looking through array element types and
   * union variants but not into objects, has a class in `created`.
   */
  ghost predicate NestedIn(rank: map<SchemaNode, nat>, created: seq<(SchemaNode, ModelClass)>, s: SchemaNode)
    requires Ranked(rank) && s in rank
    reads Footprint(rank.Keys)
    decreases rank[s]
  {
    if s.ObjectNode? then s in Keys(created)
    else forall i :: 0 <= i < |Children(s)| ==> NestedIn(rank, created, Children(s)[i])
  }

  /** Every object nested below a field (or element type, or variant) of `n` has a class. */
  ghost predicate BelowRegistered(rank: map<SchemaNode, nat>, created: seq<(SchemaNode, ModelClass)>, n: SchemaNode)
    requires Ranked(rank) && n in rank
    reads Footprint(rank.Keys)
  {
    forall i :: 0 <= i < |Children(n)| ==> NestedIn(rank, created, Children(n)[i])
  }

  /** One registered class: built in `packageName` from the fields of a ranked object node. */
  ghost predicate EntryOk(rank: map<SchemaNode, nat>, typeMap: map<SchemaNode, TypeRef>, packageName: string,
                          e: (SchemaNode, ModelClass))
    reads Footprint(rank.Keys)
  {
    && e.0 in rank
    && e.0.ObjectNode?
    && Typed(e.0.obj.fields, typeMap)
    && e.1.packageName == packageName
    && e.1.fields == FieldsOf(e.0.obj.fields, typeMap)
  }

  /**
   * What `created` holds: one class per ranked object node, each built from its
   * fields in `packageName`, and every object nested below one of its fields
   * registered too.
   */
  ghost predicate Registry(rank: map<SchemaNode, nat>, typeMap: map<SchemaNode, TypeRef>, packageName: string,
                           created: seq<(SchemaNode, ModelClass)>)
    reads Footprint(rank.Keys)
  {
    && Ranked(rank)
    && Distinct(Keys(created))
    && (forall k :: 0 <= k < |created| ==> EntryOk(rank, typeMap, packageName, created[k]))
    && (forall k :: 0 <= k < |created| ==> created[k].0 in rank && BelowRegistered(rank, created, created[k].0))
  }

  /** Classes built for nested objects: named by the object's `TypeRef`, never the root. */
  predicate NamedNested(typeMap: map<SchemaNode, TypeRef>, created: seq<(SchemaNode, ModelClass)>) {
    forall k :: 0 <= k < |created| ==>
      && created[k].0 in typeMap
      && created[k].1.simpleName == typeMap[created[k].0].javaType
      && !created[k].1.root
  }

  /** A nested class named by its node's `TypeRef`, appended to named nested classes. */
  lemma NamedNestedLast(typeMap: map<SchemaNode, TypeRef>, c: seq<(SchemaNode, ModelClass)>)
    requires |c| > 0 && NamedNested(typeMap, c[..|c| - 1])
    requires c[|c| - 1].0 in typeMap && c[|c| - 1].1.simpleName == typeMap[c[|c| - 1].0].javaType
    requires !c[|c| - 1].1.root
    ensures NamedNested(typeMap, c)
  {
    forall k | 0 <= k < |c| - 1
      ensures c[k].0 in typeMap && c[k].1.simpleName == typeMap[c[k].0].javaType && !c[k].1.root
    {
      assert c[..|c| - 1][k] == c[k];
    }
  }

  /** `after` keeps `before` as a prefix and only adds nodes ranked below `bound`. */
  ghost predicate Extends(before: seq<(SchemaNode, ModelClass)>, after: seq<(SchemaNode, ModelClass)>,
                          rank: map<SchemaNode, nat>, bound: nat)
  {
    && |before| <= |after|
    && after[..|before|] == before
    && forall k :: |before| <= k < |after| ==> after[k].0 in rank && rank[after[k].0] < bound
  }

  /** Registrations only accumulate. */
  lemma {:induction false} NestedInGrow(rank: map<SchemaNode, nat>, c1: seq<(SchemaNode, ModelClass)>,
                                        c2: seq<(SchemaNode, ModelClass)>, s: SchemaNode)
    requires Ranked(rank) && s in rank
    requires |c1| <= |c2| && c2[..|c1|] == c1
    requires NestedIn(rank, c1, s)
    ensures NestedIn(rank, c2, s)
    decreases rank[s]
  {
    if s.ObjectNode? {
      var k :| 0 <= k < |c1| && Keys(c1)[k] == s;
      assert c2[k] == c1[k];
      assert Keys(c2)[k] == s;
    } else {
      forall i | 0 <= i < |Children(s)|
        ensures NestedIn(rank, c2, Children(s)[i])
      {
        NestedInGrow(rank, c1, c2, Children(s)[i]);
      }
    }
  }

  /** `BelowRegistered` survives more registrations. */
  lemma BelowRegisteredGrow(rank: map<SchemaNode, nat>, c1: seq<(SchemaNode, ModelClass)>,
                            c2: seq<(SchemaNode, ModelClass)>, n: SchemaNode)
    requires Ranked(rank) && n in rank
    requires |c1| <= |c2| && c2[..|c1|] == c1
    requires BelowRegistered(rank, c1, n)
    ensures BelowRegistered(rank, c2, n)
  {
    forall i | 0 <= i < |Children(n)|
      ensures NestedIn(rank, c2, Children(n)[i])
    {
      NestedInGrow(rank, c1, c2, Children(n)[i]);
    }
  }

  /** Registering a new object whose nested objects are registered keeps the registry valid. */
  lemma RegistryAppend(rank: map<SchemaNode, nat>, typeMap: map<SchemaNode, TypeRef>, packageName: string,
                       created: seq<(SchemaNode, ModelClass)>, e: (SchemaNode, ModelClass))
    requires Registry(rank, typeMap, packageName, created)
    requires e.0 !in Keys(created) && EntryOk(rank, typeMap, packageName, e)
    requires BelowRegistered(rank, created, e.0)
    ensures Registry(rank, typeMap, packageName, created + [e])
  {
    var c2 := created + [e];
    assert c2[..|created|] == created;
    assert Keys(c2) == Keys(created) + [e.0];
    forall k | 0 <= k < |c2|
      ensures c2[k].0 in rank && BelowRegistered(rank, c2, c2[k].0)
    {
      BelowRegisteredGrow(rank, created, c2, c2[k].0);
    }
  }

  /**
   * One more child of `parent` handled: the registrations made for it are ranked
   * below `parent`, and the nested objects of the earlier children stay registered.
   */
  lemma ChildStep(rank: map<SchemaNode, nat>, parent: SchemaNode, i: nat,
                  c0: seq<(SchemaNode, ModelClass)>, before: seq<(SchemaNode, ModelClass)>,
                  after: seq<(SchemaNode, ModelClass)>)
    requires Ranked(rank) && parent in rank && i < |Children(parent)|
    requires Extends(c0, before, rank, rank[parent])
    requires Extends(before, after, rank, rank[Children(parent)[i]] + 1)
    requires forall k :: 0 <= k < i ==> NestedIn(rank, before, Children(parent)[k])
    requires NestedIn(rank, after, Children(parent)[i])
    ensures Extends(c0, after, rank, rank[parent])
    ensures forall k :: 0 <= k <= i ==> NestedIn(rank, after, Children(parent)[k])
  {
    assert after[..|c0|] == after[..|before|][..|c0|];
    forall k | 0 <= k < i
      ensures NestedIn(rank, after, Children(parent)[k])
    {
      NestedInGrow(rank, before, after, Children(parent)[k]);
    }
  }

  /** A node absent before, and ranked above every node added since, is absent now. */
  lemma NewKeyAppends(before: seq<(SchemaNode, ModelClass)>, after: seq<(SchemaNode, ModelClass)>,
                      node: SchemaNode, rank: map<SchemaNode, nat>)
    requires node in rank && node !in Keys(before)
    requires Extends(before, after, rank, rank[node])
    ensures node !in Keys(after)
  {
    forall k | 0 <= k < |after|
      ensures after[k].0 != node
    {
      if k < |before| {
        assert after[k] == before[k] && Keys(before)[k] == before[k].0;
      }
    }
  }

  /**
   * The object nodes that building below `s` registers, in order, when the nodes
   * `seen` are registered already: a depth-first walk through field schemas,
   * element types and variants in declaration order, each new object after the
   * objects nested below its fields, a registered object skipped with everything
   * below it.
   */
  ghost function NewObjects(rank: map<SchemaNode, nat>, seen: seq<SchemaNode>, s: SchemaNode): seq<SchemaNode>
    requires Ranked(rank) && s in rank
    reads Footprint(rank.Keys)
    decreases rank[s], 1
  {
    if s.ObjectNode? && s in seen then []
    else
      var below := NewObjectsFrom(rank, seen, s, 0);
      if s.ObjectNode? then below + [s] else below
  }

  /** `NewObjects` of the children of `parent` from the `i`-th on, each walk seeing the earlier ones. */
  ghost function NewObjectsFrom(rank: map<SchemaNode, nat>, seen: seq<SchemaNode>, parent: SchemaNode, i: nat)
    : seq<SchemaNode>
    requires Ranked(rank) && parent in rank && i <= |Children(parent)|
    reads Footprint(rank.Keys)
    decreases rank[parent], 0, |Children(parent)| - i
  {
    if i == |Children(parent)| then []
    else
      var first := NewObjects(rank, seen, Children(parent)[i]);
      first + NewObjectsFrom(rank, seen + first, parent, i + 1)
  }

  /** The walk lists only object nodes, each ranked and not seen before, none twice. */
  lemma {:induction false} NewObjectsFresh(rank: map<SchemaNode, nat>, seen: seq<SchemaNode>, s: SchemaNode)
    requires Ranked(rank) && s in rank
    ensures Distinct(seen) ==> Distinct(seen + NewObjects(rank, seen, s))
    ensures forall k :: 0 <= k < |NewObjects(rank, seen, s)| ==>
      var n := NewObjects(rank, seen, s)[k]; n.ObjectNode? && n in rank && rank[n] <= rank[s] && n !in seen
    decreases rank[s], 1
  {
    if !(s.ObjectNode? && s in seen) {
      NewObjectsFromFresh(rank, seen, s, 0);
      var below := NewObjectsFrom(rank, seen, s, 0);
      if s.ObjectNode? {
        assert s !in below;
        assert seen + (below + [s]) == (seen + below) + [s];
      }
    }
  }

  /** `NewObjectsFresh` for the walks below the children of `parent` from the `i`-th on. */
  lemma {:induction false} NewObjectsFromFresh(rank: map<SchemaNode, nat>, seen: seq<SchemaNode>,
                                               parent: SchemaNode, i: nat)
    requires Ranked(rank) && parent in rank && i <= |Children(parent)|
    ensures Distinct(seen) ==> Distinct(seen + NewObjectsFrom(rank, seen, parent, i))
    ensures forall k :: 0 <= k < |NewObjectsFrom(rank, seen, parent, i)| ==>
      var n := NewObjectsFrom(rank, seen, parent, i)[k]; n.ObjectNode? && n in rank && rank[n] < rank[parent] && n !in seen
    decreases rank[parent], 0, |Children(parent)| - i
  {
    if i < |Children(parent)| {
      var first := NewObjects(rank, seen, Children(parent)[i]);
      NewObjectsFresh(rank, seen, Children(parent)[i]);
      NewObjectsFromFresh(rank, seen + first, parent, i + 1);
      var rest := NewObjectsFrom(rank, seen + first, parent, i + 1);
      assert seen + (first + rest) == (seen + first) + rest;
    }
  }

  /**
   * One more child of `parent` walked: what is still to be registered below the
   * later children, after the registrations so far, is unchanged.
   */
  lemma WalkStep(rank: map<SchemaNode, nat>, parent: SchemaNode, i: nat, c0: seq<(SchemaNode, ModelClass)>,
                 before: seq<(SchemaNode, ModelClass)>, after: seq<(SchemaNode, ModelClass)>)
    requires Ranked(rank) && parent in rank && i < |Children(parent)|
    requires Keys(before) + NewObjectsFrom(rank, Keys(before), parent, i)
          == Keys(c0) + NewObjectsFrom(rank, Keys(c0), parent, 0)
    requires Keys(after) == Keys(before) + NewObjects(rank, Keys(before), Children(parent)[i])
    ensures Keys(after) + NewObjectsFrom(rank, Keys(after), parent, i + 1)
         == Keys(c0) + NewObjectsFrom(rank, Keys(c0), parent, 0)
  {
    var first := NewObjects(rank, Keys(before), Children(parent)[i]);
    var rest := NewObjectsFrom(rank, Keys(after), parent, i + 1);
    assert (Keys(before) + first) + rest == Keys(before) + (first + rest);
  }

  /**
   * Where a loop over the children of `parent` stands after `i` of them: the
   * registry is valid, it extends `c0` by nodes ranked below `parent`, the objects
   * nested below the handled children are registered, and what was registered
   * since `c0` is the start of their walk.
   */
  ghost predicate Progress(rank: map<SchemaNode, nat>, typeMap: map<SchemaNode, TypeRef>, packageName: string,
                           parent: SchemaNode, i: nat, c0: seq<(SchemaNode, ModelClass)>,
                           cur: seq<(SchemaNode, ModelClass)>)
    requires parent in rank
    reads Footprint(rank.Keys)
  {
    && Registry(rank, typeMap, packageName, cur)
    && i <= |Children(parent)|
    && Extends(c0, cur, rank, rank[parent])
    && (forall k :: 0 <= k < i ==> NestedIn(rank, cur, Children(parent)[k]))
    && Keys(cur) + NewObjectsFrom(rank, Keys(cur), parent, i) == Keys(c0) + NewObjectsFrom(rank, Keys(c0), parent, 0)
  }

  /** Handling the `i`-th child of `parent` advances the loop by one. */
  lemma Advance(rank: map<SchemaNode, nat>, typeMap: map<SchemaNode, TypeRef>, packageName: string,
                parent: SchemaNode, i: nat, c0: seq<(SchemaNode, ModelClass)>,
                before: seq<(SchemaNode, ModelClass)>, after: seq<(SchemaNode, ModelClass)>)
    requires Ranked(rank) && parent in rank && i < |Children(parent)|
    requires Progress(rank, typeMap, packageName, parent, i, c0, before)
    requires Registry(rank, typeMap, packageName, after)
    requires Extends(before, after, rank, rank[Children(parent)[i]] + 1)
    requires NestedIn(rank, after, Children(parent)[i])
    requires Keys(after) == Keys(before) + NewObjects(rank, Keys(before), Children(parent)[i])
    ensures Progress(rank, typeMap, packageName, parent, i + 1, c0, after)
  {
    ChildStep(rank, parent, i, c0, before, after);
    WalkStep(rank, parent, i, c0, before, after);
  }

  /** A loop over all the children of `parent` registered everything below them, in walk order. */
  lemma Finished(rank: map<SchemaNode, nat>, typeMap: map<SchemaNode, TypeRef>, packageName: string,
                 parent: SchemaNode, c0: seq<(SchemaNode, ModelClass)>, cur: seq<(SchemaNode, ModelClass)>)
    requires Ranked(rank) && parent in rank
    requires Progress(rank, typeMap, packageName, parent, |Children(parent)|, c0, cur)
    ensures Registry(rank, typeMap, packageName, cur)
    ensures Extends(c0, cur, rank, rank[parent]) && BelowRegistered(rank, cur, parent)
    ensures Keys(cur) == Keys(c0) + NewObjectsFrom(rank, Keys(c0), parent, 0)
  {
    assert Keys(cur) + [] == Keys(cur);
  }

  /**
   * `buildClassForNode`: reuses the class of a node already in `created`;
   * otherwise builds the class of an object node, one field per entry, after the
   * classes nested below each field, and records it last.
   */
  method BuildClassForNode(node: SchemaNode, typeMap: map<SchemaNode, TypeRef>, packageName: string,
                           suggestedSimpleName: string, root: bool, created: seq<(SchemaNode, ModelClass)>,
                           ghost rank: map<SchemaNode, nat>)
    returns (r: Result<ModelClass, Failure>, created': seq<(SchemaNode, ModelClass)>)
    requires node in rank && Registry(rank, typeMap, packageName, created)
    ensures r.Err? ==> r.error.IllegalState?
    ensures r.Ok? ==> Registry(rank, typeMap, packageName, created')
    ensures r.Ok? ==> Extends(created, created', rank, rank[node] + 1) && Get(created', node) == Some(r.value)
    ensures node in Keys(created) ==> r == Ok(Get(created, node).value) && created' == created
    ensures node !in Keys(created) && !node.ObjectNode? ==> r == Err(IllegalState(NOT_AN_OBJECT))
    ensures node !in Keys(created) && node.ObjectNode? && !Typed(node.obj.fields, typeMap) ==> r.Err?
    ensures node !in Keys(created) && r.Ok? ==>
      && |created'| > |created|
      && created'[|created'| - 1] == (node, r.value)
      && r.value == ModelClass(packageName, suggestedSimpleName, FieldsOf(node.obj.fields, typeMap), root)
    ensures node !in Keys(created) && r.Ok? && NamedNested(typeMap, created) ==>
      NamedNested(typeMap, created'[..|created'| - 1])
    ensures Covered(rank, typeMap) && (node in Keys(created) || node.ObjectNode?) ==> r.Ok?
    ensures r.Ok? ==> Keys(created') == Keys(created) + NewObjects(rank, Keys(created), node)
    decreases rank[node], 1, 0
  {
    if node in Keys(created) {
      RegisteredWalk(rank, typeMap, packageName, created, node);
      return Ok(Get(created, node).value), created;
    }
    if !node.ObjectNode? {
      return Err(IllegalState(NOT_AN_OBJECT)), created;
    }
    var fields;
    fields, created' := BuildFields(node, typeMap, packageName, created, rank);
    if fields.Err? {
      return Err(fields.error), created';
    }
    var modelClass := ModelClass(packageName, suggestedSimpleName, fields.value, root);
    RegisterNew(rank, typeMap, packageName, created, created', node, modelClass);
    RegisterOrder(rank, created, created', node, modelClass);
    created' := Put(created', node, modelClass);
    return Ok(modelClass), created';
  }

  /** Recording the class of a new object node after the classes nested below it. */
  lemma RegisterNew(rank: map<SchemaNode, nat>, typeMap: map<SchemaNode, TypeRef>, packageName: string,
                    created: seq<(SchemaNode, ModelClass)>, built: seq<(SchemaNode, ModelClass)>,
                    node: SchemaNode, modelClass: ModelClass)
    requires node in rank && node.ObjectNode? && node !in Keys(created)
    requires Registry(rank, typeMap, packageName, built)
    requires Extends(created, built, rank, rank[node]) && BelowRegistered(rank, built, node)
    requires Typed(node.obj.fields, typeMap)
    requires modelClass.packageName == packageName && modelClass.fields == FieldsOf(node.obj.fields, typeMap)
    ensures node !in Keys(built)
    ensures var after := Put(built, node, modelClass);
      && after == built + [(node, modelClass)]
      && after[..|after| - 1] == built
      && Registry(rank, typeMap, packageName, after)
      && Extends(created, after, rank, rank[node] + 1)
      && Get(after, node) == Some(modelClass)
  {
    NewKeyAppends(created, built, node, rank);
    RegistryAppend(rank, typeMap, packageName, built, (node, modelClass));
    var after := Put(built, node, modelClass);
    assert after[..|after| - 1] == built;
    assert after[..|created|] == built[..|created|];
  }

  /** A registered node is skipped by the walk. */
  lemma RegisteredWalk(rank: map<SchemaNode, nat>, typeMap: map<SchemaNode, TypeRef>, packageName: string,
                       created: seq<(SchemaNode, ModelClass)>, node: SchemaNode)
    requires Registry(rank, typeMap, packageName, created) && node in rank && node in Keys(created)
    ensures NewObjects(rank, Keys(created), node) == []
  {
    var k :| 0 <= k < |created| && Keys(created)[k] == node;
    assert EntryOk(rank, typeMap, packageName, created[k]);
  }

  /** A new object registered after the objects below its fields completes its walk. */
  lemma RegisterOrder(rank: map<SchemaNode, nat>, created: seq<(SchemaNode, ModelClass)>,
                      built: seq<(SchemaNode, ModelClass)>, node: SchemaNode, modelClass: ModelClass)
    requires Ranked(rank) && node in rank && node.ObjectNode? && node !in Keys(created)
    requires node !in Keys(built) && Distinct(Keys(built))
    requires Keys(built) == Keys(created) + NewObjectsFrom(rank, Keys(created), node, 0)
    ensures Keys(Put(built, node, modelClass)) == Keys(created) + NewObjects(rank, Keys(created), node)
  {
    KeysAppend(built, (node, modelClass));
    var below := NewObjectsFrom(rank, Keys(created), node, 0);
    assert (Keys(created) + below) + [node] == Keys(created) + (below + [node]);
  }

  /** One more entry's `Field` appended keeps the fields matching the entries so far. */
  lemma FieldsStep(fields: seq<Field>, entries: seq<(string, FieldInfo)>, typeMap: map<SchemaNode, TypeRef>,
                   i: nat, field: Field)
    requires |fields| == i < |entries|
    requires forall k :: 0 <= k < i ==> entries[k].1.schema in typeMap && fields[k] == FieldFor(entries[k], typeMap)
    requires entries[i].1.schema in typeMap && field == FieldFor(entries[i], typeMap)
    ensures forall k :: 0 <= k < i + 1 ==>
      entries[k].1.schema in typeMap && (fields + [field])[k] == FieldFor(entries[k], typeMap)
  {
  }

  /**
   * The loop of `buildClassForNode` over the entries of an object's field map:
   * one `Field` per entry, each followed by the classes nested below its schema.
   */
  method BuildFields(node: SchemaNode, typeMap: map<SchemaNode, TypeRef>, packageName: string,
                     created: seq<(SchemaNode, ModelClass)>, ghost rank: map<SchemaNode, nat>)
    returns (r: Result<seq<Field>, Failure>, created': seq<(SchemaNode, ModelClass)>)
    requires node in rank && node.ObjectNode? && Registry(rank, typeMap, packageName, created)
    ensures r.Err? ==> r.error.IllegalState?
    ensures !Typed(node.obj.fields, typeMap) ==> r.Err?
    ensures r.Ok? ==> Typed(node.obj.fields, typeMap) && r.value == FieldsOf(node.obj.fields, typeMap)
    ensures r.Ok? ==> Registry(rank, typeMap, packageName, created')
    ensures r.Ok? ==> Extends(created, created', rank, rank[node]) && BelowRegistered(rank, created', node)
    ensures r.Ok? && NamedNested(typeMap, created) ==> NamedNested(typeMap, created')
    ensures Covered(rank, typeMap) ==> r.Ok?
    ensures r.Ok? ==> Keys(created') == Keys(created) + NewObjectsFrom(rank, Keys(created), node, 0)
    decreases rank[node], 0, 1
  {
    var entries := node.obj.fields;
    var fields: seq<Field> := [];
    created' := created;
    assert |Children(node)| == |entries|;
    for i := 0 to |entries|
      invariant |fields| == i
      invariant forall k :: 0 <= k < i ==> entries[k].1.schema in typeMap && fields[k] == FieldFor(entries[k], typeMap)
      invariant Progress(rank, typeMap, packageName, node, i, created, created')
      invariant NamedNested(typeMap, created) ==> NamedNested(typeMap, created')
    {
      var field;
      field, created' := BuildField(node, i, typeMap, packageName, created, created', rank);
      if field.Err? {
        return Err(field.error), created';
      }
      FieldsStep(fields, entries, typeMap, i, field.value);
      fields := fields + [field.value];
    }
    Finished(rank, typeMap, packageName, node, created, created');
    return Ok(fields), created';
  }

  /**
   * One entry of that loop: the `Field` for the `i`-th entry, then the classes
   * nested below its schema, on top of the registrations made for the earlier
   * entries since `c0`.
   */
  method BuildField(node: SchemaNode, i: nat, typeMap: map<SchemaNode, TypeRef>, packageName: string,
                    ghost c0: seq<(SchemaNode, ModelClass)>, created: seq<(SchemaNode, ModelClass)>,
                    ghost rank: map<SchemaNode, nat>)
    returns (r: Result<Field, Failure>, created': seq<(SchemaNode, ModelClass)>)
    requires node in rank && node.ObjectNode? && i < |node.obj.fields|
    requires Progress(rank, typeMap, packageName, node, i, c0, created)
    ensures r.Err? ==> r.error.IllegalState?
    ensures node.obj.fields[i].1.schema !in typeMap ==> r == Err(IllegalState(NO_FIELD_TYPE))
    ensures r.Ok? ==>
      node.obj.fields[i].1.schema in typeMap && r.value == FieldFor(node.obj.fields[i], typeMap)
    ensures r.Ok? ==> Progress(rank, typeMap, packageName, node, i + 1, c0, created')
    ensures r.Ok? && NamedNested(typeMap, created) ==> NamedNested(typeMap, created')
    ensures Covered(rank, typeMap) ==> r.Ok?
    decreases rank[node], 0, 0
  {
    assert forall o :: o in Footprint(rank.Keys) ==> allocated(o);
    var jsonName := node.obj.fields[i].0;
    var fieldInfo := node.obj.fields[i].1;
    var fieldSchema := fieldInfo.schema;
    assert Children(node)[i] == fieldSchema;
    var fieldName := NameConverter.ToCamelCase(Some(jsonName));
    if fieldSchema !in typeMap {
      return Err(IllegalState(NO_FIELD_TYPE)), created;
    }
    var typeName := typeMap[fieldSchema].javaType;
    var nullable := fieldInfo.Optional();
    var field := Field(jsonName, fieldName.value, typeName, nullable);
    var nested;
    nested, created' := CreateNestedClassesIfNeeded(fieldSchema, typeMap, packageName, created, rank);
    if nested.Err? {
      return Err(nested.error), created';
    }
    Advance(rank, typeMap, packageName, node, i, c0, created, created');
    return Ok(field), created';
  }

  /**
   * `createNestedClassesIfNeeded`: an object node gets its class (named by its
   * `TypeRef`, not a root); array element types and union variants are searched in
   * order; a primitive needs nothing.
   */
  method CreateNestedClassesIfNeeded(schema: SchemaNode, typeMap: map<SchemaNode, TypeRef>, packageName: string,
                                     created: seq<(SchemaNode, ModelClass)>, ghost rank: map<SchemaNode, nat>)
    returns (r: Result<(), Failure>, created': seq<(SchemaNode, ModelClass)>)
    requires schema in rank && Registry(rank, typeMap, packageName, created)
    ensures r.Err? ==> r.error.IllegalState?
    ensures r.Ok? ==> Registry(rank, typeMap, packageName, created')
    ensures r.Ok? ==> Extends(created, created', rank, rank[schema] + 1) && NestedIn(rank, created', schema)
    ensures r.Ok? && NamedNested(typeMap, created) ==> NamedNested(typeMap, created')
    ensures schema.ObjectNode? && schema !in typeMap ==> r == Err(IllegalState(NO_OBJECT_TYPE))
    ensures schema.PrimitiveNode? ==> r.Ok? && created' == created
    ensures Covered(rank, typeMap) && (schema.ObjectNode? ==> schema in typeMap) ==> r.Ok?
    ensures r.Ok? ==> Keys(created') == Keys(created) + NewObjects(rank, Keys(created), schema)
    decreases rank[schema], 2, 2
  {
    if schema.ObjectNode? {
      if schema !in typeMap {
        return Err(IllegalState(NO_OBJECT_TYPE)), created;
      }
      var className := typeMap[schema].javaType;
      var built;
      built, created' := BuildClassForNode(schema, typeMap, packageName, className, false, created, rank);
      if built.Err? {
        return Err(built.error), created';
      }
      if schema !in Keys(created) && NamedNested(typeMap, created) {
        NamedNestedLast(typeMap, created');
      }
      return Ok(()), created';
    }
    if schema.PrimitiveNode? {
      return Ok(()), created;
    }
    r, created' := CreateNestedBelow(schema, typeMap, packageName, created, rank);
  }

  /**
   * The loops of `createNestedClassesIfNeeded` over an array's element types and
   * a union's variants, in order, stopping at the first failure.
   */
  method CreateNestedBelow(schema: SchemaNode, typeMap: map<SchemaNode, TypeRef>, packageName: string,
                           created: seq<(SchemaNode, ModelClass)>, ghost rank: map<SchemaNode, nat>)
    returns (r: Result<(), Failure>, created': seq<(SchemaNode, ModelClass)>)
    requires schema in rank && Registry(rank, typeMap, packageName, created)
    ensures r.Err? ==> r.error.IllegalState?
    ensures r.Ok? ==> Registry(rank, typeMap, packageName, created')
    ensures r.Ok? ==> Extends(created, created', rank, rank[schema]) && BelowRegistered(rank, created', schema)
    ensures r.Ok? && NamedNested(typeMap, created) ==> NamedNested(typeMap, created')
    ensures Covered(rank, typeMap) ==> r.Ok?
    ensures r.Ok? ==> Keys(created') == Keys(created) + NewObjectsFrom(rank, Keys(created), schema, 0)
    decreases rank[schema], 2, 1
  {
    created' := created;
    for i := 0 to |Children(schema)|
      invariant Progress(rank, typeMap, packageName, schema, i, created, created')
      invariant NamedNested(typeMap, created) ==> NamedNested(typeMap, created')
    {
      var nested;
      nested, created' := CreateNestedAt(schema, i, typeMap, packageName, created, created', rank);
      if nested.Err? {
        return nested, created';
      }
    }
    Finished(rank, typeMap, packageName, schema, created, created');
    return Ok(()), created';
  }

  /** One pass of those loops: the classes nested below the `i`-th element type or variant. */
  method CreateNestedAt(schema: SchemaNode, i: nat, typeMap: map<SchemaNode, TypeRef>, packageName: string,
                        ghost c0: seq<(SchemaNode, ModelClass)>, created: seq<(SchemaNode, ModelClass)>,
                        ghost rank: map<SchemaNode, nat>)
    returns (r: Result<(), Failure>, created': seq<(SchemaNode, ModelClass)>)
    requires schema in rank && i < |Children(schema)|
    requires Progress(rank, typeMap, packageName, schema, i, c0, created)
    ensures r.Err? ==> r.error.IllegalState?
    ensures r.Ok? ==> Progress(rank, typeMap, packageName, schema, i + 1, c0, created')
    ensures r.Ok? && NamedNested(typeMap, created) ==> NamedNested(typeMap, created')
    ensures Covered(rank, typeMap) ==> r.Ok?
    decreases rank[schema], 1, 0
  {
    assert forall o :: o in Footprint(rank.Keys) ==> allocated(o);
    r, created' := CreateNestedClassesIfNeeded(Children(schema)[i], typeMap, packageName, created, rank);
    if r.Ok? {
      Advance(rank, typeMap, packageName, schema, i, c0, created, created');
    }
  }

  /** All four reference arguments of `from` are non-null. */
  predicate Given<A, B, C, D>(a: Option<A>, b: Option<B>, c: Option<C>, d: Option<D>) {
    a.Some? && b.Some? && c.Some? && d.Some?
  }

  /**
   * The root class `from` builds: from the root's fields in the package, marked
   * root, recorded last in `created` after the nested classes, which are
   * registered in walk order.
   */
  ghost predicate RootBuilt(rank: map<SchemaNode, nat>, schemaRoot: SchemaNode, typeMap: map<SchemaNode, TypeRef>,
                            packageName: string, rootClassName: string, rootClass: ModelClass,
                            created: seq<(SchemaNode, ModelClass)>)
    requires schemaRoot in rank
    reads Footprint(rank.Keys)
  {
    && Registry(rank, typeMap, packageName, created)
    && schemaRoot.ObjectNode?
    && Typed(schemaRoot.obj.fields, typeMap)
    && rootClass == ModelClass(packageName, rootClassName, FieldsOf(schemaRoot.obj.fields, typeMap), true)
    && |created| > 0 && created[|created| - 1] == (schemaRoot, rootClass)
    && NamedNested(typeMap, created[..|created| - 1])
    && Keys(created) == NewObjects(rank, [], schemaRoot)
  }

  /**
   * What a successful `from` returns: the graph of that root class, declaring
   * exactly the created classes, whose names are distinct.
   */
  ghost predicate BuiltGraph(rank: map<SchemaNode, nat>, schemaRoot: SchemaNode, typeMap: map<SchemaNode, TypeRef>,
                             packageName: string, rootClassName: string, g: Graph,
                             created: seq<(SchemaNode, ModelClass)>)
    requires schemaRoot in rank
    reads Footprint(rank.Keys)
  {
    && RootBuilt(rank, schemaRoot, typeMap, packageName, rootClassName, g.rootClass, created)
    && g.DeclaredClasses() == Values(created)
    && Distinct(Names(Values(created)))
  }

  /**
   * `from` with the default name converter: builds the root class and everything
   * nested below it, then makes the graph with `of`.
   */
  method From(schemaRoot: Option<SchemaNode>, typeMap: Option<map<SchemaNode, TypeRef>>, packageName: Option<string>,
              rootClassName: Option<string>, ghost rank: map<SchemaNode, nat>)
    returns (r: Result<Graph, Failure>, ghost created: seq<(SchemaNode, ModelClass)>)
    requires Ranked(rank) && (schemaRoot.Some? ==> schemaRoot.value in rank)
    ensures schemaRoot.None? ==> r == Err(NullPointer("schemaRoot must not be null"))
    ensures schemaRoot.Some? && typeMap.None? ==> r == Err(NullPointer("typeMap must not be null"))
    ensures schemaRoot.Some? && typeMap.Some? && packageName.None? ==> r == Err(NullPointer("packageName must not be null"))
    ensures schemaRoot.Some? && typeMap.Some? && packageName.Some? && rootClassName.None? ==>
      r == Err(NullPointer("rootClassName must not be null"))
    ensures Given(schemaRoot, typeMap, packageName, rootClassName) && !schemaRoot.value.ObjectNode? ==>
      r == Err(IllegalState(NOT_AN_OBJECT))
    ensures (Given(schemaRoot, typeMap, packageName, rootClassName) && schemaRoot.value.ObjectNode? &&
             !Typed(schemaRoot.value.obj.fields, typeMap.value)) ==> r.Err? && r.error.IllegalState?
    ensures (Given(schemaRoot, typeMap, packageName, rootClassName) && schemaRoot.value.ObjectNode? &&
             Covered(rank, typeMap.value)) ==> (r.Ok? || r.error.IllegalArgument?)
    ensures (Given(schemaRoot, typeMap, packageName, rootClassName) && schemaRoot.value.ObjectNode? &&
             Covered(rank, typeMap.value)) ==> (r.Ok? <==> Distinct(Names(Values(created))))
    ensures r.Err? && r.error.IllegalArgument? ==>
      exists j :: 0 <= j < |created| && FirstRepeat(Names(Values(created)), j) &&
                  r.error == IllegalArgument(DUPLICATE_NAME + Names(Values(created))[j])
    ensures r.Ok? ==>
      && Given(schemaRoot, typeMap, packageName, rootClassName)
      && BuiltGraph(rank, schemaRoot.value, typeMap.value, packageName.value, rootClassName.value, r.value, created)
  {
    created := [];
    if schemaRoot.None? {
      return Err(NullPointer("schemaRoot must not be null")), created;
    }
    if typeMap.None? {
      return Err(NullPointer("typeMap must not be null")), created;
    }
    if packageName.None? {
      return Err(NullPointer("packageName must not be null")), created;
    }
    if rootClassName.None? {
      return Err(NullPointer("rootClassName must not be null")), created;
    }
    r, created := BuildGraph(schemaRoot.value, typeMap.value, packageName.value, rootClassName.value, rank);
  }

  /** The part of `from` after its null checks. */
  method BuildGraph(schemaRoot: SchemaNode, typeMap: map<SchemaNode, TypeRef>, packageName: string,
                    rootClassName: string, ghost rank: map<SchemaNode, nat>)
    returns (r: Result<Graph, Failure>, ghost created: seq<(SchemaNode, ModelClass)>)
    requires Ranked(rank) && schemaRoot in rank
    ensures r.Err? ==> r.error.IllegalState? || r.error.IllegalArgument?
    ensures !schemaRoot.ObjectNode? ==> r == Err(IllegalState(NOT_AN_OBJECT))
    ensures schemaRoot.ObjectNode? && !Typed(schemaRoot.obj.fields, typeMap) ==> r.Err? && r.error.IllegalState?
    ensures schemaRoot.ObjectNode? && Covered(rank, typeMap) ==> (r.Ok? || r.error.IllegalArgument?)
    ensures schemaRoot.ObjectNode? && Covered(rank, typeMap) ==> (r.Ok? <==> Distinct(Names(Values(created))))
    ensures r.Err? && r.error.IllegalArgument? ==>
      exists j :: 0 <= j < |created| && FirstRepeat(Names(Values(created)), j) &&
                  r.error == IllegalArgument(DUPLICATE_NAME + Names(Values(created))[j])
    ensures r.Ok? ==> BuiltGraph(rank, schemaRoot, typeMap, packageName, rootClassName, r.value, created)
  {
    assert forall o :: o in Footprint(rank.Keys) ==> allocated(o);
    var built, registered := BuildRoot(schemaRoot, typeMap, packageName, rootClassName, rank);
    created := registered;
    if built.Err? {
      return Err(built.error), created;
    }
    var rootClass := built.value;
    var classes := Values(registered);
    r := Of(rootClass, classes);
    if r.Ok? {
      OfIncludedRoot(rootClass, classes, r.value);
    }
  }

  /** The root class of `from`, built with nothing created yet, and the classes created on the way. */
  method BuildRoot(schemaRoot: SchemaNode, typeMap: map<SchemaNode, TypeRef>, packageName: string,
                   rootClassName: string, ghost rank: map<SchemaNode, nat>)
    returns (r: Result<ModelClass, Failure>, created: seq<(SchemaNode, ModelClass)>)
    requires Ranked(rank) && schemaRoot in rank
    ensures r.Err? ==> r.error.IllegalState?
    ensures !schemaRoot.ObjectNode? ==> r == Err(IllegalState(NOT_AN_OBJECT))
    ensures schemaRoot.ObjectNode? && !Typed(schemaRoot.obj.fields, typeMap) ==> r.Err?
    ensures schemaRoot.ObjectNode? && Covered(rank, typeMap) ==> r.Ok?
    ensures r.Ok? ==> RootBuilt(rank, schemaRoot, typeMap, packageName, rootClassName, r.value, created)
  {
    assert forall o :: o in Footprint(rank.Keys) ==> allocated(o);
    var none: seq<(SchemaNode, ModelClass)> := [];
    assert schemaRoot !in Keys(none) && NamedNested(typeMap, none);
    r, created := BuildClassForNode(schemaRoot, typeMap, packageName, rootClassName, true, none, rank);
    if r.Ok? {
      WalkFromNothing(rank, schemaRoot, none, created);
    }
  }

  /** A walk that starts with nothing registered registers exactly its own nodes. */
  lemma WalkFromNothing(rank: map<SchemaNode, nat>, schemaRoot: SchemaNode,
                        none: seq<(SchemaNode, ModelClass)>, registered: seq<(SchemaNode, ModelClass)>)
    requires Ranked(rank) && schemaRoot in rank && none == []
    requires Keys(registered) == Keys(none) + NewObjects(rank, Keys(none), schemaRoot)
    ensures Keys(registered) == NewObjects(rank, [], schemaRoot)
  {
    assert Keys(none) == [];
  }

  /** When the root class is among the classes, `of` declares exactly those classes. */
  lemma OfIncludedRoot(rootClass: ModelClass, classes: seq<ModelClass>, g: Graph)
    requires |classes| > 0 && classes[|classes| - 1] == rootClass
    requires g.classesByQualifiedName ==
      Entries(classes) + (if rootClass.QualifiedName() in Names(classes) then [] else [(rootClass.QualifiedName(), rootClass)])
    ensures g.DeclaredClasses() == classes
  {
    assert Names(classes)[|classes| - 1] == rootClass.QualifiedName();
    assert g.classesByQualifiedName == Entries(classes);
    EntriesKeysValues(classes);
  }

  /**
   * With the type inferencer as it stands, `typeMap` holds only the root, so `from`
   * fails on every root object with a field: no field schema is the root itself.
   */
  lemma RootOnlyTypesLeaveFieldsUntyped(rank: map<SchemaNode, nat>, schemaRoot: SchemaNode,
                                        typeMap: map<SchemaNode, TypeRef>)
    requires Ranked(rank) && schemaRoot in rank && schemaRoot.ObjectNode?
    requires |schemaRoot.obj.fields| > 0 && typeMap.Keys == {schemaRoot}
    ensures !Typed(schemaRoot.obj.fields, typeMap)
  {
    assert Children(schemaRoot)[0] == schemaRoot.obj.fields[0].1.schema;
  }
}
