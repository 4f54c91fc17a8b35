/**
 * `TypeInferencer`: maps schema nodes to Java type references. Only primitives are
 * mapped to a specific type; arrays, objects and unions are stubbed to `Object`
 * without visiting their children, so the result has one entry, for the root.
 */
module TypeInferencer {
  import opened Outcomes
  import opened LinkedCollections
  import opened JavaText
  import opened Schema
  import NameConverter

  /** An insertion-ordered set of import names (`LinkedHashSet<String>`). */
  type ImportSet = s: seq<string> | Distinct(s) witness []

  /** `TypeRef`: an immutable value; `getRequiredImports` is a read-only view. */
  datatype TypeRef = TypeRef(javaType: string, requiredImports: ImportSet, isObject: bool, isList: bool)

  /**
   * The `TypeRef` constructor: the imports are copied into a new linked set, a
   * `null` import set gives an empty one.
   */
  function NewTypeRef(javaType: string, imports: Option<seq<string>>, isObject: bool, isList: bool): (t: TypeRef)
    ensures t.javaType == javaType && t.isObject == isObject && t.isList == isList
    ensures imports.None? ==> t.requiredImports == []
    ensures imports.Some? ==> forall i :: 0 <= i < |imports.value| ==> imports.value[i] in t.requiredImports
    ensures forall i :: 0 <= i < |t.requiredImports| ==> imports.Some? && t.requiredImports[i] in imports.value
    ensures imports.Some? && Distinct(imports.value) ==> t.requiredImports == imports.value
  {
    if imports.None? then TypeRef(javaType, [], isObject, isList)
    else
      var copy := AddAll([], imports.value);
      assert Distinct(imports.value) ==> copy == imports.value by {
        if Distinct(imports.value) {
          assert [] + imports.value == imports.value;
          AddAllFresh([], imports.value);
        }
      }
      TypeRef(javaType, copy, isObject, isList)
  }

  /** Java string concatenation renders `null` as "null". */
  function Concatenable(s: Option<string>): string {
    if s.None? then "null" else s.value
  }

  /**
   * `withGeneric`: a list type `outer<T>` carrying the receiver's imports plus
   * `importFqcn` when that is non-null and non-empty; the receiver is a value and
   * stays as it was.
   */
  function WithGeneric(t: TypeRef, outer: Option<string>, importFqcn: Option<string>): (r: TypeRef)
    ensures r.javaType == Concatenable(outer) + "<" + t.javaType + ">"
    ensures r.isList && !r.isObject
    ensures importFqcn.Some? && importFqcn.value != [] ==>
      r.requiredImports == Add(t.requiredImports, importFqcn.value)
    ensures importFqcn.None? || importFqcn.value == [] ==> r.requiredImports == t.requiredImports
  {
    var own := NewTypeRef(t.javaType, Some(t.requiredImports), t.isObject, t.isList).requiredImports;
    var imps := if importFqcn.Some? && importFqcn.value != [] then Add(own, importFqcn.value) else own;
    NewTypeRef(Concatenable(outer) + "<" + t.javaType + ">", Some(imps), false, true)
  }

  /** `new TypeRef(name, Set.of(), false, false)`: a plain type with no imports. */
  function Plain(name: string): (t: TypeRef)
    ensures t.javaType == name && t.requiredImports == [] && !t.isObject && !t.isList
  {
    NewTypeRef(name, Some([]), false, false)
  }

  /** `inferPrimitive`: the Java type of a primitive kind; a `null` kind is `Object`. */
  function InferPrimitive(kind: Option<PKind>): (t: TypeRef)
    ensures t.requiredImports == [] && !t.isObject && !t.isList
    ensures t.javaType == "String" <==> kind == Some(STRING)
    ensures t.javaType == "Boolean" <==> kind == Some(BOOLEAN)
    ensures t.javaType == "Double" <==> kind == Some(NUMBER)
    ensures t.javaType == "Object" <==> kind.None? || kind == Some(NULL)
  {
    if kind.None? then Plain("Object")
    else
      match kind.value
      case STRING => Plain("String")
      case BOOLEAN => Plain("Boolean")
      case NUMBER => Plain("Double")
      case NULL => Plain("Object")
  }

  /** The type `inferRecursive` gives one node: containers and unions are stubbed to `Object`. */
  function InferNode(node: SchemaNode): (t: TypeRef)
    ensures t.requiredImports == [] && !t.isObject && !t.isList
    ensures node.PrimitiveNode? ==> t == InferPrimitive(node.prim.pkind)
    ensures !node.PrimitiveNode? ==> t.javaType == "Object"
  {
    match node
    case PrimitiveNode(p) => InferPrimitive(p.pkind)
    case _ => Plain("Object")
  }

  /**
   * `inferRecursive`: records the node's type in `acc` and returns it. The
   * suggested class name and the path are accepted but unused, and no child is
   * visited.
   */
  method InferRecursive(node: SchemaNode, suggestedClassName: string, path: seq<string>, acc: map<SchemaNode, TypeRef>)
    returns (t: TypeRef, acc': map<SchemaNode, TypeRef>)
    ensures t == InferNode(node)
    ensures acc'.Keys == acc.Keys + {node}
    ensures acc'[node] == t
    ensures forall n :: n in acc && n != node ==> acc'[n] == acc[n]
  {
    if node.PrimitiveNode? {
      t := InferPrimitive(node.prim.pkind);
      acc' := acc[node := t];
      return;
    }
    if node.ArrayNode? {
      t := Plain("Object");
      acc' := acc[node := t];
      return;
    }
    if node.ObjectNode? {
      t := Plain("Object");
      acc' := acc[node := t];
      return;
    }
    t := Plain("Object");
    acc' := acc[node := t];
  }

  /** The root class name `inferTypes` uses: "Root" for a `null` or blank name. */
  function RootClassName(name: Option<string>): (r: string)
    ensures !IsBlank(r)
    ensures name.Some? && !IsBlank(name.value) ==> r == name.value
    ensures name.None? || IsBlank(name.value) ==> r == "Root"
  {
    if name.None? || IsBlank(name.value) then
      assert !IsWhitespace("Root"[0]);
      "Root"
    else name.value
  }

  /**
   * `inferTypes`: a `null` root is an illegal argument; otherwise the result maps
   * exactly the root to its type.
   */
  method InferTypes(root: Option<SchemaNode>, rootClassName: Option<string>)
    returns (r: Result<map<SchemaNode, TypeRef>, Failure>)
    ensures root.None? ==> r == Err(IllegalArgument("root node is null"))
    ensures root.Some? ==> r.Ok? && r.value.Keys == {root.value} && r.value[root.value] == InferNode(root.value)
  {
    if root.None? {
      return Err(IllegalArgument("root node is null"));
    }
    var name := RootClassName(rootClassName);
    var result: map<SchemaNode, TypeRef> := map[];
    var path: seq<string> := [];
    var suggested := NameConverter.ToPascalCase(Some(name));
    var t;
    t, result := InferRecursive(root.value, suggested.value, path, result);
    return Ok(result);
  }
}
