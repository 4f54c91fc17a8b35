/**
 * The schema node model: the observed shape of a JSON document, not its values.
 *
 * Java's abstract `SchemaNode` with its four final subclasses becomes four classes
 * (one per subclass, with the subclass's own fields) and the datatype `SchemaNode`,
 * which holds a reference to one of them. Two `SchemaNode` values are equal exactly
 * when they hold the same object, so sequences and maps keyed by `SchemaNode` are
 * identity-keyed, as every collection of nodes in the Java code is (`SchemaNode`
 * overrides neither `equals` nor `hashCode`).
 */
module Schema {
  import opened Outcomes
  import opened LinkedCollections

  /** `SchemaNode.Kind`. */
  datatype Kind = OBJECT | ARRAY | PRIMITIVE | UNION

  /** `SchemaPrimitive.PKind`. */
  datatype PKind = STRING | NUMBER | BOOLEAN | NULL

  /** A primitive schema; `pkind` may be Java `null`, which the type inferencer handles. */
  class SchemaPrimitive {
    const pkind: Option<PKind>

    constructor (pkind: Option<PKind>)
      ensures this.pkind == pkind
    {
      this.pkind := pkind;
    }
  }

  /**
   * `SchemaObject.FieldInfo`: the schema of one field and how often it was observed.
   * No method changes a `FieldInfo` after construction, so it is a value here.
   */
  datatype FieldInfo = FieldInfo(schema: SchemaNode, presentCount: int, totalSamples: int)
  {
    /**
     * ASSUMED DEFINITION: `optional()` is called by the model graph builder but not
     * defined in the shown `SchemaObject`; it is taken to be `presentCount < totalSamples`.
     */
    predicate Optional() {
      presentCount < totalSamples
    }
  }

  /**
   * ASSUMED DEFINITION: `FieldInfo.presentOnce(s)` is called by the analyzer but not
   * defined in the shown `SchemaObject`; it is taken to be `FieldInfo(s, 1, 1)`.
   */
  function PresentOnce(schema: SchemaNode): (f: FieldInfo)
    ensures f.schema == schema && f.presentCount == 1 && f.totalSamples == 1
    ensures !f.Optional()
  {
    FieldInfo(schema, 1, 1)
  }

  /** An object schema: `fields` is the live, insertion-ordered `fields()` map. */
  class SchemaObject {
    var fields: seq<(string, FieldInfo)>

    constructor ()
      ensures fields == []
    {
      fields := [];
    }
  }

  /** An array schema: `elementTypes` is the live identity-keyed `elementTypes()` set. */
  class SchemaArray {
    var elementTypes: seq<SchemaNode>
    var empty: bool

    constructor ()
      ensures elementTypes == [] && !IsEmpty()
    {
      elementTypes := [];
      empty := false;
    }

    /** `isEmpty`: whether an empty array was observed. */
    function IsEmpty(): bool
      reads this
    {
      empty
    }

    method SetEmpty(empty: bool)
      modifies this
      ensures IsEmpty() == empty
      ensures elementTypes == old(elementTypes)
    {
      this.empty := empty;
    }
  }

  /** A union schema: `variants` is the live identity-keyed `variants()` set. */
  class SchemaUnion {
    var variants: seq<SchemaNode>

    constructor ()
      ensures variants == []
    {
      variants := [];
    }

    /**
     * `addVariant`: `null` is ignored, a union contributes its variants (it is never
     * added itself), any other node is added unless that very instance is present.
     */
    method AddVariant(node: Option<SchemaNode>)
      modifies this
      ensures node.None? ==> variants == old(variants)
      ensures node.Some? && node.value.UnionNode? ==>
        variants == AddAll(old(variants), old(node.value.uni.variants))
      ensures node.Some? && !node.value.UnionNode? ==> variants == Add(old(variants), node.value)
      ensures UnionFree(old(variants)) && (node.Some? && node.value.UnionNode? ==> UnionFree(old(node.value.uni.variants)))
        ==> UnionFree(variants)
    {
      if node.None? {
        return;
      }
      match node.value
      case UnionNode(u) =>
        variants := AddAll(variants, u.variants);
      case _ =>
        variants := Add(variants, node.value);
    }
  }

  /** A reference to a schema node of one of the four kinds. */
  datatype SchemaNode =
    | PrimitiveNode(prim: SchemaPrimitive)
    | ObjectNode(obj: SchemaObject)
    | ArrayNode(arr: SchemaArray)
    | UnionNode(uni: SchemaUnion)
  {
    /** `kind()`, fixed by the subclass constructor. */
    function Kind(): Kind {
      match this
      case PrimitiveNode(_) => PRIMITIVE
      case ObjectNode(_) => OBJECT
      case ArrayNode(_) => ARRAY
      case UnionNode(_) => UNION
    }

    /** The object this node is. */
    function Ref(): object {
      match this
      case PrimitiveNode(p) => p
      case ObjectNode(o) => o
      case ArrayNode(a) => a
      case UnionNode(u) => u
    }
  }

  /** The field schemas of an object, in key order. */
  function FieldSchemas(fields: seq<(string, FieldInfo)>): (r: seq<SchemaNode>)
    ensures |r| == |fields|
    ensures forall i :: 0 <= i < |fields| ==> r[i] == fields[i].1.schema
  {
    seq(|fields|, i requires 0 <= i < |fields| => fields[i].1.schema)
  }

  /** The nodes directly below `n`: field schemas, element types or variants. */
  function Children(n: SchemaNode): seq<SchemaNode>
    reads n.Ref()
  {
    match n
    case PrimitiveNode(_) => []
    case ObjectNode(o) => FieldSchemas(o.fields)
    case ArrayNode(a) => a.elementTypes
    case UnionNode(u) => u.variants
  }

  /** No node of `s` is a union: what flattening keeps true of a union's variants. */
  predicate UnionFree(s: seq<SchemaNode>) {
    forall i :: 0 <= i < |s| ==> !s[i].UnionNode?
  }

  /** The objects that make up a set of nodes. */
  function Footprint(nodes: set<SchemaNode>): set<object> {
    set n | n in nodes :: n.Ref()
  }

  /**
   * A ranking of schema nodes: every child of a ranked node is ranked, strictly
   * lower. A node graph has such a ranking exactly when it has no cycle below the
   * ranked nodes; the ranks are the termination measure of the recursive passes.
   */
  ghost predicate Ranked(rank: map<SchemaNode, nat>)
    reads Footprint(rank.Keys)
  {
    forall n, i :: n in rank && 0 <= i < |Children(n)| ==>
      Children(n)[i] in rank && rank[Children(n)[i]] < rank[n]
  }

  /** Two rankings of disjoint node sets combine into one. */
  lemma RankedJoin(r1: map<SchemaNode, nat>, r2: map<SchemaNode, nat>)
    requires Ranked(r1) && Ranked(r2)
    requires r1.Keys !! r2.Keys
    ensures Ranked(r1 + r2)
    ensures Footprint((r1 + r2).Keys) == Footprint(r1.Keys) + Footprint(r2.Keys)
  {
    var r := r1 + r2;
    forall n, i | n in r && 0 <= i < |Children(n)|
      ensures Children(n)[i] in r && r[Children(n)[i]] < r[n]
    {
      if n in r1 {
        assert Children(n)[i] in r1;
      } else {
        assert Children(n)[i] in r2;
      }
    }
  }

  /** Ranking one more node adds exactly that node's object to the footprint. */
  lemma FootprintInsert(rank: map<SchemaNode, nat>, n: SchemaNode, r: nat)
    ensures Footprint(rank[n := r].Keys) == Footprint(rank.Keys) + {n.Ref()}
  {
    assert rank[n := r].Keys == rank.Keys + {n};
  }
}
