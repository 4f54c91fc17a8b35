/**
 * `JsonAnalyzer`: turns a parsed JSON value tree into a tree of freshly allocated
 * schema nodes. Schema merging is a stub that keeps its first argument, so a
 * non-empty array records only the schema of its first element.
 */
module JsonAnalyzer {
  import opened Outcomes
  import opened LinkedCollections
  import opened Schema

  /** Jackson's `JsonNode`, as far as the analyzer inspects it. */
  datatype Json =
    | JNull
    | JBool(b: bool)
    | JNumber
    | JString(text: string)
    | JArray(elements: seq<Json>)
    | JObject(members: seq<(string, Json)>)
    | JOther  // binary, POJO and missing nodes

  /** What Jackson guarantees of an object node: its field names are distinct. */
  ghost predicate WellFormed(j: Json)
    decreases j
  {
    match j
    case JArray(es) => forall i :: 0 <= i < |es| ==> WellFormed(es[i])
    case JObject(ms) => Distinct(Keys(ms)) && forall i :: 0 <= i < |ms| ==> WellFormed(ms[i].1)
    case _ => true
  }

  /** The primitive kind `visit` gives a node that is neither object nor array. */
  function ScalarKind(j: Json): (k: PKind)
    requires !j.JObject? && !j.JArray?
    ensures k == NUMBER <==> j.JNumber?
    ensures k == BOOLEAN <==> j.JBool?
    ensures k == NULL <==> j.JNull?
    ensures k == STRING <==> j.JString? || j.JOther?
  {
    match j
    case JString(_) => STRING
    case JNumber => NUMBER
    case JBool(_) => BOOLEAN
    case JNull => NULL
    case JOther => STRING
  }

  /**
   * `s` (with every node below it ranked in `rank`) is the schema `visit` builds
   * for `j`: a primitive of the scalar's kind; an object whose keys are the JSON keys
   * in order, each `presentOnce` with the schema of its value; an empty array flagged
   * empty with no element types; a non-empty array not flagged empty whose only
   * element type is the schema of its first element.
   */
  ghost predicate Describes(rank: map<SchemaNode, nat>, s: SchemaNode, j: Json)
    reads Footprint(rank.Keys)
    decreases j
  {
    && s in rank
    && match j
       case JObject(ms) =>
         && s.ObjectNode?
         && |s.obj.fields| == |ms|
         && forall i :: 0 <= i < |ms| ==>
              && s.obj.fields[i].0 == ms[i].0
              && s.obj.fields[i].1 == PresentOnce(s.obj.fields[i].1.schema)
              && Describes(rank, s.obj.fields[i].1.schema, ms[i].1)
       case JArray(es) =>
         && s.ArrayNode?
         && s.arr.empty == (es == [])
         && (if es == [] then s.arr.elementTypes == []
             else |s.arr.elementTypes| == 1 && Describes(rank, s.arr.elementTypes[0], es[0]))
       case _ =>
         s.PrimitiveNode? && s.prim.pkind == Some(ScalarKind(j))
  }

  lemma {:induction false} DescribesGrow(r1: map<SchemaNode, nat>, r2: map<SchemaNode, nat>, s: SchemaNode, j: Json)
    requires r1.Keys <= r2.Keys
    requires Describes(r1, s, j)
    ensures Describes(r2, s, j)
    decreases j
  {
    match j
    case JObject(ms) =>
      forall i | 0 <= i < |ms|
        ensures Describes(r2, s.obj.fields[i].1.schema, ms[i].1)
      {
        DescribesGrow(r1, r2, s.obj.fields[i].1.schema, ms[i].1);
      }
    case JArray(es) =>
      if es != [] {
        DescribesGrow(r1, r2, s.arr.elementTypes[0], es[0]);
      }
    case _ =>
  }

  /** `visit` never produces a union: the analyzer itself never creates one. */
  lemma DescribesNoUnion(rank: map<SchemaNode, nat>, s: SchemaNode, j: Json)
    requires Describes(rank, s, j)
    ensures !s.UnionNode?
  {
  }

  /** Nodes allocated by a call are not among those that existed before it. */
  twostate lemma FreshDisjoint(older: map<SchemaNode, nat>, new newer: map<SchemaNode, nat>)
    requires old(allocated(Footprint(older.Keys)))
    requires fresh(Footprint(newer.Keys))
    ensures older.Keys !! newer.Keys
  {
    forall n | n in older.Keys
      ensures n !in newer.Keys
    {
      assert n.Ref() in Footprint(older.Keys);
      assert n.Ref() !in Footprint(newer.Keys);
    }
  }

  /** An object that existed before a call is not among the nodes it allocated. */
  twostate lemma FreshExcludes(so: SchemaObject, new newer: map<SchemaNode, nat>)
    requires old(allocated(so))
    requires fresh(Footprint(newer.Keys))
    ensures so !in Footprint(newer.Keys)
  {
  }

  /** `mergeSchemas`: a stub that drops `b` whenever `a` is present. */
  function MergeSchemas(a: Option<SchemaNode>, b: Option<SchemaNode>): (r: Option<SchemaNode>)
    ensures a.None? ==> r == b
    ensures a.Some? ==> r == a
  {
    if a.None? then b
    else if b.None? then a
    else a
  }

  /** `analyze`: `null` becomes a NULL primitive, anything else is visited. */
  method Analyze(root: Option<Json>) returns (s: SchemaNode, ghost rank: map<SchemaNode, nat>)
    requires root.Some? ==> WellFormed(root.value)
    ensures Ranked(rank) && s in rank && fresh(Footprint(rank.Keys))
    ensures root.None? ==> s.PrimitiveNode? && s.prim.pkind == Some(NULL)
    ensures root.Some? ==> Describes(rank, s, root.value)
  {
    if root.None? {
      var p := new SchemaPrimitive(Some(NULL));
      s := PrimitiveNode(p);
      rank := map[s := 0];
      return;
    }
    s, rank := Visit(root.value);
  }

  method Visit(j: Json) returns (s: SchemaNode, ghost rank: map<SchemaNode, nat>)
    requires WellFormed(j)
    ensures Ranked(rank) && fresh(Footprint(rank.Keys))
    ensures Describes(rank, s, j)
    ensures forall n :: n in rank ==> rank[n] <= rank[s]
    decreases j, 2
  {
    if j.JObject? {
      s, rank := VisitObject(j);
      return;
    }
    if j.JArray? {
      s, rank := VisitArray(j);
      return;
    }
    var p := new SchemaPrimitive(Some(ScalarKind(j)));
    s := PrimitiveNode(p);
    rank := map[s := 0];
  }

  /**
   * The first `|fields|` members of an object and the fields built for them so far:
   * same keys in the same order, each `presentOnce` with the schema of its value.
   */
  ghost predicate FieldsDescribe(rank: map<SchemaNode, nat>, fields: seq<(string, FieldInfo)>, ms: seq<(string, Json)>)
    reads Footprint(rank.Keys)
  {
    && |fields| == |ms|
    && forall k :: 0 <= k < |ms| ==>
         && fields[k].0 == ms[k].0
         && fields[k].1 == PresentOnce(fields[k].1.schema)
         && Describes(rank, fields[k].1.schema, ms[k].1)
  }

  lemma FieldsDescribeGrow(r1: map<SchemaNode, nat>, r2: map<SchemaNode, nat>, fields: seq<(string, FieldInfo)>, ms: seq<(string, Json)>)
    requires r1.Keys <= r2.Keys
    requires FieldsDescribe(r1, fields, ms)
    ensures FieldsDescribe(r2, fields, ms)
  {
    forall k | 0 <= k < |ms|
      ensures Describes(r2, fields[k].1.schema, ms[k].1)
    {
      DescribesGrow(r1, r2, fields[k].1.schema, ms[k].1);
    }
  }

  /** The next member of a well-formed object has a key not yet among the fields. */
  lemma NextKeyFresh(rank: map<SchemaNode, nat>, fields: seq<(string, FieldInfo)>, ms: seq<(string, Json)>, i: nat)
    requires i < |ms| && Distinct(Keys(ms))
    requires FieldsDescribe(rank, fields, ms[..i])
    ensures ms[i].0 !in Keys(fields)
  {
    forall k | 0 <= k < |fields|
      ensures Keys(fields)[k] != ms[i].0
    {
      assert Keys(fields)[k] == Keys(ms)[k] && Keys(ms)[i] == ms[i].0;
    }
  }

  lemma FieldsDescribeAppend(rank: map<SchemaNode, nat>, fields: seq<(string, FieldInfo)>, ms: seq<(string, Json)>, i: nat, child: SchemaNode)
    requires i < |ms|
    requires FieldsDescribe(rank, fields, ms[..i])
    requires Describes(rank, child, ms[i].1)
    ensures FieldsDescribe(rank, fields + [(ms[i].0, PresentOnce(child))], ms[..i + 1])
  {
    assert ms[..i + 1] == ms[..i] + [ms[i]];
  }

  /** One more member visited: its key is new and the fields still describe the members so far. */
  lemma MemberStep(before: map<SchemaNode, nat>, childRank: map<SchemaNode, nat>, fields: seq<(string, FieldInfo)>,
                   ms: seq<(string, Json)>, i: nat, childSchema: SchemaNode)
    requires i < |ms| && Distinct(Keys(ms))
    requires FieldsDescribe(before, fields, ms[..i])
    requires Describes(childRank, childSchema, ms[i].1)
    ensures ms[i].0 !in Keys(fields)
    ensures FieldsDescribe(before + childRank, fields + [(ms[i].0, PresentOnce(childSchema))], ms[..i + 1])
  {
    var rank := before + childRank;
    FieldsDescribeGrow(before, rank, fields, ms[..i]);
    DescribesGrow(childRank, rank, childSchema, ms[i].1);
    NextKeyFresh(rank, fields, ms, i);
    FieldsDescribeAppend(rank, fields, ms, i, childSchema);
  }

  method VisitObject(j: Json) returns (s: SchemaNode, ghost rank: map<SchemaNode, nat>)
    requires j.JObject? && WellFormed(j)
    ensures Ranked(rank) && fresh(Footprint(rank.Keys))
    ensures Describes(rank, s, j)
    ensures forall n :: n in rank ==> rank[n] <= rank[s]
    decreases j, 1
  {
    var so := new SchemaObject();
    ghost var top: nat;
    rank, top := VisitMembers(so, j);
    s := ObjectNode(so);
    ObjectRanked(rank, s, j.members, top);
    FootprintInsert(rank, s, top);
    rank := rank[s := top];
  }

  /** The loop of `visitObject`: one `presentOnce` field per member, in order, each with the schema of its value. */
  method VisitMembers(so: SchemaObject, j: Json) returns (ghost rank: map<SchemaNode, nat>, ghost top: nat)
    requires j.JObject? && WellFormed(j)
    requires so.fields == []
    modifies so
    ensures Ranked(rank) && fresh(Footprint(rank.Keys))
    ensures forall n :: n in rank ==> rank[n] < top
    ensures FieldsDescribe(rank, so.fields, j.members)
    decreases j, 0
  {
    var ms := j.members;
    rank := map[];
    top := 0;
    var i := 0;
    while i < |ms|
      invariant 0 <= i <= |ms|
      invariant Ranked(rank) && fresh(Footprint(rank.Keys)) && so !in Footprint(rank.Keys)
      invariant forall n :: n in rank ==> rank[n] < top
      invariant Distinct(Keys(so.fields))
      invariant FieldsDescribe(rank, so.fields, ms[..i])
    {
      ghost var before := rank;
      var fields := so.fields;
      label PreVisit:
      var childSchema: SchemaNode;
      ghost var childRank: map<SchemaNode, nat>;
      childSchema, childRank := Visit(ms[i].1);
      FreshDisjoint@PreVisit(before, childRank);
      FreshExcludes@PreVisit(so, childRank);
      RankedJoin(before, childRank);
      rank := before + childRank;
      top := if top < childRank[childSchema] + 1 then childRank[childSchema] + 1 else top;
      MemberStep(before, childRank, fields, ms, i, childSchema);
      assert so !in Footprint(rank.Keys);
      so.fields := Put(fields, ms[i].0, PresentOnce(childSchema));
      assert so.fields == fields + [(ms[i].0, PresentOnce(childSchema))];
      i := i + 1;
    }
    assert ms[..i] == ms;
  }

  /** A new object node whose fields describe the members ranks above them and is described itself. */
  lemma ObjectRanked(rank: map<SchemaNode, nat>, s: SchemaNode, ms: seq<(string, Json)>, top: nat)
    requires Ranked(rank) && s.ObjectNode? && s.obj !in Footprint(rank.Keys)
    requires forall n :: n in rank ==> rank[n] < top
    requires FieldsDescribe(rank, s.obj.fields, ms)
    ensures Ranked(rank[s := top])
    ensures Describes(rank[s := top], s, JObject(ms))
  {
    var r := rank[s := top];
    forall n | n in rank
      ensures n != s
    {
      assert n.Ref() in Footprint(rank.Keys);
    }
    FieldsDescribeGrow(rank, r, s.obj.fields, ms);
    forall n, i | n in r && 0 <= i < |Children(n)|
      ensures Children(n)[i] in r && r[Children(n)[i]] < r[n]
    {
      if n == s {
        assert Children(n)[i] == s.obj.fields[i].1.schema;
        assert Describes(rank, s.obj.fields[i].1.schema, ms[i].1);
      }
    }
  }

  method VisitArray(j: Json) returns (s: SchemaNode, ghost rank: map<SchemaNode, nat>)
    requires j.JArray? && WellFormed(j)
    ensures Ranked(rank) && fresh(Footprint(rank.Keys))
    ensures Describes(rank, s, j)
    ensures forall n :: n in rank ==> rank[n] <= rank[s]
    decreases j, 0
  {
    var sa := new SchemaArray();
    var es := j.elements;
    if |es| == 0 {
      sa.SetEmpty(true);
      s := ArrayNode(sa);
      rank := map[s := 0];
      return;
    }

    var acc: Option<SchemaNode> := None;
    rank := map[];
    ghost var top: nat := 0;
    for i := 0 to |es|
      invariant Ranked(rank) && fresh(Footprint(rank.Keys)) && sa !in Footprint(rank.Keys)
      invariant forall n :: n in rank ==> rank[n] < top
      invariant acc.None? <==> i == 0
      invariant acc.Some? ==> Describes(rank, acc.value, es[0])
      invariant sa.elementTypes == [] && !sa.empty
    {
      ghost var before := rank;
      label PreVisit:
      var elemSchema: SchemaNode;
      ghost var elemRank: map<SchemaNode, nat>;
      elemSchema, elemRank := Visit(es[i]);
      FreshDisjoint@PreVisit(before, elemRank);
      RankedJoin(before, elemRank);
      rank := rank + elemRank;
      top := if top < elemRank[elemSchema] + 1 then elemRank[elemSchema] + 1 else top;
      if acc.Some? {
        DescribesGrow(before, rank, acc.value, es[0]);
      } else {
        DescribesGrow(elemRank, rank, elemSchema, es[0]);
      }
      acc := if acc.None? then Some(elemSchema) else MergeSchemas(acc, Some(elemSchema));
    }

    DescribesNoUnion(rank, acc.value, es[0]);
    AddFoldResult(sa, acc.value);
    s := ArrayNode(sa);
    assert sa.elementTypes == [acc.value];
    ArrayRanked(rank, s, es, acc.value, top);
    FootprintInsert(rank, s, top);
    rank := rank[s := top];
  }

  /** A new non-empty array node whose one element type describes the first element ranks above it and is described itself. */
  lemma ArrayRanked(rank: map<SchemaNode, nat>, s: SchemaNode, es: seq<Json>, elem: SchemaNode, top: nat)
    requires Ranked(rank) && s.ArrayNode? && s.arr !in Footprint(rank.Keys)
    requires forall n :: n in rank ==> rank[n] < top
    requires es != [] && !s.arr.empty && s.arr.elementTypes == [elem]
    requires Describes(rank, elem, es[0])
    ensures Ranked(rank[s := top])
    ensures Describes(rank[s := top], s, JArray(es))
  {
    var r := rank[s := top];
    forall n | n in rank
      ensures n != s
    {
      assert n.Ref() in Footprint(rank.Keys);
    }
    DescribesGrow(rank, r, elem, es[0]);
    forall n, i | n in r && 0 <= i < |Children(n)|
      ensures Children(n)[i] in r && r[Children(n)[i]] < r[n]
    {
      if n == s {
        assert Children(n)[i] == elem;
      }
    }
  }

  /**
   * The end of `visitArray`: a union fold result contributes its variants to
   * `elementTypes`, any other result is added itself.
   */
  method AddFoldResult(sa: SchemaArray, acc: SchemaNode)
    modifies sa
    ensures sa.empty == old(sa.empty)
    ensures acc.UnionNode? ==> sa.elementTypes == AddAll(old(sa.elementTypes), old(acc.uni.variants))
    ensures !acc.UnionNode? ==> sa.elementTypes == Add(old(sa.elementTypes), acc)
  {
    match acc
    case UnionNode(u) =>
      sa.elementTypes := AddAll(sa.elementTypes, u.variants);
    case _ =>
      sa.elementTypes := Add(sa.elementTypes, acc);
  }
}
