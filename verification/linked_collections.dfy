/**
 * Insertion-ordered collections as the Java code uses them.
 *
 * A `LinkedHashSet<T>` is a sequence without repeated elements, in first-insertion
 * order; `add` appends an element only when it is absent. A `LinkedHashMap<K, V>`
 * is a sequence of entries whose keys are pairwise distinct, in first-insertion
 * order; `put` replaces the value of a present key in place and appends a new key.
 * Equality on the element and key types is the one the Java collection uses: for
 * schema nodes it is reference identity, for strings it is content equality.
 */
module LinkedCollections {
  import opened Outcomes

  predicate Distinct<T(==)>(s: seq<T>) {
    forall i, j :: 0 <= i < j < |s| ==> s[i] != s[j]
  }

  /** `LinkedHashSet.add`. */
  function Add<T(==)>(s: seq<T>, x: T): (r: seq<T>)
    ensures Distinct(s) ==> Distinct(r)
    ensures |s| <= |r| && r[..|s|] == s && x in r
    ensures forall i :: 0 <= i < |r| ==> r[i] in s || r[i] == x
    ensures x in s ==> r == s
  {
    if x in s then s else s + [x]
  }

  /** `LinkedHashSet.addAll`: adds the elements of `xs` one by one, in their order. */
  function AddAll<T(==)>(s: seq<T>, xs: seq<T>): (r: seq<T>)
    ensures Distinct(s) ==> Distinct(r)
    ensures |s| <= |r| && r[..|s|] == s
    ensures forall i :: 0 <= i < |xs| ==> xs[i] in r
    ensures forall i :: 0 <= i < |r| ==> r[i] in s || r[i] in xs
    decreases |xs|
  {
    if xs == [] then s else AddAll(Add(s, xs[0]), xs[1..])
  }

  /** The keys of a linked map, in iteration order. */
  function Keys<K, V>(m: seq<(K, V)>): (ks: seq<K>)
    ensures |ks| == |m|
    ensures forall i :: 0 <= i < |m| ==> ks[i] == m[i].0
  {
    if m == [] then [] else [m[0].0] + Keys(m[1..])
  }

  /** The values of a linked map, in iteration order (`Map.values()`). */
  function Values<K, V>(m: seq<(K, V)>): (vs: seq<V>)
    ensures |vs| == |m|
    ensures forall i :: 0 <= i < |m| ==> vs[i] == m[i].1
  {
    if m == [] then [] else [m[0].1] + Values(m[1..])
  }

  /** `Map.get`, with Java's `null` for an absent key as `None`. */
  function Get<K(==), V>(m: seq<(K, V)>, k: K): (r: Option<V>)
    ensures r.None? <==> k !in Keys(m)
    ensures r.Some? ==> exists i :: 0 <= i < |m| && m[i] == (k, r.value)
    ensures Distinct(Keys(m)) ==> forall i :: 0 <= i < |m| && m[i].0 == k ==> r == Some(m[i].1)
  {
    if m == [] then None
    else if m[0].0 == k then Some(m[0].1)
    else Get(m[1..], k)
  }

  /** `LinkedHashMap.put`: a present key keeps its place and gets the new value. */
  function Put<K(==), V>(m: seq<(K, V)>, k: K, v: V): (r: seq<(K, V)>)
    requires Distinct(Keys(m))
    ensures Distinct(Keys(r))
    ensures k in Keys(m) ==>
      (|r| == |m| && forall i :: 0 <= i < |m| ==> r[i] == (if m[i].0 == k then (k, v) else m[i]))
    ensures k !in Keys(m) ==> r == m + [(k, v)]
    ensures Get(r, k) == Some(v)
  {
    if k in Keys(m) then
      seq(|m|, i requires 0 <= i < |m| => if m[i].0 == k then (k, v) else m[i])
    else
      var r := m + [(k, v)];
      assert Keys(r) == Keys(m) + [k];
      assert Get(r, k) == Some(r[|m|].1);
      r
  }

  /** Appending an entry appends its key. */
  lemma KeysAppend<K, V>(m: seq<(K, V)>, e: (K, V))
    ensures Keys(m + [e]) == Keys(m) + [e.0]
  {
  }

  /** Adding elements that are all new, and distinct, appends them in order. */
  lemma {:induction false} AddAllFresh<T>(s: seq<T>, xs: seq<T>)
    requires Distinct(s + xs)
    ensures AddAll(s, xs) == s + xs
    decreases |xs|
  {
    if xs != [] {
      assert (s + xs)[|s|] == xs[0];
      assert xs[0] !in s by {
        forall i | 0 <= i < |s|
          ensures s[i] != xs[0]
        {
          assert (s + xs)[i] == s[i];
        }
      }
      assert (s + [xs[0]]) + xs[1..] == s + xs;
      AddAllFresh(s + [xs[0]], xs[1..]);
    }
  }
}
