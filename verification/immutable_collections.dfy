/** The immutable list, set and map combinators that the graph and network
    updates are built from. Every operation returns a fresh value; the
    arguments, being Dafny values, cannot change. */
module ImmutableCollections {

  /** All elements of `a`, then all elements of `b`. */
  function Concat<T>(a: seq<T>, b: seq<T>): (r: seq<T>)
    ensures |r| == |a| + |b|
    ensures forall i :: 0 <= i < |a| ==> r[i] == a[i]
    ensures forall j :: 0 <= j < |b| ==> r[|a| + j] == b[j]
  {
    a + b
  }

  /** The set of elements found in either argument. */
  function Union<T>(a: set<T>, b: set<T>): (r: set<T>)
    ensures a <= r && b <= r
    ensures forall x | x in r :: x in a || x in b
  {
    a + b
  }

  /** Every entry of `a` and `b`; on a key present in both, `b` wins. */
  function Merge<K, V>(a: map<K, V>, b: map<K, V>): (r: map<K, V>)
    ensures r.Keys == a.Keys + b.Keys
    ensures forall k :: k in b ==> r[k] == b[k]
    ensures forall k :: k in a && k !in b ==> r[k] == a[k]
  {
    a + b
  }

  /** Merging a single entry overrides exactly that key and keeps the rest. */
  lemma MergeSingleton<K, V>(a: map<K, V>, k: K, v: V)
    ensures Merge(a, map[k := v]) == a[k := v]
  {
  }
}
