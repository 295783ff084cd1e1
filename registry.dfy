/** What the item-type and entity-data-type catalogs share: the versioned
    mapping document, the resolution of a name to a wire id, and the
    name and id indexes that every `define` extends with two `put`s. */
module Registry {
  import opened Common

  /** A mapping document: bucket name (a version's `name()`) to symbolic name to wire id. */
  type Document = map<string, map<string, int>>

  /** The id a type gets when its bucket does not mention it. */
  const UNMAPPED: int := -1

  /** The `IllegalStateException` thrown when the bucket itself is missing. */
  datatype MappingError = MissingMappings(bucket: string)

  /** Ids as the document's authors write them: never negative. */
  ghost predicate WellFormed(doc: Document) {
    forall bucket, name | bucket in doc && name in doc[bucket] :: doc[bucket][name] >= 0
  }

  /** The id of `name` in the bucket `bucket` of `doc`: the mapped value, the
      sentinel when the bucket lacks the name, an error when the bucket is missing. */
  function ResolveId(doc: Document, bucket: string, name: string): (r: Result<int, MappingError>)
    ensures r.Failure? <==> bucket !in doc
    ensures r.Failure? ==> r.error == MissingMappings(bucket)
    ensures r.Success? && name !in doc[bucket] ==> r.value == UNMAPPED
    ensures r.Success? && name in doc[bucket] ==> r.value == doc[bucket][name]
  {
    if bucket in doc then
      var ids := doc[bucket];
      if name in ids then Success(ids[name]) else Success(UNMAPPED)
    else
      Failure(MissingMappings(bucket))
  }

  /** In a well-formed document the sentinel is unambiguous: a name resolves to
      it exactly when its (present) bucket does not mention it. */
  lemma SentinelMeansUnmapped(doc: Document, bucket: string, name: string)
    requires WellFormed(doc)
    ensures ResolveId(doc, bucket, name) == Success(UNMAPPED) <==> bucket in doc && name !in doc[bucket]
  {
    if bucket in doc && name in doc[bucket] {
      assert doc[bucket][name] >= 0;
    }
  }

  /** The map left by `put`ting every pair of `pairs` into an empty map, in order. */
  function Assign<K, V>(pairs: seq<(K, V)>): map<K, V> {
    if pairs == [] then map[]
    else
      var last := pairs[|pairs| - 1];
      Assign(pairs[..|pairs| - 1])[last.0 := last.1]
  }

  /** The position of the last pair whose key is `k`, if any. */
  function LastIndexOf<K(==), V>(pairs: seq<(K, V)>, k: K): (r: Option<nat>)
    ensures r.Some? ==> r.value < |pairs| && pairs[r.value].0 == k
    ensures r.Some? ==> forall j :: r.value < j < |pairs| ==> pairs[j].0 != k
    ensures r.None? ==> forall j :: 0 <= j < |pairs| ==> pairs[j].0 != k
  {
    if pairs == [] then None
    else if pairs[|pairs| - 1].0 == k then Some(|pairs| - 1)
    else LastIndexOf(pairs[..|pairs| - 1], k)
  }

  /** Appending a pair is one more `put`. */
  lemma AssignAppend<K, V>(pairs: seq<(K, V)>, k: K, v: V)
    ensures Assign(pairs + [(k, v)]) == Assign(pairs)[k := v]
  {
    assert (pairs + [(k, v)])[..|pairs|] == pairs;
  }

  /** Last writer wins: a key is present exactly when some pair wrote it, and it
      holds the value of the last such pair. */
  lemma {:induction false} LastWriterWins<K, V>(pairs: seq<(K, V)>, k: K)
    ensures k in Assign(pairs) <==> LastIndexOf(pairs, k).Some?
    ensures k in Assign(pairs) ==> Assign(pairs)[k] == pairs[LastIndexOf(pairs, k).value].1
  {
    if pairs != [] {
      LastWriterWins(pairs[..|pairs| - 1], k);
    }
  }

  /** A later pair with the same key hides an earlier one for good. */
  lemma Shadowed<K, V>(pairs: seq<(K, V)>, i: nat, j: nat)
    requires i < j < |pairs| && pairs[i].0 == pairs[j].0
    ensures pairs[i].0 in Assign(pairs)
    ensures LastIndexOf(pairs, pairs[i].0).value >= j
    ensures Assign(pairs)[pairs[i].0] == pairs[LastIndexOf(pairs, pairs[i].0).value].1
  {
    LastWriterWins(pairs, pairs[i].0);
  }
}
