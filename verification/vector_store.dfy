/** The vector-store collection the services write to, as a value: the
    sequence of records added so far, oldest first.  Similarity ranking
    and embedding computation happen inside the store and are not modelled. */
module VectorStore {
  import opened Wrappers

  /** One stored record.  `pageNumber` is the `page_number` metadata when
      the caller supplies it; `embedding` is `None` when the store embeds
      the document itself. */
  datatype Entry<E> = Entry(id: string, document: string, pageNumber: Option<nat>, embedding: Option<E>)

  type Collection<E> = seq<Entry<E>>

  /** `collection.add(...)` of a single record: it goes after every
      existing record and nothing else changes. */
  function Add<E>(c: Collection<E>, e: Entry<E>): (r: Collection<E>)
    ensures |r| == |c| + 1 && r[|c|] == e
    ensures forall i :: 0 <= i < |c| ==> r[i] == c[i]
  {
    c + [e]
  }

  ghost predicate DistinctIds<E>(c: Collection<E>) {
    forall i, j :: 0 <= i < j < |c| ==> c[i].id != c[j].id
  }

  ghost predicate HasId<E>(c: Collection<E>, id: string) {
    exists i :: 0 <= i < |c| && c[i].id == id
  }

  /** The first `n` draws of an id oracle are pairwise different and none
      of them is already used in `c` — what `uuid4()` is relied on for. */
  ghost predicate FreshDraws<E>(uuid: nat -> string, n: nat, c: Collection<E>) {
    && (forall i, j :: 0 <= i < j < n ==> uuid(i) != uuid(j))
    && (forall i :: 0 <= i < n ==> !HasId(c, uuid(i)))
  }

  /** Appending records whose ids are fresh draws to a collection with
      distinct ids keeps the ids distinct. */
  lemma AppendFreshKeepsDistinct<E>(c: Collection<E>, out: Collection<E>, uuid: nat -> string, n: nat)
    requires |out| == |c| + n && out[..|c|] == c
    requires forall i :: 0 <= i < n ==> out[|c| + i].id == uuid(i)
    requires DistinctIds(c) && FreshDraws(uuid, n, c)
    ensures DistinctIds(out)
  {
    forall a, b | 0 <= a < b < |out|
      ensures out[a].id != out[b].id
    {
      if a >= |c| {
        assert out[a].id == uuid(a - |c|);
        assert out[b].id == uuid(b - |c|);
      } else if b >= |c| {
        assert out[a] == c[a];
        assert out[b].id == uuid(b - |c|);
        assert !HasId(c, uuid(b - |c|));
      } else {
        assert out[a] == c[a] && out[b] == c[b];
      }
    }
  }
}
