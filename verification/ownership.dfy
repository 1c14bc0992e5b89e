/** The owner check that gates deletion of a post or a motorcycle: the
    document is looked up by id in its collection, a missing document answers
    NotFound, a document whose owning user is not the requester answers
    Unauthorized, and only the owner's request removes it. */
module Ownership {
  import opened Common
  import opened Seqs

  /** Delete the document with id `id` from `docs` on behalf of `requester`.
      `idOf` and `ownerOf` read a document's id and owning user (compared as
      strings, as the handlers do with `toString()`). */
  function DeleteOwned<T>(docs: seq<T>, id: string, idOf: T -> string, ownerOf: T -> UserId,
                          requester: UserId): (r: Result<seq<T>>)
    ensures r == Failure(NotFound) <==> !HasKey(docs, idOf, id)
    ensures r == Failure(Unauthorized) <==>
              exists i :: IsFirst(docs, idOf, id, i) && ownerOf(docs[i]) != requester
    ensures r.Success? <==>
              exists i :: IsFirst(docs, idOf, id, i) && ownerOf(docs[i]) == requester
    ensures r.Success? ==> |r.value| == |docs| - 1 && RemovedFirst(docs, idOf, id, r.value)
  {
    var i := IndexOf(Map(docs, idOf), id);
    IndexOfMap(docs, idOf, id);
    if i < 0 then Failure(NotFound)
    else
      OnlyFirst(docs, idOf, id, i);
      if ownerOf(docs[i]) != requester then Failure(Unauthorized)
      else Success(Splice1(docs, i))
  }

  /** The first position keyed `id` is the only one. */
  lemma OnlyFirst<T>(docs: seq<T>, idOf: T -> string, id: string, i: int)
    requires IsFirst(docs, idOf, id, i)
    ensures forall j :: IsFirst(docs, idOf, id, j) ==> j == i
  {
    forall j | IsFirst(docs, idOf, id, j) ensures j == i {
      FirstIsUnique(docs, idOf, id, i, j);
    }
  }

  /** In a collection with unique ids, a successful delete removes exactly
      the requester's document with that id, and every other document stays. */
  lemma DeleteOwnedRemovesOnlyIt<T>(docs: seq<T>, id: string, idOf: T -> string,
                                    ownerOf: T -> UserId, requester: UserId)
    requires KeysUnique(docs, idOf) && DeleteOwned(docs, id, idOf, ownerOf, requester).Success?
    ensures KeysUnique(DeleteOwned(docs, id, idOf, ownerOf, requester).value, idOf)
    ensures !HasKey(DeleteOwned(docs, id, idOf, ownerOf, requester).value, idOf, id)
    ensures exists d :: d in docs && idOf(d) == id && ownerOf(d) == requester
                     && multiset(DeleteOwned(docs, id, idOf, ownerOf, requester).value) + multiset{d} == multiset(docs)
  {
    var out := DeleteOwned(docs, id, idOf, ownerOf, requester).value;
    var i :| IsFirst(docs, idOf, id, i) && out == docs[..i] + docs[i + 1..];
    var k :| IsFirst(docs, idOf, id, k) && ownerOf(docs[k]) == requester;
    FirstIsUnique(docs, idOf, id, i, k);
    SpliceKeepsKeysUnique(docs, idOf, i);
    SpliceRemovesKey(docs, idOf, i);
    SpliceOut(docs, i);
  }
}
