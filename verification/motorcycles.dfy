/** The motorcycle handlers that change a loaded motorcycle: love, unlove,
    and the owner-gated delete. The schema's comment list has the same shape
    as a post's, but no motorcycle route edits it. */
module Motorcycles {
  import opened Common
  import opened Seqs
  import opened Reactions
  import opened Comments
  import opened Ownership

  /** A motorcycle listing: id, owning user, the descriptive fields, loves
      and comments (both most recent first). Maintenance history, insurance,
      social links and the creation date are not modelled. */
  datatype Motorcycle = Motorcycle(
    id: string, user: UserId, make: string, model: string, year: int, price: real,
    kind: string, engineCapacity: string, mileage: Option<real>, color: Option<string>,
    status: string, accessories: seq<string>,
    loves: seq<Reaction>, comments: seq<Comment>)

  function MotorcycleId(m: Motorcycle): string { m.id }
  function MotorcycleOwner(m: Motorcycle): UserId { m.user }

  /** PUT /love/:id. A missing motorcycle is dereferenced, which the catch
      block answers with a server error. */
  function Love(moto: Option<Motorcycle>, requester: UserId): (r: Result<Motorcycle>)
    ensures moto.None? ==> r == Failure(ServerError)
    ensures moto.Some? ==> (r.Failure? <==> HasReacted(moto.value.loves, requester))
    ensures moto.Some? && r.Failure? ==> r.error == AlreadyReacted
    ensures r.Success? ==> && |r.value.loves| == |moto.value.loves| + 1
                           && r.value.loves[0] == Reaction(requester)
                           && r.value.loves[1..] == moto.value.loves
                           && r.value.(loves := moto.value.loves) == moto.value
  {
    match moto
    case None => Failure(ServerError)
    case Some(m) =>
      var loves := Reactions.Add(m.loves, requester);
      if loves.Failure? then Failure(loves.error) else Success(m.(loves := loves.value))
  }

  /** PUT /unlove/:id. */
  function Unlove(moto: Option<Motorcycle>, requester: UserId): (r: Result<Motorcycle>)
    ensures moto.None? ==> r == Failure(ServerError)
    ensures moto.Some? ==> (r.Failure? <==> !HasReacted(moto.value.loves, requester))
    ensures moto.Some? && r.Failure? ==> r.error == NotReacted
    ensures r.Success? ==> && |r.value.loves| == |moto.value.loves| - 1
                           && RemovedFirst(moto.value.loves, UserOf, requester, r.value.loves)
                           && r.value.(loves := moto.value.loves) == moto.value
  {
    match moto
    case None => Failure(ServerError)
    case Some(m) =>
      var loves := Reactions.Remove(m.loves, requester);
      if loves.Failure? then Failure(loves.error) else Success(m.(loves := loves.value))
  }

  /** Loving, then unloving, a motorcycle the user had not loved gives back
      the motorcycle unchanged. */
  lemma LoveThenUnlove(m: Motorcycle, u: UserId)
    requires !HasReacted(m.loves, u)
    ensures Love(Some(m), u).Success?
    ensures Unlove(Some(Love(Some(m), u).value), u) == Success(m)
  {
    AddThenRemove(m.loves, u);
  }

  /** Unlove takes away exactly one love of the requester; every other love
      stays, in its order. */
  lemma UnloveTakesOneLove(m: Motorcycle, u: UserId)
    requires Unlove(Some(m), u).Success?
    ensures multiset(Unlove(Some(m), u).value.loves) + multiset{Reaction(u)} == multiset(m.loves)
  {
    RemoveTakesOneEntry(m.loves, u);
  }

  /** DELETE /:id on the motorcycle collection: NotFound for a missing
      motorcycle, Unauthorized unless the requester owns it; otherwise it is
      removed. */
  function DeleteMotorcycle(motos: seq<Motorcycle>, id: string, requester: UserId): (r: Result<seq<Motorcycle>>)
    ensures r == Failure(NotFound) <==> !HasKey(motos, MotorcycleId, id)
    ensures r == Failure(Unauthorized) <==>
              exists i :: IsFirst(motos, MotorcycleId, id, i) && motos[i].user != requester
    ensures r.Success? <==> exists i :: IsFirst(motos, MotorcycleId, id, i) && motos[i].user == requester
    ensures r.Success? ==> |r.value| == |motos| - 1 && RemovedFirst(motos, MotorcycleId, id, r.value)
  {
    DeleteOwned(motos, id, MotorcycleId, MotorcycleOwner, requester)
  }

  /** The listing lifecycle: B loves A's motorcycle (loves become [B]), B
      unloves it (loves become []), A deletes it, and it is gone. */
  lemma LoveUnloveDeleteScenario(m: Motorcycle, a: UserId, b: UserId)
    requires m.user == a && m.loves == []
    ensures Love(Some(m), b).Success? && Love(Some(m), b).value.loves == [Reaction(b)]
    ensures Unlove(Some(Love(Some(m), b).value), b) == Success(m)
    ensures DeleteMotorcycle([m], m.id, a) == Success([])
    ensures DeleteMotorcycle([m], m.id, b) == Failure(Unauthorized) <==> a != b
  {
    LoveThenUnlove(m, b);
    assert IsFirst([m], MotorcycleId, m.id, 0);
  }
}
