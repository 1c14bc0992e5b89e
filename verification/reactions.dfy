/** The reaction list shared by Post likes and Motorcycle loves: entries that
    each name one user, most recent first. Adding rejects a user who already
    has an entry; removing rejects a user who has none and otherwise splices
    out that user's first entry. */
module Reactions {
  import opened Common
  import opened Seqs

  datatype Reaction = Reaction(user: UserId)

  function UserOf(r: Reaction): UserId { r.user }

  /** Some entry of `rs` belongs to `u`. */
  ghost predicate HasReacted(rs: seq<Reaction>, u: UserId) {
    HasKey(rs, UserOf, u)
  }

  /** No user appears twice in the list. */
  ghost predicate NoDuplicateUsers(rs: seq<Reaction>) {
    KeysUnique(rs, UserOf)
  }

  /** `rs.filter(r => r.user.toString() === u).length`: the number of
      entries belonging to `u`. */
  function CountBy(rs: seq<Reaction>, u: UserId): (n: nat)
    ensures n <= |rs|
    ensures n > 0 <==> HasReacted(rs, u)
  {
    if |rs| == 0 then 0
    else
      var n := CountBy(rs[1..], u);
      assert HasReacted(rs[1..], u) ==> HasReacted(rs, u) by {
        if HasReacted(rs[1..], u) {
          var i :| 0 <= i < |rs[1..]| && UserOf(rs[1..][i]) == u;
          assert UserOf(rs[i + 1]) == u;
        }
      }
      (if rs[0].user == u then 1 else 0) + n
  }

  /** The add entry point (like, love): rejects a user who already reacted,
      otherwise puts a new entry for the user in front. */
  function Add(rs: seq<Reaction>, u: UserId): (r: Result<seq<Reaction>>)
    ensures r.Failure? <==> HasReacted(rs, u)
    ensures r.Failure? ==> r.error == AlreadyReacted
    ensures r.Success? ==> |r.value| == |rs| + 1 && r.value[0] == Reaction(u) && r.value[1..] == rs
  {
    if CountBy(rs, u) > 0 then Failure(AlreadyReacted)
    else Success([Reaction(u)] + rs)
  }

  /** The remove entry point (unlike, unlove): rejects a user who has not
      reacted, otherwise splices out the user's first entry, whose position
      it finds with `map(...).indexOf(u)`. */
  function Remove(rs: seq<Reaction>, u: UserId): (r: Result<seq<Reaction>>)
    ensures r.Failure? <==> !HasReacted(rs, u)
    ensures r.Failure? ==> r.error == NotReacted
    ensures r.Success? ==> |r.value| == |rs| - 1 && RemovedFirst(rs, UserOf, u, r.value)
  {
    if CountBy(rs, u) == 0 then Failure(NotReacted)
    else
      var i := IndexOf(Map(rs, UserOf), u);
      IndexOfMap(rs, UserOf, u);
      Success(Splice1(rs, i))
  }

  /** Adding keeps the list free of duplicate users. */
  lemma AddKeepsNoDuplicates(rs: seq<Reaction>, u: UserId)
    requires NoDuplicateUsers(rs) && Add(rs, u).Success?
    ensures NoDuplicateUsers(Add(rs, u).value)
  {
    var out := Add(rs, u).value;
    forall i, j | 0 <= i < j < |out| ensures UserOf(out[i]) != UserOf(out[j]) {
      assert out[j] == rs[j - 1];
      if i > 0 { assert out[i] == rs[i - 1]; }
    }
  }

  /** Removing keeps the list free of duplicates, and on such a list leaves
      the user with no entry at all. */
  lemma RemoveClearsUser(rs: seq<Reaction>, u: UserId)
    requires NoDuplicateUsers(rs) && Remove(rs, u).Success?
    ensures NoDuplicateUsers(Remove(rs, u).value)
    ensures !HasReacted(Remove(rs, u).value, u)
  {
    var i :| IsFirst(rs, UserOf, u, i) && Remove(rs, u).value == rs[..i] + rs[i + 1..];
    SpliceKeepsKeysUnique(rs, UserOf, i);
    SpliceRemovesKey(rs, UserOf, i);
  }

  /** Removing takes away one entry of `u` and leaves every other entry. */
  lemma RemoveTakesOneEntry(rs: seq<Reaction>, u: UserId)
    requires Remove(rs, u).Success?
    ensures multiset(Remove(rs, u).value) + multiset{Reaction(u)} == multiset(rs)
  {
    var i :| IsFirst(rs, UserOf, u, i) && Remove(rs, u).value == rs[..i] + rs[i + 1..];
    SpliceOut(rs, i);
  }

  /** Adding, then removing, the reaction of a user who had none restores the
      list exactly. */
  lemma AddThenRemove(rs: seq<Reaction>, u: UserId)
    requires !HasReacted(rs, u)
    ensures Add(rs, u).Success?
    ensures Remove(Add(rs, u).value, u) == Success(rs)
  {
    var out := Add(rs, u).value;
    var i :| IsFirst(out, UserOf, u, i) && Remove(out, u).value == out[..i] + out[i + 1..];
    assert IsFirst(out, UserOf, u, 0);
    FirstIsUnique(out, UserOf, u, i, 0);
    assert out[..0] + out[1..] == rs;
  }

  /** A second add by the same user is rejected and changes nothing. */
  lemma AddTwiceFails(rs: seq<Reaction>, u: UserId)
    requires Add(rs, u).Success?
    ensures Add(Add(rs, u).value, u) == Failure(AlreadyReacted)
  {
    assert UserOf(Add(rs, u).value[0]) == u;
  }

  /** Reactions by two users come out most recent first. */
  lemma FrontInsertionOrder(rs: seq<Reaction>, u1: UserId, u2: UserId)
    requires !HasReacted(rs, u1) && !HasReacted(rs, u2) && u1 != u2
    ensures Add(rs, u1).Success?
    ensures Add(Add(rs, u1).value, u2) == Success([Reaction(u2), Reaction(u1)] + rs)
  {
    var once := Add(rs, u1).value;
    assert once == [once[0]] + once[1..];
    assert !HasReacted(once, u2) by {
      forall i | 0 <= i < |once| ensures UserOf(once[i]) != u2 {
        if i > 0 { assert once[i] == rs[i - 1]; }
      }
    }
    var twice := Add(once, u2).value;
    assert twice == [twice[0]] + twice[1..];
    assert twice == [Reaction(u2)] + ([Reaction(u1)] + rs);
    assert [Reaction(u2)] + ([Reaction(u1)] + rs) == [Reaction(u2), Reaction(u1)] + rs;
  }
}
