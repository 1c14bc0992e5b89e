/** The comment list of a post (the motorcycle schema carries the same shape):
    entries with an id, an author and a text, most recent first. Deleting a
    comment looks the comment up by id and checks that the requester wrote
    it, but then splices out the requester's FIRST comment, which need not be
    the comment that was asked for. `Delete` models that as written;
    `DeleteRequested` is the evidently intended removal. */
module Comments {
  import opened Common
  import opened Seqs

  /** A comment entry: its id, the author's user reference, the text, and the
      author's name and avatar copied in when the comment was made. The
      timestamp is not modelled. */
  datatype Comment = Comment(id: string, user: UserId, text: string, name: string, avatar: string)

  function IdOf(c: Comment): string { c.id }
  function AuthorOf(c: Comment): UserId { c.user }

  /** `cs.find(c => c.id === id)`: the first comment with that id, if any. */
  function Find(cs: seq<Comment>, id: string): (r: Option<Comment>)
    ensures r.None? <==> !HasKey(cs, IdOf, id)
    ensures r.Some? ==> exists i :: IsFirst(cs, IdOf, id, i) && r.value == cs[i]
  {
    if |cs| == 0 then None
    else if cs[0].id == id then
      assert IsFirst(cs, IdOf, id, 0);
      Some(cs[0])
    else
      var r := Find(cs[1..], id);
      if r.None? then
        assert forall i :: 1 <= i < |cs| ==> cs[i] == cs[1..][i - 1];
        None
      else
        assert exists j :: IsFirst(cs, IdOf, id, j) && r.value == cs[j] by {
          var i :| IsFirst(cs[1..], IdOf, id, i) && r.value == cs[1..][i];
          assert IsFirst(cs, IdOf, id, i + 1) by {
            forall j | 0 < j < i + 1 ensures IdOf(cs[j]) != id {
              assert cs[j] == cs[1..][j - 1];
            }
          }
        }
        r
  }

  /** The comment `id` exists and was written by `u`. */
  ghost predicate RequestedIsBy(cs: seq<Comment>, id: string, u: UserId) {
    exists i :: IsFirst(cs, IdOf, id, i) && cs[i].user == u
  }

  /** Comment deletion as the handler performs it: NotFound when no comment
      has the id, Unauthorized when that comment's author is not the
      requester, and otherwise the requester's first comment is spliced out
      (its position found with `map(c => c.user).indexOf(requester)`). */
  function Delete(cs: seq<Comment>, id: string, requester: UserId): (r: Result<seq<Comment>>)
    ensures r == Failure(NotFound) <==> !HasKey(cs, IdOf, id)
    ensures r == Failure(Unauthorized) <==> HasKey(cs, IdOf, id) && !RequestedIsBy(cs, id, requester)
    ensures r.Success? <==> RequestedIsBy(cs, id, requester)
    ensures r.Success? ==> |r.value| == |cs| - 1 && RemovedFirst(cs, AuthorOf, requester, r.value)
  {
    var c := Find(cs, id);
    if c.None? then Failure(NotFound)
    else if c.value.user != requester then
      assert !RequestedIsBy(cs, id, requester) by {
        forall i | IsFirst(cs, IdOf, id, i) ensures cs[i].user != requester {
          var k :| IsFirst(cs, IdOf, id, k) && c.value == cs[k];
          FirstIsUnique(cs, IdOf, id, i, k);
        }
      }
      Failure(Unauthorized)
    else
      assert HasKey(cs, AuthorOf, requester) by {
        var k :| IsFirst(cs, IdOf, id, k) && c.value == cs[k];
        assert AuthorOf(cs[k]) == requester;
      }
      var i := IndexOf(Map(cs, AuthorOf), requester);
      IndexOfMap(cs, AuthorOf, requester);
      Success(Splice1(cs, i))
  }

  /** The intended deletion: same checks, but the comment that is spliced
      out is the one with the requested id. */
  function DeleteRequested(cs: seq<Comment>, id: string, requester: UserId): (r: Result<seq<Comment>>)
    ensures r == Failure(NotFound) <==> !HasKey(cs, IdOf, id)
    ensures r == Failure(Unauthorized) <==> HasKey(cs, IdOf, id) && !RequestedIsBy(cs, id, requester)
    ensures r.Success? <==> RequestedIsBy(cs, id, requester)
    ensures r.Success? ==> |r.value| == |cs| - 1 && RemovedFirst(cs, IdOf, id, r.value)
  {
    var c := Find(cs, id);
    if c.None? then Failure(NotFound)
    else if c.value.user != requester then
      assert !RequestedIsBy(cs, id, requester) by {
        forall i | IsFirst(cs, IdOf, id, i) ensures cs[i].user != requester {
          var k :| IsFirst(cs, IdOf, id, k) && c.value == cs[k];
          FirstIsUnique(cs, IdOf, id, i, k);
        }
      }
      Failure(Unauthorized)
    else
      var i := IndexOf(Map(cs, IdOf), id);
      IndexOfMap(cs, IdOf, id);
      Success(Splice1(cs, i))
  }

  /** With unique comment ids, the intended deletion leaves no comment with
      the requested id and removes exactly that one comment. */
  lemma DeleteRequestedRemovesIt(cs: seq<Comment>, id: string, requester: UserId)
    requires KeysUnique(cs, IdOf) && DeleteRequested(cs, id, requester).Success?
    ensures !HasKey(DeleteRequested(cs, id, requester).value, IdOf, id)
    ensures exists c :: c in cs && c.id == id && c.user == requester
                     && multiset(DeleteRequested(cs, id, requester).value) + multiset{c} == multiset(cs)
  {
    var out := DeleteRequested(cs, id, requester).value;
    var i :| IsFirst(cs, IdOf, id, i) && out == cs[..i] + cs[i + 1..];
    var k :| IsFirst(cs, IdOf, id, k) && cs[k].user == requester;
    FirstIsUnique(cs, IdOf, id, i, k);
    SpliceRemovesKey(cs, IdOf, i);
    SpliceOut(cs, i);
  }

  /** The defect, in general: with unique ids, the requested comment
      survives the handler's deletion exactly when it is not the requester's
      first (most recent) comment. */
  lemma DeleteKeepsRequestedUnlessFirst(cs: seq<Comment>, id: string, requester: UserId, k: int)
    requires KeysUnique(cs, IdOf) && IsFirst(cs, IdOf, id, k) && Delete(cs, id, requester).Success?
    ensures HasKey(Delete(cs, id, requester).value, IdOf, id) <==> !IsFirst(cs, AuthorOf, requester, k)
  {
    var out := Delete(cs, id, requester).value;
    var j :| IsFirst(cs, AuthorOf, requester, j) && out == cs[..j] + cs[j + 1..];
    var k' :| IsFirst(cs, IdOf, id, k') && cs[k'].user == requester;
    FirstIsUnique(cs, IdOf, id, k, k');
    if j == k {
      SpliceRemovesKey(cs, IdOf, k);
    } else {
      assert j < k;
      assert out[k - 1] == cs[k];
      assert !IsFirst(cs, AuthorOf, requester, k);
    }
  }

  /** A concrete instance of the defect: a user comments twice (c1, then c2,
      so the list is [c2, c1]) and asks to delete c1. The handler answers
      success, but the list left behind is [c1]: c2 was removed instead. */
  lemma DeleteRemovesWrongComment()
    ensures
      var c1 := Comment("c1", "alice", "first", "Alice", "");
      var c2 := Comment("c2", "alice", "second", "Alice", "");
      Delete([c2, c1], "c1", "alice") == Success([c1])
      && DeleteRequested([c2, c1], "c1", "alice") == Success([c2])
  {
    var c1 := Comment("c1", "alice", "first", "Alice", "");
    var c2 := Comment("c2", "alice", "second", "Alice", "");
    var cs := [c2, c1];
    assert IsFirst(cs, IdOf, "c1", 1);
    assert IsFirst(cs, AuthorOf, "alice", 0);
    var out := Delete(cs, "c1", "alice").value;
    var j :| IsFirst(cs, AuthorOf, "alice", j) && out == cs[..j] + cs[j + 1..];
    FirstIsUnique(cs, AuthorOf, "alice", j, 0);
    assert out == [c1];
    var fixed := DeleteRequested(cs, "c1", "alice").value;
    var i :| IsFirst(cs, IdOf, "c1", i) && fixed == cs[..i] + cs[i + 1..];
    FirstIsUnique(cs, IdOf, "c1", i, 1);
    assert fixed == [c2];
  }

  /** When the requested comment is the requester's most recent one, the
      handler does remove it: the defect shows only for older comments. */
  lemma DeleteAgreesOnFirst(cs: seq<Comment>, id: string, requester: UserId, k: int)
    requires IsFirst(cs, IdOf, id, k) && IsFirst(cs, AuthorOf, requester, k)
    ensures Delete(cs, id, requester) == DeleteRequested(cs, id, requester)
  {
    var a := Delete(cs, id, requester).value;
    var b := DeleteRequested(cs, id, requester).value;
    var j :| IsFirst(cs, AuthorOf, requester, j) && a == cs[..j] + cs[j + 1..];
    var i :| IsFirst(cs, IdOf, id, i) && b == cs[..i] + cs[i + 1..];
    FirstIsUnique(cs, AuthorOf, requester, j, k);
    FirstIsUnique(cs, IdOf, id, i, k);
  }
}
