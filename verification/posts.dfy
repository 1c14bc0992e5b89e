/** The post handlers that change a loaded post: like, unlike, add comment,
    delete comment, and the owner-gated delete of a post. Each takes the
    document the lookup returned (None when there is no such post) and yields
    the document that would be saved, or the error answered. */
module Posts {
  import opened Common
  import opened Seqs
  import opened Reactions
  import opened Comments
  import opened Ownership

  /** A post: id, owning user, text, the author's name and avatar copied in at
      creation, likes and comments (both most recent first). The creation
      date is not modelled. */
  datatype Post = Post(id: string, user: UserId, text: string, name: string, avatar: string,
                       likes: seq<Reaction>, comments: seq<Comment>)

  function PostId(p: Post): string { p.id }
  function PostOwner(p: Post): UserId { p.user }

  /** PUT /like/:id. A missing post is dereferenced, which the catch block
      answers with a server error. */
  function Like(post: Option<Post>, requester: UserId): (r: Result<Post>)
    ensures post.None? ==> r == Failure(ServerError)
    ensures post.Some? ==> (r.Failure? <==> HasReacted(post.value.likes, requester))
    ensures post.Some? && r.Failure? ==> r.error == AlreadyReacted
    ensures r.Success? ==> && |r.value.likes| == |post.value.likes| + 1
                           && r.value.likes[0] == Reaction(requester)
                           && r.value.likes[1..] == post.value.likes
                           && r.value.(likes := post.value.likes) == post.value
  {
    match post
    case None => Failure(ServerError)
    case Some(p) =>
      var likes := Reactions.Add(p.likes, requester);
      if likes.Failure? then Failure(likes.error) else Success(p.(likes := likes.value))
  }

  /** PUT /unlike/:id. */
  function Unlike(post: Option<Post>, requester: UserId): (r: Result<Post>)
    ensures post.None? ==> r == Failure(ServerError)
    ensures post.Some? ==> (r.Failure? <==> !HasReacted(post.value.likes, requester))
    ensures post.Some? && r.Failure? ==> r.error == NotReacted
    ensures r.Success? ==> && |r.value.likes| == |post.value.likes| - 1
                           && RemovedFirst(post.value.likes, UserOf, requester, r.value.likes)
                           && r.value.(likes := post.value.likes) == post.value
  {
    match post
    case None => Failure(ServerError)
    case Some(p) =>
      var likes := Reactions.Remove(p.likes, requester);
      if likes.Failure? then Failure(likes.error) else Success(p.(likes := likes.value))
  }

  /** Liking, then unliking, a post the user had not liked gives back the
      post unchanged. */
  lemma LikeThenUnlike(p: Post, u: UserId)
    requires !HasReacted(p.likes, u)
    ensures Like(Some(p), u).Success?
    ensures Unlike(Some(Like(Some(p), u).value), u) == Success(p)
  {
    AddThenRemove(p.likes, u);
  }

  /** On a post whose likes hold no user twice, like and unlike keep it so,
      and after an unlike the user's like is gone. */
  lemma LikesStayUnique(p: Post, u: UserId)
    requires NoDuplicateUsers(p.likes)
    ensures Like(Some(p), u).Success? ==> NoDuplicateUsers(Like(Some(p), u).value.likes)
    ensures Unlike(Some(p), u).Success? ==> && NoDuplicateUsers(Unlike(Some(p), u).value.likes)
                                            && !HasReacted(Unlike(Some(p), u).value.likes, u)
  {
    if Like(Some(p), u).Success? { AddKeepsNoDuplicates(p.likes, u); }
    if Unlike(Some(p), u).Success? { RemoveClearsUser(p.likes, u); }
  }

  /** POST /comment/:id. The text validator runs first; then a missing post
      answers NotFound; then the comment is built from the requester's user
      document (a missing one is dereferenced: server error) and put in
      front. `newId` is the id the new comment entry is given. */
  function AddComment(post: Option<Post>, author: Option<User>, requester: UserId,
                      text: Option<string>, newId: string): (r: Result<Post>)
    ensures !Truthy(text) ==> r == Failure(ValidationError)
    ensures Truthy(text) && post.None? ==> r == Failure(NotFound)
    ensures Truthy(text) && post.Some? && author.None? ==> r == Failure(ServerError)
    ensures r.Success? <==> Truthy(text) && post.Some? && author.Some?
    ensures r.Success? ==>
              && |r.value.comments| == |post.value.comments| + 1
              && r.value.comments[0] == Comment(newId, requester, text.value, author.value.name, author.value.avatar)
              && r.value.comments[1..] == post.value.comments
              && r.value.(comments := post.value.comments) == post.value
  {
    if !Truthy(text) then Failure(ValidationError)
    else match post
      case None => Failure(NotFound)
      case Some(p) =>
        match author
        case None => Failure(ServerError)
        case Some(a) =>
          var c := Comment(newId, requester, text.value, a.name, a.avatar);
          Success(p.(comments := [c] + p.comments))
  }

  /** DELETE /comment/:id/:comment_id, as written: after the existence and
      authorship checks on the requested comment it removes the requester's
      first comment (see Comments.Delete). */
  function DeleteComment(post: Option<Post>, commentId: string, requester: UserId): (r: Result<Post>)
    ensures post.None? ==> r == Failure(ServerError)
    ensures post.Some? ==> (r == Failure(NotFound) <==> !HasKey(post.value.comments, IdOf, commentId))
    ensures post.Some? ==> (r == Failure(Unauthorized) <==>
              HasKey(post.value.comments, IdOf, commentId) && !RequestedIsBy(post.value.comments, commentId, requester))
    ensures post.Some? ==> (r.Success? <==> RequestedIsBy(post.value.comments, commentId, requester))
    ensures r.Success? ==> && |r.value.comments| == |post.value.comments| - 1
                           && RemovedFirst(post.value.comments, AuthorOf, requester, r.value.comments)
                           && r.value.(comments := post.value.comments) == post.value
  {
    match post
    case None => Failure(ServerError)
    case Some(p) =>
      var cs := Comments.Delete(p.comments, commentId, requester);
      if cs.Failure? then Failure(cs.error) else Success(p.(comments := cs.value))
  }

  /** DELETE /comment/:id/:comment_id with the defect corrected: the same
      checks, and the requested comment is the one removed. */
  function DeleteRequestedComment(post: Option<Post>, commentId: string, requester: UserId): (r: Result<Post>)
    ensures post.None? ==> r == Failure(ServerError)
    ensures post.Some? ==> (r == Failure(NotFound) <==> !HasKey(post.value.comments, IdOf, commentId))
    ensures post.Some? ==> (r == Failure(Unauthorized) <==>
              HasKey(post.value.comments, IdOf, commentId) && !RequestedIsBy(post.value.comments, commentId, requester))
    ensures post.Some? ==> (r.Success? <==> RequestedIsBy(post.value.comments, commentId, requester))
    ensures r.Success? ==> && |r.value.comments| == |post.value.comments| - 1
                           && RemovedFirst(post.value.comments, IdOf, commentId, r.value.comments)
                           && r.value.(comments := post.value.comments) == post.value
  {
    match post
    case None => Failure(ServerError)
    case Some(p) =>
      var cs := Comments.DeleteRequested(p.comments, commentId, requester);
      if cs.Failure? then Failure(cs.error) else Success(p.(comments := cs.value))
  }

  /** With unique comment ids, the corrected handler removes the requested
      comment and no other: afterwards no comment has its id, and every other
      comment stays. */
  lemma DeleteRequestedCommentRemovesIt(p: Post, commentId: string, requester: UserId)
    requires KeysUnique(p.comments, IdOf) && DeleteRequestedComment(Some(p), commentId, requester).Success?
    ensures var q := DeleteRequestedComment(Some(p), commentId, requester).value;
            && !HasKey(q.comments, IdOf, commentId)
            && exists c :: c in p.comments && c.id == commentId && c.user == requester
                           && multiset(q.comments) + multiset{c} == multiset(p.comments)
  {
    DeleteRequestedRemovesIt(p.comments, commentId, requester);
  }

  /** A comment deleted by its author straight after it was added is the one
      removed, even by the handler as written: being the newest, it is also
      the author's first comment. The post comes back unchanged. */
  lemma AddThenDeleteComment(p: Post, author: User, requester: UserId, text: string, newId: string)
    requires text != ""
    ensures AddComment(Some(p), Some(author), requester, Some(text), newId).Success?
    ensures DeleteComment(Some(AddComment(Some(p), Some(author), requester, Some(text), newId).value),
                          newId, requester) == Success(p)
  {
    var q := AddComment(Some(p), Some(author), requester, Some(text), newId).value;
    assert IsFirst(q.comments, IdOf, newId, 0);
    assert IsFirst(q.comments, AuthorOf, requester, 0);
    var out := DeleteComment(Some(q), newId, requester).value;
    var j :| IsFirst(q.comments, AuthorOf, requester, j) && out.comments == q.comments[..j] + q.comments[j + 1..];
    FirstIsUnique(q.comments, AuthorOf, requester, j, 0);
    assert out.comments == p.comments;
  }

  /** DELETE /:id on the post collection: NotFound for a missing post,
      Unauthorized unless the requester owns it; otherwise the post is
      removed. */
  function DeletePost(posts: seq<Post>, id: string, requester: UserId): (r: Result<seq<Post>>)
    ensures r == Failure(NotFound) <==> !HasKey(posts, PostId, id)
    ensures r == Failure(Unauthorized) <==>
              exists i :: IsFirst(posts, PostId, id, i) && posts[i].user != requester
    ensures r.Success? <==> exists i :: IsFirst(posts, PostId, id, i) && posts[i].user == requester
    ensures r.Success? ==> |r.value| == |posts| - 1 && RemovedFirst(posts, PostId, id, r.value)
  {
    DeleteOwned(posts, id, PostId, PostOwner, requester)
  }
}
