# Charles Motors backend: the in-memory logic of the route handlers

This project models, in Dafny, the list and record logic inside the route
handlers of a motorcycle-listing and social backend (Express and Mongoose).
Each handler loads a document, changes it in memory and saves it. The model
takes the loaded document as input and returns either the document that
would be saved or the error the handler answers with.

- **Reactions** (`reactions.dfy`): likes on posts and loves on motorcycles.
  Add rejects a user who has already reacted and otherwise puts the new
  entry in front. Remove rejects a user who has not reacted and otherwise
  splices out the user's first entry. The shared list logic is used by
  `Posts.Like`/`Unlike` and `Motorcycles.Love`/`Unlove`.
- **Comments** (`comments.dfy`, `posts.dfy`): add puts a comment in front.
  Delete checks that the requested comment exists and that the requester
  wrote it. It then removes the requester's *first* comment, which need not
  be the requested one (see Findings).
- **Owner-gated delete** (`ownership.dfy`): a post or motorcycle is removed
  from its collection only when the requester owns it.
- **Profiles** (`profiles.dfy`):
  - The create-or-update builds an update document from the truthy request
    fields. `skills` is split on `,` and each piece trimmed. The `social`
    object is rebuilt from the truthy links.
  - The document is `$set` onto the user's profile if there is one, so the
    whole `social` object is replaced; otherwise a new profile is made from
    it.
  - Experience and education entries are added in front and removed by id.
- **Supporting modules**:
  - `seqs.dfy`: JavaScript's `map`, `indexOf` and `splice(i, 1)`, including
    `splice`'s negative-start rule, and the "first entry with this key"
    notion in which removals are stated.
  - `strings.dfy`: `split` with a one-character separator, `join`, and
    `trim` over the ECMAScript whitespace set.
  - `common.dfy`: identifiers, `Option`, `Result`, the error responses and
    JavaScript truthiness of a request string.

Where a handler dereferences a document its lookup did not find (`post.likes`
on a `null` post, say), the resulting exception is caught and answered with
500. The model returns `Failure(ServerError)` there.

Two behaviours worth knowing:
- Adding an experience or education entry, or removing an experience entry,
  when the user has no profile dereferences `null` and answers 500
  (`ServerError`). Only education removal checks for the profile, and it
  answers 404 (`NotFound`).
- Motorcycle documents carry a comment list of the same shape as a post's,
  but no motorcycle route adds or deletes comments. The model carries that
  list and never edits it.

## Model

| member | source | states |
|---|---|---|
| Seqs.Map | routes/api/posts.js:167 | `map(f)` keeps the length and puts `f` of each entry at the same position |
| Seqs.IndexOf | routes/api/posts.js:166-168 | `indexOf` answers -1 exactly when the value is absent, and otherwise the position of its first occurrence |
| Seqs.Splice1 | routes/api/posts.js:170 | `splice(i, 1)` removes exactly position i and keeps the rest in order; -1 removes the last entry; a start past the end removes nothing |
| Seqs.IndexOfMap | routes/api/posts.js:166-168 | `map(key).indexOf(k)` is -1 exactly when no entry has key k, and otherwise the first entry with key k |
| Reactions.CountBy | routes/api/posts.js:131 | the count of the user's entries is positive exactly when the user has an entry |
| Reactions.Add | routes/api/posts.js:130-136 | fails with AlreadyReacted exactly when the user has an entry; otherwise the list grows by one, with the user's entry in front and the old entries after it in order |
| Reactions.Remove | routes/api/posts.js:157-170 | fails with NotReacted exactly when the user has no entry; otherwise exactly the user's first entry is spliced out and the list shrinks by one |
| Reactions.AddKeepsNoDuplicates | routes/api/posts.js:130-136 | add keeps the list free of duplicate users |
| Reactions.RemoveClearsUser | routes/api/posts.js:166-170 | on a duplicate-free list, remove keeps it duplicate-free and leaves the user with no entry |
| Reactions.RemoveTakesOneEntry | routes/api/posts.js:166-170 | remove takes away one entry of the user and every other entry stays (multiset equation) |
| Reactions.AddThenRemove | routes/api/motorcycles.js:156-190 | for a user with no entry, add then remove restores the list exactly |
| Reactions.AddTwiceFails | routes/api/posts.js:130-134 | a second add by the same user fails with AlreadyReacted |
| Reactions.FrontInsertionOrder | routes/api/posts.js:136 | reactions by two users come out most recent first |
| Comments.Find | routes/api/posts.js:238-240 | `find` answers none exactly when no comment has the id, and otherwise the first comment with the id |
| Comments.Delete | routes/api/posts.js:238-259 | NotFound exactly when no comment has the id; Unauthorized exactly when that comment's author is not the requester; otherwise the requester's first comment is spliced out and the list shrinks by one |
| Comments.DeleteRequested | routes/api/posts.js:238-259 | the same checks, with the comment bearing the requested id spliced out instead |
| Comments.DeleteRequestedRemovesIt | routes/api/posts.js:238-259 | with unique ids, the corrected delete leaves no comment with the id and removes exactly that comment, written by the requester |
| Comments.DeleteKeepsRequestedUnlessFirst | routes/api/posts.js:255-259 | with unique ids, the requested comment survives the handler's delete exactly when it is not the requester's first comment |
| Comments.DeleteRemovesWrongComment | routes/api/posts.js:255-259 | on [c2, c1], both by one user, deleting c1 answers success and leaves [c1]; the corrected delete leaves [c2] |
| Comments.DeleteAgreesOnFirst | routes/api/posts.js:255-259 | when the requested comment is the requester's first comment, the handler and the corrected delete agree |
| Ownership.DeleteOwned | routes/api/posts.js:95-108 | NotFound exactly when no document has the id; Unauthorized exactly when its owner is not the requester; Success exactly when the owner asks, and then that document is removed and the collection shrinks by one |
| Ownership.DeleteOwnedRemovesOnlyIt | routes/api/posts.js:95-108 | with unique ids, a successful delete keeps ids unique, leaves no document with the id and removes exactly the requester's document |
| Posts.Like | routes/api/posts.js:124-145 | a missing post is a server error; AlreadyReacted exactly when the user has liked; otherwise the user's like goes in front of the old likes and nothing else in the post changes |
| Posts.Unlike | routes/api/posts.js:151-178 | a missing post is a server error; NotReacted exactly when the user has not liked; otherwise the user's first like is removed and nothing else in the post changes |
| Posts.LikeThenUnlike | routes/api/posts.js:124-178 | like then unlike by a user who had not liked gives back the post unchanged |
| Posts.LikesStayUnique | routes/api/posts.js:130-170 | like and unlike keep likes free of duplicate users, and after unlike the user's like is gone |
| Posts.AddComment | routes/api/posts.js:185-226 | empty text is a validation error; a missing post is NotFound; a missing author document is a server error; otherwise a comment by the requester, with the author's name and avatar, goes in front and nothing else in the post changes |
| Posts.DeleteComment | routes/api/posts.js:232-267 | a missing post is a server error; NotFound and Unauthorized exactly as for the comment list; success exactly when the requested comment exists and the requester wrote it, and then the requester's first comment is removed and nothing else in the post changes |
| Posts.DeleteRequestedComment | routes/api/posts.js:232-267 | the delete-comment handler with the defect corrected: the same error cases, and otherwise exactly the comment with the requested id is removed and nothing else in the post changes |
| Posts.DeleteRequestedCommentRemovesIt | routes/api/posts.js:238-259 | with unique comment ids, the corrected handler leaves no comment with the id and removes exactly the requester's comment |
| Posts.AddThenDeleteComment | routes/api/posts.js:214-259 | a comment its author deletes straight after adding it is the one removed, and the post comes back unchanged |
| Posts.DeletePost | routes/api/posts.js:92-118 | NotFound exactly when no post has the id; Unauthorized exactly when the post's owner is not the requester; success exactly when the owner asks, and then that post is removed |
| Motorcycles.Love | routes/api/motorcycles.js:143-165 | a missing motorcycle is a server error; AlreadyReacted exactly when the user has loved; otherwise the user's love goes in front and nothing else changes |
| Motorcycles.Unlove | routes/api/motorcycles.js:171-198 | a missing motorcycle is a server error; NotReacted exactly when the user has not loved; otherwise the user's first love is removed and nothing else changes |
| Motorcycles.LoveThenUnlove | routes/api/motorcycles.js:156-190 | love then unlove by a user who had not loved gives back the motorcycle unchanged |
| Motorcycles.UnloveTakesOneLove | routes/api/motorcycles.js:186-190 | unlove takes away one love of the requester and every other love stays |
| Motorcycles.DeleteMotorcycle | routes/api/motorcycles.js:112-137 | NotFound exactly when no motorcycle has the id; Unauthorized exactly when its owner is not the requester; success exactly when the owner asks, and then it is removed |
| Motorcycles.LoveUnloveDeleteScenario | routes/api/motorcycles.js:112-198 | B loves A's motorcycle (loves become [B]), unloves it (back to the original), and A's delete removes it, while B's delete is refused |
| Strings.Split | routes/api/profile.js:74 | `split(d)` yields at least one piece, none containing the separator (with JoinSplit and SplitJoin this determines the pieces) |
| Strings.TrimAll | routes/api/profile.js:74 | `map((skill) => skill.trim())` keeps the number of pieces and trims each piece in place |
| Strings.TrimIsTrim | routes/api/profile.js:74 | `trim` cuts only whitespace off either end and leaves no whitespace at either end |
| Strings.TrimIsUnique | routes/api/profile.js:74 | that description has exactly one answer, so it defines `trim` completely |
| Strings.TrimIdempotent | routes/api/profile.js:74 | trimming twice is trimming once |
| Strings.JoinSplit | routes/api/profile.js:74 | joining the pieces of a split with the separator gives back the string |
| Strings.SplitJoin | routes/api/profile.js:74 | a non-empty list of separator-free pieces is recovered by splitting its join |
| Strings.SplitCount | routes/api/profile.js:74 | a split yields one more piece than there are separators |
| Profiles.ParseSkills | routes/api/profile.js:73-75 | there is one skill per comma plus one |
| Profiles.ParseSkillsPieces | routes/api/profile.js:73-75 | the skills are the comma-separated pieces of the input, in order, each trimmed, and those pieces join back to the input |
| Profiles.ParseSkillsOfPieces | routes/api/profile.js:73-75 | for any separator-free pieces joined by commas, the skills are exactly those pieces trimmed |
| Profiles.ParseSkillsExample | routes/api/profile.js:73-75 | "Road, Touring ,Vintage" gives Road, Touring, Vintage |
| Profiles.ParseSkillsKeepsEmpty | routes/api/profile.js:73-75 | "a,, ,b" gives a, "", "", b: empty pieces are kept |
| Profiles.BuildFields | routes/api/profile.js:64-83 | the update document holds the user, exactly the truthy scalar fields, the parsed skills exactly when skills are truthy, and exactly the truthy social links |
| Profiles.ApplySet | routes/api/profile.js:89-93 | after `$set`, a scalar field the document holds is overwritten and one it lacks keeps its stored value |
| Profiles.Create | routes/api/profile.js:99 | a new profile holds exactly the scalar fields the document holds |
| Profiles.Upsert | routes/api/profile.js:43-106 | a validation error exactly when status or skills are missing or empty; otherwise the returned profile belongs to the user, is in the collection, has the parsed skills and every supplied scalar field, and has exactly the truthy social links |
| Profiles.UpsertUpdatesExisting | routes/api/profile.js:86-95 | for a user with a profile, that profile is replaced in place; omitted or empty fields keep their values; the entry lists are kept; stored links not resent are gone |
| Profiles.UpsertCreatesNew | routes/api/profile.js:98-101 | for a user without a profile, a new one is appended holding exactly the truthy fields, with empty entry lists |
| Profiles.UpsertKeepsOneProfilePerUser | routes/api/profile.js:86-101 | with one profile per user before, an upsert leaves one profile per user, the user's being the returned one, and other users' profiles unchanged |
| Profiles.AddExperience | routes/api/profile.js:170-213 | missing title, company or start date is a validation error; a missing profile is a server error; otherwise the entry goes in front and nothing else changes |
| Profiles.RemoveExperience | routes/api/profile.js:219-242 | a missing profile is a server error; EntryNotFound exactly when no entry has the id; otherwise exactly the first entry with the id is removed and nothing else changes |
| Profiles.AddThenRemoveExperience | routes/api/profile.js:203-233 | adding an entry under a fresh id and removing that id gives back the profile |
| Profiles.RemoveExperienceClearsId | routes/api/profile.js:224-233 | with unique entry ids, removal leaves no entry with the id and keeps ids unique |
| Profiles.AddEducation | routes/api/profile.js:248-289 | missing school, degree, field of study or start date is a validation error; a missing profile is a server error; otherwise the entry goes in front and nothing else changes |
| Profiles.RemoveEducation | routes/api/profile.js:295-324 | a missing profile is NotFound; EntryNotFound exactly when no entry has the id; otherwise exactly the first entry with the id is removed and nothing else changes |
| Profiles.AddThenRemoveEducation | routes/api/profile.js:280-315 | adding an entry under a fresh id and removing that id gives back the profile |
| Profiles.RemoveEducationClearsId | routes/api/profile.js:307-315 | with unique entry ids, removal leaves no entry with the id and keeps ids unique |

## Left out

- Routing, authentication middleware and `express-validator` wiring are not modelled. The non-empty checks become the predicates `ValidRequest`, `ValidExperience`, `ValidEducation` and the text check of `Posts.AddComment`, each answering `ValidationError`.
- Persistence is not modelled: `findById`, `findOne`, `save`, `findOneAndUpdate`, `deleteOne` and `populate`. A loaded document is an `Option` input (None for a lookup that found nothing). A collection is a sequence searched for its first match.
- The ObjectId cast-error branches (`err.kind === 'ObjectId'`) are left out, because they are framework behaviour on malformed ids.
- Ids of new comments and entries are an input (`newId`), because the database assigns them. Timestamps (`Date.now`) are not modelled.
- The add-experience handler calls `save()` without waiting for it, so it answers before the save finishes and a failed save is never answered with 500. Saving is persistence and is not modelled; the model returns the profile that would be saved.
- Concurrent requests are not modelled, so neither is the read-modify-write race between them.
- The read-only handlers, post and motorcycle creation, and profile and user deletion are left out: they copy fields or call the database with no logic of their own. So is the GitHub repository proxy, which is an outside HTTP call.
- Truthiness is modelled for string request values only. A non-string `skills` value, such as an array, is not modelled; the handler would call `split` on it.
- Motorcycle maintenance history, insurance, social links and creation date are not modelled, since no modelled handler reads them.
- Strings are sequences of Unicode characters, not UTF-16 code units, so a character outside the Basic Multilingual Plane is one `char` here rather than a surrogate pair. Splitting on `,` and trimming the fixed ECMAScript whitespace set are unaffected.

## Findings

| source | as written | input that shows it | evidently intended | confidence | as-written member | corrected member |
|---|---|---|---|---|---|---|
| routes/api/posts.js:255-259 | after checking that comment `comment_id` exists and was written by the requester, the handler splices out the position of the requester's first comment (`map(c => c.user).indexOf(requester)`) | a user comments c1, then c2 (list [c2, c1]), then deletes c1: the answer is success and the list left is [c1] | splice out the comment whose id is `comment_id` | high; not executed | Comments.Delete, Comments.DeleteRemovesWrongComment | Comments.DeleteRequested, Comments.DeleteRequestedRemovesIt |

`Posts.DeleteComment` models the handler as written, using `Comments.Delete`. `Posts.DeleteRequestedComment` is the corrected handler, using `Comments.DeleteRequested`.
