/**
 * `PublishDraft`: copies the caller's draft into a new `posts` row, copies
 * its cover image to the post's folder, and marks the draft published.
 */
module PublishDraftAction {
  import opened Wrappers
  import opened JsString
  import opened Store

  const SlugTakenMessage := "A post with this slug already exists. Change the slug and try again."

  /** The path of a cover image in the bucket: `author/folder/file`. */
  function CoverPath(authorId: Id, folder: Id, file: string): string {
    authorId + "/" + folder + "/" + file
  }

  /** The cover copy is attempted: the trimmed image name, the author and the new post id are all non-empty. */
  predicate CopiesCover(d: Draft, postId: Id) {
    d.fields.image.Some? && Trim(d.fields.image.value) != "" && d.authorId != "" && postId != ""
  }

  /** The draft lookup, filtered by id and by author, finds a row. */
  predicate OwnsDraft(t: Tables, user: Id, draftId: Id) {
    draftId in t.drafts && t.drafts[draftId].authorId == user
  }

  /** The `posts` row inserted for a draft. */
  function PostOf(d: Draft, postId: Id): Post {
    Post(postId, d.authorId, d.fields, true)
  }

  /** The bucket after the cover copy (when it is attempted, the source file exists and the storage call succeeds). */
  function CopyCover(blobs: set<string>, d: Draft, draftId: Id, postId: Id, copyOk: bool): set<string> {
    if CopiesCover(d, postId) && copyOk && CoverPath(d.authorId, draftId, Trim(d.fields.image.value)) in blobs
    then blobs + {CoverPath(d.authorId, postId, Trim(d.fields.image.value))}
    else blobs
  }

  /**
   * The effect of `PublishDraft(draftId)` called by `user` (`None` when not
   * signed in). `newPostId` is the id the database gives the new post,
   * `insert` its answer to the insert, `copyOk` the storage answer to the
   * cover copy, and `draftWriteOk` whether the final draft update took
   * effect (its result is not checked).
   */
  function PublishDraftSpec(
    t: Tables, user: Option<Id>, draftId: Id, newPostId: Id,
    insert: WriteOutcome, copyOk: bool, draftWriteOk: bool): Outcome<string>
  {
    if user.None? then Outcome(t, Err("Not authenticated"))
    else if !OwnsDraft(t, user.value, draftId) then Outcome(t, Err("Draft not found"))
    else
      var d := t.drafts[draftId];
      if IsPublished(d) then Outcome(t, Err("This draft is already published"))
      else
        match insert
        case Rejected(code, msg) => Outcome(t, Err(if code == UniqueViolation then SlugTakenMessage else msg))
        case Written =>
          var post := PostOf(d, newPostId);
          var drafts := if draftWriteOk then t.drafts[draftId := d.(status := Some("published"), postId := Some(newPostId))] else t.drafts;
          Outcome(
            t.(posts := t.posts[newPostId := post], blobs := CopyCover(t.blobs, d, draftId, newPostId, copyOk), drafts := drafts),
            Ok(post.fields.slug.GetOr(d.fields.slug.GetOr(""))))
  }

  /** `PublishDraft`, step by step against the database. */
  method PublishDraft(
    db: Backend, user: Option<Id>, draftId: Id, newPostId: Id,
    insert: WriteOutcome, copyOk: bool, draftWriteOk: bool) returns (r: Result<string, string>)
    modifies db
    ensures var o := PublishDraftSpec(old(db.Snapshot()), user, draftId, newPostId, insert, copyOk, draftWriteOk);
            db.Snapshot() == o.tables && r == o.result
  {
    if user.None? {
      return Err("Not authenticated");
    }
    if draftId !in db.drafts || db.drafts[draftId].authorId != user.value {
      return Err("Draft not found");
    }
    var draft := db.drafts[draftId];
    if draft.status == Some("published") {
      return Err("This draft is already published");
    }
    if insert.Rejected? {
      if insert.code == UniqueViolation {
        return Err(SlugTakenMessage);
      }
      return Err(insert.message);
    }
    var post := Post(newPostId, draft.authorId, draft.fields, true);
    db.posts := db.posts[newPostId := post];
    if draft.fields.image.Some? && Trim(draft.fields.image.value) != "" && draft.authorId != "" && newPostId != "" {
      var file := Trim(draft.fields.image.value);
      var fromPath := CoverPath(draft.authorId, draftId, file);
      var toPath := CoverPath(draft.authorId, newPostId, file);
      if copyOk && fromPath in db.blobs {
        db.blobs := db.blobs + {toPath};
      }
    }
    if draftWriteOk {
      db.drafts := db.drafts[draftId := draft.(status := Some("published"), postId := Some(newPostId))];
    }
    return Ok(post.fields.slug.GetOr(draft.fields.slug.GetOr("")));
  }

  /** Every failure leaves the database as it was: no post row, no blob, no draft change. */
  lemma PublishFailureChangesNothing(
    t: Tables, user: Option<Id>, draftId: Id, newPostId: Id, insert: WriteOutcome, copyOk: bool, draftWriteOk: bool)
    ensures var o := PublishDraftSpec(t, user, draftId, newPostId, insert, copyOk, draftWriteOk);
            o.result.Err? ==> o.tables == t
  {
  }

  /**
   * Which error is returned: no user, then a draft that is missing or not the
   * caller's, then an already published draft, then the insert's error
   * (the duplicate-slug code has its own message); success otherwise.
   */
  lemma PublishErrors(
    t: Tables, user: Option<Id>, draftId: Id, newPostId: Id, insert: WriteOutcome, copyOk: bool, draftWriteOk: bool)
    ensures var r := PublishDraftSpec(t, user, draftId, newPostId, insert, copyOk, draftWriteOk).result;
            && (user.None? ==> r == Err("Not authenticated"))
            && (user.Some? && !OwnsDraft(t, user.value, draftId) ==> r == Err("Draft not found"))
            && ((user.Some? && OwnsDraft(t, user.value, draftId) && IsPublished(t.drafts[draftId]))
                ==> r == Err("This draft is already published"))
            && ((user.Some? && OwnsDraft(t, user.value, draftId) && !IsPublished(t.drafts[draftId]) && insert.Rejected?)
                ==> r == Err(if insert.code == UniqueViolation then SlugTakenMessage else insert.message))
            && (r.Ok? <==> user.Some? && OwnsDraft(t, user.value, draftId) && !IsPublished(t.drafts[draftId]) && insert.Written?)
  {
  }

  /**
   * A successful publish inserts exactly one post, a copy of the draft's
   * author and content marked published, marks the draft published with
   * that post's id (when the unchecked draft update takes effect), returns
   * the draft's slug or `""`, and touches no category or profile.
   */
  lemma PublishSuccess(
    t: Tables, user: Option<Id>, draftId: Id, newPostId: Id, insert: WriteOutcome, copyOk: bool, draftWriteOk: bool)
    requires PublishDraftSpec(t, user, draftId, newPostId, insert, copyOk, draftWriteOk).result.Ok?
    ensures var o := PublishDraftSpec(t, user, draftId, newPostId, insert, copyOk, draftWriteOk);
            var d := t.drafts[draftId];
            && o.tables.posts == t.posts[newPostId := Post(newPostId, d.authorId, d.fields, true)]
            && o.tables.posts[newPostId].fields == d.fields
            && (draftWriteOk ==> o.tables.drafts == t.drafts[draftId := d.(status := Some("published"), postId := Some(newPostId))])
            && (!draftWriteOk ==> o.tables.drafts == t.drafts)
            && o.result == Ok(d.fields.slug.GetOr(""))
            && o.tables.categories == t.categories && o.tables.profiles == t.profiles
  {
  }

  /**
   * The cover copy: the bucket gains the post-folder path exactly when the
   * trimmed image name is non-empty, the author and post id are non-empty,
   * the draft-folder file exists and the copy succeeds; a failed copy does
   * not fail the publish.
   */
  lemma PublishCover(
    t: Tables, user: Option<Id>, draftId: Id, newPostId: Id, insert: WriteOutcome, copyOk: bool, draftWriteOk: bool)
    requires user.Some? && OwnsDraft(t, user.value, draftId) && !IsPublished(t.drafts[draftId]) && insert.Written?
    ensures var o := PublishDraftSpec(t, user, draftId, newPostId, insert, copyOk, draftWriteOk);
            var d := t.drafts[draftId];
            && o.result.Ok?
            && (if CopiesCover(d, newPostId) && copyOk && CoverPath(d.authorId, draftId, Trim(d.fields.image.value)) in t.blobs
                then o.tables.blobs == t.blobs + {CoverPath(d.authorId, newPostId, Trim(d.fields.image.value))}
                else o.tables.blobs == t.blobs)
  {
  }

  /**
   * Publishing keeps published drafts and posts in agreement, provided the
   * database hands out a post id that is not already taken.
   */
  lemma PublishKeepsSynced(
    t: Tables, user: Option<Id>, draftId: Id, newPostId: Id, insert: WriteOutcome, copyOk: bool, draftWriteOk: bool)
    requires Synced(t) && newPostId !in t.posts && newPostId != ""
    ensures Synced(PublishDraftSpec(t, user, draftId, newPostId, insert, copyOk, draftWriteOk).tables)
  {
    var o := PublishDraftSpec(t, user, draftId, newPostId, insert, copyOk, draftWriteOk);
    if o.result.Ok? && draftWriteOk {
      var t2 := o.tables;
      var d := t.drafts[draftId];
      forall id | id in t2.drafts && IsPublished(t2.drafts[id]) && HasPostId(t2.drafts[id])
        ensures var e := t2.drafts[id];
                e.postId.value in t2.posts && t2.posts[e.postId.value].fields == e.fields
                && t2.posts[e.postId.value].authorId == e.authorId
      {
        if id != draftId {
          assert t2.drafts[id] == t.drafts[id];
          assert t.drafts[id].postId.value != newPostId;
        }
      }
      forall a, b | a in t2.drafts && b in t2.drafts && a != b
          && IsPublished(t2.drafts[a]) && HasPostId(t2.drafts[a]) && IsPublished(t2.drafts[b]) && HasPostId(t2.drafts[b])
        ensures t2.drafts[a].postId != t2.drafts[b].postId
      {
        if a == draftId {
          assert t.drafts[b].postId.value in t.posts;
        } else if b == draftId {
          assert t.drafts[a].postId.value in t.posts;
        }
      }
    }
  }
}
