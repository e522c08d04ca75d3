/**
 * `UnpublishPost`: deletes the published post of the caller's draft and
 * turns the draft back into an unpublished one.
 */
module UnpublishPostAction {
  import opened Wrappers
  import opened Store
  import opened PublishDraftAction

  /**
   * The effect of `UnpublishPost(draftId)` called by `user`. `delete` is the
   * database's answer to deleting the post row, and `draftWriteOk` whether
   * the final draft update took effect (its result is not checked).
   */
  function UnpublishPostSpec(t: Tables, user: Option<Id>, draftId: Id, delete: WriteOutcome, draftWriteOk: bool): Outcome<()> {
    if user.None? then Outcome(t, Err("Not authenticated"))
    else if !OwnsDraft(t, user.value, draftId) then Outcome(t, Err("Draft not found"))
    else
      var d := t.drafts[draftId];
      if !IsPublished(d) then Outcome(t, Err("This post is not published"))
      else if HasPostId(d) && delete.Rejected? then Outcome(t, Err(delete.message))
      else
        var posts := if HasPostId(d) then t.posts - {d.postId.value} else t.posts;
        var drafts := if draftWriteOk then t.drafts[draftId := d.(status := Some("draft"), postId := None)] else t.drafts;
        Outcome(t.(posts := posts, drafts := drafts), Ok(()))
  }

  /** `UnpublishPost`, step by step against the database. */
  method UnpublishPost(db: Backend, user: Option<Id>, draftId: Id, delete: WriteOutcome, draftWriteOk: bool)
    returns (r: Result<(), string>)
    modifies db
    ensures var o := UnpublishPostSpec(old(db.Snapshot()), user, draftId, delete, draftWriteOk);
            db.Snapshot() == o.tables && r == o.result
  {
    if user.None? {
      return Err("Not authenticated");
    }
    if draftId !in db.drafts || db.drafts[draftId].authorId != user.value {
      return Err("Draft not found");
    }
    var draft := db.drafts[draftId];
    if draft.status != Some("published") {
      return Err("This post is not published");
    }
    if draft.postId.Some? && draft.postId.value != "" {
      if delete.Rejected? {
        return Err(delete.message);
      }
      db.posts := db.posts - {draft.postId.value};
    }
    if draftWriteOk {
      db.drafts := db.drafts[draftId := draft.(status := Some("draft"), postId := None)];
    }
    return Ok(());
  }

  /**
   * Which error is returned (no user, a draft that is missing or not the
   * caller's, a draft that is not published, a rejected delete of its
   * post with the database's message), exactly when the call succeeds, and
   * that every failure leaves the database as it was.
   */
  lemma UnpublishErrors(t: Tables, user: Option<Id>, draftId: Id, delete: WriteOutcome, draftWriteOk: bool)
    ensures var o := UnpublishPostSpec(t, user, draftId, delete, draftWriteOk);
            && (user.None? ==> o.result == Err("Not authenticated"))
            && (user.Some? && !OwnsDraft(t, user.value, draftId) ==> o.result == Err("Draft not found"))
            && ((user.Some? && OwnsDraft(t, user.value, draftId) && !IsPublished(t.drafts[draftId]))
                ==> o.result == Err("This post is not published"))
            && ((user.Some? && OwnsDraft(t, user.value, draftId) && IsPublished(t.drafts[draftId])
                 && HasPostId(t.drafts[draftId]) && delete.Rejected?)
                ==> o.result == Err(delete.message))
            && (o.result.Ok? <==> user.Some? && OwnsDraft(t, user.value, draftId) && IsPublished(t.drafts[draftId])
                                  && !(HasPostId(t.drafts[draftId]) && delete.Rejected?))
            && (o.result.Err? ==> o.tables == t)
  {
  }

  /**
   * A successful unpublish deletes the draft's post (only when it has a
   * post id), resets the draft to status `draft` with no post id and every
   * other column kept (when the unchecked update takes effect), and touches
   * nothing else.
   */
  lemma UnpublishSuccess(t: Tables, user: Option<Id>, draftId: Id, delete: WriteOutcome, draftWriteOk: bool)
    requires UnpublishPostSpec(t, user, draftId, delete, draftWriteOk).result.Ok?
    ensures var o := UnpublishPostSpec(t, user, draftId, delete, draftWriteOk);
            var d := t.drafts[draftId];
            && IsPublished(d)
            && (HasPostId(d) ==> o.tables.posts == t.posts - {d.postId.value})
            && (!HasPostId(d) ==> o.tables.posts == t.posts)
            && (draftWriteOk ==> o.tables.drafts[draftId] == Draft(d.id, d.authorId, d.fields, Some("draft"), None))
            && (forall id :: id in t.drafts && id != draftId ==> id in o.tables.drafts && o.tables.drafts[id] == t.drafts[id])
            && o.tables.categories == t.categories && o.tables.profiles == t.profiles && o.tables.blobs == t.blobs
  {
  }

  /** Unpublishing keeps published drafts and posts in agreement when the draft reset takes effect. */
  lemma UnpublishKeepsSynced(t: Tables, user: Option<Id>, draftId: Id, delete: WriteOutcome)
    requires Synced(t)
    ensures Synced(UnpublishPostSpec(t, user, draftId, delete, true).tables)
  {
    var o := UnpublishPostSpec(t, user, draftId, delete, true);
    if o.result.Ok? {
      var t2 := o.tables;
      var d := t.drafts[draftId];
      forall id | id in t2.drafts && IsPublished(t2.drafts[id]) && HasPostId(t2.drafts[id])
        ensures var e := t2.drafts[id];
                e.postId.value in t2.posts && t2.posts[e.postId.value].fields == e.fields
                && t2.posts[e.postId.value].authorId == e.authorId
      {
        assert id != draftId;
        assert t2.drafts[id] == t.drafts[id];
        if HasPostId(d) {
          assert t.drafts[id].postId != d.postId;
        }
      }
    }
  }

  /**
   * Because the draft reset is not checked, a reset that does not take
   * effect after the post was deleted leaves a draft that is still
   * published but points at a post that no longer exists.
   */
  lemma UnpublishUncheckedReset(t: Tables, user: Option<Id>, draftId: Id)
    requires user.Some? && OwnsDraft(t, user.value, draftId)
    requires IsPublished(t.drafts[draftId]) && HasPostId(t.drafts[draftId])
    ensures var o := UnpublishPostSpec(t, user, draftId, Written, false);
            var d := o.tables.drafts[draftId];
            && o.result.Ok? && IsPublished(d) && HasPostId(d) && d.postId.value !in o.tables.posts
            && !Synced(o.tables)
  {
  }

  /**
   * Publishing a fresh draft and then unpublishing it (both writes taking
   * effect) restores the posts table and leaves the draft as it was except
   * for its status, now `draft`; the copied cover file stays in the bucket.
   */
  lemma PublishThenUnpublish(
    t: Tables, user: Id, draftId: Id, newPostId: Id, copyOk: bool, delete: WriteOutcome)
    requires OwnsDraft(t, user, draftId) && !IsPublished(t.drafts[draftId]) && t.drafts[draftId].postId == None
    requires newPostId !in t.posts && newPostId != ""
    ensures var p := PublishDraftSpec(t, Some(user), draftId, newPostId, Written, copyOk, true);
            var u := UnpublishPostSpec(p.tables, Some(user), draftId, delete, true);
            && p.result.Ok?
            && (u.result.Ok? <==> delete.Written?)
            && (delete.Written? ==>
                  && u.tables.posts == t.posts
                  && u.tables.drafts == t.drafts[draftId := t.drafts[draftId].(status := Some("draft"))]
                  && t.blobs <= u.tables.blobs)
  {
    var p := PublishDraftSpec(t, Some(user), draftId, newPostId, Written, copyOk, true);
    assert p.tables.drafts[draftId].postId == Some(newPostId);
    if delete.Written? {
      var u := UnpublishPostSpec(p.tables, Some(user), draftId, delete, true);
      assert u.tables.posts == t.posts[newPostId := PostOf(t.drafts[draftId], newPostId)] - {newPostId};
      assert u.tables.posts == t.posts;
    }
  }
}
