/**
 * `UpdatePost`: saves the editor's values into a draft and, when the draft
 * is published, into its post as well.
 */
module UpdatePostAction {
  import opened Wrappers
  import opened JsString
  import opened Store

  /** The values the editor sends: the draft id and the six content fields (the document may be `null`). */
  datatype PostUpdate = PostUpdate(
    id: Id, title: string, slug: string, categoryId: Option<string>,
    description: string, image: string, content: Option<string>)

  /**
   * The category written: the trimmed id when it names an existing
   * category; `null` for a missing, blank or unknown id.
   */
  function ResolveCategory(categories: map<Id, Category>, categoryId: Option<string>): (c: Option<Id>)
    ensures c.Some? <==> categoryId.Some? && Trim(categoryId.value) != "" && Trim(categoryId.value) in categories
    ensures c.Some? ==> c.value == Trim(categoryId.value) && c.value in categories
  {
    var trimmed := if categoryId.Some? then Trim(categoryId.value) else "";
    var candidate: Option<Id> := if trimmed != "" then Some(trimmed) else None;
    if candidate.Some? && candidate.value !in categories then None else candidate
  }

  /** The six columns written to the draft, and to the post when it is synced. */
  function UpdatedFields(input: PostUpdate, category: Option<Id>): PostFields {
    PostFields(Some(input.title), Some(input.slug), category, Some(input.description), input.content, Some(input.image))
  }

  /** The posts table after the post with id `pid`, when there is one, gets `fields`. */
  function SyncedPosts(posts: map<Id, Post>, pid: Id, fields: PostFields): map<Id, Post> {
    if pid in posts then posts[pid := posts[pid].(fields := fields)] else posts
  }

  /**
   * The effect of `UpdatePost(input)`. `schemaOk` is the verdict of the post
   * update schema, `draftWrite` and `postWrite` the database's answers to
   * the draft update and to the post update.
   */
  function UpdatePostSpec(t: Tables, input: PostUpdate, schemaOk: bool, draftWrite: WriteOutcome, postWrite: WriteOutcome): Outcome<Draft> {
    if !schemaOk then Outcome(t, Err("Invalid input data"))
    else
      var category := ResolveCategory(t.categories, input.categoryId);
      if input.id !in t.drafts then Outcome(t, Err(NoRowMessage))
      else
        var d := t.drafts[input.id];
        match draftWrite
        case Rejected(_, msg) => Outcome(t, Err(msg))
        case Written =>
          var fields := UpdatedFields(input, category);
          var updated := d.(fields := fields);
          var t1 := t.(drafts := t.drafts[input.id := updated]);
          if IsPublished(d) && HasPostId(d) then
            match postWrite
            case Rejected(_, msg) => Outcome(t1, Err(msg))
            case Written =>
              Outcome(t1.(posts := SyncedPosts(t.posts, d.postId.value, fields)), Ok(updated))
          else Outcome(t1, Ok(updated))
  }

  /** What `UpdatePostSpec` gives once the draft write has gone through. */
  lemma WrittenDraftOutcome(t: Tables, input: PostUpdate, postWrite: WriteOutcome)
    requires input.id in t.drafts
    ensures var d := t.drafts[input.id];
            var fields := UpdatedFields(input, ResolveCategory(t.categories, input.categoryId));
            var updated := d.(fields := fields);
            var t1 := t.(drafts := t.drafts[input.id := updated]);
            UpdatePostSpec(t, input, true, Written, postWrite)
            == if !(IsPublished(d) && HasPostId(d)) then Outcome(t1, Ok(updated))
               else if postWrite.Rejected? then Outcome(t1, Err(postWrite.message))
               else Outcome(t1.(posts := SyncedPosts(t.posts, d.postId.value, fields)), Ok(updated))
  {
  }

  /** `UpdatePost`, step by step against the database. */
  method UpdatePost(db: Backend, input: PostUpdate, schemaOk: bool, draftWrite: WriteOutcome, postWrite: WriteOutcome)
    returns (r: Result<Draft, string>)
    modifies db
    ensures var o := UpdatePostSpec(old(db.Snapshot()), input, schemaOk, draftWrite, postWrite);
            db.Snapshot() == o.tables && r == o.result
  {
    ghost var t := db.Snapshot();
    if !schemaOk {
      return Err("Invalid input data");
    }
    var categoryId: Option<Id> := None;
    if input.categoryId.Some? && Trim(input.categoryId.value) != "" {
      categoryId := Some(Trim(input.categoryId.value));
    }
    if categoryId.Some? {
      if categoryId.value !in db.categories {
        categoryId := None;
      }
    }
    assert categoryId == ResolveCategory(t.categories, input.categoryId);
    if input.id !in db.drafts {
      return Err(NoRowMessage);
    }
    var draft := db.drafts[input.id];
    if draftWrite.Rejected? {
      return Err(draftWrite.message);
    }
    var fields := PostFields(Some(input.title), Some(input.slug), categoryId, Some(input.description), input.content, Some(input.image));
    assert fields == UpdatedFields(input, categoryId);
    var data := draft.(fields := fields);
    db.drafts := db.drafts[input.id := data];
    ghost var t1 := t.(drafts := t.drafts[input.id := data]);
    assert db.Snapshot() == t1;
    WrittenDraftOutcome(t, input, postWrite);
    if draft.status == Some("published") && draft.postId.Some? && draft.postId.value != "" {
      if postWrite.Rejected? {
        return Err(postWrite.message);
      }
      var pid := draft.postId.value;
      if pid in db.posts {
        db.posts := db.posts[pid := db.posts[pid].(fields := fields)];
      }
      assert db.Snapshot() == t1.(posts := SyncedPosts(t.posts, pid, fields));
    }
    return Ok(data);
  }

  /** Invalid input, a missing draft and a rejected draft write return an error and write nothing. */
  lemma UpdatePostEarlyErrors(t: Tables, input: PostUpdate, schemaOk: bool, draftWrite: WriteOutcome, postWrite: WriteOutcome)
    ensures var o := UpdatePostSpec(t, input, schemaOk, draftWrite, postWrite);
            && (!schemaOk ==> o == Outcome(t, Err("Invalid input data")))
            && (schemaOk && input.id !in t.drafts ==> o == Outcome(t, Err(NoRowMessage)))
            && (schemaOk && input.id in t.drafts && draftWrite.Rejected? ==> o == Outcome(t, Err(draftWrite.message)))
  {
  }

  /**
   * Once the draft write succeeds, the draft holds the six new values (with
   * the resolved category) and keeps its id, author, status and post id;
   * no other draft, category, profile or blob changes; the post changes
   * only when the draft is published with a post id and the post exists,
   * and then gets the same six values.
   */
  lemma UpdatePostWrites(t: Tables, input: PostUpdate, draftWrite: WriteOutcome, postWrite: WriteOutcome)
    requires input.id in t.drafts && draftWrite.Written?
    ensures var o := UpdatePostSpec(t, input, true, draftWrite, postWrite);
            var d := t.drafts[input.id];
            var fields := UpdatedFields(input, ResolveCategory(t.categories, input.categoryId));
            && o.tables.drafts == t.drafts[input.id := Draft(d.id, d.authorId, fields, d.status, d.postId)]
            && o.tables.categories == t.categories && o.tables.profiles == t.profiles && o.tables.blobs == t.blobs
            && (!(IsPublished(d) && HasPostId(d)) ==> o.tables.posts == t.posts && o.result == Ok(o.tables.drafts[input.id]))
            && (IsPublished(d) && HasPostId(d) && postWrite.Written? && d.postId.value in t.posts ==>
                  o.tables.posts == t.posts[d.postId.value := t.posts[d.postId.value].(fields := fields)])
            && (IsPublished(d) && HasPostId(d) && postWrite.Rejected? ==>
                  o.tables.posts == t.posts && o.result == Err(postWrite.message))
  {
  }

  /** Saving keeps published drafts and posts in agreement when both writes succeed. */
  lemma UpdatePostKeepsSynced(t: Tables, input: PostUpdate, schemaOk: bool)
    requires Synced(t)
    ensures Synced(UpdatePostSpec(t, input, schemaOk, Written, Written).tables)
  {
    var o := UpdatePostSpec(t, input, schemaOk, Written, Written);
    if schemaOk && input.id in t.drafts {
      var t2 := o.tables;
      var d := t.drafts[input.id];
      forall id | id in t2.drafts && IsPublished(t2.drafts[id]) && HasPostId(t2.drafts[id])
        ensures var e := t2.drafts[id];
                e.postId.value in t2.posts && t2.posts[e.postId.value].fields == e.fields
                && t2.posts[e.postId.value].authorId == e.authorId
      {
        if id != input.id {
          assert t2.drafts[id] == t.drafts[id];
          if IsPublished(d) && HasPostId(d) {
            assert t.drafts[id].postId != d.postId;
          }
        }
      }
    }
  }

  /**
   * A failed post sync leaves the published draft with the new values and
   * its post with the old ones: the two disagree until the next successful
   * save.
   */
  lemma UpdatePostFailedSync(t: Tables, input: PostUpdate, code: string, msg: string)
    requires input.id in t.drafts && IsPublished(t.drafts[input.id]) && HasPostId(t.drafts[input.id])
    requires var pid := t.drafts[input.id].postId.value;
             pid in t.posts && t.posts[pid].fields != UpdatedFields(input, ResolveCategory(t.categories, input.categoryId))
    ensures var o := UpdatePostSpec(t, input, true, Written, Rejected(code, msg));
            o.result == Err(msg) && !Synced(o.tables)
  {
    var o := UpdatePostSpec(t, input, true, Written, Rejected(code, msg));
    var d := o.tables.drafts[input.id];
    assert IsPublished(d) && HasPostId(d) && o.tables.posts[d.postId.value].fields != d.fields;
  }
}
