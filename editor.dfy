/**
 * The post editor: the form's starting values, the cover-image sync, the
 * buttons it shows, and the save, publish and unpublish handlers that call
 * the server actions in sequence.
 */
module Editor {
  import opened Wrappers
  import opened JsString
  import opened Store
  import opened PublishDraftAction
  import opened UnpublishPostAction
  import opened UpdatePostAction

  /** The most gallery images a post may have. */
  const GalleryCapacity := 9

  /** `allowedNumberOfImages`: how many more gallery images the upload dialog accepts. */
  function AllowedNumberOfImages(galleryCount: nat): (n: int)
    ensures n + galleryCount == GalleryCapacity
    ensures galleryCount <= GalleryCapacity ==> 0 <= n <= GalleryCapacity
  {
    GalleryCapacity - galleryCount
  }

  /** `validCategoryIds`: the ids of the categories offered, in order. */
  function CategoryIds(categories: seq<Category>): (ids: seq<Id>)
    ensures |ids| == |categories| && forall i :: 0 <= i < |ids| ==> ids[i] == categories[i].id
  {
    seq(|categories|, i requires 0 <= i < |categories| => categories[i].id)
  }

  /** `defaultCategoryId`: the post's category when it is offered, else the first category's, else `""`. */
  function DefaultCategoryId(postCategoryId: Option<Id>, categories: seq<Category>): string {
    if postCategoryId.Some? && postCategoryId.value != "" && postCategoryId.value in CategoryIds(categories)
    then postCategoryId.value
    else if |categories| > 0 then categories[0].id
    else ""
  }

  /**
   * The default category is always one offered when any is, and `""` only
   * when none is; the post's own category wins whenever it is offered.
   */
  lemma DefaultCategoryRules(postCategoryId: Option<Id>, categories: seq<Category>)
    ensures var r := DefaultCategoryId(postCategoryId, categories);
            && (categories == [] ==> r == "")
            && (categories != [] ==> exists i :: 0 <= i < |categories| && categories[i].id == r)
            && (postCategoryId.Some? && postCategoryId.value != "" &&
                (exists i :: 0 <= i < |categories| && categories[i].id == postCategoryId.value)
                ==> r == postCategoryId.value)
            && (!(postCategoryId.Some? && postCategoryId.value != "" &&
                  (exists i :: 0 <= i < |categories| && categories[i].id == postCategoryId.value))
                ==> r == (if categories == [] then "" else categories[0].id))
  {
    var ids := CategoryIds(categories);
    if postCategoryId.Some? && postCategoryId.value in ids {
      var i :| 0 <= i < |ids| && ids[i] == postCategoryId.value;
      assert categories[i].id == postCategoryId.value;
    }
    if postCategoryId.Some? && exists i :: 0 <= i < |categories| && categories[i].id == postCategoryId.value {
      var i :| 0 <= i < |categories| && categories[i].id == postCategoryId.value;
      assert ids[i] == postCategoryId.value;
    }
    if categories == [] {
      assert ids == [];
    } else {
      assert categories[0].id == categories[0].id;
    }
  }

  /** The editor form's values. */
  datatype EditorValues = EditorValues(
    title: string, slug: string, image: string, categoryId: string, description: string, content: string)

  /** The document the editor starts from: the post's, unless missing or empty. */
  function InitialContent(post: Draft): Option<string> {
    if post.fields.content.Some? && post.fields.content.value != "" then post.fields.content else None
  }

  /**
   * `defaultValues`: each field from the post, or its fallback; `uuid` is
   * the fresh id of the default slug and `placeholder` the editor's
   * placeholder document.
   */
  function DefaultValues(
    post: Draft, uuid: string, coverImageFileName: Option<string>, categories: seq<Category>, placeholder: string): EditorValues
  {
    EditorValues(
      post.fields.title.GetOr("Untitled"),
      post.fields.slug.GetOr("post-" + uuid),
      post.fields.image.GetOr(coverImageFileName.GetOr("")),
      DefaultCategoryId(post.fields.categoryId, categories),
      post.fields.description.GetOr("Post description"),
      InitialContent(post).GetOr(placeholder))
  }

  /** The fallbacks apply only to missing values: a present value, even `""`, is kept. */
  lemma DefaultValuesRules(
    post: Draft, uuid: string, coverImageFileName: Option<string>, categories: seq<Category>, placeholder: string)
    ensures var v := DefaultValues(post, uuid, coverImageFileName, categories, placeholder);
            && v.title == (if post.fields.title.Some? then post.fields.title.value else "Untitled")
            && v.slug == (if post.fields.slug.Some? then post.fields.slug.value else "post-" + uuid)
            && (post.fields.image.Some? ==> v.image == post.fields.image.value)
            && (post.fields.image.None? && coverImageFileName.Some? ==> v.image == coverImageFileName.value)
            && (post.fields.image.None? && coverImageFileName.None? ==> v.image == "")
            && v.description == (if post.fields.description.Some? then post.fields.description.value else "Post description")
            && (post.fields.content.None? || post.fields.content == Some("") ==> v.content == placeholder)
            && (post.fields.content.Some? && post.fields.content.value != "" ==> v.content == post.fields.content.value)
  {
  }

  /** The cover sync: a non-blank cover file name replaces the form's image. */
  function SyncCover(values: EditorValues, coverImageFileName: Option<string>): EditorValues {
    if coverImageFileName.Some? && Trim(coverImageFileName.value) != "" then values.(image := coverImageFileName.value)
    else values
  }

  /**
   * After the sync the image is the cover name when that is non-blank and
   * is left alone otherwise; no other field changes, and syncing again
   * changes nothing.
   */
  lemma SyncCoverRules(values: EditorValues, coverImageFileName: Option<string>)
    ensures var v := SyncCover(values, coverImageFileName);
            && (coverImageFileName.Some? && Trim(coverImageFileName.value) != "" ==> v.image == coverImageFileName.value)
            && (coverImageFileName.None? || Trim(coverImageFileName.value) == "" ==> v == values)
            && v.(image := values.image) == values
            && SyncCover(v, coverImageFileName) == v
  {
  }

  /** The Publish button is shown for a draft that is not published. */
  predicate ShowsPublish(status: Option<string>) {
    status != Some("published")
  }

  /** The Unpublish button is shown for a published draft. */
  predicate ShowsUnpublish(status: Option<string>) {
    status == Some("published")
  }

  /** Exactly one of the two buttons is shown, and Unpublish exactly for the drafts the unpublish action accepts. */
  lemma OneButtonShown(d: Draft)
    ensures ShowsPublish(d.status) != ShowsUnpublish(d.status)
    ensures ShowsUnpublish(d.status) <==> IsPublished(d)
  {
  }

  /** The database's answers to the save: the post schema's verdict and the two writes. */
  datatype SaveAnswers = SaveAnswers(schemaOk: bool, draftWrite: WriteOutcome, postWrite: WriteOutcome)

  /** The database's answers to the publish: the new post id, the insert, the cover copy and the final draft write. */
  datatype PublishAnswers = PublishAnswers(newPostId: Id, insert: WriteOutcome, copyOk: bool, draftWriteOk: bool)

  /** The values the save sends for a draft. */
  function SaveInput(draftId: Id, values: EditorValues, content: Option<string>): PostUpdate {
    PostUpdate(draftId, values.title, values.slug, Some(values.categoryId), values.description, values.image, content)
  }

  /**
   * The effect of `handlePublish`: save the form, then publish. The guard
   * between the two asks only whether the save returned a result object,
   * which it always does, so the publish runs even after a failed save.
   */
  function HandlePublishSpec(
    t: Tables, user: Option<Id>, draftId: Id, values: EditorValues, content: Option<string>,
    save: SaveAnswers, publish: PublishAnswers): Outcome<string>
  {
    var s := UpdatePostSpec(t, SaveInput(draftId, values, content), save.schemaOk, save.draftWrite, save.postWrite);
    PublishDraftSpec(s.tables, user, draftId, publish.newPostId, publish.insert, publish.copyOk, publish.draftWriteOk)
  }

  const SaveFailedMessage := "Save failed. Fix errors before publishing."

  /** `handlePublish` with the guard its message describes: a failed save stops the publish. */
  function HandlePublishChecked(
    t: Tables, user: Option<Id>, draftId: Id, values: EditorValues, content: Option<string>,
    save: SaveAnswers, publish: PublishAnswers): Outcome<string>
  {
    var s := UpdatePostSpec(t, SaveInput(draftId, values, content), save.schemaOk, save.draftWrite, save.postWrite);
    if s.result.Err? then Outcome(s.tables, Err(SaveFailedMessage))
    else PublishDraftSpec(s.tables, user, draftId, publish.newPostId, publish.insert, publish.copyOk, publish.draftWriteOk)
  }

  /**
   * As written, a save the post schema rejects still publishes: the new post
   * gets the draft's old values, not the form's.
   */
  lemma FailedSaveStillPublishes(
    t: Tables, user: Id, draftId: Id, values: EditorValues, content: Option<string>,
    draftWrite: WriteOutcome, postWrite: WriteOutcome, newPostId: Id, copyOk: bool, draftWriteOk: bool)
    requires OwnsDraft(t, user, draftId) && !IsPublished(t.drafts[draftId])
    ensures var o := HandlePublishSpec(t, Some(user), draftId, values, content,
                                       SaveAnswers(false, draftWrite, postWrite), PublishAnswers(newPostId, Written, copyOk, draftWriteOk));
            && UpdatePostSpec(t, SaveInput(draftId, values, content), false, draftWrite, postWrite).result.Err?
            && o.result.Ok?
            && o.tables.posts[newPostId].fields == t.drafts[draftId].fields
  {
  }

  /**
   * With the guard checked, a failed save publishes nothing; a successful
   * save publishes exactly the values just saved, and then the two flows
   * agree.
   */
  lemma CheckedPublishUsesSavedValues(
    t: Tables, user: Id, draftId: Id, values: EditorValues, content: Option<string>,
    save: SaveAnswers, publish: PublishAnswers)
    ensures var s := UpdatePostSpec(t, SaveInput(draftId, values, content), save.schemaOk, save.draftWrite, save.postWrite);
            var o := HandlePublishChecked(t, Some(user), draftId, values, content, save, publish);
            && (s.result.Err? ==> o.result == Err(SaveFailedMessage) && o.tables.posts == t.posts)
            && (s.result.Ok? ==> o == HandlePublishSpec(t, Some(user), draftId, values, content, save, publish))
            && (s.result.Ok? && OwnsDraft(t, user, draftId) && !IsPublished(t.drafts[draftId]) && publish.insert.Written? ==>
                  && o.result.Ok?
                  && o.tables.posts[publish.newPostId].fields
                       == UpdatedFields(SaveInput(draftId, values, content), ResolveCategory(t.categories, Some(values.categoryId))))
  {
    var input := SaveInput(draftId, values, content);
    UpdatePostEarlyErrors(t, input, save.schemaOk, save.draftWrite, save.postWrite);
    var s := UpdatePostSpec(t, input, save.schemaOk, save.draftWrite, save.postWrite);
    if s.result.Ok? && OwnsDraft(t, user, draftId) && !IsPublished(t.drafts[draftId]) {
      UpdatePostWrites(t, input, save.draftWrite, save.postWrite);
      assert s.tables.drafts[draftId].fields == UpdatedFields(input, ResolveCategory(t.categories, Some(values.categoryId)));
      assert OwnsDraft(s.tables, user, draftId) && !IsPublished(s.tables.drafts[draftId]);
    }
  }

  /** Where the router goes after a publish: the post's page, only on success. */
  function PublishNavigation(result: Result<string, string>): Option<string> {
    if result.Ok? then Some("/posts/" + result.value) else None
  }

  /** The editor's state: the form, the two busy flags, and the last page the router was sent to. */
  class EditorView {
    var values: EditorValues
    var isSaving: bool
    var showLoadingAlert: bool
    var location: Option<string>

    /** The editor on mount: the default values, then the cover sync. */
    constructor (post: Draft, uuid: string, coverImageFileName: Option<string>, categories: seq<Category>, placeholder: string)
      ensures values == SyncCover(DefaultValues(post, uuid, coverImageFileName, categories, placeholder), coverImageFileName)
      ensures !isSaving && !showLoadingAlert && location == None
    {
      var defaults := DefaultValues(post, uuid, coverImageFileName, categories, placeholder);
      if coverImageFileName.Some? && Trim(coverImageFileName.value) != "" {
        defaults := defaults.(image := coverImageFileName.value);
      }
      values := defaults;
      isSaving := false;
      showLoadingAlert := false;
      location := None;
    }

    /**
     * `onSubmit`: saves the form. The result object is always present, so
     * the router always goes back to the post list, even after a failed save.
     */
    method OnSubmit(db: Backend, draftId: Id, content: Option<string>, save: SaveAnswers)
      returns (r: Result<Draft, string>)
      modifies this, db
      ensures var o := UpdatePostSpec(old(db.Snapshot()), SaveInput(draftId, old(values), content), save.schemaOk, save.draftWrite, save.postWrite);
              db.Snapshot() == o.tables && r == o.result
      ensures location == Some("/editor/posts?search=refresh")
      ensures !isSaving && !showLoadingAlert && values == old(values)
    {
      showLoadingAlert := true;
      isSaving := true;
      var input := PostUpdate(draftId, values.title, values.slug, Some(values.categoryId), values.description, values.image, content);
      r := UpdatePost(db, input, save.schemaOk, save.draftWrite, save.postWrite);
      location := Some("/editor/posts?search=refresh");
      isSaving := false;
      showLoadingAlert := false;
    }

    /**
     * `handlePublish`, with the save guard checking the save's outcome: saves
     * the form, stops with the save-failed message when the save fails, and
     * otherwise publishes the draft; the router goes to the post's page only
     * when the publish succeeds.
     */
    method HandlePublish(db: Backend, user: Option<Id>, draftId: Id, content: Option<string>, save: SaveAnswers, publish: PublishAnswers)
      returns (r: Result<string, string>)
      modifies this, db
      ensures var o := HandlePublishChecked(old(db.Snapshot()), user, draftId, old(values), content, save, publish);
              db.Snapshot() == o.tables && r == o.result
      ensures location == if r.Ok? then PublishNavigation(r) else old(location)
      ensures !isSaving && !showLoadingAlert && values == old(values)
    {
      showLoadingAlert := true;
      isSaving := true;
      var input := PostUpdate(draftId, values.title, values.slug, Some(values.categoryId), values.description, values.image, content);
      var saveResponse := UpdatePost(db, input, save.schemaOk, save.draftWrite, save.postWrite);
      if saveResponse.Err? {
        isSaving := false;
        showLoadingAlert := false;
        return Err(SaveFailedMessage);
      }
      r := PublishDraft(db, user, draftId, publish.newPostId, publish.insert, publish.copyOk, publish.draftWriteOk);
      if r.Ok? {
        location := Some("/posts/" + r.value);
      }
      isSaving := false;
      showLoadingAlert := false;
    }

    /** `handleUnpublish`: unpublishes the draft; the loading alert is shown only while it runs. */
    method HandleUnpublish(db: Backend, user: Option<Id>, draftId: Id, delete: WriteOutcome, draftWriteOk: bool)
      returns (r: Result<(), string>)
      modifies this, db
      ensures var o := UnpublishPostSpec(old(db.Snapshot()), user, draftId, delete, draftWriteOk);
              db.Snapshot() == o.tables && r == o.result
      ensures !showLoadingAlert && isSaving == old(isSaving) && values == old(values) && location == old(location)
    {
      showLoadingAlert := true;
      r := UnpublishPost(db, user, draftId, delete, draftWriteOk);
      showLoadingAlert := false;
    }
  }
}
