/**
 * `UpdateCategory`: an admin-only update of the four editable columns of
 * one `categories` row, selected by the UUID the update schema requires.
 */
module UpdateCategoryAction {
  import opened Wrappers
  import opened Store
  import opened CategoryValidation
  import opened CreateCategoryAction

  const NotAdminUpdateMessage := "Only admins can update categories."
  const IdRequiredMessage := "Category ID is required"

  /** The row after the update: the four validated values, the rest kept. */
  function UpdatedRow(c: Category, data: CategoryData): Category {
    c.(title := Some(data.title), slug := Some(data.slug), showInNav := Some(data.showInNav), sortOrder := Some(data.sortOrder))
  }

  /**
   * The effect of `UpdateCategory(input)`. `isAdmin` is the caller's admin
   * flag and `update` the database's answer to the update. An update that
   * matches no row makes `.single()` report an error.
   */
  function UpdateCategorySpec(
    t: Tables, isAdmin: bool, input: CategoryInput, isUuid: string -> bool, update: WriteOutcome): Outcome<Category>
  {
    if !isAdmin then Outcome(t, Err(NotAdminUpdateMessage))
    else
      match ParseCategory(UpdateSchema, input, isUuid)
      case Err(issues) => Outcome(t, Err(IssueMessage(issues)))
      case Ok(data) =>
        if data.id.None? || data.id.value == "" then Outcome(t, Err(IdRequiredMessage))
        else
          var id := data.id.value;
          match update
          case Rejected(code, msg) => Outcome(t, Err(WriteError(code, msg)))
          case Written =>
            if id !in t.categories then Outcome(t, Err(NoRowMessage))
            else
              var row := UpdatedRow(t.categories[id], data);
              Outcome(t.(categories := t.categories[id := row]), Ok(row))
  }

  /** `UpdateCategory`, step by step against the database. */
  method UpdateCategory(
    db: Backend, isAdmin: bool, input: CategoryInput, isUuid: string -> bool, update: WriteOutcome)
    returns (r: Result<Category, string>)
    modifies db
    ensures var o := UpdateCategorySpec(old(db.Snapshot()), isAdmin, input, isUuid, update);
            db.Snapshot() == o.tables && r == o.result
  {
    if !isAdmin {
      return Err(NotAdminUpdateMessage);
    }
    var parsed := ParseCategory(UpdateSchema, input, isUuid);
    if parsed.Err? {
      return Err(IssueMessage(parsed.error));
    }
    var data := parsed.value;
    if data.id.None? || data.id.value == "" {
      return Err(IdRequiredMessage);
    }
    if update.Rejected? {
      return Err(WriteError(update.code, update.message));
    }
    var id := data.id.value;
    if id !in db.categories {
      return Err(NoRowMessage);
    }
    var category := db.categories[id].(title := Some(data.title), slug := Some(data.slug),
                                       showInNav := Some(data.showInNav), sortOrder := Some(data.sortOrder));
    db.categories := db.categories[id := category];
    return Ok(category);
  }

  /**
   * A non-admin caller, invalid input, an empty id, a rejected update and an
   * id matching no row each return their error and leave every table as it
   * was; the update succeeds exactly when none of these happens.
   */
  lemma UpdateCategoryErrors(t: Tables, isAdmin: bool, input: CategoryInput, isUuid: string -> bool, update: WriteOutcome)
    ensures var o := UpdateCategorySpec(t, isAdmin, input, isUuid, update);
            && (!isAdmin ==> o.result == Err(NotAdminUpdateMessage))
            && (isAdmin && !ValidCategory(UpdateSchema, input, isUuid) ==>
                  o.result == Err(ParseCategory(UpdateSchema, input, isUuid).error[0]))
            && (isAdmin && ValidCategory(UpdateSchema, input, isUuid) && input.id == Some("") ==>
                  o.result == Err(IdRequiredMessage))
            && (isAdmin && ValidCategory(UpdateSchema, input, isUuid) && input.id != Some("") && update.Rejected? ==>
                  o.result == Err(if update.code == UniqueViolation then CategorySlugTakenMessage else update.message))
            && (isAdmin && ValidCategory(UpdateSchema, input, isUuid) && input.id.Some? && input.id.value != ""
                && update.Written? && input.id.value !in t.categories ==>
                  o.result == Err(NoRowMessage))
            && (o.result.Ok? <==> isAdmin && ValidCategory(UpdateSchema, input, isUuid) && input.id.Some?
                                  && input.id.value != "" && update.Written? && input.id.value in t.categories)
            && (o.result.Err? ==> o.tables == t)
  {
    ParseCategoryValid(UpdateSchema, input, isUuid);
  }

  /**
   * The id check after parsing can only fire when the UUID check accepts
   * the empty string: with a UUID check that rejects `""`, an empty id is
   * already refused by the schema (the database's own messages aside).
   */
  lemma IdRequiredNeedsEmptyUuid(t: Tables, input: CategoryInput, isUuid: string -> bool)
    requires !isUuid("")
    ensures UpdateCategorySpec(t, true, input, isUuid, Written).result != Err(IdRequiredMessage)
  {
    var r := ParseCategory(UpdateSchema, input, isUuid);
    ParseCategoryValid(UpdateSchema, input, isUuid);
    if r.Err? {
      IssuesAreSchemaMessages(UpdateSchema, input, isUuid);
      assert r.error[0] in r.error;
      assert forall m :: m in SchemaMessages ==> |m| != |IdRequiredMessage|;
    }
  }

  /**
   * A successful update rewrites the title, slug and both settings of the
   * row with the given id, keeps its id and creation time, returns the new
   * row and changes no other row of any table.
   */
  lemma UpdateCategorySuccess(t: Tables, input: CategoryInput, isUuid: string -> bool)
    requires ValidCategory(UpdateSchema, input, isUuid)
    requires input.id.value != "" && input.id.value in t.categories
    ensures var o := UpdateCategorySpec(t, true, input, isUuid, Written);
            var id := input.id.value;
            var c := t.categories[id];
            && o.result == Ok(o.tables.categories[id])
            && o.tables.categories == t.categories[id := Category(c.id, input.title, input.slug, c.createdAt,
                 Some(input.showInNav != Some(false)), Some(input.sortOrder.GetOr(0)))]
            && o.tables.drafts == t.drafts && o.tables.posts == t.posts
            && o.tables.profiles == t.profiles && o.tables.blobs == t.blobs
  {
    ParseCategoryValid(UpdateSchema, input, isUuid);
  }
}
