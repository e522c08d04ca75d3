/**
 * `CreateCategory`: an admin-only insert of one `categories` row from the
 * values the create schema accepts.
 */
module CreateCategoryAction {
  import opened Wrappers
  import opened Store
  import opened CategoryValidation

  const NotAdminMessage := "Only admins can create categories."
  const CategorySlugTakenMessage := "A category with this slug already exists."

  /** The error returned for a rejected parse: the first issue's message, else `"Invalid data"`. */
  function IssueMessage(issues: seq<string>): (m: string)
    ensures |issues| > 0 ==> m == issues[0]
    ensures |issues| == 0 ==> m == "Invalid data"
  {
    if |issues| > 0 then issues[0] else "Invalid data"
  }

  /** The error returned for a rejected write: the duplicate-slug message for code 23505, else the database's. */
  function WriteError(code: string, message: string): (m: string)
    ensures code == UniqueViolation ==> m == CategorySlugTakenMessage
    ensures code != UniqueViolation ==> m == message
  {
    if code == UniqueViolation then CategorySlugTakenMessage else message
  }

  /** The row inserted: the four validated values, the id and creation time the database assigns. */
  function NewCategoryRow(id: Id, createdAt: Option<string>, data: CategoryData): Category {
    Category(id, Some(data.title), Some(data.slug), createdAt, Some(data.showInNav), Some(data.sortOrder))
  }

  /**
   * The effect of `CreateCategory(input)`. `isAdmin` is the caller's admin
   * flag, `newId` and `createdAt` what the database assigns, and `insert`
   * its answer to the insert.
   */
  function CreateCategorySpec(
    t: Tables, isAdmin: bool, input: CategoryInput, isUuid: string -> bool,
    newId: Id, createdAt: Option<string>, insert: WriteOutcome): Outcome<Category>
  {
    if !isAdmin then Outcome(t, Err(NotAdminMessage))
    else
      match ParseCategory(CreateSchema, input, isUuid)
      case Err(issues) => Outcome(t, Err(IssueMessage(issues)))
      case Ok(data) =>
        match insert
        case Rejected(code, msg) => Outcome(t, Err(WriteError(code, msg)))
        case Written =>
          var row := NewCategoryRow(newId, createdAt, data);
          Outcome(t.(categories := t.categories[newId := row]), Ok(row))
  }

  /** `CreateCategory`, step by step against the database. */
  method CreateCategory(
    db: Backend, isAdmin: bool, input: CategoryInput, isUuid: string -> bool,
    newId: Id, createdAt: Option<string>, insert: WriteOutcome) returns (r: Result<Category, string>)
    modifies db
    ensures var o := CreateCategorySpec(old(db.Snapshot()), isAdmin, input, isUuid, newId, createdAt, insert);
            db.Snapshot() == o.tables && r == o.result
  {
    if !isAdmin {
      return Err(NotAdminMessage);
    }
    var parsed := ParseCategory(CreateSchema, input, isUuid);
    if parsed.Err? {
      return Err(IssueMessage(parsed.error));
    }
    var data := parsed.value;
    if insert.Rejected? {
      return Err(WriteError(insert.code, insert.message));
    }
    var category := Category(newId, Some(data.title), Some(data.slug), createdAt, Some(data.showInNav), Some(data.sortOrder));
    db.categories := db.categories[newId := category];
    return Ok(category);
  }

  /**
   * A non-admin caller, invalid input and a rejected insert each return
   * their error and leave every table as it was.
   */
  lemma CreateCategoryErrors(
    t: Tables, isAdmin: bool, input: CategoryInput, isUuid: string -> bool,
    newId: Id, createdAt: Option<string>, insert: WriteOutcome)
    ensures var o := CreateCategorySpec(t, isAdmin, input, isUuid, newId, createdAt, insert);
            && (!isAdmin ==> o.result == Err(NotAdminMessage))
            && (isAdmin && !ValidCategory(CreateSchema, input, isUuid) ==>
                  o.result == Err(ParseCategory(CreateSchema, input, isUuid).error[0]))
            && (isAdmin && ValidCategory(CreateSchema, input, isUuid) && insert.Rejected? ==>
                  o.result == Err(if insert.code == UniqueViolation then CategorySlugTakenMessage else insert.message))
            && (o.result.Err? ==> o.tables == t)
            && (o.result.Ok? <==> isAdmin && ValidCategory(CreateSchema, input, isUuid) && insert.Written?)
  {
    ParseCategoryValid(CreateSchema, input, isUuid);
  }

  /**
   * A successful create adds exactly one row, under the new id, carrying the
   * validated title and slug and the two settings with their defaults, and
   * returns that row; no other row of any table changes.
   */
  lemma CreateCategorySuccess(
    t: Tables, input: CategoryInput, isUuid: string -> bool,
    newId: Id, createdAt: Option<string>)
    requires newId !in t.categories
    requires ValidCategory(CreateSchema, input, isUuid)
    ensures var o := CreateCategorySpec(t, true, input, isUuid, newId, createdAt, Written);
            && o.result.Ok?
            && o.tables.categories.Keys == t.categories.Keys + {newId}
            && (forall id :: id in t.categories ==> o.tables.categories[id] == t.categories[id])
            && o.tables.categories[newId] == o.result.value
            && o.result.value == Category(newId, input.title, input.slug, createdAt,
                 Some(input.showInNav != Some(false)), Some(input.sortOrder.GetOr(0)))
            && o.tables.drafts == t.drafts && o.tables.posts == t.posts
            && o.tables.profiles == t.profiles && o.tables.blobs == t.blobs
  {
    ParseCategoryValid(CreateSchema, input, isUuid);
  }
}
