/**
 * The category schemas: the base schema, the create schema (no `id`) and
 * the update schema (a required UUID `id`). A parse returns the validated
 * values, with the two defaults filled in, or the list of issues in the
 * order the schema reports them.
 */
module CategoryValidation {
  import opened Wrappers

  /** Which of the three schemas is applied. */
  datatype SchemaKind = BaseSchema | CreateSchema | UpdateSchema

  /** The object handed to a schema; `None` is an absent key. */
  datatype CategoryInput = CategoryInput(
    id: Option<string>, title: Option<string>, slug: Option<string>,
    showInNav: Option<bool>, sortOrder: Option<int>)

  /** The parsed values. */
  datatype CategoryData = CategoryData(id: Option<string>, title: string, slug: string, showInNav: bool, sortOrder: int)

  const RequiredMessage := "Required"
  const TitleRequiredMessage := "Title is required"
  const SlugRequiredMessage := "Slug is required"
  const TooLongMessage := "String must contain at most 100 character(s)"
  const SlugPatternMessage := "Slug must be lowercase letters, numbers, and hyphens"
  const NegativeMessage := "Number must be greater than or equal to 0"
  const InvalidUuidMessage := "Invalid uuid"

  /** The longest title or slug accepted. */
  const MaxLength := 100

  predicate IsSlugChar(c: char) {
    ('a' <= c <= 'z') || ('0' <= c <= '9') || c == '-'
  }

  /** `/^[a-z0-9-]+$/`: at least one character, all of them slug characters. */
  predicate MatchesSlugPattern(s: string) {
    |s| >= 1 && forall i :: 0 <= i < |s| ==> IsSlugChar(s[i])
  }

  /** The issues of the `id` key under each schema. */
  function IdIssues(kind: SchemaKind, id: Option<string>, isUuid: string -> bool): seq<string> {
    match kind
    case CreateSchema => []
    case BaseSchema => if id.Some? && !isUuid(id.value) then [InvalidUuidMessage] else []
    case UpdateSchema =>
      if id.None? then [RequiredMessage]
      else if !isUuid(id.value) then [InvalidUuidMessage]
      else []
  }

  /** The issues of a string with a minimum length of 1 and a maximum of 100; all checks run. */
  function BoundedIssues(s: Option<string>, emptyMessage: string): seq<string> {
    if s.None? then [RequiredMessage]
    else
      (if |s.value| < 1 then [emptyMessage] else [])
      + (if |s.value| > MaxLength then [TooLongMessage] else [])
  }

  function TitleIssues(title: Option<string>): seq<string> {
    BoundedIssues(title, TitleRequiredMessage)
  }

  function SlugIssues(slug: Option<string>): seq<string> {
    BoundedIssues(slug, SlugRequiredMessage)
      + (if slug.Some? && !MatchesSlugPattern(slug.value) then [SlugPatternMessage] else [])
  }

  function SortOrderIssues(sortOrder: Option<int>): seq<string> {
    if sortOrder.Some? && sortOrder.value < 0 then [NegativeMessage] else []
  }

  /** Every issue, in key order: id, title, slug, sort order (a typed boolean has none). */
  function CategoryIssues(kind: SchemaKind, input: CategoryInput, isUuid: string -> bool): seq<string> {
    IdIssues(kind, input.id, isUuid) + TitleIssues(input.title) + SlugIssues(input.slug)
      + SortOrderIssues(input.sortOrder)
  }

  /** The conditions the schema imposes, stated field by field. */
  predicate ValidCategory(kind: SchemaKind, input: CategoryInput, isUuid: string -> bool) {
    && (kind == UpdateSchema ==> input.id.Some?)
    && (kind != CreateSchema && input.id.Some? ==> isUuid(input.id.value))
    && input.title.Some? && 1 <= |input.title.value| <= MaxLength
    && input.slug.Some? && |input.slug.value| <= MaxLength && MatchesSlugPattern(input.slug.value)
    && (input.sortOrder.Some? ==> input.sortOrder.value >= 0)
  }

  /** `schema.safeParse(input)`: the values with their defaults, or the issues. */
  function ParseCategory(kind: SchemaKind, input: CategoryInput, isUuid: string -> bool): (r: Result<CategoryData, seq<string>>) {
    var issues := CategoryIssues(kind, input, isUuid);
    if issues != [] then Err(issues)
    else Ok(CategoryData(
      if kind == CreateSchema then None else input.id,
      input.title.value, input.slug.value,
      input.showInNav.GetOr(true), input.sortOrder.GetOr(0)))
  }

  /**
   * A parse succeeds exactly when the input meets the schema; the values are
   * then the input's, with `show_in_nav` defaulting to true and `sort_order`
   * to 0, and the create schema drops any `id`.
   */
  lemma ParseCategoryValid(kind: SchemaKind, input: CategoryInput, isUuid: string -> bool)
    ensures ParseCategory(kind, input, isUuid).Ok? <==> ValidCategory(kind, input, isUuid)
    ensures ParseCategory(kind, input, isUuid).Err? ==> |ParseCategory(kind, input, isUuid).error| > 0
    ensures var r := ParseCategory(kind, input, isUuid);
            r.Ok? ==>
              && r.value.title == input.title.value && r.value.slug == input.slug.value
              && r.value.showInNav == (input.showInNav != Some(false))
              && r.value.sortOrder == (if input.sortOrder.Some? then input.sortOrder.value else 0)
              && r.value.sortOrder >= 0 && 1 <= |r.value.slug| <= MaxLength && 1 <= |r.value.title| <= MaxLength
              && (kind == CreateSchema ==> r.value.id == None)
              && (kind == UpdateSchema ==> r.value.id.Some? && isUuid(r.value.id.value))
  {
    var issues := CategoryIssues(kind, input, isUuid);
    if ValidCategory(kind, input, isUuid) {
      assert IdIssues(kind, input.id, isUuid) == [];
      assert TitleIssues(input.title) == [];
      assert SlugIssues(input.slug) == [];
    } else {
      assert issues != [] by {
        if IdIssues(kind, input.id, isUuid) == [] && TitleIssues(input.title) == []
          && SlugIssues(input.slug) == [] {
          assert SortOrderIssues(input.sortOrder) != [];
        }
      }
    }
  }

  /** The first issue reported: a bad id comes before anything about the title or slug. */
  lemma FirstIssue(kind: SchemaKind, input: CategoryInput, isUuid: string -> bool)
    ensures var r := ParseCategory(kind, input, isUuid);
            && (kind == UpdateSchema && input.id.None? ==> r.Err? && r.error[0] == RequiredMessage)
            && (kind != CreateSchema && input.id.Some? && !isUuid(input.id.value) ==> r.Err? && r.error[0] == InvalidUuidMessage)
            && (IdIssues(kind, input.id, isUuid) == [] && input.title.None? ==> r.Err? && r.error[0] == RequiredMessage)
            && (IdIssues(kind, input.id, isUuid) == [] && input.title == Some("") ==> r.Err? && r.error[0] == TitleRequiredMessage)
  {
  }

  /** The messages the schemas can report. */
  const SchemaMessages := {RequiredMessage, TitleRequiredMessage, SlugRequiredMessage, TooLongMessage,
                           SlugPatternMessage, NegativeMessage, InvalidUuidMessage}

  /** Every issue carries one of the schema's own messages. */
  lemma IssuesAreSchemaMessages(kind: SchemaKind, input: CategoryInput, isUuid: string -> bool)
    ensures forall m :: m in CategoryIssues(kind, input, isUuid) ==> m in SchemaMessages
  {
  }

  /** An empty slug is reported twice: as missing and as not matching the pattern. */
  lemma EmptySlugIssues()
    ensures SlugIssues(Some("")) == [SlugRequiredMessage, SlugPatternMessage]
  {
  }

  /** A slug with an upper-case letter or a space fails the pattern, whatever its length. */
  lemma SlugPatternRejects(s: string, i: int)
    requires 0 <= i < |s| && (('A' <= s[i] <= 'Z') || s[i] == ' ')
    ensures !MatchesSlugPattern(s)
    ensures SlugPatternMessage in SlugIssues(Some(s))
  {
  }
}
