/**
 * The categories settings panel: the slug and sort-order inputs of its two
 * forms, the list it shows, and the create, update and delete handlers
 * that keep the list in step with the server's answers.
 */
module CategorySettings {
  import opened Wrappers
  import opened JsString
  import opened JsNumber
  import opened Store
  import opened CategoryValidation
  import opened CreateCategoryAction

  /** One typed character of the slug input: lower-cased, and `-` unless it is a slug character. */
  function NormalizeSlugChar(c: char): (r: char)
    ensures IsSlugChar(r)
    ensures IsSlugChar(c) ==> r == c
  {
    var l := LowerChar(c);
    if IsSlugChar(l) then l else '-'
  }

  /** The slug input's `onChange`: `toLowerCase()`, then every character outside `[a-z0-9-]` becomes `-`. */
  function NormalizeSlug(s: string): (r: string)
    ensures |r| == |s|
    ensures forall i :: 0 <= i < |s| ==> r[i] == NormalizeSlugChar(s[i])
  {
    seq(|s|, i requires 0 <= i < |s| => NormalizeSlugChar(s[i]))
  }

  /**
   * The normalised slug uses only slug characters, keeps the input's length,
   * meets the schema's pattern whenever it is non-empty, and normalising it
   * again changes nothing.
   */
  lemma NormalizeSlugProperties(s: string)
    ensures var r := NormalizeSlug(s);
            && |r| == |s|
            && (forall i :: 0 <= i < |r| ==> IsSlugChar(r[i]))
            && (s != "" ==> MatchesSlugPattern(r))
            && NormalizeSlug(r) == r
  {
    var r := NormalizeSlug(s);
    assert forall i :: 0 <= i < |r| ==> NormalizeSlug(r)[i] == r[i];
  }

  /** The slugs the input leaves alone are exactly those made of slug characters. */
  lemma NormalizeSlugFixedPoints(s: string)
    ensures NormalizeSlug(s) == s <==> forall i :: 0 <= i < |s| ==> IsSlugChar(s[i])
  {
    if NormalizeSlug(s) == s {
      forall i | 0 <= i < |s|
        ensures IsSlugChar(s[i])
      {
        assert NormalizeSlug(s)[i] == s[i];
      }
    } else {
      var r := NormalizeSlug(s);
      var i :| 0 <= i < |s| && r[i] != s[i];
      assert !IsSlugChar(s[i]);
    }
  }

  /** The sort-order input's `onChange`: `parseInt(value) || 0`. */
  function SortOrderInput(value: string): int {
    ParseInt(value).GetOr(0)
  }

  /** A typed number reads back as itself, and text that does not start with a number reads as 0. */
  lemma SortOrderInputReadsBack(n: int, value: string)
    ensures SortOrderInput(IntToDecimal(n)) == n
    ensures (var u := Unsigned(TrimStart(value)); u == [] || !('0' <= u[0] <= '9')) ==> SortOrderInput(value) == 0
  {
    ParseIntOfDecimal(n, "");
    assert IntToDecimal(n) + "" == IntToDecimal(n);
    if var u := Unsigned(TrimStart(value)); u == [] || !('0' <= u[0] <= '9') {
      ParseIntNaN(value);
    }
  }

  /** The list after a create: the new category at the end. */
  function AppendCategory(categories: seq<Category>, c: Category): (r: seq<Category>)
    ensures |r| == |categories| + 1 && r[..|categories|] == categories && r[|categories|] == c
  {
    categories + [c]
  }

  /** The list after an update: each entry with the id becomes the returned category. */
  function ReplaceById(categories: seq<Category>, id: Id, c: Category): (r: seq<Category>)
    ensures |r| == |categories|
  {
    seq(|categories|, i requires 0 <= i < |categories| => if categories[i].id == id then c else categories[i])
  }

  /** Entries with the id are replaced in place; every other entry keeps its place. */
  lemma ReplaceByIdEffect(categories: seq<Category>, id: Id, c: Category)
    ensures var r := ReplaceById(categories, id, c);
            && |r| == |categories|
            && (forall i :: 0 <= i < |r| ==> r[i] == (if categories[i].id == id then c else categories[i]))
            && (forall i :: 0 <= i < |categories| && categories[i].id != id ==> r[i] == categories[i])
            && ((forall i :: 0 <= i < |categories| ==> categories[i].id != id) ==> r == categories)
  {
  }

  /** The list after a delete: the entries whose id differs, in order. */
  function RemoveById(categories: seq<Category>, id: Id): (r: seq<Category>)
    ensures |r| <= |categories|
  {
    if categories == [] then []
    else if categories[0].id == id then RemoveById(categories[1..], id)
    else [categories[0]] + RemoveById(categories[1..], id)
  }

  /**
   * No entry with the id survives a delete, every entry with another id
   * does, and nothing else appears.
   */
  lemma {:induction false} RemoveByIdEffect(categories: seq<Category>, id: Id)
    ensures var r := RemoveById(categories, id);
            && (forall c :: c in r ==> c in categories && c.id != id)
            && (forall c :: c in categories && c.id != id ==> c in r)
  {
    if categories != [] {
      RemoveByIdEffect(categories[1..], id);
      assert forall c :: c in categories ==> c == categories[0] || c in categories[1..];
    }
  }

  /** Deleting an id no entry has changes nothing. */
  lemma {:induction false} RemoveAbsent(categories: seq<Category>, id: Id)
    requires forall i :: 0 <= i < |categories| ==> categories[i].id != id
    ensures RemoveById(categories, id) == categories
  {
    if categories != [] {
      RemoveAbsent(categories[1..], id);
      assert [categories[0]] + categories[1..] == categories;
    }
  }

  /** Deleting keeps the survivors in their order: a delete distributes over a split of the list. */
  lemma {:induction false} RemoveByIdAppend(a: seq<Category>, b: seq<Category>, id: Id)
    ensures RemoveById(a + b, id) == RemoveById(a, id) + RemoveById(b, id)
  {
    if a != [] {
      assert (a + b)[0] == a[0];
      assert (a + b)[1..] == a[1..] + b;
      RemoveByIdAppend(a[1..], b, id);
    } else {
      assert a + b == b;
    }
  }

  /** Creating a category with a fresh id and then deleting it restores the list. */
  lemma CreateThenDelete(categories: seq<Category>, c: Category)
    requires forall i :: 0 <= i < |categories| ==> categories[i].id != c.id
    ensures RemoveById(AppendCategory(categories, c), c.id) == categories
  {
    RemoveByIdAppend(categories, [c], c.id);
    RemoveAbsent(categories, c.id);
    assert RemoveById([c], c.id) == RemoveById([], c.id);
  }

  /**
   * The edit form's values for a row: absent title and slug become `""`,
   * an absent nav setting `true` and an absent sort order `0`; present
   * values (an empty title, `false`, `0` included) are kept.
   */
  function EditDefaults(c: Category): (v: CategoryInput)
    ensures v.id == Some(c.id) && v.title.Some? && v.slug.Some? && v.showInNav.Some? && v.sortOrder.Some?
    ensures c.title.None? ==> v.title == Some("")
    ensures c.title.Some? ==> v.title == c.title
    ensures c.slug.None? ==> v.slug == Some("")
    ensures c.slug.Some? ==> v.slug == c.slug
    ensures c.showInNav.None? ==> v.showInNav == Some(true)
    ensures c.showInNav.Some? ==> v.showInNav == c.showInNav
    ensures c.sortOrder.None? ==> v.sortOrder == Some(0)
    ensures c.sortOrder.Some? ==> v.sortOrder == c.sortOrder
  {
    CategoryInput(Some(c.id), Some(c.title.GetOr("")), Some(c.slug.GetOr("")),
                  Some(c.showInNav.GetOr(true)), Some(c.sortOrder.GetOr(0)))
  }

  /**
   * Opening the edit form on a row the create action inserted and submitting
   * it unchanged passes the update schema with the same values (given a
   * UUID id).
   */
  lemma EditAfterCreate(input: CategoryInput, isUuid: string -> bool, id: Id, createdAt: Option<string>)
    requires ParseCategory(CreateSchema, input, isUuid).Ok? && isUuid(id)
    ensures var data := ParseCategory(CreateSchema, input, isUuid).value;
            ParseCategory(UpdateSchema, EditDefaults(NewCategoryRow(id, createdAt, data)), isUuid)
              == Ok(data.(id := Some(id)))
  {
    var data := ParseCategory(CreateSchema, input, isUuid).value;
    ParseCategoryValid(CreateSchema, input, isUuid);
    var edit := EditDefaults(NewCategoryRow(id, createdAt, data));
    ParseCategoryValid(UpdateSchema, edit, isUuid);
  }

  /** The panel's state: the list shown, which dialogs are open, and whether a request is running. */
  class CategoriesPanel {
    var categories: seq<Category>
    var isCreateOpen: bool
    var editingId: Option<Id>
    var deletingId: Option<Id>
    var isSubmitting: bool

    constructor (initialCategories: seq<Category>)
      ensures categories == initialCategories
      ensures !isCreateOpen && editingId == None && deletingId == None && !isSubmitting
    {
      categories := initialCategories;
      isCreateOpen := false;
      editingId := None;
      deletingId := None;
      isSubmitting := false;
    }

    /**
     * `handleCreate`, with `result` the create action's answer: a created
     * category is appended and the dialog closed; a failure changes neither.
     */
    method HandleCreate(result: Result<Category, string>)
      modifies this
      ensures !isSubmitting && editingId == old(editingId) && deletingId == old(deletingId)
      ensures result.Ok? ==> categories == AppendCategory(old(categories), result.value) && !isCreateOpen
      ensures result.Err? ==> categories == old(categories) && isCreateOpen == old(isCreateOpen)
    {
      isSubmitting := true;
      isSubmitting := false;
      if result.Ok? {
        categories := categories + [result.value];
        isCreateOpen := false;
      }
    }

    /**
     * `handleUpdate(data)`, with `result` the update action's answer: a form
     * without an id returns at once; an updated category replaces the
     * entries with that id and the dialog closes; a failure keeps the list.
     */
    method HandleUpdate(data: CategoryInput, result: Result<Category, string>)
      modifies this
      ensures data.id.None? || data.id.value == "" ==>
                categories == old(categories) && isSubmitting == old(isSubmitting) && editingId == old(editingId)
      ensures data.id.Some? && data.id.value != "" ==> !isSubmitting
      ensures data.id.Some? && data.id.value != "" && result.Ok? ==>
                categories == ReplaceById(old(categories), data.id.value, result.value) && editingId == None
      ensures result.Err? ==> categories == old(categories) && editingId == old(editingId)
      ensures isCreateOpen == old(isCreateOpen) && deletingId == old(deletingId)
    {
      if data.id.None? || data.id.value == "" {
        return;
      }
      isSubmitting := true;
      isSubmitting := false;
      if result.Ok? {
        categories := ReplaceById(categories, data.id.value, result.value);
        editingId := None;
      }
    }

    /**
     * `handleDelete(id)`, with `result` the delete action's answer: a
     * success drops the entries with that id and closes the confirmation; a
     * failure keeps the list.
     */
    method HandleDelete(id: Id, result: Result<(), string>)
      modifies this
      ensures !isSubmitting && isCreateOpen == old(isCreateOpen) && editingId == old(editingId)
      ensures result.Ok? ==> categories == RemoveById(old(categories), id) && deletingId == None
      ensures result.Err? ==> categories == old(categories) && deletingId == old(deletingId)
    {
      isSubmitting := true;
      isSubmitting := false;
      if result.Ok? {
        categories := RemoveById(categories, id);
        deletingId := None;
      }
    }

    /** `openEdit(cat)`: the edit form gets the row's values with their defaults, and the dialog opens on that row. */
    method OpenEdit(cat: Category) returns (values: CategoryInput)
      modifies this
      ensures values == EditDefaults(cat) && editingId == Some(cat.id)
      ensures categories == old(categories) && isSubmitting == old(isSubmitting)
      ensures isCreateOpen == old(isCreateOpen) && deletingId == old(deletingId)
    {
      values := CategoryInput(Some(cat.id), Some(cat.title.GetOr("")), Some(cat.slug.GetOr("")),
                              Some(cat.showInNav.GetOr(true)), Some(cat.sortOrder.GetOr(0)));
      editingId := Some(cat.id);
    }
  }
}
