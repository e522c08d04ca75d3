/**
 * The posts table of the dashboard: the status and category columns with
 * their filters, the category options it is given, and the icon chosen for
 * a category slug.
 */
module PostTable {
  import opened Wrappers
  import opened JsString
  import opened Store

  /** The category icons. */
  datatype Icon = ScienceIcon | HealthIcon | MarketingIcon | TechnologyIcon

  /** The icon used for a missing or unknown slug. */
  const DefaultIcon := ScienceIcon

  /** The slugs with an icon of their own. */
  function OwnIcon(key: string): (r: Option<Icon>)
    ensures r.Some? <==> key in {"science", "health", "marketing", "technology"}
  {
    if key == "science" then Some(ScienceIcon)
    else if key == "health" then Some(HealthIcon)
    else if key == "marketing" then Some(MarketingIcon)
    else if key == "technology" then Some(TechnologyIcon)
    else None
  }

  /**
   * `getCategoryIcon(slug)`, looking up only the four slugs of the icon
   * table: the default for a missing or empty slug, else the icon of the
   * lower-cased slug, else the default.
   */
  function GetCategoryIcon(slug: Option<string>): Icon {
    if slug.None? || slug.value == "" then DefaultIcon
    else OwnIcon(ToLower(slug.value)).GetOr(DefaultIcon)
  }

  /** Lower-casing twice is lower-casing once. */
  lemma ToLowerIdempotent(s: string)
    ensures ToLower(ToLower(s)) == ToLower(s)
  {
    assert forall i :: 0 <= i < |s| ==> ToLower(ToLower(s))[i] == ToLower(s)[i];
  }

  /**
   * The lookup ignores case; the four table slugs (in any case) get their
   * own icons, and every other slug, a missing one and `""` get the default.
   */
  lemma CategoryIconRules(slug: string)
    ensures GetCategoryIcon(Some(slug)) == GetCategoryIcon(Some(ToLower(slug)))
    ensures ToLower(slug) == "science" ==> GetCategoryIcon(Some(slug)) == ScienceIcon
    ensures ToLower(slug) == "health" ==> GetCategoryIcon(Some(slug)) == HealthIcon
    ensures ToLower(slug) == "marketing" ==> GetCategoryIcon(Some(slug)) == MarketingIcon
    ensures ToLower(slug) == "technology" ==> GetCategoryIcon(Some(slug)) == TechnologyIcon
    ensures ToLower(slug) !in {"science", "health", "marketing", "technology"} ==> GetCategoryIcon(Some(slug)) == DefaultIcon
    ensures GetCategoryIcon(None) == DefaultIcon && GetCategoryIcon(Some("")) == DefaultIcon
  {
    ToLowerIdempotent(slug);
    if slug == "" {
      assert ToLower(slug) == "";
    }
  }

  /**
   * What indexing the icon table, a plain object, yields for a key: its own
   * icon, a member every object inherits, or nothing.
   */
  datatype TableEntry = IconEntry(icon: Icon) | InheritedMember(name: string) | NoEntry

  /** The inherited members whose names are all lower-case. */
  const InheritedLowerCaseNames := {"constructor", "__proto__"}

  /** `slugToIcon[key]` as JavaScript evaluates it, inherited members included. */
  function IndexIconTable(key: string): TableEntry {
    if OwnIcon(key).Some? then IconEntry(OwnIcon(key).value)
    else if key in InheritedLowerCaseNames then InheritedMember(key)
    else NoEntry
  }

  /** `getCategoryIcon(slug)` as written: `slugToIcon[slug.toLowerCase()] ?? defaultIcon`. */
  function GetCategoryIconAsWritten(slug: Option<string>): TableEntry {
    if slug.None? || slug.value == "" then IconEntry(DefaultIcon)
    else
      var entry := IndexIconTable(ToLower(slug.value));
      if entry.NoEntry? then IconEntry(DefaultIcon) else entry
  }

  /**
   * The two lookups agree except on inherited names: a category whose slug is
   * `constructor` (a slug the category schema accepts) is given the object
   * constructor instead of an icon.
   */
  lemma ConstructorSlugHasNoIcon()
    ensures GetCategoryIconAsWritten(Some("constructor")) == InheritedMember("constructor")
    ensures GetCategoryIcon(Some("constructor")) == DefaultIcon
  {
    var s := "constructor";
    assert forall i :: 0 <= i < |s| ==> !('A' <= s[i] <= 'Z');
    assert ToLower(s) == s;
  }

  /** Wherever the lookup as written yields an icon, it is the icon the corrected lookup gives. */
  lemma CorrectedIconAgrees(slug: Option<string>)
    ensures GetCategoryIconAsWritten(slug).IconEntry? ==> GetCategoryIconAsWritten(slug).icon == GetCategoryIcon(slug)
    ensures slug.Some? && ToLower(slug.value) !in InheritedLowerCaseNames ==>
              GetCategoryIconAsWritten(slug) == IconEntry(GetCategoryIcon(slug))
  {
  }

  /** A row of the status list. */
  datatype StatusOption = StatusOption(value: string, caption: string)

  /** `statuses`: published, then draft. */
  const Statuses := [StatusOption("published", "Published"), StatusOption("draft", "Draft")]

  /** The status a row is shown and filtered with: `draft` for a missing or empty status. */
  function EffectiveStatus(status: Option<string>): (s: string)
    ensures s != ""
    ensures status.Some? && status.value != "" ==> s == status.value
    ensures status.None? || status.value == "" ==> s == "draft"
  {
    if status.Some? && status.value != "" then status.value else "draft"
  }

  /** The status column's `filterFn`: the selected values include the row's effective status. */
  predicate StatusFilter(selected: seq<string>, status: Option<string>) {
    EffectiveStatus(status) in selected
  }

  /** The first entry of the status list with the given value. */
  function FindStatus(options: seq<StatusOption>, value: string): (r: Option<StatusOption>)
    ensures r.Some? ==> r.value in options && r.value.value == value
    ensures r.None? ==> forall o :: o in options ==> o.value != value
  {
    if options == [] then None
    else if options[0].value == value then Some(options[0])
    else FindStatus(options[1..], value)
  }

  /** The status cell: the list's caption, or the effective status as plain text. */
  datatype StatusCell = Labelled(caption: string) | PlainText(text: string)

  function StatusCellOf(status: Option<string>): StatusCell {
    var effective := EffectiveStatus(status);
    match FindStatus(Statuses, effective)
    case Some(o) => Labelled(o.caption)
    case None => PlainText(if effective == "draft" then "Draft" else effective)
  }

  /**
   * Published and draft rows (a missing status counting as draft) show the
   * list's caption; any other status is shown verbatim.
   */
  lemma StatusCellRules(status: Option<string>)
    ensures EffectiveStatus(status) == "published" ==> StatusCellOf(status) == Labelled("Published")
    ensures EffectiveStatus(status) == "draft" ==> StatusCellOf(status) == Labelled("Draft")
    ensures EffectiveStatus(status) != "published" && EffectiveStatus(status) != "draft" ==>
              StatusCellOf(status) == PlainText(status.value)
  {
  }

  /** The status filter keeps a row exactly when its effective status is selected: `draft` covers rows with no status. */
  lemma StatusFilterRules(selected: seq<string>, status: Option<string>)
    ensures status.None? ==> (StatusFilter(selected, status) <==> "draft" in selected)
    ensures StatusFilter(selected, Some("")) == StatusFilter(selected, None)
    ensures status.Some? && status.value != "" ==> (StatusFilter(selected, status) <==> status.value in selected)
  {
  }

  /** One option of the category filter and cell. */
  datatype TableCategoryOption = TableCategoryOption(value: string, caption: string, icon: Icon)

  /** An option's caption: the title, else the slug, else `Unnamed`; only a missing value falls through. */
  function OptionLabel(title: Option<string>, slug: Option<string>): (caption: string)
    ensures title.Some? ==> caption == title.value
    ensures title.None? && slug.Some? ==> caption == slug.value
    ensures title.None? && slug.None? ==> caption == "Unnamed"
  {
    title.GetOr(slug.GetOr("Unnamed"))
  }

  /** `categoriesToTableOptions`: one option per category, in order. */
  function CategoriesToTableOptions(categories: seq<Category>): (r: seq<TableCategoryOption>)
    ensures |r| == |categories|
  {
    seq(|categories|, i requires 0 <= i < |categories| =>
      var c := categories[i];
      TableCategoryOption(c.id, OptionLabel(c.title, c.slug), GetCategoryIcon(c.slug)))
  }

  /** Each option carries its category's id, caption and icon, in the categories' order. */
  lemma TableOptionsRules(categories: seq<Category>)
    ensures var r := CategoriesToTableOptions(categories);
            && |r| == |categories|
            && (forall i :: 0 <= i < |r| ==> r[i].value == categories[i].id)
            && (forall i :: 0 <= i < |r| ==> r[i].caption == OptionLabel(categories[i].title, categories[i].slug))
            && (forall i :: 0 <= i < |r| ==> r[i].icon == GetCategoryIcon(categories[i].slug))
            && (forall i :: 0 <= i < |r| && categories[i].title == Some("") ==> r[i].caption == "")
  {
  }

  /** The category column's `filterFn`: the selected values include the row's category id. */
  predicate CategoryFilter(selected: seq<string>, categoryId: Option<string>) {
    categoryId.Some? && categoryId.value in selected
  }

  /**
   * The category filter keeps a row exactly when it has a category id among
   * the selected values; a row without one is never kept. When every selected
   * value is the id of a listed category, as the toolbar offers them, a kept
   * row shows a badge and never the dash.
   */
  lemma CategoryFilterRules(categories: seq<Category>, selected: seq<string>, categoryId: Option<string>)
    ensures !CategoryFilter(selected, None)
    ensures categoryId.Some? ==> (CategoryFilter(selected, categoryId) <==> categoryId.value in selected)
    ensures (forall v :: v in selected ==> exists c :: c in categories && c.id == v)
            && CategoryFilter(selected, categoryId) ==>
            CategoryCellOf(CategoriesToTableOptions(categories), categoryId).Badge?
  {
    CategoryCellDash(categories, categoryId);
  }

  /** The first option whose value is the category id. */
  function FindOption(options: seq<TableCategoryOption>, categoryId: Option<string>): (r: Option<TableCategoryOption>)
    ensures r.Some? ==> r.value in options && categoryId == Some(r.value.value)
    ensures r.None? ==> forall o :: o in options ==> categoryId != Some(o.value)
  {
    if options == [] then None
    else if categoryId == Some(options[0].value) then Some(options[0])
    else FindOption(options[1..], categoryId)
  }

  /** The category cell: a dash, or the option's caption and icon. */
  datatype CategoryCell = Dash | Badge(caption: string, icon: Icon)

  function CategoryCellOf(options: seq<TableCategoryOption>, categoryId: Option<string>): CategoryCell {
    match FindOption(options, categoryId)
    case None => Dash
    case Some(o) => Badge(o.caption, o.icon)
  }

  /** `FindOption` returns the first option whose value is the category id. */
  lemma {:induction false} FindOptionFirst(options: seq<TableCategoryOption>, categoryId: Option<string>, i: nat)
    requires i < |options| && categoryId == Some(options[i].value)
    requires forall j :: 0 <= j < i ==> categoryId != Some(options[j].value)
    ensures FindOption(options, categoryId) == Some(options[i])
    decreases i
  {
    if i > 0 {
      assert categoryId != Some(options[0].value);
      forall j | 0 <= j < i - 1
        ensures categoryId != Some(options[1..][j].value)
      {
        assert options[1..][j] == options[j + 1];
      }
      FindOptionFirst(options[1..], categoryId, i - 1);
    }
  }

  /**
   * Over the options made from a category list, a row shows a dash exactly
   * when its category id is missing or names no listed category; otherwise
   * it shows the caption and icon of the first category with that id.
   */
  lemma {:induction false} CategoryCellRules(categories: seq<Category>, categoryId: Option<string>)
    ensures var cell := CategoryCellOf(CategoriesToTableOptions(categories), categoryId);
            && (cell == Dash <==> categoryId.None? || forall c :: c in categories ==> c.id != categoryId.value)
            && (forall i ::
                  (0 <= i < |categories| && categoryId == Some(categories[i].id)
                   && (forall j :: 0 <= j < i ==> categories[j].id != categories[i].id)) ==>
                  cell == Badge(OptionLabel(categories[i].title, categories[i].slug), GetCategoryIcon(categories[i].slug)))
  {
    CategoryCellDash(categories, categoryId);
    CategoryCellFirst(categories, categoryId);
  }

  /** The dash half of `CategoryCellRules`. */
  lemma CategoryCellDash(categories: seq<Category>, categoryId: Option<string>)
    ensures CategoryCellOf(CategoriesToTableOptions(categories), categoryId) == Dash
            <==> categoryId.None? || forall c :: c in categories ==> c.id != categoryId.value
  {
    var options := CategoriesToTableOptions(categories);
    TableOptionsRules(categories);
    if categoryId.Some? && exists c :: c in categories && c.id == categoryId.value {
      var c :| c in categories && c.id == categoryId.value;
      var i :| 0 <= i < |categories| && categories[i] == c;
      assert options[i] in options && options[i].value == c.id;
    }
    if FindOption(options, categoryId).Some? {
      var o := FindOption(options, categoryId).value;
      var i :| 0 <= i < |options| && options[i] == o;
      assert categories[i] in categories;
    }
  }

  /** The badge half of `CategoryCellRules`. */
  lemma CategoryCellFirst(categories: seq<Category>, categoryId: Option<string>)
    ensures forall i ::
              (0 <= i < |categories| && categoryId == Some(categories[i].id)
               && (forall j :: 0 <= j < i ==> categories[j].id != categories[i].id)) ==>
              CategoryCellOf(CategoriesToTableOptions(categories), categoryId)
              == Badge(OptionLabel(categories[i].title, categories[i].slug), GetCategoryIcon(categories[i].slug))
  {
    var options := CategoriesToTableOptions(categories);
    TableOptionsRules(categories);
    forall i | 0 <= i < |categories| && categoryId == Some(categories[i].id)
                 && (forall j :: 0 <= j < i ==> categories[j].id != categories[i].id)
      ensures CategoryCellOf(options, categoryId)
              == Badge(OptionLabel(categories[i].title, categories[i].slug), GetCategoryIcon(categories[i].slug))
    {
      FindOptionFirst(options, categoryId, i);
    }
  }
}
