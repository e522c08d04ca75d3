/**
 * The dashboard's desktop sidebar: which menu entries a user sees, in
 * which order, and which one is highlighted for the current path.
 */
module DashboardSidebar {
  import opened JsString

  /** A dashboard menu entry (its icon is not modelled). */
  datatype MenuItem = MenuItem(title: string, slug: string)

  /** The settings pages only admins see. */
  predicate IsAdminSlug(slug: string) {
    slug == "/settings/categories" || slug == "/settings/about" || slug == "/settings/users"
  }

  /** The entries whose slug is an admin slug (`admin`) or not (`!admin`), in menu order. */
  function ItemsWhere(menu: seq<MenuItem>, admin: bool): (r: seq<MenuItem>)
    ensures |r| <= |menu|
  {
    if menu == [] then []
    else
      var rest := ItemsWhere(menu[1..], admin);
      if IsAdminSlug(menu[0].slug) == admin then [menu[0]] + rest else rest
  }

  /** The filter keeps only entries of the menu that are of the chosen kind. */
  lemma {:induction false} ItemsWhereMembers(menu: seq<MenuItem>, admin: bool)
    ensures forall m :: m in ItemsWhere(menu, admin) ==> m in menu && IsAdminSlug(m.slug) == admin
  {
    if menu != [] {
      ItemsWhereMembers(menu[1..], admin);
    }
  }

  /** `menuItems`: the entries for everyone. */
  function MenuItems(menu: seq<MenuItem>): seq<MenuItem> {
    ItemsWhere(menu, false)
  }

  /** `adminItems`: the admin entries, for admins only. */
  function AdminItems(menu: seq<MenuItem>, isAdmin: bool): seq<MenuItem> {
    if isAdmin then ItemsWhere(menu, true) else []
  }

  /** `visibleMenu`: the entries for everyone, then the admin entries. */
  function VisibleMenu(menu: seq<MenuItem>, isAdmin: bool): seq<MenuItem> {
    MenuItems(menu) + AdminItems(menu, isAdmin)
  }

  /** Every entry lands in exactly one of the two groups: together they are a rearrangement of the menu. */
  lemma {:induction false} PartitionCounts(menu: seq<MenuItem>)
    ensures multiset(ItemsWhere(menu, false)) + multiset(ItemsWhere(menu, true)) == multiset(menu)
  {
    if menu != [] {
      PartitionCounts(menu[1..]);
      assert menu == [menu[0]] + menu[1..];
    }
  }

  /** An entry of the given kind is kept by the filter for that kind. */
  lemma {:induction false} ItemsWhereKeeps(menu: seq<MenuItem>, admin: bool, m: MenuItem)
    requires m in menu && IsAdminSlug(m.slug) == admin
    ensures m in ItemsWhere(menu, admin)
  {
    if menu[0] != m {
      assert m in menu[1..];
      ItemsWhereKeeps(menu[1..], admin, m);
    }
  }

  /**
   * The filter keeps menu order: filtering two menus one after the other is
   * filtering each and joining the results.
   */
  lemma {:induction false} ItemsWhereAppend(a: seq<MenuItem>, b: seq<MenuItem>, admin: bool)
    ensures ItemsWhere(a + b, admin) == ItemsWhere(a, admin) + ItemsWhere(b, admin)
    decreases |a|
  {
    if a != [] {
      assert (a + b)[0] == a[0];
      assert (a + b)[1..] == a[1..] + b;
      ItemsWhereAppend(a[1..], b, admin);
    } else {
      assert a + b == b;
    }
  }

  /** The filter on a menu that starts with `x`: `x` kept exactly when it is of the chosen kind, then the rest filtered. */
  lemma ItemsWhereCons(x: MenuItem, menu: seq<MenuItem>, admin: bool)
    ensures ItemsWhere([x] + menu, admin) == (if IsAdminSlug(x.slug) == admin then [x] else []) + ItemsWhere(menu, admin)
  {
    assert ([x] + menu)[0] == x && ([x] + menu)[1..] == menu;
  }

  /** A menu with nothing of the other kind passes the filter unchanged. */
  lemma {:induction false} ItemsWhereAll(menu: seq<MenuItem>, admin: bool)
    requires forall i :: 0 <= i < |menu| ==> IsAdminSlug(menu[i].slug) == admin
    ensures ItemsWhere(menu, admin) == menu
  {
    if menu != [] {
      ItemsWhereAll(menu[1..], admin);
      assert [menu[0]] + menu[1..] == menu;
    }
  }

  /**
   * A non-admin sees exactly the entries without an admin slug, and no
   * admin page.
   */
  lemma NonAdminMenu(menu: seq<MenuItem>)
    ensures VisibleMenu(menu, false) == MenuItems(menu)
    ensures forall m :: m in VisibleMenu(menu, false) <==> m in menu && !IsAdminSlug(m.slug)
  {
    ItemsWhereMembers(menu, false);
    forall m | m in menu && !IsAdminSlug(m.slug)
      ensures m in VisibleMenu(menu, false)
    {
      ItemsWhereKeeps(menu, false, m);
    }
  }

  /**
   * An admin sees every entry exactly as often as the menu lists it, the
   * entries for everyone first and the admin pages after them.
   */
  lemma AdminMenu(menu: seq<MenuItem>)
    ensures multiset(VisibleMenu(menu, true)) == multiset(menu)
    ensures var v := VisibleMenu(menu, true);
            var k := |MenuItems(menu)|;
            && (forall i :: 0 <= i < k ==> !IsAdminSlug(v[i].slug))
            && (forall i :: k <= i < |v| ==> IsAdminSlug(v[i].slug))
  {
    PartitionCounts(menu);
    var v := VisibleMenu(menu, true);
    var k := |MenuItems(menu)|;
    forall i | 0 <= i < k
      ensures !IsAdminSlug(v[i].slug)
    {
      ItemsWhereMembers(menu, false);
      assert v[i] == MenuItems(menu)[i];
      assert v[i] in MenuItems(menu);
    }
    forall i | k <= i < |v|
      ensures IsAdminSlug(v[i].slug)
    {
      ItemsWhereMembers(menu, true);
      assert v[i] == ItemsWhere(menu, true)[i - k];
      assert v[i] in ItemsWhere(menu, true);
    }
  }

  /** `pathSlug`: `/` and the first two segments of the path after the leading one, joined by `/`. */
  function PathSlug(currentPath: string): string {
    var path := Split(currentPath, '/');
    var upper := if |path| < 3 then |path| else 3;
    "/" + Join(path[1..upper], '/')
  }

  /** For a path starting with `/`, the path slug is a prefix of the path. */
  lemma PathSlugIsPrefix(currentPath: string)
    requires |currentPath| >= 1 && currentPath[0] == '/'
    ensures StartsWith(currentPath, PathSlug(currentPath))
  {
    var path := Split(currentPath, '/');
    var rest := Split(currentPath[1..], '/');
    assert path == [""] + rest;
    var upper := if |path| < 3 then |path| else 3;
    assert path[1..upper] == rest[..upper - 1];
    JoinPrefix(rest, upper - 1, '/');
    JoinSplit(currentPath[1..], '/');
    var inner := Join(rest[..upper - 1], '/');
    assert currentPath == "/" + currentPath[1..];
    assert StartsWith(currentPath[1..], inner);
    assert ("/" + currentPath[1..])[..|inner| + 1] == "/" + currentPath[1..][..|inner|];
  }

  /** An entry is highlighted: the path is its slug, or a path of more than three parts has it as path slug. */
  predicate IsActive(currentPath: string, slug: string) {
    currentPath == slug || (|Split(currentPath, '/')| > 3 && PathSlug(currentPath) == slug)
  }

  /** The entry's icon is highlighted only when the path is exactly its slug. */
  predicate IsIconActive(currentPath: string, slug: string) {
    currentPath == slug
  }

  /**
   * A highlighted icon means a highlighted entry; the entry alone is also
   * highlighted on deeper pages under it, and a path of at most three parts
   * highlights only the exact entry.
   */
  lemma ActiveRules(currentPath: string, slug: string)
    ensures IsIconActive(currentPath, slug) ==> IsActive(currentPath, slug)
    ensures IsActive(currentPath, slug) && !IsIconActive(currentPath, slug) ==>
              |Split(currentPath, '/')| > 3 && slug == PathSlug(currentPath)
    ensures |Split(currentPath, '/')| <= 3 ==> (IsActive(currentPath, slug) <==> IsIconActive(currentPath, slug))
  {
  }

  /** Splitting a string without the separator gives the string alone. */
  lemma {:induction false} SplitWithout(a: string, sep: char)
    requires sep !in a
    ensures Split(a, sep) == [a]
  {
    if a != [] {
      SplitWithout(a[1..], sep);
      assert [a[0]] + a[1..] == a;
    }
  }

  /** Splitting peels off a first segment that does not contain the separator. */
  lemma {:induction false} SplitSegment(a: string, b: string, sep: char)
    requires sep !in a
    ensures Split(a + [sep] + b, sep) == [a] + Split(b, sep)
  {
    if a == [] {
      assert a + [sep] + b == [sep] + b;
      assert ([sep] + b)[1..] == b;
    } else {
      var s := a + [sep] + b;
      assert s[0] == a[0] && s[1..] == a[1..] + [sep] + b;
      SplitSegment(a[1..], b, sep);
      assert [a[0]] + a[1..] == a;
    }
  }

  /** `/a/b/c` splits into an empty first part and the three segments. */
  lemma SplitDeepPath(a: string, b: string, c: string)
    requires '/' !in a && '/' !in b && '/' !in c
    ensures Split("/" + a + "/" + b + "/" + c, '/') == ["", a, b, c]
  {
    var abc := a + "/" + (b + "/" + c);
    SplitThreeSegments(a, b, c);
    SplitSegment("", abc, '/');
    DeepPathShape(a, b, c);
  }

  /** `a/b/c` splits into its three segments. */
  lemma SplitThreeSegments(a: string, b: string, c: string)
    requires '/' !in a && '/' !in b && '/' !in c
    ensures Split(a + "/" + (b + "/" + c), '/') == [a, b, c]
  {
    SplitWithout(c, '/');
    SplitSegment(b, c, '/');
    SplitSegment(a, b + "/" + c, '/');
  }

  /** The path `/a/b/c`, grouped as an empty segment and the rest. */
  lemma DeepPathShape(a: string, b: string, c: string)
    ensures "/" + a + "/" + b + "/" + c == "" + "/" + (a + "/" + (b + "/" + c))
  {
  }

  /**
   * A page three levels deep, `/a/b/c`, highlights the entry `/a/b` but not
   * its icon.
   */
  lemma DeepPath(a: string, b: string, c: string)
    requires '/' !in a && '/' !in b && '/' !in c
    ensures var p := "/" + a + "/" + b + "/" + c;
            PathSlug(p) == "/" + a + "/" + b
            && IsActive(p, "/" + a + "/" + b) && !IsIconActive(p, "/" + a + "/" + b)
  {
    var p := "/" + a + "/" + b + "/" + c;
    SplitDeepPath(a, b, c);
    assert ["", a, b, c][1..3] == [a, b];
    assert Join([a, b], '/') == a + "/" + b;
    assert |p| > |"/" + a + "/" + b|;
  }
}
