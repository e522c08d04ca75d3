# reverie — a verified model of the blog's publishing core

This project models, in Dafny, the core logic of **reverie**, a blog and
content-management system. It covers three parts.

- **The post renderer.** The editor stores a post as a document tree: nodes
  with a type, children, text, attributes and marks. The renderer turns that
  tree into HTML. It escapes text and attribute values, wraps marks in list
  order, clamps heading levels, and falls back to the trimmed input whenever
  the stored content is not a well-formed `doc`.
- **The draft and post publication flow.** The server actions `UpdatePost`,
  `PublishDraft` and `UnpublishPost` run against a database of drafts, posts,
  categories, profiles and a bucket of cover-image files. The editor calls
  them in sequence.
- **The rules around them.** These are:
  - the category and profile validation schemas;
  - the category create and update actions, and the settings action;
  - the settings panels' list updates: category create, update and delete, and
    the admin-flag toggle;
  - the dashboard sidebar's menu and highlighting;
  - the posts table's status and category columns, the category options and the
    category icon lookup;
  - the post-login redirect sanitiser.

Modules, one per source file of the core (the two shared ones first):

| module | file | models |
|---|---|---|
| `Wrappers` | wrappers.dfy | `Option` and `Result` |
| `JsString`, `JsNumber` | js_string.dfy, js_number.dfy | the JavaScript string and number built-ins the core relies on: `trim`, `split`, `join`, `toLowerCase`, `startsWith`, `includes`, `parseInt`, and number-to-decimal printing |
| `PostContent` | post_content.dfy | lib/post-content.ts |
| `Store` | store.dfy | the database tables, as a `Backend` class whose fields the action methods assign |
| `PublishDraftAction`, `UnpublishPostAction`, `UpdatePostAction` | publish_draft.dfy, unpublish_post.dfy, update_post.dfy | the three post actions |
| `Editor` | editor.dfy | the post editor component |
| `CategoryValidation`, `CreateCategoryAction`, `UpdateCategoryAction`, `CategorySettings` | categories.dfy, create_category.dfy, update_category.dfy, category_settings.dfy | the category schema, its two actions, and the categories settings panel |
| `ProfileValidation`, `UpdateSettingsAction`, `UserSettings` | profiles.dfy, update_settings.dfy, user_settings.dfy | the profile schemas, the settings action, and the users settings panel |
| `DashboardSidebar`, `PostTable`, `AuthCallback` | sidebar.dfy, post_table.dfy, auth_callback.dfy | the sidebar, the posts table with its data and icons, and the redirect sanitiser |

Each server action is modelled in two parts.

- A function `XSpec(t, …)` gives the tables after the call and its result:
  `Outcome(tables, Ok(value) | Err(message))`.
- A method `X(db, …)` updates a `Backend` step by step, as the source does. Its
  `ensures` ties the new state and the result to `XSpec` applied to the old
  state.

The database's answers to writes and storage copies are parameters of both,
so every write and storage error path can be reached. These answers are: a
write `Written` or `Rejected(code, message)`, a storage copy that fails or
succeeds, and the id the database assigns. The
lemmas state the source's promises about the `Spec` functions:

- which error each failure returns;
- that failures change nothing;
- what exactly a success writes;
- that published drafts and their posts stay in agreement (`Store.Synced`).

Library checks the core delegates are predicate parameters: zod's `.uuid()`
and `.url()`, and the post-update schema. `JSON.parse` is a function parameter
`string -> Option<Node>`.

The renderer's safety is stated twice. `Markup` says every `<` in the output
opens one of the renderer's own tags, and `StripTags` with `Unescape` gives
the text a reader sees. `ParseAttrs` reads an attribute list back the way an
HTML tokenizer reads double-quoted attributes: a space, a name up to `=`, and
a value from `="` up to the next `"`. The `…ReadsBack` lemmas show that every
attribute the renderer writes reads back as exactly the intended pairs, so a
quote in a value cannot end the attribute early.

## Model

| member | source | states |
|---|---|---|
| PostContent.EscapeHtmlIsEscaped | lib/post-content.ts:14-20 | escaped text has no `<`, `>` or `"`, and every `&` in it begins `&amp;`, `&lt;`, `&gt;` or `&quot;` |
| PostContent.UnescapeEscapeHtml | lib/post-content.ts:14-20 | escaping loses nothing: decoding the four entities gives back the original text |
| PostContent.RenderMarks | lib/post-content.ts:22-59 | the mark loop yields the escaped text wrapped by each mark in list order, and the result is renderer markup |
| PostContent.WrapMarksCons | lib/post-content.ts:25-57 | the first mark is the innermost wrapper and the later marks wrap around it |
| PostContent.InertMark | lib/post-content.ts:47-55 | an unknown mark type, and `textStyle` without a colour, add nothing |
| PostContent.LinkDefaults | lib/post-content.ts:42-45 | a link without `href` or `target` becomes `<a href="#">…</a>` |
| PostContent.WrapMarksMarkup | lib/post-content.ts:22-58 | wrapping in any marks keeps every `<` of the output at the start of one of the renderer's own tags; attribute quoting is stated by the next three rows |
| PostContent.AttrReadsBack | lib/post-content.ts:14-20 | an escaped attribute value holds no `"`, decodes to the original value, and the attribute reads back as exactly that one name/value pair |
| PostContent.LinkAttrsReadBack | lib/post-content.ts:42-45 | a link's attributes read back as exactly `href` (default `#`) and, when truthy, `target`, each escaped and decoding to the mark's own value |
| PostContent.ColorStyleReadsBack | lib/post-content.ts:47-49 | a truthy colour adds a `span` whose one attribute reads back as `style` = `color: ` and the escaped colour, decoding to `color: ` and the colour |
| PostContent.WrapMarksText | lib/post-content.ts:22-59 | marks add tags but never text: stripping the tags removes all they added |
| PostContent.HeadingLevel | lib/post-content.ts:69-72 | the heading level is clamped to 1..6, kept when already in range, and 1 when absent |
| PostContent.HeadingTagName | lib/post-content.ts:70-71 | for a clamped level, `h` followed by the level is one of the renderer's element names, `h1` to `h6` |
| PostContent.HeadingClampExample | lib/post-content.ts:69-72 | a heading above level 6 renders as an `h6` element, one below level 1 or without a level as `h1` |
| PostContent.StartAttrReadsBack | lib/post-content.ts:80-84 | an ordered list has a `start` attribute iff its start (default 1) is not 1, and the attribute reads back as that start |
| PostContent.ImageRendering | lib/post-content.ts:98-105 | the image case of the renderer's definition: a missing or empty `src` renders as `""`, any other as one `<img>` with its attributes (which attributes it carries is stated by `ImageAttrsReadBack`) |
| PostContent.ImageAttrsReadBack | lib/post-content.ts:98-104 | an image's attributes read back as escaped `src` and `alt`, then `title` exactly when the title is non-empty, then `loading="lazy"` |
| PostContent.TaskItemAttrsReadBack | lib/post-content.ts:110-114 | a task item's attributes read back as `data-type="taskItem"`, then `data-checked="true"` exactly when `checked` is `true` |
| PostContent.TaskListAttrsReadBack | lib/post-content.ts:107-108 | a task list's attributes read back as `data-type="taskList"` alone |
| PostContent.ParseRawAttr | lib/post-content.ts:44-45 | an attribute whose name has no `=` and whose value has no `"` reads back as its own pair, followed by whatever list comes after it |
| PostContent.LeafAndUnknownNodes | lib/post-content.ts:92-121 | the rule, break and unknown-type cases of the renderer's definition: rules and breaks ignore their children; an unknown node renders as its children, or as `""` without a `content` array |
| PostContent.LeavesHaveNoText | lib/post-content.ts:92-105 | rules, breaks and images contribute no text |
| PostContent.TypeNamesRecognised | lib/post-content.ts:26-121 | every known node or mark type string is classified as that type |
| PostContent.NodeMarkup | lib/post-content.ts:61-122 | every `<` in a rendered node starts a tag of one of the renderer's elements: document text cannot inject markup |
| PostContent.RenderedText | lib/post-content.ts:61-122 | stripping the tags of a rendered node and decoding the entities gives exactly the node's text |
| PostContent.BoldTextExample | lib/post-content.ts:27-64 | bold text `hi` renders as `<strong>hi</strong>` |
| PostContent.BoldParagraphExample | lib/post-content.ts:66-67 | a paragraph around it renders as `<p><strong>hi</strong></p>` |
| PostContent.LikelyJsonTrimmed | lib/post-content.ts:124-127 | whether content looks like JSON does not depend on surrounding whitespace |
| PostContent.PostContentEmpty | lib/post-content.ts:133-147 | the result is `""` exactly when the content is absent or blank |
| PostContent.PostContentPassThrough | lib/post-content.ts:136-137 | content that does not look like editor JSON comes back trimmed |
| PostContent.PostContentPassThroughIdempotent | lib/post-content.ts:136-137 | passing through twice equals passing through once |
| PostContent.PostContentNotADoc | lib/post-content.ts:139-146 | a parse failure or a root that is not a `doc` with a `content` array returns the trimmed input |
| PostContent.PostContentDoc | lib/post-content.ts:139-143 | a `doc` with a `content` array yields its children's HTML, or the trimmed input when that HTML is empty |
| PostContent.PostContentEmptyDoc | lib/post-content.ts:142-143 | a `doc` rendering to `""` returns the trimmed raw input |
| PostContent.PostContentRendered | lib/post-content.ts:140-143 | otherwise the result is the children's HTML: renderer markup whose text is the document's text |
| PublishDraftAction.PublishDraft | actions/post/publish-draft.ts:14-82 | the action's steps produce exactly the tables and result of `PublishDraftSpec` |
| PublishDraftAction.PublishErrors | actions/post/publish-draft.ts:14-57 | in order: no user gives "Not authenticated"; a missing or foreign draft "Draft not found"; a published draft its error; a 23505 insert the slug message, another insert error its own message; success iff none of these |
| PublishDraftAction.PublishFailureChangesNothing | actions/post/publish-draft.ts:14-57 | every failure leaves all tables and the bucket unchanged |
| PublishDraftAction.PublishSuccess | actions/post/publish-draft.ts:35-82 | success inserts one post copying the draft's author and content with `published = true`, marks the draft published with that post id (when the unchecked update takes effect), returns the draft's slug or `""`, and touches nothing else |
| PublishDraftAction.PublishCover | actions/post/publish-draft.ts:59-73 | the cover copy from `author/draftId/image` to `author/postId/image` happens only for a non-blank image, and a failed copy does not fail the publish |
| PublishDraftAction.PublishKeepsSynced | actions/post/publish-draft.ts:35-78 | with a fresh post id, publishing keeps each published draft in agreement with its post |
| UnpublishPostAction.UnpublishPost | actions/post/unpublish-post.ts:12-49 | the action's steps produce exactly the tables and result of `UnpublishPostSpec` |
| UnpublishPostAction.UnpublishErrors | actions/post/unpublish-post.ts:12-41 | no user, a missing or foreign draft, an unpublished draft and a rejected delete of its post (with the database's message) return their errors and change nothing; the call succeeds exactly when none of these happens |
| UnpublishPostAction.UnpublishSuccess | actions/post/unpublish-post.ts:32-49 | success deletes the post only when the draft has a post id, resets the draft to `draft` with no post id, keeps its other columns, and touches nothing else |
| UnpublishPostAction.UnpublishKeepsSynced | actions/post/unpublish-post.ts:32-47 | unpublishing keeps published drafts and posts in agreement |
| UnpublishPostAction.UnpublishUncheckedReset | actions/post/unpublish-post.ts:44-49 | a draft reset that does not take effect reports success yet leaves a published draft pointing at a deleted post |
| UnpublishPostAction.PublishThenUnpublish | actions/post/publish-draft.ts:35-78 | publishing a fresh draft and unpublishing it restores the posts table and the draft, apart from its status |
| UpdatePostAction.ResolveCategory | actions/post/update-post.ts:18-27 | the category written is the trimmed id iff it is non-blank and names a category, and `null` otherwise |
| UpdatePostAction.UpdatePost | actions/post/update-post.ts:16-80 | the action's steps produce exactly the tables and result of `UpdatePostSpec` |
| UpdatePostAction.UpdatePostEarlyErrors | actions/post/update-post.ts:16-58 | invalid input, a missing draft and a rejected draft write return their errors and write nothing |
| UpdatePostAction.UpdatePostWrites | actions/post/update-post.ts:40-77 | the draft gets the six values and keeps its status and post id; the post of a published draft gets the same values, and a failed post write leaves the draft written |
| UpdatePostAction.UpdatePostKeepsSynced | actions/post/update-post.ts:40-72 | a save whose writes succeed keeps published drafts and posts in agreement |
| UpdatePostAction.UpdatePostFailedSync | actions/post/update-post.ts:74-77 | a failed post write returns its error and leaves draft and post out of agreement |
| Editor.AllowedNumberOfImages | components/protected/editor/editor.tsx:85 | the upload limit plus the gallery size is 9 |
| Editor.CategoryIds | components/protected/editor/editor.tsx:123 | the offered ids are the categories' ids, in order |
| Editor.DefaultCategoryRules | components/protected/editor/editor.tsx:122-127 | the default category is the post's when offered, else the first category's, else `""` |
| Editor.DefaultValuesRules | components/protected/editor/editor.tsx:131-138 | the form defaults: `Untitled`, `post-` plus a uuid, image from the post or the cover file name or `""`, `Post description`; a present value, even `""`, is kept |
| Editor.SyncCoverRules | components/protected/editor/editor.tsx:148-152 | a non-blank cover file name replaces the image field and nothing else; syncing twice equals syncing once |
| Editor.OneButtonShown | components/protected/editor/editor.tsx:513-533 | exactly one of Publish and Unpublish is shown, Unpublish iff the draft is published |
| Editor.EditorView.constructor | components/protected/editor/editor.tsx:131-152 | the form starts from the default values followed by the cover sync |
| Editor.EditorView.OnSubmit | components/protected/editor/editor.tsx:154-177 | the save is `UpdatePost` with the form's values, and the router always returns to the post list |
| Editor.EditorView.HandlePublish | components/protected/editor/editor.tsx:179-214 | save with the form's values, then publish the same draft, as `HandlePublishChecked`; a failed save stops with the save-failed message; navigation to `/posts/<slug>` happens only on a successful publish |
| Editor.EditorView.HandleUnpublish | components/protected/editor/editor.tsx:216-228 | the database changes as `UnpublishPostSpec` says, and the loading alert is cleared afterwards |
| Editor.FailedSaveStillPublishes | components/protected/editor/editor.tsx:194-199 | as written, a save the schema rejects still publishes the draft's old values |
| Editor.CheckedPublishUsesSavedValues | components/protected/editor/editor.tsx:183-205 | with the guard checking the save's outcome, a failed save publishes nothing and a successful one publishes the saved values |
| AuthCallback.GetSafeRedirectPath | app/auth/callback/route.ts:14-25 | the redirect is always non-empty and starts with `/` |
| AuthCallback.RedirectCases | app/auth/callback/route.ts:14-24 | blank or absent gives `/dashboard`, `http://` or `https://` gives `/dashboard`, a leading `/` is kept, anything else gets `/` in front |
| AuthCallback.RedirectIdempotent | app/auth/callback/route.ts:14-25 | the result is trimmed and is its own safe path |
| AuthCallback.ProtocolRelativeKept | app/auth/callback/route.ts:19-23 | a protocol-relative value such as `//host` is returned unchanged |
| CategoryValidation.ParseCategoryValid | lib/validation/category.ts:3-14 | a parse succeeds iff title has length 1..100, slug has length 1..100 within `[a-z0-9-]`, sort order is ≥ 0, and the id is absent for create and a UUID for update; show_in_nav defaults to true, sort_order to 0 |
| CategoryValidation.FirstIssue | lib/validation/category.ts:3-14 | a missing or malformed id is reported before anything about the title |
| CategoryValidation.IssuesAreSchemaMessages | lib/validation/category.ts:3-14 | every issue carries one of the schema's messages |
| CategoryValidation.EmptySlugIssues | lib/validation/category.ts:6 | an empty slug is reported as both required and not matching the pattern |
| CategoryValidation.SlugPatternRejects | lib/validation/category.ts:6 | a slug with an upper-case letter or a space fails the pattern |
| CreateCategoryAction.IssueMessage | actions/category/create-category.ts:42-46 | a failed parse reports the first issue's message, else `Invalid data` |
| CreateCategoryAction.WriteError | actions/category/create-category.ts:32-38 | code 23505 gives the duplicate-slug message; any other code gives the database's message |
| CreateCategoryAction.CreateCategory | actions/category/create-category.ts:14-40 | the action's steps produce exactly the tables and result of `CreateCategorySpec` |
| CreateCategoryAction.CreateCategoryErrors | actions/category/create-category.ts:14-38 | the admin gate comes first, then validation, then the insert's error; each failure changes nothing; success iff none |
| CreateCategoryAction.CreateCategorySuccess | actions/category/create-category.ts:21-40 | success adds one row with the validated title, slug and defaulted settings, returns it, and changes nothing else |
| UpdateCategoryAction.UpdateCategory | actions/category/update-category.ts:14-43 | the action's steps produce exactly the tables and result of `UpdateCategorySpec` |
| UpdateCategoryAction.UpdateCategoryErrors | actions/category/update-category.ts:14-43 | non-admin, invalid input, an empty id, a rejected update and an id matching no row (`.single()`) return their errors and change nothing; the update succeeds exactly when none of these happens |
| UpdateCategoryAction.IdRequiredNeedsEmptyUuid | actions/category/update-category.ts:19-21 | the id-required error can only fire when the UUID check accepts `""` |
| UpdateCategoryAction.UpdateCategorySuccess | actions/category/update-category.ts:23-40 | only the row with the given id gets the four values, keeping its id and creation time; the new row is returned |
| CategorySettings.NormalizeSlugChar | components/protected/settings/protected-settings-categories.tsx:198-203 | each typed character becomes a slug character, and slug characters stay as they are |
| CategorySettings.NormalizeSlugProperties | components/protected/settings/protected-settings-categories.tsx:198-203 | the normalised slug keeps the length, uses only `[a-z0-9-]`, matches the schema's pattern when non-empty, and is idempotent |
| CategorySettings.NormalizeSlugFixedPoints | components/protected/settings/protected-settings-categories.tsx:198-203 | the slugs left unchanged are exactly those made of slug characters |
| CategorySettings.SortOrderInputReadsBack | components/protected/settings/protected-settings-categories.tsx:237-239 | a typed number reads back as itself, and text not starting with a number becomes 0 |
| CategorySettings.AppendCategory | components/protected/settings/protected-settings-categories.tsx:94-98 | a created category goes at the end, with earlier entries unchanged |
| CategorySettings.ReplaceByIdEffect | components/protected/settings/protected-settings-categories.tsx:109-114 | entries with the id become the returned category, others keep their place, length is kept |
| CategorySettings.RemoveByIdEffect | components/protected/settings/protected-settings-categories.tsx:124-127 | no entry with the id survives a delete, every other entry does |
| CategorySettings.RemoveByIdAppend | components/protected/settings/protected-settings-categories.tsx:124-127 | the survivors keep their order |
| CategorySettings.CreateThenDelete | components/protected/settings/protected-settings-categories.tsx:94-127 | creating a category with a fresh id and deleting it restores the list |
| CategorySettings.EditDefaults | components/protected/settings/protected-settings-categories.tsx:133-142 | the edit form has the row's id and every field present: a missing title or slug becomes `""`, a missing nav setting `true`, a missing sort order `0`, and present values are kept |
| CategorySettings.EditAfterCreate | components/protected/settings/protected-settings-categories.tsx:133-142 | editing a just-created row without changes passes the update schema with the same values |
| CategorySettings.CategoriesPanel.constructor | components/protected/settings/protected-settings-categories.tsx:90-142 | the panel starts with the given list, all dialogs closed and nothing submitting |
| CategorySettings.CategoriesPanel.HandleCreate | components/protected/settings/protected-settings-categories.tsx:90-102 | success appends and closes the dialog; failure keeps list and dialog |
| CategorySettings.CategoriesPanel.HandleUpdate | components/protected/settings/protected-settings-categories.tsx:104-118 | no id returns at once; success replaces by id and closes the dialog; failure keeps the list |
| CategorySettings.CategoriesPanel.HandleDelete | components/protected/settings/protected-settings-categories.tsx:120-131 | success removes by id and closes the confirmation; failure keeps the list |
| CategorySettings.CategoriesPanel.OpenEdit | components/protected/settings/protected-settings-categories.tsx:133-142 | the form gets the row's values with `""`, true and 0 for missing ones, and the dialog opens on the row |
| ProfileValidation.TrimLastName | lib/validation/profile.ts:12-16 | the last name is trimmed, and a blank or absent one becomes absent |
| ProfileValidation.TrimLastNameIdempotent | lib/validation/profile.ts:12-16 | the transform applied to its own output changes nothing |
| ProfileValidation.ParseProfileFormValid | lib/validation/profile.ts:3-19 | the form parses iff the first name has length 2..30, the last name at most 30 before trimming, and the avatar is a URL |
| ProfileValidation.LastNameCheckedBeforeTrim | lib/validation/profile.ts:12-16 | an over-long last name is refused even when it would fit once trimmed |
| ProfileValidation.ParseProfileValid | lib/validation/profile.ts:21-27 | the action schema needs only an id and a first name, with no length bounds, and keeps every value |
| ProfileValidation.FormValuesPassActionSchema | lib/validation/profile.ts:3-27 | values the form accepts, with an id, pass the action schema unchanged |
| UpdateSettingsAction.FullNameBoth | actions/settings/update-settings.ts:19 | with both names, the full name is `first last` trimmed, or the first name when that is blank |
| UpdateSettingsAction.FullNameFirstOnly | actions/settings/update-settings.ts:19 | without a last name, the trimmed first name, or the raw first name when that is blank |
| UpdateSettingsAction.FullNameLastOnly | actions/settings/update-settings.ts:19 | with an empty first name, the trimmed last name |
| UpdateSettingsAction.FullNameShape | actions/settings/update-settings.ts:19 | the full name is empty iff the first is empty and the last blank or absent |
| UpdateSettingsAction.UpdateSettings | actions/settings/update-settings.ts:15-30 | the action's steps produce exactly the tables and result of `UpdateSettingsSpec` |
| UpdateSettingsAction.UpdateSettingsErrors | actions/settings/update-settings.ts:15-35 | invalid input gives "Invalid profile data", a rejected write its message; neither changes anything; success returns true |
| UpdateSettingsAction.UpdateSettingsSuccess | actions/settings/update-settings.ts:16-24 | only the row with the given id changes: full name always, user name and avatar where given |
| UpdateSettingsAction.UpdateSettingsIdempotent | actions/settings/update-settings.ts:16-24 | saving the same settings twice equals saving once |
| UserSettings.SetAdminEffect | components/protected/settings/protected-settings-users.tsx:40-44 | the entries with the id get the new flag and nothing else; the others keep their place |
| UserSettings.ToggleTwiceRestores | components/protected/settings/protected-settings-users.tsx:39-96 | two successful toggles of one profile restore the list |
| UserSettings.UsersPanel.constructor | components/protected/settings/protected-settings-users.tsx:35-49 | the panel starts with the given list and no switch disabled |
| UserSettings.UsersPanel.BeginToggle | components/protected/settings/protected-settings-users.tsx:36 | while the update runs, the user's switch is disabled |
| UserSettings.UsersPanel.EndToggle | components/protected/settings/protected-settings-users.tsx:37-48 | afterwards the switch is enabled; success flips the flag, failure keeps the list |
| UserSettings.UsersPanel.HandleToggleAdmin | components/protected/settings/protected-settings-users.tsx:35-49 | the whole handler: switch cleared, list flipped on success only |
| DashboardSidebar.ItemsWhereMembers | components/protected/main/sidebars/protected-desktop-sidebar.tsx:11-24 | the filter keeps only menu entries of the chosen kind |
| DashboardSidebar.ItemsWhereAppend | components/protected/main/sidebars/protected-desktop-sidebar.tsx:11-24 | the filter keeps menu order: filtering two menus in a row is filtering each and joining the results |
| DashboardSidebar.ItemsWhereCons | components/protected/main/sidebars/protected-desktop-sidebar.tsx:11-24 | the filter's defining step on one entry: the entry is kept exactly when it is of the chosen kind, ahead of the filtered rest (order over whole menus is `ItemsWhereAppend`) |
| DashboardSidebar.PartitionCounts | components/protected/main/sidebars/protected-desktop-sidebar.tsx:11-24 | the two filters together are a rearrangement of the menu |
| DashboardSidebar.NonAdminMenu | components/protected/main/sidebars/protected-desktop-sidebar.tsx:11-25 | a non-admin sees exactly the entries without an admin slug |
| DashboardSidebar.AdminMenu | components/protected/main/sidebars/protected-desktop-sidebar.tsx:17-25 | an admin sees every entry once, non-admin entries first |
| DashboardSidebar.PathSlugIsPrefix | components/protected/main/sidebars/protected-desktop-sidebar.tsx:9-10 | the path slug of a path starting with `/` is a prefix of it |
| DashboardSidebar.DeepPath | components/protected/main/sidebars/protected-desktop-sidebar.tsx:9-60 | `/a/b/c` has path slug `/a/b`, highlights that entry but not its icon |
| DashboardSidebar.ActiveRules | components/protected/main/sidebars/protected-desktop-sidebar.tsx:48-60 | a highlighted icon implies a highlighted entry; otherwise the entry needs more than three parts and a matching path slug |
| PostTable.EffectiveStatus | components/protected/post/table/columns.tsx:67-91 | the effective status is `draft` for a missing or empty status, else the status |
| PostTable.StatusFilterRules | components/protected/post/table/columns.tsx:88-93 | the status filter keeps a row iff its effective status is selected |
| PostTable.StatusCellRules | components/protected/post/table/columns.tsx:67-77 | published and draft show their captions; any other status is shown verbatim |
| PostTable.FindStatus | components/protected/post/table/columns.tsx:69 | the lookup finds an entry with the value, or there is none |
| PostTable.OptionLabel | components/protected/post/table/data/data.ts:31 | the caption is the title, else the slug, else `Unnamed`; only a missing value falls through |
| PostTable.TableOptionsRules | components/protected/post/table/data/data.ts:26-34 | one option per category in order, with its id, caption and icon |
| PostTable.FindOption | components/protected/post/table/columns.tsx:36-37 | the lookup finds an option with the category id, or there is none |
| PostTable.CategoryFilterRules | components/protected/post/table/columns.tsx:57-59 | the category filter keeps a row iff it has a category id among the selected values, never a row without one; with selections drawn from the listed categories, a kept row shows a badge and never the dash |
| PostTable.CategoryCellRules | components/protected/post/table/columns.tsx:35-59 | the cell is a dash iff the id is missing or names no listed category; otherwise it shows the caption and icon of the first category with that id |
| PostTable.OwnIcon | lib/category-icons.tsx:7-12 | exactly the four table slugs have icons of their own |
| PostTable.CategoryIconRules | lib/category-icons.tsx:14-18 | the lookup ignores case, the four slugs get their icons, others and a missing slug the default |
| PostTable.ConstructorSlugHasNoIcon | lib/category-icons.tsx:18 | as written, the slug `constructor` yields an inherited member, not an icon |
| PostTable.CorrectedIconAgrees | lib/category-icons.tsx:16-19 | wherever the lookup as written yields an icon, it is the corrected lookup's |

## Left out

- JSON parsing: `JSON.parse` is the parameter `parse`; a parse that throws is `None`.
- HTML attribute parsing in general: `ParseAttrs` reads only the double-quoted ` name="value"` form the renderer writes; unquoted and single-quoted values are refused rather than read.
- JavaScript coercion of untyped attributes: heading `level` and list `start` are integers, `checked` a boolean and a link's `target` a string, so `hNaN`, string starts and the `String(...)` conversion of a non-string target are not modelled.
- Characters are Dafny characters rather than UTF-16 code units; `toLowerCase` is ASCII only.
- The backend itself (client, cookies, sessions, storage API) is the `Backend` class; row-level security and backend authorization are not visible, and the admin flag is an input.
- Unique constraints are failure inputs (`Rejected("23505", …)`), not checked by the model.
- Write and storage failures, the new ids and creation times are inputs; time and dates are not modelled.
- Failed reads are not inputs: a read returns the table's contents. So the draft fetches in UpdatePost, PublishDraft and UnpublishPost never fail on an existing draft: `fetchError.message` for an existing draft in UpdatePost (actions/post/update-post.ts:29-38) and "Draft not found" for an owned draft in PublishDraft and UnpublishPost (actions/post/publish-draft.ts:19-28, actions/post/unpublish-post.ts:17-26) are not reached. Likewise the category lookup in UpdatePost (actions/post/update-post.ts:21-26) clears `categoryId` only when the category does not exist, never because the lookup failed.
- `try`/`catch` paths for thrown exceptions and their "Failed to …" messages are not modelled.
- The post update schema (lib/validation/post) is not part of this model: its verdict is the input `schemaOk`.
- zod's `.uuid()` and `.url()` are predicate parameters; the messages are zod's English defaults.
- `.single()` on a select or update that matches no row returns the stand-in message `NoRowMessage`; the client's actual wording is not modelled.
- The thin single-call actions (delete-category, update-profile-admin, about page, get-profiles, publish date) and lib/categories.ts are not modelled.
- Toasts, `router.refresh`, form resets, icons and the presentational components are not modelled.
- Concurrency: the windows between the draft and post writes are sequential steps with failure inputs, not interleavings.
- Editor.EditorView.OnSubmit: the editor content state is a parameter, and the placeholder document too.
- Editor.DefaultValues: `coverImageFileName` is modelled as optional (it may be absent at runtime).
- CategorySettings.SortOrderInput: `parseInt` on text with a fraction, an exponent or digits above 2^53 is not modelled beyond its integer prefix.
- CategorySettings.CategoriesPanel.HandleCreate, CategorySettings.CategoriesPanel.HandleUpdate, CategorySettings.CategoriesPanel.HandleDelete: each sets `isSubmitting` before its request and clears it after; with the request's answer a parameter the two writes are back to back, so the busy state shown while the request runs is not captured and only the final state is stated.
- Editor.EditorView.HandlePublish follows the corrected save guard of the second finding below; the guard as written is `Editor.HandlePublishSpec`.
- The email route and the login flows, including `getLoginRedirectPath`, are not modelled.

## Findings

| source | as written | input that shows it | evidently intended | confidence | as-written member | corrected member |
|---|---|---|---|---|---|---|
| lib/category-icons.tsx:18 | looks the slug up in a plain object, so inherited members are found too | a category whose slug is `constructor` (the schema accepts it) | only the four table slugs have icons; any other slug gets the default icon | not executed | PostTable.GetCategoryIconAsWritten, PostTable.ConstructorSlugHasNoIcon | PostTable.GetCategoryIcon, PostTable.CategoryIconRules |
| components/protected/editor/editor.tsx:194 | skips the publish only when the save returned no object, but the save always returns one | a save the post schema rejects (`{success: false}`) | publish only after a successful save, as the "Save failed" message says | not executed | Editor.HandlePublishSpec, Editor.FailedSaveStillPublishes | Editor.HandlePublishChecked, Editor.CheckedPublishUsesSavedValues |
