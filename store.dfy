/**
 * The hosted database as the server actions see it: the `drafts`, `posts`,
 * `categories` and `profiles` tables, keyed by row id, and the paths of the
 * files in the cover-image bucket.
 */
module Store {
  import opened Wrappers

  type Id = string

  /** The six content columns a draft and its published post share. */
  datatype PostFields = PostFields(
    title: Option<string>, slug: Option<string>, categoryId: Option<Id>,
    description: Option<string>, content: Option<string>, image: Option<string>)

  /** A `drafts` row: the editor's copy of a post, its status and the published post it points to. */
  datatype Draft = Draft(id: Id, authorId: Id, fields: PostFields, status: Option<string>, postId: Option<Id>)

  /** A `posts` row: the published copy. */
  datatype Post = Post(id: Id, authorId: Id, fields: PostFields, published: bool)

  /** A `categories` row; `title`, `slug` and (defensively) the two settings may be null. */
  datatype Category = Category(
    id: Id, title: Option<string>, slug: Option<string>, createdAt: Option<string>,
    showInNav: Option<bool>, sortOrder: Option<int>)

  /** A `profiles` row, with the columns the settings action writes. */
  datatype Profile = Profile(id: Id, fullName: Option<string>, username: Option<string>, avatarUrl: Option<string>, isAdmin: bool)

  /** The whole database at one moment. */
  datatype Tables = Tables(
    drafts: map<Id, Draft>, posts: map<Id, Post>, categories: map<Id, Category>,
    profiles: map<Id, Profile>, blobs: set<string>)

  /** What the database answers to one write: success, or an error with its Postgres code and message. */
  datatype WriteOutcome = Written | Rejected(code: string, message: string)

  /** The Postgres code of a unique-constraint violation. */
  const UniqueViolation := "23505"

  /**
   * The message of the error that `.single()` reports when the query
   * matched no row (the database client's wording).
   */
  const NoRowMessage := "JSON object requested, multiple (or no) rows returned"

  /** An action's effect: the database afterwards, and the `ActionResult` it returns. */
  datatype Outcome<R> = Outcome(tables: Tables, result: Result<R, string>)

  /** `status === "published"`. */
  predicate IsPublished(d: Draft) {
    d.status == Some("published")
  }

  /** The post a draft points to, when `post_id` is truthy. */
  predicate HasPostId(d: Draft) {
    d.postId.Some? && d.postId.value != ""
  }

  /**
   * Published drafts and the posts rows agree: every published draft with a
   * post id points at an existing post with the same author and content, and
   * no two drafts point at the same post.
   */
  ghost predicate Synced(t: Tables) {
    && (forall id | id in t.drafts && IsPublished(t.drafts[id]) && HasPostId(t.drafts[id]) ::
          var d := t.drafts[id];
          d.postId.value in t.posts && t.posts[d.postId.value].fields == d.fields
          && t.posts[d.postId.value].authorId == d.authorId)
    && (forall a, b | a in t.drafts && b in t.drafts && a != b
          && IsPublished(t.drafts[a]) && HasPostId(t.drafts[a]) && IsPublished(t.drafts[b]) && HasPostId(t.drafts[b]) ::
          t.drafts[a].postId != t.drafts[b].postId)
  }

  /** The database: the tables, updated in place by the actions. */
  class Backend {
    var drafts: map<Id, Draft>
    var posts: map<Id, Post>
    var categories: map<Id, Category>
    var profiles: map<Id, Profile>
    var blobs: set<string>

    constructor (t: Tables)
      ensures Snapshot() == t
    {
      drafts, posts, categories, profiles, blobs := t.drafts, t.posts, t.categories, t.profiles, t.blobs;
    }

    /** The tables as a value. */
    function Snapshot(): Tables
      reads this
    {
      Tables(drafts, posts, categories, profiles, blobs)
    }
  }
}
