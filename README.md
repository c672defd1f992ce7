# BumpCore engagement and article core, modelled in Dafny

BumpCore is a FastAPI health-community service backed by SQLite. This
project models three parts of it:

- **The community board** (`app/community`). It covers posts with a type,
  tags, an author, a hot flag and two denormalised counters, plus like rows
  (at most one per post and user) and comments. The writes are `create_post`,
  `like_post` (a like/unlike toggle) and `create_comment`. The reads are
  `get_post`, `list_posts` (optional filters, newest first, paged, with a
  total) and `list_comments`.
- **The health-article helpers**. They live in `app/health/utils.py:8-99`,
  with a verbatim copy at `app/auth/utils.py:53-144`: line `n` of the first
  file is line `n + 45` of the second. The copy in `app/auth/utils.py` is the
  live one, imported by the article router. The helpers are lookup by id, a
  filtered, sorted and paged listing, a count under the same filters, and
  create, update (a field-by-field overwrite) and delete. Each is modelled
  once. The table below cites whichever copy fits, and every article member
  models both.
- **The user helpers** of `app/auth/utils.py`: lookup by email or username,
  `authenticate_user`, and `create_user`.

Tables are sequences of rows in rowid order. The read handlers are functions
of these sequences. The writes are methods of a table object: `Store` for
the community tables, `ArticleTable`, and `UserTable`.

Each write states its entire new state. Beside it:

- pure lemmas prove the promised properties of that state change;
- two invariants are kept by every handler: `Valid` (the schema's keys and
  unique rules) and `CountersHold` (each post's `likes_count` and
  `comments_count` equal its number of like and comment rows).

`CountersHold` is preserved in the form "if it held before, it holds after".
Nothing in the program checks it, and data written by other means need not
satisfy it.

SQL semantics follow SQLite, which is the configured database:

- `LIKE '%x%'` is ASCII-case-insensitive substring containment (`Text.LikeContains`).
- Text ordering is binary, that is, by code point (`Text.TextLe`).
- `OFFSET` treats a negative value as 0, and a negative `LIMIT` sets no bound (`Query.Window`).
- A row inserted without an id gets one more than the largest id in the table.
- `ORDER BY` leaves the order of equal keys open. Each ordered result is
  therefore stated as the window of *some* sorted permutation of the matching
  rows (`Query.IsPageOf`), never as one fixed permutation.

Modules:

| file | module | what |
|---|---|---|
| wrappers.dfy | Wrappers | `Option`, `Result` |
| text.dfy | Text | ASCII upper-casing, substring, `LIKE` containment, binary text order |
| query.dfy | Query | filter, sort (a permutation that is sorted), OFFSET/LIMIT window, row removal |
| post_type.dfy | PostTypes | the `PostType` enumeration and its case-insensitive lookup |
| community.dfy | Community | post, comment and like rows, body validation and defaults, row counts, the like toggle |
| community_queries.dfy | CommunityQueries | `get_post`, `list_posts`, `list_comments`, tag serialisation |
| community_store.dfy | CommunityStore | the `Store` class with the three write handlers, its schema, and `create_comment` as written |
| articles.dfy | Articles | the article lookups and listings, and `ArticleTable` |
| accounts.dfy | Accounts | the user lookups, `authenticate_user`, and `UserTable` |

## Model

| member | source | states |
|---|---|---|
| `PostTypes.FindMember` | app/community/models.py:18-20 | the member found has the searched value, and no member is found only when none has it |
| `PostTypes.Missing` | app/community/models.py:13-21 | `_missing_`: a member exactly when the input is a string whose upper-case form is that member's value; no member for a non-string or when no value matches, in both directions |
| `PostTypes.Coerce` | app/community/models.py:8-21 | a member is produced only for a string whose upper-case form is that member's value |
| `PostTypes.CoerceExact` | app/community/models.py:8-11 | "GENERAL", "QUESTION" and "EXPERIENCE" give their own members |
| `PostTypes.CoerceCaseInsensitive` | app/community/models.py:13-20 | any string whose upper-case form is a member's value gives that member |
| `PostTypes.CoerceNone` | app/community/models.py:15-21 | no member exactly when the input is not a string or its upper-case form is no member's value (both directions), so there is no fallback |
| `PostTypes.CoerceIdempotent` | app/community/models.py:17-20 | coercing the value of a coerced member gives the same member |
| `PostTypes.LowerCaseQuestion` | app/community/models.py:16-20 | "question" coerces to QUESTION |
| `PostTypes.UnknownTypeHasNoFallback` | app/community/models.py:21 | "news" coerces to no member, not to GENERAL |
| `Community.ValidatePostCreate` | app/community/schemas.py:25-31 | a body is refused exactly when it gives a type that coerces to no member; otherwise title and content are kept, a missing type is GENERAL and missing tags are empty |
| `Community.NewPost` | app/community/router.py:24-27 | the row `Post(**post.model_dump(), author_id=...)` builds: the body's title, content, type and tags, the author, and the column defaults of app/community/models.py:29-40 (0 likes, 0 comments, not hot, both timestamps the clock reading). Its properties are stated by `FreshPostDefaults` and `Store.CreatePost` |
| `Community.FreshPostDefaults` | app/community/models.py:29-40 | a post created without type or tags is GENERAL and untagged, with 0 likes, 0 comments, not hot, created and updated now |
| `Community.FindLike` | app/community/router.py:82-85 | the index found holds the (post, user) like, and none is found exactly when the like is absent |
| `Community.LikeCountRemove` | app/community/router.py:89-90 | deleting a like row lowers its post's row count by one and no other post's |
| `Community.LikeCountAppend` | app/community/router.py:93-95 | adding a like row raises its post's row count by one and no other post's |
| `Community.CommentCountAppend` | app/community/router.py:119-121 | adding a comment raises its post's comment count by one and no other post's |
| `Community.CommentCountIsListed` | app/community/router.py:133-136 | a post's comment count is the number of comments `list_comments` pages through |
| `Community.ToggleLike` | app/community/router.py:82-95 | the like rows after one `like_post`: the pair's row found by `FindLike` is deleted, or a row for the pair is appended. Its effect is stated by `ToggleLikeEffect` |
| `Community.ToggleLikeEffect` | app/community/router.py:87-95 | one toggle keeps at most one row per pair, flips the presence of the pair's row and no other pair's, moves the post's like rows by -1 when liked and +1 otherwise, and leaves every other post's rows alone |
| `Community.ToggleTwice` | app/community/router.py:82-97 | two toggles by the same user on the same post keep at most one row per pair, restore the set of like rows and every post's like-row count, and the two moves of `likes_count` (-1 then +1, or +1 then -1) cancel |
| `Community.ToggleKeepsCounters` | app/community/router.py:82-95 | post by post: every `likes_count` that equalled its post's like rows still does after the toggle and the matching ±1 on the toggled post, every `comments_count` that equalled its comment rows still does, so all-exact counters stay all-exact |
| `Community.CommentKeepsCounters` | app/community/router.py:114-122 | post by post: after a comment on the post and +1 on its `comments_count`, every counter that equalled its rows still does, so all-exact counters stay all-exact |
| `Community.NewPostKeepsCounters` | app/community/models.py:35-36 | a new post with zero counters that no row references has exact counters, every other post's exact counters stay exact, so all-exact counters stay all-exact |
| `CommunityQueries.PostIndex` | app/community/router.py:78 | the first row with the id; none exactly when no row has it |
| `CommunityQueries.GetPost` | app/community/router.py:62-70 | the post returned is a stored post with that id; NotFound exactly when no post has the id |
| `CommunityQueries.GetPostUnique` | app/community/router.py:67 | with unique ids, `get_post` returns the one post with that id |
| `CommunityQueries.EscapeChar` | app/community/models.py:30 | one character as the JSON column writes it: printable ASCII, never empty, and the character itself exactly when it is printable ASCII other than `"` and `\` |
| `CommunityQueries.JsonEscapeKeepsPlain` | app/community/models.py:30 | escaping leaves a text unchanged exactly when it is plain printable ASCII without `"` and `\`, in both directions |
| `CommunityQueries.Serialize` | app/community/models.py:30 | the text the JSON column stores for a tag list: `[`, the escaped and quoted tags joined by ", ", `]`; every character of it is printable ASCII |
| `CommunityQueries.MemberTagMatches` | app/community/router.py:47-49 | the stored text of a post's tags contains each of its tags in escaped form, so the filter with that escaped form finds the post |
| `CommunityQueries.PlainTagMatches` | app/community/router.py:47-49 | a post carrying a plain ASCII tag is found by the tag filter with that tag |
| `Text.LikeNeverFindsUnprintable` | app/community/router.py:49 | `LIKE` on printable text never finds a needle holding a character outside printable ASCII |
| `CommunityQueries.NonAsciiTagNeverMatches` | app/community/router.py:47-49 | a tag argument holding any non-ASCII or control character matches no post, even one carrying exactly that tag |
| `CommunityQueries.EscapedTagExample` | app/community/router.py:47-49 | the tag U+6C42 U+52A9 is stored as `["\u6c42\u52a9"]`, and filtering by it finds nothing |
| `CommunityQueries.TagMatchIsApproximate` | app/community/router.py:49 | the tag filter is containment in the stored text: the tags ["ab"] match "a" and "A" |
| `CommunityQueries.FilteredPosts` | app/community/router.py:41-49 | the four chained `if` filters in source order, each a subsequence of the posts; `FilteredIsConjunction` states what they select |
| `CommunityQueries.FilteredIsConjunction` | app/community/router.py:41-49 | the chained filters select exactly the posts meeting every supplied option. Type, author and tag apply only when truthy; `is_hot` applies whenever given, False included |
| `CommunityQueries.NewerFirstIsOrder` | app/community/router.py:55 | newest-first by `created_at` is a total preorder |
| `CommunityQueries.Offset` | app/community/router.py:56 | the page offset is non-negative for page >= 1 and a non-negative page size |
| `CommunityQueries.ListPosts` | app/community/router.py:33-60 | total = number of matching posts; every listed post is stored and matches; at most `page_size` posts, newest first; the page is the window at `(page-1)*page_size` of the matches in some newest-first order |
| `CommunityQueries.ListPostsTotalIgnoresPaging` | app/community/router.py:51-52 | the total does not depend on `page` or `page_size` |
| `CommunityQueries.ListPostsPageLength` | app/community/router.py:55-58 | for page >= 1 and page_size >= 1, the page holds `page_size` posts while enough remain after the offset, and the rest otherwise |
| `CommunityQueries.DefaultListPosts` | app/community/schemas.py:53-59 | with no query parameters the total is the number of posts, the page has min(20, number of posts) posts, and it is the first 20 of some newest-first ordering of all posts |
| `CommunityQueries.ListComments` | app/community/router.py:126-142 | only comments of that post, at most `page_size`, newest first, forming the window at `(page-1)*page_size` of the post's comments in some newest-first order |
| `CommunityQueries.ListCommentsOfUnknownPost` | app/community/router.py:133-136 | a post with no comments, existing or not, lists as empty rather than failing |
| `CommunityQueries.ListCommentsSingle` | app/community/router.py:136-140 | a post's only comment is its whole first page |
| `Query.Window` | app/community/router.py:56-57 | the OFFSET/LIMIT window holds the rows from the offset on, in order, and has exactly min(limit, rows left) rows, with a negative limit meaning no bound |
| `CommunityStore.Store.CreatePost` | app/community/router.py:18-31 | exactly one new post carrying the body, the author and the column defaults; the other tables are unchanged; the new post's counters are exact, every other post's exact counters stay exact, and the schema is kept |
| `CommunityStore.Store.LikePost` | app/community/router.py:72-101 | unknown post: NotFound and nothing changes. Otherwise likes become the toggle of the pair, only that post's row changes: `likes_count` moves (-1 if the pair was liked, +1 if not) and `updated_at` becomes now; the reply is success with the new stored count; post by post, exact counters stay exact, and the schema is kept |
| `CommunityStore.Store.LikeTwice` | app/community/router.py:72-101 | two like requests by one user on one post: unknown post gives NotFound twice and no change. Otherwise the like rows, every post's like-row count and every `likes_count` end as they began, only the post's `updated_at` changes (to the second clock reading), and the second reply carries the original count |
| `CommunityStore.LikeTwiceRestores` | app/community/router.py:82-97 | a toggle followed by a toggle of the same pair gives back the posts with only `updated_at` changed, the same like rows and the same row counts |
| `CommunityStore.Store.CreateComment` | app/community/router.py:103-124 | unknown post: NotFound and nothing changes. Otherwise exactly one comment with that post, author, content and time is appended, and only that post's row changes: `comments_count` rises by 1 and `updated_at` becomes now; post by post, exact counters stay exact, and the schema is kept |
| `CommunityStore.NewPostKeepsSchema` | app/community/router.py:24-29 | inserting the next post keeps keys unique and every reference valid |
| `CommunityStore.ToggleKeepsSchema` | app/community/models.py:69-72 | the like toggle keeps at most one like row per (post_id, user_id) |
| `CommunityStore.CommentKeepsSchema` | app/community/models.py:45-48 | a comment on an existing post keeps comment ids unique and references valid |
| `CommunityStore.FirstClash` | app/community/router.py:114-118 | finds a keyword both unpacked from the body and passed explicitly, or reports that none exists |
| `CommunityStore.CommentRowAsWritten` | app/community/router.py:114-118 | the comment construction as Python evaluates it: a failure is a keyword both in the body's fields and among the explicit keywords; a success would carry the body's content, the path's post and the author |
| `CommunityStore.CreateCommentAsWritten` | app/community/router.py:103-118 | `create_comment` as written: NotFound for an unknown post; on an existing post any failure is a duplicate keyword |
| `CommunityStore.CreateCommentAsWrittenNeverSucceeds` | app/community/router.py:110-118 | as written, `create_comment` always fails, and on an existing post the failure is the duplicate `post_id` keyword |
| `CommunityStore.EngagementScenario` | app/community/router.py:72-142 | post, like, unlike, then a comment through the corrected `create_comment` of "## Findings" (as written that step raises TypeError and no comment is stored): likes end at 0 with no like rows, the comment count is 1, `updated_at` is the comment's time, and `list_comments` page 1 of size 20 is exactly that comment |
| `Articles.GetArticle` | app/auth/utils.py:53-54 | the article returned is stored and carries the id; None exactly when no article has it |
| `Articles.GetArticleUnique` | app/health/utils.py:8-9 | with unique ids, `get_article` returns the one article with that id |
| `Articles.FilteredArticles` | app/auth/utils.py:66-78 | the three chained `if` filters (category, tag, search) in source order, each a subsequence of the rows; `Articles.FilteredIsConjunction` states what they select |
| `Articles.FilteredIsConjunction` | app/auth/utils.py:68-78 | the chained filters select exactly the articles meeting every truthy argument: category equal, tag inside `tags`, search inside title or content |
| `Articles.ArticleOrderIsOrder` | app/health/utils.py:35-44 | each of the four orderings (created_at or title, asc or desc) is a total preorder |
| `Articles.GetArticles` | app/auth/utils.py:56-91 | every result is stored and matches the filters; at most `limit` rows; non-increasing or non-decreasing in created_at or title as `sort_by` and `sort_desc` ask; for those keys, the `[skip, skip+limit)` window of some ordering of the matches; for any other `sort_by`, that window of the matches in table order |
| `Articles.GetArticlesLength` | app/health/utils.py:46 | the listing holds `limit` rows while enough matching rows remain after `skip`, and the rest otherwise |
| `Articles.GetArticlesCount` | app/auth/utils.py:93-113 | the count is the number of articles matching the same three conditions |
| `Articles.CountIsUnpagedListing` | app/health/utils.py:48-68 | the count equals the length of the listing with no skip and no limit, under any sort |
| `Articles.EmptyFiltersCountAll` | app/health/utils.py:56-66 | with no truthy argument every article is counted |
| `Articles.DefaultArticlesPage` | app/auth/utils.py:56-91 | with no arguments the listing has min(10, number of articles) rows in descending `created_at` order, and it is the first 10 of some descending-`created_at` ordering of all articles |
| `Articles.NextRowId` | app/health/models.py:8 | a new id exceeds every id in the table |
| `Articles.NewArticle` | app/health/utils.py:71-78 | the new row carries the five request fields and `now`, under an id no stored article has |
| `Articles.CreateThenGet` | app/health/utils.py:70-82 | after an insert the new id finds the new row, every other id finds what it found before, and ids stay unique |
| `Articles.ArticleTable.CreateArticle` | app/auth/utils.py:115-127 | exactly one row is appended, carrying the five fields; existing rows are unchanged |
| `Articles.SetField` | app/auth/utils.py:133 | one `setattr` sets that field, leaves the other fields, the id and created_at alone |
| `Articles.Overwritten` | app/health/utils.py:87-88 | after the field loop each of the five fields is the request's, and id and created_at are kept |
| `Articles.OverwriteIdempotent` | app/health/utils.py:84-91 | updating twice with the same body equals updating once |
| `Articles.UpdateThenGet` | app/health/utils.py:84-91 | after an update the id finds the overwritten row and every other id finds what it found before |
| `Articles.ArticleTable.UpdateArticle` | app/auth/utils.py:129-136 | missing id: None and no change. Otherwise the `setattr` loop over the five request fields replaces only that row with its overwritten form, which is returned |
| `Articles.RemoveRow` | app/auth/utils.py:141 | deleting a row keeps exactly the rows with another id, which stay unique |
| `Articles.DeleteThenGet` | app/health/utils.py:93-99 | after a delete the id is absent, every other article is still there, and every other id finds what it found before |
| `Articles.ArticleTable.DeleteArticle` | app/auth/utils.py:138-144 | true exactly when an article had the id; then only that row is removed, else nothing changes |
| `Accounts.GetUserByEmail` | app/auth/utils.py:14-15 | the user returned has the email; None exactly when no user has it |
| `Accounts.GetUserByUsername` | app/auth/utils.py:17-18 | the user returned has the username; None exactly when no user has it |
| `Accounts.GetUserByEmailUnique` | app/auth/models.py:10 | with unique emails, the lookup returns the one user with that email |
| `Accounts.AuthenticateUser` | app/auth/utils.py:37-43 | a user is returned exactly when one with the email exists and the verifier accepts the password against its hash, in both directions; otherwise the False result |
| `Accounts.AuthenticateUnknownEmail` | app/auth/utils.py:38-40 | an unknown email is refused whatever the password and verifier |
| `Accounts.AuthenticateKnownUser` | app/auth/utils.py:41-43 | with unique emails, a stored user is authenticated exactly when the verifier accepts its hash |
| `Accounts.NextUserId` | app/auth/models.py:9 | a new id exceeds every id in the table |
| `Accounts.NewUser` | app/auth/utils.py:20-28 | the new row has the body's email, username and optional fields, the given hash, is active, is stamped now, and has a fresh id |
| `Accounts.AppendKeepsUnique` | app/auth/models.py:9-11 | a row clashing on no unique column keeps id, email and username unique |
| `Accounts.UserTable.CreateUser` | app/auth/utils.py:20-32 | a taken email or username is refused with no change; otherwise exactly the new row is appended |
| `Accounts.CreatedUserAuthenticates` | app/auth/utils.py:20-43 | a freshly created user authenticates with the password whose hash was stored |

## Left out

- I/O and the framework. HTTP routing, FastAPI validation plumbing, the
  404/400/401 mapping in the routers, sessions and `commit`/`refresh` are not
  modelled. Each handler is one atomic step on the tables.
- Concurrency and retries. Handlers run one at a time. There are no
  interleavings, and there is no retry on a uniqueness violation (the code
  has none).
- The clock. `datetime.utcnow()` and `datetime.now().isoformat()` are
  parameters: an integer for community rows, an ISO string for articles.
  The model gives each handler ONE clock reading. The source calls
  `utcnow` once per defaulted or `onupdate` column
  (app/community/models.py:39, 40 and 54). So a new post's `created_at` and
  `updated_at`, and in `create_comment` the comment's `created_at` and the
  post's new `updated_at`, can differ by microseconds. The model does not
  capture that difference.
- `Community.FreshPostDefaults` and `CommunityStore.EngagementScenario`: the
  equalities they state between those timestamps (`createdAt == updatedAt`,
  the post's `updatedAt` equal to the comment's time) hold under the
  one-reading clock only. The program guarantees them only up to the gap
  between two readings.
- The current user. `get_current_user` is not part of this model; its id is a parameter.
- Password hashing and tokens. bcrypt is not modelled: `authenticate_user`
  takes the verifier as a function parameter, and `create_user` takes the
  hash. JWT creation (`create_access_token`) is left out.
- ORM joins. `get_post` and `list_comments` join the author. The model
  assumes every referenced user exists, so the joins drop no row.
- Like and comment rows carry only what the handlers read. The like row's own
  id and `created_at` are not modelled.
- Unicode and collation. `str.upper` is taken as ASCII-only, so non-ASCII
  case mappings such as 'ı' to 'I' are not captured. `LIKE` is SQLite's
  ASCII-case-insensitive match. `%` and `_` inside a search or tag argument
  are treated as literal characters, not as wildcards.
- Tag serialisation. `CommunityQueries.Serialize` is `json.dumps` with its
  defaults: ", " separators and `ensure_ascii` escaping. Tags are taken to be
  strings. Rows written by other means than the ORM can hold unescaped text;
  the model describes only rows the ORM wrote.
- Column widths (`String(200)` and the like) and SQL NULL values in article
  and user columns are not modelled; every stored field is a string.
- Integer width. Ids, counters and `(page-1)*page_size` are unbounded. SQLite's
  64-bit overflow is not modelled.
- Community ids. They come from a counter starting at 1. There is no
  community delete, so this equals SQLite's "largest id + 1" for a table that
  starts empty.
- `Accounts.UserTable.CreateUser`: when both the email and the username are
  taken, it reports the email. SQLite may name either unique index in its
  IntegrityError, and in the source that error propagates out of `commit`
  rather than being returned. `EmailStr` validation is not modelled.
- Articles without a recognised `sort_by`: the listing is given in table
  (rowid) order. SQLite does not promise any order here.
- `app/auth/utils.py` imports `models` from `app.auth`, which defines only
  `User`. The return annotation `Optional[models.HealthArticle]` at
  app/auth/utils.py:53 is evaluated when the module is imported, so the
  import fails with AttributeError. With it fail the auth and article
  routers that app/main.py:4-5 imports, and so the application does not
  start as written. The model treats `models.HealthArticle` as the
  health-article table and describes the helpers as they are evidently
  meant to run.
- The seed script. `scripts/create_test_data.py` stores `likes_count` values
  with no like rows behind them, so its data violates `CountersHold`. It is
  not an initial state here; the store starts empty.
- Unmounted router. The community router is not mounted in `app/main.py`.
  The model describes its handlers as written.
- Where documentation and code disagree, the model follows the code:
  - an unrecognised post type refuses the request; it does not fall back to GENERAL;
  - `list_comments` for an unknown post returns an empty list, not a 404.

## Findings

| source | as written | input that shows it | evidently intended | confidence | as-written member | corrected member |
|---|---|---|---|---|---|---|
| app/community/router.py:114-118 | The comment row is built by unpacking the body, then also passing `post_id` as a keyword. The body schema `CommentCreate` (app/community/schemas.py:16-17) already has a `post_id` field, so Python raises TypeError for a repeated keyword argument before the counter update or commit. | POST /community/posts/1/comments with body {"content": "hi", "post_id": 1}, where post 1 exists | one comment on the path's post, with the body's content and the current user as author, and `comments_count` + 1 | high, not executed | `CommunityStore.CreateCommentAsWrittenNeverSucceeds` | `CommunityStore.Store.CreateComment` |
