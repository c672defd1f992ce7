/** The state-changing handlers of app/community/router.py over one store
    holding the three community tables. Each handler is one transaction. */
module CommunityStore {
  import opened Wrappers
  import opened Community
  import opened CommunityQueries
  import Query

  /** The body of like_post's reply. */
  datatype LikeResponse = LikeResponse(success: bool, likesCount: int)

  class Store {
    var posts: seq<Post>
    var likes: seq<Like>
    var comments: seq<Comment>
    var nextPostId: int
    var nextCommentId: int

    ghost predicate Valid()
      reads this
    {
      Schema(posts, likes, comments, nextPostId, nextCommentId)
    }

    /** The counters are exact caches of the row counts; the handlers keep
        this, but nothing demands it of the data they start from. */
    ghost predicate CountersHold()
      reads this
    {
      CountersExact(posts, likes, comments)
    }

    constructor ()
      ensures Valid() && CountersHold()
      ensures posts == [] && likes == [] && comments == []
    {
      posts, likes, comments := [], [], [];
      nextPostId, nextCommentId := 1, 1;
    }

    /** create_post: one new row carrying the body, the current user as
        author and the column defaults. */
    method CreatePost(p: PostCreate, authorId: int, now: int) returns (post: Post)
      requires Valid()
      modifies this
      ensures Valid()
      ensures post == NewPost(old(nextPostId), p, authorId, now)
      ensures posts == old(posts) + [post] && likes == old(likes) && comments == old(comments)
      ensures nextPostId == old(nextPostId) + 1 && nextCommentId == old(nextCommentId)
      ensures LikesExactAt(posts, likes, |posts| - 1) && CommentsExactAt(posts, comments, |posts| - 1)
      ensures forall j :: LikesExactAt(old(posts), old(likes), j) ==> LikesExactAt(posts, likes, j)
      ensures forall j :: CommentsExactAt(old(posts), old(comments), j) ==> CommentsExactAt(posts, comments, j)
      ensures old(CountersHold()) ==> CountersHold()
    {
      post := NewPost(nextPostId, p, authorId, now);
      NewPostKeepsSchema(posts, likes, comments, nextPostId, nextCommentId, post);
      NewPostKeepsCounters(posts, likes, comments, post);
      posts := posts + [post];
      nextPostId := nextPostId + 1;
    }

    /** like_post at clock reading `now`: NotFound and no change for an
        unknown post; otherwise the user's like row is deleted and the
        counter drops by one, or a row is added and the counter rises by one,
        and the post's `updated_at` becomes `now` (the column's `onupdate`).
        The reply carries the new count. */
    method LikePost(postId: int, userId: int, now: int) returns (r: Result<LikeResponse, Error>)
      requires Valid()
      modifies this
      ensures Valid()
      ensures nextPostId == old(nextPostId) && nextCommentId == old(nextCommentId)
      ensures comments == old(comments)
      ensures match PostIndex(old(posts), postId)
        case None =>
          r == Failure(NotFound) && posts == old(posts) && likes == old(likes)
        case Some(i) =>
          LikeToggled(old(posts), old(likes), i, userId, now, posts, likes) &&
          r == Success(LikeResponse(true, posts[i].likesCount))
      ensures forall j :: LikesExactAt(old(posts), old(likes), j) ==> LikesExactAt(posts, likes, j)
      ensures forall j :: CommentsExactAt(old(posts), old(comments), j) ==> CommentsExactAt(posts, comments, j)
      ensures old(CountersHold()) ==> CountersHold()
    {
      var found := PostIndex(posts, postId);
      if found.None? {
        return Failure(NotFound);
      }
      var i := found.value;
      var l := Like(postId, userId);
      var existing := FindLike(likes, l);
      var delta;
      if existing.Some? {
        delta := -1;  // unlike: the row goes, the counter drops
      } else {
        delta := 1;   // like: a row is added, the counter rises
      }
      var post := posts[i].(likesCount := posts[i].likesCount + delta, updatedAt := now);
      ToggleKeepsSchema(posts, likes, comments, nextPostId, nextCommentId, i, userId, post);
      ToggleKeepsCounters(posts, likes, comments, i, userId, post);
      likes := ToggleLike(likes, l);
      posts := posts[i := post];
      r := Success(LikeResponse(true, post.likesCount));
    }

    /** Two like_post calls by the same user on the same post, at clock
        readings `now1` and `now2`: the like rows and every counter are back
        where they were, and only the post's `updated_at` has moved. */
    method LikeTwice(postId: int, userId: int, now1: int, now2: int)
      returns (first: Result<LikeResponse, Error>, second: Result<LikeResponse, Error>)
      requires Valid()
      modifies this
      ensures Valid()
      ensures comments == old(comments) && nextPostId == old(nextPostId) && nextCommentId == old(nextCommentId)
      ensures forall m :: m in likes <==> m in old(likes)
      ensures forall q :: LikeCount(likes, q) == LikeCount(old(likes), q)
      ensures match PostIndex(old(posts), postId)
        case None =>
          first == second == Failure(NotFound) && posts == old(posts) && likes == old(likes)
        case Some(i) =>
          posts == old(posts)[i := old(posts)[i].(updatedAt := now2)] &&
          second == Success(LikeResponse(true, old(posts)[i].likesCount))
    {
      ghost var posts0, likes0 := posts, likes;
      var found := PostIndex(posts, postId);
      first := LikePost(postId, userId, now1);
      match found
      case None =>
        second := LikePost(postId, userId, now2);
      case Some(i) =>
        UpdateKeepsIndex(posts0, i, posts[i]);
        ghost var posts1, likes1 := posts, likes;
        second := LikePost(postId, userId, now2);
        LikeTwiceRestores(posts0, likes0, i, userId, now1, now2, posts1, likes1, posts, likes);
    }

    /** create_comment as evidently intended, at clock reading `now`:
        NotFound and no change for an unknown post; otherwise exactly one
        comment row on that post by that author, stamped `now`, and the
        post's counter rises by one, its `updated_at` becoming `now`. */
    method CreateComment(postId: int, content: string, authorId: int, now: int)
      returns (r: Result<Comment, Error>)
      requires Valid()
      modifies this
      ensures Valid()
      ensures nextPostId == old(nextPostId) && likes == old(likes)
      ensures match PostIndex(old(posts), postId)
        case None =>
          r == Failure(NotFound) && posts == old(posts) && comments == old(comments) &&
          nextCommentId == old(nextCommentId)
        case Some(i) =>
          var c := Comment(old(nextCommentId), content, postId, authorId, now);
          r == Success(c) && CommentAdded(old(posts), old(comments), i, c, now, posts, comments) &&
          nextCommentId == old(nextCommentId) + 1
      ensures forall j :: CommentsExactAt(old(posts), old(comments), j) ==> CommentsExactAt(posts, comments, j)
      ensures forall j :: LikesExactAt(old(posts), old(likes), j) ==> LikesExactAt(posts, likes, j)
      ensures old(CountersHold()) ==> CountersHold()
    {
      var found := PostIndex(posts, postId);
      if found.None? {
        return Failure(NotFound);
      }
      var i := found.value;
      var c := Comment(nextCommentId, content, postId, authorId, now);
      var post := posts[i].(commentsCount := posts[i].commentsCount + 1, updatedAt := now);
      CommentKeepsSchema(posts, likes, comments, nextPostId, nextCommentId, i, post, c);
      CommentKeepsCounters(posts, likes, comments, i, c, post);
      comments := comments + [c];
      posts := posts[i := post];
      nextCommentId := nextCommentId + 1;
      r := Success(c);
    }
  }

  /** One like_post on the post at `i` at clock reading `now`: the pair's
      like row toggled, the post's `likes_count` moved by -1 if the pair was
      liked and +1 if not, its `updated_at` set to `now`, and nothing else. */
  ghost predicate LikeToggled(posts0: seq<Post>, likes0: seq<Like>, i: nat, userId: int, now: int,
                              posts1: seq<Post>, likes1: seq<Like>) {
    i < |posts0| &&
    var l := Like(posts0[i].id, userId);
    var delta := if l in likes0 then -1 else 1;
    likes1 == ToggleLike(likes0, l) &&
    posts1 == posts0[i := posts0[i].(likesCount := posts0[i].likesCount + delta, updatedAt := now)]
  }

  /** One create_comment on the post at `i` at clock reading `now`: the
      comment `c` appended, the post's `comments_count` raised by one, its
      `updated_at` set to `now`, and nothing else. */
  ghost predicate CommentAdded(posts0: seq<Post>, comments0: seq<Comment>, i: nat, c: Comment, now: int,
                               posts1: seq<Post>, comments1: seq<Comment>) {
    i < |posts0| && comments1 == comments0 + [c] &&
    posts1 == posts0[i := posts0[i].(commentsCount := posts0[i].commentsCount + 1, updatedAt := now)]
  }

  /** The tables after two toggles on the post at `i` are the tables before,
      but for that post's `updated_at`. */
  lemma LikeTwiceRestores(posts0: seq<Post>, likes0: seq<Like>, i: nat, userId: int, now1: int, now2: int,
                          posts1: seq<Post>, likes1: seq<Like>, posts2: seq<Post>, likes2: seq<Like>)
    requires Query.Distinct(likes0)
    requires LikeToggled(posts0, likes0, i, userId, now1, posts1, likes1)
    requires LikeToggled(posts1, likes1, i, userId, now2, posts2, likes2)
    ensures posts2 == posts0[i := posts0[i].(updatedAt := now2)]
    ensures forall m :: m in likes2 <==> m in likes0
    ensures forall q :: LikeCount(likes2, q) == LikeCount(likes0, q)
  {
    var l := Like(posts0[i].id, userId);
    ToggleTwice(likes0, l);
    var restored := posts0[i].(updatedAt := now2);
    assert posts2[i] == restored;
    forall k | 0 <= k < |posts2| ensures posts2[k] == posts0[i := restored][k] {
    }
  }

  /** The schema: primary keys, the unique (post_id, user_id) rule of
      `post_likes`, and foreign keys into `posts`. */
  ghost predicate Schema(posts: seq<Post>, likes: seq<Like>, comments: seq<Comment>,
                         nextPostId: int, nextCommentId: int) {
    UniquePostIds(posts) && Query.Distinct(likes) &&
    (forall p :: p in posts ==> p.id < nextPostId) &&
    (forall c :: c in comments ==> c.id < nextCommentId) &&
    (forall l :: l in likes ==> l.postId in PostIds(posts)) &&
    (forall c :: c in comments ==> c.postId in PostIds(posts))
  }

  ghost function PostIds(posts: seq<Post>): set<int> {
    set p | p in posts :: p.id
  }

  lemma PostIdsUpdate(posts: seq<Post>, i: nat, p: Post)
    requires i < |posts| && p.id == posts[i].id
    ensures PostIds(posts[i := p]) == PostIds(posts)
  {
    var s := posts[i := p];
    forall x | x in PostIds(posts) ensures x in PostIds(s) {
      var q :| q in posts && q.id == x;
      var k :| 0 <= k < |posts| && posts[k] == q;
      assert s[k].id == x && s[k] in s;
    }
    forall x | x in PostIds(s) ensures x in PostIds(posts) {
      var q :| q in s && q.id == x;
      var k :| 0 <= k < |s| && s[k] == q;
      assert posts[k].id == x && posts[k] in posts;
    }
  }

  lemma NewPostKeepsSchema(posts: seq<Post>, likes: seq<Like>, comments: seq<Comment>,
                           nextPostId: int, nextCommentId: int, p: Post)
    requires Schema(posts, likes, comments, nextPostId, nextCommentId) && p.id == nextPostId
    ensures Schema(posts + [p], likes, comments, nextPostId + 1, nextCommentId)
  {
    AppendKeepsIndex(posts, p);
    assert PostIds(posts) <= PostIds(posts + [p]) by {
      forall x | x in PostIds(posts) ensures x in PostIds(posts + [p]) {
        var q :| q in posts && q.id == x;
        assert q in posts + [p];
      }
    }
  }

  lemma ToggleKeepsSchema(posts: seq<Post>, likes: seq<Like>, comments: seq<Comment>,
                          nextPostId: int, nextCommentId: int, i: nat, userId: int, p: Post)
    requires Schema(posts, likes, comments, nextPostId, nextCommentId)
    requires i < |posts| && p.id == posts[i].id
    ensures Schema(posts[i := p], ToggleLike(likes, Like(p.id, userId)), comments, nextPostId, nextCommentId)
  {
    var l := Like(p.id, userId);
    ToggleLikeEffect(likes, l);
    UpdateKeepsIndex(posts, i, p);
    PostIdsUpdate(posts, i, p);
    assert l.postId in PostIds(posts) by { assert posts[i] in posts; }
    var s := posts[i := p];
    forall q | q in s ensures q.id < nextPostId {
      var k :| 0 <= k < |s| && s[k] == q;
      assert q.id == posts[k].id && posts[k] in posts;
    }
  }

  lemma CommentKeepsSchema(posts: seq<Post>, likes: seq<Like>, comments: seq<Comment>,
                           nextPostId: int, nextCommentId: int, i: nat, p: Post, c: Comment)
    requires Schema(posts, likes, comments, nextPostId, nextCommentId)
    requires i < |posts| && p.id == posts[i].id && c.postId == p.id && c.id == nextCommentId
    ensures Schema(posts[i := p], likes, comments + [c], nextPostId, nextCommentId + 1)
  {
    UpdateKeepsIndex(posts, i, p);
    PostIdsUpdate(posts, i, p);
    assert c.postId in PostIds(posts) by { assert posts[i] in posts; }
    var s := posts[i := p];
    forall q | q in s ensures q.id < nextPostId {
      var k :| 0 <= k < |s| && s[k] == q;
      assert q.id == posts[k].id && posts[k] in posts;
    }
  }

  /** Appending a post with a fresh id keeps every other id's position. */
  lemma AppendKeepsIndex(posts: seq<Post>, p: Post)
    requires UniquePostIds(posts) && forall q :: q in posts ==> q.id < p.id
    ensures UniquePostIds(posts + [p])
    ensures forall id :: PostIndex(posts, id).Some? ==> PostIndex(posts + [p], id) == PostIndex(posts, id)
  {
    var s := posts + [p];
    forall a, b | 0 <= a < b < |s| ensures s[a].id != s[b].id {
      if b == |posts| { assert s[a] in posts; }
    }
    forall id | PostIndex(posts, id).Some? ensures PostIndex(s, id) == PostIndex(posts, id) {
      var i := PostIndex(posts, id).value;
      var j := PostIndex(s, id);
      assert s[i].id == id;
      assert j.Some? && j.value <= i;
    }
  }

  /** Changing a post's counters keeps its id and so every id's position. */
  lemma UpdateKeepsIndex(posts: seq<Post>, i: nat, p: Post)
    requires i < |posts| && p.id == posts[i].id && UniquePostIds(posts)
    ensures UniquePostIds(posts[i := p])
    ensures forall id :: PostIndex(posts[i := p], id) == PostIndex(posts, id)
  {
    var s := posts[i := p];
    forall id ensures PostIndex(s, id) == PostIndex(posts, id) {
      assert forall k :: 0 <= k < |posts| ==> s[k].id == posts[k].id;
    }
  }

  // ------------------------------------------------------------------------
  // create_comment as written (router.py:114-118). The handler builds the row
  // with `Comment(**comment.model_dump(), author_id=..., post_id=post_id)`,
  // and the body schema `CommentCreate` itself has a `post_id` field.

  /** The body of POST /posts/{post_id}/comments. */
  datatype CommentCreate = CommentCreate(content: string, postId: int)

  /** Keys of `CommentCreate.model_dump()`, in field order. */
  const CommentCreateFields: seq<string> := ["content", "post_id"]

  /** Keywords the handler passes beside the unpacked body. */
  const ExplicitCommentKeywords: seq<string> := ["author_id", "post_id"]

  /** The first unpacked key that is also passed explicitly: Python refuses
      such a call with TypeError ("got multiple values for keyword argument"). */
  function FirstClash(unpacked: seq<string>, explicit: seq<string>): (r: Option<string>)
    ensures r.Some? ==> r.value in unpacked && r.value in explicit
    ensures r.None? ==> forall k :: k in unpacked ==> k !in explicit
  {
    if unpacked == [] then None
    else if unpacked[0] in explicit then Some(unpacked[0])
    else FirstClash(unpacked[1..], explicit)
  }

  /** The row construction of router.py:114-118, as Python evaluates it. */
  function CommentRowAsWritten(body: CommentCreate, authorId: int, postId: int, id: int, now: int)
    : (r: Result<Comment, Error>)
    ensures r.Failure? ==>
      r.error.DuplicateKeyword? && r.error.name in CommentCreateFields && r.error.name in ExplicitCommentKeywords
    ensures r.Success? ==>
      r.value.content == body.content && r.value.postId == postId && r.value.authorId == authorId
  {
    match FirstClash(CommentCreateFields, ExplicitCommentKeywords)
    case Some(k) => Failure(DuplicateKeyword(k))
    case None => Success(Comment(id, body.content, postId, authorId, now))
  }

  /** create_comment as written: the post lookup, then the row construction.
      A failure raises before the counter update and the commit, so the
      tables are unchanged in every case. */
  function CreateCommentAsWritten(posts: seq<Post>, postId: int, body: CommentCreate,
                                  authorId: int, id: int, now: int): (r: Result<Comment, Error>)
    ensures PostIndex(posts, postId).None? ==> r == Failure(NotFound)
    ensures PostIndex(posts, postId).Some? ==> r.Failure? ==> r.error.DuplicateKeyword?
  {
    if PostIndex(posts, postId).None? then Failure(NotFound)
    else CommentRowAsWritten(body, authorId, postId, id, now)
  }

  /** As written, no comment is ever created: an existing post gets the
      duplicate-keyword failure on `post_id`. */
  lemma CreateCommentAsWrittenNeverSucceeds(posts: seq<Post>, postId: int, body: CommentCreate,
                                            authorId: int, id: int, now: int)
    ensures var r := CreateCommentAsWritten(posts, postId, body, authorId, id, now);
      r.Failure? &&
      (PostIndex(posts, postId).Some? ==> r.error == DuplicateKeyword("post_id"))
  {
    assert CommentCreateFields[0] !in ExplicitCommentKeywords;
    assert CommentCreateFields[1..] == ["post_id"];
  }

  // ------------------------------------------------------------------------

  /** The end-to-end scenario of the engagement core: a post by A, a like and
      an unlike by B, then a comment by C through the corrected
      `Store.CreateComment` (as written, that step raises TypeError, see
      `CreateCommentAsWrittenNeverSucceeds`). */
  method EngagementScenario() returns (s: Store)
    ensures s.Valid() && s.CountersHold()
    ensures |s.posts| == 1 && s.posts[0].likesCount == 0 && s.posts[0].commentsCount == 1
    ensures s.posts[0].updatedAt == 200
    ensures s.likes == [] && |s.comments| == 1
    ensures ListComments(s.comments, s.posts[0].id, 1, 20) == s.comments
  {
    var userA, userB, userC := 1, 2, 3;
    s := new Store();
    var p := s.CreatePost(PostCreate("t", "body", PostTypes.General, []), userA, 100);
    assert s.posts == [p] && PostIndex(s.posts, p.id) == Some(0);
    var liked := s.LikePost(p.id, userB, 110);
    assert liked == Success(LikeResponse(true, 1));
    var unliked := s.LikePost(p.id, userB, 120);
    assert s.likes == Query.RemoveAt([Like(p.id, userB)], 0) == [];
    assert unliked == Success(LikeResponse(true, 0));
    var c := s.CreateComment(p.id, "hello", userC, 200);
    assert c.Success? && c.value.postId == p.id && s.comments == [c.value];
    assert Query.Filter(s.comments, CommentOnPost(p.id)) == [c.value];
    ListCommentsSingle(s.comments, c.value, 20);
  }
}
