/** Rows of the community tables (app/community/models.py), the request
    shapes of app/community/schemas.py, and the pure facts about like and
    comment rows that the denormalised counters mirror. */
module Community {
  import opened Wrappers
  import opened Text
  import opened PostTypes
  import Query

  datatype Error = NotFound | Invalid(field: string) | DuplicateKeyword(name: string)

  /** A row of `posts`. Timestamps are clock readings the caller supplies. */
  datatype Post = Post(
    id: int, title: string, content: string, postType: PostType, tags: seq<string>,
    authorId: int, likesCount: int, commentsCount: int, isHot: bool,
    createdAt: int, updatedAt: int)

  /** A row of `comments`. */
  datatype Comment = Comment(id: int, content: string, postId: int, authorId: int, createdAt: int)

  /** A row of `post_likes`, reduced to the pair its unique constraint is on. */
  datatype Like = Like(postId: int, userId: int)

  /** The JSON body of POST /posts as received: `type` and `tags` may be absent. */
  datatype PostCreateRequest = PostCreateRequest(
    title: string, content: string, postType: Option<Raw>, tags: Option<seq<string>>)

  /** `PostCreate` once validated: the schema defaults filled in. */
  datatype PostCreate = PostCreate(title: string, content: string, postType: PostType, tags: seq<string>)

  /** Validation of `PostCreate`: an absent type is General and absent tags
      are empty; a present type goes through the enumeration's coercion and,
      when that finds no member, the request is refused. */
  function ValidatePostCreate(req: PostCreateRequest): (r: Result<PostCreate, Error>)
    ensures r.Failure? <==> req.postType.Some? && Coerce(req.postType.value).None?
    ensures r.Failure? ==> r.error == Invalid("type")
    ensures r.Success? ==>
      r.value.title == req.title && r.value.content == req.content &&
      r.value.tags == (if req.tags.Some? then req.tags.value else []) &&
      (req.postType.None? ==> r.value.postType == General) &&
      (req.postType.Some? ==> Some(r.value.postType) == Coerce(req.postType.value))
  {
    var tags := req.tags.GetOr([]);
    match req.postType
    case None => Success(PostCreate(req.title, req.content, General, tags))
    case Some(raw) =>
      match Coerce(raw)
      case None => Failure(Invalid("type"))
      case Some(t) => Success(PostCreate(req.title, req.content, t, tags))
  }

  /** The row `Post(**post.model_dump(), author_id=...)` inserts: the columns
      missing from the body take their defaults. */
  function NewPost(id: int, p: PostCreate, authorId: int, now: int): Post {
    Post(id, p.title, p.content, p.postType, p.tags, authorId, 0, 0, false, now, now)
  }

  /** A post created from a body without type or tags is a General post with
      no tags, no likes, no comments, not hot, created and updated now. */
  lemma FreshPostDefaults(title: string, content: string, id: int, authorId: int, now: int)
    ensures var q := ValidatePostCreate(PostCreateRequest(title, content, None, None));
      q.Success? &&
      var p := NewPost(id, q.value, authorId, now);
      p.postType == General && p.tags == [] && p.likesCount == 0 && p.commentsCount == 0 &&
      !p.isHot && p.createdAt == now && p.updatedAt == now && p.authorId == authorId
  {
  }

  // ------------------------------------------------------ rows per post

  ghost predicate UniquePostIds(posts: seq<Post>) {
    forall i, j :: 0 <= i < j < |posts| ==> posts[i].id != posts[j].id
  }

  /** The number of like rows of a post. */
  function LikeCount(likes: seq<Like>, postId: int): nat {
    if likes == [] then 0
    else (if likes[0].postId == postId then 1 else 0) + LikeCount(likes[1..], postId)
  }

  /** The number of comment rows of a post. */
  function CommentCount(comments: seq<Comment>, postId: int): nat {
    if comments == [] then 0
    else (if comments[0].postId == postId then 1 else 0) + CommentCount(comments[1..], postId)
  }

  lemma {:induction false} LikeCountConcat(a: seq<Like>, b: seq<Like>, postId: int)
    ensures LikeCount(a + b, postId) == LikeCount(a, postId) + LikeCount(b, postId)
  {
    if a == [] {
      assert a + b == b;
    } else {
      assert (a + b)[1..] == a[1..] + b;
      LikeCountConcat(a[1..], b, postId);
    }
  }

  lemma {:induction false} CommentCountConcat(a: seq<Comment>, b: seq<Comment>, postId: int)
    ensures CommentCount(a + b, postId) == CommentCount(a, postId) + CommentCount(b, postId)
  {
    if a == [] {
      assert a + b == b;
    } else {
      assert (a + b)[1..] == a[1..] + b;
      CommentCountConcat(a[1..], b, postId);
    }
  }

  /** No rows of a post when no row names it. */
  lemma {:induction false} CountsOfUnreferencedPost(likes: seq<Like>, comments: seq<Comment>, postId: int)
    requires forall l :: l in likes ==> l.postId != postId
    requires forall c :: c in comments ==> c.postId != postId
    ensures LikeCount(likes, postId) == 0 && CommentCount(comments, postId) == 0
    decreases |likes| + |comments|
  {
    if likes != [] {
      CountsOfUnreferencedPost(likes[1..], [], postId);
    }
    if comments != [] {
      CountsOfUnreferencedPost([], comments[1..], postId);
    }
  }

  function CommentOnPost(postId: int): Comment -> bool { (c: Comment) => c.postId == postId }

  /** The comment counter is the number of comments list_comments pages through. */
  lemma {:induction false} CommentCountIsListed(comments: seq<Comment>, postId: int)
    ensures CommentCount(comments, postId) == |Query.Filter(comments, CommentOnPost(postId))|
  {
    if comments != [] {
      CommentCountIsListed(comments[1..], postId);
    }
  }

  lemma LikeCountAppend(likes: seq<Like>, l: Like, postId: int)
    ensures LikeCount(likes + [l], postId) == LikeCount(likes, postId) + (if l.postId == postId then 1 else 0)
  {
    LikeCountConcat(likes, [l], postId);
    assert [l][1..] == [];
  }

  lemma LikeCountRemove(likes: seq<Like>, i: nat, postId: int)
    requires i < |likes|
    ensures LikeCount(Query.RemoveAt(likes, i), postId) ==
            LikeCount(likes, postId) - (if likes[i].postId == postId then 1 else 0)
  {
    assert likes == likes[..i] + ([likes[i]] + likes[i + 1..]);
    LikeCountConcat(likes[..i], [likes[i]] + likes[i + 1..], postId);
    LikeCountConcat([likes[i]], likes[i + 1..], postId);
    LikeCountConcat(likes[..i], likes[i + 1..], postId);
    assert [likes[i]][1..] == [];
  }

  lemma CommentCountAppend(comments: seq<Comment>, c: Comment, postId: int)
    ensures CommentCount(comments + [c], postId) == CommentCount(comments, postId) + (if c.postId == postId then 1 else 0)
  {
    CommentCountConcat(comments, [c], postId);
    assert [c][1..] == [];
  }

  /** The like counter of the post at `j` equals its number of like rows. */
  ghost predicate LikesExactAt(posts: seq<Post>, likes: seq<Like>, j: int) {
    0 <= j < |posts| && posts[j].likesCount == LikeCount(likes, posts[j].id)
  }

  /** The comment counter of the post at `j` equals its number of comments. */
  ghost predicate CommentsExactAt(posts: seq<Post>, comments: seq<Comment>, j: int) {
    0 <= j < |posts| && posts[j].commentsCount == CommentCount(comments, posts[j].id)
  }

  /** The denormalised counters: every post's `likes_count` and
      `comments_count` equal the number of its like and comment rows. */
  ghost predicate CountersExact(posts: seq<Post>, likes: seq<Like>, comments: seq<Comment>) {
    forall j :: 0 <= j < |posts| ==> LikesExactAt(posts, likes, j) && CommentsExactAt(posts, comments, j)
  }

  // ------------------------------------------------------ the like toggle

  /** The position of the first like row equal to `l` (`.first()` of the
      filtered query), if any. */
  function FindLike(likes: seq<Like>, l: Like): (r: Option<nat>)
    ensures r.Some? ==> r.value < |likes| && likes[r.value] == l
    ensures r.None? <==> l !in likes
  {
    if likes == [] then None
    else if likes[0] == l then Some(0)
    else match FindLike(likes[1..], l)
      case None => None
      case Some(k) => Some(k + 1)
  }

  /** The like rows after one like_post: the existing row of the pair is
      deleted, or a row for the pair is added. */
  function ToggleLike(likes: seq<Like>, l: Like): seq<Like> {
    match FindLike(likes, l)
    case Some(i) => Query.RemoveAt(likes, i)
    case None => likes + [l]
  }

  /** One toggle flips exactly the pair's row, keeps the pair rule, moves the
      post's row count by one in the right direction and leaves every other
      pair and every other post's count alone. */
  lemma ToggleLikeEffect(likes: seq<Like>, l: Like)
    requires Query.Distinct(likes)
    ensures Query.Distinct(ToggleLike(likes, l))
    ensures l in ToggleLike(likes, l) <==> l !in likes
    ensures forall m :: m != l ==> (m in ToggleLike(likes, l) <==> m in likes)
    ensures LikeCount(ToggleLike(likes, l), l.postId) ==
            if l in likes then LikeCount(likes, l.postId) - 1 else LikeCount(likes, l.postId) + 1
    ensures forall p :: p != l.postId ==> LikeCount(ToggleLike(likes, l), p) == LikeCount(likes, p)
  {
    match FindLike(likes, l)
    case Some(i) =>
      Query.RemoveAtDistinct(likes, i);
      forall p ensures LikeCount(ToggleLike(likes, l), p) ==
                       LikeCount(likes, p) - (if l.postId == p then 1 else 0) {
        LikeCountRemove(likes, i, p);
      }
    case None =>
      var r := likes + [l];
      forall a, b | 0 <= a < b < |r| ensures r[a] != r[b] {
        if b == |likes| { assert r[a] == likes[a] && likes[a] in likes; }
      }
      forall p ensures LikeCount(r, p) == LikeCount(likes, p) + (if l.postId == p then 1 else 0) {
        LikeCountAppend(likes, l, p);
      }
  }

  /** Two toggles by the same user on the same post restore the set of like
      rows and every post's row count, and the two counter moves cancel. */
  lemma ToggleTwice(likes: seq<Like>, l: Like)
    requires Query.Distinct(likes)
    ensures Query.Distinct(ToggleLike(ToggleLike(likes, l), l))
    ensures forall m :: m in ToggleLike(ToggleLike(likes, l), l) <==> m in likes
    ensures forall p :: LikeCount(ToggleLike(ToggleLike(likes, l), l), p) == LikeCount(likes, p)
    ensures (if l in likes then -1 else 1) + (if l in ToggleLike(likes, l) then -1 else 1) == 0
  {
    var once := ToggleLike(likes, l);
    var twice := ToggleLike(once, l);
    ToggleLikeEffect(likes, l);
    ToggleLikeEffect(once, l);
    forall p ensures LikeCount(twice, p) == LikeCount(likes, p) {
      if p == l.postId {
        assert l in once <==> l !in likes;
      }
    }
  }

  /** like_post on the post at `i`, whose new row `p` has its like counter
      moved by the toggle's -1 or +1: every post whose like counter matched
      its rows still does, and so does every comment counter that did. */
  lemma ToggleKeepsCounters(posts: seq<Post>, likes: seq<Like>, comments: seq<Comment>,
                            i: nat, userId: int, p: Post)
    requires i < |posts| && UniquePostIds(posts) && Query.Distinct(likes)
    requires p.id == posts[i].id && p.commentsCount == posts[i].commentsCount
    requires p.likesCount == posts[i].likesCount + (if Like(p.id, userId) in likes then -1 else 1)
    ensures forall j :: LikesExactAt(posts, likes, j) ==>
      LikesExactAt(posts[i := p], ToggleLike(likes, Like(p.id, userId)), j)
    ensures forall j :: CommentsExactAt(posts, comments, j) ==> CommentsExactAt(posts[i := p], comments, j)
    ensures CountersExact(posts, likes, comments) ==>
      CountersExact(posts[i := p], ToggleLike(likes, Like(p.id, userId)), comments)
  {
    var l := Like(p.id, userId);
    ToggleLikeEffect(likes, l);
    var s, t := posts[i := p], ToggleLike(likes, l);
    forall j | LikesExactAt(posts, likes, j) ensures LikesExactAt(s, t, j) {
      if j != i { assert posts[j].id != posts[i].id; }
    }
    forall j | CommentsExactAt(posts, comments, j) ensures CommentsExactAt(s, comments, j) {
    }
  }

  /** A new comment `c` on the post at `i`, whose new row `p` has its comment
      counter moved by one: every post whose comment counter matched its
      comments still does, and so does every like counter that did. */
  lemma CommentKeepsCounters(posts: seq<Post>, likes: seq<Like>, comments: seq<Comment>,
                             i: nat, c: Comment, p: Post)
    requires i < |posts| && UniquePostIds(posts) && c.postId == posts[i].id
    requires p.id == posts[i].id && p.likesCount == posts[i].likesCount
    requires p.commentsCount == posts[i].commentsCount + 1
    ensures forall j :: CommentsExactAt(posts, comments, j) ==> CommentsExactAt(posts[i := p], comments + [c], j)
    ensures forall j :: LikesExactAt(posts, likes, j) ==> LikesExactAt(posts[i := p], likes, j)
    ensures CountersExact(posts, likes, comments) ==> CountersExact(posts[i := p], likes, comments + [c])
  {
    forall q ensures CommentCount(comments + [c], q) == CommentCount(comments, q) + (if c.postId == q then 1 else 0) {
      CommentCountAppend(comments, c, q);
    }
    var s := posts[i := p];
    forall j | CommentsExactAt(posts, comments, j) ensures CommentsExactAt(s, comments + [c], j) {
      if j != i { assert posts[j].id != posts[i].id; }
    }
    forall j | LikesExactAt(posts, likes, j) ensures LikesExactAt(s, likes, j) {
    }
  }

  /** A new post with zero counters whose id no like or comment row refers
      to: its own counters are exact and every other post's counters are as
      exact as they were. */
  lemma NewPostKeepsCounters(posts: seq<Post>, likes: seq<Like>, comments: seq<Comment>, p: Post)
    requires p.likesCount == 0 && p.commentsCount == 0
    requires forall l :: l in likes ==> l.postId != p.id
    requires forall c :: c in comments ==> c.postId != p.id
    ensures LikesExactAt(posts + [p], likes, |posts|) && CommentsExactAt(posts + [p], comments, |posts|)
    ensures forall j :: LikesExactAt(posts, likes, j) ==> LikesExactAt(posts + [p], likes, j)
    ensures forall j :: CommentsExactAt(posts, comments, j) ==> CommentsExactAt(posts + [p], comments, j)
    ensures CountersExact(posts, likes, comments) ==> CountersExact(posts + [p], likes, comments)
  {
    CountsOfUnreferencedPost(likes, comments, p.id);
  }
}
