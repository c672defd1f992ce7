/** The read-only handlers of app/community/router.py: get_post, list_posts
    and list_comments, as functions of the table contents. */
module CommunityQueries {
  import opened Wrappers
  import opened Text
  import opened PostTypes
  import opened Community
  import Query

  // ------------------------------------------------------------ get_post

  /** The position of the first post row with this id. */
  function PostIndex(posts: seq<Post>, id: int): (r: Option<nat>)
    ensures r.Some? ==> r.value < |posts| && posts[r.value].id == id
    ensures r.Some? ==> forall k :: 0 <= k < r.value ==> posts[k].id != id
    ensures r.None? <==> forall k :: 0 <= k < |posts| ==> posts[k].id != id
  {
    if posts == [] then None
    else if posts[0].id == id then Some(0)
    else match PostIndex(posts[1..], id)
      case None => None
      case Some(k) => Some(k + 1)
  }

  /** get_post: the post with this id, or NotFound (the 404). */
  function GetPost(posts: seq<Post>, id: int): (r: Result<Post, Error>)
    ensures r.Success? ==> r.value in posts && r.value.id == id
    ensures r.Failure? <==> forall p :: p in posts ==> p.id != id
    ensures r.Failure? ==> r.error == NotFound
  {
    match PostIndex(posts, id)
    case Some(i) => Success(posts[i])
    case None => Failure(NotFound)
  }

  /** With unique ids, the post found is the only one with that id. */
  lemma GetPostUnique(posts: seq<Post>, id: int, p: Post)
    requires UniquePostIds(posts) && p in posts && p.id == id
    ensures GetPost(posts, id) == Success(p)
  {
    var i :| 0 <= i < |posts| && posts[i] == p;
    var j := PostIndex(posts, id).value;
    assert i == j;
  }

  // ------------------------------------------------------------ tags as stored

  /** A lower-case hexadecimal digit. */
  function HexDigit(n: int): (c: char)
    requires 0 <= n < 16
    ensures ' ' <= c <= '~'
    ensures n < 10 ==> c as int == '0' as int + n
    ensures 10 <= n ==> c as int == 'a' as int + n - 10
  {
    if n < 10 then (48 + n) as char else (87 + n) as char
  }

  /** `\uXXXX` with four lower-case hexadecimal digits. */
  function UnicodeEscape(n: int): (s: string)
    requires 0 <= n < 0x10000
    ensures |s| == 6 && s[..2] == "\\u" && Printable(s)
  {
    ['\\', 'u', HexDigit(n / 0x1000), HexDigit(n / 0x100 % 16), HexDigit(n / 0x10 % 16), HexDigit(n % 16)]
  }

  /** How json.dumps writes one character inside a string with ensure_ascii
      on, its default: the quote and the backslash take a backslash, five
      control characters their short escapes, the rest of printable ASCII
      stands for itself, and every other character becomes `\uXXXX` (a UTF-16
      surrogate pair above U+FFFF). */
  function EscapeChar(c: char): (s: string)
    ensures Printable(s) && |s| > 0
    ensures (' ' <= c <= '~' && c != '"' && c != '\\') <==> s == [c]
  {
    if c == '"' then "\\\""
    else if c == '\\' then "\\\\"
    else if ' ' <= c <= '~' then [c]
    else if c == '\n' then "\\n"
    else if c == '\r' then "\\r"
    else if c == '\t' then "\\t"
    else if c == '\U{8}' then "\\b"
    else if c == '\U{c}' then "\\f"
    else if c as int < 0x10000 then UnicodeEscape(c as int)
    else
      var m := c as int - 0x10000;
      UnicodeEscape(0xD800 + m / 0x400) + UnicodeEscape(0xDC00 + m % 0x400)
  }

  /** The body of a JSON string literal for `t`. */
  function JsonEscape(t: string): (s: string)
    ensures Printable(s) && |s| >= |t|
  {
    if t == [] then []
    else
      var h, r := EscapeChar(t[0]), JsonEscape(t[1..]);
      PrintableConcat(h, r);
      h + r
  }

  /** Printable ASCII without `"` and `\`: the text json.dumps leaves as it is. */
  predicate PlainText(t: string) {
    forall k :: 0 <= k < |t| ==> ' ' <= t[k] <= '~' && t[k] != '"' && t[k] != '\\'
  }

  /** Escaping changes exactly the texts that are not plain. */
  lemma {:induction false} JsonEscapeKeepsPlain(t: string)
    ensures JsonEscape(t) == t <==> PlainText(t)
  {
    if t != [] {
      var h, r := EscapeChar(t[0]), JsonEscape(t[1..]);
      assert JsonEscape(t) == h + r;
      JsonEscapeKeepsPlain(t[1..]);
      assert forall k :: 0 < k < |t| ==> t[k] == t[1..][k - 1];
      if JsonEscape(t) == t {
        assert |h| == 1;
        assert h == [t[0]] by { assert (h + r)[0] == h[0]; }
        assert r == t[1..] by { assert (h + r)[1..] == r; }
      }
      if PlainText(t) {
        assert PlainText(t[1..]) by {
          forall k | 0 <= k < |t[1..]| ensures ' ' <= t[1..][k] <= '~' && t[1..][k] != '"' && t[1..][k] != '\\' {
            assert t[1..][k] == t[k + 1];
          }
        }
        assert h + r == [t[0]] + t[1..];
      }
    }
  }

  function Quote(t: string): string { "\"" + JsonEscape(t) + "\"" }

  function JoinQuoted(tags: seq<string>): string {
    if tags == [] then ""
    else if |tags| == 1 then Quote(tags[0])
    else Quote(tags[0]) + ", " + JoinQuoted(tags[1..])
  }

  /** The text the JSON column holds for a tag list: json.dumps's array of
      strings with its ", " separator. Every character of it is printable
      ASCII. */
  function Serialize(tags: seq<string>): (s: string)
    ensures Printable(s)
    ensures |s| >= 2 && s[0] == '[' && s[|s| - 1] == ']'
  {
    JoinQuotedPrintable(tags);
    PrintableConcat("[", JoinQuoted(tags));
    PrintableConcat("[" + JoinQuoted(tags), "]");
    "[" + JoinQuoted(tags) + "]"
  }

  lemma {:induction false} JoinQuotedPrintable(tags: seq<string>)
    ensures Printable(JoinQuoted(tags))
  {
    if tags != [] {
      var t := tags[0];
      PrintableConcat("\"", JsonEscape(t));
      PrintableConcat("\"" + JsonEscape(t), "\"");
      if |tags| > 1 {
        JoinQuotedPrintable(tags[1..]);
        PrintableConcat(Quote(t), ", ");
        PrintableConcat(Quote(t) + ", ", JoinQuoted(tags[1..]));
      }
    }
  }

  lemma {:induction false} JoinQuotedContains(tags: seq<string>, k: nat)
    requires k < |tags|
    ensures LikeContains(JoinQuoted(tags), JsonEscape(tags[k]))
  {
    var e := JsonEscape(tags[0]);
    if k == 0 {
      var rest := if |tags| == 1 then "" else ", " + JoinQuoted(tags[1..]);
      assert JoinQuoted(tags) == "\"" + e + ("\"" + rest);
      LikeContainsMiddle("\"", e, "\"" + rest);
    } else {
      var tail := JoinQuoted(tags[1..]);
      JoinQuotedContains(tags[1..], k - 1);
      assert JoinQuoted(tags) == Quote(tags[0]) + ", " + tail + "";
      LikeContainsWithin(tail, JsonEscape(tags[k]), Quote(tags[0]) + ", ", "");
    }
  }

  /** The stored text of a post's tags holds each tag in its escaped form. */
  lemma MemberTagMatches(tags: seq<string>, tag: string)
    requires tag in tags
    ensures LikeContains(Serialize(tags), JsonEscape(tag))
  {
    var k :| 0 <= k < |tags| && tags[k] == tag;
    JoinQuotedContains(tags, k);
    LikeContainsWithin(JoinQuoted(tags), JsonEscape(tag), "[", "]");
  }

  /** So a post carrying a plain tag is found by the tag filter with that tag. */
  lemma PlainTagMatches(tags: seq<string>, tag: string)
    requires tag in tags && PlainText(tag)
    ensures LikeContains(Serialize(tags), tag)
  {
    MemberTagMatches(tags, tag);
    JsonEscapeKeepsPlain(tag);
  }

  /** A tag argument holding any character outside printable ASCII (a
      Chinese tag, say) matches no post's stored tags, even a post that
      carries exactly that tag. */
  lemma NonAsciiTagNeverMatches(tags: seq<string>, tag: string, k: nat)
    requires k < |tag| && !(' ' <= tag[k] <= '~')
    ensures !LikeContains(Serialize(tags), tag)
  {
    LikeNeverFindsUnprintable(Serialize(tags), tag, k);
  }

  /** The tag U+6C42 U+52A9 is stored as its two `\u` escapes, and the filter
      with that tag does not find it. */
  lemma EscapedTagExample()
    ensures Serialize(["\U{6c42}\U{52a9}"]) == "[\"\\u6c42\\u52a9\"]"
    ensures !LikeContains(Serialize(["\U{6c42}\U{52a9}"]), "\U{6c42}\U{52a9}")
  {
    var t := "\U{6c42}\U{52a9}";
    assert HexDigit(6) == '6' && HexDigit(0xc) == 'c' && HexDigit(4) == '4' && HexDigit(2) == '2';
    assert HexDigit(5) == '5' && HexDigit(0xa) == 'a' && HexDigit(9) == '9';
    assert EscapeChar(t[0]) == "\\u6c42";
    assert EscapeChar(t[1]) == "\\u52a9";
    assert JsonEscape(t[1..]) == EscapeChar(t[1]) + JsonEscape([]);
    assert JsonEscape(t) == EscapeChar(t[0]) + JsonEscape(t[1..]);
    NonAsciiTagNeverMatches([t], t, 0);
  }

  /** The filter is containment in the stored text, so a plain tag "ab" is
      found by the tag "a" and by the tag "A". */
  lemma TagMatchIsApproximate()
    ensures LikeContains(Serialize(["ab"]), "a") && "a" !in ["ab"]
    ensures LikeContains(Serialize(["ab"]), "A")
  {
    assert JsonEscape("b") == "b" + JsonEscape([]);
    assert JsonEscape("ab") == "a" + JsonEscape("b");
    var s := Serialize(["ab"]);
    assert s == "[\"" + "a" + "b\"]";
    LikeContainsMiddle("[\"", "a", "b\"]");
    assert AsciiUpper("A") == AsciiUpper("a");
  }

  // ------------------------------------------------------------ list_posts

  /** The query parameters of list_posts, with the schema defaults. */
  datatype PostFilter = PostFilter(
    postType: Option<PostType>, isHot: Option<bool>, authorId: Option<int>,
    tag: Option<string>, page: int, pageSize: int)

  const DefaultPostFilter := PostFilter(None, None, None, None, 1, 20)

  datatype PostList = PostList(total: nat, posts: seq<Post>)

  function OfType(t: PostType): Post -> bool { (p: Post) => p.postType == t }
  function HotIs(b: bool): Post -> bool { (p: Post) => p.isHot == b }
  function ByAuthor(a: int): Post -> bool { (p: Post) => p.authorId == a }
  function Tagged(tag: string): Post -> bool { (p: Post) => LikeContains(Serialize(p.tags), tag) }

  /** The query after the four `if` steps of list_posts: `type`, `author_id`
      and `tag` only when truthy (so author 0 and the empty tag are ignored),
      `is_hot` whenever it is given, False included. */
  function FilteredPosts(posts: seq<Post>, f: PostFilter): (r: seq<Post>)
    ensures |r| <= |posts|
    ensures forall p :: p in r ==> p in posts
  {
    var q1 := if f.postType.Some? then Query.Filter(posts, OfType(f.postType.value)) else posts;
    var q2 := if f.isHot.Some? then Query.Filter(q1, HotIs(f.isHot.value)) else q1;
    var q3 := if f.authorId.Some? && f.authorId.value != 0 then Query.Filter(q2, ByAuthor(f.authorId.value)) else q2;
    if f.tag.Some? && f.tag.value != "" then Query.Filter(q3, Tagged(f.tag.value)) else q3
  }

  /** What a listed post must satisfy: every supplied option, conjunctively. */
  predicate Selected(f: PostFilter, p: Post) {
    (f.postType.Some? ==> p.postType == f.postType.value) &&
    (f.isHot.Some? ==> p.isHot == f.isHot.value) &&
    (f.authorId.Some? && f.authorId.value != 0 ==> p.authorId == f.authorId.value) &&
    (f.tag.Some? && f.tag.value != "" ==> LikeContains(Serialize(p.tags), f.tag.value))
  }

  function SelectedBy(f: PostFilter): Post -> bool { (p: Post) => Selected(f, p) }

  /** Applying the options one after another selects exactly the posts that
      satisfy all of them, in table order. */
  lemma FilteredIsConjunction(posts: seq<Post>, f: PostFilter)
    ensures FilteredPosts(posts, f) == Query.Filter(posts, SelectedBy(f))
  {
    var k1 := (p: Post) => f.postType.Some? ==> p.postType == f.postType.value;
    var k2 := (p: Post) => k1(p) && (f.isHot.Some? ==> p.isHot == f.isHot.value);
    var k3 := (p: Post) => k2(p) && (f.authorId.Some? && f.authorId.value != 0 ==> p.authorId == f.authorId.value);
    var k4 := (p: Post) => k3(p) && (f.tag.Some? && f.tag.value != "" ==> LikeContains(Serialize(p.tags), f.tag.value));
    var q1 := if f.postType.Some? then Query.Filter(posts, OfType(f.postType.value)) else posts;
    if f.postType.Some? { Query.FilterSame(posts, OfType(f.postType.value), k1); } else { Query.FilterAll(posts, k1); }
    assert q1 == Query.Filter(posts, k1);
    var q2 := if f.isHot.Some? then Query.Filter(q1, HotIs(f.isHot.value)) else q1;
    if f.isHot.Some? { Query.FilterTwice(posts, k1, HotIs(f.isHot.value), k2); } else { Query.FilterSame(posts, k1, k2); }
    assert q2 == Query.Filter(posts, k2);
    var q3 := if f.authorId.Some? && f.authorId.value != 0 then Query.Filter(q2, ByAuthor(f.authorId.value)) else q2;
    if f.authorId.Some? && f.authorId.value != 0 {
      Query.FilterTwice(posts, k2, ByAuthor(f.authorId.value), k3);
    } else { Query.FilterSame(posts, k2, k3); }
    assert q3 == Query.Filter(posts, k3);
    if f.tag.Some? && f.tag.value != "" {
      Query.FilterTwice(posts, k3, Tagged(f.tag.value), k4);
    } else { Query.FilterSame(posts, k3, k4); }
    Query.FilterSame(posts, k4, SelectedBy(f));
  }

  /** ORDER BY created_at DESC. */
  function NewerFirst(a: Post, b: Post): bool { a.createdAt >= b.createdAt }

  lemma NewerFirstIsOrder()
    ensures Query.TotalPreorder(NewerFirst)
  {
  }

  /** The OFFSET of page `page` (1-based) of `pageSize` rows. */
  function Offset(page: int, pageSize: int): (o: int)
    ensures page >= 1 && pageSize >= 0 ==> o >= 0
  {
    (page - 1) * pageSize
  }

  /** list_posts: the number of matching posts, and the requested page of
      them, newest first: the window at (page-1)*page_size, of at most
      page_size rows, of the matching posts in SOME newest-first order. */
  function ListPosts(posts: seq<Post>, f: PostFilter): (r: PostList)
    ensures r.total == |Query.Filter(posts, SelectedBy(f))|
    ensures forall p :: p in r.posts ==> p in posts && Selected(f, p)
    ensures f.pageSize >= 0 ==> |r.posts| <= f.pageSize
    ensures Query.SortedBy(r.posts, NewerFirst)
    ensures Query.IsPageOf(r.posts, Query.Filter(posts, SelectedBy(f)),
                           NewerFirst, Offset(f.page, f.pageSize), f.pageSize)
  {
    var matched := FilteredPosts(posts, f);
    FilteredIsConjunction(posts, f);
    NewerFirstIsOrder();
    PostList(|matched|, Query.SortedPage(matched, NewerFirst, Offset(f.page, f.pageSize), f.pageSize))
  }

  /** The total ignores paging. */
  lemma ListPostsTotalIgnoresPaging(posts: seq<Post>, f: PostFilter, page: int, pageSize: int)
    ensures ListPosts(posts, f).total == ListPosts(posts, f.(page := page, pageSize := pageSize)).total
  {
  }

  /** With page >= 1 and page_size >= 1 the page holds page_size posts while
      enough remain after the offset, the rest otherwise. */
  lemma ListPostsPageLength(posts: seq<Post>, f: PostFilter)
    requires f.page >= 1 && f.pageSize >= 1
    ensures var r := ListPosts(posts, f);
      var offset := Offset(f.page, f.pageSize);
      |r.posts| == if r.total <= offset then 0
                   else if r.total - offset < f.pageSize then r.total - offset
                   else f.pageSize
  {
    FilteredIsConjunction(posts, f);
  }

  /** list_posts with no query parameters: the total counts every post and
      the page is the 20 newest, or all posts when there are fewer. */
  lemma DefaultListPosts(posts: seq<Post>)
    ensures ListPosts(posts, DefaultPostFilter).total == |posts|
    ensures |ListPosts(posts, DefaultPostFilter).posts| == if |posts| < 20 then |posts| else 20
    ensures Query.IsPageOf(ListPosts(posts, DefaultPostFilter).posts, posts, NewerFirst, 0, 20)
  {
    Query.FilterAll(posts, SelectedBy(DefaultPostFilter));
    ListPostsPageLength(posts, DefaultPostFilter);
  }

  // ------------------------------------------------------------ list_comments

  function CommentNewerFirst(a: Comment, b: Comment): bool { a.createdAt >= b.createdAt }

  lemma CommentNewerFirstIsOrder()
    ensures Query.TotalPreorder(CommentNewerFirst)
  {
  }

  /** list_comments: the page of the post's comments, newest first. It does
      not look the post up, so an unknown post simply has no comments. */
  function ListComments(comments: seq<Comment>, postId: int, page: int, pageSize: int): (r: seq<Comment>)
    requires page >= 1 && pageSize >= 1
    ensures forall c :: c in r ==> c in comments && c.postId == postId
    ensures |r| <= pageSize
    ensures Query.SortedBy(r, CommentNewerFirst)
    ensures Query.IsPageOf(r, Query.Filter(comments, CommentOnPost(postId)),
                           CommentNewerFirst, Offset(page, pageSize), pageSize)
  {
    CommentNewerFirstIsOrder();
    Query.SortedPage(Query.Filter(comments, CommentOnPost(postId)), CommentNewerFirst, Offset(page, pageSize), pageSize)
  }

  /** A post nobody commented on, existing or not, lists as empty. */
  lemma ListCommentsOfUnknownPost(comments: seq<Comment>, postId: int, page: int, pageSize: int)
    requires page >= 1 && pageSize >= 1
    requires forall c :: c in comments ==> c.postId != postId
    ensures ListComments(comments, postId, page, pageSize) == []
  {
    Query.FilterNone(comments, CommentOnPost(postId));
  }

  /** The only comment of a post is the whole first page of its comments. */
  lemma ListCommentsSingle(comments: seq<Comment>, c: Comment, pageSize: int)
    requires pageSize >= 1
    requires Query.Filter(comments, CommentOnPost(c.postId)) == [c]
    ensures ListComments(comments, c.postId, 1, pageSize) == [c]
  {
    CommentNewerFirstIsOrder();
    var mine := Query.Filter(comments, CommentOnPost(c.postId));
    var ordered := Query.SortBy(mine, CommentNewerFirst);
    assert multiset(ordered) == multiset{c};
    assert |ordered| == 1;
    assert ordered[0] in multiset(ordered);
    assert ordered == [c];
  }
}
