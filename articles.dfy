/** The health-article helpers (app/health/utils.py, repeated verbatim in
    app/auth/utils.py): lookups and listings as functions of the table, and
    the create/update/delete operations on a table object. */
module Articles {
  import opened Wrappers
  import opened Text
  import Query

  /** One row of health_articles; created_at is the ISO text it was stored as. */
  datatype Article = Article(
    id: int, title: string, content: string, category: string,
    tags: string, author: string, createdAt: string)

  /** The request body of create and update: the five writable fields. */
  datatype ArticleCreate = ArticleCreate(
    title: string, content: string, category: string, tags: string, author: string)

  ghost predicate UniqueArticleIds(rows: seq<Article>) {
    forall i, j :: 0 <= i < j < |rows| ==> rows[i].id != rows[j].id
  }

  // ------------------------------------------------------------ get_article

  /** The position of the first row with this id. */
  function ArticleIndex(rows: seq<Article>, id: int): (r: Option<nat>)
    ensures r.Some? ==> r.value < |rows| && rows[r.value].id == id
    ensures r.Some? ==> forall k :: 0 <= k < r.value ==> rows[k].id != id
    ensures r.None? <==> forall k :: 0 <= k < |rows| ==> rows[k].id != id
  {
    if rows == [] then None
    else if rows[0].id == id then Some(0)
    else match ArticleIndex(rows[1..], id)
      case None => None
      case Some(k) => Some(k + 1)
  }

  /** get_article: the row with this id, or None. */
  function GetArticle(rows: seq<Article>, id: int): (r: Option<Article>)
    ensures r.Some? ==> r.value in rows && r.value.id == id
    ensures r.None? <==> forall a :: a in rows ==> a.id != id
  {
    match ArticleIndex(rows, id)
    case Some(i) => Some(rows[i])
    case None => None
  }

  /** With unique ids, the row found is the only one with that id. */
  lemma GetArticleUnique(rows: seq<Article>, a: Article)
    requires UniqueArticleIds(rows) && a in rows
    ensures GetArticle(rows, a.id) == Some(a)
  {
    var i :| 0 <= i < |rows| && rows[i] == a;
    assert ArticleIndex(rows, a.id).value == i;
  }

  // ------------------------------------------------------------ filters

  /** Python truthiness of an optional string argument: given and non-empty. */
  predicate Given(o: Option<string>) {
    o.Some? && o.value != ""
  }

  /** The three optional WHERE conditions shared by get_articles and
      get_articles_count. */
  datatype ArticleFilters = ArticleFilters(
    category: Option<string>, tag: Option<string>, search: Option<string>)

  const NoFilters := ArticleFilters(None, None, None)

  function InCategory(c: string): Article -> bool { (a: Article) => a.category == c }
  function TagLike(t: string): Article -> bool { (a: Article) => LikeContains(a.tags, t) }
  function SearchLike(s: string): Article -> bool {
    (a: Article) => LikeContains(a.title, s) || LikeContains(a.content, s)
  }

  /** The query after the three `if` steps: each condition only when its
      argument is truthy. */
  function FilteredArticles(rows: seq<Article>, f: ArticleFilters): (r: seq<Article>)
    ensures |r| <= |rows|
    ensures forall a :: a in r ==> a in rows
  {
    var q1 := if Given(f.category) then Query.Filter(rows, InCategory(f.category.value)) else rows;
    var q2 := if Given(f.tag) then Query.Filter(q1, TagLike(f.tag.value)) else q1;
    if Given(f.search) then Query.Filter(q2, SearchLike(f.search.value)) else q2
  }

  /** What a selected article satisfies: each truthy argument, conjunctively;
      the category exactly, the tag inside the tags text, the search inside
      the title or the content. */
  predicate Matches(f: ArticleFilters, a: Article) {
    (Given(f.category) ==> a.category == f.category.value) &&
    (Given(f.tag) ==> LikeContains(a.tags, f.tag.value)) &&
    (Given(f.search) ==> LikeContains(a.title, f.search.value) || LikeContains(a.content, f.search.value))
  }

  function MatchesBy(f: ArticleFilters): Article -> bool { (a: Article) => Matches(f, a) }

  lemma FilteredIsConjunction(rows: seq<Article>, f: ArticleFilters)
    ensures FilteredArticles(rows, f) == Query.Filter(rows, MatchesBy(f))
  {
    var k1 := (a: Article) => Given(f.category) ==> a.category == f.category.value;
    var k2 := (a: Article) => k1(a) && (Given(f.tag) ==> LikeContains(a.tags, f.tag.value));
    var k3 := (a: Article) => k2(a) &&
      (Given(f.search) ==> LikeContains(a.title, f.search.value) || LikeContains(a.content, f.search.value));
    var q1 := if Given(f.category) then Query.Filter(rows, InCategory(f.category.value)) else rows;
    if Given(f.category) { Query.FilterSame(rows, InCategory(f.category.value), k1); } else { Query.FilterAll(rows, k1); }
    assert q1 == Query.Filter(rows, k1);
    var q2 := if Given(f.tag) then Query.Filter(q1, TagLike(f.tag.value)) else q1;
    if Given(f.tag) { Query.FilterTwice(rows, k1, TagLike(f.tag.value), k2); } else { Query.FilterSame(rows, k1, k2); }
    assert q2 == Query.Filter(rows, k2);
    if Given(f.search) { Query.FilterTwice(rows, k2, SearchLike(f.search.value), k3); } else { Query.FilterSame(rows, k2, k3); }
    Query.FilterSame(rows, k3, MatchesBy(f));
  }

  // ------------------------------------------------------------ ordering

  function CreatedDesc(a: Article, b: Article): bool { TextLe(b.createdAt, a.createdAt) }
  function CreatedAsc(a: Article, b: Article): bool { TextLe(a.createdAt, b.createdAt) }
  function TitleDesc(a: Article, b: Article): bool { TextLe(b.title, a.title) }
  function TitleAsc(a: Article, b: Article): bool { TextLe(a.title, b.title) }

  /** The two keys get_articles can order by. */
  predicate IsSortKey(sortBy: string) {
    sortBy == "created_at" || sortBy == "title"
  }

  /** The ORDER BY that `sort_by` and `sort_desc` choose (for a sort key). */
  function ArticleOrder(sortBy: string, sortDesc: bool): (Article, Article) -> bool {
    if sortBy == "created_at" then (if sortDesc then CreatedDesc else CreatedAsc)
    else (if sortDesc then TitleDesc else TitleAsc)
  }

  /** Text comparison on one key of the row is an ORDER BY comparison. */
  lemma KeyOrder(key: Article -> string, le: (Article, Article) -> bool, flipped: bool)
    requires forall a, b :: le(a, b) == if flipped then TextLe(key(b), key(a)) else TextLe(key(a), key(b))
    ensures Query.TotalPreorder(le)
  {
    forall a, b ensures le(a, b) || le(b, a) {
      TextLeTotal(key(a), key(b));
    }
    forall a, b, c | le(a, b) && le(b, c) ensures le(a, c) {
      if flipped {
        TextLeTransitive(key(c), key(b), key(a));
      } else {
        TextLeTransitive(key(a), key(b), key(c));
      }
    }
  }

  lemma ArticleOrderIsOrder(sortBy: string, sortDesc: bool)
    ensures Query.TotalPreorder(ArticleOrder(sortBy, sortDesc))
  {
    var le := ArticleOrder(sortBy, sortDesc);
    if sortBy == "created_at" {
      KeyOrder((a: Article) => a.createdAt, le, sortDesc);
    } else {
      KeyOrder((a: Article) => a.title, le, sortDesc);
    }
  }

  // ------------------------------------------------------------ get_articles

  /** The parameters of get_articles. */
  datatype ArticleQuery = ArticleQuery(
    filters: ArticleFilters, skip: int, limit: int, sortBy: string, sortDesc: bool)

  const DefaultArticleQuery := ArticleQuery(NoFilters, 0, 10, "created_at", true)

  /** get_articles: the OFFSET skip LIMIT limit window of the matching rows,
      ordered by created_at or title, descending or ascending; any other
      `sort_by` adds no ORDER BY and the rows come in table order. */
  function GetArticles(rows: seq<Article>, q: ArticleQuery): (r: seq<Article>)
    ensures forall a :: a in r ==> a in rows && Matches(q.filters, a)
    ensures q.limit >= 0 ==> |r| <= q.limit
    ensures q.sortBy == "created_at" && q.sortDesc ==>
      forall i, j :: 0 <= i < j < |r| ==> TextLe(r[j].createdAt, r[i].createdAt)
    ensures q.sortBy == "created_at" && !q.sortDesc ==>
      forall i, j :: 0 <= i < j < |r| ==> TextLe(r[i].createdAt, r[j].createdAt)
    ensures q.sortBy == "title" && q.sortDesc ==>
      forall i, j :: 0 <= i < j < |r| ==> TextLe(r[j].title, r[i].title)
    ensures q.sortBy == "title" && !q.sortDesc ==>
      forall i, j :: 0 <= i < j < |r| ==> TextLe(r[i].title, r[j].title)
    ensures IsSortKey(q.sortBy) ==>
      Query.IsPageOf(r, Query.Filter(rows, MatchesBy(q.filters)), ArticleOrder(q.sortBy, q.sortDesc), q.skip, q.limit)
    ensures !IsSortKey(q.sortBy) ==> r == Query.Window(Query.Filter(rows, MatchesBy(q.filters)), q.skip, q.limit)
  {
    var matched := FilteredArticles(rows, q.filters);
    FilteredIsConjunction(rows, q.filters);
    if IsSortKey(q.sortBy) then
      ArticleOrderIsOrder(q.sortBy, q.sortDesc);
      Query.SortedPage(matched, ArticleOrder(q.sortBy, q.sortDesc), q.skip, q.limit)
    else
      Query.WindowMembers(matched, q.skip, q.limit);
      Query.Window(matched, q.skip, q.limit)
  }

  // ------------------------------------------------------------ get_articles_count

  /** get_articles_count: how many rows satisfy the same three conditions. */
  function GetArticlesCount(rows: seq<Article>, f: ArticleFilters): (n: nat)
    ensures n == |Query.Filter(rows, MatchesBy(f))|
    ensures n <= |rows|
  {
    FilteredIsConjunction(rows, f);
    |FilteredArticles(rows, f)|
  }

  /** The count is what get_articles returns with no OFFSET and no LIMIT,
      whatever the ordering. */
  lemma CountIsUnpagedListing(rows: seq<Article>, q: ArticleQuery)
    ensures GetArticlesCount(rows, q.filters) == |GetArticles(rows, q.(skip := 0, limit := -1))|
  {
    var all := q.(skip := 0, limit := -1);
    var matched := Query.Filter(rows, MatchesBy(q.filters));
    if IsSortKey(q.sortBy) {
      assert Query.IsPageOf(GetArticles(rows, all), matched, ArticleOrder(q.sortBy, q.sortDesc), 0, -1);
      var ordered :| Query.SortedBy(ordered, ArticleOrder(q.sortBy, q.sortDesc)) &&
        multiset(ordered) == multiset(matched) && GetArticles(rows, all) == Query.Window(ordered, 0, -1);
      assert |ordered| == |multiset(ordered)| == |matched|;
    }
  }

  /** The page holds `limit` rows while enough remain after `skip`, the rest
      otherwise (SQLite treats a negative skip as 0 and a negative limit as
      no bound). */
  lemma GetArticlesLength(rows: seq<Article>, q: ArticleQuery)
    ensures var n := GetArticlesCount(rows, q.filters);
      var rest := if Query.Max0(q.skip) < n then n - Query.Max0(q.skip) else 0;
      |GetArticles(rows, q)| == if 0 <= q.limit < rest then q.limit else rest
  {
    var matched := Query.Filter(rows, MatchesBy(q.filters));
    if IsSortKey(q.sortBy) {
      assert Query.IsPageOf(GetArticles(rows, q), matched, ArticleOrder(q.sortBy, q.sortDesc), q.skip, q.limit);
      var ordered :| Query.SortedBy(ordered, ArticleOrder(q.sortBy, q.sortDesc)) &&
        multiset(ordered) == multiset(matched) && GetArticles(rows, q) == Query.Window(ordered, q.skip, q.limit);
      assert |ordered| == |multiset(ordered)| == |matched|;
    }
  }

  /** With no truthy condition every row is counted. */
  lemma EmptyFiltersCountAll(rows: seq<Article>, f: ArticleFilters)
    requires !Given(f.category) && !Given(f.tag) && !Given(f.search)
    ensures GetArticlesCount(rows, f) == |rows|
  {
    Query.FilterAll(rows, MatchesBy(f));
  }

  /** get_articles with no query parameters: the ten newest rows by
      created_at, or all rows when there are fewer. */
  lemma DefaultArticlesPage(rows: seq<Article>)
    ensures var r := GetArticles(rows, DefaultArticleQuery);
      |r| == (if |rows| < 10 then |rows| else 10) &&
      forall i, j :: 0 <= i < j < |r| ==> TextLe(r[j].createdAt, r[i].createdAt)
    ensures Query.IsPageOf(GetArticles(rows, DefaultArticleQuery), rows, CreatedDesc, 0, 10)
  {
    EmptyFiltersCountAll(rows, NoFilters);
    GetArticlesLength(rows, DefaultArticleQuery);
  }

  // ------------------------------------------------------------ writes

  /** SQLite's choice of id for an INTEGER PRIMARY KEY inserted without one:
      one more than the largest id in the table, 1 for an empty table. */
  function NextRowId(rows: seq<Article>): (n: int)
    ensures forall a :: a in rows ==> a.id < n
  {
    if rows == [] then 1
    else
      var rest := NextRowId(rows[1..]);
      assert forall a :: a in rows ==> a == rows[0] || a in rows[1..];
      if rows[0].id + 1 > rest then rows[0].id + 1 else rest
  }

  /** The five request fields, in the order `article.dict()` lists them. */
  datatype Field = Title | Content | Category | Tags | Author

  const RequestFields: seq<Field> := [Title, Content, Category, Tags, Author]

  lemma EveryFieldListed(f: Field)
    ensures f in RequestFields
  {
  }

  function RequestValue(a: ArticleCreate, f: Field): string {
    match f
    case Title => a.title
    case Content => a.content
    case Category => a.category
    case Tags => a.tags
    case Author => a.author
  }

  function FieldValue(art: Article, f: Field): string {
    match f
    case Title => art.title
    case Content => art.content
    case Category => art.category
    case Tags => art.tags
    case Author => art.author
  }

  /** One `setattr(db_article, key, value)`. */
  function SetField(art: Article, f: Field, value: string): (r: Article)
    ensures r.id == art.id && r.createdAt == art.createdAt
    ensures FieldValue(r, f) == value
    ensures forall g :: g != f ==> FieldValue(r, g) == FieldValue(art, g)
  {
    match f
    case Title => art.(title := value)
    case Content => art.(content := value)
    case Category => art.(category := value)
    case Tags => art.(tags := value)
    case Author => art.(author := value)
  }

  /** The row after an update: every request field overwritten, id and
      created_at kept. */
  function Overwritten(art: Article, a: ArticleCreate): (r: Article)
    ensures r.id == art.id && r.createdAt == art.createdAt
    ensures forall f :: FieldValue(r, f) == RequestValue(a, f)
  {
    Article(art.id, a.title, a.content, a.category, a.tags, a.author, art.createdAt)
  }

  /** A row is determined by its id, its created_at and its five fields. */
  lemma ArticleByFields(x: Article, y: Article)
    requires x.id == y.id && x.createdAt == y.createdAt
    requires forall f :: FieldValue(x, f) == FieldValue(y, f)
    ensures x == y
  {
    assert FieldValue(x, Title) == FieldValue(y, Title);
    assert FieldValue(x, Content) == FieldValue(y, Content);
    assert FieldValue(x, Category) == FieldValue(y, Category);
    assert FieldValue(x, Tags) == FieldValue(y, Tags);
    assert FieldValue(x, Author) == FieldValue(y, Author);
  }

  /** Updating twice with the same body is updating once. */
  lemma OverwriteIdempotent(art: Article, a: ArticleCreate)
    ensures Overwritten(Overwritten(art, a), a) == Overwritten(art, a)
  {
    ArticleByFields(Overwritten(Overwritten(art, a), a), Overwritten(art, a));
  }

  /** The row an insert creates. */
  function NewArticle(rows: seq<Article>, a: ArticleCreate, now: string): (r: Article)
    ensures forall f :: FieldValue(r, f) == RequestValue(a, f)
    ensures r.createdAt == now && GetArticle(rows, r.id).None?
  {
    Article(NextRowId(rows), a.title, a.content, a.category, a.tags, a.author, now)
  }

  /** Two tables with unique ids that hold the same rows under `id` answer
      get_article for `id` alike. */
  lemma SameLookup(rows: seq<Article>, s: seq<Article>, id: int)
    requires UniqueArticleIds(rows) && UniqueArticleIds(s)
    requires forall x: Article :: x.id == id ==> (x in s <==> x in rows)
    ensures GetArticle(s, id) == GetArticle(rows, id)
  {
    match GetArticle(rows, id)
    case Some(x) => GetArticleUnique(s, x);
    case None =>
  }

  /** After create_article the new row is found under its id and every other
      id finds what it found before. */
  lemma CreateThenGet(rows: seq<Article>, a: ArticleCreate, now: string)
    requires UniqueArticleIds(rows)
    ensures var art := NewArticle(rows, a, now);
      UniqueArticleIds(rows + [art]) &&
      GetArticle(rows + [art], art.id) == Some(art) &&
      forall id :: id != art.id ==> GetArticle(rows + [art], id) == GetArticle(rows, id)
  {
    var art := NewArticle(rows, a, now);
    var s := rows + [art];
    assert forall k :: 0 <= k < |rows| ==> rows[k] in rows;
    GetArticleUnique(s, art);
    forall id | id != art.id ensures GetArticle(s, id) == GetArticle(rows, id) {
      SameLookup(rows, s, id);
    }
  }

  /** After update_article the id finds the overwritten row and every other
      id finds what it found before. */
  lemma UpdateThenGet(rows: seq<Article>, i: nat, a: ArticleCreate)
    requires UniqueArticleIds(rows) && i < |rows|
    ensures var s := rows[i := Overwritten(rows[i], a)];
      UniqueArticleIds(s) &&
      GetArticle(s, rows[i].id) == Some(Overwritten(rows[i], a)) &&
      forall id :: id != rows[i].id ==> GetArticle(s, id) == GetArticle(rows, id)
  {
    var s := rows[i := Overwritten(rows[i], a)];
    assert s[i] in s;
    GetArticleUnique(s, s[i]);
    forall id | id != rows[i].id ensures GetArticle(s, id) == GetArticle(rows, id) {
      forall x: Article | x.id == id ensures x in s <==> x in rows {
        if x in rows {
          var k :| 0 <= k < |rows| && rows[k] == x;
          assert s[k] == x;
        }
        if x in s {
          var k :| 0 <= k < |s| && s[k] == x;
          assert rows[k] == x;
        }
      }
      SameLookup(rows, s, id);
    }
  }

  /** Deleting row `i` keeps exactly the rows with another id. */
  lemma RemoveRow(rows: seq<Article>, i: nat)
    requires UniqueArticleIds(rows) && i < |rows|
    ensures UniqueArticleIds(Query.RemoveAt(rows, i))
    ensures forall x :: x in Query.RemoveAt(rows, i) <==> x in rows && x.id != rows[i].id
  {
    var s := Query.RemoveAt(rows, i);
    assert forall k :: 0 <= k < |s| ==> s[k] == if k < i then rows[k] else rows[k + 1];
    forall x ensures x in s <==> x in rows && x.id != rows[i].id {
      if x in rows && x.id != rows[i].id {
        var k :| 0 <= k < |rows| && rows[k] == x;
        assert s[if k < i then k else k - 1] == x;
      }
    }
  }

  /** After delete_article the id is gone, every other row stays, and every
      other id finds what it found before. */
  lemma DeleteThenGet(rows: seq<Article>, i: nat)
    requires UniqueArticleIds(rows) && i < |rows|
    ensures var s := Query.RemoveAt(rows, i);
      UniqueArticleIds(s) &&
      (forall x :: x in s <==> x in rows && x.id != rows[i].id) &&
      GetArticle(s, rows[i].id).None? &&
      forall id :: id != rows[i].id ==> GetArticle(s, id) == GetArticle(rows, id)
  {
    var s := Query.RemoveAt(rows, i);
    RemoveRow(rows, i);
    forall id | id != rows[i].id ensures GetArticle(s, id) == GetArticle(rows, id) {
      SameLookup(rows, s, id);
    }
  }

  /** The health_articles table, updated in place by the write helpers. */
  class ArticleTable {
    var rows: seq<Article>

    ghost predicate Valid()
      reads this
    {
      UniqueArticleIds(rows)
    }

    constructor ()
      ensures Valid() && rows == []
    {
      rows := [];
    }

    /** create_article: one new row carrying the five fields, stamped `now`;
        the rows already there are kept. */
    method CreateArticle(a: ArticleCreate, now: string) returns (art: Article)
      requires Valid()
      modifies this
      ensures Valid()
      ensures art == NewArticle(old(rows), a, now)
      ensures rows == old(rows) + [art]
    {
      art := NewArticle(rows, a, now);
      CreateThenGet(rows, a, now);
      rows := rows + [art];
    }

    /** update_article: a missing id gives None and no change; otherwise the
        `setattr` loop overwrites the five fields of that row, and the
        updated row is returned. */
    method UpdateArticle(id: int, a: ArticleCreate) returns (r: Option<Article>)
      requires Valid()
      modifies this
      ensures Valid()
      ensures match ArticleIndex(old(rows), id)
        case None => r.None? && rows == old(rows)
        case Some(i) =>
          rows == old(rows)[i := Overwritten(old(rows)[i], a)] && r == Some(rows[i])
    {
      var found := ArticleIndex(rows, id);
      if found.None? {
        return None;
      }
      var i := found.value;
      var cur := rows[i];
      var k := 0;
      while k < |RequestFields|
        invariant 0 <= k <= |RequestFields|
        invariant cur.id == rows[i].id && cur.createdAt == rows[i].createdAt
        invariant forall j :: 0 <= j < k ==> FieldValue(cur, RequestFields[j]) == RequestValue(a, RequestFields[j])
      {
        cur := SetField(cur, RequestFields[k], RequestValue(a, RequestFields[k]));
        k := k + 1;
      }
      forall f ensures FieldValue(cur, f) == FieldValue(Overwritten(rows[i], a), f) {
        EveryFieldListed(f);
      }
      ArticleByFields(cur, Overwritten(rows[i], a));
      UpdateThenGet(rows, i, a);
      rows := rows[i := cur];
      r := Some(cur);
    }

    /** delete_article: true exactly when the id was there, in which case
        that row, and only it, is gone. */
    method DeleteArticle(id: int) returns (deleted: bool)
      requires Valid()
      modifies this
      ensures Valid()
      ensures deleted <==> exists x :: x in old(rows) && x.id == id
      ensures match ArticleIndex(old(rows), id)
        case None => rows == old(rows)
        case Some(i) => rows == Query.RemoveAt(old(rows), i)
    {
      var found := ArticleIndex(rows, id);
      if found.None? {
        return false;
      }
      DeleteThenGet(rows, found.value);
      assert rows[found.value] in rows;
      rows := Query.RemoveAt(rows, found.value);
      deleted := true;
    }
  }
}
