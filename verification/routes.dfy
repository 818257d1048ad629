/**
 The `/api/articles*` request handlers: which status and body each one answers
 with, given what the store returns. Schema validation of a request body is an
 input: the handler receives either the validated payload or the message the
 validation error was formatted into.
 */
module Routes {
  import opened Schema
  import opened Storage
  import StableSort

  datatype Body =
    | Record(article: Article)
    | Records(articles: seq<Article>)
    | Error(message: string)
    | NoContent

  datatype Response = Response(status: int, body: Body)

  /** The outcome of parsing a request body against the article schema. */
  datatype Parsed<T> = Validated(value: T) | Rejected(message: string)

  const NotFoundMessage: string := "Article not found"

  const NotFound: Response := Response(404, Error(NotFoundMessage))

  /** GET /api/articles: every record, newest creation time first, ties in insertion order. */
  function ListArticles(s: Store): (r: Response)
    ensures r.status == 200 && r.body.Records?
    ensures multiset(r.body.articles) == multiset(Values(s))
    ensures StableSort.SortedDesc(StableSort.NewestCreated, r.body.articles)
    ensures StableSort.SameRuns(StableSort.NewestCreated, Values(s), r.body.articles)
  {
    Response(200, Records(GetAllArticles(s)))
  }

  /** GET /api/articles/published: the published records, newest publication time first, ties in insertion order. */
  function ListPublished(s: Store): (r: Response)
    ensures r.status == 200 && r.body.Records?
    ensures forall a :: multiset(r.body.articles)[a] == if a.published then multiset(Values(s))[a] else 0
    ensures StableSort.SortedDesc(StableSort.NewestPublished, r.body.articles)
    ensures StableSort.SameRuns(StableSort.NewestPublished, PublishedOnly(Values(s)), r.body.articles)
  {
    Response(200, Records(GetPublishedArticles(s)))
  }

  /** GET /api/articles/slug/:slug: the earliest-inserted record carrying the slug. */
  function GetBySlug(s: Store, slug: string): (r: Response)
    ensures r.status == 200 <==> exists i :: 0 <= i < |Values(s)| && Values(s)[i].slug == slug
    ensures r.status == 200 ==> r.body.Record? && r.body.article.slug == slug
    ensures r.status == 200 ==> exists i :: 0 <= i < |Values(s)| && Values(s)[i] == r.body.article
                                            && forall j :: 0 <= j < i ==> Values(s)[j].slug != slug
    ensures r.status != 200 ==> r == NotFound
  {
    match GetArticleBySlug(s, slug)
    case None => NotFound
    case Some(a) => Response(200, Record(a))
  }

  /** GET /api/articles/:id. */
  function GetById(s: Store, id: string): (r: Response)
    requires Valid(s)
    ensures r.status == 200 <==> id in Ids(s)
    ensures r.status == 200 ==> r.body.Record? && r.body.article.id == id && Entry(id, r.body.article) in s.entries
    ensures r.status != 200 ==> r == NotFound
  {
    match GetArticle(s, id)
    case None => NotFound
    case Some(a) =>
      LookupStoredId(s, id, a);
      Response(200, Record(a))
  }

  /**
   POST /api/articles, creating under the id `id` that `randomUUID()` returned,
   at time `now`. A body that fails validation is answered with 400 and never
   reaches the store.
   */
  function Post(s: Store, body: Parsed<InsertArticle>, id: string, now: Timestamp): (r: (Store, Response))
    requires Valid(s)
    ensures Valid(r.0)
    ensures forall k :: k != id ==> GetArticle(r.0, k) == GetArticle(s, k)
    ensures body.Rejected? ==> r.0 == s && r.1 == Response(400, Error(body.message))
    ensures body.Validated? ==>
              && r.1.status == 201 && r.1.body.Record?
              && GetArticle(r.0, id) == Some(r.1.body.article)
              && CopiedFrom(body.value, r.1.body.article)
              && r.1.body.article.id == id
              && r.1.body.article.createdAt == now && r.1.body.article.updatedAt == now
              && (body.value.published && body.value.publishedAt.Some? ==> r.1.body.article.publishedAt == body.value.publishedAt)
              && (body.value.published && body.value.publishedAt.None? ==> r.1.body.article.publishedAt == Some(now))
              && (!body.value.published ==> r.1.body.article.publishedAt == None)
              && PublishConsistent(r.1.body.article)
    ensures body.Validated? && id !in Ids(s) ==> Ids(r.0) == Ids(s) + [id] && Values(r.0) == Values(s) + [r.1.body.article]
    ensures AllPublishConsistent(s) ==> AllPublishConsistent(r.0)
  {
    match body
    case Rejected(message) => (s, Response(400, Error(message)))
    case Validated(input) =>
      var (s', a) := CreateArticle(s, id, now, input);
      (s', Response(201, Record(a)))
  }

  /** PATCH /api/articles/:id, with the clock reading `now` and then `publishNow`. */
  function Patch(s: Store, id: string, body: Parsed<ArticlePatch>, now: Timestamp, publishNow: Timestamp): (r: (Store, Response))
    requires Valid(s)
    ensures Valid(r.0)
    ensures forall k :: k != id ==> GetArticle(r.0, k) == GetArticle(s, k)
    ensures body.Rejected? ==> r.0 == s && r.1 == Response(400, Error(body.message))
    ensures body.Validated? && id !in Ids(s) ==> r.0 == s && r.1 == NotFound
    ensures body.Validated? && id in Ids(s) ==>
              var prev := GetArticle(s, id).value;
              && r.1.status == 200 && r.1.body.Record?
              && GetArticle(r.0, id) == Some(r.1.body.article)
              && Patched(body.value, prev, r.1.body.article)
              && r.1.body.article.id == id
              && r.1.body.article.createdAt == prev.createdAt
              && r.1.body.article.updatedAt == now
              && (body.value.published.Omitted? ==> r.1.body.article.publishedAt == prev.publishedAt)
              && (body.value.published == Supplied(true) ==>
                    r.1.body.article.publishedAt ==
                      if body.value.publishedAt.Supplied? && body.value.publishedAt.value.Some?
                      then body.value.publishedAt.value else Some(publishNow))
              && (body.value.published == Supplied(false) ==> r.1.body.article.publishedAt == None)
              && Ids(r.0) == Ids(s)
    ensures AllPublishConsistent(s) ==> AllPublishConsistent(r.0)
  {
    match body
    case Rejected(message) => (s, Response(400, Error(message)))
    case Validated(p) =>
      var (s', u) := UpdateArticle(s, id, now, publishNow, p);
      match u
      case None => (s', NotFound)
      case Some(a) => (s', Response(200, Record(a)))
  }

  /** DELETE /api/articles/:id. */
  function Delete(s: Store, id: string): (r: (Store, Response))
    requires Valid(s)
    ensures Valid(r.0)
    ensures r.1.status == 204 <==> id in Ids(s)
    ensures r.1.status == 204 ==> r.1.body == NoContent
    ensures r.1.status != 204 ==> r.0 == s && r.1 == NotFound
    ensures GetArticle(r.0, id) == None
    ensures forall k :: k != id ==> GetArticle(r.0, k) == GetArticle(s, k)
    ensures r.1.status == 204 ==> exists i :: 0 <= i < |s.entries| && s.entries[i].id == id
                                             && r.0.entries == s.entries[..i] + s.entries[i + 1..]
  {
    var (s', deleted) := DeleteArticle(s, id);
    if deleted then (s', Response(204, NoContent)) else (s', NotFound)
  }

  /** DELETE answers 204 exactly when GET by id would have answered 200; afterwards GET and DELETE answer 404. */
  lemma DeleteAgreesWithGet(s: Store, id: string)
    requires Valid(s)
    ensures Delete(s, id).1.status == 204 <==> GetById(s, id).status == 200
    ensures GetById(Delete(s, id).0, id) == NotFound
    ensures Delete(Delete(s, id).0, id) == (Delete(s, id).0, NotFound)
  {
  }

  /** PATCH with a valid body answers 404 exactly when GET by id does. */
  lemma PatchAgreesWithGet(s: Store, id: string, p: ArticlePatch, now: Timestamp, publishNow: Timestamp)
    requires Valid(s)
    ensures Patch(s, id, Validated(p), now, publishNow).1.status == 404 <==> GetById(s, id).status == 404
  {
  }

  /** After a valid POST, GET by the new id answers 200 with the record the POST answered with. */
  lemma PostThenGet(s: Store, input: InsertArticle, id: string, now: Timestamp)
    requires Valid(s)
    ensures var (s', created) := Post(s, Validated(input), id, now);
            GetById(s', id) == Response(200, created.body)
  {
  }

  /**
   After a valid POST whose slug no stored record carries, GET by that slug
   answers with the new record.
   */
  lemma PostThenGetBySlug(s: Store, input: InsertArticle, id: string, now: Timestamp)
    requires Valid(s) && id !in Ids(s)
    requires forall i :: 0 <= i < |Values(s)| ==> Values(s)[i].slug != input.slug
    ensures var (s', created) := Post(s, Validated(input), id, now);
            GetBySlug(s', input.slug) == Response(200, created.body)
  {
    var (s', created) := Post(s, Validated(input), id, now);
    var a := created.body.article;
    assert Values(s') == Values(s) + [a];
    var r := GetArticleBySlug(s', input.slug);
    assert Values(s')[|Values(s)|].slug == input.slug;
    var j :| 0 <= j < |Values(s')| && Values(s')[j] == r.value
             && forall l :: 0 <= l < j ==> Values(s')[l].slug != input.slug;
    assert j == |Values(s)|;
  }
}
