/**
 The two derived documents over the published articles: the sitemap
 (sitemaps.org protocol 0.9) as its list of `url` entries, and the RSS feed as
 its channel date and its items. Serialisation to XML is not modelled.
 `toIso` stands for `Date.prototype.toISOString` and `sanitize` for the HTML
 sanitiser; both are parameters.
 */
module Feeds {
  import opened Schema
  import opened Storage
  import StableSort
  import StorageProperties

  /** The date an article is shown with: its publication time if it has one, else its creation time. */
  function DisplayDate(a: Article): (r: Timestamp)
    ensures r == a.createdAt || Some(r) == a.publishedAt
    ensures PublishConsistent(a) && a.published ==> Some(r) == a.publishedAt
    ensures PublishConsistent(a) && !a.published ==> r == a.createdAt
  {
    if a.publishedAt.Some? then a.publishedAt.value else a.createdAt
  }

  /** `.split('T')[0]`: the text before the first 'T', or all of it when there is none. */
  function BeforeT(s: string): (r: string)
    ensures r <= s
    ensures 'T' !in r
    ensures |r| < |s| ==> s[|r|] == 'T'
  {
    if s == [] || s[0] == 'T' then [] else [s[0]] + BeforeT(s[1..])
  }

  /** The `changefreq` values the sitemap uses. */
  datatype ChangeFreq = Daily | Weekly | Monthly

  /** One `url` entry; `priority` is in tenths (the protocol allows 0.0 to 1.0). */
  datatype SitemapUrl = SitemapUrl(loc: string, lastmod: Option<string>, changefreq: ChangeFreq, priority: nat)

  function ArticleLoc(siteUrl: string, slug: string): string {
    siteUrl + "/article/" + slug
  }

  /** The entry of one published article: its page, the date part of its display date, monthly, 0.8. */
  function ArticleUrl(siteUrl: string, a: Article, toIso: Timestamp -> string): SitemapUrl {
    SitemapUrl(ArticleLoc(siteUrl, a.slug), Some(BeforeT(toIso(DisplayDate(a)))), Monthly, 8)
  }

  function ArticleUrls(siteUrl: string, articles: seq<Article>, toIso: Timestamp -> string): (r: seq<SitemapUrl>)
    ensures |r| == |articles|
    ensures forall i :: 0 <= i < |r| ==> r[i] == ArticleUrl(siteUrl, articles[i], toIso)
  {
    if articles == [] then []
    else [ArticleUrl(siteUrl, articles[0], toIso)] + ArticleUrls(siteUrl, articles[1..], toIso)
  }

  /**
   The sitemap over `articles`: the home page (daily, 1.0), the admin page
   (weekly, 0.5), then one entry per article in the given order.
   */
  function Sitemap(siteUrl: string, articles: seq<Article>, toIso: Timestamp -> string): (r: seq<SitemapUrl>)
    ensures |r| == 2 + |articles|
    ensures r[0] == SitemapUrl(siteUrl + "/", None, Daily, 10)
    ensures r[1] == SitemapUrl(siteUrl + "/admin", None, Weekly, 5)
    ensures forall j :: 0 <= j < |articles| ==> r[j + 2] == ArticleUrl(siteUrl, articles[j], toIso)
    ensures forall i :: 0 <= i < |r| ==> r[i].priority <= 10
  {
    var head := [SitemapUrl(siteUrl + "/", None, Daily, 10), SitemapUrl(siteUrl + "/admin", None, Weekly, 5)];
    var tail := ArticleUrls(siteUrl, articles, toIso);
    var r := head + tail;
    assert r[..2] == head && r[2..] == tail;
    assert forall j :: 0 <= j < |tail| ==> r[j + 2] == tail[j];
    r
  }

  /** GET /sitemap.xml over the store: the fixed pages, then the published listing newest first. */
  function SitemapFor(s: Store, siteUrl: string, toIso: Timestamp -> string): (r: seq<SitemapUrl>)
    ensures |r| == 2 + |GetPublishedArticles(s)|
    ensures r[0].loc == siteUrl + "/" && r[1].loc == siteUrl + "/admin"
    ensures forall j :: 0 <= j < |GetPublishedArticles(s)| ==>
              && r[j + 2].loc == ArticleLoc(siteUrl, GetPublishedArticles(s)[j].slug)
              && r[j + 2].lastmod == Some(BeforeT(toIso(DisplayDate(GetPublishedArticles(s)[j]))))
  {
    Sitemap(siteUrl, GetPublishedArticles(s), toIso)
  }

  /** A listing holding every published record of `pool` gives each of them a sitemap entry. */
  lemma SitemapHasEveryPublished(siteUrl: string, v: seq<Article>, pool: seq<Article>, toIso: Timestamp -> string)
    requires forall a :: a in pool && a.published ==> a in v
    ensures var r := Sitemap(siteUrl, v, toIso);
            forall a :: a in pool && a.published ==>
              exists i :: 2 <= i < |r| && r[i] == ArticleUrl(siteUrl, a, toIso)
  {
    var r := Sitemap(siteUrl, v, toIso);
    forall a | a in pool && a.published
      ensures exists i :: 2 <= i < |r| && r[i] == ArticleUrl(siteUrl, a, toIso)
    {
      var j :| 0 <= j < |v| && v[j] == a;
      assert r[j + 2] == ArticleUrl(siteUrl, a, toIso);
    }
  }

  /** A listing holding only published records of `pool` gives no other article a sitemap entry. */
  lemma SitemapHasOnlyPublished(siteUrl: string, v: seq<Article>, pool: seq<Article>, toIso: Timestamp -> string)
    requires forall a :: a in v ==> a in pool && a.published
    ensures var r := Sitemap(siteUrl, v, toIso);
            forall i :: 2 <= i < |r| ==>
              exists a :: a in pool && a.published && r[i] == ArticleUrl(siteUrl, a, toIso)
  {
    var r := Sitemap(siteUrl, v, toIso);
    forall i | 2 <= i < |r|
      ensures exists a :: a in pool && a.published && r[i] == ArticleUrl(siteUrl, a, toIso)
    {
      assert v[i - 2] in v;
      assert r[i] == ArticleUrl(siteUrl, v[i - 2], toIso);
    }
  }

  /**
   Every stored published article has an entry, and every article entry belongs
   to a stored published article.
   */
  lemma SitemapCoversPublished(s: Store, siteUrl: string, toIso: Timestamp -> string)
    ensures var r := Sitemap(siteUrl, GetPublishedArticles(s), toIso);
            forall a :: a in Values(s) && a.published ==>
              exists i :: 2 <= i < |r| && r[i] == ArticleUrl(siteUrl, a, toIso)
    ensures var r := Sitemap(siteUrl, GetPublishedArticles(s), toIso);
            forall i :: 2 <= i < |r| ==>
              exists a :: a in Values(s) && a.published && r[i] == ArticleUrl(siteUrl, a, toIso)
  {
    StorageProperties.PublishedListingMembers(s);
    SitemapHasEveryPublished(siteUrl, GetPublishedArticles(s), Values(s), toIso);
    SitemapHasOnlyPublished(siteUrl, GetPublishedArticles(s), Values(s), toIso);
  }

  /**
   In a publish-consistent store every article entry's `lastmod` is the date part
   of the article's own publication time, never of its creation time.
   */
  lemma SitemapDatesArePublicationDates(s: Store, siteUrl: string, toIso: Timestamp -> string)
    requires AllPublishConsistent(s)
    ensures var v := GetPublishedArticles(s);
            forall j :: 0 <= j < |v| ==>
              v[j].publishedAt.Some? && SitemapFor(s, siteUrl, toIso)[j + 2].lastmod == Some(BeforeT(toIso(v[j].publishedAt.value)))
  {
    var v := GetPublishedArticles(s);
    StorageProperties.PublishedListingHasDates(s);
    forall j | 0 <= j < |v|
      ensures v[j].publishedAt.Some? && Sitemap(siteUrl, v, toIso)[j + 2].lastmod == Some(BeforeT(toIso(v[j].publishedAt.value)))
    {
      assert v[j] in v;
    }
  }

  /** One RSS item. */
  datatype FeedItem = FeedItem(
    title: string,
    id: string,
    link: string,
    description: string,
    content: string,
    author: string,
    date: Timestamp,
    category: string,
    image: Option<string>)

  /** The item of one article; an absent or empty image is left out. */
  function Item(siteUrl: string, a: Article, sanitize: string -> string): (r: FeedItem)
    ensures r.id == r.link == ArticleLoc(siteUrl, a.slug)
    ensures r.date == DisplayDate(a)
    ensures r.image.Some? <==> a.featuredImage.Some? && a.featuredImage.value != ""
    ensures r.image.Some? ==> r.image == a.featuredImage
    ensures r.title == a.title && r.description == a.excerpt && r.author == a.author && r.category == a.category
    ensures r.content == sanitize(a.content)
  {
    FeedItem(
      title := a.title,
      id := ArticleLoc(siteUrl, a.slug),
      link := ArticleLoc(siteUrl, a.slug),
      description := a.excerpt,
      content := sanitize(a.content),
      author := a.author,
      date := DisplayDate(a),
      category := a.category,
      image := if a.featuredImage.Some? && a.featuredImage.value != "" then a.featuredImage else None)
  }

  /** The items of the feed, one per article in the given order. */
  function Items(siteUrl: string, articles: seq<Article>, sanitize: string -> string): (r: seq<FeedItem>)
    ensures |r| == |articles|
    ensures forall i :: 0 <= i < |r| ==> r[i] == Item(siteUrl, articles[i], sanitize)
  {
    if articles == [] then []
    else [Item(siteUrl, articles[0], sanitize)] + Items(siteUrl, articles[1..], sanitize)
  }

  /** The feed items of GET /rss.xml: one per published article, in listing order. */
  function FeedItems(s: Store, siteUrl: string, sanitize: string -> string): (r: seq<FeedItem>)
    ensures |r| == |GetPublishedArticles(s)|
    ensures forall j :: 0 <= j < |r| ==>
              && r[j].link == ArticleLoc(siteUrl, GetPublishedArticles(s)[j].slug)
              && r[j].date == DisplayDate(GetPublishedArticles(s)[j])
  {
    Items(siteUrl, GetPublishedArticles(s), sanitize)
  }

  /**
   In a publish-consistent store the feed items are dated with their articles'
   publication times and run from newest to oldest.
   */
  lemma FeedNewestFirst(s: Store, siteUrl: string, sanitize: string -> string)
    requires AllPublishConsistent(s)
    ensures var v, r := GetPublishedArticles(s), FeedItems(s, siteUrl, sanitize);
            && (forall i :: 0 <= i < |r| ==> Some(r[i].date) == v[i].publishedAt)
            && (forall i, j :: 0 <= i < j < |r| ==> r[i].date >= r[j].date)
  {
    StorageProperties.PublishedListingHasDates(s);
    DatedItemsNewestFirst(siteUrl, GetPublishedArticles(s), sanitize);
  }

  /** Items of a listing sorted newest published first, all with publication times, are dated newest first. */
  lemma DatedItemsNewestFirst(siteUrl: string, v: seq<Article>, sanitize: string -> string)
    requires StableSort.SortedDesc(StableSort.NewestPublished, v)
    requires forall i :: 0 <= i < |v| ==> v[i].publishedAt.Some?
    ensures var r := Items(siteUrl, v, sanitize);
            && (forall i :: 0 <= i < |r| ==> Some(r[i].date) == v[i].publishedAt)
            && (forall i, j :: 0 <= i < j < |r| ==> r[i].date >= r[j].date)
  {
    var r := Items(siteUrl, v, sanitize);
    forall i, j | 0 <= i < j < |r|
      ensures r[i].date >= r[j].date
    {
      assert StableSort.Key(StableSort.NewestPublished, v[i]) >= StableSort.Key(StableSort.NewestPublished, v[j]);
    }
  }

  /** The channel's `updated` date: the first article's publication time if there is one, else `now`. */
  function FeedUpdated(articles: seq<Article>, now: Timestamp): (r: Timestamp)
    ensures |articles| > 0 && articles[0].publishedAt.Some? ==> r == articles[0].publishedAt.value
    ensures !(|articles| > 0 && articles[0].publishedAt.Some?) ==> r == now
  {
    if |articles| > 0 && articles[0].publishedAt.Some? then articles[0].publishedAt.value else now
  }

  /**
   In a publish-consistent store with a published article, the feed is dated with
   the newest publication time of any stored article; with none it is dated `now`.
   */
  lemma FeedUpdatedIsNewest(s: Store, now: Timestamp)
    requires AllPublishConsistent(s)
    ensures var u := FeedUpdated(GetPublishedArticles(s), now);
            && (forall a :: a in Values(s) && a.published ==> a.publishedAt.Some? && a.publishedAt.value <= u)
            && ((exists a :: a in Values(s) && a.published) ==>
                  exists a :: a in Values(s) && a.published && a.publishedAt == Some(u))
            && ((forall a :: a in Values(s) ==> !a.published) ==> u == now)
  {
    var v := GetPublishedArticles(s);
    var u := FeedUpdated(v, now);
    StorageProperties.PublishedListingHasDates(s);
    StorageProperties.PublishedListingMembers(s);
    forall a | a in Values(s) && a.published
      ensures a.publishedAt.Some? && a.publishedAt.value <= u
    {
      var j :| 0 <= j < |v| && v[j] == a;
      assert StableSort.Key(StableSort.NewestPublished, v[0]) >= StableSort.Key(StableSort.NewestPublished, v[j]);
    }
    if exists a :: a in Values(s) && a.published {
      var a :| a in Values(s) && a.published;
      assert v[0] in v;
    } else if |v| > 0 {
      assert v[0] in v;
    }
  }
}
