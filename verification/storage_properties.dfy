/**
 Properties of the article store that relate several operations, or follow
 from the store invariants rather than from one call.
 */
module StorageProperties {
  import opened Schema
  import opened Storage
  import StableSort

  /** With one record carrying the slug, slug lookup finds exactly that record. */
  lemma SlugLookupUnique(s: Store, slug: string, i: nat)
    requires i < |Values(s)| && Values(s)[i].slug == slug
    requires forall j :: 0 <= j < |Values(s)| && j != i ==> Values(s)[j].slug != slug
    ensures GetArticleBySlug(s, slug) == Some(Values(s)[i])
  {
    var r := GetArticleBySlug(s, slug);
    var j :| 0 <= j < |Values(s)| && Values(s)[j] == r.value
             && forall l :: 0 <= l < j ==> Values(s)[l].slug != slug;
    assert Values(s)[j].slug == slug;
  }

  /** With duplicate slugs, slug lookup returns the earlier-inserted record. */
  lemma SlugLookupEarliest(s: Store, slug: string, i: nat, j: nat)
    requires i < j < |Values(s)| && Values(s)[i].slug == slug && Values(s)[j].slug == slug
    requires forall l :: 0 <= l < i ==> Values(s)[l].slug != slug
    ensures GetArticleBySlug(s, slug) == Some(Values(s)[i])
  {
    var r := GetArticleBySlug(s, slug);
    var m :| 0 <= m < |Values(s)| && Values(s)[m] == r.value
             && forall l :: 0 <= l < m ==> Values(s)[l].slug != slug;
    assert Values(s)[m].slug == slug;
    assert !(m < i) && !(i < m);
  }

  /** Creation times that are pairwise distinct make the full listing strictly newest-first. */
  lemma DistinctCreationTimesStrict(s: Store)
    requires StableSort.DistinctKeys(StableSort.NewestCreated, Values(s))
    ensures forall i, j :: 0 <= i < j < |GetAllArticles(s)| ==>
              GetAllArticles(s)[i].createdAt > GetAllArticles(s)[j].createdAt
  {
    StableSort.DistinctKeysStrict(StableSort.NewestCreated, Values(s), GetAllArticles(s));
  }

  /**
   In a store whose records are publish-consistent (which every sequence of writes
   from the empty store keeps), every listed published record has its own
   publication time: the "missing counts as 0" default never applies.
   */
  lemma PublishedListingHasDates(s: Store)
    requires AllPublishConsistent(s)
    ensures forall i :: 0 <= i < |GetPublishedArticles(s)| ==> GetPublishedArticles(s)[i].publishedAt.Some?
  {
    var r := GetPublishedArticles(s);
    PublishedListingMembers(s);
    forall i | 0 <= i < |r|
      ensures r[i].publishedAt.Some?
    {
      assert r[i] in r;
      StoredConsistent(s, r[i]);
    }
  }

  /** A stored record of a publish-consistent store is publish-consistent. */
  lemma StoredConsistent(s: Store, a: Article)
    requires AllPublishConsistent(s) && a in Values(s)
    ensures PublishConsistent(a)
  {
    var j :| 0 <= j < |Values(s)| && Values(s)[j] == a;
    assert s.entries[j] in s.entries;
  }

  /** The published listing holds a record exactly when the store holds it and it is published. */
  lemma PublishedListingMembers(s: Store)
    ensures forall a :: a in GetPublishedArticles(s) <==> a in Values(s) && a.published
  {
    var r := GetPublishedArticles(s);
    forall a
      ensures a in r <==> a in Values(s) && a.published
    {
      assert a in r <==> a in multiset(r);
      assert a in Values(s) <==> a in multiset(Values(s));
    }
  }

  /**
   Creating a published article without a publication time stamps it with the
   creation time; unpublishing it afterwards clears the publication time and
   keeps the creation time.
   */
  lemma CreateThenUnpublish(s: Store, id: string, t1: Timestamp, t2: Timestamp, input: InsertArticle)
    requires Valid(s) && input.published && input.publishedAt.None?
    ensures var (s1, a) := CreateArticle(s, id, t1, input);
            && a.publishedAt == Some(t1)
            && var unpublish := ArticlePatch(Omitted, Omitted, Omitted, Omitted, Omitted, Omitted, Omitted,
                                             Supplied(false), Omitted);
               var (_, u) := UpdateArticle(s1, id, t2, t2, unpublish);
               && u.Some?
               && u.value.publishedAt == None && !u.value.published
               && u.value.createdAt == t1 && u.value.updatedAt == t2
  {
    var (s1, a) := CreateArticle(s, id, t1, input);
    assert GetArticle(s1, id) == Some(a);
  }

  /** A write never changes what is stored under any other id. */
  lemma WritesAreLocal(s: Store, id: string, other: string, now: Timestamp, publishNow: Timestamp, input: InsertArticle, p: ArticlePatch)
    requires Valid(s) && other != id
    ensures GetArticle(CreateArticle(s, id, now, input).0, other) == GetArticle(s, other)
    ensures GetArticle(UpdateArticle(s, id, now, publishNow, p).0, other) == GetArticle(s, other)
    ensures GetArticle(DeleteArticle(s, id).0, other) == GetArticle(s, other)
  {
  }

  /** Deleting an unknown id leaves the store as it was; deleting a known one shrinks it by one. */
  lemma DeleteSize(s: Store, id: string)
    requires Valid(s)
    ensures !DeleteArticle(s, id).1 ==> |Values(DeleteArticle(s, id).0)| == |Values(s)|
    ensures DeleteArticle(s, id).1 ==> |Values(DeleteArticle(s, id).0)| == |Values(s)| - 1
  {
  }

  /** One write request the API can make against the store. */
  datatype Write =
    | Create(id: string, now: Timestamp, input: InsertArticle)
    | Update(id: string, now: Timestamp, publishNow: Timestamp, patch: ArticlePatch)
    | Remove(id: string)

  /** The store after one write. */
  function Apply(s: Store, w: Write): (r: Store)
    requires Valid(s)
    ensures Valid(r)
    ensures AllPublishConsistent(s) ==> AllPublishConsistent(r)
  {
    match w
    case Create(id, now, input) => CreateArticle(s, id, now, input).0
    case Update(id, now, publishNow, p) => UpdateArticle(s, id, now, publishNow, p).0
    case Remove(id) => DeleteArticle(s, id).0
  }

  /**
   The store after the process starts empty and serves `ws` in order: its ids
   are distinct and match their records, and every record is published exactly
   when it has a publication time.
   */
  function Replay(ws: seq<Write>): (r: Store)
    ensures Valid(r) && AllPublishConsistent(r)
  {
    if ws == [] then Empty() else Apply(Replay(ws[..|ws| - 1]), ws[|ws| - 1])
  }

  /** In any reachable store the published listing carries every record's own publication time. */
  lemma ReachableListingHasDates(ws: seq<Write>)
    ensures var v := GetPublishedArticles(Replay(ws));
            forall i :: 0 <= i < |v| ==> v[i].published && v[i].publishedAt.Some?
  {
    PublishedListingHasDates(Replay(ws));
  }
}
