/**
 The in-memory article store (`MemStorage`). Its JavaScript `Map` is modelled
 as the sequence of its entries in insertion order: `get` finds the entry with
 the key, `values()` lists the records in that order, `set` on an existing key
 replaces the record where it stands and appends otherwise, and `delete` cuts
 the entry out.

 The clock and `randomUUID` are parameters, one per reading: creation takes the
 id to allocate and one time `now`; an update takes the update time `now` and
 the later reading `publishNow`; deletion reads no clock.
 */
module Storage {
  import opened Schema
  import StableSort

  datatype Entry = Entry(id: string, article: Article)

  datatype Store = Store(entries: seq<Entry>)

  /** The keys of the map, in insertion order. */
  function Ids(s: Store): seq<string> {
    seq(|s.entries|, i requires 0 <= i < |s.entries| => s.entries[i].id)
  }

  /** `values()`: the records, in insertion order. */
  function Values(s: Store): seq<Article> {
    seq(|s.entries|, i requires 0 <= i < |s.entries| => s.entries[i].article)
  }

  /** A map has each key once, and every record is stored under its own id. */
  predicate Valid(s: Store) {
    && (forall i, j :: 0 <= i < j < |s.entries| ==> s.entries[i].id != s.entries[j].id)
    && (forall i :: 0 <= i < |s.entries| ==> s.entries[i].article.id == s.entries[i].id)
  }

  /** Every stored record has a publication time exactly when it is published. */
  predicate AllPublishConsistent(s: Store) {
    forall e :: e in s.entries ==> PublishConsistent(e.article)
  }

  /** `new MemStorage()`. */
  function Empty(): (r: Store)
    ensures Valid(r) && AllPublishConsistent(r)
    ensures forall id :: id !in Ids(r)
  {
    Store([])
  }

  /** The first position holding `x`, if any: `find` with an equality test. */
  function FirstIndex<T(==)>(s: seq<T>, x: T): (r: Option<nat>)
    ensures r.Some? ==> r.value < |s| && s[r.value] == x
    ensures r.Some? ==> forall j :: 0 <= j < r.value ==> s[j] != x
    ensures r.None? ==> x !in s
  {
    if s == [] then None
    else if s[0] == x then Some(0)
    else match FirstIndex(s[1..], x)
      case None => None
      case Some(j) => Some(j + 1)
  }

  /** In a valid store the entry with a key is the one at any position holding that key. */
  lemma KeyPosition(s: Store, i: nat)
    requires Valid(s) && i < |s.entries|
    ensures FirstIndex(Ids(s), Ids(s)[i]) == Some(i)
  {
  }

  /** `getArticle(id)`: the record stored under `id`. */
  function GetArticle(s: Store, id: string): (r: Option<Article>)
    ensures r.None? <==> id !in Ids(s)
    ensures r.Some? ==> Entry(id, r.value) in s.entries
  {
    match FirstIndex(Ids(s), id)
    case None => None
    case Some(i) =>
      assert Ids(s)[i] == id;
      Some(s.entries[i].article)
  }

  /** The slugs of the records, in insertion order. */
  function Slugs(s: Store): seq<string> {
    seq(|s.entries|, i requires 0 <= i < |s.entries| => s.entries[i].article.slug)
  }

  /**
   `getArticleBySlug(slug)`: the earliest-inserted record carrying the slug.
   Slugs are not unique in the store; the first match in insertion order wins.
   */
  function GetArticleBySlug(s: Store, slug: string): (r: Option<Article>)
    ensures r.None? <==> forall i :: 0 <= i < |Values(s)| ==> Values(s)[i].slug != slug
    ensures r.Some? ==> r.value.slug == slug
    ensures r.Some? ==> exists i :: 0 <= i < |Values(s)| && Values(s)[i] == r.value
                                    && forall j :: 0 <= j < i ==> Values(s)[j].slug != slug
  {
    assert forall i :: 0 <= i < |Values(s)| ==> Slugs(s)[i] == Values(s)[i].slug;
    match FirstIndex(Slugs(s), slug)
    case None => None
    case Some(i) =>
      assert Slugs(s)[i] == Values(s)[i].slug;
      Some(Values(s)[i])
  }

  /** `getAllArticles()`: every record, newest `createdAt` first, ties in insertion order. */
  function GetAllArticles(s: Store): (r: seq<Article>)
    ensures multiset(r) == multiset(Values(s))
    ensures StableSort.SortedDesc(StableSort.NewestCreated, r)
    ensures StableSort.SameRuns(StableSort.NewestCreated, Values(s), r)
  {
    StableSort.SortRuns(StableSort.NewestCreated, Values(s));
    StableSort.Sort(StableSort.NewestCreated, Values(s))
  }

  /** `.filter((article) => article.published)`: the published records, in their order. */
  function PublishedOnly(v: seq<Article>): (r: seq<Article>)
    ensures forall i :: 0 <= i < |r| ==> r[i].published
    ensures forall a :: multiset(r)[a] == if a.published then multiset(v)[a] else 0
  {
    if v == [] then []
    else
      assert v == [v[0]] + v[1..];
      (if v[0].published then [v[0]] else []) + PublishedOnly(v[1..])
  }

  /** The filter keeps the input order: filtering a concatenation concatenates the filtered parts. */
  lemma {:induction false} PublishedOnlyConcat(a: seq<Article>, b: seq<Article>)
    ensures PublishedOnly(a + b) == PublishedOnly(a) + PublishedOnly(b)
  {
    if a == [] {
      assert a + b == b;
    } else {
      PublishedOnlyConcat(a[1..], b);
      ConcatTail(a, b);
      var h := if a[0].published then [a[0]] else [];
      assert PublishedOnly(a + b) == h + PublishedOnly(a[1..] + b);
      assert PublishedOnly(a) == h + PublishedOnly(a[1..]);
      ConcatAssoc(h, PublishedOnly(a[1..]), PublishedOnly(b));
    }
  }

  lemma ConcatTail<T>(a: seq<T>, b: seq<T>)
    requires a != []
    ensures a + b != [] && (a + b)[0] == a[0] && (a + b)[1..] == a[1..] + b
  {
  }

  lemma ConcatAssoc<T>(a: seq<T>, b: seq<T>, c: seq<T>)
    ensures a + (b + c) == (a + b) + c
  {
  }

  /**
   `getPublishedArticles()`: the published records, newest `publishedAt` first,
   a missing `publishedAt` counting as 0, ties in insertion order.
   */
  function GetPublishedArticles(s: Store): (r: seq<Article>)
    ensures forall i :: 0 <= i < |r| ==> r[i].published
    ensures forall a :: multiset(r)[a] == if a.published then multiset(Values(s))[a] else 0
    ensures StableSort.SortedDesc(StableSort.NewestPublished, r)
    ensures StableSort.SameRuns(StableSort.NewestPublished, PublishedOnly(Values(s)), r)
  {
    StableSort.SortRuns(StableSort.NewestPublished, PublishedOnly(Values(s)));
    StableSort.Sort(StableSort.NewestPublished, PublishedOnly(Values(s)))
  }

  /** `Map.prototype.set`: replace the record where the key stands, or append a new entry. */
  function Put(s: Store, id: string, a: Article): (r: Store)
    requires Valid(s) && a.id == id
    ensures Valid(r)
    ensures id in Ids(s) ==> Ids(r) == Ids(s)
    ensures id !in Ids(s) ==> Ids(r) == Ids(s) + [id]
    ensures id !in Ids(s) ==> Values(r) == Values(s) + [a]
    ensures forall e :: e in r.entries ==> e in s.entries || e == Entry(id, a)
    ensures GetArticle(r, id) == Some(a)
    ensures forall k :: k != id ==> GetArticle(r, k) == GetArticle(s, k)
    ensures forall i :: 0 <= i < |s.entries| && s.entries[i].id != id ==> r.entries[i] == s.entries[i]
  {
    match FirstIndex(Ids(s), id)
    case Some(i) =>
      assert Ids(s)[i] == s.entries[i].id;
      PutInPlace(s, id, a, i);
      Store(s.entries[i := Entry(id, a)])
    case None =>
      PutAppended(s, id, a);
      Store(s.entries + [Entry(id, a)])
  }

  /** Overwriting the entry of a stored key in place. */
  lemma PutInPlace(s: Store, id: string, a: Article, i: nat)
    requires Valid(s) && a.id == id && i < |s.entries| && s.entries[i].id == id
    ensures var r := Store(s.entries[i := Entry(id, a)]);
            && Valid(r) && Ids(r) == Ids(s)
            && (forall e :: e in r.entries ==> e in s.entries || e == Entry(id, a))
            && GetArticle(r, id) == Some(a)
            && (forall k :: k != id ==> GetArticle(r, k) == GetArticle(s, k))
            && (forall j :: 0 <= j < |s.entries| && s.entries[j].id != id ==> r.entries[j] == s.entries[j])
  {
    var r := Store(s.entries[i := Entry(id, a)]);
    assert r.entries[i] == Entry(id, a);
    assert Ids(r) == Ids(s);
    forall e: Entry | e.id != id
      ensures e in r.entries <==> e in s.entries
    {
      if e in s.entries {
        var j :| 0 <= j < |s.entries| && s.entries[j] == e;
        assert r.entries[j] == e;
      }
    }
    PutLookups(s, r, id, a);
  }

  /** Appending the entry of a new key. */
  lemma PutAppended(s: Store, id: string, a: Article)
    requires Valid(s) && a.id == id && id !in Ids(s)
    ensures var r := Store(s.entries + [Entry(id, a)]);
            && Valid(r) && Ids(r) == Ids(s) + [id] && Values(r) == Values(s) + [a]
            && (forall e :: e in r.entries ==> e in s.entries || e == Entry(id, a))
            && GetArticle(r, id) == Some(a)
            && (forall k :: k != id ==> GetArticle(r, k) == GetArticle(s, k))
            && (forall j :: 0 <= j < |s.entries| ==> r.entries[j] == s.entries[j])
  {
    Absent(s, id);
    var r := Store(s.entries + [Entry(id, a)]);
    assert forall j :: 0 <= j < |s.entries| ==> s.entries[j] in s.entries;
    assert r.entries[|s.entries|] == Entry(id, a);
    assert Ids(r) == Ids(s) + [id];
    assert Values(r) == Values(s) + [a];
    forall e: Entry | e.id != id
      ensures e in r.entries <==> e in s.entries
    {
      if e in s.entries {
        var j :| 0 <= j < |s.entries| && s.entries[j] == e;
        assert r.entries[j] == e;
      }
    }
    PutLookups(s, r, id, a);
  }

  /** Lookups in a store that differs from `s` only in the record under `id`. */
  lemma PutLookups(s: Store, r: Store, id: string, a: Article)
    requires Valid(s) && Valid(r) && a.id == id
    requires Entry(id, a) in r.entries
    requires forall e: Entry :: e.id != id ==> (e in r.entries <==> e in s.entries)
    ensures GetArticle(r, id) == Some(a)
    ensures forall k :: k != id ==> GetArticle(r, k) == GetArticle(s, k)
  {
    LookupStored(r, Entry(id, a));
    forall k | k != id
      ensures GetArticle(r, k) == GetArticle(s, k)
    {
      match GetArticle(s, k)
      case Some(v) =>
        LookupStored(r, Entry(k, v));
      case None =>
        Absent(s, k);
        Absent(r, k);
    }
  }

  /** In a valid store a stored entry is what lookup finds under its key. */
  lemma LookupStored(s: Store, e: Entry)
    requires Valid(s) && e in s.entries
    ensures GetArticle(s, e.id) == Some(e.article)
  {
    var i :| 0 <= i < |s.entries| && s.entries[i] == e;
    KeyPosition(s, i);
  }

  /** A key is absent exactly when no entry carries it. */
  lemma Absent(s: Store, k: string)
    ensures k !in Ids(s) <==> forall e :: e in s.entries ==> e.id != k
  {
    if k !in Ids(s) {
      forall e | e in s.entries
        ensures e.id != k
      {
        var j :| 0 <= j < |s.entries| && s.entries[j] == e;
        assert Ids(s)[j] == e.id;
      }
    } else {
      var j :| 0 <= j < |Ids(s)| && Ids(s)[j] == k;
      assert s.entries[j] in s.entries;
    }
  }

  /** The fields an article takes over from a creation payload. */
  predicate CopiedFrom(input: InsertArticle, a: Article) {
    && a.title == input.title && a.slug == input.slug && a.content == input.content
    && a.excerpt == input.excerpt && a.author == input.author && a.category == input.category
    && a.featuredImage == input.featuredImage && a.published == input.published
  }

  /**
   `createArticle(input)` with `randomUUID()` returning `id` and the clock reading `now`.
   The publication time is the supplied one when publishing with one, `now` when
   publishing without one, and absent when not publishing, whatever was supplied.
   */
  function CreateArticle(s: Store, id: string, now: Timestamp, input: InsertArticle): (r: (Store, Article))
    requires Valid(s)
    ensures Valid(r.0)
    ensures r.1.id == id && r.1.createdAt == now && r.1.updatedAt == now
    ensures CopiedFrom(input, r.1)
    ensures input.published && input.publishedAt.Some? ==> r.1.publishedAt == input.publishedAt
    ensures input.published && input.publishedAt.None? ==> r.1.publishedAt == Some(now)
    ensures !input.published ==> r.1.publishedAt == None
    ensures GetArticle(r.0, id) == Some(r.1)
    ensures forall k :: k != id ==> GetArticle(r.0, k) == GetArticle(s, k)
    ensures id !in Ids(s) ==> Ids(r.0) == Ids(s) + [id] && Values(r.0) == Values(s) + [r.1]
    ensures AllPublishConsistent(s) ==> AllPublishConsistent(r.0)
  {
    var a := Article(
      id := id,
      title := input.title,
      slug := input.slug,
      content := input.content,
      excerpt := input.excerpt,
      author := input.author,
      category := input.category,
      featuredImage := input.featuredImage,
      published := input.published,
      publishedAt := if input.published && input.publishedAt.Some? then input.publishedAt
                     else if input.published then Some(now)
                     else None,
      createdAt := now,
      updatedAt := now);
    (Put(s, id, a), a)
  }

  /** The fields of `u` are those of `prev` overwritten by the fields supplied in `p`. */
  predicate Patched(p: ArticlePatch, prev: Article, u: Article) {
    && u.title == Merge(p.title, prev.title)
    && u.slug == Merge(p.slug, prev.slug)
    && u.content == Merge(p.content, prev.content)
    && u.excerpt == Merge(p.excerpt, prev.excerpt)
    && u.author == Merge(p.author, prev.author)
    && u.category == Merge(p.category, prev.category)
    && u.featuredImage == Merge(p.featuredImage, prev.featuredImage)
    && u.published == Merge(p.published, prev.published)
  }

  /**
   `updateArticle(id, updates)`. The clock is read twice: `now` for the update
   time and `publishNow` for the publication time of an article published
   without one. An unknown id changes
   nothing. A known id keeps its position, its id and its `createdAt`; supplied
   fields overwrite; `publishedAt` is recomputed only when `published` is supplied
   (a supplied `publishedAt` alone is ignored).
   */
  function UpdateArticle(s: Store, id: string, now: Timestamp, publishNow: Timestamp, p: ArticlePatch): (r: (Store, Option<Article>))
    requires Valid(s)
    ensures Valid(r.0)
    ensures id !in Ids(s) ==> r.0 == s && r.1 == None
    ensures id in Ids(s) ==> r.1.Some?
    ensures r.1.Some? ==>
      var prev, u := GetArticle(s, id).value, r.1.value;
      && u.id == id && u.createdAt == prev.createdAt && u.updatedAt == now
      && Patched(p, prev, u)
      && (p.published.Omitted? ==> u.publishedAt == prev.publishedAt)
      && (p.published == Supplied(true) ==>
            u.publishedAt == if p.publishedAt.Supplied? && p.publishedAt.value.Some? then p.publishedAt.value else Some(publishNow))
      && (p.published == Supplied(false) ==> u.publishedAt == None)
    ensures r.1.Some? ==> GetArticle(r.0, id) == r.1 && Ids(r.0) == Ids(s)
    ensures forall k :: k != id ==> GetArticle(r.0, k) == GetArticle(s, k)
    ensures AllPublishConsistent(s) ==> AllPublishConsistent(r.0)
  {
    match GetArticle(s, id)
    case None => (s, None)
    case Some(prev) =>
      LookupStoredId(s, id, prev);
      var u := prev.(
        title := Merge(p.title, prev.title),
        slug := Merge(p.slug, prev.slug),
        content := Merge(p.content, prev.content),
        excerpt := Merge(p.excerpt, prev.excerpt),
        author := Merge(p.author, prev.author),
        category := Merge(p.category, prev.category),
        featuredImage := Merge(p.featuredImage, prev.featuredImage),
        published := Merge(p.published, prev.published),
        updatedAt := now,
        publishedAt := match p.published
          case Omitted => prev.publishedAt
          case Supplied(true) =>
            if p.publishedAt.Supplied? && p.publishedAt.value.Some? then p.publishedAt.value else Some(publishNow)
          case Supplied(false) => None);
      (Put(s, id, u), Some(u))
  }

  /** A record found under `id` in a valid store is stored under its own id. */
  lemma LookupStoredId(s: Store, id: string, a: Article)
    requires Valid(s) && GetArticle(s, id) == Some(a)
    ensures a.id == id
    ensures AllPublishConsistent(s) ==> PublishConsistent(a)
  {
    var i :| 0 <= i < |s.entries| && s.entries[i] == Entry(id, a);
  }

  /** `deleteArticle(id)`: cut the entry out, reporting whether there was one. */
  function DeleteArticle(s: Store, id: string): (r: (Store, bool))
    requires Valid(s)
    ensures Valid(r.0)
    ensures r.1 <==> id in Ids(s)
    ensures GetArticle(r.0, id) == None
    ensures forall k :: k != id ==> GetArticle(r.0, k) == GetArticle(s, k)
    ensures !r.1 ==> r.0 == s
    ensures r.1 ==> exists i :: 0 <= i < |s.entries| && s.entries[i].id == id
                                && r.0.entries == s.entries[..i] + s.entries[i + 1..]
    ensures AllPublishConsistent(s) ==> AllPublishConsistent(r.0)
  {
    match FirstIndex(Ids(s), id)
    case None => (s, false)
    case Some(i) =>
      var r := Store(s.entries[..i] + s.entries[i + 1..]);
      assert Ids(s)[i] == id;
      RemoveAt(s, i);
      DeleteLookups(s, r, id);
      (r, true)
  }

  /** Cutting out the entry at `i` keeps a valid store and exactly the entries with another key. */
  lemma RemoveAt(s: Store, i: nat)
    requires Valid(s) && i < |s.entries|
    ensures Valid(Store(s.entries[..i] + s.entries[i + 1..]))
    ensures forall e: Entry :: e in s.entries[..i] + s.entries[i + 1..] <==> e in s.entries && e.id != s.entries[i].id
  {
    RemoveAtShift(s.entries, i);
    RemoveAtKept(s.entries, i);
    RemoveAtOnly(s.entries, i);
  }

  /** Every entry left after cutting out position `i` is an original entry with another key. */
  lemma RemoveAtOnly(e: seq<Entry>, i: nat)
    requires Valid(Store(e)) && i < |e|
    ensures forall x: Entry :: x in e[..i] + e[i + 1..] ==> x in e && x.id != e[i].id
  {
    var e' := e[..i] + e[i + 1..];
    RemoveAtShift(e, i);
    forall x: Entry | x in e'
      ensures x in e && x.id != e[i].id
    {
      var j :| 0 <= j < |e'| && e'[j] == x;
      assert e[Skip(i, j)] == x;
    }
  }

  /** Every original entry with another key than the one at position `i` survives cutting it out. */
  lemma RemoveAtKept(e: seq<Entry>, i: nat)
    requires i < |e|
    ensures forall x: Entry :: x in e && x.id != e[i].id ==> x in e[..i] + e[i + 1..]
  {
    var e' := e[..i] + e[i + 1..];
    forall x: Entry | x in e && x.id != e[i].id
      ensures x in e'
    {
      var j :| 0 <= j < |e| && e[j] == x;
      if j < i {
        assert e'[j] == x;
      } else {
        assert e'[j - 1] == x;
      }
    }
  }

  /** The position in the original sequence of position `j` after cutting out position `i`. */
  function Skip(i: nat, j: nat): (r: nat)
    ensures r != i
    ensures r == j || r == j + 1
  {
    if j < i then j else j + 1
  }

  /** Each remaining entry is the original entry at the skipped-over position, so order and validity carry over. */
  lemma RemoveAtShift(e: seq<Entry>, i: nat)
    requires i < |e|
    ensures |e[..i] + e[i + 1..]| == |e| - 1
    ensures forall j :: 0 <= j < |e| - 1 ==> (e[..i] + e[i + 1..])[j] == e[Skip(i, j)]
    ensures Valid(Store(e)) ==> Valid(Store(e[..i] + e[i + 1..]))
  {
    var e' := e[..i] + e[i + 1..];
    forall j | 0 <= j < |e| - 1
      ensures e'[j] == e[Skip(i, j)]
    {
    }
  }

  /** Lookups in a store holding exactly the entries of `s` with another key than `id`. */
  lemma DeleteLookups(s: Store, r: Store, id: string)
    requires Valid(s) && Valid(r)
    requires forall e: Entry :: e in r.entries <==> e in s.entries && e.id != id
    ensures GetArticle(r, id) == None
    ensures forall k :: k != id ==> GetArticle(r, k) == GetArticle(s, k)
  {
    forall k | k != id
      ensures GetArticle(r, k) == GetArticle(s, k)
    {
      match GetArticle(s, k)
      case Some(v) =>
        LookupStored(r, Entry(k, v));
      case None =>
        Absent(s, k);
        Absent(r, k);
    }
  }
}
