# Article store, slug generator and feeds of a news site, in Dafny

The news site keeps its articles in an in-memory store: `MemStorage`, a
JavaScript `Map` from ids to records. It serves them over a small REST API.
It derives an RSS feed and a sitemap from the published ones. Its admin page
builds the payload it posts from a form, and it generates a URL slug from
the title.

This project models that core as pure functions over immutable data, and proves
what the code promises:

- `Schema`: the record (`Article`), the creation payload (`InsertArticle`) and
  the partial update (`ArticlePatch`). The partial update records for every
  field whether it was supplied (`Field.Omitted` / `Field.Supplied`).
- `StableSort`: `Array.prototype.sort` with a newest-first comparator, as a
  stable insertion sort keyed by creation time or by publication time (a
  missing one counts as 0). Stability is stated through runs: the elements with
  one key keep their relative order. Sortedness plus stability pin the result
  down uniquely.
- `Storage`: the `Map` as an insertion-ordered sequence of `(id, record)`
  entries. `Map.set` replaces in place or appends, and `Map.delete` cuts an
  entry out. It has the seven store operations. `randomUUID()` is the
  parameter `id`. Each reading of `new Date()` is a parameter of its own:
  creation reads the clock once (`now`), an update twice (`now`, then
  `publishNow`), and deletion not at all.
- `StorageProperties`: facts relating several operations. The main one is
  that every sequence of writes from the empty store keeps ids distinct and
  keeps records publish-consistent: `published` holds exactly when
  `publishedAt` is set.
- `Slug`: `toLowerCase().replace(/[^a-z0-9]+/g, "-").replace(/(^-|-$)/g, "")`.
  It is proved equal to a reference definition, "the words joined by single
  dashes". It is also proved idempotent, and its fixed points are exactly the
  well-formed slugs.
- `Admin`: the admin form, the payload `handleSubmit` sends, and the "generate
  slug" button.
- `Routes`: the status code and body each `/api/articles*` handler answers with.
- `Feeds`: the sitemap entries and the RSS items and channel date, before XML
  serialisation.

## Model

| member | source | states |
|---|---|---|
| Storage.Empty | server/storage.ts:17-19 | the constructor's empty map holds no id and is valid and publish-consistent |
| Storage.GetArticle | server/storage.ts:21-23 | a record is found exactly when its id is a key of the map, and the found record is the one stored under that key |
| Storage.GetArticleBySlug | server/storage.ts:25-29 | nothing is found exactly when no record carries the slug; otherwise the result carries the slug and is the earliest-inserted record that does |
| StorageProperties.SlugLookupUnique | server/storage.ts:25-29 | when exactly one record carries a slug, lookup by slug returns that record |
| StorageProperties.SlugLookupEarliest | server/storage.ts:25-29 | with duplicate slugs the record inserted first wins |
| Storage.GetAllArticles | server/storage.ts:31-35 | the listing is a permutation of the stored records, newest creation time first, and records with equal creation times keep their insertion order |
| StorageProperties.DistinctCreationTimesStrict | server/storage.ts:31-35 | when creation times are pairwise distinct, the listing is strictly newest-first |
| Storage.PublishedOnly | server/storage.ts:38-39 | the filter keeps exactly the published records, each as many times as it is stored |
| Storage.PublishedOnlyConcat | server/storage.ts:38-39 | the filter keeps input order: filtering a concatenation concatenates the filtered parts, so with the one-element case the output is the published records in their stored order |
| Storage.GetPublishedArticles | server/storage.ts:37-45 | the listing holds exactly the published records, newest publication time first (a missing one counts as 0), and equal times keep insertion order |
| StorageProperties.PublishedListingMembers | server/storage.ts:37-45 | a record is listed as published exactly when it is stored and published |
| StorageProperties.PublishedListingHasDates | server/storage.ts:37-45 | in a publish-consistent store every published record listed has its own publication time, so the default of 0 never applies |
| StorageProperties.StoredConsistent | server/storage.ts:37-45 | every record stored in a publish-consistent store is itself publish-consistent |
| StableSort.Sort | server/storage.ts:32-34 | the sort returns a permutation of its input, ordered by non-increasing key |
| StableSort.SortRuns | server/storage.ts:32-34 | the sort is stable: for each key, the records with that key appear in their input order |
| StableSort.SortUnique | server/storage.ts:32-34 | any ordering that is sorted and keeps every key's records in input order equals the result of the sort |
| StableSort.DistinctKeysStrict | server/storage.ts:40-44 | in a stable sort of records with pairwise distinct keys, the keys strictly decrease |
| Storage.Put | server/storage.ts:61 | `Map.set` keeps the store valid; an existing key keeps its position and a new key goes last; lookup of the key gives the new record and lookups of other keys are unchanged |
| Storage.PutInPlace | server/storage.ts:61 | `Map.set` on a stored key keeps the key order, changes only that key's entry, and keeps every other entry at its position |
| Storage.PutAppended | server/storage.ts:61 | `Map.set` on a new key appends the entry last and keeps every earlier entry at its position |
| Storage.CreateArticle | server/storage.ts:47-62 | the new record gets the given id and the current time as creation and update time, and copies every payload field; its publication time is the supplied one, `now` when publishing without one, or absent when not publishing; a fresh id is appended; other ids are untouched; publish consistency is preserved |
| Storage.UpdateArticle | server/storage.ts:65-81 | an unknown id changes nothing and yields nothing; a known id keeps its id and creation time, and takes exactly the supplied fields; the clock is read twice, the first reading (`now`, line 72) becoming the update time and the second (`publishNow`, line 75) the fallback publication time; the publication time is kept when `published` is not supplied, and becomes the supplied time (or `publishNow`) on publishing or absent on unpublishing; other ids are untouched; publish consistency is preserved |
| Storage.DeleteArticle | server/storage.ts:83-85 | deletion reports true exactly when the id was stored; afterwards the id is gone, other ids are untouched, and the entry is cut out of the order; an unknown id leaves the store as it was |
| StorageProperties.CreateThenUnpublish | server/storage.ts:55-59 | creating a published article with no publication time stamps it with the creation time; unpublishing it then clears the time, keeps the creation time and sets the update time |
| StorageProperties.WritesAreLocal | server/storage.ts:61 | no create, update or delete changes what is stored under any other id |
| StorageProperties.DeleteSize | server/storage.ts:83-85 | deleting a stored id removes exactly one record; deleting an unknown one removes none |
| StorageProperties.Apply | server/storage.ts:47-85 | every write keeps ids distinct and matching their records, and keeps publish consistency |
| StorageProperties.Replay | server/storage.ts:14-19 | any store reached from the empty one by a sequence of writes is valid and publish-consistent |
| StorageProperties.ReachableListingHasDates | server/storage.ts:37-45 | in every reachable store each record in the published listing is published and has a publication time |
| Slug.Collapse | client/src/pages/admin.tsx:155 | replacing every run of characters other than letters and digits by one dash leaves letters, digits and isolated dashes, and keeps the letters and digits in order |
| Slug.Slugify | client/src/pages/admin.tsx:155 | a generated slug consists of letters, digits and single inner dashes; its letters and digits are those of the lower-cased title; it is empty exactly when the title has no ASCII letter or digit |
| Slug.SlugifyJoinsWords | client/src/pages/admin.tsx:178 | the generated slug equals the lower-cased title's words joined by single dashes |
| Slug.SlugFixedPoints | client/src/pages/admin.tsx:178 | generation leaves a string unchanged exactly when it is already a well-formed slug |
| Slug.SlugifyIdempotent | client/src/pages/admin.tsx:178 | generating a slug from a generated slug gives it back |
| Admin.SubmittedSlug | client/src/pages/admin.tsx:155 | a typed slug is sent as typed; an empty one is replaced by the slug generated from the title, which equals the lower-cased title's words joined by single dashes and is a well-formed slug of its letters and digits |
| Admin.Payload | client/src/pages/admin.tsx:152-167 | the payload copies the text fields, replaces an empty category by "World" and an empty image by null, and carries a publication time, equal to the submit time, exactly when it is published |
| Admin.BlankSubmit | client/src/pages/admin.tsx:123-167 | submitting the reset form sends empty text fields and an empty slug, the category "World", no image, unpublished and without a publication time |
| Admin.SubmitEditOverwrites | client/src/pages/admin.tsx:169-170 | saving an edit of a stored record replaces every field by the payload's, keeps the id and creation time, and leaves the record publish-consistent, with the payload's publication time when published (else none) |
| Admin.GenerateSlug | client/src/pages/admin.tsx:176-181 | with a title, only the slug field changes, to the title's generated slug; without one the form is left alone |
| Admin.GenerateThenSubmit | client/src/pages/admin.tsx:155-181 | pressing "generate slug" before submitting never changes the slug a submit with an empty slug field sends |
| Admin.EditRoundTrip | client/src/pages/admin.tsx:137-167 | opening a record in the editor and submitting it unchanged sends back its own title, text fields and publication flag; an empty slug comes back regenerated from the title, an empty category as "World", an empty image as null; the publication time is the submit time when published and absent otherwise |
| Admin.EditRepublishes | client/src/pages/admin.tsx:152-170 | saving an edit of a published article moves its publication time to the browser's submit time, whatever the server's clock reads, while its creation time stays |
| Routes.ListArticles | server/routes.ts:10-17 | the full listing answers 200 with a permutation of the stored records, newest creation time first, ties in insertion order |
| Routes.ListPublished | server/routes.ts:19-26 | the published listing answers 200 with exactly the stored published records, newest publication time first, ties in insertion order |
| Routes.GetBySlug | server/routes.ts:28-38 | 200 with the earliest-inserted record carrying the slug exactly when one exists, else 404 "Article not found" |
| Routes.GetById | server/routes.ts:40-50 | 200 with the record stored under the id exactly when the id is stored, else 404 "Article not found" |
| Routes.Post | server/routes.ts:52-64 | a body failing validation answers 400 with the validation message and leaves the store alone; a valid one answers 201 with the record now stored under the new id, carrying every payload field, created and updated at the request time, and with the publication time `createArticle` sets (the supplied one, the request time, or none); a fresh id is appended last; other ids are untouched; publish consistency is preserved |
| Routes.Patch | server/routes.ts:66-82 | an invalid body answers 400 and changes nothing; an unknown id answers 404 and changes nothing; otherwise 200 with the record now stored in the same key order: exactly the supplied fields changed, id and creation time kept, stamped with the update time, and the publication time kept, set (the supplied time or the second clock reading) or cleared as `published` is omitted, true or false; other ids are untouched; publish consistency is preserved |
| Routes.Delete | server/routes.ts:84-94 | 204 with no body exactly when the id was stored, else 404 with the store unchanged; afterwards the id is gone, other ids are untouched, and on 204 the store is the old entry sequence with exactly that entry cut out, so the surviving entries keep their insertion order |
| Routes.DeleteAgreesWithGet | server/routes.ts:40-50 | DELETE answers 204 exactly when GET by id answers 200, and after it both answer 404 |
| Routes.PatchAgreesWithGet | server/routes.ts:66-82 | a valid PATCH answers 404 exactly when GET by id does |
| Routes.PostThenGet | server/routes.ts:52-56 | after a valid POST, GET by the new id answers 200 with the record the POST returned |
| Routes.PostThenGetBySlug | server/routes.ts:28-34 | after a valid POST whose slug no stored record carries, GET by that slug answers with the new record |
| Feeds.DisplayDate | server/routes.ts:119-121 | an item's date is its publication time or its creation time; for a publish-consistent record it is the publication time exactly when published |
| Feeds.BeforeT | server/routes.ts:185 | `split('T')[0]` is the longest prefix without a 'T': it ends at the first 'T' or at the end |
| Feeds.Sitemap | server/routes.ts:166-195 | the sitemap has the home page (daily, 1.0), then the admin page (weekly, 0.5), then one entry per article in listing order: its page, the date part of its display date, monthly, 0.8; no priority exceeds 1.0 |
| Feeds.ArticleUrls | server/routes.ts:181-193 | one entry per article, in the given order, each the article's entry |
| Feeds.SitemapFor | server/routes.ts:161-195 | GET /sitemap.xml lists the home and admin pages, then per published record in listing order its page and the date part of its display date |
| Feeds.SitemapHasEveryPublished | server/routes.ts:181-193 | every published record of the listing's pool has an article entry |
| Feeds.SitemapHasOnlyPublished | server/routes.ts:181-193 | every article entry belongs to a published record of the pool |
| Feeds.SitemapCoversPublished | server/routes.ts:161-195 | the sitemap's article entries are exactly those of the stored published records |
| Feeds.SitemapDatesArePublicationDates | server/routes.ts:182-185 | in a publish-consistent store every entry's `lastmod` is the date part of the article's own publication time |
| Feeds.Item | server/routes.ts:118-150 | an RSS item links to the article page, is dated with its display date, carries the sanitised content, and has an image exactly when the record has a non-empty one |
| Feeds.Items | server/routes.ts:118-151 | the feed has one item per listed article, in listing order |
| Feeds.FeedItems | server/routes.ts:118-151 | GET /rss.xml has one item per published record in listing order, linking to its page and dated with its display date |
| Feeds.DatedItemsNewestFirst | server/routes.ts:118-151 | the items of a listing sorted newest published first whose records all have publication times carry those times, newest first |
| Feeds.FeedNewestFirst | server/routes.ts:118-151 | in a publish-consistent store the items are dated with their publication times, newest first |
| Feeds.FeedUpdated | server/routes.ts:110-112 | the channel date is the first listed article's publication time when it has one, else the current time |
| Feeds.FeedUpdatedIsNewest | server/routes.ts:98-112 | in a publish-consistent store the channel date is the newest publication time of any stored article, and the current time when none is published |

## Left out

- Error branches answering 500: the in-memory store never throws, so they cannot be reached. The RSS and sitemap error paths are left out for the same reason.
- Express wiring is not modelled: route registration order, `req.params`, the `siteUrl` built from the request's protocol and host (a parameter here), content types, and JSON serialisation of dates.
- The zod schema in `shared/schema` is not part of this model. Validation is an input (`Routes.Parsed`): the validated payload, or the message `fromZodError` produced. The category is a plain string, not the schema's enumeration.
- Schema: the creation payload carries no `id`, `createdAt` or `updatedAt`, following the insert schema the store's types imply.
- `randomUUID()` is the parameter `id` of `Storage.CreateArticle`. A collision would replace the existing entry in place, as `Map.set` does; freshness appears only as a hypothesis where a property needs it.
- Clocks (`new Date()`, `getFullYear`) are parameters, one per reading: `updateArticle` reads the clock twice, so it takes `now` and `publishNow`, while `createArticle` reads it once. `Date.prototype.toISOString` is the parameter `toIso`; `split('T')[0]` on its result is modelled exactly. Invalid dates (NaN times) are not modelled.
- `sanitize-html` with its tag and attribute options is the parameter `sanitize` of `Feeds.Item`.
- RSS 2.0 and sitemap XML serialisation are left out. The `feed` package's output, the channel constants (title, description, language, favicon, copyright) and XML escaping of slugs are not modelled. No well-formedness of the documents is claimed.
- Slug.Slugify: `toLowerCase` is modelled for ASCII letters only. Non-ASCII letters become separators either way, except the few whose lower case is ASCII: 'İ' (U+0130) gives "i" plus a combining dot, and the Kelvin sign gives 'k'. For those the model generates a different slug.
- The React page is not modelled: rendering, tabs, toasts, query-cache invalidation, the delete confirmation dialog and the rich-text editor. Only the form state and the payload are modelled, and the request each mutation sends.
- Concurrency: requests are modelled one at a time, in the order the process serves them.
- The module-level singleton `storage` is not modelled; the store is a value passed in and returned.

## Notes on the model

- The slug-generation chain `formData.title?.toLowerCase()` is modelled with a
  defined title. The form always holds a string there.
- Editing a published article through the admin page resets its publication
  time to the moment of submitting (`Admin.EditRepublishes`). The page sends
  `publishedAt: new Date()` whenever the switch is on, and the store takes a
  supplied time when `published` is supplied as true. The model keeps this
  behaviour, because it follows from the code as written. It is recorded
  rather than corrected, because the code gives no sign that the authors
  intended otherwise.
