/**
 The non-visual logic of the admin page: the form state it edits, the payload
 `handleSubmit` builds from it, and the "generate slug" button. The clock is the
 parameter `now`. JavaScript's `a || b` on strings picks `b` exactly when `a`
 is the empty string.
 */
module Admin {
  import opened Schema
  import Slug
  import Storage

  /** The form fields, as strings and a switch. */
  datatype Form = Form(
    title: string,
    slug: string,
    content: string,
    excerpt: string,
    author: string,
    category: string,
    featuredImage: string,
    published: bool)

  const DefaultCategory: string := "World"

  /** The form after `resetForm` and on first render. */
  function BlankForm(): Form {
    Form("", "", "", "", "", DefaultCategory, "", false)
  }

  /** `handleEdit`: the form filled from a stored article; a missing image becomes "". */
  function EditForm(a: Article): Form {
    Form(a.title, a.slug, a.content, a.excerpt, a.author, a.category,
         if a.featuredImage.Some? then a.featuredImage.value else "", a.published)
  }

  /** `formData.slug || <slug generated from the title>`. */
  function SubmittedSlug(f: Form): (r: string)
    ensures f.slug != "" ==> r == f.slug
    ensures f.slug == "" ==> Slug.IsSlug(r) && Slug.Dashless(r) == Slug.Alnums(Slug.Lower(f.title))
    ensures f.slug == "" ==> r == Slug.JoinWords(Slug.Lower(f.title), false, false)
  {
    if f.slug != "" then f.slug
    else
      Slug.SlugifyJoinsWords(f.title);
      Slug.Slugify(f.title)
  }

  /**
   `handleSubmit`: the payload sent to the server. A typed slug is sent as typed;
   an empty one is generated from the title. An empty image becomes null, an
   empty category becomes "World", and the publication time is `now` exactly
   when the article is published.
   */
  function Payload(f: Form, now: Timestamp): (r: InsertArticle)
    ensures r.slug == SubmittedSlug(f)
    ensures r.title == f.title && r.content == f.content && r.excerpt == f.excerpt && r.author == f.author
    ensures r.category == (if f.category == "" then DefaultCategory else f.category)
    ensures r.featuredImage.None? <==> f.featuredImage == ""
    ensures r.featuredImage.Some? ==> r.featuredImage.value == f.featuredImage
    ensures r.published == f.published
    ensures r.publishedAt.Some? <==> r.published
    ensures r.publishedAt.Some? ==> r.publishedAt.value == now
  {
    InsertArticle(
      title := f.title,
      slug := SubmittedSlug(f),
      content := f.content,
      excerpt := f.excerpt,
      author := f.author,
      category := if f.category != "" then f.category else DefaultCategory,
      featuredImage := if f.featuredImage != "" then Some(f.featuredImage) else None,
      published := f.published,
      publishedAt := if f.published then Some(now) else None)
  }

  /** The PATCH body of an edit: the whole payload, every field supplied. */
  function AsPatch(p: InsertArticle): ArticlePatch {
    ArticlePatch(Supplied(p.title), Supplied(p.slug), Supplied(p.content), Supplied(p.excerpt),
                 Supplied(p.author), Supplied(p.category), Supplied(p.featuredImage),
                 Supplied(p.published), Supplied(p.publishedAt))
  }

  /** `generateSlug`: with a title, replace the slug by the one generated from it; otherwise do nothing. */
  function GenerateSlug(f: Form): (r: Form)
    ensures f.title == "" ==> r == f
    ensures f.title != "" ==> r.slug == Slug.Slugify(f.title) && r == f.(slug := r.slug)
  {
    if f.title != "" then f.(slug := Slug.Slugify(f.title)) else f
  }

  /** Pressing "generate slug" first never changes the slug a submit with an empty slug field would send. */
  lemma GenerateThenSubmit(f: Form, now: Timestamp)
    requires f.slug == ""
    ensures Payload(GenerateSlug(f), now).slug == Payload(f, now).slug
  {
    if f.title != "" {
      var g := GenerateSlug(f);
      if g.slug == "" {
        assert Slug.Slugify(g.title) == "";
      }
    }
  }

  /**
   Submitting the blank form sends an untitled, unpublished article in the
   default category, with an empty slug, no image and no publication time.
   */
  lemma BlankSubmit(now: Timestamp)
    ensures var p := Payload(BlankForm(), now);
            && p.title == "" && p.slug == "" && p.content == "" && p.excerpt == "" && p.author == ""
            && p.category == DefaultCategory && p.featuredImage == None
            && !p.published && p.publishedAt == None
  {
  }

  /**
   Saving an edit overwrites every field of the stored record with the payload:
   the record afterwards carries the payload's fields, keeps its id and creation
   time, and is publish-consistent whatever it was before.
   */
  lemma SubmitEditOverwrites(s: Storage.Store, id: string, now: Timestamp, publishNow: Timestamp, p: InsertArticle)
    requires Storage.Valid(s) && id in Storage.Ids(s)
    ensures var (_, u) := Storage.UpdateArticle(s, id, now, publishNow, AsPatch(p));
            && u.Some?
            && Storage.CopiedFrom(p, u.value)
            && u.value.id == id
            && u.value.createdAt == Storage.GetArticle(s, id).value.createdAt
            && u.value.publishedAt == (if !p.published then None
                                       else if p.publishedAt.Some? then p.publishedAt
                                       else Some(publishNow))
            && PublishConsistent(u.value)
  {
  }

  /**
   Opening an article in the editor and submitting it unchanged sends its own
   fields back, except that an empty slug is regenerated from the title, an
   empty category becomes "World", an empty image becomes null, and a published
   article gets the submit time as its new publication time.
   */
  lemma EditRoundTrip(a: Article, now: Timestamp)
    ensures var p := Payload(EditForm(a), now);
            && p.title == a.title && p.content == a.content && p.excerpt == a.excerpt && p.author == a.author
            && p.slug == (if a.slug != "" then a.slug else Slug.Slugify(a.title))
            && p.category == (if a.category != "" then a.category else DefaultCategory)
            && p.featuredImage == (if a.featuredImage == Some("") then None else a.featuredImage)
            && p.published == a.published
            && p.publishedAt == (if a.published then Some(now) else None)
  {
  }

  /**
   Saving an edit of a published article moves its publication time to the
   moment the editor pressed submit, while its creation time stays.
   */
  lemma EditRepublishes(s: Storage.Store, a: Article, clientNow: Timestamp, serverNow: Timestamp, publishNow: Timestamp)
    requires Storage.Valid(s) && Storage.GetArticle(s, a.id) == Some(a) && a.published
    ensures var (_, u) := Storage.UpdateArticle(s, a.id, serverNow, publishNow, AsPatch(Payload(EditForm(a), clientNow)));
            && u.Some? && u.value.published
            && u.value.publishedAt == Some(clientNow)
            && u.value.createdAt == a.createdAt
  {
  }
}
