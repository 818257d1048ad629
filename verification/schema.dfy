/**
 The record types shared by the server and the admin page: the stored Article,
 the creation payload (InsertArticle) and the partial-update payload.

 A `Date` is modelled as its millisecond timestamp (`getTime()`), a nullable or
 optional field as an `Option`, and a field of a partial update as a `Field`,
 which keeps "left out of the request" apart from "supplied as null".
 */
module Schema {

  datatype Option<+T> = None | Some(value: T)

  /** One field of a partial update: either absent from the request, or supplied with a value. */
  datatype Field<+T> = Omitted | Supplied(value: T)

  /** Milliseconds since the epoch, as returned by `Date.prototype.getTime`. */
  type Timestamp = int

  datatype Article = Article(
    id: string,
    title: string,
    slug: string,
    content: string,
    excerpt: string,
    author: string,
    category: string,
    featuredImage: Option<string>,
    published: bool,
    publishedAt: Option<Timestamp>,
    createdAt: Timestamp,
    updatedAt: Timestamp)

  /** The validated creation payload: an Article without its id and its server-side timestamps. */
  datatype InsertArticle = InsertArticle(
    title: string,
    slug: string,
    content: string,
    excerpt: string,
    author: string,
    category: string,
    featuredImage: Option<string>,
    published: bool,
    publishedAt: Option<Timestamp>)

  /** The validated partial-update payload: every field of InsertArticle, each optional. */
  datatype ArticlePatch = ArticlePatch(
    title: Field<string>,
    slug: Field<string>,
    content: Field<string>,
    excerpt: Field<string>,
    author: Field<string>,
    category: Field<string>,
    featuredImage: Field<Option<string>>,
    published: Field<bool>,
    publishedAt: Field<Option<Timestamp>>)

  /** The value a field ends up with after an object spread: the supplied value, or the old one. */
  function Merge<T>(f: Field<T>, prev: T): T {
    match f
    case Omitted => prev
    case Supplied(v) => v
  }

  /** The publish state is consistent: a record carries a publication time exactly when it is published. */
  predicate PublishConsistent(a: Article) {
    a.published <==> a.publishedAt.Some?
  }
}
