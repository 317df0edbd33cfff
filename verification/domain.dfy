/**
 * The Article entity. Its class is not part of this model; these are the
 * fields the service, the request and the view classes read and write.
 */
module Domain {
  import opened JavaText

  /**
   * The creation time the persistence layer's auditing stamps on an article.
   * The model never inspects it; it is carried, compared and copied only.
   */
  datatype Timestamp = Timestamp(ticks: int)

  /**
   * An article as the entity builder yields it, before the repository has
   * assigned its id and creation time.
   */
  datatype ArticleDraft = ArticleDraft(title: Nullable<JString>, content: Nullable<JString>, author: JString)

  /** A persisted article. Only `title` and `content` ever change after creation. */
  datatype Article = Article(
    id: int,
    title: Nullable<JString>,
    content: Nullable<JString>,
    author: JString,
    createdAt: Timestamp)
}
