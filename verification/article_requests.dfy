/**
 * The request bodies of the article endpoints: the add request with its
 * declarative field constraints and its conversion into an entity, and the
 * update request, which carries a new title and content as given.
 */
module ArticleRequests {
  import opened JavaText
  import opened Domain

  /** Bounds of the `@Size` constraint on an add request's title. */
  const TitleMinLength: nat := 1
  const TitleMaxLength: nat := 10

  datatype AddArticleRequest = AddArticleRequest(title: Nullable<JString>, content: Nullable<JString>)

  /** The update request's class is not part of this model: no constraint is attached to it here. */
  datatype UpdateArticleRequest = UpdateArticleRequest(title: Nullable<JString>, content: Nullable<JString>)

  /** A broken field constraint of an add request. */
  datatype Violation =
    | TitleNull    // `@NotNull` on title
    | TitleSize    // `@Size(min = 1, max = 10)` on title
    | ContentNull  // `@NotNull` on content

  /**
   * Bean Validation of an add request. As that standard prescribes, `@Size`
   * treats a null value as valid, so a null title breaks `@NotNull` alone.
   */
  function Violations(req: AddArticleRequest): (vs: set<Violation>)
    ensures TitleNull in vs <==> req.title == Null
    ensures TitleSize in vs <==> exists t :: req.title == NonNull(t) && (|t| < 1 || 10 < |t|)
    ensures ContentNull in vs <==> req.content == Null
  {
    var titleViolations :=
      match req.title
      case Null => {TitleNull}
      case NonNull(t) => if TitleMinLength <= |t| <= TitleMaxLength then {} else {TitleSize};
    var contentViolations :=
      match req.content
      case Null => {ContentNull}
      case NonNull(_) => {};
    titleViolations + contentViolations
  }

  /** A request passes validation when it breaks no constraint. */
  predicate IsValid(req: AddArticleRequest)
  {
    Violations(req) == {}
  }

  /**
   * Validity in plain terms: a non-null title of 1 to 10 code units and a
   * non-null content of any length.
   */
  lemma ValidIff(req: AddArticleRequest)
    ensures IsValid(req) <==>
      && req.title.NonNull? && 1 <= |req.title.value| <= 10
      && req.content.NonNull?
  {
  }

  /** A null title is rejected whatever the content. */
  lemma NullTitleIsInvalid(content: Nullable<JString>)
    ensures !IsValid(AddArticleRequest(Null, content))
    ensures TitleSize !in Violations(AddArticleRequest(Null, content))
  {
  }

  /** A title longer than ten code units is rejected whatever the content. */
  lemma LongTitleIsInvalid(title: JString, content: Nullable<JString>)
    requires |title| > 10
    ensures !IsValid(AddArticleRequest(NonNull(title), content))
  {
  }

  /** The add test's request, title "title" and content "content", is valid. */
  lemma TitleContentExampleIsValid()
    ensures IsValid(AddArticleRequest(NonNull(FromBmp("title")), NonNull(FromBmp("content"))))
  {
  }

  /** Content carries no length constraint: an empty content is valid beside a valid title. */
  lemma EmptyContentIsValid(title: JString)
    requires 1 <= |title| <= 10
    ensures IsValid(AddArticleRequest(NonNull(title), NonNull([])))
  {
  }

  /**
   * The entity an add request becomes: title and content exactly as sent,
   * whether or not they were validated, and the given author.
   */
  function ToEntity(req: AddArticleRequest, author: JString): (d: ArticleDraft)
    ensures d.title == req.title && d.content == req.content
    ensures d.author == author
  {
    ArticleDraft(req.title, req.content, author)
  }

  /** Nothing of the request or the author is lost: distinct inputs give distinct entities. */
  lemma ToEntityIsInjective(r1: AddArticleRequest, a1: JString, r2: AddArticleRequest, a2: JString)
    ensures ToEntity(r1, a1) == ToEntity(r2, a2) <==> r1 == r2 && a1 == a2
  {
  }
}
