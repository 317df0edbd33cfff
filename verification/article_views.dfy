/**
 * The two read-side projections of an article: the detail view, carrying
 * every field, and the list (summary) view, carrying id, title and content.
 */
module ArticleViews {
  import opened JavaText
  import opened Domain

  datatype ArticleViewResponse = ArticleViewResponse(
    id: int,
    title: Nullable<JString>,
    content: Nullable<JString>,
    author: JString,
    createdAt: Timestamp)

  datatype ArticleListViewResponse = ArticleListViewResponse(
    id: int,
    title: Nullable<JString>,
    content: Nullable<JString>)

  /** The detail view of an article: each field copied unchanged. */
  function DetailView(a: Article): (v: ArticleViewResponse)
    ensures v.id == a.id
    ensures v.title == a.title && v.content == a.content
    ensures v.createdAt == a.createdAt
    ensures v.author == a.author
  {
    ArticleViewResponse(a.id, a.title, a.content, a.author, a.createdAt)
  }

  /** The summary view of an article: id, title and content copied unchanged. */
  function ListView(a: Article): (v: ArticleListViewResponse)
    ensures v.id == a.id
    ensures v.title == a.title
    ensures v.content == a.content
  {
    ArticleListViewResponse(a.id, a.title, a.content)
  }

  /** The detail view loses nothing: two articles have the same detail view exactly when they are equal. */
  lemma DetailViewIsLossless(a: Article, b: Article)
    ensures DetailView(a) == DetailView(b) <==> a == b
  {
  }

  /**
   * The summary view carries only id, title and content: two articles share
   * it exactly when they agree on those three fields, whatever their author
   * and creation time.
   */
  lemma ListViewKeepsOnlyIdTitleContent(a: Article, b: Article)
    ensures ListView(a) == ListView(b) <==> a.id == b.id && a.title == b.title && a.content == b.content
  {
  }

  /** On the fields both views carry, the summary and the detail view of an article agree. */
  lemma ListViewAgreesWithDetailView(a: Article)
    ensures ListView(a).id == DetailView(a).id
    ensures ListView(a).title == DetailView(a).title
    ensures ListView(a).content == DetailView(a).content
  {
  }
}
