/**
 * The blog service as a state machine over an article store. Every operation
 * is a pure function from a store and its inputs to a result (a value or a
 * service error) and the store afterwards. The identity of the requester,
 * which the service reads from the ambient security context, is an explicit
 * argument here.
 */
module BlogService {
  import opened JavaText
  import opened Domain
  import opened ArticleRequests

  /** The two failures the service raises (both as IllegalArgumentException, told apart by message). */
  datatype ServiceError =
    | NotFound(id: int)  // "not found : <id>", spelled "not found: <id>" by update
    | NotAuthorized      // "not authorized"

  datatype Result<+T> = Ok(value: T) | Err(error: ServiceError)

  /** What an operation yields: its result and the store after it. */
  datatype Step<+T> = Step(result: Result<T>, store: Store)

  /**
   * The article repository: articles by id, and the id the next saved
   * article receives. Ids are handed out in increasing order from `FirstId`
   * and never reused.
   */
  datatype Store = Store(articles: map<int, Article>, nextId: int)

  const FirstId: int := 1

  /** Every article is filed under its own id. */
  predicate KeyedById(m: map<int, Article>)
  {
    forall k :: k in m ==> m[k].id == k
  }

  /** The store invariant: articles filed under their ids, all of them below the next fresh id. */
  predicate Valid(st: Store)
  {
    && FirstId <= st.nextId
    && KeyedById(st.articles)
    && forall k :: k in st.articles ==> FirstId <= k < st.nextId
  }

  /** `m'` agrees with `m` on every id but `id`. */
  ghost predicate UntouchedExcept(m: map<int, Article>, m': map<int, Article>, id: int)
  {
    forall k :: k != id ==> (k in m <==> k in m') && (k in m ==> m[k] == m'[k])
  }

  /** A fresh repository: no article, ids handed out from `FirstId`. */
  function Empty(): (st: Store)
    ensures Valid(st)
    ensures st.articles == map[] && st.nextId == FirstId
  {
    Store(map[], FirstId)
  }

  /** The repository's `deleteAll`: every article removed, the id counter kept. */
  function DeleteAll(st: Store): (r: Store)
    requires Valid(st)
    ensures Valid(r)
    ensures r.articles == map[]
    ensures r.nextId == st.nextId
  {
    st.(articles := map[])
  }

  /**
   * `save`: turns the request into an entity authored by `userName` and
   * persists it under a fresh id with creation time `now`. The request is
   * not validated here.
   */
  function Save(st: Store, request: AddArticleRequest, userName: JString, now: Timestamp): (r: Step<Article>)
    requires Valid(st)
    ensures Valid(r.store)
    ensures r.result.Ok?
    ensures st.nextId <= r.result.value.id < r.store.nextId
    ensures var a := r.result.value;
      && a.id !in st.articles
      && a.title == request.title && a.content == request.content
      && a.author == userName && a.createdAt == now
      && a.id in r.store.articles && r.store.articles[a.id] == a
      && UntouchedExcept(st.articles, r.store.articles, a.id)
  {
    var draft := ToEntity(request, userName);
    var a := Article(st.nextId, draft.title, draft.content, draft.author, now);
    Step(Ok(a), Store(st.articles[a.id := a], st.nextId + 1))
  }

  /** `xs` lists exactly the articles of `m`, each once, in increasing id order. */
  predicate Enumerates(m: map<int, Article>, xs: seq<Article>)
  {
    && (forall i :: 0 <= i < |xs| ==> xs[i].id in m && m[xs[i].id] == xs[i])
    && (forall k :: k in m ==> m[k] in xs)
    && (forall i, j :: 0 <= i < j < |xs| ==> xs[i].id < xs[j].id)
  }

  /**
   * `xs` lists exactly the articles of `m` filed in `[FirstId, n)`, each once,
   * in increasing id order. The bound is what the listing's induction needs;
   * `EnumeratesAllBelow` shows it coincides with `Enumerates` once every id
   * lies below it, as the store invariant guarantees for `nextId`.
   */
  predicate EnumeratesBelow(m: map<int, Article>, n: int, xs: seq<Article>)
  {
    && (forall i :: 0 <= i < |xs| ==> xs[i].id in m && m[xs[i].id] == xs[i] && FirstId <= xs[i].id < n)
    && (forall k :: k in m && FirstId <= k < n ==> m[k] in xs)
    && (forall i, j :: 0 <= i < j < |xs| ==> xs[i].id < xs[j].id)
  }

  /** With every id of `m` in `[FirstId, n)`, enumerating below `n` is enumerating all of `m`. */
  lemma EnumeratesAllBelow(m: map<int, Article>, n: int, xs: seq<Article>)
    requires forall k :: k in m ==> FirstId <= k < n
    ensures EnumeratesBelow(m, n, xs) <==> Enumerates(m, xs)
  {
  }

  /** The articles of `m` whose ids lie in `[FirstId, n)`, in increasing id order. */
  function Listing(m: map<int, Article>, n: int): seq<Article>
    decreases n
  {
    if n <= FirstId then []
    else Listing(m, n - 1) + (if n - 1 in m then [m[n - 1]] else [])
  }

  /**
   * The listing below `n` holds each article of `m` filed below `n` exactly
   * once, in increasing id order, and nothing else.
   */
  lemma {:induction false} ListingEnumerates(m: map<int, Article>, n: int)
    requires KeyedById(m)
    ensures EnumeratesBelow(m, n, Listing(m, n))
    decreases n
  {
    if n > FirstId {
      ListingEnumerates(m, n - 1);
      var prefix := Listing(m, n - 1);
      var xs := Listing(m, n);
      forall i | 0 <= i < |xs|
        ensures xs[i].id in m && m[xs[i].id] == xs[i] && FirstId <= xs[i].id < n
      {
        if i < |prefix| {
          assert xs[i] == prefix[i];
        } else {
          assert xs[i] == m[n - 1];
        }
      }
    }
  }

  /** `findAll`: every stored article, once each, oldest first; the store is only read. */
  function FindAll(st: Store): (r: Step<seq<Article>>)
    requires Valid(st)
    ensures r.store == st
    ensures r.result.Ok? && Enumerates(st.articles, r.result.value)
  {
    ListingEnumerates(st.articles, st.nextId);
    EnumeratesAllBelow(st.articles, st.nextId, Listing(st.articles, st.nextId));
    Step(Ok(Listing(st.articles, st.nextId)), st)
  }

  /** `findById`: the article stored under `id`, or not-found; the store is only read. */
  function FindById(st: Store, id: int): (r: Step<Article>)
    requires Valid(st)
    ensures r.store == st
    ensures r.result.Ok? <==> id in st.articles
    ensures r.result.Ok? ==> r.result.value == st.articles[id] && r.result.value.id == id
    ensures r.result.Err? ==> r.result.error == NotFound(id)
  {
    if id in st.articles then Step(Ok(st.articles[id]), st) else Step(Err(NotFound(id)), st)
  }

  /** `authorizeArticleAuthor`: passes exactly when the requester's name equals the article's author. */
  function AuthorizeArticleAuthor(article: Article, requester: JString): (r: Result<()>)
    ensures r.Ok? <==> requester == article.author
    ensures r.Err? ==> r.error == NotAuthorized
  {
    if article.author == requester then Ok(()) else Err(NotAuthorized)
  }

  /**
   * `delete`: looks the article up, then checks the requester is its author,
   * then removes it. A failure at either step leaves the store as it was.
   */
  function Delete(st: Store, id: int, requester: JString): (r: Step<()>)
    requires Valid(st)
    ensures Valid(r.store)
    ensures r.result.Ok? <==> id in st.articles && st.articles[id].author == requester
    ensures id !in st.articles ==> r.result == Err(NotFound(id))
    ensures id in st.articles && st.articles[id].author != requester ==> r.result == Err(NotAuthorized)
    ensures r.result.Err? ==> r.store == st
    ensures r.result.Ok? ==>
      && id !in r.store.articles
      && UntouchedExcept(st.articles, r.store.articles, id)
      && r.store.nextId == st.nextId
  {
    match FindById(st, id).result
    case Err(e) => Step(Err(e), st)
    case Ok(article) =>
      match AuthorizeArticleAuthor(article, requester)
      case Err(e) => Step(Err(e), st)
      case Ok(_) => Step(Ok(()), st.(articles := st.articles - {article.id}))
  }

  /**
   * `update`, one transaction: looks the article up, then checks the
   * requester is its author, then replaces its title and content and yields
   * the updated article. A failure at either step leaves the store as it was.
   */
  function Update(st: Store, id: int, request: UpdateArticleRequest, requester: JString): (r: Step<Article>)
    requires Valid(st)
    ensures Valid(r.store)
    ensures r.result.Ok? <==> id in st.articles && st.articles[id].author == requester
    ensures id !in st.articles ==> r.result == Err(NotFound(id))
    ensures id in st.articles && st.articles[id].author != requester ==> r.result == Err(NotAuthorized)
    ensures r.result.Err? ==> r.store == st
    ensures r.result.Ok? ==>
      var before := st.articles[id];
      var a := r.result.value;
      && a.id == id && a.author == before.author && a.createdAt == before.createdAt
      && a.title == request.title && a.content == request.content
      && id in r.store.articles && r.store.articles[id] == a
      && UntouchedExcept(st.articles, r.store.articles, id)
      && r.store.nextId == st.nextId
  {
    match FindById(st, id).result
    case Err(e) => Step(Err(e), st)
    case Ok(article) =>
      match AuthorizeArticleAuthor(article, requester)
      case Err(e) => Step(Err(e), st)
      case Ok(_) =>
        var updated := article.(title := request.title, content := request.content);
        Step(Ok(updated), st.(articles := st.articles[article.id := updated]))
  }
}
