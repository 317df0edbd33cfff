/**
 * Properties relating several blog service operations: what a read sees
 * after a write, writes that undo one another, and how the article listing
 * changes under each write.
 */
module BlogServiceProperties {
  import opened JavaText
  import opened Domain
  import opened ArticleRequests
  import opened BlogService

  /** `xs` with every article of id `id` dropped, order otherwise kept. */
  function WithoutId(xs: seq<Article>, id: int): (ys: seq<Article>)
    ensures forall i :: 0 <= i < |ys| ==> ys[i].id != id
    ensures |ys| <= |xs|
  {
    if |xs| == 0 then []
    else WithoutId(xs[..|xs| - 1], id) + (if xs[|xs| - 1].id == id then [] else [xs[|xs| - 1]])
  }

  /** `xs` with every article of id `id` replaced by `a`. */
  function ReplaceId(xs: seq<Article>, id: int, a: Article): (ys: seq<Article>)
    ensures |ys| == |xs|
  {
    seq(|xs|, i requires 0 <= i < |xs| => if xs[i].id == id then a else xs[i])
  }

  /** The listing below `n` depends only on the articles filed below `n`. */
  lemma {:induction false} ListingFrame(m: map<int, Article>, m': map<int, Article>, n: int)
    requires KeyedById(m) && KeyedById(m')
    requires forall k :: k < n ==> (k in m <==> k in m') && (k in m ==> m[k] == m'[k])
    ensures Listing(m, n) == Listing(m', n)
    decreases n
  {
    if n > FirstId {
      ListingFrame(m, m', n - 1);
    }
  }

  /** Dropping from a sequence that ends in `x` drops from the front part and then decides on `x`. */
  lemma WithoutIdSnoc(xs: seq<Article>, x: Article, id: int)
    ensures WithoutId(xs + [x], id) == WithoutId(xs, id) + (if x.id == id then [] else [x])
  {
  }

  /** Replacing distributes over concatenation. */
  lemma ReplaceIdAppend(xs: seq<Article>, ys: seq<Article>, id: int, a: Article)
    ensures ReplaceId(xs + ys, id, a) == ReplaceId(xs, id, a) + ReplaceId(ys, id, a)
  {
  }

  /** A store without articles lists nothing, whatever the id bound. */
  lemma {:induction false} ListingOfNothing(n: int)
    ensures Listing(map[], n) == []
    decreases n
  {
    if n > FirstId {
      ListingOfNothing(n - 1);
    }
  }

  /** Removing one id from the store removes exactly its article from the listing. */
  lemma {:induction false} ListingWithout(m: map<int, Article>, id: int, n: int)
    requires KeyedById(m)
    ensures KeyedById(m - {id})
    ensures Listing(m - {id}, n) == WithoutId(Listing(m, n), id)
    decreases n
  {
    var m' := m - {id};
    assert KeyedById(m');
    if n > FirstId {
      ListingWithout(m, id, n - 1);
      var prefix := Listing(m, n - 1);
      assert Listing(m', n - 1) == WithoutId(prefix, id);
      if n - 1 in m {
        var x := m[n - 1];
        assert Listing(m, n) == prefix + [x];
        WithoutIdSnoc(prefix, x, id);
        if n - 1 == id {
          assert Listing(m', n) == Listing(m', n - 1);
        } else {
          assert Listing(m', n) == Listing(m', n - 1) + [x];
        }
      } else {
        assert Listing(m, n) == prefix;
        assert Listing(m', n) == Listing(m', n - 1);
      }
    }
  }

  /** Replacing the article under a stored id replaces exactly it in the listing, in place. */
  lemma {:induction false} ListingReplace(m: map<int, Article>, id: int, a: Article, n: int)
    requires KeyedById(m) && id in m && a.id == id
    ensures KeyedById(m[id := a])
    ensures Listing(m[id := a], n) == ReplaceId(Listing(m, n), id, a)
    decreases n
  {
    if n > FirstId {
      ListingReplace(m, id, a, n - 1);
      ReplaceIdAppend(Listing(m, n - 1), if n - 1 in m then [m[n - 1]] else [], id, a);
    }
  }

  /** A saved article is found again under the id it was given. */
  lemma SaveThenFindById(st: Store, request: AddArticleRequest, userName: JString, now: Timestamp)
    requires Valid(st)
    ensures var s := Save(st, request, userName, now);
      FindById(s.store, s.result.value.id).result == Ok(s.result.value)
  {
  }

  /** Saving appends the new article at the end of the listing and leaves the rest of it as it was. */
  lemma FindAllAfterSave(st: Store, request: AddArticleRequest, userName: JString, now: Timestamp)
    requires Valid(st)
    ensures var s := Save(st, request, userName, now);
      FindAll(s.store).result.value == FindAll(st).result.value + [s.result.value]
  {
    var s := Save(st, request, userName, now);
    ListingFrame(st.articles, s.store.articles, st.nextId);
  }

  /**
   * Saving into an empty store, whatever its next id, yields a listing of
   * exactly one article, carrying the request's title and content and the
   * saver as author.
   */
  lemma SaveIntoEmptyStore(st: Store, request: AddArticleRequest, userName: JString, now: Timestamp)
    requires Valid(st) && st.articles == map[]
    ensures var xs := FindAll(Save(st, request, userName, now).store).result.value;
      && |xs| == 1
      && xs[0].title == request.title && xs[0].content == request.content
      && xs[0].author == userName
  {
    FindAllAfterSave(st, request, userName, now);
    ListingOfNothing(st.nextId);
  }

  /** Deleting an article right after saving it, as its author, restores the articles of the store. */
  lemma DeleteUndoesSave(st: Store, request: AddArticleRequest, userName: JString, now: Timestamp)
    requires Valid(st)
    ensures var s := Save(st, request, userName, now);
      var d := Delete(s.store, s.result.value.id, userName);
      d.result.Ok? && d.store.articles == st.articles
  {
  }

  /** After a successful delete the article is no longer found. */
  lemma DeleteThenFindById(st: Store, id: int, requester: JString)
    requires Valid(st)
    ensures var d := Delete(st, id, requester);
      d.result.Ok? ==> FindById(d.store, id).result == Err(NotFound(id))
  {
  }

  /** A successful delete drops exactly the deleted article from the listing. */
  lemma FindAllAfterDelete(st: Store, id: int, requester: JString)
    requires Valid(st)
    ensures var d := Delete(st, id, requester);
      d.result.Ok? ==> FindAll(d.store).result.value == WithoutId(FindAll(st).result.value, id)
  {
    var d := Delete(st, id, requester);
    if d.result.Ok? {
      assert d.store.articles == st.articles - {id};
      ListingWithout(st.articles, id, st.nextId);
    }
  }

  /** After a successful update, a lookup yields the updated article. */
  lemma UpdateThenFindById(st: Store, id: int, request: UpdateArticleRequest, requester: JString)
    requires Valid(st)
    ensures var u := Update(st, id, request, requester);
      u.result.Ok? ==> FindById(u.store, id).result == u.result
  {
  }

  /** A successful update replaces the article in place in the listing and changes nothing else there. */
  lemma FindAllAfterUpdate(st: Store, id: int, request: UpdateArticleRequest, requester: JString)
    requires Valid(st)
    ensures var u := Update(st, id, request, requester);
      u.result.Ok? ==> FindAll(u.store).result.value == ReplaceId(FindAll(st).result.value, id, u.result.value)
  {
    var u := Update(st, id, request, requester);
    if u.result.Ok? {
      assert u.store.articles == st.articles[id := u.result.value];
      ListingReplace(st.articles, id, u.result.value, st.nextId);
    }
  }

  /** Repeating an update changes nothing further. */
  lemma UpdateIsIdempotent(st: Store, id: int, request: UpdateArticleRequest, requester: JString)
    requires Valid(st)
    ensures var u := Update(st, id, request, requester);
      Update(u.store, id, request, requester) == u
  {
  }

  /** Updating back to the former title and content restores the store. */
  lemma UpdateCanBeReverted(st: Store, id: int, request: UpdateArticleRequest, requester: JString)
    requires Valid(st) && id in st.articles
    ensures var before := st.articles[id];
      var u := Update(st, id, request, requester);
      Update(u.store, id, UpdateArticleRequest(before.title, before.content), requester).store == st
  {
  }
}
