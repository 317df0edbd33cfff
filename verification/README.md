# Blog article service — a Dafny model

This project models the article core of a small Spring Boot blog backend:
the `BlogService` that saves, lists, finds, deletes and updates articles and
checks that only an article's author may change it, the `AddArticleRequest`
body with its field constraints and its conversion into an `Article`, and
the two read-side views, `ArticleViewResponse` (detail) and
`ArticleListViewResponse` (summary).

The service becomes a state machine. The JPA repository becomes a `Store`:
a finite map from id to `Article` plus the next fresh id. Each service
operation is a pure function from a store and its inputs to a `Step`. A
`Step` holds a result (a value, or one of the errors `NotFound(id)` and
`NotAuthorized`) and the store after the call. The service reads the
requester's name from the ambient security context. Here it is an explicit
`requester` argument instead.

Java strings are sequences of UTF-16 code units (`JavaText.JString`), so a
length is `String.length()`, as `@Size` counts it. Fields the Java code may
leave null are `Nullable`.

Files:
- `java_text.dfy` (module `JavaText`): code units, strings, nullable references.
- `domain.dfy` (module `Domain`): `Article`, the unsaved `ArticleDraft`, and the opaque `Timestamp`.
- `article_requests.dfy` (module `ArticleRequests`): add-request validation, `ToEntity`, and the update request.
- `article_views.dfy` (module `ArticleViews`): the detail and summary projections.
- `blog_service.dfy` (module `BlogService`): the store, its invariant `Valid`, and the six service operations.
- `blog_service_properties.dfy` (module `BlogServiceProperties`): lemmas about sequences of operations.

The repository's tests expect more than the service and controller code does. The model follows the code:
- `BlogApiControllerTest.java:199-248` expects status 400 for a null title and for an 11-character title. `BlogApiController.java:30` binds `@RequestBody AddArticleRequest` without `@Valid`, so the controller does not validate the request, and `save` does no checking. So `Save` accepts any request, and validation is the separate predicate `ArticleRequests.IsValid`.
- `BlogApiControllerTest.java:266-282` expects 404 with the code `ARTICLE_NOT_FOUND` for a missing article. `BlogService.java:28` throws `IllegalArgumentException` instead, and neither `BlogService` nor `BlogApiController` throws `ArticleNotFoundException`. `BlogService` throws `IllegalArgumentException` for both of its failures, told apart only by message. The model keeps two error constructors: `NotFound(id)` and `NotAuthorized`. `NotFound` covers both spellings of the not-found message: "not found : " in `findById` and `delete`, and "not found: " in `update`. Message text is not modelled, and neither error is mapped to an HTTP status.

## Model

| member | source | states |
|---|---|---|
| ArticleRequests.Violations | src/main/java/me/castleuk/springbootdeveloperblog/dto/AddArticleRequest.java:16-21 | The title breaks `@NotNull` exactly when it is null. It breaks `@Size` exactly when it is non-null and outside 1..10 code units. The content breaks `@NotNull` exactly when it is null. |
| ArticleRequests.ValidIff | src/main/java/me/castleuk/springbootdeveloperblog/dto/AddArticleRequest.java:16-21 | A request is valid if and only if its title is non-null with length 1 to 10 and its content is non-null. |
| ArticleRequests.NullTitleIsInvalid | src/test/java/me/castleuk/springbootdeveloperblog/controller/BlogApiControllerTest.java:199-221 | A request with a null title is invalid whatever its content. It breaks `@NotNull` only, not `@Size`. |
| ArticleRequests.LongTitleIsInvalid | src/test/java/me/castleuk/springbootdeveloperblog/controller/BlogApiControllerTest.java:224-248 | Any title longer than ten code units, including an 11-character one, makes the request invalid. |
| ArticleRequests.TitleContentExampleIsValid | src/test/java/me/castleuk/springbootdeveloperblog/controller/BlogApiControllerTest.java:86-104 | The request with title "title" and content "content" is valid. |
| ArticleRequests.EmptyContentIsValid | src/main/java/me/castleuk/springbootdeveloperblog/dto/AddArticleRequest.java:20-21 | Content has no length bound: an empty content beside a valid title is valid. |
| ArticleRequests.ToEntity | src/main/java/me/castleuk/springbootdeveloperblog/dto/AddArticleRequest.java:23-28 | The entity carries the request's title and content unchanged, and the given name as author. |
| ArticleRequests.ToEntityIsInjective | src/main/java/me/castleuk/springbootdeveloperblog/dto/AddArticleRequest.java:23-28 | Two request/author pairs give the same entity only if they are equal: the conversion loses nothing. |
| ArticleViews.DetailView | src/main/java/me/castleuk/springbootdeveloperblog/dto/ArticleViewResponse.java:18-24 | The detail view's id, title, content, createdAt and author are those of the article. |
| ArticleViews.DetailViewIsLossless | src/main/java/me/castleuk/springbootdeveloperblog/dto/ArticleViewResponse.java:12-24 | Two articles have the same detail view if and only if they are equal. |
| ArticleViews.ListView | src/main/java/me/castleuk/springbootdeveloperblog/dto/ArticleListViewResponse.java:13-17 | The summary view's id, title and content are those of the article. |
| ArticleViews.ListViewKeepsOnlyIdTitleContent | src/main/java/me/castleuk/springbootdeveloperblog/dto/ArticleListViewResponse.java:9-17 | Two articles share a summary view if and only if they agree on id, title and content. Author and creation time do not show. |
| ArticleViews.ListViewAgreesWithDetailView | src/main/java/me/castleuk/springbootdeveloperblog/dto/ArticleListViewResponse.java:13-17 | For the same article, the summary and detail views agree on id, title and content. |
| BlogService.Empty | src/main/java/me/castleuk/springbootdeveloperblog/repository/BlogRepository.java:7 | A fresh repository holds no article, hands out ids from 1, and satisfies the store invariant. |
| BlogService.DeleteAll | src/test/java/me/castleuk/springbootdeveloperblog/controller/BlogApiControllerTest.java:62-65 | `deleteAll` leaves a valid store with no article, and keeps the id counter where it was, so ids are not reused after it. |
| BlogService.Save | src/main/java/me/castleuk/springbootdeveloperblog/service/BlogService.java:19-21 | `save` always succeeds. It stores a new article under a fresh id: at least the store's next id and below the next id afterwards, so no id is ever handed out twice. The article has the request's title and content, and its author is exactly the given user name. No other article changes. |
| BlogService.ListingEnumerates | src/main/java/me/castleuk/springbootdeveloperblog/service/BlogService.java:23-25 | The listing of the store below an id bound holds every article filed below the bound once, in increasing id order, and nothing else. |
| BlogService.FindAll | src/main/java/me/castleuk/springbootdeveloperblog/service/BlogService.java:23-25 | `findAll` returns every stored article exactly once, in increasing id order, and leaves the store unchanged. |
| BlogService.FindById | src/main/java/me/castleuk/springbootdeveloperblog/service/BlogService.java:27-29 | `findById` returns the article stored under the id if and only if there is one. Otherwise it fails with not-found for that id. It never changes the store. |
| BlogService.AuthorizeArticleAuthor | src/main/java/me/castleuk/springbootdeveloperblog/service/BlogService.java:51-60 | The check passes if and only if the requester's name equals the article's author exactly. Otherwise it fails with not-authorized. |
| BlogService.Delete | src/main/java/me/castleuk/springbootdeveloperblog/service/BlogService.java:31-38 | `delete` succeeds if and only if the id is stored and the requester is its author. An absent id fails with not-found for every requester, because the lookup comes first. A non-author fails with not-authorized. Every failure leaves the store unchanged. A success removes that id and touches no other article. |
| BlogService.Update | src/main/java/me/castleuk/springbootdeveloperblog/service/BlogService.java:40-48 | `update` has the same success condition, error cases and error order as `delete`, and a failure leaves the store unchanged (all-or-nothing). A success sets title and content to the request's values and keeps id, author and createdAt. It returns the stored updated article and touches no other article. |
| BlogServiceProperties.SaveThenFindById | src/main/java/me/castleuk/springbootdeveloperblog/service/BlogService.java:19-29 | After a save, `findById` on the new id returns the saved article. |
| BlogServiceProperties.FindAllAfterSave | src/main/java/me/castleuk/springbootdeveloperblog/service/BlogService.java:19-25 | After a save, `findAll` returns the earlier list with the new article appended. |
| BlogServiceProperties.SaveIntoEmptyStore | src/test/java/me/castleuk/springbootdeveloperblog/controller/BlogApiControllerTest.java:104-110 | After one save into any empty store, including one emptied by `deleteAll` whose id counter has moved on, `findAll` returns exactly one article. It carries the request's title and content and the saver as author. |
| BlogServiceProperties.DeleteUndoesSave | src/main/java/me/castleuk/springbootdeveloperblog/service/BlogService.java:19-38 | Deleting a just-saved article as its author succeeds and restores the earlier set of articles. |
| BlogServiceProperties.DeleteThenFindById | src/main/java/me/castleuk/springbootdeveloperblog/service/BlogService.java:27-38 | After a successful delete, `findById` on that id fails with not-found. |
| BlogServiceProperties.FindAllAfterDelete | src/test/java/me/castleuk/springbootdeveloperblog/controller/BlogApiControllerTest.java:156-162 | After a successful delete, `findAll` returns the earlier list with exactly the deleted article removed. |
| BlogServiceProperties.UpdateThenFindById | src/test/java/me/castleuk/springbootdeveloperblog/controller/BlogApiControllerTest.java:183-188 | After a successful update, `findById` returns the updated article, with the new title and content. |
| BlogServiceProperties.FindAllAfterUpdate | src/main/java/me/castleuk/springbootdeveloperblog/service/BlogService.java:40-48 | After a successful update, `findAll` returns the earlier list with the updated article in its old place. No other entry changes. |
| BlogServiceProperties.UpdateIsIdempotent | src/main/java/me/castleuk/springbootdeveloperblog/service/BlogService.java:40-48 | Repeating the same update by the same requester gives the same result and the same store. |
| BlogServiceProperties.UpdateCanBeReverted | src/main/java/me/castleuk/springbootdeveloperblog/service/BlogService.java:40-48 | Updating an article back to its former title and content restores the original store. |

## Left out

- HTTP routing, JSON serialization, status codes (201, 200, 400, 403, 404, 405) and the central error handler are framework plumbing, so they are not modelled. The service performs no status mapping.
- The security context stays out. The requester's name is a parameter. The null-pointer failures on a missing authentication or a null author are not modelled, so author and requester are non-null strings.
- Id generation and `createdAt` auditing belong to the persistence layer. Ids come from a counter starting at 1 that is never reused. The creation time is a parameter of `Save` and is never inspected. Ids are unbounded integers, not Java `long`s.
- BlogService.FindAll: the repository's `findAll` promises no order. The model lists articles in increasing id order, which is also save order.
- The `Article` and `UpdateArticleRequest` classes are not part of this model. The model assumes `Article.update` sets both title and content, as the update test asserts. It adds no validation to update requests.
- `@Transactional` is modelled only as "update is all-or-nothing". Concurrent requests, row locking and rollback on other exceptions are not modelled.
- `UserDetailService` and `RefreshTokenService` are left out. Each is a one-line lookup through a derived query (`findByEmail`, `findByRefreshToken`) whose meaning lives in the framework.
- The repository interfaces are left out because they are declarations only. `ArticleNotFoundException` is left out because it only wraps an error code that is not part of this model.
