# ArticleHub backend: sessions, credentials and articles

This project models the core of the ArticleHub backend, an Express and
Mongoose service. Users register, log in, refresh and verify their session,
log out and change their profile or password. Authors publish, edit, list and
delete articles, and readers like, dislike, block and unblock them.

The model covers the following:

- Both copies of the authentication service:
  - the first one, `AuthService` over the users collection, with a try/catch in every operation;
  - the refactored one, over the user repository, with no catch.
- Token issuance and the access-token gate that guards protected routes.
- The user repository.
- Both copies of the article service.

Each family of operations is specified once, as a pure step function over the
stored collection. The step says how the call settles, what the collection
holds afterwards, and what else it caused (cookies written, image destroys
requested). These are `AuthSpec` and `ArticleSpec`.

Each service is a class whose methods change the collection in place. Each
method is proved to do exactly what the step says. The properties the system
promises are proved as lemmas about the steps:

- a duplicate email or phone is refused;
- login failures are indistinguishable;
- an expired token and a forged one get the same answer;
- cookie lifetimes match token lifetimes;
- refusals persist nothing;
- likes and dislikes stay disjoint;
- the social actions are idempotent;
- only the author can delete an article;
- the pages of a listing partition it.

Modules, one per file:

- `Common`: options, statuses, faults, and the ids the store issues.
- `Bcrypt`: the password hasher.
- `Tokens`: JWT issuance.
- `Express`: the request, response and `next` objects.
- `ProtectedRoutes`: the access-token gate.
- `UserModel`: the users collection.
- `UserRepositories`: the user repository.
- `AuthSpec`: the session steps.
- `AuthServices` and `LegacyAuth`: the refactored and the first authentication service.
- `ArticleModel`: the articles collection.
- `Media`: the image host.
- `ArticleSpec`: the article steps.
- `ArticleServices` and `LegacyArticles`: the refactored and the first article service.

Behaviour of the code worth noting, which the model keeps:

- A duplicate registration gets BAD_REQUEST "User already exists", not a conflict status.
- A successful registration gets OK, not CREATED.
- The user returned by registration, login, refresh, verify and profile change still carries the password hash.
- The token claim is `userId`, not a subject id.
- In the refactored service, a refresh token that does not verify escapes as an exception.
  - It is not caught as a typed result.
  - The first service turns it into a 500.
- A like or unlike is two separate `updateOne` writes, not one atomic toggle.
  - The model applies them in sequence.
- The access-token gate replies with the text "nvalid or expired token", as the source spells it.

## Model

| member | source | states |
|---|---|---|
| Common.IdOfInjective | src/repositories/base.repository.ts:6-9 | distinct creation counters give distinct document ids, so the store never reuses an id |
| Bcrypt.Hash | src/services/implementation/auth.service.ts:21 | a stored hash is never the plaintext, and its length is fixed by the prefix, the 22-character salt and the password |
| Bcrypt.CompareAcceptsOwnHash | src/services/implementation/auth.service.ts:51 | compare accepts a password against any hash of that password, whatever the salt |
| Bcrypt.CompareRejectsOtherHash | src/services/implementation/auth.service.ts:51 | compare rejects a password against the hash of a different password |
| Tokens.AccessTokenLifetime | src/utils/generateToken.ts:6-17 | an access token verifies, with exactly the claims userId and email, for the 15 minutes after issue, and never after |
| Tokens.RefreshTokenLifetime | src/utils/generateToken.ts:19-29 | a refresh token verifies, with the single claim userId, for the 7 days after issue, and never after |
| Tokens.ForeignSecretRejected | src/middlewares/protectedRoutes.ts:15 | no token verifies under a secret other than the one it was signed with |
| Tokens.KindsDifferOnlyInEmail | src/utils/generateToken.ts:6-29 | both token kinds are signed with the same secret, and their payloads differ only in the email claim |
| ProtectedRoutes.ProtectRoute | src/middlewares/protectedRoutes.ts:6-23 | a missing token gets 401 "Not authenticated" and a token that fails verification gets 403; in both cases `next` is not called and the headers are unchanged; a verified token sets x-user-id to its userId (or drops the header when the claim is absent) and calls `next` once, without replying |
| ProtectedRoutes.AdmitsExactlyVerified | src/middlewares/protectedRoutes.ts:9-17 | the gate admits exactly the present tokens that verify, and answers 401 exactly when the token is missing |
| ProtectedRoutes.ExpiredAndForgedAlike | src/middlewares/protectedRoutes.ts:14-21 | an expired genuine token and a token signed with another secret get the same rejection |
| ProtectedRoutes.RefreshTokenPassesGate | src/middlewares/protectedRoutes.ts:15-17 | an unexpired refresh token presented as the access cookie is admitted as its user for up to 7 days |
| ProtectedRoutes.AccessTokenPassesGate | src/middlewares/protectedRoutes.ts:15-17 | an access token is admitted as its user before its expiry and rejected from then on |
| UserModel.FirstMatch | src/repositories/base.repository.ts:25-28 | the position returned holds a matching document and no earlier document matches; no position means nothing matches |
| UserModel.FindOne | src/repositories/base.repository.ts:25-28 | the document found is stored and matches the filter; nothing is found exactly when no stored document matches |
| UserModel.CreateAddsExactlyOne | src/models/user/model.ts:4-12 | create fails with a duplicate key, changing nothing, exactly when the email or phone is already held; otherwise it appends one document with the given fields and a fresh id, keeping ids, emails and phones unique |
| UserModel.ReplaceAtTouchesOnlyTarget | src/repositories/base.repository.ts:16-18 | an overwrite keeps the `_id`, the count and every other document; it can only fail with a duplicate key |
| UserModel.UpdateOneTouchesOnlyMatch | src/repositories/base.repository.ts:16-18 | updateOne changes at most the first matching document and keeps its id; a filter matching nothing changes nothing |
| UserModel.SaveAgreesWithUpdateByEmail | src/services/authService.ts:232 | saving a document read by email writes the same table as updating by that email, so the two services persist a profile change identically |
| UserModel.UserCollection.constructor | src/models/user/model.ts:23 | an empty, well-formed collection |
| UserModel.UserCollection.Create | src/repositories/base.repository.ts:6-9 | the new state and result are those of the create step, and uniqueness is preserved |
| UserModel.UserCollection.UpdateOne | src/repositories/base.repository.ts:16-18 | the new state is that of the updateOne step, and uniqueness is preserved |
| UserModel.UserCollection.Save | src/services/authService.ts:232 | the new state is that of the save step, and uniqueness is preserved |
| UserRepositories.FindByEmailOrPhone | src/repositories/implementation/user.repository.ts:15-17 | the user returned is stored and has the email or the phone; nothing is returned exactly when no user has either |
| UserRepositories.UserRepository.constructor | src/repositories/implementation/user.repository.ts:7-9 | the repository works on the given users collection |
| UserRepositories.UserRepository.FindById | src/repositories/base.repository.ts:11-14 | the user returned is stored and has that id; nothing is returned exactly when no user has it |
| UserRepositories.UserRepository.FindOne | src/repositories/base.repository.ts:25-28 | the user returned is stored and matches the filter; nothing is returned exactly when no user matches |
| UserRepositories.UserRepository.CreateUser | src/repositories/implementation/user.repository.ts:11-13 | on success exactly one user is appended, holding the given fields and an id no other user has; a failure changes nothing |
| UserRepositories.UserRepository.UpdateUser | src/repositories/implementation/user.repository.ts:19-21 | the count is kept, and every user the filter does not match is left as it was |
| AuthSpec.RegisterRejectsHeldEmailOrPhone | src/services/implementation/auth.service.ts:16-19 | a form whose email or phone is already held is refused with BAD_REQUEST, whatever its other fields, and nothing is stored or sent |
| AuthSpec.RegisterAddsOneUser | src/services/implementation/auth.service.ts:21-42 | otherwise exactly one user is appended with the form's fields and a bcrypt hash of the password that verifies against it, and the two session cookies are set for that user |
| AuthSpec.SessionCookiesMatchTokenLifetimes | src/services/implementation/auth.service.ts:27-40 | the access cookie lives 15 minutes and the refresh cookie 7 days, like their tokens; both are httpOnly, secure in production and sameSite none; the refresh cookie has path "/"; each carries its token's claims |
| AuthSpec.LoginFailuresAlike | src/services/implementation/auth.service.ts:46-54 | an unknown identifier and a wrong password get the same FORBIDDEN "Invalid credentials" and no cookies |
| AuthSpec.LoginSucceedsIff | src/services/implementation/auth.service.ts:45-75 | when at most one user answers to the identifier, login succeeds exactly when some user with that email or phone has a matching password, and then returns a stored user and sets its session cookies |
| AuthSpec.LoginByEmailShadowedByEarlierPhone | src/services/implementation/auth.service.ts:46 | registration checks email and phone separately, so a user's phone can equal another user's email; logging in by that email then finds the earlier user and fails |
| AuthSpec.RegisterThenLogin | src/services/implementation/auth.service.ts:15-75 | a user just registered logs in with the same email and password, and gets that user and a fresh pair of session cookies |
| AuthSpec.RefreshOutcomes | src/services/implementation/auth.service.ts:77-98 | a missing token gets UNAUTHORIZED; a token that fails verification raises; an unknown user gets NOT_FOUND; otherwise a new access cookie is set for the token's user; the refresh cookie is never rewritten and the table never changes |
| AuthSpec.RefreshSurvivesProfileChange | src/services/implementation/auth.service.ts:119-141 | after any profile or password change, an unexpired refresh token issued earlier still refreshes, because nothing revokes it |
| AuthSpec.VerifyUserOutcomes | src/services/implementation/auth.service.ts:100-111 | an absent or empty id gets BAD_REQUEST and an unknown id NOT_FOUND; an id some stored user holds gets OK with that stored user, and an OK always carries a stored user with the id asked for; nothing changes |
| AuthSpec.ChangeRefusalsPersistNothing | src/services/implementation/auth.service.ts:119-135 | an unknown email gets NOT_FOUND and a wrong current password BAD_REQUEST; every refusal or fault leaves the table as it was |
| AuthSpec.ChangeApplies | src/services/implementation/auth.service.ts:119-141 | otherwise the user's names, phone and interests are overwritten, and the password is rehashed when a password change was asked; the write fails with a duplicate key exactly when another user holds the new phone |
| AuthSpec.PasswordChangeRotatesCredential | src/services/implementation/auth.service.ts:130-140 | after a password change the new password logs in and the old one gets "Invalid credentials" |
| AuthServices.StatusMatchesOutcome | src/services/implementation/auth.service.ts:15-141 | a reply has a 2xx status exactly when the operation succeeded |
| AuthServices.AuthService.constructor | src/services/implementation/auth.service.ts:13 | the service works on the given repository and signing secret |
| AuthServices.AuthService.RegisterUser | src/services/implementation/auth.service.ts:15-43 | result, users and cookies written are those of the register step |
| AuthServices.AuthService.LoginUser | src/services/implementation/auth.service.ts:45-75 | result and cookies written are those of the login step; the users are unchanged |
| AuthServices.AuthService.RefreshToken | src/services/implementation/auth.service.ts:77-98 | result and cookies written are those of the refresh step; a token that fails verification raises |
| AuthServices.AuthService.VerifyUser | src/services/implementation/auth.service.ts:100-111 | the reply is that of the verify step; an OK reply carries the stored user with the given id |
| AuthServices.AuthService.LogOut | src/services/implementation/auth.service.ts:113-117 | both cookies are cleared, access first, and the reply is "Logout successful" |
| AuthServices.AuthService.ChangeUserdetails | src/services/implementation/auth.service.ts:119-141 | result and new users are those of the change step |
| LegacyAuth.Message | src/services/authService.ts:53 | the reply texts match the refactored service's, except the misspelt signup and login texts and "User Not found" |
| LegacyAuth.AgreesWithRefactored | src/services/authService.ts:57-62 | the first service answers 500 exactly where the refactored one raises; otherwise both give the same status and user, and the same text except for three events |
| LegacyAuth.AuthService.constructor | src/services/authService.ts:13-15 | the service works on the users collection and the signing secret |
| LegacyAuth.AuthService.RegisterUser | src/services/authService.ts:17-63 | result, users and cookies written are those of the register step, with faults caught as "Internal server error" |
| LegacyAuth.AuthService.LoginUser | src/services/authService.ts:65-114 | result and cookies written are those of the login step |
| LegacyAuth.AuthService.RefreshToken | src/services/authService.ts:116-154 | result and cookies written are those of the refresh step; a token that fails verification gets a 500 |
| LegacyAuth.AuthService.VerifyUser | src/services/authService.ts:156-185 | the reply is that of the verify step; an OK reply carries the stored user with the given id |
| LegacyAuth.AuthService.LogOut | src/services/authService.ts:187-202 | both cookies are cleared and the reply is "Logout successful" |
| LegacyAuth.AuthService.ChangeUserdetails | src/services/authService.ts:204-245 | the document read by email is edited and saved; the users afterwards are those of the change step |
| ArticleModel.AddToSet | src/services/implementation/article.service.ts:154 | `$addToSet` holds the old members and the new one, keeps the old ones in order, adds at most one entry, and changes nothing when the member is present |
| ArticleModel.Pull | src/services/implementation/article.service.ts:153 | `$pull` removes every occurrence of the pulled member and keeps every other member as often as it occurred; it changes nothing when the member is absent |
| ArticleModel.PullAppend | src/services/implementation/article.service.ts:153 | pulling distributes over concatenation, so the remaining members keep their order |
| ArticleModel.PullIdempotent | src/services/implementation/article.service.ts:153 | pulling the same user twice is pulling once |
| ArticleModel.Apply | src/services/implementation/article.service.ts:153-154 | an array update rewrites only the array it names; every other field of the article is kept |
| ArticleModel.FirstSelected | src/repositories/base.repository.ts:25-28 | the position returned holds a selected article and no earlier one is selected; no position means none is selected |
| ArticleModel.FindArticle | src/repositories/base.repository.ts:25-28 | the article found is stored and selected; nothing is found exactly when no stored article is selected |
| ArticleModel.NewestFirst | src/repositories/implementation/article.repository.ts:17-25 | the listing holds exactly the stored articles the filter selects, each once and newest first: its k-th entry is the article at the k-th selected position counted from the end of the creation-ordered table, so its length (the `total`) is the number of selected articles |
| ArticleModel.SelectedPositions | src/repositories/implementation/article.repository.ts:17-25 | the positions of the selected articles are strictly decreasing and include every selected position |
| ArticleModel.Window | src/repositories/implementation/article.repository.ts:17-25 | skip and limit return at most `limit` articles, namely the listing's articles from position `skip` on, and nothing when `skip` is past the end |
| ArticleModel.CreateKeepsWf | src/repositories/base.repository.ts:6-9 | create appends one article with an id no stored article has, keeping ids unique |
| ArticleModel.SetByIdKeepsWf | src/repositories/implementation/article.repository.ts:12-15 | a `$set` by id keeps ids unique, and findById finds the only article with that id |
| ArticleModel.DeleteOneRemovesOnlyTarget | src/repositories/base.repository.ts:30-32 | deleteOne removes exactly the selected article and keeps every article with another id |
| ArticleModel.ArticleCollection.constructor | src/models/article/model.ts:72 | an empty, well-formed collection |
| ArticleModel.ArticleCollection.Create | src/repositories/base.repository.ts:6-9 | the new state and article are those of the create step, and ids stay unique |
| ArticleModel.ArticleCollection.UpdateOne | src/repositories/base.repository.ts:16-18 | the new state is that of the array update on the article with that id |
| ArticleModel.ArticleCollection.FindByIdAndUpdate | src/repositories/implementation/article.repository.ts:12-15 | the new state and the returned article are those of the `$set` by id |
| ArticleModel.ArticleCollection.DeleteOne | src/repositories/base.repository.ts:30-32 | the new state is that of deleteOne |
| Media.MediaHost.constructor | src/utils/cloudinary.ts:4-9 | no destroy has been requested |
| Media.MediaHost.Destroy | src/utils/cloudinary.ts:17-19 | the request is recorded; it succeeds exactly when the host accepts and otherwise fails as a media fault |
| ArticleSpec.CreatePostStoresDraft | src/services/implementation/article.service.ts:17-56 | a failed upload is a fault that stores nothing; otherwise one article is appended with a fresh id, the form's fields, the author, empty reaction arrays, and the upload's url and id (or empty strings without a file) |
| ArticleSpec.UpdateOneAt | src/services/implementation/article.service.ts:153-154 | an array update on a found article rewrites it in place and leaves it findable at the same position |
| ArticleSpec.SocialActionsOnMissing | src/services/implementation/article.service.ts:147-163 | like, unLike, block and unBlock of an unknown article answer NOT_FOUND and change nothing |
| ArticleSpec.LikeEffect | src/services/implementation/article.service.ts:147-163 | after a like the user is among the likes and not the dislikes; every other user's reactions and every other field or article are unchanged |
| ArticleSpec.UnLikeEffect | src/services/implementation/article.service.ts:165-181 | after an unLike the user is among the dislikes and not the likes; nothing else changes |
| ArticleSpec.BlockEffects | src/services/implementation/article.service.ts:183-215 | block puts the user in blockedBy and unBlock takes them out; nothing else changes |
| ArticleSpec.LikeIdempotent | src/services/implementation/article.service.ts:147-163 | liking twice has the effect of liking once |
| ArticleSpec.UnLikeIdempotent | src/services/implementation/article.service.ts:165-181 | disliking twice has the effect of disliking once |
| ArticleSpec.BlockIdempotent | src/services/implementation/article.service.ts:183-198 | blocking twice has the effect of blocking once |
| ArticleSpec.UnBlockIdempotent | src/services/implementation/article.service.ts:200-215 | unblocking twice has the effect of unblocking once |
| ArticleSpec.ReactionsStayDisjoint | src/services/implementation/article.service.ts:147-181 | if no user both likes and dislikes any article, that stays true after a like or an unLike |
| ArticleSpec.DeleteIsOwnerGated | src/services/implementation/article.service.ts:125-145 | a delete by anyone but the author, or of an unknown article, answers NOT_FOUND and changes nothing; a refused destroy keeps the article; a successful delete removes exactly that article; an article without an image is deleted without asking the host; for an article with an image exactly that image is destroyed, and the author's delete succeeds exactly when the host accepts |
| ArticleSpec.EditTracksImage | src/services/implementation/article.service.ts:58-103 | an unknown id answers NOT_FOUND; for a stored article, a failed upload raises with no destroy, a refused destroy of its old image raises after that one destroy, and any other edit succeeds with the updated article; a fault changes nothing; on success the text fields are overwritten in place, and the image and its id change only with a file and then name the new asset, after the old one (if any) was destroyed |
| ArticleSpec.CeilDiv | src/services/implementation/article.service.ts:115 | the page count is the least count whose pages hold every article |
| ArticleSpec.CeilDivBounds | src/services/implementation/article.service.ts:115 | the rounded-up quotient is the least count of `limit`-sized pages covering `total` |
| ArticleSpec.PageStartsInside | src/services/implementation/article.service.ts:108-115 | for a page from 1 on, the skip is not negative, and it falls inside the listing exactly when the page is at most the page count |
| ArticleSpec.PageBelowOneRefused | src/services/implementation/article.service.ts:108-122 | a listing fails exactly when the page is below 1, because the skip is then negative |
| ArticleSpec.PageContents | src/services/implementation/article.service.ts:105-123 | a page holds at most `limit` stored articles, only the author's for a creator; the total is 0 exactly when nothing is selected, and then the page count is 0; a page is non-empty exactly when it is at most the page count |
| ArticleSpec.WindowSelects | src/repositories/implementation/article.repository.ts:17-25 | every article on a page is stored and selected by the filter |
| ArticleSpec.PagesUpToIsPrefix | src/services/implementation/article.service.ts:108-111 | pages 1 to n together are the first n*limit articles of the listing |
| ArticleSpec.PagesPartitionListing | src/services/implementation/article.service.ts:105-115 | pages 1 to `pages` together are exactly the whole listing, in order |
| ArticleServices.ArticleService.constructor | src/services/implementation/article.service.ts:14-15 | the service works on the given collection and image host |
| ArticleServices.ArticleService.CreatePost | src/services/implementation/article.service.ts:17-56 | result and new articles are those of the create step |
| ArticleServices.ArticleService.EditPost | src/services/implementation/article.service.ts:58-103 | result, articles and destroys requested are those of the edit step that writes both the image and its id |
| ArticleServices.ArticleService.GetArticles | src/services/implementation/article.service.ts:105-123 | the reply is that of the listing step; it is OK exactly when the page is at least 1, and then holds at most `limit` articles |
| ArticleServices.ArticleService.DeleteArticle | src/services/implementation/article.service.ts:125-145 | result, articles and destroys requested are those of the delete step, which destroys only an existing image |
| ArticleServices.ArticleService.Like | src/services/implementation/article.service.ts:147-163 | result and articles are those of the like step |
| ArticleServices.ArticleService.UnLike | src/services/implementation/article.service.ts:165-181 | result and articles are those of the unLike step |
| ArticleServices.ArticleService.Block | src/services/implementation/article.service.ts:183-198 | result and articles are those of the block step |
| ArticleServices.ArticleService.UnBlock | src/services/implementation/article.service.ts:200-215 | result and articles are those of the unBlock step |
| LegacyArticles.Message | src/services/articleService.ts:181 | the reply texts are the refactored service's, except "This article doesn't exists" for a missing article |
| LegacyArticles.LegacyDeleteAgreesWhenImaged | src/services/articleService.ts:149-174 | when the owned article has an image, or there is no owned article, the first delete takes the same step as the refactored one |
| LegacyArticles.DeleteOfImagelessArticleAsksHost | src/services/articleService.ts:159-162 | for an owned article without an image, the first delete still asks the host to destroy the empty id and, if refused, keeps the article and answers 500; the refactored delete removes it without asking |
| LegacyArticles.EditLeavesDestroyedImageId | src/services/articleService.ts:74-92 | an edit with a file stores the new image beside the old image id, which it has just asked the host to destroy |
| LegacyArticles.EditThenDeleteOrphansUpload | src/services/articleService.ts:74-162 | an edit with a file followed by the author's delete asks twice to destroy the old image and never the new one |
| LegacyArticles.ArticleService.constructor | src/services/articleService.ts:11-13 | the service works on the articles collection and the image host |
| LegacyArticles.ArticleService.CreatePost | src/services/articleService.ts:15-58 | result and new articles are those of the create step |
| LegacyArticles.ArticleService.EditPost | src/services/articleService.ts:60-120 | result, articles and destroys requested are those of the edit step that writes the image only |
| LegacyArticles.ArticleService.GetArticles | src/services/articleService.ts:122-147 | the reply is that of the listing step; it is OK exactly when the page is at least 1, and then holds at most `limit` articles |
| LegacyArticles.ArticleService.DeleteArticle | src/services/articleService.ts:149-174 | result, articles and destroys requested are those of the first delete step |
| LegacyArticles.ArticleService.Like | src/services/articleService.ts:176-198 | result and articles are those of the like step |
| LegacyArticles.ArticleService.UnLike | src/services/articleService.ts:200-222 | result and articles are those of the unLike step |
| LegacyArticles.ArticleService.Block | src/services/articleService.ts:224-245 | result and articles are those of the block step |
| LegacyArticles.ArticleService.UnBlock | src/services/articleService.ts:247-268 | result and articles are those of the unBlock step |

## Left out

- Password hashing is an injective encoding, not bcrypt cryptography.
  - The salt is an input, standing for `genSalt`'s randomness.
  - bcrypt's truncation of passwords to 72 bytes is not modelled.
- JWT signing is not cryptographic.
  - A token records its secret, and verification compares secrets.
  - The clock is an input, in seconds.
  - jsonwebtoken's refusal to sign with an empty `JWT_SECRET` is not modelled.
- Malformed ObjectIds, which make Mongoose raise a cast error, are not modelled. Ids are plain strings compared for equality.
- Mongoose schema validation is not modelled:
  - required fields;
  - the `trim` on titles;
  - the `dob` date type.
- Fields left `undefined` in the register and login bodies are not modelled.
  - The form fields are strings.
  - Only the profile form's two passwords are optional.
- `JSON.parse` of the tags field is not modelled: tags arrive already parsed. A malformed tags string would be a caught fault.
- `fs.unlinkSync` of the uploaded temporary file is not modelled. It is local file I/O.
- Concurrency is not modelled. Each operation runs to completion:
  - the two `updateOne` writes of like and unLike could interleave with other requests;
  - so could the check-then-create of registration;
  - the listing's `Promise.all` runs its two queries concurrently.
- `populate("authorId")` is not modelled. A listed article carries its author's id, not the author document.
- Timestamps are not modelled. The `createdAt` sort is modelled as newest-created-first order.
- The `httpStatusCode` enumeration file is not part of this model.
  - The statuses are named.
  - Their numeric codes are the standard ones from RFC 9110.
- The upload to the image host is not modelled: its outcome is an input. The host's answer to a destroy request is an input too.
- A destroy that fails after a successful upload leaves the new upload orphaned in both article services. The model records only the destroy requests.
- The refactored `createPost` reads the author from `req.userId`. The request type that sets it is not part of this model, so the author is an input.
- Logging with `console.log`/`console.error` is not modelled.
- The article repository's own methods are not modelled separately. They are the collection operations they forward to.
- ArticleSpec.GetArticles: requires a positive limit, as the controller's default of 10 gives. A zero, negative or non-numeric `Number(limit)` is not modelled, nor is a fractional page (Mongo's `limit(0)` means no limit, and `Math.ceil(total / 0)` is Infinity).
- ArticleSpec.CeilDiv: requires a positive limit, for the same reason.
- ArticleServices.ArticleService.GetArticles: requires a positive limit, for the same reason.
- LegacyArticles.ArticleService.GetArticles: requires a positive limit, for the same reason.

## Findings

| source | as written | input that shows it | evidently intended | confidence | as-written member | corrected member |
|---|---|---|---|---|---|---|
| src/services/articleService.ts:84-92 | An edit with a file writes the new `image` but not `imageId`. The stored `imageId` still names the old asset, which was just destroyed. A later edit or delete destroys that id again, and the new asset is never destroyed. | an article with imageId "old", edited with an upload whose public id is "new", then deleted by its author | write the new public id together with the image, as src/services/implementation/article.service.ts:81-82 does | high; not executed | LegacyArticles.EditLeavesDestroyedImageId | ArticleSpec.EditTracksImage |
| src/services/articleService.ts:159-161 | The delete asks the host to destroy the stored `imageId` even when it is the schema default "". If the host rejects the empty id, the article cannot be deleted and the author gets a 500. | an article created without a file (imageId ""), deleted by its author, with the host refusing the empty public id | skip the destroy when there is no image, as src/services/implementation/article.service.ts:132-134 does | medium (depends on the host refusing an empty id); not executed | LegacyArticles.DeleteOfImagelessArticleAsksHost | ArticleSpec.DeleteIsOwnerGated |

In both rows the first service's class keeps the as-written step, because that is the code it models. The refactored service uses the corrected step.
