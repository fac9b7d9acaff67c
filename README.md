# vapor-til in Dafny

This is a model of the logic at the centre of the "Today I Learned" web app. It
is a Vapor 3 application that stores acronyms, their meanings, the users who
post them, and categories linked to acronyms many-to-many. The database is
modelled in memory as a `Database` object:

- one field per table (users, tokens, categories, acronyms);
- the acronym–category pivot, as a set of `(acronymID, categoryID)` pairs;
- the counter that hands out acronym ids.

A browser session is a `Session` object. It holds its key/value map and the user
it is bound to. Handlers that change state are methods that update these objects
in place. Queries, projections and validation are functions.

The model covers:

- **Category find-or-create-then-attach** (`Category.addCategory`) and the
  siblings relation between acronyms and categories.
- **Category reconciliation on acronym edit.** The handler diffs the submitted
  names against the attached ones. It adds each missing name and detaches the
  first attached category of each name that was removed. The plan is built with
  loops and then run in order.
  - Proved: after the edit, the attached names are exactly the submitted ones,
    provided the names attached before were distinct.
  - Proved: running the same edit again plans nothing, under the same
    distinct-names condition; with a duplicate name the second run detaches
    the next copy.
  - Proved: no other acronym's links change.
- **The anti-forgery token of the acronym forms.**
  - Mint on render.
  - Read, clear and compare on submit; a mismatch answers 400 before anything
    is saved.
  - A trace model of one session. It proves an accepted submit follows the
    render of that very token, and a replayed token is always rejected.
- **Registration**: the validation rules, the redirect after a failure, dropping
  an empty profile URL, storing the hash, and binding the session.
- **Session login and logout; Google sign-in.** Sign-in reuses the user whose
  username is the email, or creates exactly one. The status of the profile
  response is mapped to one of three outcomes.
- **Users and tokens.**
  - The public projection.
  - Basic and bearer authentication.
  - Token generation: the base64 text of 16 random bytes, bound to the user's id.
  - The token-issuing login and password hashing on user creation.
  - The admin seed migration.
- **The acronym API.**
  - Create and update.
  - Delete, search, first, sorted (a proved sorted permutation).
  - Attach and detach.
  - Which route groups protect which endpoints.

Hashing, password verification, `CryptoRandom` bytes and the percent-encoding of
validation messages are parameters. Asynchronous `Future` chains are sequential
steps.

## Model

| member | source | states |
|---|---|---|
| Store.FindUserByUsername | Sources/App/Models/User.swift:69-74 | the index of a row with that username, or none exactly when no row has it |
| Store.FindUserById | Sources/App/Controllers/UsersController.swift:50-53 | in a table whose ids are row positions, the lookup of id `id` succeeds exactly when `id` is a row position |
| Store.FindAcronymById | Sources/App/Controllers/AcronymsController.swift:92-94 | the index of the row carrying that id, or none exactly when no row carries it |
| Store.FindCategoryById | Sources/App/Controllers/AcronymsController.swift:164 | in an indexed category table, the lookup succeeds exactly for row positions |
| Store.Database.constructor | Sources/App/Models/User.swift:30-39 | an empty database satisfies the table invariants (ids are row positions, unique usernames, token and pivot references) |
| Store.Database.SaveNewUser | Sources/App/Models/User.swift:38 | a save fails, leaving the table as it was, exactly when the username is taken; otherwise the user is appended with the next id |
| Store.Database.SaveToken | Sources/App/Models/Token.swift:21 | a token is stored exactly when its userID is an existing user id (the foreign key) |
| Store.Database.SaveNewCategory | Sources/App/Models/Category.swift:40-42 | appends one category with that name and the next id |
| Store.Database.SaveNewAcronym | Sources/App/Controllers/AcronymsController.swift:85-89 | appends one acronym with the next id and advances the id counter |
| Store.Database.UpdateAcronym | Sources/App/Controllers/AcronymsController.swift:103-108 | the row with that id takes the new value; other rows stay |
| Store.Database.DeleteAcronym | Sources/App/Controllers/AcronymsController.swift:111-117 | removes exactly the row with that id, keeping the order of the rest |
| Store.Database.Attach | Sources/App/Models/Category.swift:36-37 | the pivot gains exactly that pair |
| Store.Database.Detach | Sources/App/Controllers/AcronymsController.swift:194-195 | the pivot loses exactly that pair |
| Store.Session.Get | Sources/App/Controllers/WebsiteController.swift:161 | reads a key: some value exactly when the key is present |
| Store.Session.Set | Sources/App/Controllers/WebsiteController.swift:163 | writes a key; writing nil removes it |
| Store.Session.Authenticate | Sources/App/Controllers/WebsiteController.swift:305 | the session is bound to that user id |
| Store.Session.Unauthenticate | Sources/App/Controllers/WebsiteController.swift:313 | the session is bound to no user |
| Text.LexLeTotal | Sources/App/Controllers/AcronymsController.swift:142 | any two strings are ordered one way or the other by the ascending sort's order |
| Text.LexLeTransitive | Sources/App/Controllers/AcronymsController.swift:142 | the sort order is transitive |
| Text.LexLeAntisymmetric | Sources/App/Controllers/AcronymsController.swift:142 | two strings ordered both ways are equal |
| Text.LexLeReflexive | Sources/App/Controllers/AcronymsController.swift:142 | every string is ordered before or equal to itself |
| Text.Decimal | Sources/App/Controllers/WebsiteController.swift:186 | the decimal text of an id in a redirect path is a non-empty run of digits with no leading zero |
| Text.DecimalRoundTrip | Sources/App/Controllers/WebsiteController.swift:186 | reading the digits back gives the id |
| Text.DecimalInjective | Sources/App/Controllers/WebsiteController.swift:264 | distinct ids give distinct redirect paths |
| Base64.Encode | Sources/App/Models/Token.swift:32 | the base64 text has 4 characters per started group of 3 bytes |
| Base64.DecodeEncode | Sources/App/Models/Token.swift:32 | decoding the base64 text of any byte string gives the bytes back |
| Base64.EncodeInjective | Sources/App/Models/Token.swift:29-32 | distinct byte strings have distinct base64 texts |
| Base64.SixteenByteText | Sources/App/Models/Token.swift:29-32 | the text of 16 bytes has 24 characters and ends in "==" |
| Base64.EncodeEndsInTwoPads | Sources/App/Models/Token.swift:32 | a length of 1 modulo 3 ends the text in two pad characters |
| Base64.DecodeGroup | Sources/App/Models/Token.swift:32 | one full group of 3 bytes decodes back to those bytes |
| Store.Filter | Sources/App/Controllers/AcronymsController.swift:125-128 | a filter query returns exactly the rows satisfying the condition, each as often as in the table |
| Store.FilterSnoc | Sources/App/Controllers/AcronymsController.swift:125-128 | a filter query keeps table order: an appended row is appended to the result exactly when it satisfies the condition |
| UserModel.ConvertToPublic | Sources/App/Models/User.swift:52-55 | the projection keeps id, name and username exactly |
| UserModel.PublicHidesPassword | Sources/App/Models/User.swift:17-25 | two users who differ only in password (or profile URL) have the same projection, so nothing of the hash shows |
| UserModel.ConvertFutureToPublic | Sources/App/Models/User.swift:58-66 | a failed lookup stays the same failure; a found user becomes its projection |
| UserModel.ConvertAllToPublic | Sources/App/Controllers/UsersController.swift:44-48 | listing users gives, position by position, the projection of each row |
| UserModel.BasicAuthenticate | Sources/App/Models/User.swift:69-74 | with unique usernames, authentication succeeds exactly when some row has that username and its stored password verifies; the result is that row |
| UserModel.PrepareAdminUser | Sources/App/Models/User.swift:87-100 | a failed hash is fatal and saves nothing; otherwise one user "Admin"/"admin" is saved whose password is the hash of "password", unless that username is taken |
| UserModel.RevertAdminUser | Sources/App/Models/User.swift:103-106 | revert changes nothing |
| TokenModel.Generate | Sources/App/Models/Token.swift:27-34 | generation fails with 500 exactly when the user has no id; otherwise the token is the base64 text of the bytes and its userID is the user's id |
| TokenModel.GeneratedTokenShape | Sources/App/Models/Token.swift:29-32 | a token from 16 bytes is 24 characters ending in "==" |
| TokenModel.DistinctRandomDistinctTokens | Sources/App/Models/Token.swift:29-32 | distinct random bytes give distinct token values |
| TokenModel.FindToken | Sources/App/Models/Token.swift:44-47 | the first token row whose `token` field equals the bearer text, or none when no row does |
| TokenModel.BearerAuthenticate | Sources/App/Models/Token.swift:37-47 | a bearer resolves, through the first row with that token text, to the user its userID names, and only to a user of the table |
| TokenModel.IssuedTokenAuthenticates | Sources/App/Models/Token.swift:37-47 | a newly stored token with a fresh value resolves to its user |
| Auth.TokenAuthMiddleware | Sources/App/Controllers/AcronymsController.swift:42 | only a bearer header can authenticate, and it does so exactly through bearer lookup |
| Auth.BasicAuthMiddleware | Sources/App/Controllers/UsersController.swift:20-22 | only a basic header can authenticate, and it does so exactly through basic authentication |
| Auth.RequireAuthenticated | Sources/App/Controllers/AcronymsController.swift:83 | the authenticated user, or 401 when there is none |
| Auth.SessionUser | Sources/App/Controllers/WebsiteController.swift:36-37 | the session restores the user with the bound id, and only a user of the table |
| Auth.ProtectionOf | Sources/App/Controllers/AcronymsController.swift:42-62 | the table-changing API endpoints are exactly those behind token or basic authentication; basic authentication guards exactly token login; the login redirect guards exactly the site's create, edit and delete routes |
| Auth.Admit | Sources/App/Controllers/WebsiteController.swift:36-56 | a guarded group turns a request away (401, or a redirect to /login) exactly when its middleware finds no user; otherwise the handler receives the user that group's middleware resolves (bearer lookup, basic authentication or the session user) |
| Auth.ApiChangesNeedCredentials | Sources/App/Controllers/AcronymsController.swift:42-62 | every acronym change and user creation runs only with a bearer token that resolves, else 401, and then runs as that token's user; token login sees a user exactly when basic credentials verify |
| Auth.SiteFormsNeedSession | Sources/App/Controllers/WebsiteController.swift:55-66 | the site's create, edit and delete routes redirect to /login without a session user |
| AcronymsApi.FetchAcronym | Sources/App/Controllers/AcronymsController.swift:92-94 | the row with the path's id, or 404 exactly when no row has it |
| AcronymsApi.FetchCategory | Sources/App/Controllers/AcronymsController.swift:164 | the category with the path's id, or 404 |
| AcronymsApi.Search | Sources/App/Controllers/AcronymsController.swift:120-128 | 400 exactly when there is no term; otherwise exactly the rows whose short or long form equals the term, each as often as in the table |
| AcronymsApi.SearchSnoc | Sources/App/Controllers/AcronymsController.swift:125-128 | search results keep table order: a row appended to the table is appended to the result exactly when it matches |
| AcronymsApi.GetFirst | Sources/App/Controllers/AcronymsController.swift:130-139 | the first row when the table is non-empty, 404 exactly when it is empty |
| AcronymsApi.Insert | Sources/App/Controllers/AcronymsController.swift:142 | inserting adds exactly that row to the multiset of rows |
| AcronymsApi.InsertSorted | Sources/App/Controllers/AcronymsController.swift:142 | inserting into a sorted list keeps it sorted by short form |
| AcronymsApi.SortByShort | Sources/App/Controllers/AcronymsController.swift:141-143 | the sorted listing is in ascending order of short form and is a permutation of the table |
| AcronymsApi.CreateHandler | Sources/App/Controllers/AcronymsController.swift:79-90 | 401 without a user; otherwise one row with the body's fields, the authenticated user as owner and the next id is appended |
| AcronymsApi.UpdateHandler | Sources/App/Controllers/AcronymsController.swift:96-109 | 404 for an unknown id, then 401 without a user; otherwise that row takes the body's short and long and the user as owner, and keeps its id |
| AcronymsApi.DeleteHandler | Sources/App/Controllers/AcronymsController.swift:111-118 | 404 for an unknown id; otherwise exactly that row is removed and the answer is 204 |
| AcronymsApi.AddCategoriesHandler | Sources/App/Controllers/AcronymsController.swift:157-170 | 404 when either id is unknown; otherwise the pivot gains exactly that pair and the answer is 201 |
| AcronymsApi.RemoveCategoriesHandler | Sources/App/Controllers/AcronymsController.swift:185-198 | 404 when either id is unknown; otherwise the pivot loses exactly that pair and the answer is 204 |
| UsersApi.GetHandler | Sources/App/Controllers/UsersController.swift:50-53 | the projection of the user with that id, or 404 exactly when there is none |
| UsersApi.CreateHandler | Sources/App/Controllers/UsersController.swift:34-41 | the stored password is the hash of the submitted one; the answer is the saved user's projection; a failed hash or a taken username is 500 and saves nothing |
| UsersApi.LoginHandler | Sources/App/Controllers/UsersController.swift:67-74 | 401 without a user; otherwise exactly one token, bound to that user's id, is stored, and with a fresh value it authenticates as that user |
| CategoryModel.FirstNamed | Sources/App/Models/Category.swift:30-32 | the first category row with exactly that name, or none exactly when no row has it |
| CategoryModel.NameSet | Sources/App/Controllers/WebsiteController.swift:235-237 | the set of names occurring in a list of categories |
| CategoryModel.AttachedCategories | Sources/App/Controllers/AcronymsController.swift:173-182 | exactly the category rows linked to that acronym by the pivot, each as often as in the table |
| CategoryModel.AttachedCategoriesSnoc | Sources/App/Controllers/AcronymsController.swift:177-181 | the linked categories keep table order: an appended row is appended to the result exactly when it is linked |
| CategoryModel.CategoryAcronyms | Sources/App/Models/Category.swift:20-22 | exactly the acronym rows linked to that category by the pivot, each as often as in the table |
| CategoryModel.CategoryAcronymsSnoc | Sources/App/Models/Category.swift:20-22 | the linked acronyms keep table order: an appended row is appended to the result exactly when it is linked |
| CategoryModel.SiblingsSymmetric | Sources/App/Models/Category.swift:20-22 | category c lists acronym a exactly when a's categories include c |
| CategoryModel.AttachedNamesOfQuery | Sources/App/Controllers/WebsiteController.swift:233-237 | the names of the rows `acronym.categories` returns are the acronym's attached names |
| CategoryModel.AddReusesExisting | Sources/App/Models/Category.swift:30-38 | when a row has that name, no row is created and the first such row is attached |
| CategoryModel.AddCreatesOne | Sources/App/Models/Category.swift:39-48 | when no row has that name, exactly one row with that name is saved and attached |
| CategoryModel.AddExtendsNames | Sources/App/Models/Category.swift:24-50 | afterwards the acronym's attached names are the old ones plus that name; no existing row changes; only pivot rows of that acronym are added |
| CategoryModel.ApplyOpsConcat | Sources/App/Controllers/WebsiteController.swift:243-263 | running two lists of operations one after the other is running their concatenation |
| CategoryModel.ApplyOp | Sources/App/Models/Category.swift:24-50 | one add or detach for an acronym keeps every existing category row, creates at most one, and changes no other acronym's pivot rows |
| CategoryModel.ApplyOps | Sources/App/Controllers/WebsiteController.swift:243-263 | running the operations in order keeps every existing category row and changes no other acronym's pivot rows |
| CategoryModel.ApplyOpsLocal | Sources/App/Controllers/WebsiteController.swift:243-263 | after any list of adds and detaches, category ids are still row positions and every pivot row names an existing category |
| CategoryModel.AddCategory | Sources/App/Models/Category.swift:24-50 | the new tables are exactly those of the find-or-create-then-attach step |
| Reconciliation.SubmittedNames | Sources/App/Controllers/WebsiteController.swift:238 | the set of submitted names; a missing list is the empty set |
| Reconciliation.NamesSnoc | Sources/App/Controllers/WebsiteController.swift:245-260 | appending an operation adds its name to the added or to the detached names |
| Reconciliation.NameOfOp | Sources/App/Controllers/WebsiteController.swift:245-260 | each operation's name is among the added or detached names |
| Reconciliation.SharedNamesUntouched | Sources/App/Controllers/WebsiteController.swift:240-241 | a name both attached and submitted gets no add and no detach |
| Reconciliation.EmptyPlan | Sources/App/Controllers/WebsiteController.swift:240-241 | when the attached names equal the submitted ones, the plan is empty |
| Reconciliation.PlanReconciliation | Sources/App/Controllers/WebsiteController.swift:235-260 | the adds are exactly submitted minus attached, the detaches exactly attached minus submitted, each detaching the first attached category of its name; adds come first; a missing list detaches every attached name |
| Reconciliation.RunOps | Sources/App/Controllers/WebsiteController.swift:243-263 | the new tables are those of running the operations in order |
| Reconciliation.AddStep | Sources/App/Models/Category.swift:24-50 | adding a name not yet attached keeps the attached names distinct |
| Reconciliation.DetachStep | Sources/App/Controllers/WebsiteController.swift:252-259 | detaching a planned category removes exactly its name from the attached names |
| Reconciliation.AddsPhase | Sources/App/Controllers/WebsiteController.swift:245-250 | the adds of a plan attach exactly the added names and keep names distinct |
| Reconciliation.DetachPhase | Sources/App/Controllers/WebsiteController.swift:252-260 | the detaches of a plan remove exactly the detached names |
| Reconciliation.AddPrefixLength | Sources/App/Controllers/WebsiteController.swift:245-260 | the length of the run of adds at the front of a plan |
| Reconciliation.SplitAtDetaches | Sources/App/Controllers/WebsiteController.swift:245-260 | a plan is its adds followed by its detaches, with the names divided accordingly |
| Reconciliation.SplitKeepsRules | Sources/App/Controllers/WebsiteController.swift:252-259 | both halves of a plan keep distinct names, and the detaches keep their first-named category |
| Reconciliation.PlannedDetachIsDetachable | Sources/App/Controllers/WebsiteController.swift:252-259 | a category found by name in the freshly read list is still attached after the adds |
| Reconciliation.ReconcileMatchesSubmitted | Sources/App/Controllers/WebsiteController.swift:233-264 | after the plan runs, the acronym's attached names equal the submitted set; no category row and no other acronym's link changes |
| Reconciliation.RerunPlansNothing | Sources/App/Controllers/WebsiteController.swift:240-241 | running the same edit again plans zero operations |
| Reconciliation.DuplicateNameOutlivesRemoval | Sources/App/Controllers/WebsiteController.swift:252-259 | with two attached categories of one name, removing that name leaves it attached |
| Reconciliation.DuplicateNameRerunPlansDetach | Sources/App/Controllers/WebsiteController.swift:233-264 | in that state, submitting no names again gives a non-empty plan that detaches the second copy |
| Csrf.MintToken | Sources/App/Controllers/WebsiteController.swift:147-156 | the token is the base64 text of the random bytes, stored under CSRF_TOKEN over any earlier one, and handed to the form |
| Csrf.ConsumeToken | Sources/App/Controllers/WebsiteController.swift:161-167 | the stored token is cleared whatever the outcome; acceptance holds exactly when a token was stored and equals the supplied one |
| Csrf.TokenOrigin | Sources/App/Controllers/WebsiteController.swift:154 | a stored token was minted by a render that no later render or submit replaced |
| Csrf.AcceptedSubmitFollowsRender | Sources/App/Controllers/WebsiteController.swift:161-167 | an accepted submit follows the render of exactly the token it supplies |
| Csrf.NoTokenUntilRender | Sources/App/Controllers/WebsiteController.swift:163 | after a submit no token is stored until the next render |
| Csrf.ReplayRejected | Sources/App/Controllers/WebsiteController.swift:161-167 | a second submit without a new render is rejected whatever it supplies |
| Registration.Validate | Sources/App/Controllers/WebsiteController.swift:455-478 | validation passes exactly when name is ASCII, username is alphanumeric of length at least 3, password has length at least 8 and equals the confirmation; each failed rule is reported once |
| Registration.FailureRedirect | Sources/App/Controllers/WebsiteController.swift:335-343 | the register page with the encoded reason as message, or "Unknown+error" |
| Registration.NormalizeTwitterURL | Sources/App/Controllers/WebsiteController.swift:348-352 | a missing or empty profile URL is stored as none; any other is kept |
| Imperial.ClassifyProfileResponse | Sources/App/Controllers/ImperialController.swift:72-84 | 200 decodes the profile, 401 redirects to /login-google, any other status is 500 |
| Imperial.ResolveOrProvision | Sources/App/Controllers/ImperialController.swift:24-41 | the bound row exists and its username is the email; the table only grows, by at most one row |
| Imperial.ResolveOrProvisionEffect | Sources/App/Controllers/ImperialController.swift:24-44 | an existing user with username = email is reused with no user created; otherwise exactly one user (email, name, empty password) is appended; the bound user's username is the email |
| Imperial.RepeatedCallbackAddsNoUser | Sources/App/Controllers/ImperialController.swift:24-44 | a second callback with the same email adds no user and binds the same one |
| Imperial.ProcessGoogleLogin | Sources/App/Controllers/ImperialController.swift:17-47 | the users table and the bound user are those of resolve-or-provision, and the answer redirects to "/" |
| Imperial.GoogleCallback | Sources/App/Controllers/ImperialController.swift:20-22 | a profile response that does not classify as a profile fails as classified and changes nothing |
| Website.IndexPage | Sources/App/Controllers/WebsiteController.swift:70-87 | no acronym list exactly when the table is empty; logged in exactly when the session has a user; the cookie banner exactly when no `cookies-accepted` cookie is sent |
| Website.AttachNames | Sources/App/Controllers/WebsiteController.swift:179-187 | find-or-create-then-attach of each listed name, in order, adds exactly the listed names to the acronym, keeps every category row, and changes no other acronym's links |
| Website.CreateAcronymPost | Sources/App/Controllers/WebsiteController.swift:158-190 | the token is cleared; a mismatch is 400 and saves nothing; otherwise the acronym is saved for the session user, its attached names become the submitted names, and the answer redirects to its page |
| Website.EditAcronymForm | Sources/App/Controllers/WebsiteController.swift:192-207 | the token is minted even for an unknown acronym (then 404); the form gets the acronym, its attached categories and the token |
| Website.EditAcronymPost | Sources/App/Controllers/WebsiteController.swift:209-268 | 404, then 401, leave the session as it was; then the token is cleared, and a mismatch is 400 before the save; a success updates the row and, when the old names were distinct, makes the attached names the submitted ones without touching other acronyms |
| Website.DeleteAcronymPost | Sources/App/Controllers/WebsiteController.swift:270-273 | 404 for an unknown id; otherwise exactly that row is removed and the answer redirects home |
| Website.LoginPost | Sources/App/Controllers/WebsiteController.swift:289-308 | credentials that verify bind the session to that user and redirect home; otherwise redirect to /login?error with the session untouched |
| Website.Logout | Sources/App/Controllers/WebsiteController.swift:311-316 | the session is bound to no user and the answer redirects home |
| Website.RegisterPost | Sources/App/Controllers/WebsiteController.swift:328-364 | a failed validation redirects to the register page and saves nobody; a failed hash or taken username is 500; otherwise the user is saved with the hash and the normalised URL, and the session is bound to it |

## Left out

- Leaf rendering and the page contexts are left out. The acronym, user, category, all-users and all-categories pages, and the login and register forms, only render; their queries are `AttachedCategories`, `CategoryAcronyms` and the table fields.
- Read-only API routes have no member of their own. Listing acronyms is the `acronyms` table. Fetching one is `AcronymsApi.FetchAcronym`. An acronym's user (`Sources/App/Controllers/AcronymsController.swift:146-153`) is `Store.FindUserById` on the acronym's `userID`. An acronym's categories is `CategoryModel.AttachedCategories`. A user's acronyms (`Sources/App/Controllers/UsersController.swift:56-64`) is `Store.Filter` on `userID`.
- `configure.swift`, `routes.swift` and the twitter migration are configuration. The migration is reflected only as the optional `twitterURL` field.
- BCrypt, `BCryptDigest` and `CryptoRandom` are not modelled as cryptography. They are the parameters `hash`, `verify` and `random`.
- UserModel.BasicAuthenticate: `verify` is a total function, so an error thrown by the BCrypt verifier (for a malformed stored hash) is not modelled.
- TokenModel.Generate: `random` is a total parameter, so an error thrown by `CryptoRandom().generateData` is not modelled, here or in `Csrf.MintToken`.
- The HTTP client call to Google, the OAuth redirect and code exchange, and the callback URL environment lookup are network plumbing. Only the status-to-outcome mapping is kept.
- Percent-encoding of the validation reason is a Foundation call. It is the parameter `encodeReason`.
- Asynchronous futures become sequential steps. The add and detach futures of an edit are flattened in the source. The model runs them in plan order: all adds, then all detaches.
- Concurrency is left out: simultaneous requests, races between find and create, and conflict recovery.
- Request decoding is assumed to succeed, and handlers receive the decoded body.
- A posted body carrying an id, which turns a create into an update, is left out.
- Users and tokens have UUID ids in the source. The model uses the user's row position, and users are never deleted. Acronym ids come from a counter, and category ids are row positions.
- The pivot's schema is not shown. The model assumes neither a unique pair constraint nor a cascading delete. The pivot is a set, so attaching the same pair twice stores one row. Deleting an acronym keeps its pivot rows; with a restricting foreign key the source's delete would fail instead.
- `ascii` and `alphanumeric` use ASCII letters and digits. Foundation's alphanumeric set also includes non-ASCII letters and digits.
- `.count` is the number of characters in the string. Swift counts grapheme clusters, which can differ for combining sequences.
- `LexLe` compares by code point. That matches PostgreSQL only under the C collation.
- Reconciliation.ReconcileMatchesSubmitted: the promise that the attached names equal the submitted set requires distinct names among the acronym's categories beforehand. Category names carry no unique constraint. Removing a name detaches only the first attached category with that name, so a duplicate keeps the name attached (`DuplicateNameOutlivesRemoval`).
- Website.EditAcronymPost: the attached-names promise carries the same distinct-names hypothesis.
- Website.AttachNames: the model runs the adds of a create form in list order, so a name listed twice creates one category row. The source starts every find-or-create before flattening them, so both lookups can miss and two rows with that name can be saved and attached.
- Reconciliation.RerunPlansNothing: requires distinct attached names; with a duplicate, the second run detaches the next copy (`DuplicateNameRerunPlansDetach`).
- Google sign-in stores an empty password, as the code does, even though a placeholder password might be expected.
- The edit handler checks 404 and then 401 before it reads and clears the session token. It clears the token on every path only in the create handler. The code's order is followed.
- `authenticateSession` throws for a user without an id. Every user in the modelled table has one, so `Website.LoginPost` and `Website.RegisterPost` have no such error path.
