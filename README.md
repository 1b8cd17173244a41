# Saved items, catalog and schema of the fashion try-on backend

This project models the relational store of a Django REST backend for a
virtual try-on clothing catalog, as the API's views use it. Users bookmark
("save") clothes items; the catalog groups clothes by category; experiments
record try-on photos, with per-user history and feedback ratings.

- `models.dfy` (module `Models`): one record type per model (`Category`,
  `Clothes`, `Saved`, `Experiment`, `History`, `Feedback`, plus Django's
  `User` reduced to a username and a credential). The whole database is one
  value, `Db`: one map per table from primary key to row, plus the sequence
  that hands out keys for new saved rows. `Valid` collects the schema
  constraints: every foreign key resolves, `unique_together` on
  `(user, clothes)` holds, and the sequence is ahead of every saved key. The
  `on_delete=CASCADE` rules are functions from the database to the database
  after the delete. The lemmas say which rows each delete removes and that
  it keeps `Valid`. A further lemma shows that deleting a category equals
  deleting its clothes one by one, in any order, and then the category row.
  Feedback's `rate` has the type `PositiveSmall` (0 to 32767; zero admitted).
- `requests.dfy` (module `Requests`): the request as a view sees it. This
  covers a JSON body as `json.loads` yields it and Python truthiness
  (`if not clothes_id`). It also covers the `int()` coercion an integer key
  column applies to a lookup value, and which values make it raise.
- `views.dfy` (module `Views`): each view as a function. A writing view
  (`SavedViewSet.create`, `unsave`, `ChangePasswordView.post`) maps the
  database and the request to an `Outcome`: an HTTP status and the new
  database. A read-only view (`get_queryset`, `ClothesListView.get`/`get_item`,
  `clothes_by_category`, `HistoryView.get`) maps them to a `Reply`: a status
  and the rows returned. An exception a view does not catch is status 500
  with the store unchanged.
- `view_properties.dfy` (module `ViewProperties`): each outcome of `create`
  and `unsave` with its status and its exact effect; isolation between
  users; unsave undoing a save; lookups; the password change.
- `store.dfy` (module `Database`): class `Store`, whose fields are the
  tables. Its methods update them in place, and each method's frame names
  only the tables it may touch. Each method's contract ties the new tables
  and the status to the function in `Views` or `Models`, and keeps `Valid`.

Password hashing is abstract: a usable credential is `Hashed(raw)` for
exactly one raw password, `check_password` compares with it, and
`set_password` stores `Hashed(new)`. The serializer's `is_valid()` is
abstract too: `PasswordForm` is either rejected or carries the two
passwords. The authenticated requester is a key of the users table. The
permission layer guarantees this before the view runs, so it appears as a
precondition.

Some of the code's behaviour may be unexpected; the model keeps it as written:
- `rate` admits 0.
- A duplicate save answers 400, not 409.
- The by-category listing and the history listing set status 201.
- A non-numeral `id` in `ClothesListView.get` and a body with no `"clothes"`
  member in `create` raise uncaught exceptions (500), not 404 or 400.
- Category names are not required to be non-empty.
- Category -> Clothes and Experiment -> History/Feedback cascade as well.

## Model

| member | source | states |
|---|---|---|
| Models.SavesOfAtMostOne | api/models.py:28-29 | under `unique_together`, a (user, clothes) pair has at most one saved row, and a row found for it is the only one |
| Models.DeleteClothesRemovesDependents | api/models.py:25 | deleting a clothes row removes that row and exactly the saved rows that reference it; every other row and table is unchanged |
| Models.DeleteCategoryRemovesDependents | api/models.py:17-25 | deleting a category removes that row, exactly its clothes, and exactly the saved rows of those clothes; every other category, clothes row and saved row is unchanged, as are users, experiments, history, feedback and the key sequence |
| Models.DeleteUserRemovesDependents | api/models.py:24-45 | deleting a user removes that row and exactly that user's saved and history rows; every other user row (credential included) is unchanged, as are the catalog, experiments, feedback and the key sequence |
| Models.DeleteExperimentRemovesDependents | api/models.py:46-51 | deleting an experiment removes that row and exactly the history and feedback rows that reference it; every other experiment is unchanged, as are users, catalog, saves and the key sequence |
| Models.RemoveClothesKeepsValid | api/models.py:17-29 | removing any set of clothes with their saves keeps every foreign key and the uniqueness constraint |
| Models.DeleteClothesKeepsValid | api/models.py:25 | the clothes cascade keeps the schema constraints |
| Models.DeleteCategoryKeepsValid | api/models.py:17 | the category cascade keeps the schema constraints |
| Models.DeleteUserKeepsValid | api/models.py:44-45 | the user cascade keeps the schema constraints |
| Models.DeleteExperimentKeepsValid | api/models.py:50-51 | the experiment cascade keeps the schema constraints |
| Models.DeleteEachClothesIsRemoval | api/models.py:25 | deleting clothes one at a time, in any order, removes the same clothes and saved rows as removing them all at once |
| Models.DeleteCategoryIsClothesByClothes | api/models.py:13-17 | deleting a category equals deleting each of its clothes in turn (each cascading to its saves), then the category row |
| Requests.Subscript | api/views.py:111 | `data["clothes"]` yields a value exactly when the body is an object that has the key, and that value is the member |
| Requests.KeyNumeralReadsBack | api/views.py:128-132 | a key written in decimal in the URL is read back by `int()` as that key |
| Views.SavedQueryset | api/views.py:98-102 | the queryset holds every saved row of the requesting user, unchanged, and no row of any other user |
| Views.GetClothes | api/views.py:67-91 | a 200 answer lists only rows of the clothes table, unchanged; any other status lists nothing |
| Views.CategoryClothes | api/views.py:227 | the by-category filter returns exactly the clothes whose category is the given one |
| Views.HistoryOf | api/views.py:206-210 | the view hands `Response` status 201 and every history row of the requesting user and no other (what the renderer then makes of them is under Left out) |
| Views.SetPassword | api/views.py:188 | the stored credential accepts the new password and no other |
| ViewProperties.CreateSavedAddsOneRow | api/views.py:117-120 | saving an existing item not yet saved by the user answers 201, adds exactly one row under a fresh key, and leaves every other table as it was |
| ViewProperties.CreateSavedUnknownClothes | api/views.py:118-122 | saving a clothes key that does not exist answers 404 and leaves the store unchanged |
| ViewProperties.CreateSavedDuplicate | api/views.py:119-124 | saving an already saved pair answers 400, leaves the store unchanged, and the pair still has exactly one row |
| ViewProperties.CreateSavedMalformedBody | api/views.py:106-115 | a body that raises `JSONDecodeError` or a falsy clothes id answers 400 whatever the store holds; a body on which `json.loads` raises anything else (invalid UTF-8, too deep nesting), a missing key or a non-integer id is an uncaught error (500); the store is unchanged |
| ViewProperties.DecodeSaveRequestCases | api/views.py:106-118 | the body decodes to each request kind exactly under the conditions the view checks, in the view's order |
| ViewProperties.CreateSavedKeepsValid | api/views.py:117-124 | create keeps foreign keys, uniqueness and the key sequence |
| ViewProperties.CreateSavedTwice | api/views.py:117-124 | saving the same item twice: the second call answers 400 and exactly one row exists for the pair |
| ViewProperties.UnsaveRemovesOneRow | api/views.py:131-134 | unsaving a saved item answers 204 and removes exactly that row; other rows, including other users' saves of the item, are untouched |
| ViewProperties.UnsaveMissing | api/views.py:131-136 | unsaving with no key, or an item the user has not saved, answers 404 and leaves the store unchanged |
| ViewProperties.UnsaveNeverAmbiguous | api/views.py:132 | under the uniqueness constraint the lookup never finds several rows: a numeral key answers 204 or 404, never an uncaught error |
| ViewProperties.UnsaveKeepsValid | api/views.py:126-136 | unsave keeps the schema constraints |
| ViewProperties.UnsaveUndoesCreate | api/views.py:104-136 | unsaving the item just saved restores every table; only the key sequence has advanced |
| ViewProperties.CreateSavedIsolated | api/views.py:98-120 | a save by one user leaves every other user's saved queryset unchanged |
| ViewProperties.UnsaveIsolated | api/views.py:98-136 | an unsave by one user leaves every other user's saved queryset unchanged |
| ViewProperties.SaveListUnsaveScenario | api/views.py:98-136 | a user with no saves who saves item k lists exactly one row, for k; after unsaving k the list is empty |
| ViewProperties.GetClothesByKey | api/views.py:67-91 | an existing key answers 200 with that one item; a missing key answers 404; no id or an empty one answers 200 with the whole catalog |
| ViewProperties.ClothesByCategoryByKey | api/views.py:224-229 | the by-category listing answers 201 exactly when the category exists, with exactly its clothes rows, unchanged; otherwise 404 with nothing |
| ViewProperties.CategoryListingsPartitionCatalog | api/views.py:224-229 | in a valid store the listings of two different categories are disjoint, and a clothes key is in the catalog exactly when some existing category lists it; each row is listed under its own category |
| ViewProperties.WrongPasswordKeepsCredential | api/views.py:183-193 | a rejected form or a wrong old password answers 400 and leaves the store unchanged |
| ViewProperties.ChangePasswordReplacesCredential | api/views.py:185-191 | with the right old password the answer is 200; the credential then accepts the new password and not a different old one; no other user or table changes |
| ViewProperties.ChangePasswordKeepsValid | api/views.py:177-193 | the password change keeps the schema constraints |
| Database.Store.constructor | api/models.py:6-53 | a store holds the given tables, which satisfy the schema constraints |
| Database.Store.CreateSaved | api/views.py:104-124 | in place, touching only the saved table and its key sequence: the status and new tables are those of `Views.CreateSaved`; constraints kept |
| Database.Store.Unsave | api/views.py:126-136 | in place, touching only the saved table: status and new table as `Views.Unsave`; constraints kept |
| Database.Store.ChangePassword | api/views.py:177-193 | in place, touching only the users table: status and new table as `Views.ChangePassword`; constraints kept |
| Database.Store.DeleteClothes | api/models.py:25 | in place, touching only the clothes and saved tables: the result of the clothes cascade; constraints kept |
| Database.Store.DeleteCategory | api/models.py:17 | in place, touching only categories, clothes and saved: the result of the category cascade; constraints kept |
| Database.Store.DeleteUser | api/models.py:24-45 | in place, touching only users, saved and history: the result of the user cascade; constraints kept |
| Database.Store.DeleteExperiment | api/models.py:46-51 | in place, touching only experiments, history and feedback: the result of the experiment cascade; constraints kept |

## Left out

- Registration, JWT issuance, refresh-token blacklisting and session logout (`AuthView`, api/views.py:21-56). These call into the JWT and auth libraries, whose code is not part of this model.
- Bug-report email (`BugReportView`, api/views.py:139-169): SMTP, TLS and network I/O.
- File download (`DownloadView`, api/views.py:232-247): it opens a file from disk.
- The framework-generated CRUD of `UserViewSet`, `ExperimentViewSet`, `FeedBackViewSet` and `CategoriesViewSet`, the `list`, `retrieve`, `update`, `partial_update` and `destroy` that `SavedViewSet` inherits over its `get_queryset` (api/views.py:94), and `ClothesListView.post`. These are library behaviour driven by serializers, which are not part of this model.
- Serializer validation and the JSON shape of response bodies. A `Reply` carries the rows a view returns, not their serialized form. `HistoryView.get` hands the raw queryset to the renderer without a serializer.
- Authentication and permission checks (`IsAuthenticated`). The requester is a precondition: a key of the users table.
- Password hashing internals, including the re-hash that `check_password` may store when the hasher is outdated.
- Concurrency: the race between two duplicate saves. Uniqueness is a store invariant plus the 400 branch, not a database transaction.
- `auto_now_add` dates and `ImageField` upload paths (clock and filesystem). Image fields are plain strings.
- `CharField(max_length=100)` length limits, and the `__str__` methods.
- Integer width: keys are unbounded integers, so the overflow a database raises on an out-of-range key is not modelled.
- JSON numbers with a fraction or an exponent. `int()` on strings with surrounding whitespace, digit-group underscores or non-ASCII digits, which Python also accepts.
- Database.Store.CreateSaved: returns only the status. The serialized row of the 201 body is the new row of the saved table.
- Views.HistoryOf: gives the status and rows the view passes to `Response`, not what reaches the client. The JSON renderer has no encoding for model instances, so a user with at least one history row most likely gets a 500 (`TypeError` while rendering); only an empty history renders as 201 `[]`. The renderer is library code and is not part of this model.
- Views.CreateSaved: on a duplicate save the key sequence is left as it was. A PostgreSQL sequence would still advance on the failed insert.
