# Bookworm backend: sessions, subscriptions, categories and books in Dafny

This project models four stateful pieces of an online bookstore backend and
proves what their code and tests promise.

- **Session store** (`sessions.dfy`, `user_codec.dfy`). A `Session` class over
  an expiring key/value store (a `map` from key to payload and expiry instant,
  plus the store's clock). `Create` writes the user's JSON text under
  `<app>:session:<id>` with a time to live of 86400 seconds. `GetById` reads it
  back and gives null (`None`) for a key that is absent, expired, empty or
  unparsable. `Refresh` rewrites the payload and restarts the time to live.
  `Delete` removes the key. The user record is written as
  `JSON.stringify(user, null, 2)` writes it: one member per line, indented by
  two spaces, with JSON's string escapes. Two facts are proved about the
  reader: it gives back every record it is handed the text of, and it
  accepts nothing else (only the text of `u` reads as `u`).
- **Subscription plans and ledger** (`subscriptions.dfy`). A
  `SubscriptionService` class holding the plan table (a sequence in creation
  order) and the `user_subscription` rows (a sequence of entries with
  `userId`, `subscriptionPlanId`, `subscribedAt`, `expiresAt`). The class
  invariant `Valid()` says: one row per customer, plan ids and names are
  distinct, and no row references a missing plan. Plan create, edit and
  delete are for administrators. Deleting a plan that n > 0 customers hold
  fails with a message carrying n. A second subscribe and an unsubscribe
  without a subscription are refused.
- **Category table** (`categories.dfy`, `pagination.dfy`). A
  `CategoryService` class with create (unique name and SEO URL), a detailed
  read (the category with its parent and children), patch (fields, set or
  clear the parent) and a paginated listing. Pagination is a pure function
  whose defaults are page 1 and page size 25.
- **Book service** (`books.dfy`). A `BookService` class over a keyed table of
  records: lookup, create, edit, remove and the per-category listing. `Edit`
  merges the patch with the `for...in` loop of the source. Its guard
  `typeof bookData[key] !== undefined` compares a type name with the value
  `undefined`, so it is always true. Every own key of the patch is written,
  including keys whose value is `undefined`.

Shared modules: `wrappers.dfy` holds Option and Result, `access.dfy` holds
roles, identities and the route guards (401 for no identity, 403 for a
customer on an admin route), `http.dfy` holds the status codes and the
"Validation failed." text the services share, `decimal.dfy` renders integers in decimal and reads decimal text back, and
`seqs.dfy` finds the last row satisfying a test, filters rows in table order, and removes one row from a sequence.

The subscription service's own source is not part of this model. Its
behaviour is the one `src/modules/commerce/__tests__/subscription.test.ts`
asserts, with the entry fields of `src/models/UserSubscription.ts`. The
category service is modelled from `src/modules/catalog/__tests__/category.test.ts`
in the same way.

Nothing the subscription tests assert filters `user_subscription` rows by
`expiresAt`. The model therefore counts every row when a plan is deleted,
and checks every row when a customer subscribes.

## Model

| member | source | states |
|---|---|---|
| `Sessions.SessionKey` | src/services/session.ts:33 | the key is the application's `:session:` prefix followed by the session id itself, so the id can be read back off the key |
| `Sessions.SessionKeyInjective` | src/services/session.ts:33 | within one application, two session ids with the same key are the same id |
| `Sessions.ReadSession` | src/services/session.ts:44-56 | getById returns user `v` exactly when the live payload under the session's key is the encoding of `v`, and null otherwise (absent, expired, empty or unparsable payload) |
| `Sessions.Session.GetById` | src/services/session.ts:44-56 | the method returns exactly `ReadSession` of the current store and clock: `Some(v)` iff the live payload is `Encode(v)` |
| `Sessions.Session.Create` | src/services/session.ts:28-42 | returns the fresh id joined with the input user; the store gains the user's encoding under `<app>:session:<id>`, expiring 86400 s from now; every other key is unchanged |
| `Sessions.Session.Refresh` | src/services/session.ts:58-65 | the key of the same id now holds the new user's encoding and expires a full duration from now; nothing else changes |
| `Sessions.Session.Delete` | src/services/session.ts:67-69 | the key is removed whether or not it was present; returns 1 if a live key was removed and 0 otherwise |
| `Sessions.ReadAfterCreate` | src/services/session.ts:28-56 | after create, reading the id gives the user at every instant before now + 86400 and null from then on |
| `Sessions.OtherSessionsUnchanged` | src/services/session.ts:32-68 | writing or deleting one session id leaves what every other id of the application reads unchanged |
| `Sessions.DeleteIdempotent` | src/services/session.ts:67-69 | after delete the key is absent and the session reads as null; deleting twice gives the same store as deleting once |
| `Sessions.RefreshOutlivesOriginalExpiry` | src/services/session.ts:58-64 | a session refreshed later than it was written is still readable, as the new user, at its original expiry instant |
| `Sessions.DefaultDurationIsOneDay` | src/services/session.ts:15-16 | the default duration "1d" in milliseconds divided by 1000 is 86400 seconds |
| `UserCodec.Encode` | src/services/session.ts:30 | the stored text opens with `{`, a newline and the two-space indent of the first member, and ends with `}` |
| `UserCodec.Decode` | src/services/session.ts:52 | only text that opens as such an indented object reads as a user |
| `UserCodec.DecodeEncode` | src/services/session.ts:30-52 | parsing the stored text of a user gives back that user |
| `UserCodec.EncodeDecode` | src/services/session.ts:51-55 | the model's reader accepts only the writer's text: any text that reads as a user is exactly that user's stored text (`JSON.parse` is more lenient, see "Left out") |
| `UserCodec.DecodeIff` | src/services/session.ts:51-55 | text reads as `v` if and only if it is `v`'s stored text, both directions of the two lemmas above |
| `Sessions.Get` | src/services/session.ts:45 | GET gives a payload exactly when the key is present and its expiry instant is still ahead of the clock, and then it is the stored payload |
| `Sessions.SetEx` | src/services/session.ts:32-36 | SETEX adds the key with the payload and an expiry the given number of seconds from now; every other key keeps its entry |
| `Sessions.Del` | src/services/session.ts:68 | DEL removes exactly the key; every other entry is unchanged |
| `Sessions.Session.Advance` | src/services/session.ts:59 | the clock moves forward by the given seconds and the stored entries stay as they are, so sessions expire by the passage of time alone |
| `UserCodec.DecodeRejectsNonObject` | src/services/session.ts:47-55 | the empty string, and any text not starting with `{`, parses to nothing |
| `Access.RequireAdmin` | src/modules/commerce/__tests__/subscription.test.ts:118-132 | an admin route passes only administrators; no identity is unauthorized, a customer is forbidden |
| `Http.DenialStatus` | src/modules/commerce/__tests__/subscription.test.ts:118-132 | a missing identity answers 401 and a caller without the role answers 403, and no other denial has either code |
| `Access.RequireSignedIn` | src/modules/commerce/__tests__/subscription.test.ts:262-270 | a customer route passes any signed-in user and refuses an anonymous caller as unauthorized |
| `Subscriptions.SubscriptionService.ListPlans` | src/modules/commerce/__tests__/subscription.test.ts:69-93 | returns the plan table itself: the created plans in creation order, and the empty sequence when there are none |
| `Subscriptions.SubscriptionService.CreatePlan` | src/modules/commerce/__tests__/subscription.test.ts:97-132 | refuses non-administrators; otherwise a valid plan is appended with a fresh id and the given name, books per month and price, and echoed; an invalid plan changes nothing; the id sequence advances by one exactly when a plan is created |
| `Subscriptions.SubscriptionService.EditPlan` | src/modules/commerce/__tests__/subscription.test.ts:136-176 | refuses non-administrators and unknown ids; otherwise the supplied fields overwrite the plan at its position and the rest of the table is unchanged |
| `Subscriptions.SubscriptionService.DeletePlan` | src/modules/commerce/__tests__/subscription.test.ts:180-225 | refuses non-administrators; with n rows referencing the plan, n > 0 fails with `PlanInUse(n)` (n being the number of distinct holders) and changes nothing; n = 0 removes exactly that plan |
| `Subscriptions.SubscriptionService.Subscribe` | src/modules/commerce/__tests__/subscription.test.ts:229-270 | refuses anonymous callers, unknown plans and customers who already hold any plan; otherwise appends one row for this customer, which `SubscriptionOf` then returns |
| `Subscriptions.SubscriptionService.Unsubscribe` | src/modules/commerce/__tests__/subscription.test.ts:274-306 | a customer without a row gets `NotSubscribed` and nothing changes; otherwise their row is removed and afterwards they have no subscription |
| `Subscriptions.SubscriptionService.SubscriptionOf` | src/modules/commerce/__tests__/subscription.test.ts:290-292 | a customer's subscription is null exactly when the ledger has no row for them, and otherwise is their row |
| `Subscriptions.Status` | src/modules/commerce/__tests__/subscription.test.ts:118-305 | a denied request answers the guard's 401 or 403; 404 exactly for an unknown plan; 422 exactly for a plan in use, an invalid plan, a repeated subscribe and an unsubscribe without a subscription |
| `Subscriptions.Message` | src/modules/commerce/__tests__/subscription.test.ts:203-305 | a message is fixed exactly for a plan in use and for an unsubscribe without a subscription, the latter being "You are not subscribed to a plan." |
| `Subscriptions.SubscriberCount` | src/modules/commerce/__tests__/subscription.test.ts:180-207 | the count of rows referencing a plan is zero exactly when no row references it |
| `Subscriptions.SubscriberCountIsHolders` | src/modules/commerce/__tests__/subscription.test.ts:190-207 | with one row per customer, the number of rows referencing a plan equals the number of distinct customers holding it |
| `Subscriptions.PlanInUseMessageCarriesCount` | src/modules/commerce/__tests__/subscription.test.ts:204-206 | the deletion message determines the subscriber count: different counts give different messages |
| `Subscriptions.OneSubscriberMessage` | src/modules/commerce/__tests__/subscription.test.ts:204-206 | for one subscriber the message is exactly "Cannot delete plan since there are 1 users who are subscribed to it." |
| `Pagination.Paginate` | src/modules/catalog/__tests__/category.test.ts:114-160 | the page number and size default to 1 and 25; `itemsCount` is the number of items, `total` the table size; the items are the rows from offset (page - 1) * size on, at most size of them |
| `Pagination.RowOnItsPage` | src/modules/catalog/__tests__/category.test.ts:128-160 | every row of the table is listed: row i is item i mod size of page i div size + 1 |
| `Pagination.EmptyListing` | src/modules/catalog/__tests__/category.test.ts:114-126 | an empty table with no query lists no items, itemsCount 0, page 1, pageSize 25, total 0 |
| `Pagination.SecondPageOfFifty` | src/modules/catalog/__tests__/category.test.ts:128-156 | with 50 rows, page 2 of size 10 is rows 10 to 19, itemsCount 10, page 2, pageSize 10, total 50 |
| `Categories.Children` | src/modules/catalog/__tests__/category.test.ts:179-198 | a category is among the children of p exactly when it is in the table with parentId p |
| `Categories.ChildrenCount` | src/modules/catalog/__tests__/category.test.ts:179-198 | in a table without repeated ids, the children list has exactly one entry per category whose parent is p |
| `Categories.DetailOf` | src/modules/catalog/__tests__/category.test.ts:163-204 | an unknown id is not-found; otherwise the view holds the stored category, its children, and its parent when the parentId names a row (null when there is none) |
| `Categories.AppendedRowFamily` | src/modules/catalog/__tests__/category.test.ts:164-198 | a newly created category has no children, and it appears among its parent's children |
| `Categories.CategoryService.Get` | src/modules/catalog/__tests__/category.test.ts:163-204 | an unknown id is not-found with status 404; otherwise the view holds the stored category with that id and exactly its children, each listed once in a well-formed table |
| `Categories.CategoryService.List` | src/modules/catalog/__tests__/category.test.ts:114-160 | `total` is the table size, `itemsCount` the number of listed items, and every item is a row of the table |
| `Categories.Status` | src/modules/catalog/__tests__/category.test.ts:200-384 | a denied request answers the guard's 401 or 403; 404 exactly for an unknown id; 422 exactly for a failed validation |
| `Categories.Message` | src/modules/catalog/__tests__/category.test.ts:333-368 | a failed validation, and only that error, carries the message "Validation failed." |
| `Categories.Clashes` | src/modules/catalog/__tests__/category.test.ts:333-368 | a category does not clash with the table exactly when no other row has its name and, when it has an SEO URL, no other row has that SEO URL |
| `Categories.ApplyPatch` | src/modules/catalog/__tests__/category.test.ts:208-286 | each supplied field replaces the stored one, a supplied null parent included; absent fields and the id keep their values |
| `Categories.CategoryService.Create` | src/modules/catalog/__tests__/category.test.ts:318-384 | refuses non-administrators; a name or SEO URL already in the table, or an unknown parent, fails validation and changes nothing; otherwise the category is appended with a fresh id and has no children; the id sequence advances by one exactly when a category is created |
| `Categories.CategoryService.Patch` | src/modules/catalog/__tests__/category.test.ts:207-315 | refuses non-administrators and unknown ids; otherwise replaces the row in place with the supplied fields unless they collide; a cleared parent reads back as null and a set parent reads back as that category |
| `Books.Message` | src/modules/catalog/book.service.ts:30-83 | not-found carries "Book not found." and a rejected validation, save or destroy carries "Validation failed.", each exactly for its error |
| `Books.Status` | src/modules/catalog/book.service.ts:30-83 | notFound answers 404 and badData answers 422, each exactly for its error |
| `Books.BookService.GetById` | src/modules/catalog/book.service.ts:30-38 | returns a stored record with the id when one exists, and otherwise not-found with "Book not found." |
| `Books.SuppliedId` | src/modules/catalog/book.service.ts:41 | a body whose `id` is a natural number n, or the decimal text of n, supplies the key n; a body without `id` supplies none |
| `Books.BookService.Create` | src/modules/catalog/book.service.ts:40-55 | a record validation or save rejects gives "Validation failed." and no change; otherwise the row is stored under the supplied key, or under the next sequence value when the body has none, and read back; a supplied key already in the table gives "Validation failed." and no change; a body without a key is always stored; the sequence ends above the stored key and never moves back |
| `Books.ApplyPatch` | src/modules/catalog/book.service.ts:60-64 | every own key of the patch, `undefined` values included, is set on the record; other keys keep their values; the result is the override of the record by the patch |
| `Books.GuardNeverFilters` | src/modules/catalog/book.service.ts:61 | the guard comparing `typeof` with the value `undefined` holds for every value |
| `Books.PatchedIsOverride` | src/modules/catalog/book.service.ts:60-64 | a record that agrees with the patch on its keys and with the old record elsewhere is the map override of the two |
| `Books.BookService.Edit` | src/modules/catalog/book.service.ts:57-72 | an unknown id is not-found before any change; otherwise the merged record replaces the row if the save accepts it, and "Validation failed." leaves the table unchanged |
| `Books.BookService.Remove` | src/modules/catalog/book.service.ts:74-83 | an unknown id is not-found; otherwise the row is removed and returned, and the id is gone; a refused destroy changes nothing |
| `Books.BookService.GetAll` | src/modules/catalog/book.service.ts:10-16 | every listed book is in the table, and the total is the table size |
| `Books.InCategory` | src/modules/catalog/book.service.ts:21-23 | a book matches only when it has a `categoryId` holding a string or a number; a string matches exactly the identical parameter; a number matches the decimal text the parameter casts to, a minus sign included |
| `Books.ByCategory` | src/modules/catalog/book.service.ts:18-28 | a book is listed for category c exactly when it is in the table and its categoryId equals c: the same text, or a number that c spells in decimal, negative numbers with their minus sign |
| `Books.NumericCategoryMatches` | src/modules/catalog/book.service.ts:21-23 | a book whose categoryId is stored as the integer n, negative or not, matches the route parameter `${n}` |
| `Books.NegativeCategoryMatches` | src/modules/catalog/book.service.ts:21-23 | a book stored with categoryId -5 matches the parameter "-5" |
| `Decimal.ParseIntToString` | src/modules/catalog/book.service.ts:22 | the text of every integer, minus sign included, casts back to that integer |
| `Books.NumericCategoryListed` | src/modules/catalog/book.service.ts:18-28 | a table holding one book with numeric categoryId 5 lists that book for the parameter "5" |
| `Books.BookService.GetAllByCategoryId` | src/modules/catalog/book.service.ts:18-28 | every listed book is in the table and has the requested categoryId; in a valid table the total is the number of distinct such books |
| `Books.ByCategoryCount` | src/modules/catalog/book.service.ts:18-28 | in a table without repeated ids, the listing has exactly one entry per book of the category |

## Left out

- Redis I/O and the `redisClient` are replaced by a map and a clock. A failing or unreachable store is not modelled, so no operation fails for that reason.
- Sessions.Session.Create: `uuid()` is a parameter. The model does not assume the id is fresh. Like SETEX, it overwrites whatever the key held.
- Sessions.DurationSecs: the `SESSION_DURATION` override and the `ms` parser are left out; only the default "1d" is modelled. Integer division stands in for JavaScript's exact division.
- UserCodec.Encode: the members come in the order of the record's declaration in `src/modules/user/user.service.ts`. `JSON.stringify` follows the order of the object it is given, which may differ. Escaping follows `JSON.stringify`: `\"`, `\\`, `\b`, `\f`, `\n`, `\r`, `\t`, and `\u00xx` for the other control characters. Lone surrogates do not arise, because the model's characters are Unicode scalar values.
- UserCodec.Decode: the model's reader accepts only the exact text the writer produces. `JSON.parse` at session.ts:52 is more lenient. It also reads these as the same user: compact or otherwise re-spaced text, a different key order, extra keys, and escapes the writer does not produce (`\/`, `\u0041`, upper-case hex digits). Canonicity (`UserCodec.EncodeDecode`) is a property of the model's codec, not of `JSON.parse`. It holds for every text the program itself stores.
- Sessions.Session.GetById: `JSON.parse` in the source returns any JSON value, such as a bare number. In the model, text that is not a user record reads as null.
- Expiry uses whole seconds and Redis's rule that a key is gone once its TTL has elapsed. Lazy deletion of expired keys is not modelled. An expired entry stays in the map but is never read.
- Concurrency: every operation is atomic. Races between two subscribes, or between a subscribe and a plan deletion, are not modelled.
- HTTP plumbing, JWTs and test helpers are left out. Only the admin and signed-in guards remain, plus a `Status` function giving the status codes the tests expect.
- Subscriptions.SubscriptionService.CreatePlan: the subscription service and the plan model are not part of this model, so their validation rules are an assumption. The model requires a unique name and non-negative counts and prices. Validation errors carry no fixed message.
- Subscriptions.SubscriptionService.Subscribe: the tests do not fix the order of its checks. The model first checks that the plan exists, then whether the customer already has a subscription. The messages for an unknown plan and a repeated subscription are not fixed by the tests. Any signed-in user may subscribe. Of the route itself, the tests check only the 401 and the repeated-subscribe 422 (src/modules/commerce/__tests__/subscription.test.ts:243-270); the row appended here is what `subscriptionService.subscribeCustomer` writes, which the tests call directly (lines 197, 250 and 280 of the same file), while the route test at lines 229-241 asserts only a 200 for a payment request.
- Subscriptions: the payment request made on subscribe, the credits computation and how `expiresAt` is derived are not modelled. `expiresAt` is a parameter of `Subscribe`.
- Subscriptions: four `user_subscription` fields are not modelled: the row's own `id` and the three columns `name` (unique), `books_per_month` and `price_per_month`. Only `userId`, `subscriptionPlanId`, `subscribedAt` and `expiresAt` are.
- Prices are integer cents, not decimals.
- Categories.CategoryService.Create: the model enforces that a parent id names an existing row, as a foreign key would. Self-parenting and cycles are not checked. The `createdAt`/`updatedAt` fields and the list and detail views' key sets are not modelled.
- Pagination.Paginate: the `paginate` helper is not part of this model. Its behaviour is as the category tests assert. Page number and page size are positive numbers, so zero, negative and non-numeric query values are not modelled.
- Books.ByCategory: the type of the `categoryId` column is not part of this model. A stored string matches only the identical parameter. A stored number matches any decimal spelling of it, an optional minus sign followed by digits, leading zeros included, as a numeric column's comparison casts the parameter. Other stored values never match.
- Books.InCategory: a parameter with a plus sign, surrounding spaces, a fraction or an exponent casts to a number in some databases; the model matches no stored number for such text.
- Books: ids are natural numbers. The empty-string default id matches no row, so it is not-found as with any unknown id. A patch key `id` is an ordinary attribute and does not re-key the row. Prototype keys of `for...in` do not arise for request bodies.
- Books.BookService.Create: Model.validate and the save's database checks are one predicate `accepts`, fixed when the service is built. It is a predicate of the record alone, so a save that fails because of other rows (a clash on a unique column, a missing foreign row) cannot be expressed; the only such failure modelled is a supplied primary key already in the table. A body's `id` keys the row when it is a natural number or its decimal text; any other `id` value is treated as absent. The id sequence follows SQLite's AUTOINCREMENT rule, the test configuration at src/config/db-config.ts:10: the next automatic key is one above the largest key ever stored, so a supplied 7 makes the next automatic key at least 8. PostgreSQL, the production configuration at src/config/db-config.ts:19, does not move its sequence for a supplied key; that behaviour, where a later automatic key can meet a taken one, is not modelled. Whether the database lets a row be destroyed is a second predicate, `canDestroy`. The "detailed" and "listItem" scopes are not modelled.
- src/modules/user/user.service.ts, src/config/db-config.ts and the cart types of src/modules/commerce/commerce.contracts.ts are not part of this model.
