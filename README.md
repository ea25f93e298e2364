# User directory: a Dafny model of the two user controllers

The application manages a directory of users. Each user has a name, an e-mail address, a
password, an optional IP address and an optional comment. Two Laravel controllers expose the
directory:

- `Web\UserController` serves the server-rendered `Home` page. Its `index` action lists users
  with search, sort and pagination. `edit` opens a record. `update`, `store` and `destroy`
  redirect with a flash message.
- `API\UserController` answers JSON. It has `index`, `show`, `create`, `update` and `destroy`.

The model treats the database as a store object. A `UserStore` holds a `map<nat, User>` keyed
by id and an auto-increment counter `nextId`. Its invariant `Valid()` says that:

- every id lies in `[1, nextId)`;
- no two records share an e-mail address.

The read actions are functions over the table, scanned in primary-key order. The write actions
are methods that change the store through the store's own `Insert`, `Save` and `Delete`. Each
write method states its outcome and the whole new store for every path: unknown id, validation
failure, database refusal and success.

Files:

- `users.dfy`: the record, request parameters (`Missing | Null | Given(s)`), `Hash`, and
  `filled`, with stand-ins for the `email` and `ip` format rules.
- `validation.dfy`: the validator, as a declarative schema per operation. `UpdateErrors` and
  `CreateErrors` state what each schema accepts, field by field.
- `listing.dfy`: the table scan, the `like` filter, the orderings, insertion sort, the
  paginator and the query builder's sort-direction check.
- `store.dfy`: the `UserStore` class and Eloquent's attribute `fill`.
- `web_controller.dfy` and `api_controller.dfy`: the two adapters.
- `scenario.dfy`: a client of both adapters. It walks through create, a duplicate e-mail, a
  search, an update without a password, a delete and a failed lookup, and reasons only from
  the adapters' contracts.

Outcomes are `Ok`, `Created`, `NotFound`, `ValidationError(fields)` and `Error`.

- `NotFound` is the 404 that `findOrFail` raises when nothing catches it.
- `ValidationError(fields)` is a 422, or a redirect back with field errors.
- `Error` is a web action's `catch` branch. It is also any uncaught fault, which Laravel
  reports as a 500.

Behaviour of the code that the model states explicitly:

- The controllers pass the sort order through untouched. Laravel's `orderBy` lower-cases it
  and throws for anything other than `asc` or `desc`, null included, so both `index` actions
  fail (`None`) on any other value (`Listing.Direction`).
- The web `update` and `destroy` call `findOrFail` inside `try`, and `catch (\Exception $e)`
  also catches its not-found exception. For an unknown id these two actions therefore report
  `Error`, not `NotFound`.
- The API `update` does not validate, and it writes only the name, ip and comment keys present
  in the request. A name sent as null reaches the NOT NULL `name` column and fails without a
  change (`Error`).
- In the web `index`, the `$page` read at line 23 is never used; `paginate(10)` reads the
  page itself. A page number below 1, or one that is not a number, becomes page 1.
- In the API `show` and `destroy`, the `!$user` branch can never run, because `findOrFail`
  has already thrown.
- The API's `sort` parameter never changes the order. The query orders by `id` first, and ids
  are unique (`ApiUserController.SortNeverReorders`).

## Model

| member | source | states |
|---|---|---|
| `Users.Filled` | app/Http/Controllers/Web/UserController.php:98 | `filled(key)` holds only for a present, non-null, non-blank string |
| `Users.HashInjective` | app/Http/Controllers/Web/UserController.php:99 | distinct passwords never share a digest; digests are values of their own type, apart from plaintext strings |
| `Validation.UpdateErrors` | app/Http/Controllers/Web/UserController.php:81-88 | the update fails on name exactly when it is unfilled or longer than 255; on ip exactly when it is filled and not an IP; on password exactly when it is filled and shorter than 6; on no other field |
| `Validation.CreateErrors` | app/Http/Controllers/Web/UserController.php:122-130 | creation fails on name, ip and password as for update, except that the password is mandatory; it fails on email exactly when the address is unfilled, malformed or already held by a user |
| `Validation.DuplicateEmailRejected` | app/Http/Controllers/Web/UserController.php:124 | an address already held by a user is always an `email` error |
| `Listing.ScanSpec` | app/Http/Controllers/Web/UserController.php:36 | the table scan holds exactly the stored records, in strictly ascending id order |
| `Listing.Sort` | app/Http/Controllers/Web/UserController.php:36 | ordering a result is a permutation of it: same rows, same multiplicities, same length |
| `Listing.SortSorted` | app/Http/Controllers/Web/UserController.php:36 | for rows with distinct ids, the sorted result puts every row strictly before every later one in the requested ordering |
| `Listing.SortIdentity` | app/Http/Controllers/API/UserController.php:18 | ordering rows that are already in order leaves them as they are |
| `Listing.IdThenNameIsById` | app/Http/Controllers/API/UserController.php:18-27 | for rows with distinct ids, ordering by `id` then `name` is the same as ordering by id alone, whatever the name direction |
| `Listing.Filter` | app/Http/Controllers/Web/UserController.php:38-40 | the name filter keeps exactly the rows whose name contains the search string and never adds rows |
| `Listing.FilterSorted` | app/Http/Controllers/Web/UserController.php:39 | filtering keeps the relative order of the rows it keeps |
| `Listing.Page` | app/Http/Controllers/Web/UserController.php:42 | a page holds at most 10 rows: those at positions [(page-1)*10, page*10) of the ordered result, and none past its end |
| `Listing.PageRowsFromSource` | app/Http/Controllers/API/UserController.php:29 | every row on a page is a row of the paginated result |
| `Listing.DirectionIgnoresCase` | app/Http/Controllers/Web/UserController.php:36 | a sort order and its lower-cased spelling are accepted or rejected alike, and give the same direction |
| `UserTable.Fill` | app/Http/Controllers/API/UserController.php:89 | a mass update either refuses a NULL for a NOT NULL column, or every written column reads back what was written and every other column keeps its value |
| `UserTable.UserStore.Table` | app/Http/Controllers/Web/UserController.php:36 | the store's table holds exactly its records, in ascending id order |
| `UserTable.UserStore.Insert` | app/Http/Controllers/Web/UserController.php:137-143 | an insert adds exactly one record, under a fresh id equal to the old counter; the counter moves on and e-mail addresses stay unique |
| `UserTable.UserStore.Save` | app/Http/Controllers/Web/UserController.php:102 | a save replaces that record only |
| `UserTable.UserStore.Delete` | app/Http/Controllers/Web/UserController.php:162 | a delete removes exactly that record; the counter stays, so the id is never issued again |
| `WebUserController.SortField` | app/Http/Controllers/Web/UserController.php:23-34 | the effective sort field is always on the allow-list: a requested `id` or `name` is kept, and anything else, an absent or null field included, becomes `id`; so it is `name` exactly when `name` was asked for |
| `WebUserController.Matching` | app/Http/Controllers/Web/UserController.php:38-40 | a falsy search (absent → "", null, "" or "0") keeps every row; a truthy one keeps exactly the rows whose name contains it |
| `WebUserController.List` | app/Http/Controllers/Web/UserController.php:21-51 | the page exists exactly when the sort order is accepted; it echoes the effective field, the raw order and the raw search; it holds at most 10 users |
| `WebUserController.ListSpec` | app/Http/Controllers/Web/UserController.php:36-42 | the listed rows are exactly the stored rows that pass the search, in the effective ordering; the page is the run starting at (page-1)*10, full or ending with the listing |
| `WebUserController.SortFieldFallback` | app/Http/Controllers/Web/UserController.php:32-34 | any sort field other than `name` gives the same page as `id` |
| `WebUserController.IdAscendingIsScanOrder` | app/Http/Controllers/Web/UserController.php:24-25 | the default `id`/`asc` ordering lists the matching rows in table order |
| `WebUserController.Index` | app/Http/Controllers/Web/UserController.php:21-51 | every user on the page is a stored record and passes the search; failure only for a rejected sort order |
| `WebUserController.Edit` | app/Http/Controllers/Web/UserController.php:57-69 | the edit page exists exactly when the id is stored; it carries that record, the default sort props, an empty search and at most 10 stored users |
| `WebUserController.Update` | app/Http/Controllers/Web/UserController.php:75-112 | unknown id: `Error` and no change; validation errors: `ValidationError` with those fields and no change; otherwise only that record changes, with the submitted name, ip and comment (NULL when absent), the same e-mail, and a new digest only for a filled password |
| `WebUserController.Store` | app/Http/Controllers/Web/UserController.php:117-153 | invalid input, a taken e-mail included: the field errors and no change; otherwise exactly one new record under a fresh id, holding the input and the password's digest |
| `WebUserController.Destroy` | app/Http/Controllers/Web/UserController.php:158-172 | unknown id: `Error` and no change; otherwise exactly that record is removed |
| `ApiUserController.Matching` | app/Http/Controllers/API/UserController.php:21-23 | an absent `search` key keeps every row; a present one keeps exactly the rows whose name contains it |
| `ApiUserController.List` | app/Http/Controllers/API/UserController.php:16-32 | the page exists exactly when `sort` is accepted, and holds at most 10 users |
| `ApiUserController.ListInKeyOrder` | app/Http/Controllers/API/UserController.php:18-29 | the page is cut from the matching rows in ascending id order |
| `ApiUserController.SortNeverReorders` | app/Http/Controllers/API/UserController.php:26-27 | any two accepted `sort` values give the same page |
| `ApiUserController.Index` | app/Http/Controllers/API/UserController.php:16-31 | at most 10 users, each a stored record that passes the search |
| `ApiUserController.Show` | app/Http/Controllers/API/UserController.php:37-46 | `NotFound` exactly when the id is not stored; otherwise `Ok` with that record |
| `ApiUserController.Create` | app/Http/Controllers/API/UserController.php:51-74 | invalid input: 422 with the field errors and no change; otherwise 201 with one new record under a fresh id, holding the input and the password's digest |
| `ApiUserController.Update` | app/Http/Controllers/API/UserController.php:79-92 | unknown id: `NotFound` and no change; a null name: `Error` and no change; otherwise only that record changes: each present name, ip and comment is written, absent ones are kept, the e-mail never changes, and the digest changes only for a filled password |
| `ApiUserController.Destroy` | app/Http/Controllers/API/UserController.php:97-108 | unknown id: `NotFound` and no change; otherwise exactly that record is removed |
| `Walkthrough.Scenario` | app/Http/Controllers/Web/UserController.php:117-171 | the first user can be created; a second one with the same e-mail fails on `email`; a search for "Ali" finds only the first; the failed create leaves the store as it was; an update without a password succeeds, writes the new name and ip and keeps the e-mail and the digest; after a delete, `show` is `NotFound` |

## Left out

- Transport: Inertia rendering, redirects, flash messages and their texts, `withErrors` and
  `withInput`, and JSON serialisation are not modelled. In particular, whether the password
  column is hidden from JSON depends on the `User` model, which is not part of this model. Each
  action reports only its outcome and its payload.
- `Log::info` and `Log::error` are side effects only.
- `Hash::make` is bcrypt, which is salted and so not deterministic. It is modelled as an
  injective function. `Hash::check` is not modelled.
- Users.Hash keeps its preimage: only injectivity and a separate type are modelled, not
  one-wayness.
- Users.IsEmail and Users.IsIp approximate the validator's RFC e-mail check and PHP's
  `FILTER_VALIDATE_IP`. They check structure only: one `@` with text on both sides; a dotted
  quad, or hex groups with colons. Only the walkthrough relies on them, and only on
  `IsEmail("a@x.com")` and `IsIp("10.0.0.1")`, which the real rules also accept.
- Listing.Contains reads `like '%…%'` as case-sensitive substring containment. The column
  collation (usually case-insensitive) and the `%` and `_` wildcards inside the search string
  are not modelled. The `unique` rule likewise compares e-mail addresses exactly.
- Listing.LexLess orders names by code point; the database collation is not modelled. SQL
  leaves the order of equal names open, and the model puts equal names in ascending id order.
- The paginator's metadata (total, last page, URLs, `appends`) is not modelled. The page
  number arrives as an optional integer, so parsing of the query string is not modelled.
- The web `edit` page's unordered `User::paginate(10)` is modelled as table order.
- The database schema is assumed, not read: `name`, `email` and `password` are NOT NULL and
  `email` is unique. Column lengths are not enforced, so a long name written by the API
  `update` is stored as given. The model's `fillable` columns are name, email, password, ip and
  comment. `app/Models/User.php` and the migrations are not part of this model.
- Any database fault other than a NULL in a NOT NULL column is not modelled. This also means
  the web actions' `catch` branch is reached only through `findOrFail`. Concurrent requests
  are not modelled: the uniqueness check on e-mail is taken to be atomic with the insert.
- The HTTP kernel's `TrimStrings` and `ConvertEmptyStringsToNull` middleware are not
  modelled: values reach the controllers as sent. Request values are strings or null, never
  arrays or numbers. Keys beyond the five user fields are not represented, since every write
  path ignores them.
- `resources/js/app.js` is the front-end bootstrap and has no logic.
