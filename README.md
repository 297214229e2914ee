# Items service core, in Dafny

A small task tracker keeps *items* (a title, a description, an `active` or
`inactive` status and two timestamps) in one SQLite table behind a REST API,
with a React client. This project models the logic of that service that is
not wiring:

- **List queries** (`listItems`): untrusted `sortBy`, `sortDir`, `page` and
  `pageSize` are whitelisted or clamped, an optional search term is trimmed
  and turned into `title LIKE '%term%' OR description LIKE '%term%'`, all
  matching rows are counted, and one LIMIT/OFFSET page of the ordered rows is
  returned (`list_query.dfy`). The SQL engine's ordered answer to the
  filtered SELECT is a parameter, constrained by `IsOrderedSelection` to hold
  every selected row once in sort order; no tie-break among equal sort keys
  is assumed.
- **The item table** (`getItem`, `createItem`, `updateItem`, `deleteItem`):
  a class `ItemTable` whose `rows` map is changed in place by the methods
  (`item_repository.dfy`). `updateItem`'s SET clause is built as a list of
  assignments, as the code builds its `updates` array; the fresh id and the
  current time are parameters.
- **Request validation** (`itemSchema`, `itemUpdateSchema`): the title,
  description and status rules with Zod 3's messages and defaults, lengths
  counted in UTF-16 code units as JavaScript does, as a parse
  function returning the validated input or the list of issues
  (`item_schema.dfy`).
- **Error responses** (`errorHandler`, `notFoundHandler`): the three-way
  classification into a status and an error body, and the loop that groups
  validation issues by dot-joined path (`error_handling.dfy`).
- **The client's API base URL** (`API_URL`): the setting or its default,
  forced to end in `/api` (`api_url.dfy`).
- **Text primitives** they rest on: JavaScript's `trim` and `endsWith`,
  SQLite's `LIKE` (ASCII-only case folding, `%` and `_` wildcards, no
  escape) and BINARY collation order (`strings.dfy`).

Where a reader might expect otherwise, the model follows the code:

- The search is whatever SQLite's `LIKE` does. It ignores case for ASCII
  letters only, and a `%` or `_` typed into the search box is a wildcard
  (`Strings.UnderscoreMatchesAnything`). `ListQuery.SelectedIffContains`
  proves the filter is plain case-insensitive substring search for every
  term without those two characters.
- `updatedAt >= createdAt` is not claimed. The time is a parameter and the
  code does not compare timestamps.
- `itemUpdateSchema` is `itemSchema.partial()`, which in Zod 3 (the
  version whose `err.errors` the error handler reads) leaves an absent field
  absent on update; the create defaults are not applied.
- Zod's `min` and `max` count UTF-16 code units, so an emoji counts twice:
  a title of one emoji is accepted, and one of 41 emoji is rejected
  (`ItemSchema.AstralTitle`).

## Model

| member | source | states |
|---|---|---|
| Strings.IsTrimmable | backend/src/repositories/itemRepository.ts:56 | the characters `trim` removes: ECMAScript's WhiteSpace (tab, vertical tab, form feed, space, no-break space, the byte-order mark and the Unicode space separators) and LineTerminator (line feed, carriage return, line and paragraph separators) |
| Strings.Trim | backend/src/repositories/itemRepository.ts:56-58 | `q.trim()` is the piece of `q` at some index such that everything before and after it is whitespace (`TrimmedAt`); it has no whitespace at either end and is empty exactly when `q` is all whitespace |
| Strings.TrimUnique | backend/src/repositories/itemRepository.ts:56-58 | any piece of `q` with only whitespace around it and no whitespace at either end is `q.trim()`, so the contract of `Trim` determines its result |
| Strings.Utf16Length | backend/src/schemas/item.ts:5-6 | JavaScript's `length`: between the number of characters and twice it, and equal to it iff no character lies outside the Basic Multilingual Plane |
| Strings.AstralLength | backend/src/schemas/item.ts:5-6 | a text of astral characters only has twice as many code units as characters |
| Strings.AsciiLower | backend/src/repositories/itemRepository.ts:57-58 | SQLite's LIKE case folding: `A`..`Z` become `a`..`z` and every other character is kept |
| Strings.Like | backend/src/repositories/itemRepository.ts:57-58 | SQLite's `LIKE` without ESCAPE: `%` matches any run, `_` one character, other characters themselves up to ASCII case; a wildcard-free pattern matches exactly the texts equal to it up to ASCII case |
| Strings.LikePrefix | backend/src/repositories/itemRepository.ts:57-58 | a wildcard-free pattern followed by `%` matches exactly the texts that start with it up to ASCII case |
| Strings.LikeLeadingPercent | backend/src/repositories/itemRepository.ts:57-58 | a leading `%` lets the rest of the pattern match any suffix of the text |
| Strings.LikeIsContains | backend/src/repositories/itemRepository.ts:57-58 | with no `%`/`_` in the term, `LIKE '%term%'` holds iff the term occurs in the text up to ASCII case |
| Strings.UnderscoreMatchesAnything | backend/src/repositories/itemRepository.ts:58 | the unescaped term `_` matches a text that holds no underscore |
| Strings.LexLeq | backend/src/repositories/itemRepository.ts:73 | BINARY collation behind ORDER BY: a prefix sorts first, and the first characters are in order |
| Strings.LexLeqTrans | backend/src/repositories/itemRepository.ts:73 | the collation is transitive |
| Strings.LexLeqTotal | backend/src/repositories/itemRepository.ts:73 | the collation orders any two texts, and two texts ordered both ways are equal |
| ItemSchema.StatusName | backend/src/schemas/item.ts:7 | the stored name of a status is one of the two enum names and parses back to that status |
| ItemSchema.ParseStatus | backend/src/schemas/item.ts:7 | the enum accepts a name iff it is `active` or `inactive` |
| ItemSchema.TitleIssues | backend/src/schemas/item.ts:5 | no issue iff the title is 2 to 80 UTF-16 code units long; every issue is on path `title` |
| ItemSchema.DescriptionIssues | backend/src/schemas/item.ts:6 | no issue iff the description is at most 500 UTF-16 code units long; every issue is on path `description` |
| ItemSchema.StatusIssues | backend/src/schemas/item.ts:7 | no issue iff the status is `active` or `inactive`; every issue is on path `status` |
| ItemSchema.AstralTitle | backend/src/schemas/item.ts:5 | a title made only of emoji or other astral characters is accepted iff it has 1 to 40 of them |
| ItemSchema.CreateIssues | backend/src/schemas/item.ts:4-8 | `itemSchema`'s issue list: empty iff the body is acceptable, every issue on one of the three field paths |
| ItemSchema.UpdateIssues | backend/src/schemas/item.ts:10 | `itemUpdateSchema`'s issue list: empty iff every supplied field is acceptable, every issue on one of the three field paths |
| ItemSchema.ParseCreate | backend/src/schemas/item.ts:4-8 | a body is accepted iff it has a title of 2..80 UTF-16 code units, a description of at most 500 code units if any and a valid status if any; the result carries the title and the defaults `''` and `active`; a rejection lists at least one issue, each on one of the three fields |
| ItemSchema.ParseUpdate | backend/src/schemas/item.ts:10 | a body is accepted iff each supplied field obeys the create bounds; supplied fields are passed through and absent ones stay absent; a rejection lists at least one issue, each on one of the three fields |
| ItemSchema.UpdateIsPartialCreate | backend/src/schemas/item.ts:10 | the empty body is a valid update that sets nothing; every body the create schema accepts the update schema accepts; with a title, the two agree |
| ListQuery.SortFieldOf | backend/src/repositories/itemRepository.ts:39-45 | the ORDER BY column is always `title`, `createdAt` or `updatedAt`: a whitelisted value is kept, anything else or nothing becomes `createdAt` |
| ListQuery.SortDirOf | backend/src/repositories/itemRepository.ts:40-46 | ascending iff `sortDir` is exactly `asc`, otherwise descending |
| ListQuery.PageOf | backend/src/repositories/itemRepository.ts:41-47 | the page is at least 1; the default is 1; a value of at least 1 is kept and anything lower becomes 1 |
| ListQuery.PageSizeOf | backend/src/repositories/itemRepository.ts:42-48 | the page size is in 1..100; the default is 10; in-range values are kept, larger ones become 100 and smaller ones 1 |
| ListQuery.SearchTermOf | backend/src/repositories/itemRepository.ts:38-58 | a filter applies iff `q` holds a non-whitespace character, and its term is the trimmed, non-empty `q` |
| ListQuery.PlanOf | backend/src/repositories/itemRepository.ts:36-60 | every normalised query has a page of at least 1, a page size in 1..100 and a non-empty term if any |
| ListQuery.Offset | backend/src/repositories/itemRepository.ts:68 | the OFFSET of a page: zero exactly on page 1, and each page starts `pageSize` rows after the previous one |
| ListQuery.TimesIsProduct | backend/src/repositories/itemRepository.ts:68 | the repeated addition used for offsets is the product |
| ListQuery.OffsetSkipsEarlierPages | backend/src/repositories/itemRepository.ts:68 | the offset is `(page - 1) * pageSize` |
| ListQuery.Selected | backend/src/repositories/itemRepository.ts:56-58 | the WHERE clause: every row without a term, otherwise `title LIKE '%term%' OR description LIKE '%term%'` |
| ListQuery.MatchingIds | backend/src/repositories/itemRepository.ts:63-65 | the ids COUNT counts: a subset of the table's ids, and all of them without a term |
| ListQuery.SelectedIffContains | backend/src/repositories/itemRepository.ts:56-60 | with a wildcard-free term, a row is selected iff the term occurs in its title or its description, up to ASCII case |
| ListQuery.Window | backend/src/repositories/itemRepository.ts:73-77 | `LIMIT n OFFSET o` yields `min(n, max(0, len - o))` rows, the `k`-th being row `o + k` |
| ListQuery.ListItems | backend/src/repositories/itemRepository.ts:36-88 | `meta` echoes the normalised page and page size; `total` counts every row the search selects, whatever the page; `data` is the page's window of the ordered rows starting at the offset, `min(pageSize, max(0, len - offset))` rows and never more than `pageSize` |
| ListQuery.IsOrderedSelection | backend/src/repositories/itemRepository.ts:69-77 | the engine's answer to `SELECT … WHERE … ORDER BY` before LIMIT and OFFSET: every selected stored row exactly once, neighbours in sort order |
| ListQuery.SortedPairwise | backend/src/repositories/itemRepository.ts:73 | in a sequence sorted neighbour by neighbour, any earlier row is in order with any later one |
| ListQuery.InsertKeeps | backend/src/repositories/itemRepository.ts:73 | inserting a stored row with a new id before the first row it may precede keeps the rows stored, distinct and sorted, and adds exactly its id |
| ListQuery.OrderedRows | backend/src/repositories/itemRepository.ts:69-77 | for any set of ids of a table keyed by id, some sorted sequence holds exactly those stored rows once each |
| ListQuery.OrderedSelectionExists | backend/src/repositories/itemRepository.ts:69-77 | for every request over a table keyed by id, the engine has an answer |
| ListQuery.SelectionNeedsKeys | backend/src/db/schema.ts:42 | without a search term, an answer exists only if every row is stored under its own id, which the primary key ensures |
| ListQuery.SortedWindow | backend/src/repositories/itemRepository.ts:73-78 | a window of rows sorted by a column and direction is sorted the same way |
| ListQuery.ListItemsCount | backend/src/repositories/itemRepository.ts:63-65 | for any order the engine may produce, `total` is the number of ordered rows, so with `ListItems` the page holds `min(pageSize, max(0, total - offset))` rows; `OrderedSelectionExists` shows such an order exists for every request over a table keyed by id |
| ListQuery.ListItemsRows | backend/src/repositories/itemRepository.ts:56-78 | for any order the engine may produce, the page's rows are rows of the table that the search selects, in the requested order |
| ListQuery.EmptyTableEmptyPage | backend/src/repositories/itemRepository.ts:63-78 | over an empty table, the empty answer is valid for every request |
| ListQuery.OneRowSelection | backend/src/repositories/itemRepository.ts:56-78 | over a one-row table, a request without `q` has that row alone as a valid answer |
| ListQuery.PagesTile | backend/src/repositories/itemRepository.ts:68-77 | the first `n` pages of a fixed order, concatenated, are its first `n * pageSize` rows (`Times(n, pageSize)`, the product by `TimesIsProduct`): no row is skipped or repeated |
| ListQuery.FifteenRowsTwoPages | backend/src/repositories/itemRepository.ts:36-88 | under one fixed order shared by both requests, with 15 rows and page size 10, page 1 holds 10 rows, page 2 the other 5, together all 15, and both report a total of 15 |
| ItemRepository.AssignAll | backend/src/repositories/itemRepository.ts:151 | the `UPDATE … SET` clause applied left to right; it never changes `id` or `createdAt` |
| ItemRepository.AssignAllAppend | backend/src/repositories/itemRepository.ts:129-151 | appending an assignment to the SET clause applies it after the others |
| ItemRepository.ItemTable.constructor | backend/src/db/schema.ts:41-48 | the migrated `items` table before it is seeded: empty, and every row is kept under its primary key `id` |
| ItemRepository.ItemTable.Get | backend/src/repositories/itemRepository.ts:90-99 | the row with the id iff there is one, otherwise nothing |
| ItemRepository.ItemTable.Create | backend/src/repositories/itemRepository.ts:101-120 | adds exactly one row under the fresh id, with the input title, description `''` and status `active` when absent, and both timestamps `now`; the returned item is the stored row; no other row changes |
| ItemRepository.ItemTable.Update | backend/src/repositories/itemRepository.ts:123-155 | an unknown id gives nothing and no change; no supplied field gives the stored row and no write; otherwise exactly the supplied fields change, `updatedAt` becomes `now`, `id`, `createdAt` and every other row are kept, and the re-read row is returned |
| ItemRepository.ItemTable.Delete | backend/src/repositories/itemRepository.ts:157-166 | true iff the id was present; exactly that row is removed and no other row changes; afterwards the id is absent |
| ItemRepository.Lifecycle | backend/src/repositories/itemRepository.ts:90-166 | a created item reads back with its id, title and equal timestamps; an empty update returns it untouched; the first delete succeeds, the second fails, and the item is then gone |
| ErrorHandling.JoinPath | backend/src/middleware/error.ts:23 | `e.path.join('.')`: the path segments separated by dots |
| ErrorHandling.Grouped | backend/src/middleware/error.ts:21-26 | the `fields` object after the `forEach` over the issues, one issue at a time in order |
| ErrorHandling.GroupedKeys | backend/src/middleware/error.ts:21-26 | the keys of `fields` are exactly the dot-joined issue paths |
| ErrorHandling.GroupedMessages | backend/src/middleware/error.ts:22-26 | under each key are the messages of the issues with that path, in issue order, and never an empty list |
| ErrorHandling.NoMessagesOffKeys | backend/src/middleware/error.ts:22-26 | a path that is not a key has no issue messages |
| ErrorHandling.GroupedCount | backend/src/middleware/error.ts:22-26 | the number of messages in `fields` equals the number of issues |
| ErrorHandling.GroupFields | backend/src/middleware/error.ts:21-26 | the `forEach` loop builds the grouped map: keys are the joined paths, each list holds that path's messages in order and is non-empty |
| ErrorHandling.HandleError | backend/src/middleware/error.ts:17-54 | a validation error gives 400 `VALIDATION_ERROR` `Validation failed` with the grouped fields; an `AppError` gives its own status, code, message and fields; anything else gives 500 `INTERNAL` `Internal server error` with no fields, whatever the error holds |
| ErrorHandling.FieldIssuesGroupByName | backend/src/middleware/error.ts:21-26 | issues on the three item fields give a non-empty `fields` map keyed by field names only |
| ErrorHandling.RejectionFields | backend/src/middleware/error.ts:20-34 | a body rejected by either schema yields a non-empty `fields` map whose keys are among `title`, `description` and `status` |
| ErrorHandling.RouteNotFoundMessage | backend/src/middleware/error.ts:60 | the text `Route <method> <path> not found` |
| ErrorHandling.NotFound | backend/src/middleware/error.ts:56-63 | an unmatched route gives 404 `NOT_FOUND` with no fields and the message `Route <method> <path> not found` |
| ErrorHandling.NotFoundNamesRoute | backend/src/middleware/error.ts:60 | the message determines the method and the path, for methods without spaces |
| ApiUrl.EnvUrl | frontend/src/api.ts:3 | an absent or empty setting falls back to `http://localhost:3001/api`; any other is used as it is |
| ApiUrl.StripTrailingSlashes | frontend/src/api.ts:4 | the result is a prefix of the input, does not end in `/`, and only slashes were cut off |
| Strings.EndsWith | frontend/src/api.ts:4 | `endsWith`: the last characters of the text are the suffix |
| ApiUrl.BaseUrl | frontend/src/api.ts:4 | the result ends in `/api`; an input already ending in `/api` is returned unchanged; any other input becomes its prefix without trailing slashes followed by `/api` |
| ApiUrl.ApiBaseUrl | frontend/src/api.ts:3-4 | `API_URL`: always ends in `/api`, and a setting that already does is used as it is |
| ApiUrl.BaseUrlIdempotent | frontend/src/api.ts:4 | normalising a normalised URL changes nothing |
| ApiUrl.DefaultPassesThrough | frontend/src/api.ts:3-4 | with no setting or an empty one the base URL is `http://localhost:3001/api` |
| ApiUrl.TrailingSlashesCollapse | frontend/src/api.ts:4 | `http://h:1//` becomes `http://h:1/api` |
| ApiUrl.SlashAfterApiDoubles | frontend/src/api.ts:4 | only a literal `/api` suffix is recognised, so `x/api/` becomes `x/api/api` |

## Left out

- The SQL engine, sql.js and the file the database is saved to (`saveDatabase`, the schema migration and the seed data). The table is a map from id to row; writes are not persisted and the storage error paths are not modelled. Of `backend/src/db/schema.ts`, only the migration's `CREATE TABLE` is modelled: as the empty table, keyed by id, that `ItemTable`'s constructor returns (the `Keyed` property of `ListQuery`).
- The SQL text. Only the meaning of WHERE, ORDER BY and LIMIT/OFFSET is modelled. The engine's ordered answer is a parameter of `ListItems`, and no order among rows with equal sort keys is assumed.
- `uuidv4()` and `new Date().toISOString()`. They are the `freshId` and `now` parameters, with the precondition that the id is not in use. The clock is not assumed to be monotonic.
- Floating-point and NaN values of `page` and `pageSize`. Both are modelled as integers that are already floored. A non-numeric query parameter that the routes turn into NaN is not modelled.
- The Express routes, server bootstrap, CORS and request logging (`backend/src/routes/items.ts`, `backend/src/server.ts`), and the `console.error` call in `errorHandler`.
- Zod internals. Request bodies are modelled as three optional string fields. A field of the wrong JSON type, a body that is not an object and unknown keys are not modelled. The messages and the `.partial()` behaviour are those of Zod 3; Zod 4 changed both.
- The `LIKE` operator works on code points, as SQLite's does on UTF-8 text. Folding is modelled for ASCII letters only, as SQLite's default does.
- The React client (`frontend/src/App.tsx`) and the axios calls in `frontend/src/api.ts`, which are network I/O.
- ErrorHandling.Grouped, ErrorHandling.GroupFields and ErrorHandling.HandleError: an issue path that joins to a name every JavaScript object already has (`constructor`, `toString`, `valueOf`, `__proto__` and the like) makes `fields[path]` truthy in `backend/src/middleware/error.ts:24`, so `.push` throws and no 400 response is sent; the model groups such a path like any other. The item schemas only report the paths `title`, `description` and `status` (`ErrorHandling.RejectionFields`), so this does not arise for them.
- ListQuery.ListItems: the offset `(page - 1) * pageSize` is computed exactly. In the source it is a JavaScript double, rounded above 2^53, and sql.js binds a value that is not a 32-bit integer as a REAL. SQLite cannot use an OFFSET that does not fit a 64-bit integer, so `db.exec` throws and `errorHandler` answers 500 `INTERNAL`: `?page=100000000000000000000` gives 500 in the source, while the model returns an empty page with the full `total`.
