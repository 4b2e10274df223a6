# Bookstore API core, modelled in Dafny

The bookstore service is a small HTTP API over two resources, books and the comments
attached to them. It keeps them in a relational store through a thin data-access layer.
This project models three parts of it and proves properties about them:

- the two validators: `bookValidation` (eight rules) and `commentValidation` (four rules).
  Each reports only the first rule that fails.
- the page-count arithmetic of the two listings, and the decision flow of all ten
  handlers: parameter checks, validation, existence checks, 400/404/500 outcomes and the
  success payload.
- the data-access procedures for books and comments, over an in-memory table.

## Layout

| file | module | models |
|---|---|---|
| `wrappers.dfy` | `Wrappers` | `Option` for parsed parameters, JSON fields and backend faults |
| `tables.dfy` | `Tables` | what `WHERE … ORDER BY id`, `COUNT`, `LIMIT`/`OFFSET` and `First` mean over a table kept as a map from key to row |
| `dao.dfy` | `Dao` | `Book`, `Comment`, and class `Store` (the database handle). It holds `books: map<nat, Book>`, `comments: map<nat, Comment>` and the two auto-increment counters, with one method per DAO procedure |
| `pagination.dfy` | `PageCount` | the page count `TotalPages` |
| `validation.dfy` | `Validation` | `BookValidation` and `CommentValidation` as `if` chains, plus the same rules listed as data (`BookRules`, `CommentRules`) for the first-failure-wins reference `FirstViolation` |
| `handlers.dfy` | `Handlers` | the ten handlers, as methods that take the store handle `db: Store` and may change it |

How the model stands in for things it does not run:

- Every string the validators measure is a Go byte string (`seq<byte>`), so lengths are
  byte lengths.
- A time is an integer number of seconds since the Unix epoch.
  - `now` is a parameter that stands in for `time.Now()`.
  - A body without a publication date carries Go's zero time (`MinTime`, year 1). That
    date is in the past, so it passes the future-date rule.
- A path or query parameter arrives as `Option<int>`: `None` means `strconv.Atoi` failed.
- A request body arrives as already-decoded JSON, one `Option` per field.
  - A field that is present overwrites the field decoded into. One that is absent keeps
    it, as `json.Unmarshal` into a pre-filled struct does.
  - The body being `None` means it could not be read.
- Each DAO procedure takes `fault: Option<string>`: the backend error that call reports,
  if any.
- Rows come back in key order. The source has no `ORDER BY`, so that order is an
  assumption (see "Left out").
- The store's invariant `Valid()`:
  - keys start at 1;
  - every key lies below its table's auto-increment counter;
  - every row's `id` equals its key.

On these points the model follows the code:

- **Body fields can override the path keys in updates.** `putBook` and `putComment` set the
  path keys before decoding the body (main/main.go:179-186, main/main.go:396-405).
  - A body `id` therefore wins over the path id.
  - In `putComment` a body `bookId` also wins over the path book id.
- **`postComment` always uses the path book id.** It sets `BookID` after decoding
  (main/main.go:334-335), so the path value wins there.
- **A create can choose its own key.** A body may carry an `id`, because the embedded
  record's `ID` has no JSON tag.
  - Creating with a free explicit id inserts under it.
  - Creating with a taken id fails in the store with a duplicate-key error, which the
    handler reports as 500.
- **Comments of a deleted book stay.** Deleting a book does not touch its comments, and
  `getComments` never checks that the book exists. So a deleted book can still list
  comments: total 0 holds exactly when no comment names that book.

## Model

| member | source | states |
|---|---|---|
| `Tables.KeysWhere` | dao/comments.go:18 | a filtered select yields, in strictly ascending order, exactly the keys whose rows pass the filter |
| `Tables.KeysWhereCount` | dao/comments.go:15 | a filtered `COUNT` equals the number of keys the filter selects |
| `Tables.Page` | dao/books.go:22 | `LIMIT`/`OFFSET` yields `min(limit, n - offset)` rows, or none past the end; row `i` of the page is row `offset + i` of the input |
| `Dao.Offset` | dao/books.go:22 | the rows the offset skips are exactly the rows of the earlier pages: row `i` comes before the offset of page `p` iff its own page `i / pageSize + 1` is below `p` |
| `Dao.SameIsbnIsCaseVariant` | dao/books.go:60 | the model's stand-in for `isbn = ?` under the case-insensitive default collation: two isbns are equal iff they have the same length and agree at every byte up to the case of ASCII letters |
| `Dao.IsbnGateKeepsDistinct` | main/main.go:251 | writing a book under the key its isbn check excluded keeps isbns pairwise distinct |
| `Dao.Store.BookTable` | dao/books.go:22 | the book rows in strictly ascending id order: as many rows as stored books, each equal to the stored row under its id |
| `Dao.Store.BookTableListsEveryBook` | dao/books.go:22 | every stored book appears in the listing |
| `Dao.Store.ValidateBookId` | dao/books.go:66-71 | true exactly when the id is a key of the book table |
| `Dao.Store.ValidateIsbnNumber` | dao/books.go:59-64 | true exactly when no book with a key other than `id` has an isbn equal to it up to ASCII letter case, the empty isbn included |
| `Dao.Store.FirstByPrimaryKey` | dao/books.go:36 | as written: the lookup of id 0 finds something whenever the table is non-empty; any other id is found exactly when it is a key |
| `Dao.Store.ZeroIdFindsLowestBook` | dao/books.go:36 | as written: with a non-empty table, id 0 (never a key) finds the lowest-keyed book |
| `Dao.Store.DeleteByFirst` | dao/books.go:49-57 | as written: the row `First(bookP)` returns is the one deleted; for a non-zero id that is the row keyed by it, removed and nothing else |
| `Dao.Store.ZeroIdDeletesLowestBook` | dao/books.go:49-57 | as written: with a non-empty table, deleting id 0 removes the lowest-keyed book and returns it |
| `Dao.Store.GetBooks` | dao/books.go:18-26 | total is the number of books; at most `pageSize` rows, starting at row `(pageNumber - 1) * pageSize` in key order; a backend error is passed on |
| `Dao.Store.PostBook` | dao/books.go:28-33 | id 0 gets the next counter value, and a free explicit id is kept. One row is added under a key not in the table and nothing else changes. A taken id is a duplicate-key error with nothing changed |
| `Dao.Store.GetBook` | dao/books.go:35-40 | succeeds exactly when the key is present, returning the stored row; otherwise not-found |
| `Dao.Store.PutBook` | dao/books.go:42-47 | the row at the book's key is replaced; every other row and the comments are unchanged |
| `Dao.Store.DeleteBook` | dao/books.go:49-57 | a missing key is not-found and changes nothing. A present key returns the stored row and removes exactly that key. Comments are untouched |
| `Dao.Store.CommentKeysOfCount` | dao/comments.go:15 | the `book_id` count equals the number of comments of that book, and is 0 exactly when no comment names it |
| `Dao.Store.CommentsOfBook` | dao/comments.go:18 | the comments of one book in ascending id order: each has that book id and is the stored row |
| `Dao.Store.MatchingComments` | dao/comments.go:32 | the `(book_id, id)` query is non-empty exactly when the id keys a comment of that book |
| `Dao.Store.ValidateCommentId` | dao/comments.go:55-60 | true exactly when the id is a key whose comment has that book id |
| `Dao.Store.GetComments` | dao/comments.go:14-22 | total counts only that book's comments, and is 0 exactly when none exist. Every row has that book id; at most `pageSize` rows from the page offset |
| `Dao.Store.PostComment` | dao/comments.go:24-29 | one comment added under a key not in the table; other comments and all books unchanged; a taken explicit id is a duplicate-key error |
| `Dao.Store.GetComment` | dao/comments.go:31-36 | succeeds only when a comment has both the id and the book id; the right id under another book is not-found |
| `Dao.Store.PutComment` | dao/comments.go:38-43 | the comment at its key is replaced; every other comment and all books unchanged |
| `Dao.Store.DeleteComment` | dao/comments.go:45-53 | no comment matching `(book_id, id)` is not-found and changes nothing. Otherwise exactly that comment is removed and its prior contents returned |
| `PageCount.TotalPages` | main/main.go:99-102 | `(pages - 1) * pageSize < total <= pages * pageSize`, the ceiling of `total / pageSize`; total 0 gives 0 pages |
| `PageCount.TotalPagesIsCeiling` | main/main.go:296-299 | any `n` with `(n - 1) * pageSize < total <= n * pageSize` equals the page count |
| `PageCount.ExactMultiplePages` | main/main.go:99-102 | `k * pageSize` rows make exactly `k` pages |
| `Validation.FirstViolation` | main/main.go:230-265 | first-failure-wins: passes exactly when every rule holds; otherwise status 400 with the message of the first failing rule |
| `Validation.BookValidation` | main/main.go:230-265 | a book passes exactly when all eight rules hold: title non-empty and at most 255 bytes; author, publisher at most 255; isbn at most 13 and not equal, up to ASCII letter case, to the isbn of another key; pages at least 1; date not after `now`. Every failure is 400 |
| `Validation.FirstViolationAppend` | main/main.go:230-265 | checking two rule lists in sequence is checking their concatenation: the second list decides only when the first passes |
| `Validation.BookValidationIsFirstViolation` | main/main.go:230-265 | `bookValidation` reports the message of the first broken rule, in the order title empty, title, author, publisher, isbn length, isbn unique, pages, date |
| `Validation.OwnIsbnIsNotADuplicate` | main/main.go:251 | re-saving a book with its own isbn never yields the uniqueness error while isbns are distinct |
| `Validation.CommentValidation` | main/main.go:455-473 | a comment passes exactly when its author is non-empty and at most 255 bytes, its text at most 255, and its book id names a book; every failure is 400 |
| `Validation.CommentValidationIsFirstViolation` | main/main.go:455-473 | `commentValidation` reports the first broken rule, in the order author empty, author, text, book id ("Invalid Book ID.") |
| `Handlers.NonEmptyPagesAreCounted` | main/main.go:99-102 | page `p` of a listing is non-empty exactly when `p` is at most the reported `totalPages` |
| `Handlers.RowIsOnItsPage` | main/main.go:296-299 | row `i` is at position `i % size` of page `i / size + 1`, a page within `totalPages` |
| `Handlers.GetBooks` | main/main.go:77-119 | a missing or non-positive page number is checked first (400 "Invalid Page Number."), then the page size (400 "Invalid Page Size."). A backend error is 500. Otherwise 200 with a page of at most `pageSize` rows, and metadata `total` = book count, `totalPages`, the echoed number and size, and `count` = rows returned |
| `Handlers.PostBook` | main/main.go:121-141 | unreadable body 400, then validation 400, then a store error 500. Success is 201 with the stored book under a key new to the table: the next auto-increment key for a body without an id, otherwise the body's id. Success is the only case that changes the store, and the book counter moves past the new key. Distinct isbns stay distinct |
| `Handlers.GetBook` | main/main.go:143-167 | a negative or unparsable id is 400. A backend error is 500 and a missing key 404; otherwise 200 with the stored book |
| `Handlers.PutBook` | main/main.go:169-203 | validation runs before the existence check: an invalid payload is 400 even for a missing id, and a valid one for a missing id is 404, both with the store unchanged. Success is 200 and replaces exactly that key, with both counters unchanged; distinct isbns stay distinct |
| `Handlers.DeleteBook` | main/main.go:205-228 | a bad id is 400, a backend error 500 and a missing key 404, each with the store unchanged. Otherwise 200, echoing the removed book; comments and both counters are untouched, so a deleted key is never handed out again |
| `Handlers.GetComments` | main/main.go:267-316 | the book id is checked first, then page number, then page size (each 400); a backend error is 500. Otherwise 200: every row has the path book id, there are at most `pageSize` rows, and the metadata holds that book's comment count |
| `Handlers.PostComment` | main/main.go:318-347 | the stored comment always carries the path book id, and that book exists. Any validation failure is 400 with the store unchanged. Success is 201, under the next auto-increment key for a body without an id, and the comment counter moves past the new key |
| `Handlers.GetComment` | main/main.go:349-379 | the book id is checked before the comment id (each 400); a backend error is 500. A comment with the right id but another book is 404 |
| `Handlers.PutComment` | main/main.go:381-421 | validation comes before the `(book_id, id)` existence check (400 before 404), and a non-success leaves the store unchanged. An update never adds or removes keys, never changes a comment's book, and leaves both counters unchanged |
| `Handlers.DeleteComment` | main/main.go:423-453 | 400 for a bad book id or comment id, 500 for a backend error, 404 when no comment matches the pair. Otherwise 200 with exactly that comment removed and both counters unchanged |

## Left out

- Configuration loading, the MySQL connection and schema migration (dao/databases.go)
  are bootstrap I/O.
- The router and HTTP listener (`main`, `handleRequests`) are transport. Each handler is
  modelled on its own.
- JSON encoding of responses and the writing of headers are left out. A response is a
  status with a message (`{"error": …}`) or a status with a payload.
- The text of the body is not parsed. The decoded fields are the input, and a malformed
  body's ignored `Unmarshal` error is not modelled.
- `strconv.Atoi` and `time.Now` are parameters, not modelled code.
- Logging is left out.
- The gorm timestamps and soft deletion are left out. Only live rows are modelled: a
  delete removes its row, because the deletes are unscoped.
- Handlers.PostBook, Handlers.PutBook, Handlers.PostComment, Handlers.PutComment: the
  body's `CreatedAt`, `UpdatedAt` and `DeletedAt` keys are not decoded. The embedded
  record's fields have no JSON tags, so a body can set them. A body `DeletedAt` would
  make `Create` or `Save` write a soft-deleted row. Such a row is hidden from every
  scoped query (lookups, listings, counts and the isbn check), but it still holds its
  key. The model cannot express such a body, so it has no hidden rows.
- Dao.Store.PutBook: requires the key to be present. gorm's `Save` insert-when-missing
  path is unreachable, because `putBook` checks existence first.
- Dao.Store.PutComment: requires the key to be present, for the same reason
  (`putComment` checks existence first).
- Row order: the source's selects have no `ORDER BY`, and the model assumes key order.
- Concurrent requests and the isbn-uniqueness race between them are left out. Each
  handler runs alone.
- Backend errors inside the three validator queries are left out. In the source such an
  error makes `ValidateIsbnNumber` report a conflict and makes `ValidateBookId` and
  `ValidateCommentId` report that the record exists. The model's validator queries
  cannot fail.
- Dao.Store.GetBooks: takes one fault for the whole call. In the source the count and
  the select can fail separately; either failure gives the same result, an error with the
  store unchanged.
- Dao.Store.GetComments: one fault for the count and the select, as for `GetBooks`.
- Dao.Store.DeleteBook: one fault for the lookup and the delete. Either failure gives an
  error with the store unchanged.
- Dao.Store.DeleteComment: one fault for the lookup and the delete, as for `DeleteBook`.
- Dao.Offset: the model computes it in unbounded integers. Go's 64-bit product
  `(pageNumber - 1) * pageSize` wraps around for parameters whose product exceeds 2^63.
- Dao.Store.ValidateIsbnNumber, Dao.SameIsbnIsCaseVariant: compare isbns under ASCII case folding only. The
  column takes the server's default collation, which the source does not set
  (dao/databases.go). Trailing-space padding (the PAD SPACE collations) and the folding
  of accents and non-ASCII letters depend on that collation and are not modelled.
- Validation.BookValidation: its uniqueness rule uses the same comparison as
  `ValidateIsbnNumber`, with the same limits. `IsbnFree` and `DistinctIsbns` use it too.
- Dao.Store.GetBook, Dao.Store.DeleteBook, Handlers.GetBook, Handlers.DeleteBook: id 0
  is looked up as a plain key, so it is never found. This is the corrected behaviour
  from "Findings". The as-written lookup and delete are `FirstByPrimaryKey` and
  `DeleteByFirst`.
- Dao.Store.PostBook: returns the duplicate-key error with a fixed text. MySQL's own
  message also quotes the key value.
- Dao.Store.PostComment: returns the duplicate-key error with a fixed text, as
  `PostBook` does.

## Findings

| source | as written | input that shows it | evidently intended | confidence | as-written member | corrected member |
|---|---|---|---|---|---|---|
| dao/books.go:36 | `First(bookP)` takes its key condition from `bookP.ID`. gorm adds no key condition when that ID is zero, so the query returns the lowest-keyed book. `getBook` and `deleteBook` accept id 0 (main/main.go:147, main/main.go:209), and `DeleteBook` then removes the book it found (dao/books.go:53) | `GET /books/0` or `DELETE /books/0` while the table holds a book (keys start at 1) | 404 "Record Not Found.", as for any other id that is not a key | medium; depends on gorm's query building, which is not part of this model; not executed | `Dao.Store.FirstByPrimaryKey`, `Dao.Store.ZeroIdFindsLowestBook`, `Dao.Store.DeleteByFirst`, `Dao.Store.ZeroIdDeletesLowestBook` | `Dao.Store.GetBook`, `Dao.Store.DeleteBook` (used by `Handlers.GetBook`, `Handlers.DeleteBook`) |
