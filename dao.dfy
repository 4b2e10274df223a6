/** The data-access layer: the book and comment records and the store handle whose
    queries and updates the handlers call. The relational tables are modelled as maps
    from primary key to row; the queries are written the way the source phrases them
    (a `WHERE` filter over the rows in key order, `COUNT`, `LIMIT`/`OFFSET`, `First`) and
    their contracts state what they mean for the maps. Only live rows are modelled: the
    deletes bypass soft deletion, so a deleted row is simply gone, and a written row
    never carries a deletion time. */
module Dao {
  import opened Wrappers
  import opened Tables
  import PageCount

  /** Go strings are byte strings, and `len` counts bytes. */
  newtype byte = b: int | 0 <= b < 256
  type Bytes = seq<byte>

  /** Seconds since the Unix epoch. `MinTime` is Go's zero `time.Time` (January 1 of
      year 1), which a book decoded without a publication date carries. */
  type Time = int
  const MinTime: Time := -62135596800

  /** A book row; `id` is the primary key the store assigns. */
  datatype Book = Book(
    id: nat,
    title: Bytes,
    author: Bytes,
    isbn: Bytes,
    publisher: Bytes,
    publicationDate: Time,
    pages: int)

  /** A comment row; `bookId` names the owning book. */
  datatype Comment = Comment(id: nat, bookId: nat, author: Bytes, commentText: Bytes)

  /** What a store call can report: no matching record, or any other backend error
      together with its text. */
  datatype DbError = NotFound | Failure(message: string)

  datatype Result<T> = Ok(value: T) | Err(error: DbError)

  /** A counted page: the filtered row count and the rows of the requested page. */
  datatype Listing<T> = Listing(total: nat, rows: seq<T>)

  /** The text the store's `NotFound` error carries. */
  const RecordNotFoundText: string := "record not found"

  /** The text of the error MySQL reports for an insert under a key already taken.
      MySQL's own text also quotes the key value, which this model leaves out. */
  const DuplicateEntryText: string := "Error 1062: Duplicate entry for key 'PRIMARY'"

  function ErrorText(e: DbError): string {
    match e
    case NotFound => RecordNotFoundText
    case Failure(message) => message
  }

  /** The row offset of a page, pages being numbered from 1: the rows it skips are
      exactly the rows of the earlier pages. */
  function Offset(pageNumber: int, pageSize: int): (offset: nat)
    requires pageNumber >= 1 && pageSize >= 1
    ensures forall i: nat :: i < offset <==> i / pageSize + 1 < pageNumber
  {
    assert forall i: nat :: i < (pageNumber - 1) * pageSize <==> i / pageSize + 1 < pageNumber by {
      forall i: nat
        ensures i < (pageNumber - 1) * pageSize <==> i / pageSize + 1 < pageNumber
      {
        RowBeforePage(i, pageNumber, pageSize);
      }
    }
    (pageNumber - 1) * pageSize
  }

  /** Row `i` lies on page `i / pageSize + 1`, so it precedes page `pageNumber` exactly
      when it precedes that page's first row. */
  lemma RowBeforePage(i: nat, pageNumber: int, pageSize: int)
    requires pageNumber >= 1 && pageSize >= 1
    ensures i < (pageNumber - 1) * pageSize <==> i / pageSize + 1 < pageNumber
  {
    var q := i / pageSize;
    assert i == q * pageSize + i % pageSize;
    if q + 1 < pageNumber {
      PageCount.MulMonotonic(q + 1, pageNumber - 1, pageSize);
      assert (q + 1) * pageSize == q * pageSize + pageSize;
    } else {
      PageCount.MulMonotonic(pageNumber - 1, q, pageSize);
    }
  }

  // ------------------------------------------------------------ isbn equality

  /** The isbn column is compared under the database's default collation, which is
      case-insensitive: an ASCII capital letter compares as its small letter. */
  function FoldAscii(b: byte): byte {
    if 65 <= b <= 90 then b + 32 else b
  }

  /** The bytes an isbn is compared by. */
  function CollationKey(isbn: Bytes): Bytes {
    seq(|isbn|, i requires 0 <= i < |isbn| => FoldAscii(isbn[i]))
  }

  /** SQL `isbn = ?` under that collation. */
  predicate SameIsbn(a: Bytes, b: Bytes) {
    CollationKey(a) == CollationKey(b)
  }

  /** Two bytes that are equal or are the capital and the small form of one ASCII letter. */
  predicate CaseVariant(x: byte, y: byte) {
    || x == y
    || (65 <= y <= 90 && x as int == y as int + 32)
    || (65 <= x <= 90 && y as int == x as int + 32)
  }

  /** Two isbns compare equal exactly when they have the same length and agree at every
      position up to the case of ASCII letters. */
  lemma SameIsbnIsCaseVariant(a: Bytes, b: Bytes)
    ensures SameIsbn(a, b) <==>
      |a| == |b| && forall i :: 0 <= i < |a| ==> CaseVariant(a[i], b[i])
  {
    var ka, kb := CollationKey(a), CollationKey(b);
    if SameIsbn(a, b) {
      forall i | 0 <= i < |a|
        ensures CaseVariant(a[i], b[i])
      {
        assert ka[i] == kb[i];
      }
    }
    if |a| == |b| && forall i :: 0 <= i < |a| ==> CaseVariant(a[i], b[i]) {
      forall i | 0 <= i < |a|
        ensures ka[i] == kb[i]
      {
        assert CaseVariant(a[i], b[i]);
      }
      assert ka == kb;
    }
  }

  /** No book other than the one keyed `id` carries an isbn equal to `isbn`. */
  ghost predicate IsbnFree(books: map<nat, Book>, isbn: Bytes, id: nat) {
    forall k :: k in books && k != id ==> !SameIsbn(books[k].isbn, isbn)
  }

  /** No two books carry equal isbns. */
  ghost predicate DistinctIsbns(books: map<nat, Book>) {
    forall j, k :: j in books && k in books && j != k ==> !SameIsbn(books[j].isbn, books[k].isbn)
  }

  /** Writing a book whose isbn passed the uniqueness check, under the key the check
      excluded, keeps the isbns pairwise distinct: an insert under a fresh key and a
      replacement of the checked key alike. */
  lemma IsbnGateKeepsDistinct(books: map<nat, Book>, key: nat, book: Book)
    requires DistinctIsbns(books)
    requires IsbnFree(books, book.isbn, key)
    ensures DistinctIsbns(books[key := book])
  {
    var m := books[key := book];
    forall j, k | j in m && k in m && j != k
      ensures !SameIsbn(m[j].isbn, m[k].isbn)
    {
      if j == key {
        assert m[k] == books[k];
      } else if k == key {
        assert m[j] == books[j];
      } else {
        assert m[j] == books[j] && m[k] == books[k];
      }
    }
  }

  function AnyBook(b: Book): bool { true }

  /** The database handle: the book and comment tables and their auto-increment
      counters. */
  class Store {
    var books: map<nat, Book>
    var comments: map<nat, Comment>
    var nextBookId: nat
    var nextCommentId: nat

    /** Keys start at 1, lie below the counter, and every row's `id` is its key. */
    ghost predicate Valid()
      reads this
    {
      && 0 < nextBookId && 0 < nextCommentId
      && (forall k :: k in books ==> 0 < k < nextBookId && books[k].id == k)
      && (forall k :: k in comments ==> 0 < k < nextCommentId && comments[k].id == k)
    }

    /** An empty, freshly migrated database. */
    constructor ()
      ensures Valid()
      ensures books == map[] && comments == map[]
      ensures nextBookId == 1 && nextCommentId == 1
    {
      books, comments := map[], map[];
      nextBookId, nextCommentId := 1, 1;
    }

    /** Isbns are pairwise distinct across the book table. */
    ghost predicate IsbnsDistinct()
      reads this
    {
      DistinctIsbns(books)
    }

    // ---------------------------------------------------------------- books

    /** The keys of the book table, in ascending order. */
    function BookKeys(): seq<nat>
      reads this
    {
      KeysWhere(books, nextBookId, AnyBook)
    }

    /** The key scan visits every book exactly once. */
    lemma BookKeysCoverTable()
      requires Valid()
      ensures |BookKeys()| == |books|
      ensures forall k :: k in books ==> k in BookKeys()
    {
      KeysWhereAll(books, nextBookId, AnyBook);
    }

    /** Rows read under keys of the book table carry those keys as their `id`s. */
    lemma BookRowsFollowKeys(ks: seq<nat>, rows: seq<Book>)
      requires Valid()
      requires forall i :: 0 <= i < |ks| ==> ks[i] in books
      requires |rows| == |ks| && forall i :: 0 <= i < |ks| ==> rows[i] == books[ks[i]]
      ensures forall i :: 0 <= i < |rows| ==> rows[i].id == ks[i]
      ensures forall i :: 0 <= i < |rows| ==> rows[i].id in books && books[rows[i].id] == rows[i]
    {
      forall i | 0 <= i < |rows|
        ensures rows[i].id == ks[i] && rows[i].id in books && books[rows[i].id] == rows[i]
      {
        var k := ks[i];
        assert k in books && rows[i] == books[k];
      }
    }

    /** Every book row, in key order. */
    function BookTable(): (rows: seq<Book>)
      reads this
      requires Valid()
      ensures |rows| == |books|
      ensures forall i :: 0 <= i < |rows| ==> rows[i].id in books && books[rows[i].id] == rows[i]
      ensures forall i, j :: 0 <= i < j < |rows| ==> rows[i].id < rows[j].id
    {
      var ks := BookKeys();
      BookKeysCoverTable();
      var rows := Rows(books, ks);
      BookRowsFollowKeys(ks, rows);
      rows
    }

    /** The listing leaves no book out. */
    lemma BookTableListsEveryBook()
      requires Valid()
      ensures forall k :: k in books ==> books[k] in BookTable()
    {
      BookKeysCoverTable();
      forall k | k in books
        ensures books[k] in BookTable()
      {
        RowsContain(books, BookKeys(), k);
      }
    }

    /** `WHERE id = ?` over the book table. */
    function BooksWithId(id: nat): (rows: seq<Book>)
      reads this
      requires Valid()
      ensures |rows| > 0 <==> id in books
      ensures |rows| > 0 ==> rows[0] == books[id]
    {
      var ks := KeysWhere(books, nextBookId, (b: Book) => b.id == id);
      assert |ks| > 0 ==> ks[0] == id;
      assert id in books ==> id in ks;
      Rows(books, ks)
    }

    /** `ValidateBookId`: true exactly when `id` is a key of the book table. */
    function ValidateBookId(id: nat): (r: bool)
      reads this
      requires Valid()
      ensures r <==> id in books
    {
      |BooksWithId(id)| > 0
    }

    /** `ValidateIsbnNumber`: `WHERE isbn = ? AND id != ?` finds nothing. True exactly
        when no book other than the one keyed `id` has an isbn equal to it under the
        case-insensitive comparison, so a book re-saved with its own isbn passes; the
        empty isbn is checked like any other. */
    function ValidateIsbnNumber(isbn: Bytes, id: nat): (r: bool)
      reads this
      requires Valid()
      ensures r <==> IsbnFree(books, isbn, id)
    {
      var ks := KeysWhere(books, nextBookId, (b: Book) => SameIsbn(b.isbn, isbn) && b.id != id);
      assert !IsbnFree(books, isbn, id) ==> ks != [] by {
        if !IsbnFree(books, isbn, id) {
          var k :| k in books && k != id && SameIsbn(books[k].isbn, isbn);
          assert books[k].id == k;
          assert k in ks;
        }
      }
      assert ks != [] ==> !IsbnFree(books, isbn, id) by {
        if ks != [] {
          var k := ks[0];
          assert books[k].id == k && SameIsbn(books[k].isbn, isbn) && k != id;
        }
      }
      ks == []
    }

    /** How `First(bookP)` behaves as written: with a zero `ID` in `bookP` the query has
        no primary-key condition, so it yields the lowest-keyed book; otherwise it looks
        the key up. The handlers of this model use `GetBook`/`DeleteBook` instead,
        which look the key up for every id. */
    function FirstByPrimaryKey(id: nat): (r: Option<Book>)
      reads this
      requires Valid()
      ensures id != 0 ==> (r.Some? <==> id in books) && (r.Some? ==> r.value == books[id])
      ensures id == 0 ==> (r.Some? <==> books != map[])
    {
      if id == 0 then First(BookTable()) else First(BooksWithId(id))
    }

    /** The discrepancy: although no book is keyed 0, the as-written lookup of id 0
        finds a book whenever the table is not empty, namely the lowest-keyed one. */
    lemma ZeroIdFindsLowestBook()
      requires Valid() && books != map[]
      ensures 0 !in books
      ensures FirstByPrimaryKey(0).Some?
      ensures FirstByPrimaryKey(0).value.id in books
      ensures forall k :: k in books ==> FirstByPrimaryKey(0).value.id <= k
    {
      var rows := BookTable();
      BookTableListsEveryBook();
      forall k | k in books
        ensures rows[0].id <= k
      {
        var i :| 0 <= i < |rows| && rows[i] == books[k];
        assert books[k].id == k;
        assert i == 0 || rows[0].id < rows[i].id;
      }
    }

    /** How `DeleteBook` behaves as written: `First(bookP)` fills in the row it found,
        key included, and the delete then removes the row under that key. Gives the
        book found and the table left, or nothing when the lookup finds nothing. */
    function DeleteByFirst(id: nat): (r: Option<(Book, map<nat, Book>)>)
      reads this
      requires Valid()
      ensures id != 0 ==> (r.Some? <==> id in books)
      ensures id != 0 && r.Some? ==> r.value == (books[id], books - {id})
    {
      match FirstByPrimaryKey(id)
      case None => None
      case Some(b) => Some((b, books - {b.id}))
    }

    /** The discrepancy for deletes: `DELETE /books/0` as written removes the
        lowest-keyed book whenever the table is not empty. */
    lemma ZeroIdDeletesLowestBook()
      requires Valid() && books != map[]
      ensures DeleteByFirst(0).Some?
      ensures var (b, rest) := DeleteByFirst(0).value;
        && b.id in books && books[b.id] == b
        && rest == books - {b.id}
        && forall k :: k in books ==> b.id <= k
    {
      ZeroIdFindsLowestBook();
    }

    /** `GetBooks`: the number of books, and the page of at most `pageSize` books that
        starts at row `(pageNumber - 1) * pageSize` in key order. */
    method GetBooks(pageNumber: int, pageSize: int, fault: Option<string>)
      returns (r: Result<Listing<Book>>)
      requires Valid() && pageNumber >= 1 && pageSize >= 1
      ensures fault.Some? ==> r == Err(Failure(fault.value))
      ensures fault.None? ==> r.Ok? && r.value.total == |books|
      ensures fault.None? ==> r.value.rows == Page(BookTable(), Offset(pageNumber, pageSize), pageSize)
      ensures fault.None? ==> |r.value.rows| <= pageSize
      ensures fault.None? ==> forall i :: 0 <= i < |r.value.rows| ==>
        r.value.rows[i] == BookTable()[Offset(pageNumber, pageSize) + i]
    {
      if fault.Some? {
        return Err(Failure(fault.value));
      }
      var rows := BookTable();
      r := Ok(Listing(|rows|, Page(rows, Offset(pageNumber, pageSize), pageSize)));
    }

    /** `PostBook`: insert. A zero `id` receives the next auto-increment key; an
        explicit `id` is inserted as given unless that key is taken, which the store
        rejects. The stored row is returned with its key. */
    method PostBook(book: Book, fault: Option<string>) returns (r: Result<Book>)
      requires Valid()
      modifies this
      ensures Valid()
      ensures fault.Some? ==> r == Err(Failure(fault.value))
      ensures fault.None? && book.id in old(books) ==> r == Err(Failure(DuplicateEntryText))
      ensures fault.None? && book.id !in old(books) ==> r.Ok?
      ensures r.Err? ==> unchanged(this)
      ensures r.Ok? ==> r.value == book.(id := r.value.id)
      ensures r.Ok? ==> r.value.id !in old(books) && r.value.id > 0
      ensures r.Ok? ==> (if book.id == 0 then r.value.id == old(nextBookId) else r.value.id == book.id)
      ensures r.Ok? ==> books == old(books)[r.value.id := r.value]
      ensures r.Ok? ==> comments == old(comments) && nextCommentId == old(nextCommentId)
      ensures r.Ok? ==> nextBookId == if r.value.id < old(nextBookId) then old(nextBookId) else r.value.id + 1
    {
      if fault.Some? {
        return Err(Failure(fault.value));
      }
      if book.id in books {
        return Err(Failure(DuplicateEntryText));
      }
      var key := if book.id == 0 then nextBookId else book.id;
      var row := book.(id := key);
      books := books[key := row];
      if nextBookId <= key {
        nextBookId := key + 1;
      }
      r := Ok(row);
    }

    /** `GetBook`: the stored book keyed `id`, or `NotFound`. */
    method GetBook(id: nat, fault: Option<string>) returns (r: Result<Book>)
      requires Valid()
      ensures fault.Some? ==> r == Err(Failure(fault.value))
      ensures fault.None? ==> (r.Ok? <==> id in books)
      ensures fault.None? && id in books ==> r == Ok(books[id])
      ensures fault.None? && id !in books ==> r == Err(NotFound)
    {
      if fault.Some? {
        return Err(Failure(fault.value));
      }
      match First(BooksWithId(id))
      case Some(b) => r := Ok(b);
      case None => r := Err(NotFound);
    }

    /** `PutBook`: replace the row under `book.id`; every other row stays. The caller
        has checked that the key exists. */
    method PutBook(book: Book, fault: Option<string>) returns (r: Result<Book>)
      requires Valid() && book.id in books
      modifies this
      ensures Valid()
      ensures fault.Some? ==> r == Err(Failure(fault.value)) && unchanged(this)
      ensures fault.None? ==> r == Ok(book)
      ensures fault.None? ==> books == old(books)[book.id := book]
      ensures fault.None? ==> comments == old(comments)
      ensures fault.None? ==> nextBookId == old(nextBookId) && nextCommentId == old(nextCommentId)
    {
      if fault.Some? {
        return Err(Failure(fault.value));
      }
      books := books[book.id := book];
      r := Ok(book);
    }

    /** `DeleteBook`: look the book up, then remove it for good. The comments that
        refer to it stay. */
    method DeleteBook(id: nat, fault: Option<string>) returns (r: Result<Book>)
      requires Valid()
      modifies this
      ensures Valid()
      ensures fault.Some? ==> r == Err(Failure(fault.value))
      ensures fault.None? && id !in old(books) ==> r == Err(NotFound)
      ensures r.Err? ==> unchanged(this)
      ensures fault.None? && id in old(books) ==> r == Ok(old(books)[id])
      ensures r.Ok? ==> books == old(books) - {id} && comments == old(comments)
      ensures r.Ok? ==> nextBookId == old(nextBookId) && nextCommentId == old(nextCommentId)
    {
      if fault.Some? {
        return Err(Failure(fault.value));
      }
      match First(BooksWithId(id))
      case None =>
        r := Err(NotFound);
      case Some(b) =>
        books := books - {b.id};
        r := Ok(b);
    }

    // ------------------------------------------------------------- comments

    /** The keys of the comments of book `bookId`, in ascending order. */
    function CommentKeysOf(bookId: nat): seq<nat>
      reads this
    {
      KeysWhere(comments, nextCommentId, (c: Comment) => c.bookId == bookId)
    }

    /** The filtered count over `book_id = ?` is the number of comments of that book. */
    lemma CommentKeysOfCount(bookId: nat)
      requires Valid()
      ensures |CommentKeysOf(bookId)| == |set k | k in comments && comments[k].bookId == bookId|
      ensures |CommentKeysOf(bookId)| == 0 <==> forall k :: k in comments ==> comments[k].bookId != bookId
    {
      var where := (c: Comment) => c.bookId == bookId;
      var ks := KeysWhere(comments, nextCommentId, where);
      KeysWhereCount(comments, nextCommentId, where);
      assert KeySet(comments, nextCommentId, where) == set k | k in comments && comments[k].bookId == bookId;
      if k :| k in comments && comments[k].bookId == bookId {
        assert k in ks;
      }
    }

    /** `WHERE book_id = ?` over the comment table, in key order. */
    function CommentsOfBook(bookId: nat): (rows: seq<Comment>)
      reads this
      requires Valid()
      ensures forall i :: 0 <= i < |rows| ==>
        rows[i].bookId == bookId && rows[i].id in comments && comments[rows[i].id] == rows[i]
      ensures forall i, j :: 0 <= i < j < |rows| ==> rows[i].id < rows[j].id
      ensures |rows| == |set k | k in comments && comments[k].bookId == bookId|
      ensures |rows| == 0 <==> forall k :: k in comments ==> comments[k].bookId != bookId
    {
      var ks := CommentKeysOf(bookId);
      CommentKeysOfCount(bookId);
      var rows := Rows(comments, ks);
      CommentRowsFollowKeys(bookId, ks, rows);
      rows
    }

    /** Rows read under keys of book `bookId`'s comments carry those keys as their `id`s
        and belong to that book. */
    lemma CommentRowsFollowKeys(bookId: nat, ks: seq<nat>, rows: seq<Comment>)
      requires Valid()
      requires forall i :: 0 <= i < |ks| ==> ks[i] in comments && comments[ks[i]].bookId == bookId
      requires |rows| == |ks| && forall i :: 0 <= i < |ks| ==> rows[i] == comments[ks[i]]
      ensures forall i :: 0 <= i < |rows| ==>
        rows[i].id == ks[i] && rows[i].bookId == bookId &&
        rows[i].id in comments && comments[rows[i].id] == rows[i]
    {
      forall i | 0 <= i < |rows|
        ensures rows[i].id == ks[i] && rows[i].bookId == bookId
        ensures rows[i].id in comments && comments[rows[i].id] == rows[i]
      {
        var k := ks[i];
        assert k in comments && rows[i] == comments[k];
      }
    }

    /** `WHERE book_id = ? AND id = ?` over the comment table. */
    function MatchingComments(bookId: nat, id: nat): (rows: seq<Comment>)
      reads this
      requires Valid()
      ensures |rows| > 0 <==> id in comments && comments[id].bookId == bookId
      ensures |rows| > 0 ==> rows[0] == comments[id]
    {
      var ks := KeysWhere(comments, nextCommentId, (c: Comment) => c.bookId == bookId && c.id == id);
      assert |ks| > 0 ==> ks[0] == id;
      assert id in comments && comments[id].bookId == bookId ==> id in ks;
      Rows(comments, ks)
    }

    /** `ValidateCommentId`: true exactly when `id` keys a comment of book `bookId`. */
    function ValidateCommentId(bookId: nat, id: nat): (r: bool)
      reads this
      requires Valid()
      ensures r <==> id in comments && comments[id].bookId == bookId
    {
      |MatchingComments(bookId, id)| > 0
    }

    /** `GetComments`: the number of comments of book `bookId`, and the page of at most
        `pageSize` of them that starts at row `(pageNumber - 1) * pageSize` in key
        order. Whether the book exists is not asked. */
    method GetComments(bookId: nat, pageNumber: int, pageSize: int, fault: Option<string>)
      returns (r: Result<Listing<Comment>>)
      requires Valid() && pageNumber >= 1 && pageSize >= 1
      ensures fault.Some? ==> r == Err(Failure(fault.value))
      ensures fault.None? ==> r.Ok?
      ensures fault.None? ==> r.value.total == |set k | k in comments && comments[k].bookId == bookId|
      ensures fault.None? ==> (r.value.total == 0 <==> forall k :: k in comments ==> comments[k].bookId != bookId)
      ensures fault.None? ==> r.value.rows == Page(CommentsOfBook(bookId), Offset(pageNumber, pageSize), pageSize)
      ensures fault.None? ==> |r.value.rows| <= pageSize
      ensures fault.None? ==> forall i :: 0 <= i < |r.value.rows| ==>
        && r.value.rows[i].bookId == bookId
        && r.value.rows[i].id in comments && comments[r.value.rows[i].id] == r.value.rows[i]
    {
      if fault.Some? {
        return Err(Failure(fault.value));
      }
      var rows := CommentsOfBook(bookId);
      var page := Page(rows, Offset(pageNumber, pageSize), pageSize);
      assert forall i :: 0 <= i < |page| ==> page[i] in rows;
      r := Ok(Listing(|rows|, page));
    }

    /** `PostComment`: insert, allocating the key as `PostBook` does. */
    method PostComment(comment: Comment, fault: Option<string>) returns (r: Result<Comment>)
      requires Valid()
      modifies this
      ensures Valid()
      ensures fault.Some? ==> r == Err(Failure(fault.value))
      ensures fault.None? && comment.id in old(comments) ==> r == Err(Failure(DuplicateEntryText))
      ensures fault.None? && comment.id !in old(comments) ==> r.Ok?
      ensures r.Err? ==> unchanged(this)
      ensures r.Ok? ==> r.value == comment.(id := r.value.id)
      ensures r.Ok? ==> r.value.id !in old(comments) && r.value.id > 0
      ensures r.Ok? ==> (if comment.id == 0 then r.value.id == old(nextCommentId) else r.value.id == comment.id)
      ensures r.Ok? ==> comments == old(comments)[r.value.id := r.value]
      ensures r.Ok? ==> books == old(books) && nextBookId == old(nextBookId)
      ensures r.Ok? ==> nextCommentId == if r.value.id < old(nextCommentId) then old(nextCommentId) else r.value.id + 1
    {
      if fault.Some? {
        return Err(Failure(fault.value));
      }
      if comment.id in comments {
        return Err(Failure(DuplicateEntryText));
      }
      var key := if comment.id == 0 then nextCommentId else comment.id;
      var row := comment.(id := key);
      comments := comments[key := row];
      if nextCommentId <= key {
        nextCommentId := key + 1;
      }
      r := Ok(row);
    }

    /** `GetComment`: the comment with key `id` and owner `bookId`; a comment keyed
        `id` that belongs to another book is `NotFound`. */
    method GetComment(bookId: nat, id: nat, fault: Option<string>) returns (r: Result<Comment>)
      requires Valid()
      ensures fault.Some? ==> r == Err(Failure(fault.value))
      ensures fault.None? ==> (r.Ok? <==> id in comments && comments[id].bookId == bookId)
      ensures fault.None? && r.Ok? ==> r.value == comments[id]
      ensures fault.None? && !r.Ok? ==> r == Err(NotFound)
    {
      if fault.Some? {
        return Err(Failure(fault.value));
      }
      match First(MatchingComments(bookId, id))
      case Some(c) => r := Ok(c);
      case None => r := Err(NotFound);
    }

    /** `PutComment`: replace the row under `comment.id`; every other row stays. The
        caller has checked that the key exists. */
    method PutComment(comment: Comment, fault: Option<string>) returns (r: Result<Comment>)
      requires Valid() && comment.id in comments
      modifies this
      ensures Valid()
      ensures fault.Some? ==> r == Err(Failure(fault.value)) && unchanged(this)
      ensures fault.None? ==> r == Ok(comment)
      ensures fault.None? ==> comments == old(comments)[comment.id := comment]
      ensures fault.None? ==> books == old(books)
      ensures fault.None? ==> nextBookId == old(nextBookId) && nextCommentId == old(nextCommentId)
    {
      if fault.Some? {
        return Err(Failure(fault.value));
      }
      comments := comments[comment.id := comment];
      r := Ok(comment);
    }

    /** `DeleteComment`: look up the comment by (`bookId`, `id`), then remove it for
        good. */
    method DeleteComment(bookId: nat, id: nat, fault: Option<string>) returns (r: Result<Comment>)
      requires Valid()
      modifies this
      ensures Valid()
      ensures fault.Some? ==> r == Err(Failure(fault.value))
      ensures fault.None? && !(id in old(comments) && old(comments)[id].bookId == bookId) ==> r == Err(NotFound)
      ensures r.Err? ==> unchanged(this)
      ensures fault.None? && id in old(comments) && old(comments)[id].bookId == bookId ==>
        r == Ok(old(comments)[id])
      ensures r.Ok? ==> comments == old(comments) - {id} && books == old(books)
      ensures r.Ok? ==> nextBookId == old(nextBookId) && nextCommentId == old(nextCommentId)
    {
      if fault.Some? {
        return Err(Failure(fault.value));
      }
      match First(MatchingComments(bookId, id))
      case None =>
        r := Err(NotFound);
      case Some(c) =>
        comments := comments - {c.id};
        r := Ok(c);
    }
  }
}
