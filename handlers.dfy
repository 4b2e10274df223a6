/** The ten request handlers of the book and comment resources. Each takes the store
    handle, the path and query parameters as already parsed integers (`None` when the
    text does not parse), the request body as already decoded JSON (`None` when it could
    not be read), and, for each store procedure it calls, the backend error that
    procedure reports, if any (`fault`). It answers with a status and a message, or a
    status and a payload, and changes the store only when it answers with success. */
module Handlers {
  import opened Wrappers
  import opened Tables
  import opened Dao
  import opened Validation
  import opened PageCount

  const StatusOK := 200
  const StatusCreated := 201

  const BadRequest := "Bad Request."
  const InvalidPageNumber := "Bad Request. Invalid Page Number."
  const InvalidPageSize := "Bad Request. Invalid Page Size."
  const InvalidCommentId := "Bad Request. Invalid Comment ID."
  const RecordNotFound := "Record Not Found."

  /** The pagination metadata of a listing. */
  datatype Pagination = Pagination(
    total: int,
    totalPages: int,
    currentPage: int,
    perPage: int,
    count: int)

  datatype Payload =
    | OneBook(book: Book)
    | BookList(books: seq<Book>, meta: Pagination)
    | OneComment(comment: Comment)
    | CommentList(comments: seq<Comment>, meta: Pagination)

  /** An error response `{"error": {"code", "message"}}`, or a success response. */
  datatype Response =
    | ErrorReply(code: int, message: string)
    | Reply(code: int, payload: Payload)

  /** A path parameter that is a key: it parsed and is not negative. */
  predicate IsKey(p: Option<int>) {
    p.Some? && p.value >= 0
  }

  /** A page number or page size: it parsed and is positive. */
  predicate IsPageParam(p: Option<int>) {
    p.Some? && p.value > 0
  }

  /** The error response to a failed lookup or delete: not-found is kept apart from
      every other store error. */
  function LookupError(e: DbError): Response {
    match e
    case NotFound => ErrorReply(404, RecordNotFound)
    case Failure(message) => ErrorReply(500, message)
  }

  // ------------------------------------------------------------ listing metadata

  /** The `totalPages` a listing reports counts exactly the non-empty pages: page `p`
      of the rows holds something if and only if `p` is at most the page count. */
  lemma {:induction false} NonEmptyPagesAreCounted<T>(rows: seq<T>, pageNumber: int, pageSize: int)
    requires pageNumber >= 1 && pageSize >= 1
    ensures Page(rows, Offset(pageNumber, pageSize), pageSize) != [] <==>
            pageNumber <= TotalPages(|rows|, pageSize)
  {
    var n, pages := |rows|, TotalPages(|rows|, pageSize);
    var offset := Offset(pageNumber, pageSize);
    if pageNumber <= pages {
      MulMonotonic(pageNumber - 1, pages - 1, pageSize);
      assert offset < n;
    } else {
      MulMonotonic(pages, pageNumber - 1, pageSize);
      assert offset >= n;
    }
  }

  /** Row `i` of a listing appears on page `i / pageSize + 1`, at position
      `i % pageSize`, and that page is within the reported page count. */
  lemma {:induction false} RowIsOnItsPage<T>(rows: seq<T>, pageSize: int, i: int)
    requires pageSize >= 1 && 0 <= i < |rows|
    ensures var p := i / pageSize + 1;
      && 1 <= p <= TotalPages(|rows|, pageSize)
      && var page := Page(rows, Offset(p, pageSize), pageSize);
      && i % pageSize < |page|
      && page[i % pageSize] == rows[i]
  {
    var p := i / pageSize + 1;
    assert Offset(p, pageSize) + i % pageSize == i;
    NonEmptyPagesAreCounted(rows, p, pageSize);
  }

  // ------------------------------------------------------------ request bodies

  /** A decoded book body: each field is present or absent. The `ID` of the embedded
      record has no JSON tag, so a body can set it too. Its untagged timestamps,
      `DeletedAt` among them, are not decoded. */
  datatype BookJson = BookJson(
    id: Option<nat>,
    title: Option<Bytes>,
    author: Option<Bytes>,
    isbn: Option<Bytes>,
    publisher: Option<Bytes>,
    publicationDate: Option<Time>,
    pages: Option<int>)

  /** A decoded comment body; as for books, the timestamps are not decoded. */
  datatype CommentJson = CommentJson(
    id: Option<nat>,
    bookId: Option<nat>,
    author: Option<Bytes>,
    commentText: Option<Bytes>)

  /** The zero values a handler's record starts from. */
  const ZeroBook := Book(0, [], [], [], [], MinTime, 0)
  const ZeroComment := Comment(0, 0, [], [])

  /** Decoding a body into a record overwrites the fields the body has and keeps the
      others. */
  function DecodeBook(into: Book, body: BookJson): Book {
    Book(
      body.id.GetOr(into.id),
      body.title.GetOr(into.title),
      body.author.GetOr(into.author),
      body.isbn.GetOr(into.isbn),
      body.publisher.GetOr(into.publisher),
      body.publicationDate.GetOr(into.publicationDate),
      body.pages.GetOr(into.pages))
  }

  function DecodeComment(into: Comment, body: CommentJson): Comment {
    Comment(
      body.id.GetOr(into.id),
      body.bookId.GetOr(into.bookId),
      body.author.GetOr(into.author),
      body.commentText.GetOr(into.commentText))
  }

  // ------------------------------------------------------------------- books

  /** `GET /books?pageNumber=N&pageSize=M`. */
  method GetBooks(db: Store, pageNumber: Option<int>, pageSize: Option<int>, fault: Option<string>)
    returns (resp: Response)
    requires db.Valid()
    ensures !IsPageParam(pageNumber) ==> resp == ErrorReply(400, InvalidPageNumber)
    ensures IsPageParam(pageNumber) && !IsPageParam(pageSize) ==> resp == ErrorReply(400, InvalidPageSize)
    ensures IsPageParam(pageNumber) && IsPageParam(pageSize) && fault.Some? ==>
      resp == ErrorReply(500, fault.value)
    ensures IsPageParam(pageNumber) && IsPageParam(pageSize) && fault.None? ==>
      && resp.Reply? && resp.code == StatusOK && resp.payload.BookList?
      && resp.payload.books == Page(db.BookTable(), Offset(pageNumber.value, pageSize.value), pageSize.value)
      && |resp.payload.books| <= pageSize.value
      && resp.payload.meta == Pagination(
           |db.books|, TotalPages(|db.books|, pageSize.value),
           pageNumber.value, pageSize.value, |resp.payload.books|)
  {
    if pageNumber.None? || pageNumber.value <= 0 {
      return ErrorReply(400, InvalidPageNumber);
    }
    if pageSize.None? || pageSize.value <= 0 {
      return ErrorReply(400, InvalidPageSize);
    }
    var r := db.GetBooks(pageNumber.value, pageSize.value, fault);
    if r.Err? {
      return ErrorReply(500, ErrorText(r.error));
    }
    var rows := r.value.rows;
    var meta := Pagination(
      r.value.total, TotalPages(r.value.total, pageSize.value),
      pageNumber.value, pageSize.value, |rows|);
    resp := Reply(StatusOK, BookList(rows, meta));
  }

  /** `POST /books`. */
  method PostBook(db: Store, body: Option<BookJson>, now: Time, fault: Option<string>)
    returns (resp: Response)
    requires db.Valid()
    modifies db
    ensures db.Valid()
    ensures resp.ErrorReply? ==> unchanged(db)
    ensures body.None? ==> resp == ErrorReply(400, BadRequest)
    ensures body.Some? ==>
      var book := DecodeBook(ZeroBook, body.value);
      var check := old(BookValidation(db, book, now));
      && (check.Fail? ==> resp == ErrorReply(400, check.message))
      && (check.Pass? && fault.Some? ==> resp == ErrorReply(500, fault.value))
      && (check.Pass? && fault.None? && book.id in old(db.books) ==>
            resp == ErrorReply(500, DuplicateEntryText))
      && (check.Pass? && fault.None? && book.id !in old(db.books) ==>
            && resp.Reply? && resp.code == StatusCreated && resp.payload.OneBook?
            && var stored := resp.payload.book;
            && stored == book.(id := stored.id)
            && stored.id !in old(db.books)
            && (if book.id == 0 then stored.id == old(db.nextBookId) else stored.id == book.id)
            && db.books == old(db.books)[stored.id := stored]
            && db.comments == old(db.comments)
            && db.nextBookId == (if stored.id < old(db.nextBookId) then old(db.nextBookId) else stored.id + 1)
            && db.nextCommentId == old(db.nextCommentId))
    ensures old(db.IsbnsDistinct()) ==> db.IsbnsDistinct()
  {
    if body.None? {
      return ErrorReply(400, BadRequest);
    }
    var book := DecodeBook(ZeroBook, body.value);
    var check := BookValidation(db, book, now);
    if check.Fail? {
      return ErrorReply(check.code, check.message);
    }
    ghost var before := db.books;
    var r := db.PostBook(book, fault);
    if r.Err? {
      return ErrorReply(500, ErrorText(r.error));
    }
    assert IsbnFree(before, r.value.isbn, r.value.id);
    if DistinctIsbns(before) {
      IsbnGateKeepsDistinct(before, r.value.id, r.value);
    }
    resp := Reply(StatusCreated, OneBook(r.value));
  }

  /** `GET /books/{id}`. */
  method GetBook(db: Store, id: Option<int>, fault: Option<string>) returns (resp: Response)
    requires db.Valid()
    ensures !IsKey(id) ==> resp == ErrorReply(400, InvalidBookId)
    ensures IsKey(id) && fault.Some? ==> resp == ErrorReply(500, fault.value)
    ensures IsKey(id) && fault.None? && id.value !in db.books ==> resp == ErrorReply(404, RecordNotFound)
    ensures IsKey(id) && fault.None? && id.value in db.books ==>
      resp == Reply(StatusOK, OneBook(db.books[id.value]))
  {
    if id.None? || id.value < 0 {
      return ErrorReply(400, InvalidBookId);
    }
    var r := db.GetBook(id.value, fault);
    if r.Err? {
      return LookupError(r.error);
    }
    resp := Reply(StatusOK, OneBook(r.value));
  }

  /** `PUT /books/{id}`: the path id is set before the body is decoded, so a body id
      wins. The payload is validated before the key is looked up. */
  method PutBook(db: Store, id: Option<int>, body: Option<BookJson>, now: Time, fault: Option<string>)
    returns (resp: Response)
    requires db.Valid()
    modifies db
    ensures db.Valid()
    ensures resp.ErrorReply? ==> unchanged(db)
    ensures !IsKey(id) ==> resp == ErrorReply(400, InvalidBookId)
    ensures IsKey(id) && body.None? ==> resp == ErrorReply(400, BadRequest)
    ensures IsKey(id) && body.Some? ==>
      var book := DecodeBook(ZeroBook.(id := id.value), body.value);
      var check := old(BookValidation(db, book, now));
      && (check.Fail? ==> resp == ErrorReply(400, check.message))
      && (check.Pass? && book.id !in old(db.books) ==> resp == ErrorReply(404, RecordNotFound))
      && (check.Pass? && book.id in old(db.books) && fault.Some? ==> resp == ErrorReply(500, fault.value))
      && (check.Pass? && book.id in old(db.books) && fault.None? ==>
            && resp == Reply(StatusOK, OneBook(book))
            && db.books == old(db.books)[book.id := book]
            && db.comments == old(db.comments)
            && db.nextBookId == old(db.nextBookId) && db.nextCommentId == old(db.nextCommentId))
    ensures old(db.IsbnsDistinct()) ==> db.IsbnsDistinct()
  {
    if id.None? || id.value < 0 {
      return ErrorReply(400, InvalidBookId);
    }
    if body.None? {
      return ErrorReply(400, BadRequest);
    }
    var book := DecodeBook(ZeroBook.(id := id.value), body.value);
    var check := BookValidation(db, book, now);
    if check.Fail? {
      return ErrorReply(check.code, check.message);
    }
    if !db.ValidateBookId(book.id) {
      return ErrorReply(404, RecordNotFound);
    }
    ghost var before := db.books;
    var r := db.PutBook(book, fault);
    if r.Err? {
      return ErrorReply(500, ErrorText(r.error));
    }
    if DistinctIsbns(before) {
      IsbnGateKeepsDistinct(before, book.id, book);
    }
    resp := Reply(StatusOK, OneBook(r.value));
  }

  /** `DELETE /books/{id}`. The comments of the book stay. */
  method DeleteBook(db: Store, id: Option<int>, fault: Option<string>) returns (resp: Response)
    requires db.Valid()
    modifies db
    ensures db.Valid()
    ensures resp.ErrorReply? ==> unchanged(db)
    ensures !IsKey(id) ==> resp == ErrorReply(400, InvalidBookId)
    ensures IsKey(id) && fault.Some? ==> resp == ErrorReply(500, fault.value)
    ensures IsKey(id) && fault.None? && id.value !in old(db.books) ==> resp == ErrorReply(404, RecordNotFound)
    ensures IsKey(id) && fault.None? && id.value in old(db.books) ==>
      && resp == Reply(StatusOK, OneBook(old(db.books)[id.value]))
      && db.books == old(db.books) - {id.value}
      && db.comments == old(db.comments)
      && db.nextBookId == old(db.nextBookId) && db.nextCommentId == old(db.nextCommentId)
    ensures old(db.IsbnsDistinct()) ==> db.IsbnsDistinct()
  {
    if id.None? || id.value < 0 {
      return ErrorReply(400, InvalidBookId);
    }
    var r := db.DeleteBook(id.value, fault);
    if r.Err? {
      return LookupError(r.error);
    }
    resp := Reply(StatusOK, OneBook(r.value));
  }

  // ---------------------------------------------------------------- comments

  /** `GET /books/{bookId}/comments?pageNumber=N&pageSize=M`. Whether the book exists
      is not checked: the comments of a deleted book are still listed. */
  method GetComments(db: Store, bookId: Option<int>, pageNumber: Option<int>, pageSize: Option<int>,
                     fault: Option<string>)
    returns (resp: Response)
    requires db.Valid()
    ensures !IsKey(bookId) ==> resp == ErrorReply(400, InvalidBookId)
    ensures IsKey(bookId) && !IsPageParam(pageNumber) ==> resp == ErrorReply(400, InvalidPageNumber)
    ensures IsKey(bookId) && IsPageParam(pageNumber) && !IsPageParam(pageSize) ==>
      resp == ErrorReply(400, InvalidPageSize)
    ensures IsKey(bookId) && IsPageParam(pageNumber) && IsPageParam(pageSize) && fault.Some? ==>
      resp == ErrorReply(500, fault.value)
    ensures IsKey(bookId) && IsPageParam(pageNumber) && IsPageParam(pageSize) && fault.None? ==>
      var all := db.CommentsOfBook(bookId.value);
      && resp.Reply? && resp.code == StatusOK && resp.payload.CommentList?
      && resp.payload.comments == Page(all, Offset(pageNumber.value, pageSize.value), pageSize.value)
      && |resp.payload.comments| <= pageSize.value
      && (forall i :: 0 <= i < |resp.payload.comments| ==> resp.payload.comments[i].bookId == bookId.value)
      && resp.payload.meta == Pagination(
           |all|, TotalPages(|all|, pageSize.value),
           pageNumber.value, pageSize.value, |resp.payload.comments|)
  {
    if bookId.None? || bookId.value < 0 {
      return ErrorReply(400, InvalidBookId);
    }
    if pageNumber.None? || pageNumber.value <= 0 {
      return ErrorReply(400, InvalidPageNumber);
    }
    if pageSize.None? || pageSize.value <= 0 {
      return ErrorReply(400, InvalidPageSize);
    }
    var r := db.GetComments(bookId.value, pageNumber.value, pageSize.value, fault);
    if r.Err? {
      return ErrorReply(500, ErrorText(r.error));
    }
    var rows := r.value.rows;
    var meta := Pagination(
      r.value.total, TotalPages(r.value.total, pageSize.value),
      pageNumber.value, pageSize.value, |rows|);
    resp := Reply(StatusOK, CommentList(rows, meta));
  }

  /** `POST /books/{bookId}/comments`: the path book id is set after the body is
      decoded, so it always wins. */
  method PostComment(db: Store, bookId: Option<int>, body: Option<CommentJson>, fault: Option<string>)
    returns (resp: Response)
    requires db.Valid()
    modifies db
    ensures db.Valid()
    ensures resp.ErrorReply? ==> unchanged(db)
    ensures !IsKey(bookId) ==> resp == ErrorReply(400, InvalidBookId)
    ensures IsKey(bookId) && body.None? ==> resp == ErrorReply(400, BadRequest)
    ensures IsKey(bookId) && body.Some? ==>
      var comment := DecodeComment(ZeroComment, body.value).(bookId := bookId.value);
      var check := old(CommentValidation(db, comment));
      && (check.Fail? ==> resp == ErrorReply(400, check.message))
      && (check.Pass? && fault.Some? ==> resp == ErrorReply(500, fault.value))
      && (check.Pass? && fault.None? && comment.id in old(db.comments) ==>
            resp == ErrorReply(500, DuplicateEntryText))
      && (check.Pass? && fault.None? && comment.id !in old(db.comments) ==>
            && resp.Reply? && resp.code == StatusCreated && resp.payload.OneComment?
            && var stored := resp.payload.comment;
            && stored == comment.(id := stored.id)
            && stored.id !in old(db.comments)
            && (if comment.id == 0 then stored.id == old(db.nextCommentId) else stored.id == comment.id)
            && db.comments == old(db.comments)[stored.id := stored]
            && db.books == old(db.books)
            && db.nextCommentId == (if stored.id < old(db.nextCommentId) then old(db.nextCommentId) else stored.id + 1)
            && db.nextBookId == old(db.nextBookId))
    ensures resp.Reply? ==> resp.payload.OneComment? && resp.payload.comment.bookId == bookId.value
    ensures resp.Reply? ==> resp.payload.comment.bookId in db.books
  {
    if bookId.None? || bookId.value < 0 {
      return ErrorReply(400, InvalidBookId);
    }
    if body.None? {
      return ErrorReply(400, BadRequest);
    }
    var comment := DecodeComment(ZeroComment, body.value).(bookId := bookId.value);
    var check := CommentValidation(db, comment);
    if check.Fail? {
      return ErrorReply(check.code, check.message);
    }
    var r := db.PostComment(comment, fault);
    if r.Err? {
      return ErrorReply(500, ErrorText(r.error));
    }
    resp := Reply(StatusCreated, OneComment(r.value));
  }

  /** `GET /books/{bookId}/comments/{id}`: a comment keyed `id` of another book is not
      found. */
  method GetComment(db: Store, bookId: Option<int>, id: Option<int>, fault: Option<string>)
    returns (resp: Response)
    requires db.Valid()
    ensures !IsKey(bookId) ==> resp == ErrorReply(400, InvalidBookId)
    ensures IsKey(bookId) && !IsKey(id) ==> resp == ErrorReply(400, InvalidCommentId)
    ensures IsKey(bookId) && IsKey(id) && fault.Some? ==> resp == ErrorReply(500, fault.value)
    ensures IsKey(bookId) && IsKey(id) && fault.None? ==>
      if id.value in db.comments && db.comments[id.value].bookId == bookId.value
      then resp == Reply(StatusOK, OneComment(db.comments[id.value]))
      else resp == ErrorReply(404, RecordNotFound)
  {
    if bookId.None? || bookId.value < 0 {
      return ErrorReply(400, InvalidBookId);
    }
    if id.None? || id.value < 0 {
      return ErrorReply(400, InvalidCommentId);
    }
    var r := db.GetComment(bookId.value, id.value, fault);
    if r.Err? {
      return LookupError(r.error);
    }
    resp := Reply(StatusOK, OneComment(r.value));
  }

  /** `PUT /books/{bookId}/comments/{id}`: both path keys are set before the body is
      decoded, so body keys win. The payload is validated before the (book, id) pair
      is looked up; as that lookup must match the written book id, an update never
      moves a comment to another book. */
  method PutComment(db: Store, bookId: Option<int>, id: Option<int>, body: Option<CommentJson>,
                    fault: Option<string>)
    returns (resp: Response)
    requires db.Valid()
    modifies db
    ensures db.Valid()
    ensures resp.ErrorReply? ==> unchanged(db)
    ensures !IsKey(bookId) ==> resp == ErrorReply(400, InvalidBookId)
    ensures IsKey(bookId) && !IsKey(id) ==> resp == ErrorReply(400, InvalidCommentId)
    ensures IsKey(bookId) && IsKey(id) && body.None? ==> resp == ErrorReply(400, BadRequest)
    ensures IsKey(bookId) && IsKey(id) && body.Some? ==>
      var comment := DecodeComment(ZeroComment.(bookId := bookId.value, id := id.value), body.value);
      var check := old(CommentValidation(db, comment));
      var present := comment.id in old(db.comments) && old(db.comments)[comment.id].bookId == comment.bookId;
      && (check.Fail? ==> resp == ErrorReply(400, check.message))
      && (check.Pass? && !present ==> resp == ErrorReply(404, RecordNotFound))
      && (check.Pass? && present && fault.Some? ==> resp == ErrorReply(500, fault.value))
      && (check.Pass? && present && fault.None? ==>
            && resp == Reply(StatusOK, OneComment(comment))
            && db.comments == old(db.comments)[comment.id := comment]
            && db.books == old(db.books)
            && db.nextBookId == old(db.nextBookId) && db.nextCommentId == old(db.nextCommentId))
    ensures db.comments.Keys == old(db.comments).Keys
    ensures forall k :: k in db.comments ==> db.comments[k].bookId == old(db.comments)[k].bookId
  {
    if bookId.None? || bookId.value < 0 {
      return ErrorReply(400, InvalidBookId);
    }
    if id.None? || id.value < 0 {
      return ErrorReply(400, InvalidCommentId);
    }
    if body.None? {
      return ErrorReply(400, BadRequest);
    }
    var comment := DecodeComment(ZeroComment.(bookId := bookId.value, id := id.value), body.value);
    var check := CommentValidation(db, comment);
    if check.Fail? {
      return ErrorReply(check.code, check.message);
    }
    if !db.ValidateCommentId(comment.bookId, comment.id) {
      return ErrorReply(404, RecordNotFound);
    }
    var r := db.PutComment(comment, fault);
    if r.Err? {
      return ErrorReply(500, ErrorText(r.error));
    }
    resp := Reply(StatusOK, OneComment(r.value));
  }

  /** `DELETE /books/{bookId}/comments/{id}`. */
  method DeleteComment(db: Store, bookId: Option<int>, id: Option<int>, fault: Option<string>)
    returns (resp: Response)
    requires db.Valid()
    modifies db
    ensures db.Valid()
    ensures resp.ErrorReply? ==> unchanged(db)
    ensures !IsKey(bookId) ==> resp == ErrorReply(400, InvalidBookId)
    ensures IsKey(bookId) && !IsKey(id) ==> resp == ErrorReply(400, InvalidCommentId)
    ensures IsKey(bookId) && IsKey(id) && fault.Some? ==> resp == ErrorReply(500, fault.value)
    ensures IsKey(bookId) && IsKey(id) && fault.None? ==>
      if id.value in old(db.comments) && old(db.comments)[id.value].bookId == bookId.value
      then && resp == Reply(StatusOK, OneComment(old(db.comments)[id.value]))
           && db.comments == old(db.comments) - {id.value}
           && db.books == old(db.books)
           && db.nextBookId == old(db.nextBookId) && db.nextCommentId == old(db.nextCommentId)
      else resp == ErrorReply(404, RecordNotFound)
  {
    if bookId.None? || bookId.value < 0 {
      return ErrorReply(400, InvalidBookId);
    }
    if id.None? || id.value < 0 {
      return ErrorReply(400, InvalidCommentId);
    }
    var r := db.DeleteComment(bookId.value, id.value, fault);
    if r.Err? {
      return LookupError(r.error);
    }
    resp := Reply(StatusOK, OneComment(r.value));
  }
}
