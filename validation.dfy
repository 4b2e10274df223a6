/** The checks a book or a comment must pass before it is written. Each check is a chain
    of rules tried in a fixed order; the first rule that fails decides the single error
    reported, always with status 400. `BookRules` and `CommentRules` list the same rules
    as data, and `FirstViolation` says what "first failing rule wins" means for any such
    list. */
module Validation {
  import opened Dao

  /** Passing, or the status code and message of the error response. */
  datatype Outcome = Pass | Fail(code: int, message: string)

  const MaxTextLength := 255
  const MaxIsbnLength := 13

  const TitleEmpty := "Bad Request. Title cannot be empty."
  const TitleTooLong := "Bad Request. Title cannot be longer then 255 characters."
  const AuthorTooLong := "Bad Request. Author cannot be longer then 255 characters."
  const PublisherTooLong := "Bad Request. Publisher cannot be longer then 255 characters."
  const IsbnTooLong := "Bad Request. ISBN number cannot be longer then 13 characters."
  const IsbnNotUnique := "Bad Request. ISBN number must be unique."
  const TooFewPages := "Bad Request. Number of pages cannot be less than 1."
  const DateInFuture := "Bad Request. Publication date cannot be in the future."
  const AuthorEmpty := "Bad Request. Author cannot be empty."
  const CommentTooLong := "Bad Request. Comment cannot be longer then 255 characters."
  const InvalidBookId := "Bad Request. Invalid Book ID."

  // ------------------------------------------------------- first failure wins

  /** A rule of a check: whether the candidate satisfies it, and the message reported
      when it does not. */
  datatype Rule = Rule(holds: bool, message: string)

  /** Rule `i` is the first rule that fails. */
  predicate FirstBroken(rules: seq<Rule>, i: int) {
    0 <= i < |rules| && !rules[i].holds && forall j :: 0 <= j < i ==> rules[j].holds
  }

  /** Running the rules in order and stopping at the first that fails: the check passes
      exactly when every rule holds, and otherwise reports the message of the first
      failing rule. */
  function FirstViolation(rules: seq<Rule>): (r: Outcome)
    ensures r.Pass? <==> forall i :: 0 <= i < |rules| ==> rules[i].holds
    ensures r.Fail? ==> r.code == 400
    ensures r.Fail? ==> exists i :: FirstBroken(rules, i) && r.message == rules[i].message
  {
    if rules == [] then Pass
    else if !rules[0].holds then
      assert FirstBroken(rules, 0);
      Fail(400, rules[0].message)
    else
      var r := FirstViolation(rules[1..]);
      assert r.Fail? ==> exists i :: FirstBroken(rules, i) && r.message == rules[i].message by {
        if r.Fail? {
          var i :| FirstBroken(rules[1..], i) && r.message == rules[1..][i].message;
          assert FirstBroken(rules, i + 1);
        }
      }
      r
  }

  /** One step of the chain: the first rule decides, or the rest do. */
  lemma FirstViolationStep(rules: seq<Rule>)
    requires rules != []
    ensures FirstViolation(rules) ==
      if rules[0].holds then FirstViolation(rules[1..]) else Fail(400, rules[0].message)
  {
  }

  /** Checking two lists one after the other is checking their concatenation: the
      second list only speaks when the first passes. */
  lemma {:induction false} FirstViolationAppend(xs: seq<Rule>, ys: seq<Rule>)
    ensures FirstViolation(xs + ys) ==
      if FirstViolation(xs).Pass? then FirstViolation(ys) else FirstViolation(xs)
  {
    if xs != [] {
      assert (xs + ys)[0] == xs[0];
      assert (xs + ys)[1..] == xs[1..] + ys;
      FirstViolationStep(xs);
      FirstViolationStep(xs + ys);
      FirstViolationAppend(xs[1..], ys);
    } else {
      assert xs + ys == ys;
    }
  }

  /** A chain of four rules, spelled out. */
  lemma FirstViolationOfFour(a: Rule, b: Rule, c: Rule, d: Rule)
    ensures FirstViolation([a, b, c, d]) ==
      if !a.holds then Fail(400, a.message)
      else if !b.holds then Fail(400, b.message)
      else if !c.holds then Fail(400, c.message)
      else if !d.holds then Fail(400, d.message)
      else Pass
  {
    var r0 := [a, b, c, d];
    FirstViolationStep(r0); FirstViolationStep(r0[1..]);
    FirstViolationStep(r0[2..]); FirstViolationStep(r0[3..]);
    assert r0[1..][1..] == r0[2..] && r0[2..][1..] == r0[3..] && r0[3..][1..] == [];
  }

  // -------------------------------------------------------------------- books

  /** `bookValidation`. Lengths are byte lengths; `now` stands for the moment of the
      check. */
  function BookValidation(db: Store, book: Book, now: Time): (r: Outcome)
    reads db
    requires db.Valid()
    ensures r.Fail? ==> r.code == 400
    ensures r.Pass? <==>
      && 0 < |book.title| <= MaxTextLength
      && |book.author| <= MaxTextLength
      && |book.publisher| <= MaxTextLength
      && |book.isbn| <= MaxIsbnLength
      && IsbnFree(db.books, book.isbn, book.id)
      && book.pages >= 1
      && book.publicationDate <= now
  {
    if book.title == [] then Fail(400, TitleEmpty)
    else if |book.title| > MaxTextLength then Fail(400, TitleTooLong)
    else if |book.author| > MaxTextLength then Fail(400, AuthorTooLong)
    else if |book.publisher| > MaxTextLength then Fail(400, PublisherTooLong)
    else if |book.isbn| > MaxIsbnLength then Fail(400, IsbnTooLong)
    else if !db.ValidateIsbnNumber(book.isbn, book.id) then Fail(400, IsbnNotUnique)
    else if book.pages <= 0 then Fail(400, TooFewPages)
    else if book.publicationDate > now then Fail(400, DateInFuture)
    else Pass
  }

  /** The eight book rules in the order they are tried: the four length rules, then
      uniqueness, page count and date. */
  ghost function BookRules(db: Store, book: Book, now: Time): (rules: seq<Rule>)
    reads db
    requires db.Valid()
  {
    [ Rule(book.title != [], TitleEmpty),
      Rule(|book.title| <= MaxTextLength, TitleTooLong),
      Rule(|book.author| <= MaxTextLength, AuthorTooLong),
      Rule(|book.publisher| <= MaxTextLength, PublisherTooLong) ] +
    [ Rule(|book.isbn| <= MaxIsbnLength, IsbnTooLong),
      Rule(IsbnFree(db.books, book.isbn, book.id), IsbnNotUnique),
      Rule(book.pages >= 1, TooFewPages),
      Rule(book.publicationDate <= now, DateInFuture) ]
  }

  /** `bookValidation` reports exactly the first broken rule of `BookRules`. */
  lemma BookValidationIsFirstViolation(db: Store, book: Book, now: Time)
    requires db.Valid()
    ensures BookValidation(db, book, now) == FirstViolation(BookRules(db, book, now))
  {
    var a0 := Rule(book.title != [], TitleEmpty);
    var a1 := Rule(|book.title| <= MaxTextLength, TitleTooLong);
    var a2 := Rule(|book.author| <= MaxTextLength, AuthorTooLong);
    var a3 := Rule(|book.publisher| <= MaxTextLength, PublisherTooLong);
    var b0 := Rule(|book.isbn| <= MaxIsbnLength, IsbnTooLong);
    var b1 := Rule(IsbnFree(db.books, book.isbn, book.id), IsbnNotUnique);
    var b2 := Rule(book.pages >= 1, TooFewPages);
    var b3 := Rule(book.publicationDate <= now, DateInFuture);
    FirstViolationOfFour(a0, a1, a2, a3);
    FirstViolationOfFour(b0, b1, b2, b3);
    FirstViolationAppend([a0, a1, a2, a3], [b0, b1, b2, b3]);
  }

  /** Re-saving a book with the isbn it already has never fails the uniqueness rule,
      as long as isbns were distinct before. */
  lemma OwnIsbnIsNotADuplicate(db: Store, book: Book, now: Time)
    requires db.Valid() && db.IsbnsDistinct()
    requires book.id in db.books && book.isbn == db.books[book.id].isbn
    ensures BookValidation(db, book, now) != Fail(400, IsbnNotUnique)
  {
    assert IsbnFree(db.books, book.isbn, book.id);
  }

  // ----------------------------------------------------------------- comments

  /** `commentValidation`: the last rule asks whether the named book exists. */
  function CommentValidation(db: Store, comment: Comment): (r: Outcome)
    reads db
    requires db.Valid()
    ensures r.Fail? ==> r.code == 400
    ensures r.Pass? <==>
      && 0 < |comment.author| <= MaxTextLength
      && |comment.commentText| <= MaxTextLength
      && comment.bookId in db.books
  {
    if comment.author == [] then Fail(400, AuthorEmpty)
    else if |comment.author| > MaxTextLength then Fail(400, AuthorTooLong)
    else if |comment.commentText| > MaxTextLength then Fail(400, CommentTooLong)
    else if !db.ValidateBookId(comment.bookId) then Fail(400, InvalidBookId)
    else Pass
  }

  /** The four comment rules in the order they are tried. */
  ghost function CommentRules(db: Store, comment: Comment): (rules: seq<Rule>)
    reads db
  {
    [ Rule(comment.author != [], AuthorEmpty),
      Rule(|comment.author| <= MaxTextLength, AuthorTooLong),
      Rule(|comment.commentText| <= MaxTextLength, CommentTooLong),
      Rule(comment.bookId in db.books, InvalidBookId) ]
  }

  /** `commentValidation` reports exactly the first broken rule of `CommentRules`. */
  lemma CommentValidationIsFirstViolation(db: Store, comment: Comment)
    requires db.Valid()
    ensures CommentValidation(db, comment) == FirstViolation(CommentRules(db, comment))
  {
    FirstViolationOfFour(
      Rule(comment.author != [], AuthorEmpty),
      Rule(|comment.author| <= MaxTextLength, AuthorTooLong),
      Rule(|comment.commentText| <= MaxTextLength, CommentTooLong),
      Rule(comment.bookId in db.books, InvalidBookId));
  }
}
