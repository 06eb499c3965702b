/** The review ledger of auth_users.js on catalog values: adding, modifying
    and deleting `books[isbn].reviews[username]`, where `username` is always
    the caller's own session username. */
module Ledger {
  import opened Records

  /** JavaScript truthiness of `reviews[username]`: the key is present and
      its text is not empty. */
  predicate HasReview(reviews: map<string, string>, username: string)
  {
    username in reviews && reviews[username] != ""
  }

  /** The entry `username` holds in the review map of book `isbn`, if any:
      the value GET /review/:isbn shows under that key
      (`Store.ReviewsShowEntry` connects the two). */
  function ReviewEntry(books: map<string, Book>, isbn: string, username: string): Option<string>
  {
    if isbn in books && username in books[isbn].reviews then Some(books[isbn].reviews[username]) else None
  }

  /** PUT /auth/review/:isbn. Missing review text first (even for a missing
      book), then a missing book; otherwise the caller's entry is set, and
      nothing else in the catalog changes. */
  function Put(books: map<string, Book>, isbn: string, username: string, review: Option<string>): (s: Step<map<string, Book>>)
    ensures !Present(review) ==> s == Step(Err(BadRequest(ReviewField)), books)
    ensures Present(review) && isbn !in books ==> s == Step(Err(NotFound), books)
    ensures s.outcome.Ok? <==> Present(review) && isbn in books
    ensures s.outcome.Ok? ==>
      && s.state.Keys == books.Keys
      && (forall k :: k in books && k != isbn ==> s.state[k] == books[k])
      && s.state[isbn].author == books[isbn].author
      && s.state[isbn].title == books[isbn].title
      && s.state[isbn].reviews.Keys == books[isbn].reviews.Keys + {username}
      && s.state[isbn].reviews[username] == review.value
      && (forall u :: u in books[isbn].reviews && u != username ==>
            s.state[isbn].reviews[u] == books[isbn].reviews[u])
  {
    if !Present(review) then Step(Err(BadRequest(ReviewField)), books)
    else if isbn !in books then Step(Err(NotFound), books)
    else
      var book := books[isbn];
      Step(Ok(()), books[isbn := book.(reviews := book.reviews[username := review.value])])
  }

  /** DELETE /auth/review/:isbn. A missing book first, then no (truthy) review
      by the caller; otherwise only the caller's entry is removed. */
  function Delete(books: map<string, Book>, isbn: string, username: string): (s: Step<map<string, Book>>)
    ensures isbn !in books ==> s == Step(Err(NotFound), books)
    ensures isbn in books && !HasReview(books[isbn].reviews, username) ==> s == Step(Err(ReviewNotFound), books)
    ensures s.outcome.Ok? <==> isbn in books && HasReview(books[isbn].reviews, username)
    ensures s.outcome.Ok? ==>
      && s.state.Keys == books.Keys
      && (forall k :: k in books && k != isbn ==> s.state[k] == books[k])
      && s.state[isbn].author == books[isbn].author
      && s.state[isbn].title == books[isbn].title
      && s.state[isbn].reviews.Keys == books[isbn].reviews.Keys - {username}
      && (forall u :: u in books[isbn].reviews && u != username ==>
            s.state[isbn].reviews[u] == books[isbn].reviews[u])
  {
    if isbn !in books then Step(Err(NotFound), books)
    else if !HasReview(books[isbn].reviews, username) then Step(Err(ReviewNotFound), books)
    else
      var book := books[isbn];
      Step(Ok(()), books[isbn := book.(reviews := book.reviews - {username})])
  }

  /** Repeating the same upsert leaves the same state and reports the same outcome. */
  lemma PutIdempotent(books: map<string, Book>, isbn: string, username: string, review: Option<string>)
    ensures var once := Put(books, isbn, username, review);
      Put(once.state, isbn, username, review) == once
  {
    var once := Put(books, isbn, username, review);
    if once.outcome.Ok? {
      var book := books[isbn];
      var twice := Put(once.state, isbn, username, review);
      assert twice.state[isbn].reviews == once.state[isbn].reviews;
      assert twice.state[isbn] == once.state[isbn];
      assert twice.state == once.state;
    }
  }

  /** A review written by a successful upsert is visible under the caller's
      name, and deleting it next succeeds and leaves no entry for the caller. */
  lemma PutThenDelete(books: map<string, Book>, isbn: string, username: string, review: Option<string>)
    requires Put(books, isbn, username, review).outcome.Ok?
    ensures var written := Put(books, isbn, username, review).state;
      && ReviewEntry(written, isbn, username) == review
      && Delete(written, isbn, username).outcome.Ok?
      && ReviewEntry(Delete(written, isbn, username).state, isbn, username) == None
  {
  }

  /** No stored review is the empty string. */
  ghost predicate NoEmptyReviews(books: map<string, Book>)
  {
    forall k, u :: k in books && u in books[k].reviews ==> books[k].reviews[u] != ""
  }

  /** Upsert never stores an empty review, and delete only removes entries, so
      a catalog without empty reviews keeps that property. */
  lemma LedgerKeepsReviewsNonEmpty(books: map<string, Book>, isbn: string, username: string, review: Option<string>)
    requires NoEmptyReviews(books)
    ensures NoEmptyReviews(Put(books, isbn, username, review).state)
    ensures NoEmptyReviews(Delete(books, isbn, username).state)
  {
  }

  /** For reviews written through upsert, delete's truthiness test is the same
      as key membership. */
  lemma DeleteTestIsMembership(books: map<string, Book>, isbn: string, username: string)
    requires NoEmptyReviews(books)
    requires isbn in books
    ensures Delete(books, isbn, username).outcome == Err(ReviewNotFound) <==> username !in books[isbn].reviews
  {
  }

  /** A request the caller's session can issue against the review routes. */
  datatype Request = PutRequest(isbn: string, review: Option<string>) | DeleteRequest(isbn: string)

  function Apply(books: map<string, Book>, username: string, request: Request): Step<map<string, Book>>
  {
    match request
    case PutRequest(isbn, review) => Put(books, isbn, username, review)
    case DeleteRequest(isbn) => Delete(books, isbn, username)
  }

  /** The catalog after the caller `username` issues `requests` in order. */
  function Run(books: map<string, Book>, username: string, requests: seq<Request>): map<string, Book>
    decreases |requests|
  {
    if requests == [] then books
    else Run(Apply(books, username, requests[0]).state, username, requests[1..])
  }

  /** Ownership: whatever review requests the caller `username` issues, every
      other reviewer's entry on every book is exactly as before, and no book is
      added, removed, or changed in author or title. */
  lemma {:induction false} OthersReviewsUntouched(books: map<string, Book>, username: string, requests: seq<Request>, other: string, isbn: string)
    requires other != username
    ensures ReviewEntry(Run(books, username, requests), isbn, other) == ReviewEntry(books, isbn, other)
    ensures Run(books, username, requests).Keys == books.Keys
    ensures isbn in books ==>
      && Run(books, username, requests)[isbn].author == books[isbn].author
      && Run(books, username, requests)[isbn].title == books[isbn].title
    decreases |requests|
  {
    if requests != [] {
      var next := Apply(books, username, requests[0]).state;
      OthersReviewsUntouched(next, username, requests[1..], other, isbn);
    }
  }
}
