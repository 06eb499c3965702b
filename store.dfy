/** The service's shared state: the `books` object the routers share (its key
    order kept as `order`) and the `users` array, with the lookups of
    general.js and the handlers of both routers as members. */
module Store {
  import opened Records
  import Registry
  import Catalog
  import Ledger

  class Store {
    var books: map<string, Book>
    var order: seq<string>
    var users: seq<User>

    ghost predicate Valid()
      reads this
    {
      Catalog.ListsEachKeyOnce(order, books) && Registry.UniqueUsernames(users)
    }

    /** The catalog is seeded once; the registry starts empty. */
    constructor (order: seq<string>, seed: map<string, Book>)
      requires Catalog.ListsEachKeyOnce(order, seed)
      ensures Valid()
      ensures books == seed && this.order == order && users == []
    {
      books := seed;
      this.order := order;
      users := [];
    }

    /** `getBooks`: the whole catalog, in key order; it never fails. */
    function AllBooks(): (r: Listing)
      reads this
      ensures r.keys == order && r.entries == books
    {
      Listing(order, books)
    }

    /** `getBookByISBN`: the record stored under `isbn`, or not found. */
    function BookByIsbn(isbn: string): (r: Result<Book>)
      reads this
      ensures r.Ok? <==> isbn in books
      ensures r.Ok? ==> r.value == books[isbn]
      ensures r.Err? ==> r.error == NotFound
    {
      if isbn in books then Ok(books[isbn]) else Err(NotFound)
    }

    /** GET /review/:isbn: the book's review map, or not found. */
    function ReviewsOf(isbn: string): (r: Result<map<string, string>>)
      reads this
      ensures r.Ok? <==> isbn in books
      ensures r.Ok? ==> r.value == books[isbn].reviews
      ensures r.Err? ==> r.error == NotFound
    {
      if isbn in books then Ok(books[isbn].reviews) else Err(NotFound)
    }

    /** The `forEach` over `Object.keys(books)` shared by `getBooksByAuthor`
        and `getBooksByTitle`: copy, in key order, every record whose field
        equals `value` into a fresh result object. */
    method Collect(key: Catalog.Key, value: string) returns (found: Listing)
      requires forall k :: k in order ==> k in books
      ensures found.keys == Catalog.MatchingKeys(order, books, key, value)
      ensures forall k :: k in found.entries <==> k in found.keys
      ensures forall k :: k in found.entries ==> found.entries[k] == books[k]
    {
      var keys: seq<string> := [];
      var entries: map<string, Book> := map[];
      var i := 0;
      while i < |order|
        invariant 0 <= i <= |order|
        invariant keys == Catalog.MatchingKeys(order[..i], books, key, value)
        invariant forall k :: k in entries <==> k in keys
        invariant forall k :: k in entries ==> entries[k] == books[k]
      {
        var k := order[i];
        Catalog.MatchingKeysStep(order, i, books, key, value);
        if Catalog.FieldOf(books[k], key) == value {
          keys := keys + [k];
          entries := entries[k := books[k]];
        }
        i := i + 1;
      }
      assert order[..i] == order;
      found := Listing(keys, entries);
    }

    /** The scan's verdict: an empty result object is reported as not found,
        otherwise it is returned. */
    method Scan(key: Catalog.Key, value: string) returns (r: Result<Listing>)
      requires Valid()
      ensures r.Ok? ==> r.value.keys == Catalog.MatchingKeys(order, books, key, value)
      ensures r.Ok? ==> forall k :: k in r.value.entries <==> k in books && Catalog.FieldOf(books[k], key) == value
      ensures r.Ok? ==> forall k :: k in r.value.entries ==> r.value.entries[k] == books[k]
      ensures r.Err? <==> forall k :: k in books ==> Catalog.FieldOf(books[k], key) != value
      ensures r.Err? ==> r.error == NotFound
    {
      var found := Collect(key, value);
      if |found.keys| > 0 {
        assert found.keys[0] in found.keys;
        r := Ok(found);
      } else {
        r := Err(NotFound);
      }
    }

    /** `getBooksByAuthor`: every record whose author is exactly `author`. */
    method BooksByAuthor(author: string) returns (r: Result<Listing>)
      requires Valid()
      ensures r.Ok? ==> r.value.keys == Catalog.MatchingKeys(order, books, Catalog.Author, author)
      ensures r.Ok? ==> forall k :: k in r.value.entries <==> k in books && books[k].author == author
      ensures r.Ok? ==> forall k :: k in r.value.entries ==> r.value.entries[k] == books[k]
      ensures r.Err? <==> forall k :: k in books ==> books[k].author != author
      ensures r.Err? ==> r.error == NotFound
    {
      r := Scan(Catalog.Author, author);
    }

    /** `getBooksByTitle`: every record whose title is exactly `title`. */
    method BooksByTitle(title: string) returns (r: Result<Listing>)
      requires Valid()
      ensures r.Ok? ==> r.value.keys == Catalog.MatchingKeys(order, books, Catalog.Title, title)
      ensures r.Ok? ==> forall k :: k in r.value.entries <==> k in books && books[k].title == title
      ensures r.Ok? ==> forall k :: k in r.value.entries ==> r.value.entries[k] == books[k]
      ensures r.Err? <==> forall k :: k in books ==> books[k].title != title
      ensures r.Err? ==> r.error == NotFound
    {
      r := Scan(Catalog.Title, title);
    }

    /** POST /register: `users.push` after the three checks. */
    method Register(username: Option<string>, password: Option<string>) returns (r: Result<()>)
      requires Valid()
      modifies this`users
      ensures Valid()
      ensures Step(r, users) == Registry.Register(old(users), username, password)
    {
      Registry.RegisterKeepsUsernamesUnique(users, username, password);
      if !Present(username) {
        return Err(BadRequest(UsernameField));
      }
      if !Present(password) {
        return Err(BadRequest(PasswordField));
      }
      if Registry.IsValid(users, username.value) {
        return Err(Conflict);
      }
      users := users + [User(username.value, password.value)];
      r := Ok(());
    }

    /** PUT /auth/review/:isbn for the session user `username`: assigns
        `books[isbn].reviews[username]` in place. */
    method PutReview(isbn: string, username: string, review: Option<string>) returns (r: Result<()>)
      requires Valid()
      modifies this`books
      ensures Valid()
      ensures Step(r, books) == Ledger.Put(old(books), isbn, username, review)
    {
      if !Present(review) {
        return Err(BadRequest(ReviewField));
      }
      if isbn !in books {
        return Err(NotFound);
      }
      var book := books[isbn];
      books := books[isbn := book.(reviews := book.reviews[username := review.value])];
      r := Ok(());
    }

    /** DELETE /auth/review/:isbn for the session user `username`: deletes
        `books[isbn].reviews[username]` in place. */
    method DeleteReview(isbn: string, username: string) returns (r: Result<()>)
      requires Valid()
      modifies this`books
      ensures Valid()
      ensures Step(r, books) == Ledger.Delete(old(books), isbn, username)
    {
      if isbn !in books {
        return Err(NotFound);
      }
      if !Ledger.HasReview(books[isbn].reviews, username) {
        return Err(ReviewNotFound);
      }
      var book := books[isbn];
      books := books[isbn := book.(reviews := book.reviews - {username})];
      r := Ok(());
    }
  }

  /** A listing and a lookup by ISBN always agree: the listing holds exactly
      the records the lookup finds. */
  lemma ListingAgreesWithLookup(s: Store, isbn: string)
    requires s.Valid()
    ensures s.BookByIsbn(isbn).Ok? <==> isbn in s.AllBooks().keys
    ensures s.BookByIsbn(isbn).Ok? ==> s.BookByIsbn(isbn).value == s.AllBooks().entries[isbn]
  {
  }

  /** GET /review/:isbn shows, under each username, exactly the ledger entry
      that the review lemmas speak about. */
  lemma ReviewsShowEntry(s: Store, isbn: string, username: string)
    ensures Ledger.ReviewEntry(s.books, isbn, username).Some? <==>
      s.ReviewsOf(isbn).Ok? && username in s.ReviewsOf(isbn).value
    ensures Ledger.ReviewEntry(s.books, isbn, username).Some? ==>
      Ledger.ReviewEntry(s.books, isbn, username).value == s.ReviewsOf(isbn).value[username]
  {
  }

  /** A session against a one-book catalog: the author scan, an upsert seen by
      the review read, a delete by someone without a review, and the owner's
      delete; then a registration followed by a login. */
  method Scenario()
  {
    var seed := map["001" := Book("A1", "T1", map[])];
    var store := new Store(["001"], seed);

    var byA1 := store.BooksByAuthor("A1");
    assert store.books["001"].author == "A1";
    assert byA1.Ok? && byA1.value.entries.Keys == {"001"};
    var byA2 := store.BooksByAuthor("A2");
    assert byA2 == Err(NotFound);

    var put := store.PutReview("001", "alice", Some("great"));
    assert put.Ok?;
    assert store.ReviewsOf("001") == Ok(map["alice" := "great"]);

    var wrongOwner := store.DeleteReview("001", "bob");
    assert wrongOwner == Err(ReviewNotFound);
    var del := store.DeleteReview("001", "alice");
    assert del.Ok?;
    assert store.ReviewsOf("001") == Ok(map[]);

    var reg := store.Register(Some("alice"), Some("pw"));
    assert reg.Ok?;
    Registry.RegisteredUserCanLogIn([], Some("alice"), Some("pw"));
    assert Registry.Login(store.users, Some("alice"), Some("pw")) == Ok(());
    var again := store.Register(Some("alice"), Some("other"));
    assert again == Err(Conflict);
  }
}
