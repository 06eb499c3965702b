# Book-review service core, in Dafny

This project models the in-memory core of an Express book-review service. The
routers `general.js` and `auth_users.js` share a catalog `books` (ISBN → record
with `author`, `title` and a `reviews` object) and a `users` array. The core is:

- the catalog lookups: the full listing, lookup by ISBN, the author and title
  scans, and the review read;
- the user registry: registration, `isValid`, `authenticatedUser` and the login
  decision;
- the review ledger: the session user adds, replaces or deletes their own entry
  `books[isbn].reviews[username]`.

Layout, one module per file:

- `records.dfy` (`Records`): request inputs, records, accounts, errors, results.
  A request field is an `Option<string>`. `Present` is JavaScript truthiness:
  a field is missing when it is absent or `""`. HTTP statuses become the
  `Error` kinds `BadRequest`, `NotFound`, `Conflict`, `Unauthorized` and
  `ReviewNotFound`. A result object is a `Listing`: its keys in insertion order
  plus its entries.
- `registry.dfy` (`Registry`): `isValid`, `authenticatedUser`, the login
  decision, and registration as a specification function on the user list.
- `catalog.dfy` (`Catalog`): the explicit key order and `MatchingKeys`. That
  filter specifies which keys the author and title scans copy, and in what
  order.
- `ledger.dfy` (`Ledger`): review upsert and delete as specification functions
  on catalog values. It also holds the ownership lemma over any sequence of
  one caller's requests.
- `store.dfy` (`Store`): the shared state as a class. It has three fields:
  `books`, `order` (the order of `Object.keys(books)`) and `users`. The pure
  lookups are functions. The scan loop, registration and the two review
  handlers are methods, and each one is proved equal to the specification
  function above. A client method, `Scenario`, plays one session against a
  one-book catalog. It shows what callers can conclude from the contracts
  alone.

Notes on the code's behaviour:

- Registration rejects a missing username or password (400) before it
  checks for a duplicate.
- The review handlers read the session username directly and have no
  `Unauthorized` outcome. The middleware that guarantees it exists is not part of
  this model, so the username is a plain parameter.
- Delete tests the truthiness of `reviews[username]`, not key membership. A
  stored empty review therefore counts as absent. Upsert never stores `""`,
  so for reviews written through upsert the two tests agree
  (`Ledger.DeleteTestIsMembership`).
- Each lookup reads the catalog atomically when its 100 ms timer fires.
  Requests handled in between can change what it returns. The model
  evaluates each lookup, synchronously, on the state at that moment.

## Model

| member | source | states |
|---|---|---|
| Registry.IsValid | final_project/router/auth_users.js:8-11 | true exactly when some account in `users` has exactly this username |
| Registry.AuthenticatedUser | final_project/router/auth_users.js:13-17 | true exactly when one single account equals `{username, password}` |
| Registry.AuthenticationMatchesStoredPassword | final_project/router/auth_users.js:13-17 | with distinct usernames, authenticating as a registered user succeeds iff the password is the one stored for that user; a password of a different account does not count |
| Registry.Login | final_project/router/auth_users.js:26-48 | missing username gives BadRequest(username); otherwise a missing password gives BadRequest(password); otherwise Ok iff `authenticatedUser`, else Unauthorized |
| Registry.LoginImpliesValid | final_project/router/auth_users.js:35-46 | a successful login implies `isValid` of that username |
| Registry.Register | final_project/router/general.js:105-119 | missing username, then missing password (BadRequest), then an existing username (Conflict); on every failure `users` is unchanged; success iff all three checks pass, and it appends exactly one `{username, password}` at the end, keeping the prefix |
| Registry.RegisterKeepsUsernamesUnique | final_project/router/general.js:113-119 | registration keeps usernames pairwise distinct |
| Registry.RegisteredUserCanLogIn | final_project/router/general.js:114-120 | after a successful registration the username exists, registering it again is a Conflict, and logging in with the same credentials succeeds |
| Catalog.MatchingKeys | final_project/router/general.js:46-53 | the keys it lists are exactly the catalog keys whose field is exactly equal to the argument, taken in catalog key order |
| Catalog.MatchingKeysStep | final_project/router/general.js:49-53 | one `forEach` iteration appends the key exactly when its record matches |
| Catalog.MatchingKeysDistinct | final_project/router/general.js:49-53 | the scan never lists a key twice |
| Catalog.MatchingKeysPrefix | final_project/router/general.js:46-53 | scanning a longer key order only extends the earlier matches, so the result keeps the catalog's order |
| Store.Store.constructor | final_project/router/auth_users.js:3-6 | the store starts with the seeded catalog and key order and an empty user list |
| Store.Store.AllBooks | final_project/router/general.js:9-19 | `getBooks` never fails and returns every record, in catalog key order |
| Store.Store.BookByIsbn | final_project/router/general.js:22-35 | Ok with exactly `books[isbn]` iff the key is present, else NotFound |
| Store.ListingAgreesWithLookup | final_project/router/general.js:9-35 | the full listing holds exactly the ISBNs that the lookup finds, with the same records |
| Store.Store.ReviewsOf | final_project/router/general.js:260-271 | Ok with exactly `books[isbn].reviews` iff the book exists, else NotFound |
| Store.ReviewsShowEntry | final_project/router/general.js:265-267 | the review map GET /review shows holds a key exactly when the ledger has that entry, with the same text, so the ledger lemmas speak about what the handler returns |
| Store.Store.Collect | final_project/router/general.js:43-53 | the result object's keys are `MatchingKeys` in catalog order; its entries are exactly those keys, each holding the catalog record unchanged |
| Store.Store.Scan | final_project/router/general.js:56-60 | NotFound iff no record matches; otherwise every match with its record unchanged and nothing else (a sub-map of the catalog) |
| Store.Store.BooksByAuthor | final_project/router/general.js:39-66 | exactly the records whose author equals the argument, in catalog order, each unchanged; NotFound iff there is none |
| Store.Store.BooksByTitle | final_project/router/general.js:69-96 | the same contract keyed on the title field |
| Store.Store.Register | final_project/router/general.js:99-121 | the new user list and the outcome are those of `Registry.Register`; usernames stay distinct |
| Ledger.Put | final_project/router/auth_users.js:60-72 | missing review text first (BadRequest, even for a missing book), then a missing book (NotFound), and neither failure changes the catalog; a success sets the caller's entry to the text and leaves every other reviewer's entry, the book's author and title, and every other book unchanged |
| Ledger.Delete | final_project/router/auth_users.js:84-95 | a missing book gives NotFound, then no truthy review by the caller gives ReviewNotFound, and neither changes anything; a success removes only the caller's key and leaves every other entry and every other book unchanged |
| Ledger.PutIdempotent | final_project/router/auth_users.js:69-72 | repeating the same upsert gives the same outcome and leaves the state unchanged |
| Ledger.PutThenDelete | final_project/router/auth_users.js:72-95 | after an upsert the caller's review reads back as written; deleting it next succeeds and leaves no entry for the caller |
| Ledger.LedgerKeepsReviewsNonEmpty | final_project/router/auth_users.js:60-62 | upsert never stores an empty review, and delete keeps that property |
| Ledger.DeleteTestIsMembership | final_project/router/auth_users.js:89 | when no stored review is empty, ReviewNotFound happens exactly when the caller has no key on the book |
| Ledger.OthersReviewsUntouched | final_project/router/auth_users.js:55-95 | any sequence of review requests by one user leaves every other user's entry on every book unchanged; it also adds or removes no book and changes no author or title |
| Store.Store.PutReview | final_project/router/auth_users.js:53-75 | the in-place assignment leaves exactly the catalog and outcome of `Ledger.Put`; the key order and users are unchanged |
| Store.Store.DeleteReview | final_project/router/auth_users.js:78-98 | the in-place `delete` leaves exactly the catalog and outcome of `Ledger.Delete`; the key order and users are unchanged |

## Left out

- The `Promise`/`setTimeout(…, 100)` deferral and the `try/catch` branches that answer 500. The lookups are modelled as synchronous. For an in-memory map those branches cannot be reached.
- JWT signing and the session write on login (`jwt.sign`, `req.session.authorization`). They call a foreign library, so login is modelled as a decision only.
- The authentication middleware that guarantees `req.session.authorization.username`. It is not part of this model, so the review handlers take the username as a parameter.
- Express routing, HTTP status numbers and `JSON.stringify` pretty-printing.
- The commented-out `.then/.catch` handlers (dead code) and the unused `axios` import.
- The seed data in `booksdb.js`, which is not part of this model. Any catalog whose key order lists each key once can seed the store. Record fields other than author, title and reviews are not modelled.
- Non-string request values. JSON bodies may carry numbers or booleans, and repeated query parameters arrive as arrays. Each field is modelled as an optional string.
- Keys that collide with `Object.prototype` members, such as an ISBN or username `"constructor"` or `"__proto__"`. JavaScript lookups see inherited properties there. The model treats keys as plain map keys.
- The JavaScript rule that integer-like keys come first in numeric order. The catalog order is an explicit key sequence instead.
- Aliasing. JavaScript lookups hand out references to the stored records, which later review updates would change. The model returns values, the snapshot the response serializes at once.
- Interleaving. The register, PUT and DELETE handlers can run while a lookup waits on its timer; the model does not represent that wait, only the atomic read at the moment the timer fires. Each handler body itself runs without interruption.
- The order of keys in a book's `reviews` object, which GET /review/:isbn serializes in insertion order (an upsert keeps an existing key's place and appends a new key). Reviews are modelled as a map.
