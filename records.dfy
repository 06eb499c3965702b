/** Values shared by every part of the book-review service: request inputs,
    catalog records, user accounts and the outcomes of the handlers. */
module Records {

  /** A request field that may be missing (`undefined` in the request). */
  datatype Option<+T> = None | Some(value: T)

  /** JavaScript truthiness of a request field holding a string: it is falsy
      when it is missing and when it is the empty string. */
  predicate Present(field: Option<string>)
  {
    field.Some? && field.value != ""
  }

  /** A catalog record. Only the fields the handlers read are modelled;
      `reviews` maps a reviewer's username to their review text. */
  datatype Book = Book(author: string, title: string, reviews: map<string, string>)

  /** A registered account; the password is stored and compared verbatim. */
  datatype User = User(username: string, password: string)

  /** Which required request field was missing. */
  datatype Field = UsernameField | PasswordField | ReviewField

  /** The failures the handlers report, in place of HTTP status codes. */
  datatype Error =
    | BadRequest(missing: Field)   // 400 "... is required"
    | NotFound                     // 404 book (or author/title match) not found
    | Conflict                     // 409 username already exists
    | Unauthorized                 // 401 invalid username or password
    | ReviewNotFound               // 404 no review by this user on this book

  datatype Result<+T> = Ok(value: T) | Err(error: Error)

  /** The outcome of a state-changing handler together with the state it leaves. */
  datatype Step<+S> = Step(outcome: Result<()>, state: S)

  /** A JavaScript result object: its keys in insertion order and its entries. */
  datatype Listing = Listing(keys: seq<string>, entries: map<string, Book>)
}
