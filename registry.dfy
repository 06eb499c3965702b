/** The user registry: the `users` array of auth_users.js with the `isValid`
    and `authenticatedUser` predicates, the login decision and registration. */
module Registry {
  import opened Records

  /** `isValid`: some registered account has exactly this username. */
  function IsValid(users: seq<User>, username: string): (r: bool)
    ensures r <==> exists i :: 0 <= i < |users| && users[i].username == username
  {
    if users == [] then false
    else if users[0].username == username then true
    else
      var rest := IsValid(users[1..], username);
      assert forall i :: 0 < i < |users| ==> users[i] == users[1..][i - 1];
      rest
  }

  /** `authenticatedUser`: one single account matches both the username and
      the password. */
  function AuthenticatedUser(users: seq<User>, username: string, password: string): (r: bool)
    ensures r <==> exists i :: 0 <= i < |users| && users[i] == User(username, password)
  {
    if users == [] then false
    else if users[0].username == username && users[0].password == password then true
    else
      var rest := AuthenticatedUser(users[1..], username, password);
      assert forall i :: 0 < i < |users| ==> users[i] == users[1..][i - 1];
      rest
  }

  /** Usernames are pairwise distinct. */
  ghost predicate UniqueUsernames(users: seq<User>)
  {
    forall i, j :: 0 <= i < j < |users| ==> users[i].username != users[j].username
  }

  /** The `/login` decision: missing username, then missing password, then the
      credential check. Signing a token and storing the session are not part
      of this model. */
  function Login(users: seq<User>, username: Option<string>, password: Option<string>): (r: Result<()>)
    ensures r == Err(BadRequest(UsernameField)) <==> !Present(username)
    ensures r == Err(BadRequest(PasswordField)) <==> Present(username) && !Present(password)
    ensures r.Ok? <==>
      Present(username) && Present(password) && AuthenticatedUser(users, username.value, password.value)
    ensures r.Err? && r.error != BadRequest(UsernameField) && r.error != BadRequest(PasswordField)
      ==> r.error == Unauthorized
  {
    if !Present(username) then Err(BadRequest(UsernameField))
    else if !Present(password) then Err(BadRequest(PasswordField))
    else if AuthenticatedUser(users, username.value, password.value) then Ok(())
    else Err(Unauthorized)
  }

  /** The `/register` handler: missing username, then missing password, then a
      taken username; otherwise the account is appended. */
  function Register(users: seq<User>, username: Option<string>, password: Option<string>): (s: Step<seq<User>>)
    ensures !Present(username) ==> s.outcome == Err(BadRequest(UsernameField))
    ensures Present(username) && !Present(password) ==> s.outcome == Err(BadRequest(PasswordField))
    ensures Present(username) && Present(password) && IsValid(users, username.value) ==>
      s.outcome == Err(Conflict)
    ensures s.outcome.Ok? <==> Present(username) && Present(password) && !IsValid(users, username.value)
    ensures s.outcome.Err? ==> s.state == users
    ensures s.outcome.Ok? ==>
      |s.state| == |users| + 1 && s.state[..|users|] == users &&
      s.state[|users|] == User(username.value, password.value)
  {
    if !Present(username) then Step(Err(BadRequest(UsernameField)), users)
    else if !Present(password) then Step(Err(BadRequest(PasswordField)), users)
    else if IsValid(users, username.value) then Step(Err(Conflict), users)
    else Step(Ok(()), users + [User(username.value, password.value)])
  }

  /** Registration is the only writer of `users`, and it keeps usernames distinct. */
  lemma RegisterKeepsUsernamesUnique(users: seq<User>, username: Option<string>, password: Option<string>)
    requires UniqueUsernames(users)
    ensures UniqueUsernames(Register(users, username, password).state)
  {
  }

  /** After a successful registration the username exists, registering it
      again is a conflict, and logging in with the same credentials succeeds. */
  lemma RegisteredUserCanLogIn(users: seq<User>, username: Option<string>, password: Option<string>)
    requires Register(users, username, password).outcome.Ok?
    ensures var after := Register(users, username, password).state;
      && IsValid(after, username.value)
      && Register(after, username, password).outcome == Err(Conflict)
      && Login(after, username, password) == Ok(())
  {
  }

  /** With distinct usernames, logging in as a registered user succeeds exactly
      when the password is the one stored for that user; a username or password
      matched by a different account does not count. */
  lemma AuthenticationMatchesStoredPassword(users: seq<User>, k: nat, password: string)
    requires UniqueUsernames(users)
    requires k < |users|
    ensures AuthenticatedUser(users, users[k].username, password) <==> users[k].password == password
  {
  }

  /** A successful login implies the username exists (`isValid`). */
  lemma LoginImpliesValid(users: seq<User>, username: Option<string>, password: Option<string>)
    requires Login(users, username, password).Ok?
    ensures IsValid(users, username.value)
  {
  }
}
