/**
 * The credential store behind `POST /api/register` and `POST /api/login`:
 * a sequence of user records, validated registration with exact-match
 * duplicate-email rejection, and first-match lookup by email with one
 * indistinguishable failure for an unknown email and a wrong password.
 *
 * Password hashing is a pair of functions supplied by the caller (`Hasher`);
 * the properties that need bcrypt's promise (a password matches its own
 * hash) assume `Sound(h)`. The new record's id, its creation time and the
 * hash salt are parameters, since they come from a random generator and the
 * clock.
 */
module Credentials {
  import opened Wrappers
  import opened JsValues

  datatype UserRecord = UserRecord(id: string, username: string, email: string, password: string, createdAt: string)

  /** The JSON response: `{success, userId, username}` or an error status with its message. */
  datatype Response =
    | Ok(userId: string, username: string)
    | Failed(status: nat, error: string)

  /** bcrypt's `hash(password, salt)` and `compare(password, hash)`. */
  datatype Hasher = Hasher(hash: (string, string) -> string, compare: (string, string) -> bool)

  /** bcrypt's promise: every password matches every hash made from it. */
  ghost predicate Sound(h: Hasher)
  {
    forall password, salt :: h.compare(password, h.hash(password, salt))
  }

  const AllFieldsRequired := Failed(400, "All fields are required")
  const EmailInUseError := Failed(400, "Email already in use")
  const LoginFieldsRequired := Failed(400, "Email and password are required")
  const InvalidCredentials := Failed(401, "Invalid credentials")

  /** `users.some(user => user.email === email)`. */
  predicate EmailInUse(users: seq<UserRecord>, email: string)
  {
    exists i :: 0 <= i < |users| && users[i].email == email
  }

  /** Index of `users.find(u => u.email === email)`: the first record with that exact email. */
  function FindByEmail(users: seq<UserRecord>, email: string): (r: Option<nat>)
    ensures r.Some? ==> r.value < |users| && users[r.value].email == email
    ensures r.Some? ==> forall j :: 0 <= j < r.value ==> users[j].email != email
    ensures r.None? <==> !EmailInUse(users, email)
  {
    if users == [] then None
    else if users[0].email == email then Some(0)
    else
      match FindByEmail(users[1..], email)
      case None =>
        assert forall j :: 1 <= j < |users| ==> users[j] == users[1..][j - 1];
        None
      case Some(i) => Some(i + 1)
  }

  /** `users[i]` is the first record whose email is exactly `email`. */
  predicate FirstMatch(users: seq<UserRecord>, email: string, i: nat)
  {
    i < |users| && users[i].email == email &&
    forall j :: 0 <= j < i ==> users[j].email != email
  }

  /** No two records share an email. */
  ghost predicate EmailsUnique(users: seq<UserRecord>)
  {
    forall i, j :: 0 <= i < j < |users| ==> users[i].email != users[j].email
  }

  /** What a registration answers and what the store holds afterwards. */
  datatype Registration = Registration(response: Response, users: seq<UserRecord>)

  /** The register handler on the records `users`. */
  function RegisterOutcome(users: seq<UserRecord>, username: Field, email: Field, password: Field,
                           h: Hasher, salt: string, id: string, createdAt: string): (r: Registration)
    ensures users <= r.users && |r.users| <= |users| + 1
    ensures r.response.Ok? <==> |r.users| == |users| + 1
    ensures r.response.Failed? ==> r.response.status == 400
  {
    if !Truthy(username) || !Truthy(email) || !Truthy(password) then
      Registration(AllFieldsRequired, users)
    else if EmailInUse(users, email.value) then
      Registration(EmailInUseError, users)
    else
      var newUser := UserRecord(id, username.value, email.value, h.hash(password.value, salt), createdAt);
      Registration(Ok(newUser.id, newUser.username), users + [newUser])
  }

  /** The login handler on the records `users`. */
  function Login(users: seq<UserRecord>, email: Field, password: Field, h: Hasher): (r: Response)
    ensures r.Failed? ==> r == LoginFieldsRequired || r == InvalidCredentials
    ensures r.Ok? ==> Truthy(email)
    ensures r.Ok? ==> exists i: nat :: FirstMatch(users, email.value, i) && r == Ok(users[i].id, users[i].username)
  {
    if !Truthy(email) || !Truthy(password) then
      LoginFieldsRequired
    else
      match FindByEmail(users, email.value)
      case None => InvalidCredentials
      case Some(i) =>
        if !h.compare(password.value, users[i].password) then InvalidCredentials
        else Ok(users[i].id, users[i].username)
  }

  // ---------------------------------------------------------------------------
  // Registration

  /** A missing or empty field is refused with 400 and the store is left as it was. */
  lemma RegisterRejectsMissingField(users: seq<UserRecord>, username: Field, email: Field, password: Field,
                                    h: Hasher, salt: string, id: string, createdAt: string)
    requires !Truthy(username) || !Truthy(email) || !Truthy(password)
    ensures RegisterOutcome(users, username, email, password, h, salt, id, createdAt)
      == Registration(AllFieldsRequired, users)
  {
  }

  /** An email equal to that of any existing record is refused with 400 and the store is left as it was. */
  lemma RegisterRejectsDuplicate(users: seq<UserRecord>, username: Field, email: Field, password: Field,
                                 h: Hasher, salt: string, id: string, createdAt: string, k: nat)
    requires Truthy(username) && Truthy(email) && Truthy(password)
    requires k < |users| && users[k].email == email.value
    ensures RegisterOutcome(users, username, email, password, h, salt, id, createdAt)
      == Registration(EmailInUseError, users)
  {
  }

  /**
   * Registration succeeds exactly when all three fields are non-empty and
   * the email is new; it then appends one record at the end, keeps the
   * earlier records, stores the hash of the password rather than the
   * password, and answers with the new record's id and username.
   */
  lemma RegisterAppendsOneRecord(users: seq<UserRecord>, username: Field, email: Field, password: Field,
                                 h: Hasher, salt: string, id: string, createdAt: string)
    ensures var reg := RegisterOutcome(users, username, email, password, h, salt, id, createdAt);
      && (reg.response.Ok? <==> Truthy(username) && Truthy(email) && Truthy(password) && !EmailInUse(users, email.value))
      && (reg.response.Ok? ==>
            && |reg.users| == |users| + 1
            && reg.users[..|users|] == users
            && reg.users[|users|] == UserRecord(id, username.value, email.value, h.hash(password.value, salt), createdAt)
            && reg.response == Ok(id, username.value))
      && (!reg.response.Ok? ==> reg.users == users)
  {
    var reg := RegisterOutcome(users, username, email, password, h, salt, id, createdAt);
    if reg.response.Ok? {
      assert reg.users[..|users|] == users;
    }
  }

  /** Registration never lets two records share an email. */
  lemma RegisterKeepsEmailsUnique(users: seq<UserRecord>, username: Field, email: Field, password: Field,
                                  h: Hasher, salt: string, id: string, createdAt: string)
    requires EmailsUnique(users)
    ensures EmailsUnique(RegisterOutcome(users, username, email, password, h, salt, id, createdAt).users)
  {
    var reg := RegisterOutcome(users, username, email, password, h, salt, id, createdAt);
    if reg.users != users {
      forall i, j | 0 <= i < j < |reg.users| ensures reg.users[i].email != reg.users[j].email {
        if j == |users| {
          assert reg.users[i] == users[i];
        }
      }
    }
  }

  // ---------------------------------------------------------------------------
  // Login

  /**
   * An unknown email and a wrong password get the very same answer, 401
   * "Invalid credentials".
   */
  lemma LoginFailuresIndistinguishable(users: seq<UserRecord>, email: Field, password: Field, h: Hasher)
    requires Truthy(email) && Truthy(password)
    ensures !EmailInUse(users, email.value) ==> Login(users, email, password, h) == InvalidCredentials
    ensures forall i: nat :: FirstMatch(users, email.value, i) && !h.compare(password.value, users[i].password) ==>
      Login(users, email, password, h) == InvalidCredentials
  {
  }

  /**
   * Login succeeds exactly when both fields are non-empty, some record has
   * the email, and the password matches the first such record's hash; it
   * then answers with that record's id and username. A missing field is a
   * 400, every other failure the 401.
   */
  lemma LoginSucceedsOnFirstMatch(users: seq<UserRecord>, email: Field, password: Field, h: Hasher)
    ensures var r := Login(users, email, password, h);
      && (!Truthy(email) || !Truthy(password) ==> r == LoginFieldsRequired)
      && (Truthy(email) && Truthy(password) ==>
            && (r.Ok? <==> exists i: nat :: FirstMatch(users, email.value, i) && h.compare(password.value, users[i].password))
            && (r.Ok? ==> exists i: nat :: FirstMatch(users, email.value, i) && r == Ok(users[i].id, users[i].username))
            && (!r.Ok? ==> r == InvalidCredentials))
  {
    var r := Login(users, email, password, h);
    if Truthy(email) && Truthy(password) {
      match FindByEmail(users, email.value)
      case None =>
      case Some(i) =>
        assert FirstMatch(users, email.value, i);
        forall k: nat | FirstMatch(users, email.value, k) ensures k == i {
        }
    }
  }

  /** With a sound hasher, logging in right after registering yields the registered id and username. */
  lemma RegisterThenLogin(users: seq<UserRecord>, username: Field, email: Field, password: Field,
                          h: Hasher, salt: string, id: string, createdAt: string)
    requires Sound(h)
    requires RegisterOutcome(users, username, email, password, h, salt, id, createdAt).response.Ok?
    ensures var reg := RegisterOutcome(users, username, email, password, h, salt, id, createdAt);
      Login(reg.users, email, password, h) == Ok(id, username.value)
  {
    var reg := RegisterOutcome(users, username, email, password, h, salt, id, createdAt);
    var n := |users|;
    assert reg.users[n].email == email.value;
    assert forall j :: 0 <= j < n ==> reg.users[j] == users[j];
    assert FindByEmail(reg.users, email.value) == Some(n);
    assert h.compare(password.value, h.hash(password.value, salt));
  }

  // ---------------------------------------------------------------------------
  // The store, updated in place

  class UserStore {
    var users: seq<UserRecord>
    const bcrypt: Hasher

    ghost predicate Valid()
      reads this
    {
      EmailsUnique(users)
    }

    /** A fresh store holds no records. */
    constructor (h: Hasher)
      ensures Valid() && users == [] && bcrypt == h
    {
      users := [];
      bcrypt := h;
    }

    /** `POST /api/register`, as one atomic step. */
    method Register(username: Field, email: Field, password: Field, salt: string, id: string, createdAt: string)
      returns (resp: Response)
      requires Valid()
      modifies this
      ensures Valid()
      ensures Registration(resp, users) == RegisterOutcome(old(users), username, email, password, bcrypt, salt, id, createdAt)
    {
      RegisterKeepsEmailsUnique(users, username, email, password, bcrypt, salt, id, createdAt);
      if !Truthy(username) || !Truthy(email) || !Truthy(password) {
        return AllFieldsRequired;
      }
      if EmailInUse(users, email.value) {
        return EmailInUseError;
      }
      var hashedPassword := bcrypt.hash(password.value, salt);
      var newUser := UserRecord(id, username.value, email.value, hashedPassword, createdAt);
      users := users + [newUser];
      resp := Ok(newUser.id, newUser.username);
    }
  }
}
