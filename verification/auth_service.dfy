/** The login and registration decisions (TrailerRent.Business/Services/AuthService.cs)
    over the user table. Password hashing is a library call and stays abstract:
    `hash` and `verify` are passed in, and the random salt of a new hash is a
    parameter. Token issuing is not modelled. */
module AuthService {
  import opened Common
  import opened Entities
  import opened Exceptions

  datatype LoginRequest = LoginRequest(email: string, password: string)

  datatype RegisterRequest = RegisterRequest(
    email: string,
    password: string,
    firstName: string,
    lastName: string,
    phoneNumber: Option<string>)

  /** The password-hashing library: `hash(password, salt)` produces a stored
      hash and `verify(password, storedHash)` checks a password against one. */
  datatype Hasher = Hasher(hash: (string, string) -> string, verify: (string, string) -> bool)

  const InvalidCredentials: string := "Invalid email or password"
  const InactiveAccount: string := "Account is not active"
  const EmailTaken: string := "Email already exists"

  /** `IUserRepository.GetByEmailAsync` (UserRepository.cs is not part of this
      model): the first user with the email. */
  function GetByEmail(users: seq<User>, email: string): (found: Option<User>)
    ensures found.None? <==> forall i :: 0 <= i < |users| ==> users[i].email != email
    ensures found.Some? ==> found.value in users && found.value.email == email
  {
    First(users, (u: User) => u.email == email)
  }

  /** `LoginAsync`: an unknown email and a wrong password fail alike; only a
      user whose password verifies is then checked for being active. */
  function Login(users: seq<User>, request: LoginRequest, hasher: Hasher): (result: Result<User, Exception>)
    ensures GetByEmail(users, request.email).None? ==> result == Err(Unauthorized(InvalidCredentials))
    ensures var found := GetByEmail(users, request.email);
      found.Some? && !hasher.verify(request.password, found.value.passwordHash) ==>
      result == Err(Unauthorized(InvalidCredentials))
    ensures var found := GetByEmail(users, request.email);
      found.Some? && hasher.verify(request.password, found.value.passwordHash) && !found.value.isActive ==>
      result == Err(Unauthorized(InactiveAccount))
    ensures var found := GetByEmail(users, request.email);
      found.Some? && hasher.verify(request.password, found.value.passwordHash) && found.value.isActive ==>
      result == Ok(found.value)
    ensures result.Ok? ==>
      && result.value in users
      && result.value.email == request.email
      && hasher.verify(request.password, result.value.passwordHash)
      && result.value.isActive
  {
    var user := GetByEmail(users, request.email);
    if user.None? || !hasher.verify(request.password, user.value.passwordHash) then
      Err(Unauthorized(InvalidCredentials))
    else if !user.value.isActive then
      Err(Unauthorized(InactiveAccount))
    else
      Ok(user.value)
  }

  /** Whoever is asking, a failed credential check says nothing about whether
      the email is registered: both causes give the same answer. */
  lemma UnknownEmailLooksLikeWrongPassword(users: seq<User>, others: seq<User>, email: string, password: string,
                                           hasher: Hasher)
    requires forall i :: 0 <= i < |users| ==> users[i].email != email
    requires forall i :: 0 <= i < |others| && others[i].email == email ==>
      !hasher.verify(password, others[i].passwordHash)
    ensures Login(users, LoginRequest(email, password), hasher) ==
            Login(others, LoginRequest(email, password), hasher)
  {
  }

  /** `RegisterAsync`: a taken email is a Conflict; otherwise a user holding
      the hash of the password (never the password itself) is appended under
      a fresh id. Whether the new account starts active depends on which of
      the two mapping profiles is in force, so it is a parameter. */
  function Register(users: seq<User>, request: RegisterRequest, hasher: Hasher, salt: string, activeOnCreate: bool)
    : (result: Result<(seq<User>, User), Exception>)
    ensures result.Err? <==> exists i :: 0 <= i < |users| && users[i].email == request.email
    ensures result.Err? ==> result.error == Conflict(EmailTaken)
    ensures result.Ok? ==>
      var (after, created) := result.value;
      && after == users + [created]
      && (forall i :: 0 <= i < |users| ==> users[i].id != created.id)
      && created.email == request.email
      && created.passwordHash == hasher.hash(request.password, salt)
      && created.firstName == request.firstName && created.lastName == request.lastName
      && created.phoneNumber == request.phoneNumber
      && created.isActive == activeOnCreate
  {
    if GetByEmail(users, request.email).Some? then Err(Conflict(EmailTaken))
    else
      var ids := seq(|users|, i requires 0 <= i < |users| => users[i].id);
      assert forall i :: 0 <= i < |users| ==> users[i].id == ids[i];
      var created := User(NextId(ids), request.email, hasher.hash(request.password, salt),
                          request.firstName, request.lastName, request.phoneNumber, activeOnCreate);
      Ok((users + [created], created))
  }

  /** After a successful registration the email is taken, so registering it
      again fails with Conflict and leaves the table as it is. */
  lemma RegisterTwiceConflicts(users: seq<User>, request: RegisterRequest, again: RegisterRequest, hasher: Hasher,
                               salt: string, salt': string, activeOnCreate: bool)
    requires Register(users, request, hasher, salt, activeOnCreate).Ok?
    requires again.email == request.email
    ensures Register(Register(users, request, hasher, salt, activeOnCreate).value.0, again, hasher, salt',
                     activeOnCreate) == Err(Conflict(EmailTaken))
  {
    var after := Register(users, request, hasher, salt, activeOnCreate).value.0;
    assert after[|users|].email == again.email;
  }

  /** Registration and login fit together: when the library verifies its own
      hashes and new accounts start active, logging in with the registered
      credentials returns the new user. */
  lemma RegisterThenLogin(users: seq<User>, request: RegisterRequest, hasher: Hasher, salt: string)
    requires hasher.verify(request.password, hasher.hash(request.password, salt))
    requires Register(users, request, hasher, salt, true).Ok?
    ensures var (after, created) := Register(users, request, hasher, salt, true).value;
      Login(after, LoginRequest(request.email, request.password), hasher) == Ok(created)
  {
    var (after, created) := Register(users, request, hasher, salt, true).value;
    var found := GetByEmail(after, request.email);
    assert after[|users|] == created;
    var i :| 0 <= i < |after| && after[i] == found.value && after[i].email == request.email &&
      (forall j :: 0 <= j < i ==> after[j].email != request.email);
    assert i == |users|;
  }

  /** `GetCurrentUserAsync`: nothing for an unknown id, otherwise the user with it. */
  function GetCurrentUser(users: seq<User>, id: int): (found: Option<User>)
    ensures found.None? <==> forall i :: 0 <= i < |users| ==> users[i].id != id
    ensures found.Some? ==> found.value in users && found.value.id == id
  {
    First(users, (u: User) => u.id == id)
  }
}
