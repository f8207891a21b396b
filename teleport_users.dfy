/** The account routes of teleport_webrtc/api/users.py: registration with the
    fixed activation code "1234" that also issues tokens, login, and a
    one-shot e-mail confirmation. The JWTs and the bcrypt salt are supplied
    by the caller; the verification e-mail is not modelled. */
module TeleportUsers {
  import opened Common
  import opened UserTables

  const UsernameTaken := HttpError(400, "Username already taken")
  const InvalidCredentials := HttpError(401, "Invalid credentials")
  const InvalidActivationCode := HttpError(400, "Invalid activation code")
  const FixedActivationCode := "1234"
  const RegisteredMessage := "Registration successful. Please check your email for the activation code."

  /** The token answer of the routes; `message` is present only on register. */
  datatype TokenReply = TokenReply(accessToken: string, refreshToken: string, tokenType: string, message: Option<string>)

  /** `register`: 400 when the username is taken; otherwise an inactive user
      with code "1234" is added and the issued tokens are saved for it. */
  method Register(db: UserDb, u: UserCreate, access: string, refresh: string, salt: nat) returns (r: Response<TokenReply>)
    requires db.Valid()
    modifies db
    ensures db.Valid()
    ensures UserByName(old(db.users), u.username).Some? ==>
      && r == Fail(UsernameTaken)
      && db.users == old(db.users) && db.tokens == old(db.tokens) && db.nextUserId == old(db.nextUserId)
    ensures UserByName(old(db.users), u.username).None? ==>
      var created := NewUser(old(db.nextUserId), u, FixedActivationCode, false, salt);
      && r == Ok(TokenReply(access, refresh, "bearer", Some(RegisteredMessage)))
      && db.users == old(db.users) + [created]
      && UserByName(db.users, u.username) == Some(created)
      && db.tokens == UpsertTokens(old(db.tokens), created.id, access, refresh, old(db.nextTokenId))
      && TokenOf(db.tokens, created.id).Some?
      && TokenOf(db.tokens, created.id).value.accessToken == access
      && TokenOf(db.tokens, created.id).value.refreshToken == refresh
  {
    var existing := UserByName(db.users, u.username);
    if existing.Some? {
      return Fail(UsernameTaken);
    }
    var created := db.CreateUser(u, FixedActivationCode, false, salt);
    AppendUserLookup(old(db.users), created);
    var saved := db.SaveTokens(created.id, access, refresh);
    r := Ok(TokenReply(access, refresh, "bearer", Some(RegisteredMessage)));
  }

  /** `login`: 401 when the username is unknown or the password does not
      verify; otherwise the issued tokens are saved and returned. */
  method Login(db: UserDb, username: string, password: string, access: string, refresh: string)
    returns (r: Response<TokenReply>)
    requires db.Valid()
    modifies db
    ensures db.Valid() && db.users == old(db.users)
    ensures var found := UserByName(old(db.users), username);
      found.None? || !VerifyPassword(password, found.value.hashedPassword) ==>
        r == Fail(InvalidCredentials) && db.tokens == old(db.tokens)
    ensures var found := UserByName(old(db.users), username);
      found.Some? && VerifyPassword(password, found.value.hashedPassword) ==>
        && r == Ok(TokenReply(access, refresh, "bearer", None))
        && db.tokens == UpsertTokens(old(db.tokens), found.value.id, access, refresh, old(db.nextTokenId))
  {
    var found := UserByName(db.users, username);
    if found.None? || !VerifyPassword(password, found.value.hashedPassword) {
      return Fail(InvalidCredentials);
    }
    var saved := db.SaveTokens(found.value.id, access, refresh);
    r := Ok(TokenReply(access, refresh, "bearer", None));
  }

  /** `confirm_email`: 400 unless the user exists and its stored code equals
      the one given; otherwise the user becomes active and its code is
      cleared. */
  function ConfirmOnce(users: seq<User>, username: string, code: string): Step<string>
  {
    var found := UserByName(users, username);
    if found.None? || found.value.activationCode != Some(code) then Step(Fail(InvalidActivationCode), users)
    else Step(Ok("Email confirmed successfully!"),
              ReplaceUser(users, found.value.(isActive := true, activationCode := None)))
  }

  method ConfirmEmail(db: UserDb, username: string, code: string) returns (r: Response<string>)
    requires db.Valid()
    modifies db
    ensures db.Valid() && db.tokens == old(db.tokens)
    ensures Step(r, db.users) == ConfirmOnce(old(db.users), username, code)
  {
    var user := UserByName(db.users, username);
    if user.None? || user.value.activationCode != Some(code) {
      return Fail(InvalidActivationCode);
    }
    db.UpdateUser(user.value.(isActive := true, activationCode := None));
    r := Ok("Email confirmed successfully!");
  }

  /** Activation is one-shot: a successful confirmation leaves the user
      active with no code, so the same confirmation is then refused and
      changes nothing. */
  lemma ConfirmIsOneShot(users: seq<User>, nextId: nat, username: string, code: string)
    requires UserIdsBelow(users, nextId)
    requires ConfirmOnce(users, username, code).response.Ok?
    ensures var after := ConfirmOnce(users, username, code).users;
      && UserByName(after, username).Some?
      && UserByName(after, username).value.isActive
      && UserByName(after, username).value.activationCode.None?
      && ConfirmOnce(after, username, code) == Step(Fail(InvalidActivationCode), after)
  {
    var found := UserByName(users, username).value;
    NameRowIsIdRow(users, nextId, username);
    ReplaceKeepsNameLookup(users, nextId, found.(isActive := true, activationCode := None));
  }

  /** A freshly registered user is inactive, and confirming with "1234"
      activates it. */
  lemma RegisterThenConfirm(users: seq<User>, nextId: nat, u: UserCreate, salt: nat)
    requires UserIdsBelow(users, nextId)
    requires UserByName(users, u.username).None?
    ensures var users' := users + [NewUser(nextId, u, FixedActivationCode, false, salt)];
      && UserByName(users', u.username).Some?
      && !UserByName(users', u.username).value.isActive
      && ConfirmOnce(users', u.username, FixedActivationCode).response.Ok?
      && UserByName(ConfirmOnce(users', u.username, FixedActivationCode).users, u.username).Some?
      && UserByName(ConfirmOnce(users', u.username, FixedActivationCode).users, u.username).value.isActive
  {
    var created := NewUser(nextId, u, FixedActivationCode, false, salt);
    var users' := users + [created];
    AppendUserLookup(users, created);
    assert UserIdsBelow(users', nextId + 1);
    ConfirmIsOneShot(users', nextId + 1, u.username, FixedActivationCode);
  }
}
