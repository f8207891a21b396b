/** `UserService` of app/services/user_service.py: registration with a
    generated activation code, login that stores the issued tokens, and
    e-mail confirmation. The uuid code, the JWTs and the bcrypt salt are
    supplied by the caller. */
module UserService {
  import opened Common
  import opened UserTables

  const UsernameTaken := HttpError(400, "Username already taken")
  const InvalidCredentials := HttpError(401, "Invalid credentials")
  const InvalidActivationCode := HttpError(400, "Invalid activation code")

  datatype Registered = Registered(message: string, activationCode: string)
  datatype TokenPair = TokenPair(accessToken: string, refreshToken: string)

  /** `register`: 400 when the username is taken, and no row is added;
      otherwise an inactive user holding the activation code it returns. */
  method Register(db: UserDb, u: UserCreate, activationCode: string, salt: nat) returns (r: Response<Registered>)
    requires db.Valid()
    modifies db
    ensures db.Valid() && db.tokens == old(db.tokens)
    ensures UserByName(old(db.users), u.username).Some? ==>
      r == Fail(UsernameTaken) && db.users == old(db.users) && db.nextUserId == old(db.nextUserId)
    ensures UserByName(old(db.users), u.username).None? ==>
      && r == Ok(Registered("Registration successful", activationCode))
      && db.users == old(db.users) + [NewUser(old(db.nextUserId), u, activationCode, false, salt)]
      && UserByName(db.users, u.username).Some?
      && UserByName(db.users, u.username).value.activationCode == Some(activationCode)
      && !UserByName(db.users, u.username).value.isActive
    ensures NamesUnique(old(db.users)) ==> NamesUnique(db.users)
  {
    var existing := UserByName(db.users, u.username);
    if existing.Some? {
      return Fail(UsernameTaken);
    }
    var created := db.CreateUser(u, activationCode, false, salt);
    AppendUserLookup(old(db.users), created);
    r := Ok(Registered("Registration successful", activationCode));
  }

  /** `login`: 401 when the username is unknown or the password does not
      verify, and nothing is stored; otherwise the issued tokens are saved
      as the user's token record and returned. */
  method Login(db: UserDb, username: string, password: string, access: string, refresh: string)
    returns (r: Response<TokenPair>)
    requires db.Valid()
    modifies db
    ensures db.Valid() && db.users == old(db.users)
    ensures var found := UserByName(old(db.users), username);
      found.None? || !VerifyPassword(password, found.value.hashedPassword) ==>
        r == Fail(InvalidCredentials) && db.tokens == old(db.tokens)
    ensures var found := UserByName(old(db.users), username);
      found.Some? && VerifyPassword(password, found.value.hashedPassword) ==>
        && r == Ok(TokenPair(access, refresh))
        && db.tokens == UpsertTokens(old(db.tokens), found.value.id, access, refresh, old(db.nextTokenId))
        && TokenOf(db.tokens, found.value.id).Some?
        && TokenOf(db.tokens, found.value.id).value.accessToken == access
        && TokenOf(db.tokens, found.value.id).value.refreshToken == refresh
  {
    var found := UserByName(db.users, username);
    if found.None? || !VerifyPassword(password, found.value.hashedPassword) {
      return Fail(InvalidCredentials);
    }
    var saved := db.SaveTokens(found.value.id, access, refresh);
    r := Ok(TokenPair(access, refresh));
  }

  /** `confirm_email`: 400 unless the user exists and its stored code equals
      the one given; otherwise the user becomes active and keeps its code. */
  function Confirm(users: seq<User>, username: string, code: string): Step<string>
  {
    var found := UserByName(users, username);
    if found.None? || found.value.activationCode != Some(code) then Step(Fail(InvalidActivationCode), users)
    else Step(Ok("Email confirmed successfully"), ReplaceUser(users, found.value.(isActive := true)))
  }

  method ConfirmEmail(db: UserDb, username: string, code: string) returns (r: Response<string>)
    requires db.Valid()
    modifies db
    ensures db.Valid() && db.tokens == old(db.tokens)
    ensures Step(r, db.users) == Confirm(old(db.users), username, code)
  {
    var found := UserByName(db.users, username);
    if found.None? || found.value.activationCode != Some(code) {
      return Fail(InvalidActivationCode);
    }
    db.UpdateUser(found.value.(isActive := true));
    r := Ok("Email confirmed successfully");
  }

  /** Confirmation succeeds exactly for the stored code, and then the user
      that username finds is active and still holds that code; a refusal
      changes nothing. */
  lemma ConfirmActivates(users: seq<User>, nextId: nat, username: string, code: string)
    requires UserIdsBelow(users, nextId)
    ensures Confirm(users, username, code).response.Ok? <==>
      UserByName(users, username).Some? && UserByName(users, username).value.activationCode == Some(code)
    ensures Confirm(users, username, code).response.Fail? ==> Confirm(users, username, code).users == users
    ensures var after := Confirm(users, username, code).users;
      Confirm(users, username, code).response.Ok? ==>
        && UserByName(after, username) == Some(UserByName(users, username).value.(isActive := true))
        && UserByName(after, username).value.activationCode == Some(code)
  {
    var found := UserByName(users, username);
    if found.Some? && found.value.activationCode == Some(code) {
      NameRowIsIdRow(users, nextId, username);
      ReplaceKeepsNameLookup(users, nextId, found.value.(isActive := true));
    }
  }

  /** Because the code is kept, confirming again with the same code
      succeeds again and changes nothing more. */
  lemma ConfirmRepeatable(users: seq<User>, nextId: nat, username: string, code: string)
    requires UserIdsBelow(users, nextId)
    requires Confirm(users, username, code).response.Ok?
    ensures var after := Confirm(users, username, code).users;
      Confirm(after, username, code) == Step(Ok("Email confirmed successfully"), after)
  {
    ConfirmActivates(users, nextId, username, code);
    var found := UserByName(users, username).value;
    var after := Confirm(users, username, code).users;
    ReplaceKeepsIds(users, nextId, found.(isActive := true));
    var again := UserByName(after, username).value;
    assert again == found.(isActive := true);
    NameRowIsIdRow(after, nextId, username);
    assert ReplaceUser(after, again.(isActive := true)) == after by {
      var k := IdIndex(after, again.id);
      assert after[k] == again;
      assert after[k := again] == after;
    }
  }
}
