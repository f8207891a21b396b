/** The `users` and `tokens` tables behind both `UserCRUD` classes
    (app/crud/users/user_crud.py and the older app/crud/users.py) and
    `TokenCRUD` (app/crud/users/token_crud.py). Tables are sequences of rows
    in storage order; a lookup returns the first matching row, as
    `.scalars().first()` does. */
module UserTables {
  import opened Common

  /** A bcrypt digest: the secret it was made from and the random salt
      `bcrypt.hash` drew. `bcrypt.verify` succeeds exactly for that secret. */
  datatype Digest = Bcrypt(secret: string, salt: nat)

  predicate VerifyPassword(password: string, hashed: Digest)
  {
    hashed.secret == password
  }

  /** The registration payload; the teleport schema has no phone number. */
  datatype UserCreate = UserCreate(username: string, email: string, password: string, phoneNumber: Option<string>)

  /** The device and location a login reports (`device_time` as an opaque
      instant, coordinates as opaque values). */
  datatype DeviceInfo = DeviceInfo(
    deviceModel: string, osVersion: string, ipAddress: string,
    deviceTime: int, latitude: real, longitude: real)

  /** A row of the `users` table. */
  datatype User = User(
    id: nat,
    username: string,
    email: string,
    phoneNumber: Option<string>,
    firstName: Option<string>,
    lastName: Option<string>,
    hashedPassword: Digest,
    isActive: bool,
    activationCode: Option<string>,
    deviceModel: Option<string>,
    osVersion: Option<string>,
    ipAddress: Option<string>,
    deviceTime: Option<int>,
    latitude: Option<real>,
    longitude: Option<real>)

  /** A row of the `tokens` table. */
  datatype TokenRecord = TokenRecord(id: nat, userId: int, accessToken: string, refreshToken: string)

  /** Primary keys strictly increase along the table and stay below the next
      key to hand out. */
  ghost predicate UserIdsBelow(users: seq<User>, nextId: nat)
  {
    && (forall i, j :: 0 <= i < j < |users| ==> users[i].id < users[j].id)
    && (forall i :: 0 <= i < |users| ==> users[i].id < nextId)
  }

  ghost predicate TokenIdsBelow(tokens: seq<TokenRecord>, nextId: nat)
  {
    && (forall i, j :: 0 <= i < j < |tokens| ==> tokens[i].id < tokens[j].id)
    && (forall i :: 0 <= i < |tokens| ==> tokens[i].id < nextId)
  }

  /** No user has two token records. */
  ghost predicate AtMostOnePerUser(tokens: seq<TokenRecord>)
  {
    forall i, j :: 0 <= i < j < |tokens| ==> tokens[i].userId != tokens[j].userId
  }

  /** Usernames are distinct (the column is declared unique). */
  ghost predicate NamesUnique(users: seq<User>)
  {
    forall i, j :: 0 <= i < j < |users| ==> users[i].username != users[j].username
  }

  /** Position of the first user with that username, or -1. */
  function NameIndex(users: seq<User>, username: string): (k: int)
    ensures -1 <= k < |users|
    ensures 0 <= k ==> users[k].username == username && forall j :: 0 <= j < k ==> users[j].username != username
    ensures k < 0 ==> forall j :: 0 <= j < |users| ==> users[j].username != username
    decreases |users|
  {
    if users == [] then -1
    else if users[0].username == username then 0
    else
      var k := NameIndex(users[1..], username);
      if k < 0 then -1 else k + 1
  }

  /** Position of the first user with that id, or -1. */
  function IdIndex(users: seq<User>, userId: int): (k: int)
    ensures -1 <= k < |users|
    ensures 0 <= k ==> users[k].id == userId && forall j :: 0 <= j < k ==> users[j].id != userId
    ensures k < 0 ==> forall j :: 0 <= j < |users| ==> users[j].id != userId
    decreases |users|
  {
    if users == [] then -1
    else if users[0].id == userId then 0
    else
      var k := IdIndex(users[1..], userId);
      if k < 0 then -1 else k + 1
  }

  /** Position of the first token record of that user, or -1. */
  function TokenIndex(tokens: seq<TokenRecord>, userId: int): (k: int)
    ensures -1 <= k < |tokens|
    ensures 0 <= k ==> tokens[k].userId == userId && forall j :: 0 <= j < k ==> tokens[j].userId != userId
    ensures k < 0 ==> forall j :: 0 <= j < |tokens| ==> tokens[j].userId != userId
    decreases |tokens|
  {
    if tokens == [] then -1
    else if tokens[0].userId == userId then 0
    else
      var k := TokenIndex(tokens[1..], userId);
      if k < 0 then -1 else k + 1
  }

  /** `get_user_by_username`: a user with that username, or nothing. */
  function UserByName(users: seq<User>, username: string): (r: Option<User>)
    ensures r.None? <==> forall j :: 0 <= j < |users| ==> users[j].username != username
    ensures r.Some? ==> r.value in users && r.value.username == username
  {
    var k := NameIndex(users, username);
    if k < 0 then None else Some(users[k])
  }

  /** `get_user_by_id`: the user with that id, or nothing. */
  function UserById(users: seq<User>, userId: int): (r: Option<User>)
    ensures r.None? <==> forall j :: 0 <= j < |users| ==> users[j].id != userId
    ensures r.Some? ==> r.value in users && r.value.id == userId
  {
    var k := IdIndex(users, userId);
    if k < 0 then None else Some(users[k])
  }

  /** The token record of a user, or nothing. */
  function TokenOf(tokens: seq<TokenRecord>, userId: int): (r: Option<TokenRecord>)
    ensures r.None? <==> forall j :: 0 <= j < |tokens| ==> tokens[j].userId != userId
    ensures r.Some? ==> r.value in tokens && r.value.userId == userId
  {
    var k := TokenIndex(tokens, userId);
    if k < 0 then None else Some(tokens[k])
  }

  /** The row `create_user` builds: the payload's contact fields, a digest
      that verifies the given password and no other, the activation code and
      the activity flag; everything else unset. */
  function NewUser(id: nat, u: UserCreate, activationCode: string, isActive: bool, salt: nat): (r: User)
    ensures r.id == id && r.username == u.username && r.email == u.email && r.phoneNumber == u.phoneNumber
    ensures VerifyPassword(u.password, r.hashedPassword)
    ensures forall p :: VerifyPassword(p, r.hashedPassword) ==> p == u.password
    ensures r.activationCode == Some(activationCode) && r.isActive == isActive
  {
    User(id, u.username, u.email, u.phoneNumber, None, None, Bcrypt(u.password, salt),
         isActive, Some(activationCode), None, None, None, None, None, None)
  }

  /** The six device fields `authenticate_user` assigns; nothing else. */
  function WithDevice(u: User, d: DeviceInfo): (r: User)
    ensures r.id == u.id && r.username == u.username && r.email == u.email && r.phoneNumber == u.phoneNumber
    ensures r.firstName == u.firstName && r.lastName == u.lastName
    ensures r.hashedPassword == u.hashedPassword && r.isActive == u.isActive && r.activationCode == u.activationCode
    ensures r.deviceModel == Some(d.deviceModel) && r.osVersion == Some(d.osVersion) && r.ipAddress == Some(d.ipAddress)
    ensures r.deviceTime == Some(d.deviceTime) && r.latitude == Some(d.latitude) && r.longitude == Some(d.longitude)
  {
    u.(deviceModel := Some(d.deviceModel), osVersion := Some(d.osVersion), ipAddress := Some(d.ipAddress),
       deviceTime := Some(d.deviceTime), latitude := Some(d.latitude), longitude := Some(d.longitude))
  }

  /** The table after committing a changed row: the row with that id is
      replaced; without one the table is unchanged. */
  function ReplaceUser(users: seq<User>, u: User): seq<User>
  {
    var k := IdIndex(users, u.id);
    if k < 0 then users else users[k := u]
  }

  /** With distinct ids, the row a username lookup finds is the row its id
      lookup finds. */
  lemma NameRowIsIdRow(users: seq<User>, nextId: nat, username: string)
    requires UserIdsBelow(users, nextId)
    requires UserByName(users, username).Some?
    ensures IdIndex(users, UserByName(users, username).value.id) == NameIndex(users, username)
  {
    var k := NameIndex(users, username);
    var i := IdIndex(users, users[k].id);
    assert users[i].id == users[k].id;
  }

  /** Replacing a row keeps every primary key in place, so the key
      invariant survives. */
  lemma ReplaceKeepsIds(users: seq<User>, nextId: nat, u: User)
    requires UserIdsBelow(users, nextId)
    ensures |ReplaceUser(users, u)| == |users|
    ensures forall j :: 0 <= j < |users| ==> ReplaceUser(users, u)[j].id == users[j].id
    ensures UserIdsBelow(ReplaceUser(users, u), nextId)
  {
  }

  /** `update_user`: afterwards the id finds the new row and every other id
      finds what it found before. */
  lemma ReplaceUserEffect(users: seq<User>, nextId: nat, u: User)
    requires UserIdsBelow(users, nextId)
    requires UserById(users, u.id).Some?
    ensures UserById(ReplaceUser(users, u), u.id) == Some(u)
    ensures forall x :: x != u.id ==> UserById(ReplaceUser(users, u), x) == UserById(users, x)
  {
    var k := IdIndex(users, u.id);
    var users' := users[k := u];
    assert forall j :: 0 <= j < |users| ==> users'[j].id == users[j].id;
    assert users'[k] == u;
    assert IdIndex(users', u.id) == k;
    forall x | x != u.id
      ensures UserById(users', x) == UserById(users, x)
    {
      var b := IdIndex(users, x);
      if b >= 0 {
        assert users'[b] == users[b];
        assert IdIndex(users', x) == b;
      } else {
        assert IdIndex(users', x) < 0;
      }
    }
  }

  /** Replacing a user by a row with the same id and username: a username
      lookup that found the old row now finds the new one, and every other
      lookup is unchanged. */
  lemma ReplaceKeepsNameLookup(users: seq<User>, nextId: nat, u: User)
    requires UserIdsBelow(users, nextId)
    requires UserById(users, u.id).Some? && UserById(users, u.id).value.username == u.username
    ensures forall n ::
      UserByName(ReplaceUser(users, u), n) ==
      (if UserByName(users, n).Some? && UserByName(users, n).value.id == u.id then Some(u) else UserByName(users, n))
  {
    var k := IdIndex(users, u.id);
    var users' := users[k := u];
    assert forall j :: 0 <= j < |users| ==> users'[j].username == users[j].username;
    forall n
      ensures UserByName(users', n) ==
        if UserByName(users, n).Some? && UserByName(users, n).value.id == u.id then Some(u) else UserByName(users, n)
    {
      var b := NameIndex(users, n);
      if b < 0 {
        assert NameIndex(users', n) < 0;
      } else {
        assert NameIndex(users', n) == b;
        if users[b].id == u.id {
          assert b == k;
        } else {
          assert b != k;
        }
      }
    }
  }

  /** Appending a user whose username is not taken: that username now finds
      the new row, every other username finds what it found before, and
      usernames stay distinct. */
  lemma AppendUserLookup(users: seq<User>, u: User)
    requires UserByName(users, u.username).None?
    ensures UserByName(users + [u], u.username) == Some(u)
    ensures forall n :: n != u.username ==> UserByName(users + [u], n) == UserByName(users, n)
    ensures NamesUnique(users) ==> NamesUnique(users + [u])
  {
    var users' := users + [u];
    assert forall j :: 0 <= j < |users| ==> users'[j] == users[j];
    assert users'[|users|] == u;
    assert NameIndex(users', u.username) == |users|;
    forall n | n != u.username
      ensures UserByName(users', n) == UserByName(users, n)
    {
      var b := NameIndex(users, n);
      if b >= 0 {
        assert NameIndex(users', n) == b;
      } else {
        assert NameIndex(users', n) < 0;
      }
    }
  }

  /** The outcome of a request handler that may change the `users` table:
      the response and the table afterwards. */
  datatype Step<T> = Step(response: Response<T>, users: seq<User>)

  /** `save_tokens_to_db`: overwrite both tokens of the user's record when
      there is one, else append a new record keyed `freshId`. */
  function UpsertTokens(tokens: seq<TokenRecord>, userId: int, access: string, refresh: string, freshId: nat): seq<TokenRecord>
  {
    var k := TokenIndex(tokens, userId);
    if k >= 0 then tokens[k := tokens[k].(accessToken := access, refreshToken := refresh)]
    else tokens + [TokenRecord(freshId, userId, access, refresh)]
  }

  /** The upsert leaves the user's record holding exactly the given tokens,
      adds a record only when the user had none, leaves every other user's
      record untouched and keeps at most one record per user. */
  lemma UpsertTokensEffect(tokens: seq<TokenRecord>, userId: int, access: string, refresh: string, freshId: nat)
    ensures var t' := UpsertTokens(tokens, userId, access, refresh, freshId);
      && TokenOf(t', userId).Some?
      && TokenOf(t', userId).value.accessToken == access
      && TokenOf(t', userId).value.refreshToken == refresh
      && (TokenOf(tokens, userId).Some? ==> |t'| == |tokens| && TokenOf(t', userId).value.id == TokenOf(tokens, userId).value.id)
      && (TokenOf(tokens, userId).None? ==> t' == tokens + [TokenRecord(freshId, userId, access, refresh)])
      && (forall j :: 0 <= j < |tokens| && tokens[j].userId != userId ==> t'[j] == tokens[j])
      && (forall x :: x != userId ==> TokenOf(t', x) == TokenOf(tokens, x))
      && (AtMostOnePerUser(tokens) ==> AtMostOnePerUser(t'))
  {
    var t' := UpsertTokens(tokens, userId, access, refresh, freshId);
    var k := TokenIndex(tokens, userId);
    if k >= 0 {
      assert forall j :: 0 <= j < |tokens| ==> t'[j].userId == tokens[j].userId;
      assert TokenIndex(t', userId) == k;
      forall x | x != userId
        ensures TokenOf(t', x) == TokenOf(tokens, x)
      {
        var b := TokenIndex(tokens, x);
        if b >= 0 {
          assert TokenIndex(t', x) == b;
        } else {
          assert TokenIndex(t', x) < 0;
        }
      }
    } else {
      assert t'[|tokens|].userId == userId;
      assert forall j :: 0 <= j < |tokens| ==> t'[j] == tokens[j];
      assert TokenIndex(t', userId) == |tokens|;
      forall x | x != userId
        ensures TokenOf(t', x) == TokenOf(tokens, x)
      {
        var b := TokenIndex(tokens, x);
        if b >= 0 {
          assert TokenIndex(t', x) == b;
        } else {
          assert TokenIndex(t', x) < 0;
        }
      }
    }
  }

  /** Saving the same tokens twice leaves the table as saving them once. */
  lemma UpsertTokensIdempotent(tokens: seq<TokenRecord>, userId: int, access: string, refresh: string, freshId: nat, freshId2: nat)
    ensures var once := UpsertTokens(tokens, userId, access, refresh, freshId);
      UpsertTokens(once, userId, access, refresh, freshId2) == once
  {
    var once := UpsertTokens(tokens, userId, access, refresh, freshId);
    var k := TokenIndex(tokens, userId);
    if k >= 0 {
      assert forall j :: 0 <= j < |tokens| ==> once[j].userId == tokens[j].userId;
      assert TokenIndex(once, userId) == k;
    } else {
      assert once[|tokens|].userId == userId;
      assert TokenIndex(once, userId) == |tokens|;
    }
  }

  /** The relational database the CRUD classes share. */
  class UserDb {
    var users: seq<User>
    var tokens: seq<TokenRecord>
    var nextUserId: nat
    var nextTokenId: nat

    ghost predicate Valid()
      reads this
    {
      && UserIdsBelow(users, nextUserId)
      && TokenIdsBelow(tokens, nextTokenId)
      && AtMostOnePerUser(tokens)
    }

    /** Empty tables; keys are handed out from 1. */
    constructor ()
      ensures Valid() && users == [] && tokens == []
    {
      users := [];
      tokens := [];
      nextUserId := 1;
      nextTokenId := 1;
    }

    /** `create_user`: appends the row `NewUser` builds under the next key. */
    method CreateUser(u: UserCreate, activationCode: string, isActive: bool, salt: nat) returns (user: User)
      requires Valid()
      modifies this
      ensures Valid()
      ensures user == NewUser(old(nextUserId), u, activationCode, isActive, salt)
      ensures users == old(users) + [user] && tokens == old(tokens)
      ensures nextUserId == old(nextUserId) + 1 && nextTokenId == old(nextTokenId)
    {
      user := NewUser(nextUserId, u, activationCode, isActive, salt);
      users := users + [user];
      nextUserId := nextUserId + 1;
    }

    /** `update_user`: commits the given row over the stored row with its id. */
    method UpdateUser(user: User)
      requires Valid() && UserById(users, user.id).Some?
      modifies this
      ensures Valid()
      ensures users == ReplaceUser(old(users), user) && tokens == old(tokens)
      ensures nextUserId == old(nextUserId) && nextTokenId == old(nextTokenId)
      ensures UserById(users, user.id) == Some(user)
    {
      ReplaceKeepsIds(users, nextUserId, user);
      ReplaceUserEffect(users, nextUserId, user);
      var k := IdIndex(users, user.id);
      users := users[k := user];
    }

    /** `save_tokens_to_db`: the upsert; returns the record it wrote. */
    method SaveTokens(userId: int, access: string, refresh: string) returns (rec: TokenRecord)
      requires Valid()
      modifies this
      ensures Valid()
      ensures tokens == UpsertTokens(old(tokens), userId, access, refresh, old(nextTokenId))
      ensures users == old(users) && nextUserId == old(nextUserId)
      ensures rec.userId == userId && rec.accessToken == access && rec.refreshToken == refresh
      ensures TokenOf(tokens, userId) == Some(rec)
    {
      UpsertTokensEffect(tokens, userId, access, refresh, nextTokenId);
      var k := TokenIndex(tokens, userId);
      if k >= 0 {
        rec := tokens[k].(accessToken := access, refreshToken := refresh);
        assert forall j :: 0 <= j < |tokens| ==> tokens[k := rec][j].id == tokens[j].id;
        tokens := tokens[k := rec];
      } else {
        rec := TokenRecord(nextTokenId, userId, access, refresh);
        tokens := tokens + [rec];
        nextTokenId := nextTokenId + 1;
      }
    }

    /** `authenticate_user` (app/crud/users.py): nothing changes and the
        answer is `False` when the username is unknown or the password does
        not verify; otherwise the six device fields of that user are written
        and the updated row returned. */
    method AuthenticateUser(username: string, password: string, device: DeviceInfo) returns (r: Option<User>)
      requires Valid()
      modifies this
      ensures Valid() && tokens == old(tokens)
      ensures nextUserId == old(nextUserId) && nextTokenId == old(nextTokenId)
      ensures var found := UserByName(old(users), username);
        found.None? || !VerifyPassword(password, found.value.hashedPassword) ==>
          r.None? && users == old(users)
      ensures var found := UserByName(old(users), username);
        found.Some? && VerifyPassword(password, found.value.hashedPassword) ==>
          r == Some(WithDevice(found.value, device)) && users == ReplaceUser(old(users), r.value)
    {
      var k := NameIndex(users, username);
      if k < 0 || !VerifyPassword(password, users[k].hashedPassword) {
        return None;
      }
      NameRowIsIdRow(users, nextUserId, username);
      var u := WithDevice(users[k], device);
      ReplaceKeepsIds(users, nextUserId, u);
      users := users[k := u];
      r := Some(u);
    }
  }
}
