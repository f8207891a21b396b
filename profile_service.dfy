/** `ProfileService` of app/services/profile_service.py: reading a user's
    profile and changing the password after checking the old one.
    `UserService.get_profile` (app/services/user_service.py) is the same
    lookup and is modelled by `GetProfile` here. */
module Profiles {
  import opened Common
  import opened UserTables

  const UserNotFound := HttpError(404, "User not found")
  const IncorrectOldPassword := HttpError(400, "Incorrect old password")
  const PasswordUpdated := "Password updated successfully"

  /** The `UserProfile` schema: the row's `id` and `is_active` are passed to
      it but are not fields of the schema, so they are dropped. */
  datatype UserProfile = UserProfile(
    username: string, firstName: Option<string>, lastName: Option<string>,
    email: string, phoneNumber: Option<string>)

  /** `get_profile`: 404 for an unknown id, otherwise the stored username,
      names, e-mail and phone number, unchanged. */
  function GetProfile(users: seq<User>, userId: int): (r: Response<UserProfile>)
    ensures r.Fail? <==> UserById(users, userId).None?
    ensures r.Fail? ==> r.error == UserNotFound
    ensures r.Ok? ==>
      var u := UserById(users, userId).value;
      && u.id == userId
      && r.value == UserProfile(u.username, u.firstName, u.lastName, u.email, u.phoneNumber)
  {
    match UserById(users, userId)
    case None => Fail(UserNotFound)
    case Some(u) => Ok(UserProfile(u.username, u.firstName, u.lastName, u.email, u.phoneNumber))
  }

  /** `change_password`: 400 when the user is unknown or the old password
      does not verify; otherwise the user's digest is replaced by a digest of
      the new password. */
  function PasswordChange(users: seq<User>, userId: int, oldPassword: string, newPassword: string, salt: nat): Step<string>
  {
    var found := UserById(users, userId);
    if found.None? || !VerifyPassword(oldPassword, found.value.hashedPassword) then Step(Fail(IncorrectOldPassword), users)
    else Step(Ok(PasswordUpdated), ReplaceUser(users, found.value.(hashedPassword := Bcrypt(newPassword, salt))))
  }

  method ChangePassword(db: UserDb, userId: int, oldPassword: string, newPassword: string, salt: nat)
    returns (r: Response<string>)
    requires db.Valid()
    modifies db
    ensures db.Valid() && db.tokens == old(db.tokens)
    ensures Step(r, db.users) == PasswordChange(old(db.users), userId, oldPassword, newPassword, salt)
  {
    var found := UserById(db.users, userId);
    if found.None? || !VerifyPassword(oldPassword, found.value.hashedPassword) {
      return Fail(IncorrectOldPassword);
    }
    var hashedNewPassword := Bcrypt(newPassword, salt);
    db.UpdateUser(found.value.(hashedPassword := hashedNewPassword));
    r := Ok(PasswordUpdated);
  }

  /** A password change succeeds exactly when the old password verifies,
      and a refusal changes nothing. After success the new password
      verifies, a different old password no longer does, every other field
      of the user is as before and every other user is untouched. */
  lemma PasswordChangeEffect(users: seq<User>, nextId: nat, userId: int, oldPassword: string, newPassword: string, salt: nat)
    requires UserIdsBelow(users, nextId)
    ensures var s := PasswordChange(users, userId, oldPassword, newPassword, salt);
      && (s.response.Ok? <==>
            UserById(users, userId).Some? && VerifyPassword(oldPassword, UserById(users, userId).value.hashedPassword))
      && (s.response.Fail? ==> s.users == users)
    ensures var s := PasswordChange(users, userId, oldPassword, newPassword, salt);
      s.response.Ok? ==>
        && UserById(s.users, userId).Some?
        && VerifyPassword(newPassword, UserById(s.users, userId).value.hashedPassword)
        && (oldPassword != newPassword ==> !VerifyPassword(oldPassword, UserById(s.users, userId).value.hashedPassword))
        && UserById(s.users, userId).value.(hashedPassword := UserById(users, userId).value.hashedPassword)
           == UserById(users, userId).value
        && (forall x :: x != userId ==> UserById(s.users, x) == UserById(users, x))
  {
    var found := UserById(users, userId);
    if found.Some? && VerifyPassword(oldPassword, found.value.hashedPassword) {
      ReplaceUserEffect(users, nextId, found.value.(hashedPassword := Bcrypt(newPassword, salt)));
    }
  }

  /** The profile read after a password change is the profile read before. */
  lemma ProfileSurvivesPasswordChange(users: seq<User>, nextId: nat, userId: int, oldPassword: string, newPassword: string, salt: nat)
    requires UserIdsBelow(users, nextId)
    ensures GetProfile(PasswordChange(users, userId, oldPassword, newPassword, salt).users, userId)
      == GetProfile(users, userId)
  {
    PasswordChangeEffect(users, nextId, userId, oldPassword, newPassword, salt);
  }
}
