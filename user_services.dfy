/** The user services of services/users_service.py. Lookups, the existence
    check and authentication only read, so they are functions of the
    committed store; registration, the avatar and the password change open a
    unit of work on the store and change it. Password hashing and its check
    are parameters: `hash` for `hash_password` and `verify` for
    `verify_password`. */
module UserServices {
  import opened Wrappers
  import opened Tables
  import opened Models
  import opened Sessions
  import opened Repositories
  import opened UnitsOfWork
  import opened EventSchemas
  import opened UserSchemas
  import opened UserRows
  import ImageWorker
  import BaseServices

  /** `UserBase.model_validate`, the read schema of `UserService`. */
  const UserRead: BaseServices.ReadModel :=
    (db: Db, id: Id) => id in db.users.rows && UserBaseAccepts(db.users.rows[id])

  /** `SourceUserFromDB.model_validate`, the read schema of `SourceUserService`. */
  const SourceUserRead: BaseServices.ReadModel :=
    (db: Db, id: Id) => id in db.sourceUsers.rows && SourceUserAccepts(db.sourceUsers.rows[id])

  const EmailTaken: string := "Email already exists."
  const UsernameTaken: string := "Username already exists."
  const IncorrectData: string := "Incorrect data"

  /** `get_by_id`: `None` for an unknown id; otherwise the row read as a
      `UserFromDB`, which rejects a user without a source. */
  function GetById(db: Db, id: Id): (r: Result<Option<User>, Raised>)
    ensures r == Success(None) <==> id !in db.users.rows
    ensures r.Success? && r.value.Some? <==> id in db.users.rows && UserFromDbAccepts(db.users.rows[id])
    ensures r.Success? && r.value.Some? ==> r.value.value == db.users.rows[id]
    ensures r.Failure? ==> r.error == ValidationError
  {
    match UserById(db, id)
    case None => Success(None)
    case Some(u) => if UserFromDbAccepts(u) then Success(Some(u)) else Failure(ValidationError)
  }

  /** The row the repository found, if any, read as a `UserBase`. */
  function ReadBase(db: Db, found: Option<Id>): (r: Result<Option<User>, Raised>)
    requires found.Some? ==> found.value in db.users.rows
    ensures r == Success(None) <==> found.None?
    ensures r.Success? && r.value.Some? ==> r.value.value == db.users.rows[found.value]
    ensures found.Some? ==> (r.Success? <==> UserBaseAccepts(db.users.rows[found.value]))
    ensures r.Failure? ==> r.error == ValidationError
  {
    match found
    case None => Success(None)
    case Some(k) => if UserBaseAccepts(db.users.rows[k]) then Success(Some(db.users.rows[k])) else Failure(ValidationError)
  }

  /** `get_by_email`. */
  function GetByEmail(db: Db, email: string): (r: Result<Option<User>, Raised>)
    ensures r.Success? && r.value.Some? ==> r.value.value.email == email && UserBaseAccepts(r.value.value)
    ensures r.Failure? ==> r.error == ValidationError
  {
    ReadBase(db, UserByEmail(db, email))
  }

  /** `get_by_username`. */
  function GetByUsername(db: Db, username: string): (r: Result<Option<User>, Raised>)
    ensures r.Success? && r.value.Some? ==> r.value.value.username == username && UserBaseAccepts(r.value.value)
    ensures r.Failure? ==> r.error == ValidationError
  {
    ReadBase(db, UserByUsername(db, username))
  }

  /** In a store whose constraints hold, `get_by_email` answers `None` exactly
      when no user has the address, and otherwise reads the one user that has it. */
  lemma GetByEmailMeaning(db: Db, email: string)
    requires db.WellFormed() && db.Constraints()
    ensures GetByEmail(db, email) == Success(None) <==> forall k :: k in db.users.rows ==> db.users.rows[k].email != email
    ensures forall k :: k in db.users.rows && db.users.rows[k].email == email ==>
      && (GetByEmail(db, email).Success? <==> UserBaseAccepts(db.users.rows[k]))
      && (GetByEmail(db, email).Success? ==> GetByEmail(db, email).value == Some(db.users.rows[k]))
  {
    UserByEmailMeaning(db, email);
  }

  /** The same for `get_by_username`. */
  lemma GetByUsernameMeaning(db: Db, username: string)
    requires db.WellFormed() && db.Constraints()
    ensures GetByUsername(db, username) == Success(None) <==>
      forall k :: k in db.users.rows ==> db.users.rows[k].username != username
    ensures forall k :: k in db.users.rows && db.users.rows[k].username == username ==>
      && (GetByUsername(db, username).Success? <==> UserBaseAccepts(db.users.rows[k]))
      && (GetByUsername(db, username).Success? ==> GetByUsername(db, username).value == Some(db.users.rows[k]))
  {
    UserByUsernameMeaning(db, username);
  }

  /** `check_user_exists`: the e-mail is checked first, then the username;
      the rows found are not validated. */
  function CheckUserExists(db: Db, username: string, email: string): (r: Option<string>)
    ensures r.Some? ==> r.value == EmailTaken || r.value == UsernameTaken
  {
    if UserByEmail(db, email).Some? then Some(EmailTaken)
    else if UserByUsername(db, username).Some? then Some(UsernameTaken)
    else None
  }

  /** In a store whose constraints hold: no message exactly when neither the
      address nor the name is taken, the e-mail message whenever the address
      is taken, and the username message only when the address is free. */
  lemma CheckUserExistsMeaning(db: Db, username: string, email: string)
    requires db.WellFormed() && db.Constraints()
    ensures var r := CheckUserExists(db, username, email);
      && (r.None? <==> forall k :: k in db.users.rows ==>
            db.users.rows[k].email != email && db.users.rows[k].username != username)
      && (r == Some(EmailTaken) <==> exists k :: k in db.users.rows && db.users.rows[k].email == email)
      && (r == Some(UsernameTaken) <==>
            (forall k :: k in db.users.rows ==> db.users.rows[k].email != email)
            && exists k :: k in db.users.rows && db.users.rows[k].username == username)
  {
    UserByEmailMeaning(db, email);
    UserByUsernameMeaning(db, username);
  }

  /** `authenticate_user`: the id of the user with that address, when the
      password checks against its hash. */
  function AuthenticateUser(db: Db, email: string, password: string, verify: (string, string) -> bool): (r: Option<Id>)
    ensures r.Some? ==> r.value in db.users.rows && db.users.rows[r.value].email == email
    ensures r.Some? ==> verify(password, db.users.rows[r.value].hashedPassword)
  {
    match UserByEmail(db, email)
    case None => None
    case Some(k) => if verify(password, db.users.rows[k].hashedPassword) then Some(k) else None
  }

  /** In a store whose constraints hold, authentication yields a user exactly
      when that user has the address and the password checks against its hash. */
  lemma AuthenticateUserMeaning(db: Db, email: string, password: string, verify: (string, string) -> bool, k: Id)
    requires db.WellFormed() && db.Constraints()
    ensures AuthenticateUser(db, email, password, verify) == Some(k) <==>
      k in db.users.rows && db.users.rows[k].email == email && verify(password, db.users.rows[k].hashedPassword)
  {
    UserByEmailMeaning(db, email);
  }

  /** A row that registration would insert: the next id of `users`. */
  function Registering(db: Db, username: string, email: string, hashed: string): (Db, Id) {
    var created := Tables.Create(db.users, NewUserRow(username, email, hashed));
    (db.(users := created.0), created.1)
  }

  /** When neither the address nor the name is taken, the insert of
      `create_user` passes every constraint exactly when the username fits its
      column and the default source user 1 exists. */
  lemma RegistrationSucceeds(db: Db, username: string, email: string, hashed: string)
    requires db.WellFormed() && db.Constraints()
    requires CheckUserExists(db, username, email).None?
    ensures var next := Registering(db, username, email, hashed).0;
      next.Constraints() <==> |username| <= UsernameMaxLength && DefaultSourceId in db.sourceUsers.rows
  {
    var row := NewUserRow(username, email, hashed);
    var (next, id) := Registering(db, username, email, hashed);
    CheckUserExistsMeaning(db, username, email);
    assert id !in db.users.rows && next.users.rows == db.users.rows[id := row];
    if |username| <= UsernameMaxLength && DefaultSourceId in db.sourceUsers.rows {
      assert next.UserColumns() by {
        forall a, b | a in next.users.rows && b in next.users.rows && a != b
          ensures next.users.rows[a].username != next.users.rows[b].username
          ensures next.users.rows[a].email != next.users.rows[b].email
        {
          if a != id && b != id {
            assert next.users.rows[a] == db.users.rows[a] && next.users.rows[b] == db.users.rows[b];
          }
        }
        assert UserFits(row);
      }
      assert next.ForeignKeys();
    } else if |username| > UsernameMaxLength {
      assert !UserFits(next.users.rows[id]);
    } else {
      assert next.users.rows[id].sourceId.value !in next.sourceUsers.rows;
    }
  }

  /** `create_user`'s answer: the conflict message, or the new id and row. */
  datatype Registration = Taken(message: string) | Registered(id: Id, row: User)

  /** The check `change_password` makes first: the user exists and the last
      password checks against its hash. */
  predicate CredentialsOk(db: Db, id: Id, lastPassword: string, verify: (string, string) -> bool) {
    id in db.users.rows && verify(lastPassword, db.users.rows[id].hashedPassword)
  }

  /** `change_password` as the source has it: the credentials are checked,
      and on success the call goes to `self.update_password`, which no
      service defines, so the lookup raises `AttributeError`. */
  function ChangePasswordAsWritten(db: Db, id: Id, lastPassword: string, verify: (string, string) -> bool)
    : (r: Result<Option<User>, Raised>)
    ensures r.Failure?
  {
    if !CredentialsOk(db, id, lastPassword, verify) then Failure(ValueError(IncorrectData))
    else
      Failure(AttributeError("update_password"))
  }

  /** As written, a password is never changed: with correct credentials the
      call raises `AttributeError` instead. */
  lemma ChangePasswordNeverSucceeds(db: Db, id: Id, lastPassword: string, verify: (string, string) -> bool)
    requires CredentialsOk(db, id, lastPassword, verify)
    ensures ChangePasswordAsWritten(db, id, lastPassword, verify) == Failure(AttributeError("update_password"))
  {
  }

  /** After the corrected password change, the new password authenticates the
      user by its address, and the old one no longer does unless it checks
      against the new hash as well. */
  lemma {:induction false} PasswordChangeTakesEffect(db: Db, id: Id, newPassword: string, lastPassword: string,
                                                     verify: (string, string) -> bool, hash: string -> string)
    requires db.WellFormed() && db.Constraints() && id in db.users.rows
    requires verify(newPassword, hash(newPassword))
    ensures var after := SetPassword(db, id, hash(newPassword));
      && AuthenticateUser(after, db.users.rows[id].email, newPassword, verify) == Some(id)
      && (AuthenticateUser(after, db.users.rows[id].email, lastPassword, verify) == Some(id) <==>
            verify(lastPassword, hash(newPassword)))
  {
    var after := SetPassword(db, id, hash(newPassword));
    SetPasswordEffect(db, id, hash(newPassword));
    AuthenticateUserMeaning(after, db.users.rows[id].email, newPassword, verify, id);
    AuthenticateUserMeaning(after, db.users.rows[id].email, lastPassword, verify, id);
  }

  /** `get_with_favorites`: `None` for an unknown user; otherwise the user
      read as a `UserWithFavorites`, whose favourites are `EventShort`s and so
      must each have a `closest_date`. */
  function GetWithFavorites(db: Db, user: Id): (r: Result<Option<(User, seq<Id>)>, Raised>)
    ensures r == Success(None) <==> user !in db.users.rows
    ensures user in db.users.rows ==>
      (r.Success? <==> UserBaseAccepts(db.users.rows[user]) && forall e :: (user, e) in db.favorites ==> EventAccepts(db, e))
    ensures r.Success? && r.value.Some? ==>
      r.value.value.0 == db.users.rows[user] && forall e :: e in r.value.value.1 <==> (user, e) in db.favorites
    ensures r.Failure? ==> r.error == ValidationError
  {
    match UserWithFavorites(db, user)
    case None => Success(None)
    case Some(found) =>
      if UserBaseAccepts(found.0) && forall e | e in found.1 :: EventAccepts(db, e) then Success(Some(found))
      else Failure(ValidationError)
  }

  /** Marking as favourite an event that has no date makes the user's profile
      with favourites unreadable, though the favourite itself is stored. */
  lemma UndatedFavoriteBreaksProfile(db: Db, user: Id, event: Id)
    requires user in db.users.rows && event in db.events.rows && DatesOf(db, event) == []
    ensures GetWithFavorites(AddFavorite(db, user, event), user) == Failure(ValidationError)
  {
    var a := AddFavorite(db, user, event);
    AddFavoriteEffect(db, user, event, user);
    assert (user, event) in a.favorites;
    assert DatesOf(a, event) == DatesOf(db, event);
    assert !EventAccepts(a, event);
  }

  /** The body of `update_user_avatar` inside its scope, once the user is
      found: the repository's update, then the row read as a `UserBase`. */
  method SetAvatarAndRead(users: UserRepository, id: Id, path: string) returns (r: Result<User, Raised>)
    requires users.Valid() && id in users.session.pending.users.rows
    modifies users.session
    ensures users.Valid() && users.session.calls == old(users.session.calls)
    ensures users.session.pending == SetAvatar(old(users.session.pending), id, path)
    ensures r.Success? <==> UserBaseAccepts(old(users.session.pending).users.rows[id])
    ensures r.Success? ==> r.value == users.session.pending.users.rows[id]
    ensures r.Failure? ==> r.error == ValidationError
  {
    var user := users.session.pending.users.rows[id];
    var updated := users.UpdateAvatar(id, path);
    assert updated == user.(profileImage := Some(path));
    r := if UserBaseAccepts(updated) then Success(updated) else Failure(ValidationError);
  }

  /** The body of the corrected `change_password` inside its scope, once the
      credentials check: the repository's update, then the row read as a `UserBase`. */
  method SetPasswordAndRead(users: UserRepository, id: Id, hashed: string) returns (r: Result<User, Raised>)
    requires users.Valid() && id in users.session.pending.users.rows
    modifies users.session
    ensures users.Valid() && users.session.calls == old(users.session.calls)
    ensures users.session.pending == SetPassword(old(users.session.pending), id, hashed)
    ensures r.Success? <==> UserBaseAccepts(old(users.session.pending).users.rows[id])
    ensures r.Success? ==> r.value == users.session.pending.users.rows[id]
    ensures r.Failure? ==> r.error == ValidationError
  {
    var user := users.session.pending.users.rows[id];
    var updated := users.UpdatePassword(id, hashed);
    assert updated == user.(hashedPassword := hashed);
    r := if UserBaseAccepts(updated) then Success(updated) else Failure(ValidationError);
  }

  /** `UserService`: its own registration, avatar and password operations,
      with the generic `BaseService` operations over `user` and the read
      schema `UserBase` in `base`. */
  class UserService {
    const store: Store
    const base: BaseServices.BaseService<User, UserPatch>

    ghost predicate Valid()
      reads store, base.store
    {
      base.store == store && base.model == UserModel && base.accepts == UserRead && base.Valid()
    }

    constructor(store: Store)
      requires store.Valid()
      ensures this.store == store && Valid()
    {
      UserModelSound();
      this.store := store;
      base := new BaseServices.BaseService(store, UserModel, UserRead);
    }

    /** `create_user`: the password is hashed first; a taken address or name
        answers with its message and inserts nothing; otherwise the row with
        the hash is inserted and returned as stored, and a row that breaks a
        constraint raises `IntegrityError` with nothing inserted. */
    method CreateUser(username: string, email: string, password: string, hash: string -> string)
      returns (r: Result<Registration, Raised>)
      requires Valid()
      modifies store
      ensures Valid()
      ensures var db := old(store.db);
        var exists_ := CheckUserExists(db, username, email);
        var (next, id) := Registering(db, username, email, hash(password));
        && (exists_.Some? ==> r == Success(Taken(exists_.value)) && store.db == db)
        && (exists_.None? ==>
              && (r.Success? <==> next.Constraints())
              && (r.Success? ==> r.value == Registered(id, NewUserRow(username, email, hash(password))) && store.db == next)
              && (r.Failure? ==> r.error == IntegrityError && store.db == db))
    {
      var hashed := hash(password);
      var uow := new UnitOfWork(store);
      uow.Enter();
      var scope := uow.scope;
      var exists_ := CheckUserExists(store.db, username, email);
      if exists_.Some? {
        var out := scope.Finish(None, false);
        return Success(Taken(exists_.value));
      }
      var row := NewUserRow(username, email, hashed);
      var created := scope.user.rows.Create(row);
      if created.Failure? {
        var out := scope.Finish(Some(created.error), false);
        return Failure(created.error);
      }
      var out := scope.Finish(None, false);
      r := Success(Registered(created.value, row));
    }

    /** `update_user_avatar`: for an unknown user, `None` and no change.
        Otherwise the old avatar file is deleted first, when it is set and
        differs from the new path; then the profile image becomes the path and
        the row is read as a `UserBase`. When that read fails the new path is
        rolled back, but the old file is already gone. */
    method UpdateUserAvatar(id: Id, path: string, files: set<string>, removalFails: bool)
      returns (r: Result<Option<User>, Raised>, filesAfter: set<string>)
      requires Valid()
      modifies store
      ensures Valid()
      ensures id !in old(store.db).users.rows ==> r == Success(None) && store.db == old(store.db) && filesAfter == files
      ensures id in old(store.db).users.rows ==>
        var before := old(store.db);
        var next := SetAvatar(before, id, path);
        && filesAfter == ImageWorker.AfterReplacing(files, before.users.rows[id].profileImage, path, removalFails)
        && (r.Success? <==> UserBaseAccepts(before.users.rows[id]))
        && (r.Success? ==> r.value == Some(next.users.rows[id]) && store.db == next)
        && (r.Failure? ==> r.error == ValidationError && store.db == before)
    {
      var uow := new UnitOfWork(store);
      uow.Enter();
      var scope := uow.scope;
      if id !in scope.session.pending.users.rows {
        var out := scope.Finish(None, false);
        return Success(None), files;
      }
      var user := scope.session.pending.users.rows[id];
      filesAfter := ImageWorker.AfterReplacing(files, user.profileImage, path, removalFails);
      var read := SetAvatarAndRead(scope.user, id, path);
      var out := scope.Finish(if read.Failure? then Some(read.error) else None, false);
      r := if read.Failure? then Failure(read.error) else Success(Some(read.value));
    }

    /** `change_password` as evidently intended: unknown users and a last
        password that does not check raise `ValueError("Incorrect data")`;
        otherwise the user's hash becomes the hash of the new password,
        through the repository's `update_password`, and the row is read as a
        `UserBase`. */
    method ChangePassword(id: Id, lastPassword: string, newPassword: string,
                          verify: (string, string) -> bool, hash: string -> string)
      returns (r: Result<Option<User>, Raised>)
      requires Valid()
      modifies store
      ensures Valid()
      ensures !CredentialsOk(old(store.db), id, lastPassword, verify) ==>
        r == Failure(ValueError(IncorrectData)) && store.db == old(store.db)
      ensures CredentialsOk(old(store.db), id, lastPassword, verify) ==>
        var before := old(store.db);
        var next := SetPassword(before, id, hash(newPassword));
        && (r.Success? <==> UserBaseAccepts(before.users.rows[id]))
        && (r.Success? ==> r.value == Some(next.users.rows[id]) && store.db == next)
        && (r.Failure? ==> r.error == ValidationError && store.db == before)
    {
      var uow := new UnitOfWork(store);
      uow.Enter();
      var scope := uow.scope;
      if !CredentialsOk(scope.session.pending, id, lastPassword, verify) {
        var out := scope.Finish(Some(ValueError(IncorrectData)), false);
        return Failure(ValueError(IncorrectData));
      }
      var hashed := hash(newPassword);
      var read := SetPasswordAndRead(scope.user, id, hashed);
      var out := scope.Finish(if read.Failure? then Some(read.error) else None, false);
      r := if read.Failure? then Failure(read.error) else Success(Some(read.value));
    }

    /** `update` as `update_user` calls it, with a `UserUpdate` for the
        caller's own id: for an existing user, the row under the request's
        `id` becomes the old one with the request's fields set, and is read
        back as a `UserBase`. A null name or address, an `id` that is taken,
        or moving a user who has favourites raises `IntegrityError`. Every
        failure leaves the store as it was. */
    method Update(id: Id, patch: UserPatch) returns (r: Result<Option<(Id, User)>, Raised>)
      requires Valid()
      modifies store
      ensures Valid()
      ensures id !in old(store.db).users.rows ==> r == Success(None) && store.db == old(store.db)
      ensures id in old(store.db).users.rows && NullsRequired(patch) ==> r == Failure(IntegrityError)
      ensures id in old(store.db).users.rows && patch.id != id && patch.id in old(store.db).users.rows ==> r == Failure(IntegrityError)
      ensures id in old(store.db).users.rows && patch.id != id && (exists e :: (id, e) in old(store.db).favorites) ==>
        r == Failure(IntegrityError)
      ensures r.Success? && r.value.Some? ==>
        && id in old(store.db).users.rows
        && r.value.value == (patch.id, MergeUser(old(store.db).users.rows[id], patch))
        && store.db == old(store.db).(users := store.db.users)
        && (patch.id != id ==> id !in store.db.users.rows)
      ensures r.Failure? ==> store.db == old(store.db)
    {
      var db := store.db;
      if id in db.users.rows {
        AssignUserOutcome(db, id, patch);
        if patch.id != id && (exists e :: (id, e) in db.favorites) && AssignUser(db, id, patch).Success? {
          var e :| (id, e) in db.favorites;
          MovedUserWithFavoritesRejected(db, id, patch, e);
        }
      }
      r := base.Update(id, patch);
    }
  }
}
