/** The user side of the repositories (repositories/users_repo.py): lookups
    by id, e-mail and username, the favourites list of a user, and the three
    changes the repository makes to a user (favourites, avatar, password),
    each as a function from the store before to the store after. */
module UserRows {
  import opened Wrappers
  import opened Tables
  import opened Models

  /** The first id of `ids`, in order, of a user row that `keep` accepts:
      `scalars().first()` over an unordered `SELECT`. */
  function FirstUser(users: Table<User>, ids: seq<Id>, keep: User -> bool): (r: Option<Id>)
    ensures r.Some? ==> r.value in users.rows && keep(users.rows[r.value])
    ensures r.Some? ==>
      exists i :: 0 <= i < |ids| && ids[i] == r.value && (forall j | 0 <= j < i :: !(ids[j] in users.rows && keep(users.rows[ids[j]])))
    ensures r.None? <==> forall i | 0 <= i < |ids| :: !(ids[i] in users.rows && keep(users.rows[ids[i]]))
  {
    if ids == [] then None
    else if ids[0] in users.rows && keep(users.rows[ids[0]]) then Some(ids[0])
    else
      var rest := FirstUser(users, ids[1..], keep);
      if rest.Some? then
        var i :| 0 <= i < |ids[1..]| && ids[1..][i] == rest.value &&
          forall j | 0 <= j < i :: !(ids[1..][j] in users.rows && keep(users.rows[ids[1..][j]]));
        assert ids[i + 1] == rest.value;
        assert forall j | 0 <= j < i + 1 :: !(ids[j] in users.rows && keep(users.rows[ids[j]])) by {
          forall j | 0 <= j < i + 1 ensures !(ids[j] in users.rows && keep(users.rows[ids[j]])) {
            if j > 0 {
              assert ids[j] == ids[1..][j - 1];
            }
          }
        }
        rest
      else
        assert forall i | 0 <= i < |ids| :: !(ids[i] in users.rows && keep(users.rows[ids[i]])) by {
          forall i | 0 <= i < |ids| ensures !(ids[i] in users.rows && keep(users.rows[ids[i]])) {
            if i > 0 {
              assert ids[i] == ids[1..][i - 1];
            }
          }
        }
        rest
  }

  /** `get_by_id`. */
  function UserById(db: Db, id: Id): Option<User> {
    Get(db.users, id)
  }

  /** `get_by_email`. */
  function UserByEmail(db: Db, email: string): Option<Id> {
    FirstUser(db.users, db.users.order, (u: User) => u.email == email)
  }

  /** `get_by_username`. */
  function UserByUsername(db: Db, username: string): Option<Id> {
    FirstUser(db.users, db.users.order, (u: User) => u.username == username)
  }

  /** A lookup by e-mail finds a user exactly when one has that e-mail, and
      then, the column being unique, it is that user. */
  lemma UserByEmailMeaning(db: Db, email: string)
    requires db.WellFormed() && db.Constraints()
    ensures UserByEmail(db, email).None? <==> forall k :: k in db.users.rows ==> db.users.rows[k].email != email
    ensures forall k :: k in db.users.rows && db.users.rows[k].email == email ==> UserByEmail(db, email) == Some(k)
  {
    var r := UserByEmail(db, email);
    forall k | k in db.users.rows && db.users.rows[k].email == email ensures r == Some(k) {
      var i :| 0 <= i < |db.users.order| && db.users.order[i] == k;
      assert r.Some?;
    }
  }

  /** A lookup by username finds a user exactly when one has that username,
      and then, the column being unique, it is that user. */
  lemma UserByUsernameMeaning(db: Db, username: string)
    requires db.WellFormed() && db.Constraints()
    ensures UserByUsername(db, username).None? <==> forall k :: k in db.users.rows ==> db.users.rows[k].username != username
    ensures forall k :: k in db.users.rows && db.users.rows[k].username == username ==> UserByUsername(db, username) == Some(k)
  {
    var r := UserByUsername(db, username);
    forall k | k in db.users.rows && db.users.rows[k].username == username ensures r == Some(k) {
      var i :| 0 <= i < |db.users.order| && db.users.order[i] == k;
      assert r.Some?;
    }
  }

  // ---------------------------------------------------------------------------
  // Favourites

  /** The events of `user.favorites`, in the order of the association rows. */
  function FavoritesOf(db: Db, user: Id): seq<Id> {
    Linked(db.favorites, user)
  }

  /** `add_favorite`: the association row is added only when the user and the
      event both exist and the event is not yet a favourite. */
  function AddFavorite(db: Db, user: Id, event: Id): Db {
    if user in db.users.rows && event in db.events.rows && event !in FavoritesOf(db, user)
    then db.(favorites := db.favorites + [(user, event)])
    else db
  }

  /** `remove_favorite`: the association row is deleted only when the user and
      the event both exist and the event is a favourite. */
  function RemoveFavorite(db: Db, user: Id, event: Id): Db {
    if user in db.users.rows && event in db.events.rows && event in FavoritesOf(db, user)
    then db.(favorites := Filter(db.favorites, (p: (Id, Id)) => p != (user, event)))
    else db
  }

  /** Adding appends the event to the user's favourites when both exist and
      it is not there yet; otherwise nothing changes. Other users' lists and
      every table are untouched. */
  lemma AddFavoriteEffect(db: Db, user: Id, event: Id, other: Id)
    ensures var r := AddFavorite(db, user, event);
      && (user in db.users.rows && event in db.events.rows && event !in FavoritesOf(db, user) ==>
            FavoritesOf(r, user) == FavoritesOf(db, user) + [event])
      && (!(user in db.users.rows && event in db.events.rows) || event in FavoritesOf(db, user) ==> r == db)
      && (other != user ==> FavoritesOf(r, other) == FavoritesOf(db, other))
      && r.(favorites := db.favorites) == db
  {
    LinkedAppend(db.favorites, user, [(user, event)]);
    LinkedAppend(db.favorites, other, [(user, event)]);
    assert [(user, event)][1..] == [];
  }

  /** Adding twice is adding once: a favourite is never duplicated. */
  lemma AddFavoriteIdempotent(db: Db, user: Id, event: Id)
    ensures AddFavorite(AddFavorite(db, user, event), user, event) == AddFavorite(db, user, event)
  {
    AddFavoriteEffect(db, user, event, user);
  }

  /** Removing takes the event out of the user's favourites and leaves the
      other users' lists alone; with the user or the event missing, or the
      event not a favourite, nothing changes. */
  lemma RemoveFavoriteEffect(db: Db, user: Id, event: Id, other: Id)
    ensures var r := RemoveFavorite(db, user, event);
      && (user in db.users.rows && event in db.events.rows ==> event !in FavoritesOf(r, user))
      && (!(user in db.users.rows && event in db.events.rows) || event !in FavoritesOf(db, user) ==> r == db)
      && (other != user ==> FavoritesOf(r, other) == FavoritesOf(db, other))
      && r.(favorites := db.favorites) == db
  {
    var keep := (p: (Id, Id)) => p != (user, event);
    if user in db.users.rows && event in db.events.rows && event in FavoritesOf(db, user) && other != user {
      LinkedFilter(db.favorites, other, keep);
    }
  }

  /** Filtering out rows of one user leaves another user's favourites as they were. */
  lemma {:induction false} LinkedFilter(favorites: seq<(Id, Id)>, other: Id, keep: ((Id, Id)) -> bool)
    requires forall i | 0 <= i < |favorites| :: favorites[i].0 == other ==> keep(favorites[i])
    ensures Linked(Filter(favorites, keep), other) == Linked(favorites, other)
  {
    if favorites != [] {
      assert forall i | 0 <= i < |favorites[1..]| :: favorites[1..][i] == favorites[i + 1];
      LinkedFilter(favorites[1..], other, keep);
    }
  }

  /** Filtering with a test every row passes changes nothing. */
  lemma {:induction false} FilterKeepsAll(s: seq<(Id, Id)>, keep: ((Id, Id)) -> bool)
    requires forall i | 0 <= i < |s| :: keep(s[i])
    ensures Filter(s, keep) == s
  {
    if s != [] {
      FilterKeepsAll(s[1..], keep);
      assert s == [s[0]] + s[1..];
    }
  }

  lemma {:induction false} FilterDropsLast(s: seq<(Id, Id)>, p: (Id, Id), keep: ((Id, Id)) -> bool)
    requires forall i | 0 <= i < |s| :: keep(s[i])
    requires !keep(p)
    ensures Filter(s + [p], keep) == s
  {
    if s == [] {
      assert [p][1..] == [];
    } else {
      FilterDropsLast(s[1..], p, keep);
      assert (s + [p])[1..] == s[1..] + [p];
      assert s == [s[0]] + s[1..];
    }
  }

  /** Adding an event that was not a favourite and then removing it gives
      back the store as it was. */
  lemma AddThenRemoveRestores(db: Db, user: Id, event: Id)
    requires event !in FavoritesOf(db, user)
    ensures RemoveFavorite(AddFavorite(db, user, event), user, event) == db
  {
    if user in db.users.rows && event in db.events.rows {
      var added := AddFavorite(db, user, event);
      AddFavoriteEffect(db, user, event, user);
      assert event in FavoritesOf(added, user);
      var keep := (p: (Id, Id)) => p != (user, event);
      assert forall i | 0 <= i < |db.favorites| :: keep(db.favorites[i]) by {
        forall i | 0 <= i < |db.favorites| ensures keep(db.favorites[i]) {
          assert db.favorites[i] in db.favorites;
        }
      }
      FilterDropsLast(db.favorites, (user, event), keep);
    }
  }

  /** Adding keeps every favourite row pointing at an existing user and
      event, and never creates a duplicate row. */
  lemma AddFavoriteKeepsStore(db: Db, user: Id, event: Id)
    requires db.WellFormed() && db.Constraints()
    ensures AddFavorite(db, user, event).WellFormed() && AddFavorite(db, user, event).Constraints()
    ensures Distinct(db.favorites) ==> Distinct(AddFavorite(db, user, event).favorites)
  {
    var r := AddFavorite(db, user, event);
    if r != db {
      assert (user, event) !in db.favorites;
      forall i | 0 <= i < |r.favorites| ensures r.favorites[i].0 in r.users.rows && r.favorites[i].1 in r.events.rows {
        if i < |db.favorites| {
          assert r.favorites[i] == db.favorites[i];
        }
      }
      if Distinct(db.favorites) {
        DistinctSnoc(db.favorites, (user, event));
      }
    }
  }

  /** Removing keeps every constraint of the store. */
  lemma RemoveFavoriteKeepsStore(db: Db, user: Id, event: Id)
    requires db.WellFormed() && db.Constraints()
    ensures RemoveFavorite(db, user, event).WellFormed() && RemoveFavorite(db, user, event).Constraints()
  {
    var r := RemoveFavorite(db, user, event);
    forall i | 0 <= i < |r.favorites| ensures r.favorites[i].0 in r.users.rows && r.favorites[i].1 in r.events.rows {
      assert r.favorites[i] in db.favorites;
    }
  }

  /** `get_with_favorites`: the user with its favourite events, or `None` for
      an unknown id. */
  function UserWithFavorites(db: Db, user: Id): (r: Option<(User, seq<Id>)>)
    ensures r.None? <==> user !in db.users.rows
    ensures r.Some? ==> r.value.0 == db.users.rows[user] && (forall e :: e in r.value.1 <==> (user, e) in db.favorites)
  {
    if user in db.users.rows then Some((db.users.rows[user], FavoritesOf(db, user))) else None
  }

  // ---------------------------------------------------------------------------
  // Single-column updates

  /** `update_avatar`: the user's `profile_image` becomes the path. */
  function SetAvatar(db: Db, user: Id, path: string): Db
    requires user in db.users.rows
  {
    db.(users := db.users.(rows := db.users.rows[user := db.users.rows[user].(profileImage := Some(path))]))
  }

  /** `update_password`: the user's `hashed_password` becomes the hash. */
  function SetPassword(db: Db, user: Id, hashed: string): Db
    requires user in db.users.rows
  {
    db.(users := db.users.(rows := db.users.rows[user := db.users.rows[user].(hashedPassword := hashed)]))
  }

  /** Rewriting user rows without changing their ids or sources keeps every
      foreign key. */
  lemma UsersRewrittenKeepForeignKeys(db: Db, r: Db)
    requires db.ForeignKeys() && r == db.(users := r.users) && r.users.rows.Keys == db.users.rows.Keys
    requires forall k | k in r.users.rows :: r.users.rows[k].sourceId == db.users.rows[k].sourceId
    ensures r.ForeignKeys()
  {
  }

  /** Rewriting user rows without changing their ids, usernames or e-mails
      keeps them unique; rows that fit their columns keep fitting. */
  lemma UsersRewrittenKeepColumns(db: Db, r: Db)
    requires db.UserColumns() && r.users.rows.Keys == db.users.rows.Keys
    requires forall k | k in r.users.rows ::
      && r.users.rows[k].username == db.users.rows[k].username
      && r.users.rows[k].email == db.users.rows[k].email
      && UserFits(r.users.rows[k])
    ensures r.UserColumns()
  {
    forall x, y | x in r.users.rows && y in r.users.rows && x != y
      ensures r.users.rows[x].username != r.users.rows[y].username && r.users.rows[x].email != r.users.rows[y].email
    {
    }
  }

  /** Writing back a user row whose unique and bounded columns and whose
      source are as before keeps every constraint of the store. */
  lemma ReplaceUserKeepsStore(db: Db, user: Id, u: User)
    requires db.WellFormed() && db.Constraints() && user in db.users.rows
    requires u.username == db.users.rows[user].username && u.email == db.users.rows[user].email
    requires UserFits(u) && u.sourceId == db.users.rows[user].sourceId
    ensures var r := db.(users := db.users.(rows := db.users.rows[user := u]));
      r.WellFormed() && r.Constraints()
  {
    var r := db.(users := db.users.(rows := db.users.rows[user := u]));
    assert r.users.rows.Keys == db.users.rows.Keys;
    assert r.WellFormed() by {
      assert r.users.Valid();
    }
    UsersRewrittenKeepForeignKeys(db, r);
    UsersRewrittenKeepColumns(db, r);
    assert r.EventTagKey();
  }

  /** `update_avatar` changes the `profile_image` of its one user and nothing
      else, so every constraint of the store still holds. */
  lemma SetAvatarEffect(db: Db, user: Id, path: string)
    requires db.WellFormed() && db.Constraints() && user in db.users.rows
    ensures var a := SetAvatar(db, user, path);
      && a.users.rows[user].profileImage == Some(path)
      && a.users.rows[user].(profileImage := db.users.rows[user].profileImage) == db.users.rows[user]
      && (forall k :: k in db.users.rows && k != user ==> a.users.rows[k] == db.users.rows[k])
      && a.users.rows.Keys == db.users.rows.Keys
      && a.(users := db.users) == db
      && a.WellFormed() && a.Constraints()
  {
    ReplaceUserKeepsStore(db, user, db.users.rows[user].(profileImage := Some(path)));
  }

  /** `update_password` changes the `hashed_password` of its one user and
      nothing else, so every constraint of the store still holds. */
  lemma SetPasswordEffect(db: Db, user: Id, hashed: string)
    requires db.WellFormed() && db.Constraints() && user in db.users.rows
    ensures var p := SetPassword(db, user, hashed);
      && p.users.rows[user].hashedPassword == hashed
      && p.users.rows[user].(hashedPassword := db.users.rows[user].hashedPassword) == db.users.rows[user]
      && (forall k :: k in db.users.rows && k != user ==> p.users.rows[k] == db.users.rows[k])
      && p.users.rows.Keys == db.users.rows.Keys
      && p.(users := db.users) == db
      && p.WellFormed() && p.Constraints()
  {
    ReplaceUserKeepsStore(db, user, db.users.rows[user].(hashedPassword := hashed));
  }
}
