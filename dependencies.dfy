/** The route dependencies of api/dependencies.py: the service factories,
    each building a service over the one store, and the access checks. The
    Redis token lookup is a map from token to user id. */
module Dependencies {
  import opened Wrappers
  import opened Tables
  import opened Models
  import opened Sessions
  import opened Repositories
  import opened UserSchemas
  import ImageWorker
  import BaseServices
  import EventServices
  import UserServices

  /** What a route answers instead of its result: the exceptions of
      core/exceptions.py, FastAPI's 422 for a query parameter out of its
      bounds, the `HTTPException` of the image upload, an exception a service
      lets through (a 500), and a return value the route's response model
      rejects (also a 500). */
  datatype ApiError =
    | Unauthorized
    | Forbidden
    | NotFound
    | UnprocessableEntity
    | BadUpload(error: ImageWorker.HttpError)
    | ServerError(raised: Raised)
    | ResponseInvalid

  /** `check_token`: the user id stored under the token, if any. */
  function CheckToken(tokens: map<string, Id>, token: string): (r: Option<Id>)
    ensures r.Some? <==> token in tokens
    ensures r.Some? ==> r.value == tokens[token]
  {
    if token in tokens then Some(tokens[token]) else None
  }

  /** `get_current_user`: the id behind the token, or `Unauthorized`. */
  function GetCurrentUser(tokens: map<string, Id>, token: string): (r: Result<Id, ApiError>)
    ensures r.Success? <==> token in tokens
    ensures r.Success? ==> r.value == tokens[token]
    ensures r.Failure? ==> r.error == Unauthorized
  {
    match CheckToken(tokens, token)
    case None => Failure(Unauthorized)
    case Some(id) => Success(id)
  }

  /** `check_user_access`: the token is checked first; then the path's user
      id must be the token's. */
  function CheckUserAccess(tokens: map<string, Id>, token: string, userId: Id): (r: Result<Id, ApiError>)
    ensures r.Success? <==> token in tokens && tokens[token] == userId
    ensures r.Success? ==> r.value == userId
    ensures token !in tokens ==> r == Failure(Unauthorized)
    ensures token in tokens && tokens[token] != userId ==> r == Failure(Forbidden)
  {
    var current :- GetCurrentUser(tokens, token);
    if userId != current then Failure(Forbidden) else Success(userId)
  }

  /** `find_user`: the user read as a `UserFromDB`, or `NotFound`; a row that
      schema rejects raises out of the service. */
  function FindUser(db: Db, id: Id): (r: Result<User, ApiError>)
    ensures r.Success? <==> id in db.users.rows && UserFromDbAccepts(db.users.rows[id])
    ensures r.Success? ==> r.value == db.users.rows[id]
    ensures id !in db.users.rows ==> r == Failure(NotFound)
    ensures id in db.users.rows && !UserFromDbAccepts(db.users.rows[id]) ==> r == Failure(ServerError(ValidationError))
  {
    match UserServices.GetById(db, id)
    case Failure(e) => Failure(ServerError(e))
    case Success(None) => Failure(NotFound)
    case Success(Some(u)) => Success(u)
  }

  /** `get_admin_user`: the token is checked first, then the user is read as
      a `UserFromDB`; a missing user or one who is not an administrator is
      `Forbidden`. */
  function GetAdminUser(tokens: map<string, Id>, token: string, db: Db): (r: Result<User, ApiError>)
    ensures token !in tokens ==> r == Failure(Unauthorized)
    ensures r.Success? <==>
      token in tokens && tokens[token] in db.users.rows
      && UserFromDbAccepts(db.users.rows[tokens[token]]) && db.users.rows[tokens[token]].isAdmin
    ensures r.Success? ==> r.value == db.users.rows[tokens[token]]
    ensures r.Failure? ==> r.error in {Unauthorized, Forbidden, ServerError(ValidationError)}
  {
    var id :- GetCurrentUser(tokens, token);
    match UserServices.GetById(db, id)
    case Failure(e) => Failure(ServerError(e))
    case Success(found) => if found.None? || !found.value.isAdmin then Failure(Forbidden) else Success(found.value)
  }

  /** Whoever passes the administrator check is the current user of the token
      and passes the access check for their own id. */
  lemma AdminIsCurrentUser(tokens: map<string, Id>, token: string, db: Db)
    requires GetAdminUser(tokens, token, db).Success?
    ensures GetCurrentUser(tokens, token) == Success(tokens[token])
    ensures CheckUserAccess(tokens, token, tokens[token]) == Success(tokens[token])
    ensures FindUser(db, tokens[token]) == GetAdminUser(tokens, token, db)
  {
  }

  /** An administrator whose source user was deleted, so that `source_id` is
      null, no longer reads as a `UserFromDB`: the administrator check then
      fails with a server error rather than `Forbidden`. */
  lemma DetachedAdminFails(tokens: map<string, Id>, token: string, db: Db)
    requires token in tokens && tokens[token] in db.users.rows
    requires db.users.rows[tokens[token]].sourceId.None?
    ensures GetAdminUser(tokens, token, db) == Failure(ServerError(ValidationError))
  {
  }

  /** `get_users_service`. */
  method GetUsersService(store: Store) returns (s: UserServices.UserService)
    requires store.Valid()
    ensures fresh(s) && s.store == store && s.Valid()
  {
    s := new UserServices.UserService(store);
  }

  /** `get_events_service`. */
  method GetEventsService(store: Store) returns (s: EventServices.EventService)
    requires store.Valid()
    ensures fresh(s) && s.store == store && s.Valid()
  {
    s := new EventServices.EventService(store);
  }

  /** `get_tags_service`: `BaseService` over `tag`, read as `TagFromDB`. */
  method GetTagsService(store: Store) returns (s: BaseServices.BaseService<Tag, TagPatch>)
    requires store.Valid()
    ensures fresh(s) && s.store == store && s.model == TagModel && s.accepts == EventServices.EveryRow && s.Valid()
  {
    TagModelSound();
    s := new BaseServices.BaseService(store, TagModel, EventServices.EveryRow);
  }

  /** `get_locations_service`: `BaseService` over `location`, read as `LocationFromDB`. */
  method GetLocationsService(store: Store) returns (s: BaseServices.BaseService<Location, LocationPatch>)
    requires store.Valid()
    ensures fresh(s) && s.store == store && s.model == LocationModel && s.accepts == EventServices.EveryRow && s.Valid()
  {
    LocationModelSound();
    s := new BaseServices.BaseService(store, LocationModel, EventServices.EveryRow);
  }

  /** `get_categories_service`: `BaseService` over `category`, read as `CategoryFromDB`. */
  method GetCategoriesService(store: Store) returns (s: BaseServices.BaseService<Category, CategoryPatch>)
    requires store.Valid()
    ensures fresh(s) && s.store == store && s.model == CategoryModel && s.accepts == EventServices.EveryRow && s.Valid()
  {
    CategoryModelSound();
    s := new BaseServices.BaseService(store, CategoryModel, EventServices.EveryRow);
  }

  /** `get_favorite_service`. */
  method GetFavoriteService(store: Store) returns (s: EventServices.FavoriteService)
    ensures fresh(s) && s.store == store
  {
    s := new EventServices.FavoriteService(store);
  }

  /** `SourceUserService`: `BaseService` over `source_user`, read as `SourceUserFromDB`. */
  method GetSourceUserService(store: Store) returns (s: BaseServices.BaseService<SourceUser, SourceUserPatch>)
    requires store.Valid()
    ensures fresh(s) && s.store == store && s.model == SourceUserModel && s.accepts == UserServices.SourceUserRead
    ensures s.Valid()
  {
    SourceUserModelSound();
    s := new BaseServices.BaseService(store, SourceUserModel, UserServices.SourceUserRead);
  }
}
