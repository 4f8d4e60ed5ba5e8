/** The event services of services/events_service.py. The listings and
    lookups only read, so they are functions of the committed store and of
    `now`; creating an event, replacing its image and changing favourites
    open a unit of work on the store and change it. */
module EventServices {
  import opened Wrappers
  import opened Tables
  import opened Clock
  import opened Models
  import opened Sessions
  import opened Repositories
  import opened UnitsOfWork
  import opened EventQueries
  import opened EventSchemas
  import opened UserRows
  import ImageWorker
  import BaseServices

  /** `PaginatedResponse[EventShort]`: the caller's offset and limit, the
      total of the count query, and the page, by event id. */
  datatype Envelope = Envelope(total: nat, offset: nat, limit: nat, items: seq<Id>)

  /** The envelope around a page; every row is validated as an `EventShort`,
      and one rejected row fails the whole call. */
  function Envelop(db: Db, total: nat, offset: nat, limit: nat, page: seq<Id>): (r: Result<Envelope, Raised>)
    ensures r.Success? <==> forall e | e in page :: EventAccepts(db, e)
    ensures r.Success? ==> r.value == Envelope(total, offset, limit, page)
    ensures r.Failure? ==> r.error == ValidationError
  {
    if forall e | e in page :: EventAccepts(db, e) then Success(Envelope(total, offset, limit, page))
    else Failure(ValidationError)
  }

  /** What every listing envelope promises: it never fails validation, echoes
      the offset and the limit, carries the count of the same selection, and
      holds the page of that selection in ascending `closest_date`. */
  ghost predicate Listing(db: Db, now: Timestamp, cs: seq<Condition>, offset: nat, limit: nat, r: Result<Envelope, Raised>) {
    && r.Success?
    && r.value.offset == offset && r.value.limit == limit
    && r.value.total == |Matching(db, now, cs)|
    && r.value.items == FindFiltered(db, now, cs, offset, limit)
    && |r.value.items| <= limit
    && |r.value.items| == (if offset >= r.value.total then 0 else Min(limit, r.value.total - offset))
    && (forall e :: e in r.value.items ==> e in Matching(db, now, cs))
    && (forall e :: e in r.value.items ==> ClosestDate(db, e).Some? && ClosestDate(db, e).value >= now)
    && (forall i, j | 0 <= i < j < |r.value.items| ::
          ClosestDate(db, r.value.items[i]).value <= ClosestDate(db, r.value.items[j]).value)
  }

  /** The envelope of a listing query and its count. */
  lemma ListingEnvelope(db: Db, now: Timestamp, cs: seq<Condition>, offset: nat, limit: nat)
    ensures Listing(db, now, cs, offset, limit,
                    Envelop(db, CountFiltered(db, now, cs), offset, limit, FindFiltered(db, now, cs, offset, limit)))
  {
    ListedEventsAccepted(db, now, cs, offset, limit);
    PageWithinCount(db, now, cs, offset, limit);
  }

  /** `EventService.get_all`: the upcoming events, a page of them with their total. */
  function GetAll(db: Db, now: Timestamp, offset: nat, limit: nat): (r: Result<Envelope, Raised>)
    ensures Listing(db, now, [], offset, limit, r)
  {
    ListingEnvelope(db, now, [], offset, limit);
    Envelop(db, CountAll(db, now), offset, limit, EventQueries.FindAll(db, now, offset, limit))
  }

  /** `EventService.get_filtered`: the same for the date conditions; an hour
      outside 0..23 with a date makes `time(hour, 0, 0)` raise `ValueError`. */
  function GetFiltered(db: Db, now: Timestamp, date: Option<Date>, dateFrom: Option<Date>, dateTo: Option<Date>,
                       hour: Option<int>, offset: nat, limit: nat): (r: Result<Envelope, Raised>)
    ensures r.Failure? <==> date.Some? && hour.Some? && !(0 <= hour.value <= 23)
    ensures r.Failure? ==> r.error == ValueError(HourOutOfRangeMessage)
    ensures r.Success? ==> Listing(db, now, DateConditions(date, dateFrom, dateTo, hour).value, offset, limit, r)
  {
    match DateConditions(date, dateFrom, dateTo, hour)
    case Failure(_) => Failure(ValueError(HourOutOfRangeMessage))
    case Success(cs) =>
      ListingEnvelope(db, now, cs, offset, limit);
      Envelop(db, CountFiltered(db, now, cs), offset, limit, FindFiltered(db, now, cs, offset, limit))
  }

  /** The message of Python's `ValueError` for such an hour. */
  const HourOutOfRangeMessage: string := "hour must be in 0..23"

  /** `LocationService.get_events_by_location`. */
  function GetEventsByLocation(db: Db, now: Timestamp, location: Id, offset: nat, limit: nat): (r: Result<Envelope, Raised>)
    ensures Listing(db, now, [LocationIs(location)], offset, limit, r)
  {
    ListingEnvelope(db, now, [LocationIs(location)], offset, limit);
    Envelop(db, CountByLocation(db, now, location), offset, limit, FindByLocation(db, now, location, offset, limit))
  }

  /** `CategoryService.get_events_by_category`. */
  function GetEventsByCategory(db: Db, now: Timestamp, category: Id, offset: nat, limit: nat): (r: Result<Envelope, Raised>)
    ensures Listing(db, now, [CategoryIs(category)], offset, limit, r)
  {
    ListingEnvelope(db, now, [CategoryIs(category)], offset, limit);
    Envelop(db, CountByCategory(db, now, category), offset, limit, FindByCategory(db, now, category, offset, limit))
  }

  /** The date filter with only one end of the range and no date is no
      filter: `get_filtered` then answers exactly as `get_all`. */
  lemma HalfRangeListsAll(db: Db, now: Timestamp, dateFrom: Option<Date>, dateTo: Option<Date>, hour: Option<int>,
                          offset: nat, limit: nat)
    requires dateFrom.None? || dateTo.None?
    ensures GetFiltered(db, now, None, dateFrom, dateTo, hour, offset, limit) == GetAll(db, now, offset, limit)
  {
    var r := GetFiltered(db, now, None, dateFrom, dateTo, hour, offset, limit);
    var s := GetAll(db, now, offset, limit);
    assert DateConditions(None, dateFrom, dateTo, hour) == Success([]);
    assert r.value == s.value;
  }

  /** `LocationFromDB`, `CategoryFromDB` and `TagFromDB`, taken to accept
      every stored row. This holds for categories and tags. `LocationFromDB`
      also rejects a null latitude or longitude, and coordinates are not
      part of this model. */
  const EveryRow: BaseServices.ReadModel := (db: Db, id: Id) => true

  /** `EventFromDB.model_validate`, as the read schema of the event service. */
  const EventRead: BaseServices.ReadModel := (db: Db, e: Id) => EventAccepts(db, e)

  /** `EventService.get`: `None` for an unknown id; an event without dates
      has no `closest_date` and fails validation. */
  function Get(db: Db, id: Id): (r: Result<Option<Event>, Raised>)
    ensures r == Success(None) <==> id !in db.events.rows
    ensures r.Success? && r.value.Some? <==> id in db.events.rows && DatesOf(db, id) != []
    ensures r.Success? && r.value.Some? ==> r.value.value == db.events.rows[id]
    ensures r.Failure? <==> id in db.events.rows && DatesOf(db, id) == []
    ensures r.Failure? ==> r.error == ValidationError
  {
    BaseServices.Get(EventModel, EventRead, db, id)
  }

  /** `FavoriteService.get_user_favorites`: the user's favourite events, and
      an empty list for an unknown user. */
  function GetUserFavorites(db: Db, user: Id): (r: seq<Id>)
    ensures user !in db.users.rows ==> r == []
    ensures user in db.users.rows ==> forall e :: e in r <==> (user, e) in db.favorites
  {
    match UserWithFavorites(db, user)
    case None => []
    case Some(found) => found.1
  }

  /** The body of `EventService.create` inside its scope: the repository's
      insert, then the new row read back as an `EventFromDB`. */
  method InsertAndRead(events: EventRepository, data: EventCreate) returns (r: Result<Id, Raised>)
    requires events.Valid()
    modifies events.session
    ensures events.Valid() && events.session.calls == old(events.session.calls)
    ensures r.Success? <==> Insertable(old(events.session.pending), data) && data.dates != []
    ensures r.Failure? ==> r.error == if Insertable(old(events.session.pending), data) then ValidationError else IntegrityError
    ensures r.Success? ==>
      var before := old(events.session.pending);
      var after := events.session.pending;
      && (after, r.value) == CreatedEvent(before, data)
      && r.value !in before.events.rows
      && after.events.rows == before.events.rows[r.value := EventRow(data)]
      && TagsOf(after, r.value) == data.tags
      && DatesOf(after, r.value) == data.dates
      && EventAccepts(after, r.value)
  {
    ghost var before := events.session.pending;
    var created := events.Create(data);
    if created.Failure? {
      return Failure(created.error);
    }
    CreatedEventOutcome(before, data);
    AcceptedIffDatesOf(events.session.pending, created.value);
    if !EventAccepts(events.session.pending, created.value) {
      return Failure(ValidationError);
    }
    r := Success(created.value);
  }

  /** `EventService`: its own `create` and `update_event_image`, with the
      generic `update` and `delete` of `BaseService` in `base`. */
  class EventService {
    const store: Store
    const base: BaseServices.BaseService<Event, EventCreate>

    ghost predicate Valid()
      reads store, base.store
    {
      base.store == store && base.model == EventModel && base.accepts == EventRead && base.Valid()
    }

    constructor(store: Store)
      requires store.Valid()
      ensures this.store == store && Valid()
    {
      EventModelSound();
      this.store := store;
      base := new BaseServices.BaseService(store, EventModel, EventRead);
    }

    /** `create`: the repository inserts the event with its tags and dates,
        and the new row is read back as an `EventFromDB`; an event without
        dates has no `closest_date`, so that read fails and the insert is
        rolled back. */
    method Create(data: EventCreate) returns (r: Result<Id, Raised>)
      requires Valid()
      modifies store
      ensures Valid()
      ensures r.Success? <==> Insertable(old(store.db), data) && data.dates != []
      ensures r.Failure? ==> r.error == if Insertable(old(store.db), data) then ValidationError else IntegrityError
      ensures r.Failure? ==> store.db == old(store.db)
      ensures r.Success? ==>
        && (store.db, r.value) == CreatedEvent(old(store.db), data)
        && r.value !in old(store.db).events.rows
        && store.db.events.rows == old(store.db).events.rows[r.value := EventRow(data)]
        && TagsOf(store.db, r.value) == data.tags
        && DatesOf(store.db, r.value) == data.dates
        && EventAccepts(store.db, r.value)
    {
      var uow := new UnitOfWork(store);
      uow.Enter();
      var scope := uow.scope;
      r := InsertAndRead(scope.events, data);
      var out := scope.Finish(if r.Failure? then Some(r.error) else None, false);
    }

    /** `update_event_image`: for an unknown event, `None` and no change.
        Otherwise the old image file is deleted first, when it is set and
        differs from the new path; then the event's image becomes the path
        and the row is read back as an `EventFromDB`. When that read fails the
        new path is rolled back, but the old file is already gone. */
    method UpdateEventImage(id: Id, path: string, files: set<string>, removalFails: bool)
      returns (r: Result<Option<Event>, Raised>, filesAfter: set<string>)
      requires Valid()
      modifies store
      ensures Valid()
      ensures id !in old(store.db).events.rows ==> r == Success(None) && store.db == old(store.db) && filesAfter == files
      ensures id in old(store.db).events.rows ==>
        var before := old(store.db);
        var updated := before.events.rows[id].(image := Some(path));
        && filesAfter == ImageWorker.AfterReplacing(files, before.events.rows[id].image, path, removalFails)
        && (r.Success? <==> DatesOf(before, id) != [])
        && (r.Success? ==>
              r.value == Some(updated) && store.db == before.(events := before.events.(rows := before.events.rows[id := updated])))
        && (r.Failure? ==> r.error == ValidationError && store.db == before)
    {
      var uow := new UnitOfWork(store);
      uow.Enter();
      var scope := uow.scope;
      ghost var before := scope.session.pending;
      if id !in scope.session.pending.events.rows {
        var out := scope.Finish(None, false);
        return Success(None), files;
      }
      var event := scope.session.pending.events.rows[id];
      filesAfter := ImageWorker.AfterReplacing(files, event.image, path, removalFails);
      var updated := scope.events.UpdateImage(id, path);
      assert DatesOf(scope.session.pending, id) == DatesOf(before, id);
      AcceptedIffDatesOf(scope.session.pending, id);
      if !EventAccepts(scope.session.pending, id) {
        var out := scope.Finish(Some(ValidationError), false);
        return Failure(ValidationError), filesAfter;
      }
      var out := scope.Finish(None, false);
      r := Success(Some(updated));
    }

    /** `update` as `update_event` calls it, with an `EventCreate`: the
        request's dates or tags make the assignment raise, a null category
        or a missing location or category breaks a constraint, and otherwise
        the flushed event has no dates left and fails the `EventFromDB` read.
        So an update never returns an event and never changes the store. */
    method Update(id: Id, data: EventCreate) returns (r: Result<Option<(Id, Event)>, Raised>)
      requires Valid()
      modifies store
      ensures Valid() && store.db == old(store.db)
      ensures r.Success? <==> id !in old(store.db).events.rows
      ensures r.Success? ==> r.value == None
      ensures r.Failure? && (data.dates != [] || data.tags != []) ==> r.error == AttributeError("_sa_instance_state")
      ensures r.Failure? && data.dates == [] && data.tags == [] ==> r.error == IntegrityError || r.error == ValidationError
    {
      if id in store.db.events.rows {
        AssignEventOutcome(store.db, id, data);
        if AssignEvent(store.db, id, data).Success? {
          AssignedEventUnreadable(store.db, id, data);
        }
      }
      r := base.Update(id, data);
    }
  }

  /** An event that goes through the update's assignments has lost every
      date, so it has no `closest_date` and the `EventFromDB` read rejects it. */
  lemma AssignedEventUnreadable(db: Db, id: Id, data: EventCreate)
    requires db.WellFormed() && id in db.events.rows && AssignEvent(db, id, data).Success?
    ensures !EventRead(AssignEvent(db, id, data).value.0, id)
  {
    AssignEventOutcome(db, id, data);
  }

  /** `FavoriteService`: adds and removes favourites through the user
      repository and commits. */
  class FavoriteService {
    const store: Store

    constructor(store: Store)
      ensures this.store == store
    {
      this.store := store;
    }

    /** `add_favorite`: the user and event ids go to the repository as given. */
    method Add(user: Id, event: Id)
      requires store.Valid()
      modifies store
      ensures store.Valid()
      ensures store.db == UserRows.AddFavorite(old(store.db), user, event)
    {
      var uow := new UnitOfWork(store);
      uow.Enter();
      var scope := uow.scope;
      scope.user.AddFavorite(user, event);
      var out := scope.Finish(None, false);
    }

    /** `remove_favorite`: the user and event ids go to the repository as given. */
    method Remove(user: Id, event: Id)
      requires store.Valid()
      modifies store
      ensures store.Valid()
      ensures store.db == UserRows.RemoveFavorite(old(store.db), user, event)
    {
      var uow := new UnitOfWork(store);
      uow.Enter();
      var scope := uow.scope;
      scope.user.RemoveFavorite(user, event);
      var out := scope.Finish(None, false);
    }
  }
}
