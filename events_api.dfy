/** The event routes of api/events.py that carry logic of their own: the
    dispatch of `get_events` between the filtered and the plain listing, and
    the image routes behind the administrator check. */
module EventsApi {
  import opened Wrappers
  import opened Tables
  import opened Clock
  import opened Models
  import opened EventQueries
  import opened EventServices
  import opened Dependencies
  import ImageWorker

  const MaxLimit: int := 1000
  const MaxHour: int := 23

  /** The `Query` bounds FastAPI checks before the route runs: `time` in
      0..23 when given, `offset` at least 0, `limit` in 1..1000. */
  predicate QueryBounds(time: Option<int>, offset: int, limit: int) {
    (time.None? || 0 <= time.value <= MaxHour) && offset >= 0 && 1 <= limit <= MaxLimit
  }

  /** `if date or date_from or date_to or time`: a given date is always
      truthy, and an hour only when it is not 0. */
  predicate UsesFilter(date: Option<Date>, dateFrom: Option<Date>, dateTo: Option<Date>, time: Option<int>) {
    date.Some? || dateFrom.Some? || dateTo.Some? || (time.Some? && time.value != 0)
  }

  /** A service's exception, as the route lets it through. */
  function Served<T>(r: Result<T, Raised>): (s: Result<T, ApiError>)
    ensures s.Success? <==> r.Success?
    ensures s.Success? ==> s.value == r.value
    ensures s.Failure? ==> s.error == ServerError(r.error)
  {
    match r
    case Success(v) => Success(v)
    case Failure(e) => Failure(ServerError(e))
  }

  /** `get_events`: 422 for a parameter out of bounds; otherwise the filtered
      listing when a filter argument is truthy, and the plain one when not.
      The `LIMIT` default is applied by the caller. */
  function GetEvents(db: Db, now: Timestamp, date: Option<Date>, dateFrom: Option<Date>, dateTo: Option<Date>,
                     time: Option<int>, offset: int, limit: int): (r: Result<Envelope, ApiError>)
    ensures r.Failure? <==> !QueryBounds(time, offset, limit)
    ensures r.Failure? ==> r.error == UnprocessableEntity
    ensures r.Success? ==>
      var cs := if UsesFilter(date, dateFrom, dateTo, time) then DateConditions(date, dateFrom, dateTo, time).value else [];
      Listing(db, now, cs, offset, limit, Success(r.value))
  {
    if !QueryBounds(time, offset, limit) then Failure(UnprocessableEntity)
    else if UsesFilter(date, dateFrom, dateTo, time) then Served(GetFiltered(db, now, date, dateFrom, dateTo, time, offset, limit))
    else Served(GetAll(db, now, offset, limit))
  }

  /** An hour without a date selects nothing by itself: `get_events` then
      answers as if no hour were given, whether the hour is 0 (which is
      falsy and takes the plain path) or not (which takes the filtered path
      with no condition). */
  lemma HourWithoutDateIgnored(db: Db, now: Timestamp, dateFrom: Option<Date>, dateTo: Option<Date>, hour: int,
                               offset: nat, limit: int)
    requires dateFrom.None? || dateTo.None?
    requires 0 <= hour <= MaxHour
    ensures GetEvents(db, now, None, dateFrom, dateTo, Some(hour), offset, limit)
         == GetEvents(db, now, None, dateFrom, dateTo, None, offset, limit)
  {
    if QueryBounds(None, offset, limit) {
      HalfRangeListsAll(db, now, dateFrom, dateTo, Some(hour), offset, limit);
      HalfRangeListsAll(db, now, dateFrom, dateTo, None, offset, limit);
    }
  }

  /** A date with the hour 0 takes the filtered path and selects the first
      hour of that day, not the whole day. */
  lemma MidnightWithDateFilters(db: Db, now: Timestamp, date: Date, offset: nat, limit: int)
    requires 1 <= limit <= MaxLimit
    ensures var start := Combine(date, 0, 0, 0, 0);
      GetEvents(db, now, Some(date), None, None, Some(0), offset, limit).Success?
      && GetEvents(db, now, Some(date), None, None, Some(0), offset, limit).value
         == GetFiltered(db, now, Some(date), None, None, Some(0), offset, limit).value
      && DateConditions(Some(date), None, None, Some(0)).value
         == [ClosestAtLeast(start), ClosestBefore(start + MicrosPerHour)]
  {
  }

  /** Within the bounds, `get_events` never fails: an hour FastAPI lets
      through is a valid hour. */
  lemma BoundedQueriesSucceed(db: Db, now: Timestamp, date: Option<Date>, dateFrom: Option<Date>, dateTo: Option<Date>,
                              time: Option<int>, offset: int, limit: int)
    requires QueryBounds(time, offset, limit)
    ensures GetEvents(db, now, date, dateFrom, dateTo, time, offset, limit).Success?
    ensures |GetEvents(db, now, date, dateFrom, dateTo, time, offset, limit).value.items| <= limit
  {
  }

  /** `upload_event_image`: the administrator check runs first; then the
      upload, which rejects a bad extension before writing; then the stored
      file replaces the event's image. For an unknown event the service
      returns `None`, which the `EventFromDB` response model rejects, and the
      uploaded file stays behind. */
  method UploadEventImage(service: EventService, tokens: map<string, Id>, token: string, eventId: Id,
                          filename: string, dir: string, uuid: string, files: set<string>, removalFails: bool)
    returns (r: Result<Event, ApiError>, filesAfter: set<string>)
    requires service.Valid()
    modifies service.store
    ensures service.Valid()
    ensures GetAdminUser(tokens, token, old(service.store.db)).Failure? ==>
      r == Failure(GetAdminUser(tokens, token, old(service.store.db)).error)
      && service.store.db == old(service.store.db) && filesAfter == files
    ensures (GetAdminUser(tokens, token, old(service.store.db)).Success?
             && ImageWorker.UploadImage(filename, dir, uuid).Failure?) ==>
      r == Failure(BadUpload(ImageWorker.InvalidFileType)) && service.store.db == old(service.store.db) && filesAfter == files
    ensures (GetAdminUser(tokens, token, old(service.store.db)).Success?
             && ImageWorker.UploadImage(filename, dir, uuid).Success?) ==>
      var image := ImageWorker.UploadImage(filename, dir, uuid).value.image;
      var before := old(service.store.db);
      && image in filesAfter
      && (eventId !in before.events.rows ==>
            r == Failure(ResponseInvalid) && service.store.db == before && filesAfter == files + {image})
      && (eventId in before.events.rows ==>
            var updated := before.events.rows[eventId].(image := Some(image));
            && filesAfter == ImageWorker.AfterReplacing(files + {image}, before.events.rows[eventId].image, image, removalFails)
            && (r.Success? <==> DatesOf(before, eventId) != [])
            && (r.Success? ==>
                  r.value == updated && service.store.db == before.(events := before.events.(rows := before.events.rows[eventId := updated])))
            && (r.Failure? ==> r.error == ServerError(ValidationError) && service.store.db == before))
  {
    var admin := GetAdminUser(tokens, token, service.store.db);
    if admin.Failure? {
      return Failure(admin.error), files;
    }
    var upload := ImageWorker.UploadImage(filename, dir, uuid);
    if upload.Failure? {
      return Failure(BadUpload(upload.error)), files;
    }
    var image := upload.value.image;
    var written := files + {image};
    var result;
    ghost var current := if eventId in service.store.db.events.rows then service.store.db.events.rows[eventId].image else None;
    result, filesAfter := service.UpdateEventImage(eventId, image, written, removalFails);
    ImageWorker.ReplacingKeepsNewImage(written, current, image, removalFails);
    r := match result
      case Failure(e) => Failure(ServerError(e))
      case Success(None) => Failure(ResponseInvalid)
      case Success(Some(event)) => Success(event);
  }

  /** `delete_event_image`: behind the administrator check, the service's
      image update with the empty path. The event's image becomes `""`, not
      null, and the old file is deleted; the 204 answer carries no body. */
  method DeleteEventImage(service: EventService, tokens: map<string, Id>, token: string, eventId: Id,
                          files: set<string>, removalFails: bool)
    returns (r: Result<(), ApiError>, filesAfter: set<string>)
    requires service.Valid()
    modifies service.store
    ensures service.Valid()
    ensures GetAdminUser(tokens, token, old(service.store.db)).Failure? ==>
      r == Failure(GetAdminUser(tokens, token, old(service.store.db)).error)
      && service.store.db == old(service.store.db) && filesAfter == files
    ensures GetAdminUser(tokens, token, old(service.store.db)).Success? ==>
      var before := old(service.store.db);
      && (eventId !in before.events.rows ==> r == Success(()) && service.store.db == before && filesAfter == files)
      && (eventId in before.events.rows ==>
            var cleared := before.events.rows[eventId].(image := Some(""));
            && filesAfter == ImageWorker.AfterReplacing(files, before.events.rows[eventId].image, "", removalFails)
            && (r.Success? <==> DatesOf(before, eventId) != [])
            && (r.Success? ==> service.store.db == before.(events := before.events.(rows := before.events.rows[eventId := cleared])))
            && (r.Failure? ==> r.error == ServerError(ValidationError) && service.store.db == before))
  {
    var admin := GetAdminUser(tokens, token, service.store.db);
    if admin.Failure? {
      return Failure(admin.error), files;
    }
    var result;
    result, filesAfter := service.UpdateEventImage(eventId, "", files, removalFails);
    r := if result.Failure? then Failure(ServerError(result.error)) else Success(());
  }

  /** Deleting an image removes the stored file whenever the event had one
      that exists, unless its removal fails, and keeps every other file. */
  lemma DeleteRemovesStoredFile(files: set<string>, current: Option<string>, removalFails: bool)
    requires current.Some? && current.value != "" && current.value in files
    ensures var after := ImageWorker.AfterReplacing(files, current, "", removalFails);
      && (current.value !in after <==> !removalFails)
      && after >= files - {current.value}
  {
    ImageWorker.ReplacingKeepsNewImage(files, current, "", removalFails);
  }
}
