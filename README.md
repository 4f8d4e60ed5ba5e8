# wtg_backend events core, modelled in Dafny

This project models the core of the wtg_backend events-listing service. It covers:

- the PostgreSQL tables behind it: source users, users, locations, categories, tags, events, event dates and the two link tables;
- the database constraints and the `ON DELETE` actions those tables declare;
- the generic repository, the event and user repositories, and the Unit of Work that commits or rolls back a session;
- the services built on them: the generic `BaseService`, the event, location, category, tag and favourite services, and the user services;
- the Pydantic read models that decide whether a row can be returned;
- the cache key builder and the image worker;
- the route dependencies (token check, access check, administrator check, service factories);
- the `get_events`, `upload_event_image` and `delete_event_image` routes.

The database is one value `Models.Db`, held by a `Sessions.Store`, with one `Tables.Table` per entity. A table is a map from id to row plus a row order. The source takes "the first row" and pages with `OFFSET`/`LIMIT` on `SELECT`s without `ORDER BY`, whose order SQL does not fix. The model reads every such `SELECT` in one fixed order, the order of insertion.

Code that changes state is imperative Dafny:

- a `Session` keeps the pending state and the list of calls made on it;
- repositories write to the session;
- a `UnitOfWork` or `Scope` opens the session and, on exit, commits or rolls back, then closes it;
- the service classes run their writes inside such a scope.

Reads that the source composes from queries are functions of the committed store. The instant the clock is read at is a parameter (`now`).

Time is counted in microseconds: a `Timestamp` is microseconds since the epoch in UTC, and a `Date` is a day number. Python's `datetime` resolves to the microsecond, so "23:59:59.999999" is the last instant of a day.

The Redis token store is a map from token to user id. Password hashing and verification are function parameters. The file system is a set of paths, and the generated uuid is a parameter. Whether a file removal fails is also a parameter.

## Model

| member | source | states |
|---|---|---|
| Tables.Page | events_app/repositories/base_repo.py:57-60 | `OFFSET`/`LIMIT` returns at most `limit` rows. The count is exact: none past the end, otherwise `min(limit, n - offset)`. Element `i` is row `offset + i`. |
| Tables.PagesConcatenate | events_app/repositories/base_repo.py:57-60 | Two consecutive pages joined are the page of the combined size. |
| Tables.FindAll | events_app/repositories/base_repo.py:57-60 | `find_all` returns rows in the table's fixed order, starting at `offset`. It returns none past the end and otherwise exactly `min(limit, n - offset)` of them. |
| Tables.Create | events_app/repositories/base_repo.py:50-55 | An insert gets an id not already used, adds exactly that row, and keeps the table well formed. |
| Tables.Get | events_app/repositories/base_repo.py:62-65 | `get` by primary key. Its meaning is stated in GetAfterCreate, GetAfterUpdate and GetAfterDelete. |
| Tables.Delete | events_app/repositories/base_repo.py:73-77 | A delete removes exactly that id and keeps every other row and the table well formed. |
| Tables.Rekey | events_app/repositories/base_repo.py:67-71 | Flushing a new primary key stores the merged row under the new id and drops the old id. Every other row is kept, and the table stays well formed. |
| Tables.Update | events_app/repositories/base_repo.py:67-71 | Flushing changed columns replaces the one row under the same id and keeps the table well formed. The row keeps its place in the model's fixed order. |
| Tables.DeleteAll | events_app/repositories/base_repo.py:73-77 | A delete keeps exactly the rows not deleted, unchanged. |
| Tables.GetAfterCreate | events_app/repositories/base_repo.py:50-65 | After an insert, `get` finds the new row and every other id answers as before. |
| Tables.GetAfterDelete | events_app/repositories/base_repo.py:62-77 | After a delete, `get` on that id is empty and every other id answers as before. |
| Tables.GetAfterUpdate | events_app/repositories/base_repo.py:62-71 | After an update, `get` returns the new row and nothing else changes. |
| Tables.DeleteIdempotent | events_app/repositories/base_repo.py:73-77 | Deleting an id twice is the same as deleting it once. |
| Tables.Merge | events_app/services/base_service.py:108-132 | A field set in the patch replaces the stored value; an unset field keeps it (`exclude_unset`). |
| Clock.Combine | events_app/repositories/events_repo.py:225-256 | `datetime.combine` of a date with a valid time falls within that day. |
| Clock.DayOfUnique | events_app/repositories/events_repo.py:225-256 | An instant lies in day `d` exactly when its calendar day is `d`. |
| Clock.HourWindow | events_app/repositories/events_repo.py:233-241 | The window `[date hour:00, +1h)` holds exactly the instants on that date in that hour. |
| Clock.DateRange | events_app/repositories/events_repo.py:242-254 | `[from 00:00, to 23:59:59.999999]` holds exactly the instants whose day is in `from..to`. |
| Models.Check | events_app/db/models.py:65-310 | A flush succeeds exactly when the constraints hold: unique username and email, column lengths, foreign keys, the tag link key. |
| Models.EmptyDb | events_app/db/models.py:18-310 | The empty database is well formed and meets every constraint. |
| Models.NewUserRow | events_app/db/models.py:65-130 | A new user row has the given name, email and hash. The defaults are gender, not admin and source 1; every optional column is null. |
| Models.Linked | events_app/db/models.py:195-216 | The rows linked to an id are exactly the partners of its pairs in the link table. |
| Models.MinOf | events_app/db/models.py:281-286 | The minimum of the dates is one of them, is at most each of them, and is absent only when there are none. |
| Models.ClosestDate | events_app/db/models.py:281-286 | `closest_date` is the earliest of the event's dates, and null exactly when it has none. |
| Models.DatesOfMember | events_app/db/models.py:242-265 | An instant is among an event's dates exactly when some `event_date` row holds it for that event. |
| Models.Filter | events_app/db/models.py:43-62 | Filtering a link table keeps exactly the pairs the predicate keeps. |
| Models.DetachAll | events_app/db/models.py:122-130 | `SET NULL` rewrites every user row and touches only `source_id`. |
| Models.DeletesKeepStore | events_app/db/models.py:18-310 | Deleting a row of any table, with its cascades, keeps the database well formed and within its constraints. |
| Models.DeleteLocationCascades | events_app/db/models.py:296-303 | Deleting a location deletes its events with their dates, tag links and favourites. Every other event is kept unchanged. |
| Models.DeleteEventCascades | events_app/db/models.py:242-265 | Deleting an event removes exactly its dates, tag links and favourites, and nothing else. |
| Models.DeleteSourceUserSetsNull | events_app/db/models.py:122-130 | Deleting a source user sets `source_id` to null on its users, keeps every user, and changes no other column. |
| Models.RemoveEvents | events_app/db/models.py:242-330 | Deleting events with their `ON DELETE CASCADE` rows. What it keeps and removes is stated in DeleteEventCascades and RemoveEventsKeepsStore. |
| Models.DeleteEvent | events_app/db/models.py:268-330 | Deleting one event. Its effect is stated in DeleteEventCascades. |
| Models.DeleteLocation | events_app/db/models.py:296-303 | Deleting a location with a Core `DELETE`. Its events go through the `ON DELETE CASCADE` of `events.location_id` (line 300), not the ORM cascade, which a Core delete never runs. Its effect is stated in DeleteLocationCascades and DeleteLocationKeepsStore. |
| Models.DeleteCategory | events_app/db/models.py:304-310 | Deleting a category with a Core `DELETE`. Its events go through the `ON DELETE CASCADE` of `events.category_id` (line 308), not the ORM cascade, which a Core delete never runs. DeleteCategoryKeepsStore states that the constraints are kept. |
| Models.DeleteTag | events_app/db/models.py:195-240 | Deleting a tag and its `event_tag` links. DeleteTagKeepsStore states that the constraints are kept. |
| Models.DeleteUser | events_app/db/models.py:43-62 | Deleting a user and its favourites. DeleteUserKeepsStore states that the constraints are kept. |
| Models.DeleteSourceUser | events_app/db/models.py:122-130 | Deleting a source user with `SET NULL` on its users. Its effect is stated in DeleteSourceUserSetsNull. |
| Models.MergeUser | events_app/services/base_service.py:108-132 | The `UserUpdate` patch applied to a row. Its meaning is stated in AssignUserKeepsPrivileges and MergeUserIdempotent. |
| Models.MergeNotNull | events_app/schemas/users.py:45-69 | A set nullable field replaces the stored value, and an unset one keeps it. A set null is caught earlier by NullsRequired. |
| Models.AssignUser | events_app/repositories/base_repo.py:67-71 | `setattr` of every dumped field and a flush. It fails only with `IntegrityError`. On success it yields the patch id and changes no table but `users`. |
| Models.AssignUserOutcome | events_app/repositories/base_repo.py:67-71 | The flush fails exactly when a null username or email is set, or the new id is another user's. On success the merged row sits under the patch id, the old id is gone when it moved, and every other user is kept. |
| Models.MovedUserWithFavoritesRejected | events_app/db/models.py:43-62 | Moving a user who has favourites to another id breaks the favourites' foreign key (there is no `ON UPDATE`), so the flush fails. |
| Models.AssignUserKeepsPrivileges | events_app/schemas/users.py:45-69 | A successful `UserUpdate` never changes the password hash, `is_admin` or `source_id`. The user ends up under the patch id. A set field takes the patch value and an unset one keeps the stored value. |
| Models.MergeUserIdempotent | events_app/services/base_service.py:108-132 | Applying the same user patch twice equals applying it once. |
| Sessions.Store.constructor | events_app/db/database.py:10-17 | The store starts from a database that meets its constraints. |
| Sessions.Session.constructor | events_app/uow/unit_of_work.py:67-69 | A new session sees the committed store and has made no calls. |
| Sessions.Session.Execute | events_app/repositories/base_repo.py:50-55 | A statement is applied exactly when the constraints hold afterwards; otherwise it raises `IntegrityError` and changes nothing. |
| Sessions.Session.Commit | events_app/uow/unit_of_work.py:89-91 | A commit publishes the pending state, or raises `OperationalError` and publishes nothing. |
| Sessions.Session.Rollback | events_app/uow/unit_of_work.py:93-95 | A rollback discards the pending state and returns to the committed store. |
| Sessions.Session.Close | events_app/uow/unit_of_work.py:78-87 | Closing drops whatever is still pending. |
| Repositories.Repository.Create | events_app/repositories/base_repo.py:50-55 | An insert adds exactly the row under a fresh id when the constraints allow it; otherwise `IntegrityError`, and nothing pending changes. |
| Repositories.Repository.Update | events_app/repositories/base_repo.py:67-71 | `update` succeeds exactly when the model's assignment succeeds and the constraints hold. Then the pending state is the assigned one and the row is returned with its id. Otherwise the error is the assignment's own, or `IntegrityError`, and nothing pending changes. |
| Repositories.Repository.Delete | events_app/repositories/base_repo.py:73-77 | A delete purges the row and its cascades and commits at once, so it is published even if the scope later rolls back. |
| Repositories.TagRows | events_app/repositories/events_repo.py:177-182 | `_add_tags` builds one link row per tag id, in order. |
| Repositories.LinkedTagRows | events_app/repositories/events_repo.py:177-182 | The tags linked to the event by `_add_tags` are exactly the ids given, in order. |
| Repositories.InsertedDatesOwn | events_app/repositories/events_repo.py:184-190 | `_add_event_dates` appends exactly the given dates to the event's dates. |
| Repositories.InsertedDatesOther | events_app/repositories/events_repo.py:184-190 | `_add_event_dates` leaves every other event's dates as they were. |
| Repositories.InsertDates | events_app/repositories/events_repo.py:184-190 | The loop inserting one `event_date` row per date builds the same table as the specification function. |
| Repositories.FreshEventUnlinked | events_app/repositories/events_repo.py:20-41 | An id not yet used by any event has no tags and no dates. |
| Repositories.AssignEvent | events_app/api/events.py:101-118 | `update_event` assigns a full `EventCreate` to the loaded event. On success the event keeps its id. |
| Repositories.AssignEventOutcome | events_app/repositories/base_repo.py:67-71 | The assignment fails exactly when dates or tags are given (`AttributeError` on `_sa_instance_state`) or the category is null (`IntegrityError`). On success the event row takes the request's columns and keeps its image. All its dates and tag links are deleted, and nothing else changes. |
| Repositories.CreatedEvent | events_app/repositories/events_repo.py:20-41 | The event row inserted, then its tag links, then its dates. Its meaning is stated in CreatedEventOutcome. |
| Repositories.CreatedEventOutcome | events_app/repositories/events_repo.py:20-41 | After `create`, the constraints hold exactly when the request is insertable. The new event has a fresh id, the request's row, tags and dates. Every other event keeps its tags and dates, and the untouched tables are unchanged. |
| Repositories.CreateStages | events_app/repositories/events_repo.py:20-41 | After the insert of the row and then of the tag links, the constraints hold exactly when the request is insertable. Without tags, the links change nothing. |
| Repositories.ImageKeepsStore | events_app/repositories/events_repo.py:138-146 | Changing an event's image keeps the database within its constraints. |
| Repositories.EventRepository.AddTags | events_app/repositories/events_repo.py:177-182 | Link rows are appended exactly when the link key and foreign keys allow it; otherwise `IntegrityError`. |
| Repositories.EventRepository.AddEventDates | events_app/repositories/events_repo.py:184-190 | Date rows are inserted exactly when the event exists (or there are none). The event's dates become the old ones plus the new ones, and no other event's dates change. |
| Repositories.EventRepository.Create | events_app/repositories/events_repo.py:20-41 | `create` succeeds exactly when the request is insertable: a category is given, the location, category and tags exist, and no tag repeats. Then the pending state is CreatedEvent's. Otherwise it raises `IntegrityError`, and the pending state is the old one or the old one with the event row only. |
| Repositories.EventRepository.UpdateImage | events_app/repositories/events_repo.py:138-146 | Only the event's image changes, to the given path. |
| Repositories.UserRepository.AddFavorite | events_app/repositories/users_repo.py:76-87 | Adds the favourite when the user and the event exist and it is not there yet. |
| Repositories.UserRepository.RemoveFavorite | events_app/repositories/users_repo.py:89-100 | Removes the favourite when the user and the event exist. |
| Repositories.UserRepository.UpdateAvatar | events_app/repositories/users_repo.py:46-59 | Only the user's profile image changes, and the row returned is the updated row. |
| Repositories.UserRepository.UpdatePassword | events_app/repositories/users_repo.py:61-74 | Only the user's password hash changes, and the row returned is the updated row. |
| UnitsOfWork.Scope.constructor | events_app/uow/unit_of_work.py:67-76 | Entering opens a fresh session on the committed store with no calls made. |
| UnitsOfWork.Scope.Finish | events_app/uow/unit_of_work.py:78-87 | On exit, an exception rolls back and a clean exit commits; the session is always closed. A commit fault raises `OperationalError` and publishes nothing. |
| UnitsOfWork.UnitOfWork.constructor | events_app/uow/unit_of_work.py:63-65 | A unit of work starts with no session. |
| UnitsOfWork.UnitOfWork.Enter | events_app/uow/unit_of_work.py:67-76 | `__aenter__` opens a fresh session on the committed store and changes nothing. |
| UnitsOfWork.UnitOfWork.Commit | events_app/uow/unit_of_work.py:89-91 | Commit without a session raises `AttributeError`; otherwise it publishes the pending state unless the commit faults. |
| UnitsOfWork.UnitOfWork.Rollback | events_app/uow/unit_of_work.py:93-95 | Rollback without a session raises `AttributeError`; otherwise it discards the pending state. |
| UnitsOfWork.UnitOfWork.Exit | events_app/uow/unit_of_work.py:78-87 | `__aexit__` rolls back after an exception and commits otherwise, then closes. It passes the exception on, or `OperationalError` when the commit faults. |
| UnitsOfWork.DeleteOutlivesRollback | events_app/repositories/base_repo.py:73-77 | A repository delete followed by an exception in the same scope still deletes, cascades included. |
| BaseServices.Get | events_app/services/base_service.py:67-85 | `get` is empty for a missing id and returns the row when the read model accepts it; otherwise it raises `ValidationError`. |
| BaseServices.GetAll | events_app/services/base_service.py:87-106 | `get_all` returns the page of rows in table order when the read model accepts each one, or `ValidationError`. The page has exactly `min(limit, n - offset)` rows, and none past the end. |
| BaseServices.GetAllPagesConcatenate | events_app/services/base_service.py:87-106 | Two consecutive `get_all` pages joined are the page of the combined size. |
| BaseServices.GetAfterDelete | events_app/services/base_service.py:67-85 | After a delete, `get` on that id is empty and every other row of that table is kept. |
| BaseServices.BaseService.constructor | events_app/services/base_service.py:23-31 | A service is bound to the store, the table and the read schema. |
| BaseServices.BaseService.Create | events_app/services/base_service.py:48-65 | The insert is published exactly when the constraints hold and the read model accepts the row. A failure publishes nothing: `IntegrityError`, or `ValidationError` from the read model. |
| BaseServices.BaseService.Update | events_app/services/base_service.py:108-132 | A missing id gives `None` and no change. Otherwise the assigned row is published exactly when the assignment succeeds, the constraints hold and the row reads back. Then the row is returned. A failure publishes nothing; its error is the assignment's, `ValidationError` or `IntegrityError`. |
| BaseServices.BaseService.Delete | events_app/services/base_service.py:134-154 | The answer says whether the row existed; if it did, the row and its cascades are gone. |
| EventQueries.DateConditions | events_app/repositories/events_repo.py:225-256 | An hour outside 0..23 with a date fails (`datetime.time` raises). Otherwise a date, or a full range, gives two conditions, and anything else gives none. |
| EventQueries.DateConditionsMeaning | events_app/repositories/events_repo.py:225-256 | Date and hour select the closest date's day and hour; a date alone selects its day; a full range selects the closest day within it. A one-sided range selects nothing. |
| EventQueries.MatchingAmong | events_app/repositories/events_repo.py:192-206 | The `WHERE` keeps exactly the events that satisfy every condition. |
| EventQueries.MatchingMeaning | events_app/repositories/events_repo.py:192-206 | An event is listed exactly when it exists, has a closest date not before now, and satisfies every filter. |
| EventQueries.Matching | events_app/repositories/events_repo.py:192-223 | The shared `WHERE` of `_find_filtered` and `_count_filtered`. Its meaning is stated in MatchingMeaning. |
| EventQueries.FindFiltered | events_app/repositories/events_repo.py:192-206 | `_find_filtered`. PageWithinCount states its size, membership and order. |
| EventQueries.CountFiltered | events_app/repositories/events_repo.py:208-223 | `_count_filtered`. CountIsNumberOfEvents states what it counts. |
| EventQueries.PastEarliestNeverListed | events_app/repositories/events_repo.py:192-206 | An event with any date before now is never listed, because its closest date is already past. |
| EventQueries.UndatedNeverListed | events_app/repositories/events_repo.py:192-206 | An event without dates is never listed. |
| EventQueries.InsertByKey | events_app/repositories/events_repo.py:192-206 | Inserting into a sorted list keeps it sorted and adds exactly that element. |
| EventQueries.SortByKey | events_app/repositories/events_repo.py:192-206 | `ORDER BY closest_date` yields a sorted permutation of the selection. |
| EventQueries.PageWithinCount | events_app/repositories/events_repo.py:192-223 | A page holds at most `limit` events and exactly `min(limit, count - offset)` of them. Each is in the selection, upcoming, and the page is ordered by closest date. |
| EventQueries.IdSet | events_app/repositories/events_repo.py:208-223 | The set of a list holds exactly its elements. |
| EventQueries.CountIsNumberOfEvents | events_app/repositories/events_repo.py:208-223 | `_count_filtered` counts the distinct events that pass every condition. |
| EventQueries.AllListing | events_app/repositories/events_repo.py:60-69 | `find_all` lists exactly the upcoming events, and its page size matches `count_all`. |
| EventQueries.FindAll | events_app/repositories/events_repo.py:60-66 | `find_all`. Its meaning is stated in AllListing. |
| EventQueries.CountAll | events_app/repositories/events_repo.py:68-69 | `count_all`. Its meaning is stated in AllListing. |
| EventQueries.LocationListing | events_app/repositories/events_repo.py:71-90 | `find_by_location` lists exactly the upcoming events at that location, and its page size matches `count_by_location`. |
| EventQueries.FindByLocation | events_app/repositories/events_repo.py:71-82 | `find_by_location`. Its meaning is stated in LocationListing. |
| EventQueries.CountByLocation | events_app/repositories/events_repo.py:84-90 | `count_by_location`. Its meaning is stated in LocationListing. |
| EventQueries.CategoryListing | events_app/repositories/events_repo.py:92-108 | `find_by_category` lists exactly the upcoming events in that category, and its page size matches `count_by_category`. |
| EventQueries.FindByCategory | events_app/repositories/events_repo.py:92-103 | `find_by_category`. Its meaning is stated in CategoryListing. |
| EventQueries.CountByCategory | events_app/repositories/events_repo.py:105-108 | `count_by_category`. Its meaning is stated in CategoryListing. |
| EventQueries.DateHourListing | events_app/repositories/events_repo.py:110-136 | With a date and a valid hour, the date filter lists exactly the upcoming events whose closest date falls on that day and hour. The count agrees. |
| EventQueries.HalfRangeIsUnfiltered | events_app/repositories/events_repo.py:110-136 | With no date and a one-sided range, the date filter lists and counts like `find_all`/`count_all`. |
| EventQueries.FindByDateFilter | events_app/repositories/events_repo.py:110-125 | `find_by_date_filter`. Its meaning is stated in DateHourListing and HalfRangeIsUnfiltered. |
| EventQueries.CountByDateFilter | events_app/repositories/events_repo.py:127-136 | `count_filtered`. Its meaning is stated in DateHourListing and HalfRangeIsUnfiltered. |
| EventQueries.TitleHits | events_app/repositories/events_repo.py:148-175 | The title query returns exactly the events whose title starts with the text, ignoring case. |
| EventQueries.NameHits | events_app/repositories/events_repo.py:148-175 | The location query returns exactly the locations whose name starts with the text, ignoring case. |
| EventQueries.SearchMeaning | events_app/repositories/events_repo.py:148-175 | The search finds every event title and every location name that starts with the query. It returns nothing else, and every event comes before every location. |
| EventQueries.Search | events_app/repositories/events_repo.py:148-175 | `search_titles_and_locations`. Its meaning is stated in SearchMeaning. |
| EventSchemas.AcceptedIffDatesOf | events_app/schemas/events.py:76-100 | `EventFromDB` accepts an event row exactly when the event has a date, since `closest_date` is required. |
| EventSchemas.EventAcceptedIffDated | events_app/schemas/events.py:76-100 | An existing event reads as `EventFromDB` exactly when some `event_date` row belongs to it. |
| EventSchemas.ListedEventsAccepted | events_app/schemas/events.py:76-83 | Every listed event can be serialised as `EventShort`. |
| UserSchemas.PasswordAccepted | events_app/schemas/users.py:25-32 | A password passes exactly when it is long enough and holds a letter and a digit. |
| UserSchemas.PasswordFirstRuleDecides | events_app/schemas/users.py:25-32 | The first broken rule decides the error: too short, then no letter, then no digit. |
| UserSchemas.NameMeaning | events_app/schemas/users.py:19-22 | A first or last name is valid exactly when it is at most 32 characters long and holds no digit. |
| UserSchemas.UserCreateAccepted | events_app/schemas/users.py:35-42 | `UserCreate` validates exactly when the username and the password are valid. |
| UserSchemas.LastPasswordNeverChecked | events_app/schemas/users.py:81-87 | `PasswordChange` validates only the new password; the last password is never checked. |
| UserSchemas.DetachedUserUnreadable | events_app/schemas/users.py:58-64 | A user whose source was set to null no longer reads as `UserFromDB` (its `source_id` is required), though it still reads as `UserBase`. |
| UserSchemas.NewUserReadable | events_app/schemas/users.py:58-64 | A freshly registered user reads as `UserFromDB` exactly when its username is valid. |
| UserRows.FirstUser | events_app/repositories/users_repo.py:28-44 | The lookup returns the first row, in table order, that matches; it is empty exactly when none does. |
| UserRows.UserById | events_app/repositories/users_repo.py:19-26 | `get_by_id` by primary key, as Tables.Get. |
| UserRows.UserByEmail | events_app/repositories/users_repo.py:28-35 | `get_by_email`. Its meaning is stated in UserByEmailMeaning. |
| UserRows.UserByUsername | events_app/repositories/users_repo.py:37-44 | `get_by_username`. Its meaning is stated in UserByUsernameMeaning. |
| UserRows.AddFavorite | events_app/repositories/users_repo.py:76-87 | `add_favorite`. Its effect is stated in AddFavoriteEffect, AddFavoriteIdempotent and AddFavoriteKeepsStore. |
| UserRows.RemoveFavorite | events_app/repositories/users_repo.py:89-100 | `remove_favorite`. Its effect is stated in RemoveFavoriteEffect and RemoveFavoriteKeepsStore. |
| UserRows.SetAvatar | events_app/repositories/users_repo.py:46-59 | `update_avatar`. Its effect is stated in SetAvatarEffect. |
| UserRows.SetPassword | events_app/repositories/users_repo.py:61-74 | `update_password`. Its effect is stated in SetPasswordEffect. |
| UserRows.UserByEmailMeaning | events_app/repositories/users_repo.py:28-35 | Under the unique constraint, `get_by_email` finds the one user with that email, or nothing when none has it. |
| UserRows.UserByUsernameMeaning | events_app/repositories/users_repo.py:37-44 | Under the unique constraint, `get_by_username` finds the one user with that name, or nothing when none has it. |
| UserRows.AddFavoriteEffect | events_app/repositories/users_repo.py:76-87 | Adding a favourite appends it to that user's list when both exist and it is new; otherwise nothing changes. Other users and tables are untouched. |
| UserRows.AddFavoriteIdempotent | events_app/repositories/users_repo.py:76-87 | Adding the same favourite twice is the same as adding it once. |
| UserRows.RemoveFavoriteEffect | events_app/repositories/users_repo.py:89-100 | Removing a favourite takes it out of that user's list when both exist, and touches nothing else. |
| UserRows.AddThenRemoveRestores | events_app/repositories/users_repo.py:76-100 | Adding a new favourite and then removing it restores the database. |
| UserRows.AddFavoriteKeepsStore | events_app/repositories/users_repo.py:76-87 | Adding a favourite keeps the constraints, and keeps the link table free of duplicates. |
| UserRows.RemoveFavoriteKeepsStore | events_app/repositories/users_repo.py:89-100 | Removing a favourite keeps the constraints. |
| UserRows.UserWithFavorites | events_app/repositories/users_repo.py:102-125 | The user with favourites is the user's row together with exactly its favourite events, or nothing for a missing user. |
| UserRows.SetAvatarEffect | events_app/repositories/users_repo.py:46-59 | Setting the avatar changes only that user's image and keeps the constraints. |
| UserRows.SetPasswordEffect | events_app/repositories/users_repo.py:61-74 | Setting the password changes only that user's hash and keeps the constraints. |
| CacheKeys.KeyLayout | events_app/core/utils.py:4-27 | The key is `namespace:path?query`, and the query can be read back out of it. |
| CacheKeys.QueryInjective | events_app/core/utils.py:4-27 | Different queries on the same route give different keys. |
| CacheKeys.EmptyQueryKey | events_app/core/utils.py:4-27 | A request without parameters has the key `namespace:path?`. |
| CacheKeys.QuotePlus | events_app/core/utils.py:4-27 | `quote_plus` of a name or value: UTF-8 bytes, with unreserved bytes kept, a space as `+` and the rest as `%XX`. Its partner is Unquote, by QuotePlusRoundTrip. |
| CacheKeys.Utf8RoundTrip | events_app/core/utils.py:4-27 | Decoding the UTF-8 encoding of a text gives the text back. |
| CacheKeys.QuoteBytesRoundTrip | events_app/core/utils.py:4-27 | Unquoting the percent-encoding of bytes gives the bytes back. |
| CacheKeys.QuotePlusRoundTrip | events_app/core/utils.py:4-27 | `unquote_plus(quote_plus(s)) == s` for every text. |
| CacheKeys.QuotedHasNoSeparators | events_app/core/utils.py:4-27 | A quoted name or value never holds `&` or `=`. |
| CacheKeys.QueryString | events_app/core/utils.py:4-27 | `str(request.query_params)`: the pairs `name=value`, quoted and joined by `&` in the order sent. Its partner is ParseQuery, by QueryStringRoundTrip. |
| CacheKeys.ParseQuery | events_app/core/utils.py:4-27 | `parse_qsl` with blank values kept. Its meaning is stated in QueryStringRoundTrip. |
| CacheKeys.QueryStringRoundTrip | events_app/core/utils.py:4-27 | Parsing the query string gives back exactly the parameters it was built from. |
| CacheKeys.DifferentParamsMiss | events_app/core/utils.py:4-27 | Different parameter lists give different keys. |
| CacheKeys.CustomKeyBuilder | events_app/core/utils.py:4-27 | The key `namespace:path?query`. Its meaning is stated in KeyLayout, DifferentParamsMiss and KeyIgnoresCallAndResponse. |
| CacheKeys.ReorderedParamsMiss | events_app/core/utils.py:4-27 | Any reordering of the same parameters gives another key, so such a request misses the cache. |
| CacheKeys.KeyIgnoresCallAndResponse | events_app/core/utils.py:4-27 | The key depends only on the namespace and the request, not on the function, the response or the other arguments. |
| ImageWorker.Lower | events_app/core/imageworker.py:33 | Lower-casing keeps the length and lower-cases each character. |
| ImageWorker.UploadImage | events_app/core/imageworker.py:16-48 | The upload is rejected exactly when the extension is not allowed. Otherwise the stored path is `dir/uuid.ext`. |
| ImageWorker.ExtensionIsLastPart | events_app/core/imageworker.py:33 | The extension is the lower-cased part after the last dot. |
| ImageWorker.Extension | events_app/core/imageworker.py:33 | `filename.split('.')[-1].lower()`. Its meaning is stated in ExtensionIsLastPart and UndottedNameCheckedWhole. |
| ImageWorker.UndottedNameCheckedWhole | events_app/core/imageworker.py:33 | A name without a dot is checked whole, as its own extension. |
| ImageWorker.UploadJudgedByLastPart | events_app/core/imageworker.py:33-48 | For a name `stem.ext` with a dotless `ext`, the upload is accepted exactly when the lower-cased `ext` is allowed, whatever the stem holds. The file is then stored as `dir/uuid.` followed by the lower-cased `ext`. |
| ImageWorker.RemoveFileIfExists | events_app/core/imageworker.py:51-62 | Removes the file exactly when the path is non-empty, exists and removal does not fail; otherwise the files are unchanged. |
| ImageWorker.Superseded | events_app/services/events_service.py:132-158 | The old image is removed only when there is one, it is non-empty, and it is not the new path. |
| ImageWorker.AfterReplacing | events_app/services/events_service.py:132-158 | The files after an image is replaced. Its meaning is stated in ReplacingKeepsNewImage. |
| ImageWorker.ReplacingKeepsNewImage | events_app/services/events_service.py:132-158 | Replacing an image keeps the new file and every unrelated file. It removes the old file exactly when that is non-empty, differs from the new path, and removal succeeds. |
| EventServices.Envelop | events_app/schemas/events.py:112-116 | The paginated response is built exactly when every item reads as `EventShort`; otherwise `ValidationError`. |
| EventServices.ListingEnvelope | events_app/services/events_service.py:29-53 | Every listing response echoes offset and limit. Its total is the number of matches, and its items are the filtered page: upcoming, matching, ordered by closest date. |
| EventServices.GetAll | events_app/services/events_service.py:29-53 | `get_all` answers with the listing of all upcoming events. |
| EventServices.GetFiltered | events_app/services/events_service.py:92-130 | `get_filtered` fails with `ValueError` exactly for a date with an hour out of range; otherwise it answers with the listing under the date conditions. |
| EventServices.HalfRangeListsAll | events_app/services/events_service.py:92-130 | With no date and a one-sided range, `get_filtered` answers exactly like `get_all`. |
| EventServices.GetEventsByLocation | events_app/services/events_service.py:189-216 | The listing of the upcoming events at the location. |
| EventServices.GetEventsByCategory | events_app/services/events_service.py:242-269 | The listing of the upcoming events in the category. |
| EventServices.Get | events_app/services/events_service.py:73-90 | `get` is empty for a missing event and returns the row for a dated one. For an undated event it raises `ValidationError`. |
| EventServices.GetUserFavorites | events_app/services/events_service.py:304-319 | A missing user has no favourites; otherwise the result holds exactly the user's favourite events. |
| EventServices.InsertAndRead | events_app/services/events_service.py:55-71 | Inside the scope, the event is inserted and read back. This succeeds exactly when the request is insertable and has dates, and then yields CreatedEvent's state and id, with exactly the request's tags and dates. Otherwise the error is `IntegrityError` if it is not insertable, and `ValidationError` if it has no dates. |
| EventServices.EventService.constructor | events_app/services/events_service.py:22-27 | The service works on the given store. |
| EventServices.EventService.Create | events_app/services/events_service.py:55-71 | `create` publishes CreatedEvent's state exactly when the request is insertable and has dates. The event then has exactly the request's tags and dates and reads as `EventFromDB`. Otherwise the error is `IntegrityError` if it is not insertable, and `ValidationError` if it has no dates. A failure publishes nothing. |
| EventServices.EventService.UpdateEventImage | events_app/services/events_service.py:132-158 | A missing event gives `None` and no change. Otherwise the image is set, the old file is removed when superseded, and the event is read back; an undated event raises `ValidationError` and publishes nothing. |
| EventServices.EventService.Update | events_app/api/events.py:101-118 | `update_event` as written never returns an event. An unknown id gives `None`. Any dates or tags give `AttributeError`. Otherwise the flush fails (`IntegrityError`) or the emptied event no longer reads back (`ValidationError`). Nothing is published. |
| EventServices.AssignedEventUnreadable | events_app/schemas/events.py:86-100 | After a successful assignment the event has no dates, so it cannot be read as `EventFromDB`. |
| EventServices.FavoriteService.constructor | events_app/services/events_service.py:276-280 | The service works on the given store. |
| EventServices.FavoriteService.Add | events_app/services/events_service.py:282-291 | `add_favorite` publishes exactly the added favourite. |
| EventServices.FavoriteService.Remove | events_app/services/events_service.py:293-302 | `remove_favorite` publishes exactly the removal. |
| UserServices.GetById | events_app/services/users_service.py:29-38 | `get_by_id` is empty for a missing user and returns the row when it reads as `UserFromDB`; otherwise `ValidationError`. |
| UserServices.ReadBase | events_app/services/users_service.py:40-60 | A found row is returned when it reads as `UserBase`; otherwise `ValidationError`. |
| UserServices.GetByEmail | events_app/services/users_service.py:40-49 | A user returned by `get_by_email` has that email and reads as `UserBase`. |
| UserServices.GetByUsername | events_app/services/users_service.py:51-60 | A user returned by `get_by_username` has that username and reads as `UserBase`. |
| UserServices.GetByEmailMeaning | events_app/services/users_service.py:40-49 | `get_by_email` is empty exactly when no user has the email. Otherwise it returns that user if the row reads as `UserBase`. |
| UserServices.GetByUsernameMeaning | events_app/services/users_service.py:51-60 | `get_by_username` is empty exactly when no user has the name. Otherwise it returns that user if the row reads as `UserBase`. |
| UserServices.CheckUserExists | events_app/services/users_service.py:62-73 | A conflict is reported with one of the two messages. |
| UserServices.CheckUserExistsMeaning | events_app/services/users_service.py:62-73 | No message exactly when the email and the username are both free. The email message exactly when the email is taken. The username message exactly when only the username is. |
| UserServices.AuthenticateUser | events_app/services/users_service.py:93-104 | An authenticated id has that email and a hash the password verifies against. |
| UserServices.AuthenticateUserMeaning | events_app/services/users_service.py:93-104 | Authentication returns a user exactly when that user has the email and the password verifies. |
| UserServices.RegistrationSucceeds | events_app/services/users_service.py:75-91 | With no conflict, registration meets the constraints exactly when the username fits 20 characters and the default source user exists. |
| UserServices.ChangePasswordAsWritten | events_app/services/users_service.py:125-140 | `change_password` as written never succeeds. |
| UserServices.ChangePasswordNeverSucceeds | events_app/services/users_service.py:125-140 | With correct credentials, `change_password` as written raises `AttributeError` instead of returning the updated user. |
| UserServices.PasswordChangeTakesEffect | events_app/services/users_service.py:93-140 | After the corrected password change, the new password authenticates the user. The last one does so only if it verifies against the new hash. |
| UserServices.GetWithFavorites | events_app/services/users_service.py:142-151 | `get_with_favorites` is empty for a missing user. It succeeds exactly when the user reads as `UserBase` and every favourite reads as an event, and then returns exactly the user's favourites. |
| UserServices.UndatedFavoriteBreaksProfile | events_app/services/users_service.py:142-151 | Adding an event without dates to a user's favourites makes that user's profile with favourites fail to load. |
| UserServices.SetAvatarAndRead | events_app/services/users_service.py:106-123 | Inside the scope: only the avatar changes, and the row is read back as `UserBase`. |
| UserServices.SetPasswordAndRead | events_app/services/users_service.py:125-140 | Inside the scope: only the password hash changes, and the row is read back as `UserBase`. |
| UserServices.UserService.constructor | events_app/services/users_service.py:26-27 | The service works on the given store. |
| UserServices.UserService.CreateUser | events_app/services/users_service.py:75-91 | A taken email or username is reported and changes nothing. Otherwise the new user is published with the hashed password exactly when the constraints allow; failure is `IntegrityError` and changes nothing. |
| UserServices.UserService.UpdateUserAvatar | events_app/services/users_service.py:106-123 | A missing user gives `None` and no change. Otherwise only the avatar changes, the old file is removed when superseded, and the user is read back as `UserBase`. |
| UserServices.UserService.ChangePassword | events_app/services/users_service.py:125-140 | Wrong credentials give `ValueError("Incorrect data")` and no change. Otherwise only the hash changes, to the hash of the new password (corrected version). |
| UserServices.UserService.Update | events_app/api/users.py:103-120 | `update_user`: an unknown id gives `None` and no change. A null username or email, a taken new id, or moving a user who has favourites is `IntegrityError` and changes nothing. On success only `users` changes: the merged row is returned under the patch id, and the old id is gone if it moved. |
| Dependencies.CheckToken | events_app/db/redis_db.py:34-51 | The token store gives the user id exactly when the token is present. |
| Dependencies.GetCurrentUser | events_app/api/dependencies.py:55-62 | The current user is the token's user; an unknown token is `Unauthorized`. |
| Dependencies.CheckUserAccess | events_app/api/dependencies.py:65-71 | Access is granted exactly when the token belongs to that user id. Otherwise the answer is `Unauthorized` for an unknown token and `Forbidden` for another user. |
| Dependencies.FindUser | events_app/api/dependencies.py:74-81 | The user is returned when it exists and reads as `UserFromDB`. A missing user is `NotFound`, and an unreadable one is a server error. |
| Dependencies.GetAdminUser | events_app/api/dependencies.py:84-97 | The check passes exactly for a known token whose user exists, reads as `UserFromDB` and is an administrator. Otherwise `Unauthorized`, `Forbidden` or a server error. |
| Dependencies.AdminIsCurrentUser | events_app/api/dependencies.py:55-97 | An administrator who passes is the token's current user and passes the access check for their own id. |
| Dependencies.DetachedAdminFails | events_app/api/dependencies.py:84-97 | An administrator whose source user was deleted fails the check with a server error, not `Forbidden`. |
| Dependencies.GetUsersService | events_app/api/dependencies.py:24-25 | A fresh user service on the store. |
| Dependencies.GetTagsService | events_app/api/dependencies.py:28-29 | A fresh service over tags, read as `TagFromDB`. |
| Dependencies.GetLocationsService | events_app/api/dependencies.py:32-33 | A fresh service over locations, read as `LocationFromDB`. |
| Dependencies.GetEventsService | events_app/api/dependencies.py:36-37 | A fresh event service on the store. |
| Dependencies.GetCategoriesService | events_app/api/dependencies.py:40-41 | A fresh service over categories, read as `CategoryFromDB`. |
| Dependencies.GetFavoriteService | events_app/api/dependencies.py:51-52 | A fresh favourite service on the store. |
| Dependencies.GetSourceUserService | events_app/services/users_service.py:154-161 | A fresh service over source users, read as `SourceUserFromDB`. |
| EventsApi.Served | events_app/api/events.py:53-57 | An exception raised by a service becomes a server error; a result passes through unchanged. |
| EventsApi.GetEvents | events_app/api/events.py:25-57 | A parameter out of bounds is a 422. Otherwise a truthy filter argument gives the filtered listing, and the plain listing is given when there is none. |
| EventsApi.HourWithoutDateIgnored | events_app/api/events.py:53-57 | Without a date and a full range, the hour changes nothing, whether it is 0 (falsy) or not. |
| EventsApi.MidnightWithDateFilters | events_app/api/events.py:53-57 | A date with hour 0 takes the filtered path and selects the first hour of that day. |
| EventsApi.BoundedQueriesSucceed | events_app/api/events.py:30-36 | Every query within the declared bounds is answered, with at most `limit` items. |
| EventsApi.UploadEventImage | events_app/api/events.py:137-155 | The administrator check runs first, then the upload. An unknown event is a 500 and leaves the uploaded file behind; otherwise the image is replaced as in `update_event_image`. |
| EventsApi.DeleteEventImage | events_app/api/events.py:158-171 | Behind the administrator check, the image is set to `""` rather than null, and the stored file is removed. |
| EventsApi.DeleteRemovesStoredFile | events_app/api/events.py:158-171 | Deleting an image removes the stored file unless removal fails, and keeps every other file. |

## Left out

- The `LIMIT` default of `get_events` comes from configuration; `GetEvents` takes the limit as given.
- `EmailStr` and `HttpUrl` validation is not modelled; emails and URLs are plain strings.
- Latitude and longitude are floats and are not modelled. `LocationFromDB` requires both, but the columns are nullable, so a location with a null coordinate fails to read in the source. The model reads every location as accepted.
- `created_at` and other server-side defaults that no operation reads are not modelled.
- `check_user_exists` opens a unit of work of its own. It only reads, so the model evaluates it on the committed store.
- The clock is read once per operation and passed in as `now`. Separate reads within one request are not modelled.
- Services commit with `fault = false`. A connection fault at commit is modelled only in the Unit of Work and the session.
- `ilike` and Python's `str.lower`, `isalpha` and `isdigit` are ASCII approximations. Unicode case folding and the `%`/`_` wildcards inside a search query are not modelled.
- The file system is a set of paths. Writing the upload's bytes is not modelled.
- The uuid is a parameter.
- Password hashing and verification, JWT issuing and `AuthService` are not modelled. Hash and verify are function parameters, and `get_auth_service` is left out.
- The Redis token store is a map. The `fastapi_cache` decorator and its Redis backend are left out; only the key builder is modelled.
- Rows tied on `closest_date` come out in table order. SQL leaves that order unspecified.
- Tables.FindAll, Tables.Update, BaseServices.GetAll and BaseServices.GetAllPagesConcatenate: a `SELECT` without `ORDER BY`, and the first row of `scalars().first()`, are modelled in one fixed insertion order. PostgreSQL promises no order, and an `UPDATE` writes a new row version that may move. So consecutive `get_all` pages join into one page only under the model's choice of order, not by any promise of the program.
- Response serialisation is modelled only where a read model can reject a row, or where a route returns `None` against a response model.
- Routes other than `get_events`, `upload_event_image` and `delete_event_image` are thin wrappers over the services and are not modelled separately.
- The alembic migrations and the admin panel are not part of this model.
- Tables.Rekey: moves the table's id counter past an explicitly written id. PostgreSQL does not advance the sequence for such a write, so a later insert can collide with it. The model does not reproduce that collision.
- EventServices.EventService.Update: the failed read of the emptied event is modelled as the read model's `ValidationError`. The async session may raise a lazy-load error first; either way no event is returned and nothing is published.
- Models.UserFits: an over-long `VARCHAR` value is reported as `IntegrityError`, whereas asyncpg raises `DataError`. The request schemas already bound these lengths, so only the error class differs.
- CacheKeys.Utf8Decode: the decoder accepts overlong encodings, which Python replaces. It also writes one U+FFFD per bad byte, where Python writes one per maximal bad subsequence. It is applied only to the output of Utf8Encode, which never produces either case.
- CacheKeys.ParseQuery: it drops empty pieces between `&`s, as `parse_qsl` does. The `;` separator of older Pythons and the errors of strict parsing are not modelled.
- GetByEmail: its own contract states one direction only. The full meaning is stated in GetByEmailMeaning, which needs the unique constraint.
- GetByUsername: its own contract states one direction only. The full meaning is stated in GetByUsernameMeaning, which needs the unique constraint.
- CheckUserExists: its own contract only names the possible messages. The full meaning is stated in CheckUserExistsMeaning, which needs the unique constraints.

## Findings

| source | as written | input that shows it | evidently intended | confidence | as-written member | corrected member |
|---|---|---|---|---|---|---|
| events_app/services/users_service.py:125-140 | On success, `change_password` calls `self.update_password`, which neither `UserService` nor `BaseService` defines. | An existing user who gives the correct last password; the call raises `AttributeError` and the change is rolled back. | The new hash is stored through the user repository's `update_password`, and the updated user is returned. | not executed | UserServices.ChangePasswordAsWritten | UserServices.UserService.ChangePassword |
