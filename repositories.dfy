/** The repositories (repositories/base_repo.py, events_repo.py,
    users_repo.py) as objects bound to one session. The generic repository is
    parameterised by a `Model`: where its table lives in the store, how a
    partial update merges into a row, and what deleting a row takes with it.
    Lookups are the functions of `Tables`, `EventQueries` and `UserRows`
    applied to the session's store; the methods here are the operations that
    change it. */
module Repositories {
  import opened Wrappers
  import opened Tables
  import opened Clock
  import opened Models
  import opened UserRows
  import opened Sessions

  /** How the generic repository reaches one table: where it lives in the
      store, what `update` does to the store when it sets the fields of a
      request on a loaded row (the store after the flush and the id the row
      has then, or what the assignments raise first), and what deleting a
      row takes with it. */
  datatype Model<!R, !P> = Model(
    rows: Db -> Table<R>,
    withRows: (Db, Table<R>) -> Db,
    assign: (Db, Id, P) -> Result<(Db, Id), Raised>,
    purge: (Db, Id) -> Db)

  /** What the generic repository relies on: the table read back is the table
      written, tables of a well-formed store are valid, an update of an
      existing row leaves a well-formed store holding the row under its
      resulting id, and deleting a row (with whatever the schema's foreign
      keys take with it) keeps every constraint and removes exactly that row
      from the table. */
  ghost predicate Sound<R(!new), P(!new)>(m: Model<R, P>) {
    && (forall db: Db, t: Table<R> :: m.rows(m.withRows(db, t)) == t)
    && (forall db: Db :: db.WellFormed() ==> m.rows(db).Valid())
    && (forall db: Db, t: Table<R> :: db.WellFormed() && t.Valid() ==> m.withRows(db, t).WellFormed())
    && (forall db: Db, id: Id, p: P :: db.WellFormed() && id in m.rows(db).rows ==> AssignKeepsShape(m, db, id, p))
    && (forall db: Db, id: Id :: db.WellFormed() && db.Constraints() ==> PurgeKeepsStore(m, db, id))
  }

  ghost predicate AssignKeepsShape<R, P>(m: Model<R, P>, db: Db, id: Id, p: P) {
    m.assign(db, id, p).Success? ==>
      m.assign(db, id, p).value.0.WellFormed() && m.assign(db, id, p).value.1 in m.rows(m.assign(db, id, p).value.0).rows
  }

  ghost predicate PurgeKeepsStore<R, P>(m: Model<R, P>, db: Db, id: Id) {
    m.purge(db, id).WellFormed() && m.purge(db, id).Constraints() && m.rows(m.purge(db, id)) == Delete(m.rows(db), id)
  }

  /** `update` on a table whose columns are all plain: the fields are set on
      the row, which keeps its id and its place. */
  function InPlace<R, P>(rows: Db -> Table<R>, withRows: (Db, Table<R>) -> Db, merge: (R, P) -> R, db: Db, id: Id, p: P)
    : (r: Result<(Db, Id), Raised>)
    ensures r.Success? && r.value.1 == id
    ensures id in rows(db).rows ==> r.value.0 == withRows(db, Tables.Update(rows(db), id, merge(rows(db).rows[id], p)))
  {
    if id in rows(db).rows then Success((withRows(db, Tables.Update(rows(db), id, merge(rows(db).rows[id], p))), id))
    else Success((db, id))
  }

  const SourceUserModel: Model<SourceUser, SourceUserPatch> :=
    Model((db: Db) => db.sourceUsers, (db: Db, t: Table<SourceUser>) => db.(sourceUsers := t),
          (db: Db, id: Id, p: SourceUserPatch) =>
            InPlace((db: Db) => db.sourceUsers, (db: Db, t: Table<SourceUser>) => db.(sourceUsers := t), MergeSourceUser, db, id, p),
          DeleteSourceUser)
  const UserModel: Model<User, UserPatch> :=
    Model((db: Db) => db.users, (db: Db, t: Table<User>) => db.(users := t), AssignUser, DeleteUser)
  const LocationModel: Model<Location, LocationPatch> :=
    Model((db: Db) => db.locations, (db: Db, t: Table<Location>) => db.(locations := t),
          (db: Db, id: Id, p: LocationPatch) =>
            InPlace((db: Db) => db.locations, (db: Db, t: Table<Location>) => db.(locations := t), MergeLocation, db, id, p),
          DeleteLocation)
  const CategoryModel: Model<Category, CategoryPatch> :=
    Model((db: Db) => db.categories, (db: Db, t: Table<Category>) => db.(categories := t),
          (db: Db, id: Id, p: CategoryPatch) =>
            InPlace((db: Db) => db.categories, (db: Db, t: Table<Category>) => db.(categories := t), MergeCategory, db, id, p),
          DeleteCategory)
  const TagModel: Model<Tag, TagPatch> :=
    Model((db: Db) => db.tags, (db: Db, t: Table<Tag>) => db.(tags := t),
          (db: Db, id: Id, p: TagPatch) =>
            InPlace((db: Db) => db.tags, (db: Db, t: Table<Tag>) => db.(tags := t), MergeTag, db, id, p),
          DeleteTag)
  const EventModel: Model<Event, EventCreate> :=
    Model((db: Db) => db.events, (db: Db, t: Table<Event>) => db.(events := t), AssignEvent, DeleteEvent)

  lemma SourceUserModelSound()
    ensures Sound(SourceUserModel)
  {
    forall db: Db, id: Id | db.WellFormed() && db.Constraints() ensures PurgeKeepsStore(SourceUserModel, db, id) {
      DeleteSourceUserKeepsStore(db, id);
    }
  }

  lemma UserModelSound()
    ensures Sound(UserModel)
  {
    forall db: Db, id: Id, p: UserPatch | db.WellFormed() && id in db.users.rows ensures AssignKeepsShape(UserModel, db, id, p) {
      AssignUserOutcome(db, id, p);
    }
    forall db: Db, id: Id | db.WellFormed() && db.Constraints() ensures PurgeKeepsStore(UserModel, db, id) {
      DeleteUserKeepsStore(db, id);
    }
  }

  lemma LocationModelSound()
    ensures Sound(LocationModel)
  {
    forall db: Db, id: Id | db.WellFormed() && db.Constraints() ensures PurgeKeepsStore(LocationModel, db, id) {
      DeleteLocationKeepsStore(db, id);
    }
  }

  lemma CategoryModelSound()
    ensures Sound(CategoryModel)
  {
    forall db: Db, id: Id | db.WellFormed() && db.Constraints() ensures PurgeKeepsStore(CategoryModel, db, id) {
      DeleteCategoryKeepsStore(db, id);
    }
  }

  lemma TagModelSound()
    ensures Sound(TagModel)
  {
    forall db: Db, id: Id | db.WellFormed() && db.Constraints() ensures PurgeKeepsStore(TagModel, db, id) {
      DeleteTagKeepsStore(db, id);
    }
  }

  lemma EventModelSound()
    ensures Sound(EventModel)
  {
    forall db: Db, id: Id, p: EventCreate | db.WellFormed() && id in db.events.rows ensures AssignKeepsShape(EventModel, db, id, p) {
      AssignEventOutcome(db, id, p);
    }
    forall db: Db, id: Id | db.WellFormed() && db.Constraints() ensures PurgeKeepsStore(EventModel, db, id) {
      RemoveEventsKeepsStore(db, {id});
    }
  }

  /** `Repository[ModelType]`: create, update and delete for one table. */
  class Repository<R(!new), P(!new)> {
    const session: Session
    const model: Model<R, P>

    ghost predicate Valid()
      reads session, session.store
    {
      session.Valid() && Sound(model)
    }

    constructor(session: Session, model: Model<R, P>)
      ensures this.session == session && this.model == model
    {
      this.session := session;
      this.model := model;
    }

    /** `create`: inserts a row made of exactly the given fields under the next
        id and returns that id; a row that breaks a constraint raises
        `IntegrityError` and nothing is inserted. */
    method Create(row: R) returns (r: Result<Id, Raised>)
      requires Valid()
      modifies session
      ensures Valid() && session.calls == old(session.calls)
      ensures var before := model.rows(old(session.pending));
        var next := model.withRows(old(session.pending), Tables.Create(before, row).0);
        && (r.Success? <==> next.Constraints())
        && (r.Success? ==>
              && r.value == Tables.Create(before, row).1
              && r.value !in before.rows
              && session.pending == next
              && model.rows(session.pending).rows == before.rows[r.value := row])
        && (r.Failure? ==> r.error == IntegrityError && session.pending == old(session.pending))
    {
      var before := model.rows(session.pending);
      var created := Tables.Create(before, row);
      var next := model.withRows(session.pending, created.0);
      var done := session.Execute(next);
      if done.Success? {
        r := Success(created.1);
      } else {
        r := Failure(done.error);
      }
    }

    /** `update`: sets every attribute the request carries on the loaded row,
        flushes, and returns the row with the id it has then. What the
        assignments raise, or `IntegrityError` for a flushed store that breaks
        a constraint, leaves the session as it was. */
    method Update(id: Id, patch: P) returns (r: Result<(Id, R), Raised>)
      requires Valid() && id in model.rows(session.pending).rows
      modifies session
      ensures Valid() && session.calls == old(session.calls)
      ensures var outcome := model.assign(old(session.pending), id, patch);
        && (r.Success? <==> outcome.Success? && outcome.value.0.Constraints())
        && (r.Success? ==>
              && session.pending == outcome.value.0
              && outcome.value.1 in model.rows(outcome.value.0).rows
              && r.value == (outcome.value.1, model.rows(outcome.value.0).rows[outcome.value.1]))
        && (r.Failure? ==> session.pending == old(session.pending))
        && (r.Failure? ==> r.error == if outcome.Failure? then outcome.error else IntegrityError)
    {
      var outcome := model.assign(session.pending, id, patch);
      if outcome.Failure? {
        return Failure(outcome.error);
      }
      assert AssignKeepsShape(model, session.pending, id, patch);
      var next, key := outcome.value.0, outcome.value.1;
      var done := session.Execute(next);
      if done.Success? {
        r := Success((key, model.rows(next).rows[key]));
      } else {
        r := Failure(done.error);
      }
    }

    /** `delete`: removes the row with that id, if any, with everything its
        foreign keys take along, commits the session at once, and answers
        `True` whether or not a row matched. */
    method Delete(id: Id, fault: bool) returns (r: Result<bool, Raised>)
      requires Valid()
      modifies session, session.store
      ensures Valid()
      ensures session.pending == model.purge(old(session.pending), id)
      ensures model.rows(session.pending) == Tables.Delete(model.rows(old(session.pending)), id)
      ensures session.calls == old(session.calls) + [Committed]
      ensures !fault ==> r == Success(true) && session.store.db == session.pending
      ensures fault ==> r == Failure(OperationalError) && session.store.db == old(session.store.db)
    {
      assert PurgeKeepsStore(model, session.pending, id);
      var next := model.purge(session.pending, id);
      var done := session.Execute(next);
      var committed := session.Commit(fault);
      if committed.Success? {
        r := Success(true);
      } else {
        r := Failure(committed.error);
      }
    }
  }

  /** The fields of `EventCreate` as the repository receives them. */
  datatype EventCreate = EventCreate(
    title: string,
    description: string,
    dates: seq<Timestamp>,
    url: string,
    price: string,
    locationId: Id,
    tags: seq<Id>,
    categoryId: Option<Id>)

  /** The `event` row inserted for `data`: every field but `tags` and `dates`,
      no image. */
  function EventRow(data: EventCreate): Event
    requires data.categoryId.Some?
  {
    Event(data.title, data.description, data.price, data.url, None, data.locationId, data.categoryId.value)
  }

  /** The `event_date` rows of event `e`. */
  function DateRowsOf(db: Db, e: Id): set<Id> {
    set k | k in db.eventDates.rows && db.eventDates.rows[k].eventId == e
  }

  /** `update(event, data.model_dump(exclude_unset=True))`: every field of
      `EventCreate` is required, so every one is set on the loaded event, in
      the schema's order, and the session is flushed. `dates` and `tags` are
      relationship collections: a non-empty list of timestamps or of tag ids
      holds no mapped rows, and the assignment raises `AttributeError` on
      `_sa_instance_state` before anything is flushed. Empty lists empty the
      collections: the flush deletes every date row of the event (delete-orphan)
      and every `event_tag` row of it. A null `category_id` breaks NOT NULL.
      The event keeps its id and its image. An id with no row leaves the store
      as it is. */
  function AssignEvent(db: Db, id: Id, data: EventCreate): (r: Result<(Db, Id), Raised>)
    ensures r.Success? ==> r.value.1 == id
  {
    if id !in db.events.rows then Success((db, id))
    else if data.dates != [] || data.tags != [] then Failure(AttributeError("_sa_instance_state"))
    else if data.categoryId.None? then Failure(IntegrityError)
    else
      var row := EventRow(data).(image := db.events.rows[id].image);
      Success((db.(events := Tables.Update(db.events, id, row),
                   eventDates := DeleteAll(db.eventDates, DateRowsOf(db, id)),
                   eventTags := Filter(db.eventTags, (p: (Id, Id)) => p.0 != id)), id))
  }

  /** An update of an existing event fails before the flush exactly when it
      carries a date or a tag (`AttributeError`) or no category
      (`IntegrityError`). When it goes through, the event holds the request's
      columns and its own image, has no dates and no tags left, and nothing
      else in the store changes but the date and tag rows of that event. */
  lemma AssignEventOutcome(db: Db, id: Id, data: EventCreate)
    requires db.WellFormed() && id in db.events.rows
    ensures var r := AssignEvent(db, id, data);
      && (r.Failure? <==> data.dates != [] || data.tags != [] || data.categoryId.None?)
      && (r.Failure? ==> r.error == if data.dates != [] || data.tags != [] then AttributeError("_sa_instance_state") else IntegrityError)
      && (r.Success? ==>
            var next := r.value.0;
            && next.WellFormed()
            && next.events.rows == db.events.rows[id := EventRow(data).(image := db.events.rows[id].image)]
            && DatesOf(next, id) == [] && TagsOf(next, id) == []
            && (forall k :: k in next.eventDates.rows <==> k in db.eventDates.rows && db.eventDates.rows[k].eventId != id)
            && (forall k :: k in next.eventDates.rows ==> next.eventDates.rows[k] == db.eventDates.rows[k])
            && (forall t :: t in next.eventTags <==> t in db.eventTags && t.0 != id)
            && next.(events := db.events, eventDates := db.eventDates, eventTags := db.eventTags) == db)
  {
    var r := AssignEvent(db, id, data);
    if r.Success? {
      var next := r.value.0;
      forall d ensures d !in DatesOf(next, id) {
        DatesOfMember(next, id, d);
      }
      NothingIn(DatesOf(next, id));
      NothingIn(TagsOf(next, id));
    }
  }

  /** The `event_tag` rows for `tags`. */
  function TagRows(e: Id, tags: seq<Id>): (r: seq<(Id, Id)>)
    ensures |r| == |tags| && forall i | 0 <= i < |r| :: r[i] == (e, tags[i])
  {
    seq(|tags|, i requires 0 <= i < |tags| => (e, tags[i]))
  }

  lemma {:induction false} LinkedTagRows(e: Id, tags: seq<Id>)
    ensures Linked(TagRows(e, tags), e) == tags
  {
    if tags != [] {
      LinkedTagRows(e, tags[1..]);
      assert TagRows(e, tags)[1..] == TagRows(e, tags[1..]);
    }
  }

  /** The `event_date` table after inserting one row of `e` per date, in
      order, each under the next id. */
  function InsertedDates(t: Table<EventDate>, e: Id, dates: seq<Timestamp>): (u: Table<EventDate>)
    ensures t.Valid() ==> u.Valid()
  {
    if dates == [] then t
    else Tables.Create(InsertedDates(t, e, dates[..|dates| - 1]), EventDate(dates[|dates| - 1], e)).0
  }

  /** Inserting dates keeps every earlier row, and every new row belongs to
      `e`; at least one row is new when there is a date. */
  lemma {:induction false} InsertedDatesFrame(t: Table<EventDate>, e: Id, dates: seq<Timestamp>)
    requires t.Valid()
    ensures var u := InsertedDates(t, e, dates);
      && u.Valid()
      && (forall k :: k in t.rows ==> k in u.rows && u.rows[k] == t.rows[k])
      && (forall k :: k in u.rows && k !in t.rows ==> u.rows[k].eventId == e)
      && (dates != [] ==> exists k :: k in u.rows && k !in t.rows)
  {
    if dates != [] {
      var init := InsertedDates(t, e, dates[..|dates| - 1]);
      InsertedDatesFrame(t, e, dates[..|dates| - 1]);
      var created := Tables.Create(init, EventDate(dates[|dates| - 1], e));
      assert created.1 in created.0.rows && created.1 !in t.rows;
    }
  }

  /** Inserting dates appends them, in order, to the dates of `e`. */
  lemma {:induction false} InsertedDatesOwn(t: Table<EventDate>, e: Id, dates: seq<Timestamp>)
    requires t.Valid()
    ensures var u := InsertedDates(t, e, dates);
      DatesAmong(u, u.order, e) == DatesAmong(t, t.order, e) + dates
  {
    if dates == [] {
      assert DatesAmong(t, t.order, e) + [] == DatesAmong(t, t.order, e);
    } else {
      var init := dates[..|dates| - 1];
      var last := dates[|dates| - 1];
      var w := InsertedDates(t, e, init);
      var u := Tables.Create(w, EventDate(last, e)).0;
      assert dates == init + [last];
      calc {
        DatesAmong(u, u.order, e);
        { InsertedDate(w, last, e, e); }
        DatesAmong(w, w.order, e) + [last];
        { InsertedDatesOwn(t, e, init); }
        (DatesAmong(t, t.order, e) + init) + [last];
        { AppendStep(DatesAmong(t, t.order, e), init, [last]); }
        DatesAmong(t, t.order, e) + dates;
      }
    }
  }

  /** Inserting dates of `e` leaves the dates of every other event as they were. */
  lemma {:induction false} InsertedDatesOther(t: Table<EventDate>, e: Id, dates: seq<Timestamp>, x: Id)
    requires t.Valid() && x != e
    ensures var u := InsertedDates(t, e, dates);
      DatesAmong(u, u.order, x) == DatesAmong(t, t.order, x)
  {
    if dates != [] {
      var init := dates[..|dates| - 1];
      InsertedDatesOther(t, e, init, x);
      InsertedDate(InsertedDates(t, e, init), dates[|dates| - 1], e, x);
    }
  }

  /** Inserting one `event_date` row of `e` appends its date to the dates of
      `e` and to no other event's. */
  lemma InsertedDate(t: Table<EventDate>, d: Timestamp, e: Id, x: Id)
    requires t.Valid()
    ensures var u := Tables.Create(t, EventDate(d, e)).0;
      DatesAmong(u, u.order, x) == DatesAmong(t, t.order, x) + (if x == e then [d] else [])
  {
    var created := Tables.Create(t, EventDate(d, e));
    DatesAmongAppend(t, created.0, t.order, created.1, x);
  }

  lemma AppendStep<T>(a: seq<T>, b: seq<T>, c: seq<T>)
    ensures (a + b) + c == a + (b + c)
  {
  }

  /** The loop of `_add_event_dates` that builds its rows, one per date. */
  method InsertDates(t: Table<EventDate>, e: Id, dates: seq<Timestamp>) returns (u: Table<EventDate>)
    ensures u == InsertedDates(t, e, dates)
  {
    u := t;
    var i := 0;
    while i < |dates|
      invariant 0 <= i <= |dates|
      invariant u == InsertedDates(t, e, dates[..i])
    {
      assert dates[..i + 1][..i] == dates[..i];
      u := Tables.Create(u, EventDate(dates[i], e)).0;
      i := i + 1;
    }
    assert dates[..|dates|] == dates;
  }

  /** New `event_date` rows of an existing event break no constraint. */
  lemma DatesOfExistingEvent(db: Db, t: Table<EventDate>, e: Id)
    requires db.Constraints() && e in db.events.rows
    requires forall k :: k in t.rows && k in db.eventDates.rows ==> t.rows[k] == db.eventDates.rows[k]
    requires forall k :: k in t.rows && k !in db.eventDates.rows ==> t.rows[k].eventId == e
    ensures db.(eventDates := t).Constraints()
  {
  }

  /** An id that names no event has no tags and no dates. */
  lemma FreshEventUnlinked(db: Db, e: Id)
    requires db.WellFormed() && db.Constraints() && e !in db.events.rows
    ensures TagsOf(db, e) == [] && DatesOf(db, e) == []
  {
    assert forall i | 0 <= i < |db.eventTags| :: db.eventTags[i].0 != e;
    forall d ensures d !in DatesOf(db, e) {
      DatesOfMember(db, e, d);
    }
    NothingIn(TagsOf(db, e));
    NothingIn(DatesOf(db, e));
  }

  lemma NothingIn<T>(s: seq<T>)
    ensures s == [] || s[0] in s
  {
  }

  /** Changing an event's image breaks no constraint. */
  lemma ImageKeepsStore(db: Db, e: Id, path: string)
    requires db.WellFormed() && db.Constraints() && e in db.events.rows
    ensures var next := db.(events := Tables.Update(db.events, e, db.events.rows[e].(image := Some(path))));
      next.WellFormed() && next.Constraints()
  {
  }

  /** The store after `create` inserts the event of `data`, and its id: the
      row under the next event id, its `event_tag` rows after the existing
      ones, and one `event_date` row per date under the next date ids. */
  function CreatedEvent(db: Db, data: EventCreate): (Db, Id)
    requires data.categoryId.Some?
  {
    var created := Tables.Create(db.events, EventRow(data));
    (db.(events := created.0,
         eventTags := db.eventTags + TagRows(created.1, data.tags),
         eventDates := InsertedDates(db.eventDates, created.1, data.dates)), created.1)
  }

  /** What `create` needs to go through: a category, an existing location
      and category, and tags that exist, none of them twice. */
  ghost predicate Insertable(db: Db, data: EventCreate) {
    && data.categoryId.Some?
    && data.locationId in db.locations.rows
    && data.categoryId.value in db.categories.rows
    && (forall t :: t in data.tags ==> t in db.tags.rows)
    && Distinct(data.tags)
  }

  /** The inserted store is well formed; it meets every constraint exactly
      when the request is insertable. The new event has the request's row,
      tags and dates; every other event keeps its tags and dates, and the
      tables `create` does not write are as they were. */
  lemma CreatedEventOutcome(db: Db, data: EventCreate)
    requires db.WellFormed() && db.Constraints() && data.categoryId.Some?
    ensures var (next, e) := CreatedEvent(db, data);
      && next.WellFormed()
      && (next.Constraints() <==> Insertable(db, data))
      && e !in db.events.rows
      && next.events.rows == db.events.rows[e := EventRow(data)]
      && TagsOf(next, e) == data.tags
      && DatesOf(next, e) == data.dates
      && (forall x :: x != e ==> TagsOf(next, x) == TagsOf(db, x) && DatesOf(next, x) == DatesOf(db, x))
      && next.(events := db.events, eventTags := db.eventTags, eventDates := db.eventDates) == db
  {
    var (next, e) := CreatedEvent(db, data);
    FreshEventUnlinked(db, e);
    InsertedDatesFrame(db.eventDates, e, data.dates);
    InsertedDatesOwn(db.eventDates, e, data.dates);
    forall x | x != e ensures TagsOf(next, x) == TagsOf(db, x) && DatesOf(next, x) == DatesOf(db, x) {
      InsertedDatesOther(db.eventDates, e, data.dates, x);
      LinkedAppend(db.eventTags, x, TagRows(e, data.tags));
      NothingIn(Linked(TagRows(e, data.tags), x));
    }
    LinkedAppend(db.eventTags, e, TagRows(e, data.tags));
    LinkedTagRows(e, data.tags);
    InsertedKeys(db, data);
  }

  /** The three statements of `create` one after the other: the event row,
      then the tag rows, then the date rows. The first goes through for every
      insertable request, the second exactly for those, and the third always. */
  lemma CreateStages(db: Db, data: EventCreate)
    requires db.WellFormed() && db.Constraints() && data.categoryId.Some?
    ensures var created := Tables.Create(db.events, EventRow(data));
      var db1 := db.(events := created.0);
      var db2 := db1.(eventTags := db1.eventTags + TagRows(created.1, data.tags));
      && (Insertable(db, data) ==> db1.Constraints())
      && (db2.Constraints() <==> Insertable(db, data))
      && (data.tags == [] ==> db2 == db1)
      && CreatedEvent(db, data) == (db2.(eventDates := InsertedDates(db2.eventDates, created.1, data.dates)), created.1)
  {
    var bare := data.(tags := [], dates := []);
    var undated := data.(dates := []);
    InsertedKeys(db, bare);
    InsertedKeys(db, undated);
    assert TagRows(Tables.Create(db.events, EventRow(data)).1, []) == [];
    assert db.eventTags + [] == db.eventTags;
  }

  /** The constraints of the inserted store, one at a time. */
  lemma InsertedKeys(db: Db, data: EventCreate)
    requires db.WellFormed() && db.Constraints() && data.categoryId.Some?
    ensures CreatedEvent(db, data).0.Constraints() <==> Insertable(db, data)
  {
    var (next, e) := CreatedEvent(db, data);
    InsertedForeignKeys(db, data);
    InsertedTagKey(db, data);
    assert next.UserColumns();
  }

  lemma InsertedTagKey(db: Db, data: EventCreate)
    requires db.WellFormed() && db.Constraints() && data.categoryId.Some?
    ensures CreatedEvent(db, data).0.EventTagKey() <==> Distinct(data.tags)
  {
    var (next, e) := CreatedEvent(db, data);
    var rows := TagRows(e, data.tags);
    DistinctConcat(db.eventTags, rows);
    TagRowsDistinct(e, data.tags);
    forall p | p in db.eventTags ensures p !in rows {
      assert p.0 in db.events.rows;
    }
  }

  lemma InsertedForeignKeys(db: Db, data: EventCreate)
    requires db.WellFormed() && db.Constraints() && data.categoryId.Some?
    ensures CreatedEvent(db, data).0.ForeignKeys() <==>
      && data.locationId in db.locations.rows
      && data.categoryId.value in db.categories.rows
      && (forall t :: t in data.tags ==> t in db.tags.rows)
  {
    var next := CreatedEvent(db, data).0;
    InsertedEventLinks(db, data);
    InsertedDateLinks(db, data);
    InsertedTagLinks(db, data);
    assert next.users == db.users && next.favorites == db.favorites && next.sourceUsers == db.sourceUsers;
  }

  lemma InsertedEventLinks(db: Db, data: EventCreate)
    requires db.WellFormed() && db.Constraints() && data.categoryId.Some?
    ensures var next := CreatedEvent(db, data).0;
      && (forall i | 0 <= i < |next.favorites| :: next.favorites[i].1 in next.events.rows)
      && ((forall k | k in next.events.rows ::
             next.events.rows[k].locationId in next.locations.rows && next.events.rows[k].categoryId in next.categories.rows)
          <==> data.locationId in db.locations.rows && data.categoryId.value in db.categories.rows)
  {
    var (next, e) := CreatedEvent(db, data);
    assert e in next.events.rows && next.events.rows[e] == EventRow(data);
  }

  lemma InsertedDateLinks(db: Db, data: EventCreate)
    requires db.WellFormed() && db.Constraints() && data.categoryId.Some?
    ensures var next := CreatedEvent(db, data).0;
      forall k | k in next.eventDates.rows :: next.eventDates.rows[k].eventId in next.events.rows
  {
    var (next, e) := CreatedEvent(db, data);
    InsertedDatesFrame(db.eventDates, e, data.dates);
  }

  /** The `event_tag` rows of the inserted store point at existing rows
      exactly when every requested tag exists. */
  lemma InsertedTagLinks(db: Db, data: EventCreate)
    requires db.WellFormed() && db.Constraints() && data.categoryId.Some?
    ensures var next := CreatedEvent(db, data).0;
      (forall i | 0 <= i < |next.eventTags| :: next.eventTags[i].0 in next.events.rows && next.eventTags[i].1 in next.tags.rows)
      <==> (forall t :: t in data.tags ==> t in db.tags.rows)
  {
    var (next, e) := CreatedEvent(db, data);
    var rows := TagRows(e, data.tags);
    assert next.eventTags == db.eventTags + rows;
    if forall t :: t in data.tags ==> t in db.tags.rows {
      forall i | 0 <= i < |next.eventTags| ensures next.eventTags[i].0 in next.events.rows && next.eventTags[i].1 in next.tags.rows {
        if i >= |db.eventTags| {
          assert next.eventTags[i] == rows[i - |db.eventTags|];
          assert data.tags[i - |db.eventTags|] in data.tags;
        }
      }
    }
    if forall i | 0 <= i < |next.eventTags| :: next.eventTags[i].1 in next.tags.rows {
      forall t | t in data.tags ensures t in db.tags.rows {
        var i :| 0 <= i < |data.tags| && data.tags[i] == t;
        assert next.eventTags[|db.eventTags| + i] == (e, t);
      }
    }
  }

  lemma TagRowsDistinct(e: Id, tags: seq<Id>)
    ensures Distinct(TagRows(e, tags)) <==> Distinct(tags)
  {
    var rows := TagRows(e, tags);
    if Distinct(tags) {
      forall i, j | 0 <= i < j < |rows| ensures rows[i] != rows[j] {
        assert rows[i] == (e, tags[i]) && rows[j] == (e, tags[j]);
      }
    }
    if Distinct(rows) {
      forall i, j | 0 <= i < j < |tags| ensures tags[i] != tags[j] {
        assert rows[i] == (e, tags[i]) && rows[j] == (e, tags[j]);
      }
    }
  }

  /** `EventRepository`: the event-specific writes, plus the generic ones of
      its base class in `rows`. */
  class EventRepository {
    const session: Session
    const rows: Repository<Event, EventCreate>

    ghost predicate Valid()
      reads session, session.store
    {
      session.Valid() && rows.session == session && rows.model == EventModel
    }

    constructor(session: Session)
      ensures this.session == session && rows.session == session && rows.model == EventModel
    {
      this.session := session;
      rows := new Repository(session, EventModel);
    }

    /** `_add_tags`: one `event_tag` row per tag id, in one statement. */
    method AddTags(e: Id, tags: seq<Id>) returns (r: Result<(), Raised>)
      requires Valid()
      modifies session
      ensures Valid() && session.calls == old(session.calls)
      ensures var next := old(session.pending).(eventTags := old(session.pending).eventTags + TagRows(e, tags));
        && (r.Success? <==> next.Constraints())
        && session.pending == (if r.Success? then next else old(session.pending))
      ensures r.Failure? ==> r.error == IntegrityError
    {
      r := session.Execute(session.pending.(eventTags := session.pending.eventTags + TagRows(e, tags)));
    }

    /** `_add_event_dates`: one `event_date` row per date, each under the next
        id, in one statement; it fails unless `e` is an event. The event's
        dates become its earlier dates followed by these, in order. */
    method AddEventDates(e: Id, dates: seq<Timestamp>) returns (r: Result<(), Raised>)
      requires Valid()
      modifies session
      ensures Valid() && session.calls == old(session.calls)
      ensures r.Success? <==> e in old(session.pending).events.rows || dates == []
      ensures r.Success? ==>
        && session.pending == old(session.pending).(eventDates := InsertedDates(old(session.pending).eventDates, e, dates))
        && DatesOf(session.pending, e) == DatesOf(old(session.pending), e) + dates
        && (forall x :: x != e ==> DatesOf(session.pending, x) == DatesOf(old(session.pending), x))
      ensures r.Failure? ==> r.error == IntegrityError && session.pending == old(session.pending)
    {
      var db := session.pending;
      var t := InsertDates(db.eventDates, e, dates);
      InsertedDatesFrame(db.eventDates, e, dates);
      InsertedDatesOwn(db.eventDates, e, dates);
      forall x | x != e ensures DatesOf(db.(eventDates := t), x) == DatesOf(db, x) {
        InsertedDatesOther(db.eventDates, e, dates, x);
      }
      var next := db.(eventDates := t);
      if e in db.events.rows {
        DatesOfExistingEvent(db, t, e);
      } else if dates != [] {
        assert !next.ForeignKeys();
      }
      r := session.Execute(next);
    }

    /** `create`: inserts the event row from every field but `tags` and
        `dates`, then its tag rows and date rows when those lists are not
        empty, and returns the new id: the store becomes `CreatedEvent`. It
        goes through exactly when the request is `Insertable`; otherwise it
        raises `IntegrityError` at the first statement that breaks a
        constraint, which leaves either nothing or only the event row in the
        session. */
    method Create(data: EventCreate) returns (r: Result<Id, Raised>)
      requires Valid()
      modifies session
      ensures Valid() && session.calls == old(session.calls)
      ensures r.Success? <==> Insertable(old(session.pending), data)
      ensures r.Success? ==> (session.pending, r.value) == CreatedEvent(old(session.pending), data)
      ensures r.Failure? ==> r.error == IntegrityError
      ensures r.Failure? ==>
        || session.pending == old(session.pending)
        || (data.categoryId.Some? &&
            session.pending == old(session.pending).(events := Tables.Create(old(session.pending).events, EventRow(data)).0))
    {
      if data.categoryId.None? {
        return Failure(IntegrityError);
      }
      CreateStages(session.pending, data);
      EventModelSound();
      var inserted := rows.Create(EventRow(data));
      if inserted.Failure? {
        return Failure(inserted.error);
      }
      var e := inserted.value;
      if data.tags != [] {
        var tagged := AddTags(e, data.tags);
        if tagged.Failure? {
          return Failure(tagged.error);
        }
      }
      if data.dates != [] {
        var dated := AddEventDates(e, data.dates);
        assert dated.Success?;
      }
      r := Success(e);
    }

    /** `update_image`: the event's `event_image` becomes the path; nothing
        else changes. */
    method UpdateImage(e: Id, path: string) returns (updated: Event)
      requires Valid() && e in session.pending.events.rows
      modifies session
      ensures Valid() && session.calls == old(session.calls)
      ensures updated == old(session.pending).events.rows[e].(image := Some(path))
      ensures session.pending == old(session.pending).(events := old(session.pending).events.(rows := old(session.pending).events.rows[e := updated]))
    {
      var db := session.pending;
      updated := db.events.rows[e].(image := Some(path));
      ImageKeepsStore(db, e, path);
      var done := session.Execute(db.(events := Tables.Update(db.events, e, updated)));
    }
  }

  /** `UserRepository`: the user-specific writes, plus the generic ones of its
      base class in `rows`. */
  class UserRepository {
    const session: Session
    const rows: Repository<User, UserPatch>

    ghost predicate Valid()
      reads session, session.store
    {
      session.Valid() && rows.session == session && rows.model == UserModel
    }

    constructor(session: Session)
      ensures this.session == session && rows.session == session && rows.model == UserModel
    {
      this.session := session;
      rows := new Repository(session, UserModel);
    }

    /** `add_favorite`: appends the event to the user's favourites when both
        exist and it is not already one. */
    method AddFavorite(user: Id, event: Id)
      requires Valid()
      modifies session
      ensures Valid() && session.calls == old(session.calls)
      ensures session.pending == UserRows.AddFavorite(old(session.pending), user, event)
    {
      AddFavoriteKeepsStore(session.pending, user, event);
      var done := session.Execute(UserRows.AddFavorite(session.pending, user, event));
    }

    /** `remove_favorite`: removes the event from the user's favourites when
        both exist and it is one. */
    method RemoveFavorite(user: Id, event: Id)
      requires Valid()
      modifies session
      ensures Valid() && session.calls == old(session.calls)
      ensures session.pending == UserRows.RemoveFavorite(old(session.pending), user, event)
    {
      RemoveFavoriteKeepsStore(session.pending, user, event);
      var done := session.Execute(UserRows.RemoveFavorite(session.pending, user, event));
    }

    /** `update_avatar`: the user's `profile_image` becomes the path. */
    method UpdateAvatar(user: Id, path: string) returns (updated: User)
      requires Valid() && user in session.pending.users.rows
      modifies session
      ensures Valid() && session.calls == old(session.calls)
      ensures session.pending == SetAvatar(old(session.pending), user, path)
      ensures updated == session.pending.users.rows[user]
    {
      SetAvatarEffect(session.pending, user, path);
      var done := session.Execute(SetAvatar(session.pending, user, path));
      updated := session.pending.users.rows[user];
    }

    /** `update_password`: the user's `hashed_password` becomes the hash. */
    method UpdatePassword(user: Id, hashed: string) returns (updated: User)
      requires Valid() && user in session.pending.users.rows
      modifies session
      ensures Valid() && session.calls == old(session.calls)
      ensures session.pending == SetPassword(old(session.pending), user, hashed)
      ensures updated == session.pending.users.rows[user]
    {
      SetPasswordEffect(session.pending, user, hashed);
      var done := session.Execute(SetPassword(session.pending, user, hashed));
      updated := session.pending.users.rows[user];
    }
  }
}
