/** The relational schema of db/models.py: one record type per table, the
    store as a value holding every table, the constraints the database
    enforces on each statement, the column defaults, the derived
    `closest_date`, and what the foreign-key actions do when a row is deleted. */
module Models {
  import opened Wrappers
  import opened Tables
  import opened Clock

  datatype SourceUser = SourceUser(name: string, description: Option<string>)

  datatype User = User(
    username: string,
    email: string,
    hashedPassword: string,
    firstName: Option<string>,
    lastName: Option<string>,
    dob: Option<Date>,
    gender: string,
    profileImage: Option<string>,
    description: Option<string>,
    isAdmin: bool,
    sourceId: Option<Id>)

  datatype Location = Location(name: string, address: string, description: string)

  datatype Category = Category(name: string, pluralName: Option<string>)

  datatype Tag = Tag(name: string, description: string)

  datatype Event = Event(
    title: string,
    description: string,
    price: string,
    url: string,
    image: Option<string>,
    locationId: Id,
    categoryId: Id)

  datatype EventDate = EventDate(date: Timestamp, eventId: Id)

  /** Column widths and defaults of the `users` table. */
  const UsernameMaxLength: nat := 20
  const NameMaxLength: nat := 32
  const GenderMaxLength: nat := 20
  const DefaultGender: string := "not_specified"
  const DefaultSourceId: Id := 1

  /** The store: one table per entity, plus the two association tables.
      `eventTags` rows are (event_id, tag_id) with the pair as primary key;
      `favorites` rows are (user_id, event_id) with no key at all. */
  datatype Db = Db(
    sourceUsers: Table<SourceUser>,
    users: Table<User>,
    locations: Table<Location>,
    categories: Table<Category>,
    tags: Table<Tag>,
    events: Table<Event>,
    eventDates: Table<EventDate>,
    eventTags: seq<(Id, Id)>,
    favorites: seq<(Id, Id)>)
  {
    /** The representation invariant of every table. */
    ghost predicate WellFormed() {
      && sourceUsers.Valid() && users.Valid() && locations.Valid() && categories.Valid()
      && tags.Valid() && events.Valid() && eventDates.Valid()
    }

    /** Every foreign key points at an existing row (or is null where nullable). */
    predicate ForeignKeys() {
      && (forall k | k in events.rows ::
            events.rows[k].locationId in locations.rows && events.rows[k].categoryId in categories.rows)
      && (forall k | k in eventDates.rows :: eventDates.rows[k].eventId in events.rows)
      && (forall i | 0 <= i < |eventTags| :: eventTags[i].0 in events.rows && eventTags[i].1 in tags.rows)
      && (forall i | 0 <= i < |favorites| :: favorites[i].0 in users.rows && favorites[i].1 in events.rows)
      && (forall k | k in users.rows :: users.rows[k].sourceId.Some? ==> users.rows[k].sourceId.value in sourceUsers.rows)
    }

    /** `username` and `email` are unique, and the bounded columns fit. */
    predicate UserColumns() {
      && (forall a, b | a in users.rows && b in users.rows && a != b ::
            users.rows[a].username != users.rows[b].username && users.rows[a].email != users.rows[b].email)
      && (forall k | k in users.rows :: UserFits(users.rows[k]))
    }

    /** The primary key of `event_tag`: a pair occurs at most once. */
    predicate EventTagKey() {
      forall i, j | 0 <= i < j < |eventTags| :: eventTags[i] != eventTags[j]
    }

    /** What the database checks after every statement. */
    predicate Constraints() {
      ForeignKeys() && UserColumns() && EventTagKey()
    }
  }

  predicate UserFits(u: User) {
    && |u.username| <= UsernameMaxLength
    && |u.gender| <= GenderMaxLength
    && (u.firstName.Some? ==> |u.firstName.value| <= NameMaxLength)
    && (u.lastName.Some? ==> |u.lastName.value| <= NameMaxLength)
  }

  /** The exceptions the core raises or lets through. */
  datatype Raised =
    | IntegrityError            // a statement broke a constraint of the schema
    | OperationalError          // the database connection failed
    | AttributeError(name: string)
    | ValueError(message: string)
    | ValidationError           // a read schema rejected a row

  /** A statement takes effect only if the store it produces meets every
      constraint; otherwise it fails and changes nothing. */
  function Check(db: Db): (r: Result<Db, Raised>)
    ensures r.Success? <==> db.Constraints()
    ensures r.Success? ==> r.value == db
  {
    if db.Constraints() then Success(db) else Failure(IntegrityError)
  }

  function EmptyDb(): (db: Db)
    ensures db.WellFormed() && db.Constraints()
  {
    Db(Empty(), Empty(), Empty(), Empty(), Empty(), Empty(), Empty(), [], [])
  }

  /** A `users` row as inserted from the registration data: every column the
      insert does not name takes its default. */
  function NewUserRow(username: string, email: string, hashedPassword: string): (u: User)
    ensures u.username == username && u.email == email && u.hashedPassword == hashedPassword
    ensures u.gender == DefaultGender && !u.isAdmin && u.sourceId == Some(DefaultSourceId)
    ensures u.firstName.None? && u.lastName.None? && u.dob.None? && u.profileImage.None? && u.description.None?
  {
    User(username, email, hashedPassword, None, None, None, DefaultGender, None, None, false, Some(DefaultSourceId))
  }

  /** The second ids of the association rows whose first id is `first`, in
      row order: `event.tags` over `event_tag`, `user.favorites` over
      `favorite_events`. */
  function Linked(pairs: seq<(Id, Id)>, first: Id): (r: seq<Id>)
    ensures forall x :: x in r <==> (first, x) in pairs
    ensures |r| <= |pairs|
  {
    if pairs == [] then []
    else
      var rest := Linked(pairs[1..], first);
      assert pairs == [pairs[0]] + pairs[1..];
      if pairs[0].0 == first then [pairs[0].1] + rest else rest
  }

  lemma {:induction false} LinkedAppend(pairs: seq<(Id, Id)>, first: Id, extra: seq<(Id, Id)>)
    ensures Linked(pairs + extra, first) == Linked(pairs, first) + Linked(extra, first)
  {
    if pairs != [] {
      LinkedAppend(pairs[1..], first, extra);
      assert (pairs + extra)[1..] == pairs[1..] + extra;
    } else {
      assert pairs + extra == extra;
    }
  }

  /** The tag ids of event `e`. */
  function TagsOf(db: Db, e: Id): seq<Id> {
    Linked(db.eventTags, e)
  }

  // ---------------------------------------------------------------------------
  // The derived column `Event.closest_date`.

  /** The dates of the `event_date` rows listed in `ids` that belong to `e`. */
  function DatesAmong(t: Table<EventDate>, ids: seq<Id>, e: Id): (ds: seq<Timestamp>)
    ensures |ds| <= |ids|
  {
    if ids == [] then []
    else
      var rest := DatesAmong(t, ids[..|ids| - 1], e);
      var last := ids[|ids| - 1];
      if last in t.rows && t.rows[last].eventId == e then rest + [t.rows[last].date] else rest
  }

  /** Every `event_date.date` of event `e`, in row order. */
  function DatesOf(db: Db, e: Id): seq<Timestamp> {
    DatesAmong(db.eventDates, db.eventDates.order, e)
  }

  /** `min(...)` over a list, `NULL` for an empty one. */
  function MinOf(s: seq<Timestamp>): (m: Option<Timestamp>)
    ensures m.None? <==> s == []
    ensures m.Some? ==> m.value in s && forall x :: x in s ==> m.value <= x
  {
    if s == [] then None
    else
      assert s == [s[0]] + s[1..];
      var rest := MinOf(s[1..]);
      if rest.None? || s[0] <= rest.value then Some(s[0]) else rest
  }

  /** `closest_date`: the earliest date of the event, computed afresh from
      `event_date` every time it is read; null when the event has no dates. */
  function ClosestDate(db: Db, e: Id): (c: Option<Timestamp>)
    ensures c.None? <==> DatesOf(db, e) == []
    ensures c.Some? ==> c.value in DatesOf(db, e) && forall d :: d in DatesOf(db, e) ==> c.value <= d
  {
    MinOf(DatesOf(db, e))
  }

  lemma {:induction false} DatesAmongMember(t: Table<EventDate>, ids: seq<Id>, e: Id, d: Timestamp)
    ensures d in DatesAmong(t, ids, e) <==>
            exists i :: 0 <= i < |ids| && ids[i] in t.rows && t.rows[ids[i]].eventId == e && t.rows[ids[i]].date == d
  {
    if ids != [] {
      var init := ids[..|ids| - 1];
      DatesAmongMember(t, init, e, d);
      if d in DatesAmong(t, init, e) {
        var i :| 0 <= i < |init| && init[i] in t.rows && t.rows[init[i]].eventId == e && t.rows[init[i]].date == d;
        assert ids[i] == init[i];
      }
      if exists i :: 0 <= i < |ids| && ids[i] in t.rows && t.rows[ids[i]].eventId == e && t.rows[ids[i]].date == d {
        var i :| 0 <= i < |ids| && ids[i] in t.rows && t.rows[ids[i]].eventId == e && t.rows[ids[i]].date == d;
        if i < |ids| - 1 {
          assert init[i] == ids[i];
        }
      }
    }
  }

  /** A date belongs to `DatesOf(db, e)` exactly when some `event_date` row of
      `e` carries it. */
  lemma DatesOfMember(db: Db, e: Id, d: Timestamp)
    requires db.WellFormed()
    ensures d in DatesOf(db, e) <==> exists k :: k in db.eventDates.rows && db.eventDates.rows[k] == EventDate(d, e)
  {
    DatesAmongMember(db.eventDates, db.eventDates.order, e, d);
    var t := db.eventDates;
    if exists k :: k in t.rows && t.rows[k] == EventDate(d, e) {
      var k :| k in t.rows && t.rows[k] == EventDate(d, e);
      var i :| 0 <= i < |t.order| && t.order[i] == k;
    }
  }

  /** Rows appended to `event_date` for event `e` extend its date list, in the
      order given, as long as the earlier rows are left as they were. */
  lemma {:induction false} DatesAmongAppend(t: Table<EventDate>, u: Table<EventDate>, ids: seq<Id>, k: Id, e: Id)
    requires forall i :: 0 <= i < |ids| ==> (ids[i] in t.rows <==> ids[i] in u.rows)
    requires forall i :: 0 <= i < |ids| && ids[i] in t.rows ==> u.rows[ids[i]] == t.rows[ids[i]]
    requires k in u.rows
    ensures DatesAmong(u, ids + [k], e) ==
            DatesAmong(t, ids, e) + (if u.rows[k].eventId == e then [u.rows[k].date] else [])
  {
    assert (ids + [k])[..|ids|] == ids;
    DatesAmongFrame(t, u, ids, e);
  }

  lemma {:induction false} DatesAmongFrame(t: Table<EventDate>, u: Table<EventDate>, ids: seq<Id>, e: Id)
    requires forall i :: 0 <= i < |ids| ==> (ids[i] in t.rows <==> ids[i] in u.rows)
    requires forall i :: 0 <= i < |ids| && ids[i] in t.rows ==> u.rows[ids[i]] == t.rows[ids[i]]
    ensures DatesAmong(u, ids, e) == DatesAmong(t, ids, e)
  {
    if ids != [] {
      DatesAmongFrame(t, u, ids[..|ids| - 1], e);
    }
  }

  // ---------------------------------------------------------------------------
  // Deleting rows: the foreign-key actions of the schema.

  /** The rows of `s` that `keep` accepts, in order. */
  function Filter(s: seq<(Id, Id)>, keep: ((Id, Id)) -> bool): (r: seq<(Id, Id)>)
    ensures forall x :: x in r <==> x in s && keep(x)
    ensures |r| <= |s|
  {
    if s == [] then []
    else if keep(s[0]) then [s[0]] + Filter(s[1..], keep)
    else Filter(s[1..], keep)
  }

  lemma {:induction false} FilterDistinct(s: seq<(Id, Id)>, keep: ((Id, Id)) -> bool)
    ensures Distinct(s) ==> Distinct(Filter(s, keep))
  {
    if s != [] && Distinct(s) {
      DistinctTail(s);
      FilterDistinct(s[1..], keep);
      if keep(s[0]) {
        DistinctHead(s);
        DistinctCons(s[0], Filter(s[1..], keep));
      }
    }
  }

  /** Deleting the events in `doomed`: `event_date`, `event_tag` and
      `favorite_events` rows that reference them go with them (ON DELETE CASCADE). */
  function RemoveEvents(db: Db, doomed: set<Id>): Db {
    db.(events := DeleteAll(db.events, doomed),
        eventDates := DeleteAll(db.eventDates, set k | k in db.eventDates.rows && db.eventDates.rows[k].eventId in doomed),
        eventTags := Filter(db.eventTags, (p: (Id, Id)) => p.0 !in doomed),
        favorites := Filter(db.favorites, (p: (Id, Id)) => p.1 !in doomed))
  }

  function EventsAtLocation(db: Db, location: Id): set<Id> {
    set k | k in db.events.rows && db.events.rows[k].locationId == location
  }

  function EventsInCategory(db: Db, category: Id): set<Id> {
    set k | k in db.events.rows && db.events.rows[k].categoryId == category
  }

  function DeleteEvent(db: Db, id: Id): Db {
    RemoveEvents(db, {id})
  }

  /** Deleting a location deletes its events, and with them their dependents. */
  function DeleteLocation(db: Db, id: Id): Db {
    RemoveEvents(db.(locations := Delete(db.locations, id)), EventsAtLocation(db, id))
  }

  /** Deleting a category deletes its events, and with them their dependents. */
  function DeleteCategory(db: Db, id: Id): Db {
    RemoveEvents(db.(categories := Delete(db.categories, id)), EventsInCategory(db, id))
  }

  /** Deleting a tag removes its `event_tag` rows; events stay. */
  function DeleteTag(db: Db, id: Id): Db {
    db.(tags := Delete(db.tags, id), eventTags := Filter(db.eventTags, (p: (Id, Id)) => p.1 != id))
  }

  /** Deleting a user removes its `favorite_events` rows; events stay. */
  function DeleteUser(db: Db, id: Id): Db {
    db.(users := Delete(db.users, id), favorites := Filter(db.favorites, (p: (Id, Id)) => p.0 != id))
  }

  function Detach(u: User, source: Id): User {
    if u.sourceId == Some(source) then u.(sourceId := None) else u
  }

  function DetachAll(rows: map<Id, User>, source: Id): (r: map<Id, User>)
    ensures r.Keys == rows.Keys
    ensures forall k :: k in r ==> r[k] == Detach(rows[k], source)
  {
    map k | k in rows :: Detach(rows[k], source)
  }

  /** Deleting a source sets `source_id` to null on its users (ON DELETE SET NULL). */
  function DeleteSourceUser(db: Db, id: Id): Db {
    db.(sourceUsers := Delete(db.sourceUsers, id), users := db.users.(rows := DetachAll(db.users.rows, id)))
  }

  lemma RemoveEventsKeepsStore(db: Db, doomed: set<Id>)
    requires db.WellFormed() && db.Constraints()
    ensures RemoveEvents(db, doomed).WellFormed() && RemoveEvents(db, doomed).Constraints()
  {
    FilterDistinct(db.eventTags, (p: (Id, Id)) => p.0 !in doomed);
    var r := RemoveEvents(db, doomed);
    forall i | 0 <= i < |r.eventTags| ensures r.eventTags[i].0 in r.events.rows && r.eventTags[i].1 in r.tags.rows {
      assert r.eventTags[i] in db.eventTags;
    }
    forall i | 0 <= i < |r.favorites| ensures r.favorites[i].0 in r.users.rows && r.favorites[i].1 in r.events.rows {
      assert r.favorites[i] in db.favorites;
    }
  }

  /** Every delete the schema allows leaves a store that meets every
      constraint: no foreign key is left dangling, so the statement never
      fails. */
  lemma DeletesKeepStore(db: Db, id: Id)
    requires db.WellFormed() && db.Constraints()
    ensures DeleteEvent(db, id).WellFormed() && DeleteEvent(db, id).Constraints()
    ensures DeleteLocation(db, id).WellFormed() && DeleteLocation(db, id).Constraints()
    ensures DeleteCategory(db, id).WellFormed() && DeleteCategory(db, id).Constraints()
    ensures DeleteTag(db, id).WellFormed() && DeleteTag(db, id).Constraints()
    ensures DeleteUser(db, id).WellFormed() && DeleteUser(db, id).Constraints()
    ensures DeleteSourceUser(db, id).WellFormed() && DeleteSourceUser(db, id).Constraints()
  {
    RemoveEventsKeepsStore(db, {id});
    DeleteLocationKeepsStore(db, id);
    DeleteCategoryKeepsStore(db, id);
    DeleteTagKeepsStore(db, id);
    DeleteUserKeepsStore(db, id);
    DeleteSourceUserKeepsStore(db, id);
  }

  lemma DeleteLocationKeepsStore(db: Db, id: Id)
    requires db.WellFormed() && db.Constraints()
    ensures DeleteLocation(db, id).WellFormed() && DeleteLocation(db, id).Constraints()
  {
    var doomed := EventsAtLocation(db, id);
    var mid := db.(locations := Delete(db.locations, id));
    var r := RemoveEvents(mid, doomed);
    FilterDistinct(mid.eventTags, (p: (Id, Id)) => p.0 !in doomed);
    forall k | k in r.events.rows
      ensures r.events.rows[k].locationId in r.locations.rows && r.events.rows[k].categoryId in r.categories.rows
    {
      assert k !in doomed;
    }
    forall i | 0 <= i < |r.eventTags| ensures r.eventTags[i].0 in r.events.rows && r.eventTags[i].1 in r.tags.rows {
      assert r.eventTags[i] in db.eventTags;
    }
    forall i | 0 <= i < |r.favorites| ensures r.favorites[i].0 in r.users.rows && r.favorites[i].1 in r.events.rows {
      assert r.favorites[i] in db.favorites;
    }
  }

  lemma DeleteCategoryKeepsStore(db: Db, id: Id)
    requires db.WellFormed() && db.Constraints()
    ensures DeleteCategory(db, id).WellFormed() && DeleteCategory(db, id).Constraints()
  {
    var doomed := EventsInCategory(db, id);
    var mid := db.(categories := Delete(db.categories, id));
    var r := RemoveEvents(mid, doomed);
    FilterDistinct(mid.eventTags, (p: (Id, Id)) => p.0 !in doomed);
    forall k | k in r.events.rows
      ensures r.events.rows[k].locationId in r.locations.rows && r.events.rows[k].categoryId in r.categories.rows
    {
      assert k !in doomed;
    }
    forall i | 0 <= i < |r.eventTags| ensures r.eventTags[i].0 in r.events.rows && r.eventTags[i].1 in r.tags.rows {
      assert r.eventTags[i] in db.eventTags;
    }
    forall i | 0 <= i < |r.favorites| ensures r.favorites[i].0 in r.users.rows && r.favorites[i].1 in r.events.rows {
      assert r.favorites[i] in db.favorites;
    }
  }

  lemma DeleteTagKeepsStore(db: Db, id: Id)
    requires db.WellFormed() && db.Constraints()
    ensures DeleteTag(db, id).WellFormed() && DeleteTag(db, id).Constraints()
  {
    var r := DeleteTag(db, id);
    FilterDistinct(db.eventTags, (p: (Id, Id)) => p.1 != id);
    forall i | 0 <= i < |r.eventTags| ensures r.eventTags[i].0 in r.events.rows && r.eventTags[i].1 in r.tags.rows {
      assert r.eventTags[i] in db.eventTags;
    }
  }

  lemma DeleteUserKeepsStore(db: Db, id: Id)
    requires db.WellFormed() && db.Constraints()
    ensures DeleteUser(db, id).WellFormed() && DeleteUser(db, id).Constraints()
  {
    var r := DeleteUser(db, id);
    forall i | 0 <= i < |r.favorites| ensures r.favorites[i].0 in r.users.rows && r.favorites[i].1 in r.events.rows {
      assert r.favorites[i] in db.favorites;
    }
  }

  lemma DeleteSourceUserKeepsStore(db: Db, id: Id)
    requires db.WellFormed() && db.Constraints()
    ensures DeleteSourceUser(db, id).WellFormed() && DeleteSourceUser(db, id).Constraints()
  {
    var r := DeleteSourceUser(db, id);
    assert r.users.Valid() by {
      assert r.users.rows.Keys == db.users.rows.Keys;
    }
    DetachAllKeepsColumns(db.users.rows, id);
    DetachAllKeepsSources(db.users.rows, id, db.sourceUsers.rows, r.sourceUsers.rows);
  }

  lemma DetachAllKeepsColumns(rows: map<Id, User>, source: Id)
    requires forall a, b | a in rows && b in rows && a != b ::
      rows[a].username != rows[b].username && rows[a].email != rows[b].email
    requires forall k | k in rows :: UserFits(rows[k])
    ensures var r := DetachAll(rows, source);
      && (forall a, b | a in r && b in r && a != b :: r[a].username != r[b].username && r[a].email != r[b].email)
      && (forall k | k in r :: UserFits(r[k]))
  {
  }

  lemma DetachAllKeepsSources<S>(rows: map<Id, User>, source: Id, before: map<Id, S>, after: map<Id, S>)
    requires forall k | k in rows :: rows[k].sourceId.Some? ==> rows[k].sourceId.value in before
    requires forall k :: k in after <==> k in before && k != source
    ensures var r := DetachAll(rows, source);
      forall k | k in r :: r[k].sourceId.Some? ==> r[k].sourceId.value in after
  {
  }

  /** Deleting a location: none of its events is left, nor any date, tag
      association or favourite of them; events elsewhere are untouched, and
      users and tags are never deleted. */
  lemma DeleteLocationCascades(db: Db, id: Id)
    requires db.WellFormed()
    ensures var r := DeleteLocation(db, id);
      && id !in r.locations.rows
      && (forall k :: k in r.events.rows ==> r.events.rows[k].locationId != id)
      && (forall k :: k in db.events.rows && db.events.rows[k].locationId != id ==>
            k in r.events.rows && r.events.rows[k] == db.events.rows[k])
      && (forall k :: k in r.eventDates.rows ==> r.eventDates.rows[k].eventId !in EventsAtLocation(db, id))
      && (forall p :: p in r.eventTags ==> p.0 !in EventsAtLocation(db, id))
      && (forall p :: p in r.favorites ==> p.1 !in EventsAtLocation(db, id))
      && r.users == db.users && r.tags == db.tags
  {
  }

  /** Deleting an event takes its dates, tag associations and favourites with
      it, and nothing else: users, tags and other events are untouched. */
  lemma DeleteEventCascades(db: Db, id: Id)
    requires db.WellFormed()
    ensures var r := DeleteEvent(db, id);
      && id !in r.events.rows
      && DatesOf(r, id) == []
      && (forall p :: p in r.eventTags <==> p in db.eventTags && p.0 != id)
      && (forall p :: p in r.favorites <==> p in db.favorites && p.1 != id)
      && (forall k :: k in db.events.rows && k != id ==> k in r.events.rows && r.events.rows[k] == db.events.rows[k])
      && r.users == db.users && r.tags == db.tags && r.locations == db.locations
  {
    var r := DeleteEvent(db, id);
    if DatesOf(r, id) != [] {
      var d := DatesOf(r, id)[0];
      DatesOfMember(r, id, d);
      assert false;
    }
  }

  /** Deleting a source leaves every user in place, with `source_id` cleared
      exactly where it pointed at the deleted source. */
  lemma DeleteSourceUserSetsNull(db: Db, id: Id)
    ensures var r := DeleteSourceUser(db, id);
      && r.users.rows.Keys == db.users.rows.Keys
      && forall k :: k in db.users.rows ==>
           r.users.rows[k].sourceId == (if db.users.rows[k].sourceId == Some(id) then None else db.users.rows[k].sourceId)
           && r.users.rows[k].(sourceId := None) == db.users.rows[k].(sourceId := None)
  {
  }

  // ---------------------------------------------------------------------------
  // Partial updates: the attributes a request sets, all others left alone.

  datatype SourceUserPatch = SourceUserPatch(name: Field<string>, description: Field<Option<string>>)

  /** `UserUpdate.model_dump(exclude_unset=True)`: `id` is a required field of
      the schema, so it is always present; `username` and `email` may be sent
      as null. */
  datatype UserPatch = UserPatch(
    id: Id,
    username: Field<Option<string>>,
    email: Field<Option<string>>,
    firstName: Field<Option<string>>,
    lastName: Field<Option<string>>,
    dob: Field<Option<Date>>,
    gender: Field<string>,
    description: Field<Option<string>>,
    profileImage: Field<Option<string>>)

  datatype LocationPatch = LocationPatch(name: Field<string>, address: Field<string>, description: Field<string>)

  datatype CategoryPatch = CategoryPatch(name: Field<string>, pluralName: Field<Option<string>>)

  datatype TagPatch = TagPatch(name: Field<string>, description: Field<string>)

  function MergeSourceUser(s: SourceUser, p: SourceUserPatch): SourceUser {
    SourceUser(Merge(s.name, p.name), Merge(s.description, p.description))
  }

  /** A nullable field set on a NOT NULL column: the value when it is not
      null; a null one is refused by the flush (`AssignUser`). */
  function MergeNotNull<T>(current: T, f: Field<Option<T>>): (r: T)
    ensures f.Set? && f.value.Some? ==> r == f.value.value
    ensures !(f.Set? && f.value.Some?) ==> r == current
  {
    if f.Set? && f.value.Some? then f.value.value else current
  }

  /** The columns of the user after the `setattr` loop, `id` aside. */
  function MergeUser(u: User, p: UserPatch): User {
    u.(username := MergeNotNull(u.username, p.username),
       email := MergeNotNull(u.email, p.email),
       firstName := Merge(u.firstName, p.firstName),
       lastName := Merge(u.lastName, p.lastName),
       dob := Merge(u.dob, p.dob),
       gender := Merge(u.gender, p.gender),
       description := Merge(u.description, p.description),
       profileImage := Merge(u.profileImage, p.profileImage))
  }

  function MergeLocation(l: Location, p: LocationPatch): Location {
    Location(Merge(l.name, p.name), Merge(l.address, p.address), Merge(l.description, p.description))
  }

  function MergeCategory(c: Category, p: CategoryPatch): Category {
    Category(Merge(c.name, p.name), Merge(c.pluralName, p.pluralName))
  }

  function MergeTag(t: Tag, p: TagPatch): Tag {
    Tag(Merge(t.name, p.name), Merge(t.description, p.description))
  }

  /** Whether the patch sets `username` or `email` to null. */
  predicate NullsRequired(p: UserPatch) {
    p.username == Set(None) || p.email == Set(None)
  }

  /** `update(user, fields)` on the users table, as the flush leaves it: the
      store after the statement, and the id the row has then. A null
      `username` or `email` breaks NOT NULL; a changed `id` moves the row
      to the new key, which breaks the primary key when that key is taken.
      Whatever else the statement breaks (a unique name, a favourite still
      pointing at the old key) is left to the constraint check of the flush.
      An id with no row leaves the store as it is. */
  function AssignUser(db: Db, id: Id, p: UserPatch): (r: Result<(Db, Id), Raised>)
    ensures r.Failure? ==> r.error == IntegrityError
    ensures r.Success? && id in db.users.rows ==> r.value.1 == p.id && r.value.0 == db.(users := r.value.0.users)
  {
    if id !in db.users.rows then Success((db, id))
    else if NullsRequired(p) then Failure(IntegrityError)
    else
      var merged := MergeUser(db.users.rows[id], p);
      if p.id == id then Success((db.(users := Tables.Update(db.users, id, merged)), id))
      else if p.id in db.users.rows then Failure(IntegrityError)
      else Success((db.(users := Rekey(db.users, id, p.id, merged)), p.id))
  }

  /** An update of an existing user fails before the flush exactly when it
      nulls `username` or `email` or moves the user onto a taken id. When it
      goes through, the row under the patch's id carries the patched columns,
      and every other user is as it was. */
  lemma AssignUserOutcome(db: Db, id: Id, p: UserPatch)
    requires id in db.users.rows
    ensures AssignUser(db, id, p).Failure? <==> NullsRequired(p) || (p.id != id && p.id in db.users.rows)
    ensures AssignUser(db, id, p).Success? ==>
      var next := AssignUser(db, id, p).value.0;
      && p.id in next.users.rows
      && next.users.rows[p.id] == MergeUser(db.users.rows[id], p)
      && (forall k :: k != p.id ==> (k in next.users.rows <==> k in db.users.rows && k != id))
      && (forall k :: k in next.users.rows && k != p.id ==> next.users.rows[k] == db.users.rows[k])
  {
  }

  /** Moving a user who has favourites to another id leaves their
      `favorite_events` rows pointing at the old id, and the foreign key,
      which has no ON UPDATE action, refuses the flush. */
  lemma MovedUserWithFavoritesRejected(db: Db, id: Id, p: UserPatch, event: Id)
    requires id in db.users.rows && p.id != id && (id, event) in db.favorites
    requires AssignUser(db, id, p).Success?
    ensures !AssignUser(db, id, p).value.0.Constraints()
  {
    var next := AssignUser(db, id, p).value.0;
    var i :| 0 <= i < |next.favorites| && next.favorites[i] == (id, event);
    assert next.favorites[i].0 !in next.users.rows;
  }

  /** A user update never touches the columns a profile request cannot name:
      the password hash, the admin flag and the source; the row it leaves is
      the old one with exactly the fields the request set, under its id. */
  lemma AssignUserKeepsPrivileges(db: Db, id: Id, p: UserPatch)
    requires id in db.users.rows && AssignUser(db, id, p).Success?
    ensures var next := AssignUser(db, id, p).value;
      var (u, r) := (db.users.rows[id], next.0.users.rows[next.1]);
      && next.1 == p.id
      && r.hashedPassword == u.hashedPassword && r.isAdmin == u.isAdmin && r.sourceId == u.sourceId
      && (p.gender.Set? ==> r.gender == p.gender.value)
      && (p.gender.Unset? ==> r.gender == u.gender)
      && (p.username.Unset? ==> r.username == u.username)
      && (p.username.Set? ==> r.username == p.username.value.value)
      && (p.email.Unset? ==> r.email == u.email)
      && (p.email.Set? ==> r.email == p.email.value.value)
  {
    AssignUserOutcome(db, id, p);
  }

  /** Applying the same partial update twice is the same as applying it once. */
  lemma MergeUserIdempotent(u: User, p: UserPatch)
    ensures MergeUser(MergeUser(u, p), p) == MergeUser(u, p)
  {
  }
}
