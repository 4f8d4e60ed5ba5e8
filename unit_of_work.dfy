/** The Unit of Work of uow/unit_of_work.py: one session per scope, six
    repositories bound to it, and the exit rule that commits or rolls back
    and then closes. */
module UnitsOfWork {
  import opened Wrappers
  import opened Tables
  import opened Models
  import opened Sessions
  import opened Repositories

  /** The attributes `__aenter__` sets on the unit of work: a new session,
      and the six repositories, each bound to that session. */
  class Scope {
    const session: Session
    const sourceUser: Repository<SourceUser, SourceUserPatch>
    const user: UserRepository
    const events: EventRepository
    const location: Repository<Location, LocationPatch>
    const category: Repository<Category, CategoryPatch>
    const tag: Repository<Tag, TagPatch>

    /** Every repository works on `session`, over its own table. */
    ghost predicate Bound() {
      && sourceUser.session == session && sourceUser.model == SourceUserModel
      && user.session == session && user.rows.session == session && user.rows.model == UserModel
      && events.session == session && events.rows.session == session && events.rows.model == EventModel
      && location.session == session && location.model == LocationModel
      && category.session == session && category.model == CategoryModel
      && tag.session == session && tag.model == TagModel
    }

    constructor(store: Store)
      requires store.Valid()
      ensures Bound() && fresh(session)
      ensures session.store == store && session.Valid() && session.pending == store.db && session.calls == []
    {
      var s := new Session(store);
      session := s;
      sourceUser := new Repository(s, SourceUserModel);
      user := new UserRepository(s);
      events := new EventRepository(s);
      location := new Repository(s, LocationModel);
      category := new Repository(s, CategoryModel);
      tag := new Repository(s, TagModel);
    }

    /** The body of `__aexit__` once the session exists: roll back or
        commit, and close the session whatever that did. */
    method Finish(raised: Option<Raised>, fault: bool) returns (out: Option<Raised>)
      requires session.Valid()
      modifies session, session.store
      ensures session.Valid()
      ensures session.calls == old(session.calls) + [if raised.Some? then RolledBack else Committed] + [Closed]
      ensures session.pending == session.store.db
      ensures raised.None? && !fault ==> out == None && session.store.db == old(session.pending)
      ensures raised.None? && fault ==> out == Some(OperationalError) && session.store.db == old(session.store.db)
      ensures raised.Some? ==> session.store.db == old(session.store.db)
      ensures raised.Some? ==> out == (if fault then Some(OperationalError) else raised)
    {
      ghost var before := session.store.db;
      ghost var pending := session.pending;
      if raised.Some? {
        var r := session.Rollback(fault);
        assert session.store.db == before;
        out := if fault then Some(OperationalError) else raised;
      } else {
        var r := session.Commit(fault);
        assert session.store.db == if fault then before else pending;
        out := if fault then Some(OperationalError) else None;
      }
      ghost var after := session.store.db;
      session.Close();
      assert session.store.db == after;
    }
  }

  class UnitOfWork {
    /** What `async_session_maker` connects to. */
    const store: Store
    /** Null until the first `__aenter__`: before it, the unit of work has no `session` attribute. */
    var scope: Scope?

    /** Once a session is open, it works on this store and the repositories are bound to it. */
    ghost predicate Valid()
      reads this, scope, store, if scope == null then {} else {scope.session}
    {
      store.Valid() && (scope != null ==> scope.session.store == store && scope.session.Valid() && scope.Bound())
    }

    /** `__init__`: only the session factory; no session yet. */
    constructor(store: Store)
      requires store.Valid()
      ensures this.store == store && scope == null && Valid()
    {
      this.store := store;
      scope := null;
    }

    /** `__aenter__`: a new session that starts from the committed store, and
        six new repositories over it. */
    method Enter()
      requires Valid()
      modifies this
      ensures Valid() && scope != null && fresh(scope.session)
      ensures scope.session.pending == store.db && scope.session.calls == []
      ensures store.db == old(store.db)
    {
      scope := new Scope(store);
    }

    /** `commit`: commits the session; without one, the attribute lookup raises. */
    method Commit(fault: bool) returns (r: Result<(), Raised>)
      requires Valid()
      modifies if scope == null then {} else {scope.session}, store
      ensures Valid()
      ensures scope == null ==> r == Failure(AttributeError("session")) && store.db == old(store.db)
      ensures scope != null ==>
        && scope.session.calls == old(scope.session.calls) + [Committed]
        && scope.session.pending == old(scope.session.pending)
        && (!fault ==> r.Success? && store.db == scope.session.pending)
        && (fault ==> r == Failure(OperationalError) && store.db == old(store.db))
    {
      if scope == null {
        return Failure(AttributeError("session"));
      }
      r := scope.session.Commit(fault);
    }

    /** `rollback`: rolls the session back; without one, the attribute lookup raises. */
    method Rollback(fault: bool) returns (r: Result<(), Raised>)
      requires Valid()
      modifies if scope == null then {} else {scope.session}
      ensures Valid()
      ensures scope == null ==> r == Failure(AttributeError("session"))
      ensures scope != null ==>
        && scope.session.calls == old(scope.session.calls) + [RolledBack]
        && (!fault ==> r.Success? && scope.session.pending == store.db)
        && (fault ==> r == Failure(OperationalError) && scope.session.pending == old(scope.session.pending))
    {
      if scope == null {
        return Failure(AttributeError("session"));
      }
      r := scope.session.Rollback(fault);
    }

    /** `__aexit__`: rolls back when the scope raised, commits otherwise, and
        then closes the session if there is one, whatever the commit or
        rollback did. It never suppresses: the scope's exception comes out,
        unless the commit or rollback raised one of its own. */
    method Exit(raised: Option<Raised>, fault: bool) returns (out: Option<Raised>)
      requires Valid()
      modifies if scope == null then {} else {scope.session}, store
      ensures Valid()
      ensures scope == null ==> out == Some(AttributeError("session")) && store.db == old(store.db)
      ensures scope != null ==>
        && scope.session.calls == old(scope.session.calls) + [if raised.Some? then RolledBack else Committed] + [Closed]
        && scope.session.pending == store.db
        && (raised.None? && !fault ==> out == None && store.db == old(scope.session.pending))
        && (raised.None? && fault ==> out == Some(OperationalError) && store.db == old(store.db))
        && (raised.Some? ==> store.db == old(store.db) && out == (if fault then Some(OperationalError) else raised))
    {
      if scope == null {
        return Some(AttributeError("session"));
      }
      out := scope.Finish(raised, fault);
    }
  }

  /** A delete commits at once, so it outlives a later rollback of the scope
      it ran in: the committed store is the purged one even though the scope
      ends with an exception. */
  method DeleteOutlivesRollback(store: Store, id: Id, raised: Raised)
    returns (deleted: Result<bool, Raised>, out: Option<Raised>)
    requires store.Valid()
    modifies store
    ensures deleted == Success(true) && out == Some(raised)
    ensures store.db == DeleteLocation(old(store.db), id)
  {
    var uow := new UnitOfWork(store);
    uow.Enter();
    var scope := uow.scope;
    ghost var before := store.db;
    LocationModelSound();
    deleted := scope.location.Delete(id, false);
    assert store.db == DeleteLocation(before, id);
    ghost var after := store.db;
    out := scope.Finish(Some(raised), false);
    assert store.db == after;
  }
}
