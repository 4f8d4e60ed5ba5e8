/** The database session the repositories share: the committed store, and a
    session holding the statements it has flushed but not yet committed.
    Every statement is checked against the schema when it is flushed, so a
    session only ever holds a store that meets every constraint. */
module Sessions {
  import opened Wrappers
  import opened Models

  /** The database as committed. */
  class Store {
    var db: Db

    ghost predicate Valid()
      reads this
    {
      db.WellFormed() && db.Constraints()
    }

    constructor(db: Db)
      requires db.WellFormed() && db.Constraints()
      ensures this.db == db && Valid()
    {
      this.db := db;
    }
  }

  /** The transaction calls a session has received, in order. */
  datatype Call = Committed | RolledBack | Closed

  class Session {
    const store: Store
    /** What this session reads: the committed store with its own flushed statements applied. */
    var pending: Db
    var calls: seq<Call>

    ghost predicate Valid()
      reads this, store
    {
      store.Valid() && pending.WellFormed() && pending.Constraints()
    }

    /** `async_session_maker()`: a session that starts from the committed store. */
    constructor(store: Store)
      requires store.Valid()
      ensures this.store == store && pending == store.db && calls == [] && Valid()
    {
      this.store := store;
      pending := store.db;
      calls := [];
    }

    /** Flushes one statement whose outcome is `next`: it takes effect when
        `next` meets every constraint and otherwise raises `IntegrityError`
        and leaves the session as it was. */
    method Execute(next: Db) returns (r: Result<(), Raised>)
      requires Valid() && next.WellFormed()
      modifies this
      ensures Valid()
      ensures r.Success? <==> next.Constraints()
      ensures r.Failure? ==> r.error == IntegrityError
      ensures pending == (if r.Success? then next else old(pending))
      ensures calls == old(calls)
    {
      var checked := Check(next);
      if checked.Success? {
        pending := checked.value;
        r := Success(());
      } else {
        r := Failure(checked.error);
      }
    }

    /** `session.commit()`: the flushed statements become the committed
        store; `fault` stands for a connection that fails, which raises and
        commits nothing. */
    method Commit(fault: bool) returns (r: Result<(), Raised>)
      requires Valid()
      modifies this, store
      ensures Valid()
      ensures calls == old(calls) + [Committed]
      ensures pending == old(pending)
      ensures !fault ==> r.Success? && store.db == old(pending)
      ensures fault ==> r == Failure(OperationalError) && store.db == old(store.db)
    {
      calls := calls + [Committed];
      if fault {
        r := Failure(OperationalError);
      } else {
        store.db := pending;
        r := Success(());
      }
    }

    /** `session.rollback()`: the flushed statements are discarded. */
    method Rollback(fault: bool) returns (r: Result<(), Raised>)
      requires Valid()
      modifies this
      ensures Valid()
      ensures calls == old(calls) + [RolledBack]
      ensures !fault ==> r.Success? && pending == store.db
      ensures fault ==> r == Failure(OperationalError) && pending == old(pending)
    {
      calls := calls + [RolledBack];
      if fault {
        r := Failure(OperationalError);
      } else {
        pending := store.db;
        r := Success(());
      }
    }

    /** `session.close()`: whatever was not committed is discarded. */
    method Close()
      requires Valid()
      modifies this
      ensures Valid()
      ensures calls == old(calls) + [Closed]
      ensures pending == store.db
    {
      calls := calls + [Closed];
      pending := store.db;
    }
  }
}
