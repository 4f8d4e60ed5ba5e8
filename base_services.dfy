/** The generic service of services/base_service.py: one table, reached
    through a unit of work, with the read schema of the service applied to
    every row it returns. `get` and `get_all` only read, so they are
    functions of the committed store; `create`, `update` and `delete` open a
    unit of work on the store and change it. */
module BaseServices {
  import opened Wrappers
  import opened Tables
  import opened Models
  import opened Sessions
  import opened Repositories
  import opened UnitsOfWork

  /** `read_model.model_validate(obj)` for the row with that id: whether the
      read schema of the service accepts it as stored. */
  type ReadModel = (Db, Id) -> bool

  /** `get`: `None` when no row has the id; otherwise the row, provided the
      read schema accepts it, and `ValidationError` when it does not. */
  function Get<R, P>(m: Model<R, P>, accepts: ReadModel, db: Db, id: Id): (r: Result<Option<R>, Raised>)
    ensures r == Success(None) <==> id !in m.rows(db).rows
    ensures r.Success? && r.value.Some? <==> id in m.rows(db).rows && accepts(db, id)
    ensures r.Success? && r.value.Some? ==> r.value.value == m.rows(db).rows[id]
    ensures r.Failure? ==> r.error == ValidationError
  {
    match Tables.Get(m.rows(db), id)
    case None => Success(None)
    case Some(row) => if accepts(db, id) then Success(Some(row)) else Failure(ValidationError)
  }

  /** Whether the read schema accepts every row of a page. */
  predicate AllAccepted<R>(accepts: ReadModel, db: Db, rows: seq<(Id, R)>) {
    forall i | 0 <= i < |rows| :: accepts(db, rows[i].0)
  }

  /** `get_all`: the page of `find_all`, each row validated; one rejected row
      fails the whole call. */
  function GetAll<R, P>(m: Model<R, P>, accepts: ReadModel, db: Db, offset: nat, limit: nat)
    : (r: Result<seq<(Id, R)>, Raised>)
    requires m.rows(db).Valid()
    ensures r.Success? <==> AllAccepted(accepts, db, Tables.FindAll(m.rows(db), offset, limit))
    ensures r.Success? ==> |r.value| <= limit
    ensures r.Success? ==> |r.value| == if offset >= |m.rows(db).order| then 0 else Min(limit, |m.rows(db).order| - offset)
    ensures r.Success? ==> forall i | 0 <= i < |r.value| ::
      offset + i < |m.rows(db).order| && r.value[i] == (m.rows(db).order[offset + i], m.rows(db).rows[m.rows(db).order[offset + i]])
    ensures r.Failure? ==> r.error == ValidationError
  {
    var rows := Tables.FindAll(m.rows(db), offset, limit);
    if AllAccepted(accepts, db, rows) then Success(rows) else Failure(ValidationError)
  }

  /** Two consecutive `get_all` pages together are the page spanning both. */
  lemma GetAllPagesConcatenate<R, P>(m: Model<R, P>, accepts: ReadModel, db: Db, offset: nat, a: nat, b: nat)
    requires m.rows(db).Valid()
    requires GetAll(m, accepts, db, offset, a + b).Success?
    ensures GetAll(m, accepts, db, offset, a).Success? && GetAll(m, accepts, db, offset + a, b).Success?
    ensures GetAll(m, accepts, db, offset, a).value + GetAll(m, accepts, db, offset + a, b).value
         == GetAll(m, accepts, db, offset, a + b).value
  {
    var t := m.rows(db);
    var left, right, whole := Tables.FindAll(t, offset, a), Tables.FindAll(t, offset + a, b), Tables.FindAll(t, offset, a + b);
    PagesConcatenate(t.order, offset, a, b);
    var ids := Page(t.order, offset, a + b);
    assert |left| + |right| == |whole| by {
      assert |left| == |Page(t.order, offset, a)| && |right| == |Page(t.order, offset + a, b)| && |whole| == |ids|;
    }
    forall i | 0 <= i < |left| ensures accepts(db, left[i].0) && left[i] == whole[i] {
      assert left[i].0 == t.order[offset + i] == whole[i].0;
    }
    forall i | 0 <= i < |right| ensures accepts(db, right[i].0) && right[i] == whole[|left| + i] {
      assert right[i].0 == t.order[offset + a + i];
      assert |left| == a;
      assert whole[|left| + i].0 == t.order[offset + |left| + i];
    }
    assert left + right == whole;
  }

  /** A deleted row is gone: `get` answers `None` for it afterwards, and every
      other row of the table reads as before. */
  lemma GetAfterDelete<R(!new), P(!new)>(m: Model<R, P>, accepts: ReadModel, db: Db, id: Id, k: Id)
    requires Sound(m) && db.WellFormed() && db.Constraints()
    ensures Get(m, accepts, m.purge(db, id), id) == Success(None)
    ensures k != id && k in m.rows(db).rows ==>
      k in m.rows(m.purge(db, id)).rows && m.rows(m.purge(db, id)).rows[k] == m.rows(db).rows[k]
  {
    assert PurgeKeepsStore(m, db, id);
    Tables.GetAfterDelete(m.rows(db), id, k);
  }

  /** `BaseService`: a service over one repository of the unit of work,
      selected by `model`, with the read schema `accepts`. */
  class BaseService<R(!new), P(!new)> {
    const store: Store
    const model: Model<R, P>
    const accepts: ReadModel

    ghost predicate Valid()
      reads store
    {
      store.Valid() && Sound(model)
    }

    constructor(store: Store, model: Model<R, P>, accepts: ReadModel)
      requires store.Valid() && Sound(model)
      ensures this.store == store && this.model == model && this.accepts == accepts && Valid()
    {
      this.store := store;
      this.model := model;
      this.accepts := accepts;
    }

    /** `create`: inserts exactly the given row under the next id and returns
        it as the read schema sees it. A row that breaks a constraint raises
        `IntegrityError`; a stored row the read schema rejects raises
        `ValidationError` inside the scope. Either way the scope rolls back
        and the store is as before. */
    method Create(row: R) returns (r: Result<(Id, R), Raised>)
      requires Valid()
      modifies store
      ensures Valid()
      ensures var before := model.rows(old(store.db));
        var created := Tables.Create(before, row);
        var next := model.withRows(old(store.db), created.0);
        && (r.Success? <==> next.Constraints() && accepts(next, created.1))
        && (r.Success? ==> r.value == (created.1, row) && store.db == next)
        && (r.Failure? ==> store.db == old(store.db))
        && (r.Failure? ==> r.error == if next.Constraints() then ValidationError else IntegrityError)
    {
      var uow := new UnitOfWork(store);
      uow.Enter();
      var scope := uow.scope;
      var repo := new Repository(scope.session, model);
      var created := repo.Create(row);
      if created.Failure? {
        var out := scope.Finish(Some(created.error), false);
        return Failure(out.value);
      }
      if !accepts(scope.session.pending, created.value) {
        var out := scope.Finish(Some(ValidationError), false);
        return Failure(out.value);
      }
      var out := scope.Finish(None, false);
      r := Success((created.value, row));
    }

    /** `update`: `None` and no change for an unknown id; otherwise the
        repository's update of the loaded row, read back with the id it has
        then. What the assignments raise, a flushed store that breaks a
        constraint, or a row the read schema rejects, fails the call and the
        scope rolls back. */
    method Update(id: Id, patch: P) returns (r: Result<Option<(Id, R)>, Raised>)
      requires Valid()
      modifies store
      ensures Valid()
      ensures id !in model.rows(old(store.db)).rows ==> r == Success(None) && store.db == old(store.db)
      ensures id in model.rows(old(store.db)).rows ==>
        var outcome := model.assign(old(store.db), id, patch);
        && (r.Success? <==> outcome.Success? && outcome.value.0.Constraints() && accepts(outcome.value.0, outcome.value.1))
        && (r.Success? ==>
              && store.db == outcome.value.0
              && outcome.value.1 in model.rows(outcome.value.0).rows
              && r.value == Some((outcome.value.1, model.rows(outcome.value.0).rows[outcome.value.1])))
        && (r.Failure? ==> store.db == old(store.db))
        && (r.Failure? ==> r.error == (if outcome.Failure? then outcome.error
                                       else if outcome.value.0.Constraints() then ValidationError
                                       else IntegrityError))
    {
      var uow := new UnitOfWork(store);
      uow.Enter();
      var scope := uow.scope;
      var repo := new Repository(scope.session, model);
      if id !in model.rows(scope.session.pending).rows {
        var out := scope.Finish(None, false);
        return Success(None);
      }
      var updated := repo.Update(id, patch);
      if updated.Failure? {
        var out := scope.Finish(Some(updated.error), false);
        return Failure(out.value);
      }
      if !accepts(scope.session.pending, updated.value.0) {
        var out := scope.Finish(Some(ValidationError), false);
        return Failure(out.value);
      }
      var out := scope.Finish(None, false);
      r := Success(Some(updated.value));
    }

    /** `delete`: `True` when a row had the id, which is then deleted with
        everything its foreign keys take along and committed; `False` and no
        change otherwise. */
    method Delete(id: Id) returns (r: Result<bool, Raised>)
      requires Valid()
      modifies store
      ensures Valid()
      ensures r == Success(id in model.rows(old(store.db)).rows)
      ensures store.db == if id in model.rows(old(store.db)).rows then model.purge(old(store.db), id) else old(store.db)
    {
      var uow := new UnitOfWork(store);
      uow.Enter();
      var scope := uow.scope;
      var repo := new Repository(scope.session, model);
      if id !in model.rows(scope.session.pending).rows {
        var out := scope.Finish(None, false);
        return Success(false);
      }
      var deleted := repo.Delete(id, false);
      var committed := scope.session.Commit(false);
      var out := scope.Finish(None, false);
      r := Success(true);
    }
  }
}
