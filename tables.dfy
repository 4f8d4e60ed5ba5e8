/** The generic part of the repository layer (`Repository[ModelType]` in
    repositories/base_repo.py): one table of rows keyed by a generated id, and
    the five CRUD operations on it. The table remembers the physical order of
    its rows, which is the order a `SELECT` without `ORDER BY` hands them back in
    this model. */
module Tables {
  import opened Wrappers

  type Id = nat

  datatype Table<R> = Table(order: seq<Id>, rows: map<Id, R>, nextId: Id) {
    /** Every id is listed once in `order`, the listed ids are exactly the keys,
        and the id sequence has not yet handed out any id at or above `nextId`. */
    ghost predicate Valid() {
      && Distinct(order)
      && (forall k :: k in rows <==> k in order)
      && (forall k :: k in rows ==> k < nextId)
    }
  }

  /** No element occurs twice. */
  ghost predicate Distinct<T>(s: seq<T>) {
    forall i, j :: 0 <= i < j < |s| ==> s[i] != s[j]
  }

  lemma DistinctCons<T>(x: T, s: seq<T>)
    requires Distinct(s) && x !in s
    ensures Distinct([x] + s)
  {
    var r := [x] + s;
    forall i, j | 0 <= i < j < |r| ensures r[i] != r[j] {
      if i > 0 {
        assert r[i] == s[i - 1] && r[j] == s[j - 1];
      } else {
        assert r[j] == s[j - 1];
      }
    }
  }

  lemma DistinctSnoc<T>(s: seq<T>, x: T)
    requires Distinct(s) && x !in s
    ensures Distinct(s + [x])
  {
    var r := s + [x];
    forall i, j | 0 <= i < j < |r| ensures r[i] != r[j] {
      if j < |s| {
        assert r[i] == s[i] && r[j] == s[j];
      } else {
        assert r[i] == s[i];
      }
    }
  }

  /** Two lists together repeat nothing exactly when neither does and they
      share no element. */
  lemma DistinctConcat<T>(a: seq<T>, b: seq<T>)
    ensures Distinct(a + b) <==> Distinct(a) && Distinct(b) && forall x :: x in a ==> x !in b
  {
    var r := a + b;
    if Distinct(r) {
      forall i, j | 0 <= i < j < |a| ensures a[i] != a[j] {
        assert r[i] == a[i] && r[j] == a[j];
      }
      forall i, j | 0 <= i < j < |b| ensures b[i] != b[j] {
        assert r[|a| + i] == b[i] && r[|a| + j] == b[j];
      }
      forall x | x in a ensures x !in b {
        var i :| 0 <= i < |a| && a[i] == x;
        forall j | 0 <= j < |b| ensures b[j] != x {
          assert r[i] == a[i] && r[|a| + j] == b[j];
        }
      }
    }
    if Distinct(a) && Distinct(b) && forall x :: x in a ==> x !in b {
      forall i, j | 0 <= i < j < |r| ensures r[i] != r[j] {
        if j < |a| {
          assert r[i] == a[i] && r[j] == a[j];
        } else if i < |a| {
          assert r[i] == a[i] && r[j] == b[j - |a|];
          assert a[i] in a && b[j - |a|] in b;
        } else {
          assert r[i] == b[i - |a|] && r[j] == b[j - |a|];
        }
      }
    }
  }

  lemma DistinctTail<T>(s: seq<T>)
    requires Distinct(s) && s != []
    ensures Distinct(s[1..])
  {
    forall i, j | 0 <= i < j < |s| - 1 ensures s[1..][i] != s[1..][j] {
      assert s[1..][i] == s[i + 1] && s[1..][j] == s[j + 1];
    }
  }

  lemma DistinctHead<T>(s: seq<T>)
    requires Distinct(s) && s != []
    ensures s[0] !in s[1..]
  {
    forall j | 0 <= j < |s| - 1 ensures s[1..][j] != s[0] {
      assert s[1..][j] == s[j + 1];
    }
  }

  /** A freshly created table; ids start at 1, as a `BIGSERIAL` column does. */
  function Empty<R>(): (t: Table<R>)
    ensures t.Valid() && t.rows == map[]
  {
    Table([], map[], 1)
  }

  /** One attribute of a partial update: left out of the request (`exclude_unset`)
      or set to a value. */
  datatype Field<T> = Unset | Set(value: T)

  /** `setattr(obj, key, value)` for a key that is present; nothing for one that is not. */
  function Merge<T>(current: T, f: Field<T>): (r: T)
    ensures f.Set? ==> r == f.value
    ensures f.Unset? ==> r == current
  {
    match f
    case Unset => current
    case Set(v) => v
  }

  /** OFFSET `offset` LIMIT `limit` applied to a result list. */
  function Page<T>(s: seq<T>, offset: nat, limit: nat): (p: seq<T>)
    ensures |p| <= limit
    ensures |p| == if offset >= |s| then 0 else Min(limit, |s| - offset)
    ensures forall i :: 0 <= i < |p| ==> p[i] == s[offset + i]
  {
    if offset >= |s| then [] else s[offset..Min(|s|, offset + limit)]
  }

  function Min(a: int, b: int): int {
    if a <= b then a else b
  }

  /** Two consecutive pages together are the page that spans both. */
  lemma PagesConcatenate<T>(s: seq<T>, offset: nat, a: nat, b: nat)
    ensures Page(s, offset, a) + Page(s, offset + a, b) == Page(s, offset, a + b)
  {
    var left, right, whole := Page(s, offset, a), Page(s, offset + a, b), Page(s, offset, a + b);
    assert |left| + |right| == |whole|;
    forall i | 0 <= i < |whole| ensures (left + right)[i] == whole[i] {
      if i >= |left| {
        assert (left + right)[i] == right[i - |left|] == s[offset + a + (i - |left|)];
      }
    }
  }

  /** The ids of `s` that are not in `doomed`, in their order. */
  function Without(s: seq<Id>, doomed: set<Id>): (r: seq<Id>)
    ensures forall x :: x in r <==> x in s && x !in doomed
    ensures |r| <= |s|
  {
    if s == [] then []
    else if s[0] in doomed then Without(s[1..], doomed)
    else [s[0]] + Without(s[1..], doomed)
  }

  lemma {:induction false} WithoutDistinct(s: seq<Id>, doomed: set<Id>)
    ensures Distinct(s) ==> Distinct(Without(s, doomed))
  {
    if s != [] && Distinct(s) {
      DistinctTail(s);
      WithoutDistinct(s[1..], doomed);
      if s[0] !in doomed {
        DistinctHead(s);
        DistinctCons(s[0], Without(s[1..], doomed));
      }
    }
  }

  /** `INSERT ... RETURNING`: the row gets the next id of the sequence and is
      placed after every existing row. */
  function Create<R>(t: Table<R>, r: R): (res: (Table<R>, Id))
    ensures t.Valid() ==> res.0.Valid() && res.1 !in t.rows
    ensures res.0.rows == t.rows[res.1 := r] && res.0.order == t.order + [res.1]
  {
    FreshIdIsNew(t);
    (Table(t.order + [t.nextId], t.rows[t.nextId := r], t.nextId + 1), t.nextId)
  }

  lemma FreshIdIsNew<R>(t: Table<R>)
    ensures t.Valid() ==> t.nextId !in t.order && Distinct(t.order + [t.nextId])
  {
    if t.Valid() {
      assert t.nextId !in t.order;
      DistinctSnoc(t.order, t.nextId);
    }
  }

  /** `SELECT ... WHERE id = :id`, first row or `None`. */
  function Get<R>(t: Table<R>, id: Id): Option<R> {
    if id in t.rows then Some(t.rows[id]) else None
  }

  /** `SELECT ... OFFSET :offset LIMIT :limit`, no ordering imposed. */
  function FindAll<R>(t: Table<R>, offset: nat, limit: nat): (rs: seq<(Id, R)>)
    requires t.Valid()
    ensures |rs| <= limit
    ensures |rs| == if offset >= |t.order| then 0 else Min(limit, |t.order| - offset)
    ensures forall i :: 0 <= i < |rs| ==> offset + i < |t.order| && rs[i] == (t.order[offset + i], t.rows[t.order[offset + i]])
  {
    var ids := Page(t.order, offset, limit);
    seq(|ids|, i requires 0 <= i < |ids| => (ids[i], t.rows[ids[i]]))
  }

  /** The merged object written back by the flush; the row keeps its id and place. */
  function Update<R>(t: Table<R>, id: Id, r: R): (u: Table<R>)
    requires id in t.rows
    ensures t.Valid() ==> u.Valid()
    ensures u.order == t.order && u.rows == t.rows[id := r]
  {
    t.(rows := t.rows[id := r])
  }

  /** The flush of a changed primary key: the row `id` is stored under
      `newId`, with the columns `r`, after every other row. The sequence
      counter is moved past `newId`. */
  function Rekey<R>(t: Table<R>, id: Id, newId: Id, r: R): (u: Table<R>)
    requires newId !in t.rows
    ensures t.Valid() ==> u.Valid()
    ensures forall k :: k in u.rows <==> k == newId || (k in t.rows && k != id)
    ensures u.rows[newId] == r
    ensures forall k :: k in t.rows && k != id ==> u.rows[k] == t.rows[k]
  {
    var rest := Delete(t, id);
    AppendedKeyDistinct(rest, newId);
    Table(rest.order + [newId], rest.rows[newId := r], if newId < t.nextId then t.nextId else newId + 1)
  }

  lemma AppendedKeyDistinct<R>(t: Table<R>, k: Id)
    ensures t.Valid() && k !in t.rows ==> Distinct(t.order + [k])
  {
    if t.Valid() && k !in t.rows {
      DistinctSnoc(t.order, k);
    }
  }

  /** `DELETE ... WHERE id IN doomed`. */
  function DeleteAll<R>(t: Table<R>, doomed: set<Id>): (u: Table<R>)
    ensures t.Valid() ==> u.Valid()
    ensures u.nextId == t.nextId
    ensures forall k :: k in u.rows <==> k in t.rows && k !in doomed
    ensures forall k :: k in u.rows ==> u.rows[k] == t.rows[k]
  {
    WithoutDistinct(t.order, doomed);
    Table(Without(t.order, doomed), map k | k in t.rows && k !in doomed :: t.rows[k], t.nextId)
  }

  /** `DELETE ... WHERE id = :id`, whether or not a row matches. */
  function Delete<R>(t: Table<R>, id: Id): (u: Table<R>)
    ensures t.Valid() ==> u.Valid()
  {
    DeleteAll(t, {id})
  }

  // Properties of the CRUD operations taken together.

  /** `get` after `create` finds exactly the supplied row, and every earlier row
      is still found as it was. */
  lemma GetAfterCreate<R>(t: Table<R>, r: R, k: Id)
    ensures var (u, id) := Create(t, r);
            Get(u, id) == Some(r) && (k != id ==> Get(u, k) == Get(t, k))
  {
  }

  /** After `delete(id)` the id is absent, absence is `None` and not an error,
      and every other row is untouched. */
  lemma GetAfterDelete<R>(t: Table<R>, id: Id, k: Id)
    ensures Get(Delete(t, id), id) == None
    ensures k != id ==> Get(Delete(t, id), k) == Get(t, k)
  {
  }

  /** `update` changes the one row and no other. */
  lemma GetAfterUpdate<R>(t: Table<R>, id: Id, r: R, k: Id)
    requires t.Valid() && id in t.rows
    ensures Get(Update(t, id, r), id) == Some(r)
    ensures k != id ==> Get(Update(t, id, r), k) == Get(t, k)
  {
  }

  /** Deleting an id twice is the same as deleting it once. */
  lemma DeleteIdempotent<R>(t: Table<R>, id: Id)
    ensures Delete(Delete(t, id), id) == Delete(t, id)
  {
    var once := Delete(t, id);
    var twice := Delete(once, id);
    WithoutTwice(t.order, {id});
    assert twice.rows == once.rows;
  }

  lemma {:induction false} WithoutTwice(s: seq<Id>, doomed: set<Id>)
    ensures Without(Without(s, doomed), doomed) == Without(s, doomed)
  {
    if s != [] {
      WithoutTwice(s[1..], doomed);
      if s[0] !in doomed {
        var r := Without(s[1..], doomed);
        assert ([s[0]] + r)[1..] == r;
      }
    }
  }
}
