/**
 * The query sets and managers of the soft-delete base: filtered views that
 * split a table into alive and dead rows, the default manager that hides
 * deleted rows, the catch-all manager, and the bulk soft and hard deletes.
 */
module SoftDeleteManagers {
  import opened Wrappers
  import opened SoftDeleteModel

  predicate IsAlive<T>(r: Row<T>) {
    r.deletedAt.None?
  }

  predicate IsDead<T>(r: Row<T>) {
    r.deletedAt.Some?
  }

  /** A query set filtered by `p`, in storage order. */
  function Select<T(!new)>(q: seq<Row<T>>, p: Row<T> -> bool): (r: seq<Row<T>>)
    ensures |r| <= |q|
    ensures forall x :: x in r <==> x in q && p(x)
  {
    if q == [] then []
    else if p(q[0]) then [q[0]] + Select(q[1..], p)
    else Select(q[1..], p)
  }

  /** What remains of a query set once the rows `sel` picks are removed, in storage order. */
  function Remaining<T(!new)>(q: seq<Row<T>>, sel: Row<T> -> bool): (r: seq<Row<T>>)
    ensures |r| <= |q|
    ensures forall x :: x in r <==> x in q && !sel(x)
  {
    if q == [] then []
    else if sel(q[0]) then Remaining(q[1..], sel)
    else [q[0]] + Remaining(q[1..], sel)
  }

  /** `alive()`: the rows without a deletion stamp. */
  function Alive<T(!new)>(q: seq<Row<T>>): (r: seq<Row<T>>)
    ensures forall x :: x in r <==> x in q && !x.IsDeleted()
  {
    Select(q, IsAlive)
  }

  /** `dead()`: the rows with a deletion stamp. */
  function Dead<T(!new)>(q: seq<Row<T>>): (r: seq<Row<T>>)
    ensures forall x :: x in r <==> x in q && x.IsDeleted()
  {
    Select(q, IsDead)
  }

  /** Every row of a query set is in exactly one of `alive()` and `dead()`, counting duplicates. */
  lemma {:induction false} AliveDeadPartition<T(!new)>(q: seq<Row<T>>)
    ensures multiset(Alive(q)) + multiset(Dead(q)) == multiset(q)
    ensures multiset(Alive(q)) !! multiset(Dead(q))
    ensures |Alive(q)| + |Dead(q)| == |q|
  {
    if q != [] {
      AliveDeadPartition(q[1..]);
      assert q == [q[0]] + q[1..];
    }
  }

  /** Removing the alive rows leaves exactly the dead ones, in order. */
  lemma {:induction false} RemainingAfterAliveIsDead<T(!new)>(q: seq<Row<T>>)
    ensures Remaining(q, IsAlive) == Dead(q)
  {
    if q != [] {
      RemainingAfterAliveIsDead(q[1..]);
    }
  }

  /** The rows of a query set after `soft_delete()` stamped those `sel` picks. */
  function MarkDeleted<T(!new)>(q: seq<Row<T>>, sel: Row<T> -> bool, now: Timestamp): (r: seq<Row<T>>)
    ensures |r| == |q|
    ensures forall k | 0 <= k < |q| :: sel(q[k]) ==> r[k] == SoftDeleted(q[k], now)
    ensures forall k | 0 <= k < |q| :: !sel(q[k]) ==> r[k] == q[k]
  {
    seq(|q|, k requires 0 <= k < |q| => if sel(q[k]) then SoftDeleted(q[k], now) else q[k])
  }

  /**
   * After `soft_delete()`, every stamped row is dead, and the alive rows are
   * exactly the alive rows that were not picked.
   */
  lemma {:induction false} AliveAfterSoftDelete<T(!new)>(q: seq<Row<T>>, sel: Row<T> -> bool, now: Timestamp)
    ensures Alive(MarkDeleted(q, sel, now)) == Remaining(Alive(q), sel)
    ensures forall k | 0 <= k < |q| && sel(q[k]) :: MarkDeleted(q, sel, now)[k].IsDeleted()
  {
    if q != [] {
      AliveAfterSoftDelete(q[1..], sel, now);
      assert MarkDeleted(q, sel, now) == [MarkDeleted(q, sel, now)[0]] + MarkDeleted(q[1..], sel, now);
    }
  }

  /** `SoftDeleteManager.get_queryset()`: the default view, alive rows only. */
  function Objects<T(!new)>(t: Table<T>): (r: seq<Row<T>>)
    reads t
    ensures forall x :: x in r <==> x in t.rows && !x.IsDeleted()
  {
    Alive(t.rows)
  }

  /** `SoftDeleteManager.dead()`: the deleted rows, which the default view hides. */
  function ObjectsDead<T(!new)>(t: Table<T>): (r: seq<Row<T>>)
    reads t
    ensures forall x :: x in r <==> x in t.rows && x.IsDeleted()
    ensures forall x :: x in r ==> x !in Objects(t)
  {
    Dead(t.rows)
  }

  /** `AllObjectsManager.get_queryset()`: every row, deleted or not. */
  function AllObjects<T(!new)>(t: Table<T>): (r: seq<Row<T>>)
    reads t
    ensures multiset(r) == multiset(Objects(t)) + multiset(ObjectsDead(t))
  {
    AliveDeadPartition(t.rows);
    t.rows
  }

  /** `AllObjectsManager.alive()`. */
  function AllObjectsAlive<T(!new)>(t: Table<T>): (r: seq<Row<T>>)
    reads t
    ensures r == Objects(t)
  {
    Alive(AllObjects(t))
  }

  /** `AllObjectsManager.dead()`. */
  function AllObjectsDead<T(!new)>(t: Table<T>): (r: seq<Row<T>>)
    reads t
    ensures r == ObjectsDead(t)
  {
    Dead(AllObjects(t))
  }

  /**
   * `soft_delete()` on the query set of the rows `sel` picks: one update that
   * stamps every one of them, including rows already stamped; `n` is the
   * number of rows updated.
   */
  method SoftDelete<T(!new)>(t: Table<T>, sel: Row<T> -> bool, now: Timestamp) returns (n: nat)
    requires t.Valid()
    modifies t
    ensures t.Valid() && t.nextId == old(t.nextId)
    ensures t.rows == MarkDeleted(old(t.rows), sel, now)
    ensures n == |Select(old(t.rows), sel)|
  {
    n := |Select(t.rows, sel)|;
    var marked := MarkDeleted(t.rows, sel, now);
    assert forall k | 0 <= k < |marked| :: marked[k].id == t.rows[k].id;
    t.rows := marked;
  }

  /** `hard_delete()` on the query set of the rows `sel` picks: they are removed physically. */
  method HardDelete<T(!new)>(t: Table<T>, sel: Row<T> -> bool) returns (n: nat)
    requires t.Valid()
    modifies t
    ensures t.Valid() && t.nextId == old(t.nextId)
    ensures t.rows == Remaining(old(t.rows), sel)
    ensures n == |old(t.rows)| - |t.rows|
  {
    RemainingKeepsWellFormed(t.State(), sel);
    var left := Remaining(t.rows, sel);
    n := |t.rows| - |left|;
    t.rows := left;
  }

  /** `SoftDeleteManager.hard_delete()`: removes the alive rows and keeps the dead ones in place. */
  method ManagerHardDelete<T(!new)>(t: Table<T>) returns (n: nat)
    requires t.Valid()
    modifies t
    ensures t.Valid() && t.nextId == old(t.nextId)
    ensures t.rows == Dead(old(t.rows))
    ensures n == |Alive(old(t.rows))|
  {
    AliveDeadPartition(t.rows);
    RemainingAfterAliveIsDead(t.rows);
    n := HardDelete(t, IsAlive);
  }

  /** Removing rows keeps the remaining primary keys unique. */
  lemma {:induction false} RemainingKeepsUniqueIds<T(!new)>(rows: seq<Row<T>>, sel: Row<T> -> bool)
    requires UniqueIds(rows)
    ensures UniqueIds(Remaining(rows, sel))
    decreases |rows|
  {
    if rows != [] {
      var tail := rows[1..];
      assert UniqueIds(tail) by {
        forall i, j | 0 <= i < |tail| && 0 <= j < |tail| && tail[i].id == tail[j].id
          ensures i == j
        {
          assert rows[i + 1].id == rows[j + 1].id;
        }
      }
      RemainingKeepsUniqueIds(tail, sel);
      var r := Remaining(rows, sel);
      if !sel(rows[0]) {
        var rest := Remaining(tail, sel);
        forall k | 0 < k < |r| ensures r[k].id != rows[0].id {
          assert r[k] == rest[k - 1];
          assert rest[k - 1] in rest;
          assert r[k] in tail;
          var m :| 0 <= m < |tail| && tail[m] == r[k];
          assert rows[m + 1] == r[k];
        }
        forall i, j | 0 <= i < |r| && 0 <= j < |r| && r[i].id == r[j].id ensures i == j {
          if i > 0 && j > 0 {
            assert r[i] == rest[i - 1] && r[j] == rest[j - 1];
          }
        }
      }
    }
  }

  /** Removing rows keeps a table well formed, with the same next key. */
  lemma RemainingKeepsWellFormed<T(!new)>(t: TableState<T>, sel: Row<T> -> bool)
    requires WellFormed(t)
    ensures WellFormed(TableState(Remaining(t.rows, sel), t.nextId))
  {
    RemainingKeepsUniqueIds(t.rows, sel);
    var r := Remaining(t.rows, sel);
    forall k | 0 <= k < |r| ensures r[k].id < t.nextId {
      assert r[k] in t.rows;
    }
  }
}
