/**
 * The abstract base every dashboard record extends: a row with an optional
 * deletion stamp. Deleting a row normally only stamps it ("soft delete");
 * restoring clears the stamp; a hard delete removes the row physically.
 *
 * One table of such rows is a `Table<T>`; a model instance is identified with
 * its row through the primary key, and saving an instance replaces that row.
 */
module SoftDeleteModel {
  import opened Wrappers

  /** Deletion stamps are opaque; the clock is a parameter of the operations that read it. */
  type Timestamp = nat

  datatype Row<T> = Row(id: nat, deletedAt: Option<Timestamp>, data: T) {

    /** `is_deleted`: the row carries a deletion stamp. */
    predicate IsDeleted() {
      deletedAt.Some?
    }
  }

  /** The row after `delete()`: stamped, and nothing else changed. */
  function SoftDeleted<T>(r: Row<T>, now: Timestamp): (d: Row<T>)
    ensures d.IsDeleted() && d.deletedAt == Some(now)
    ensures d.id == r.id && d.data == r.data
  {
    r.(deletedAt := Some(now))
  }

  /** The row after `restore()`: the stamp cleared, and nothing else changed. */
  function Restored<T>(r: Row<T>): (a: Row<T>)
    ensures !a.IsDeleted()
    ensures a.id == r.id && a.data == r.data
  {
    r.(deletedAt := None)
  }

  lemma RestoreUndoesDelete<T>(r: Row<T>, now: Timestamp)
    requires !r.IsDeleted()
    ensures Restored(SoftDeleted(r, now)) == r
    ensures SoftDeleted(Restored(SoftDeleted(r, now)), now) == SoftDeleted(r, now)
  {
  }

  /** The value of one table: its rows in storage order and the next primary key. */
  datatype TableState<T> = TableState(rows: seq<Row<T>>, nextId: nat)

  function Ids<T>(rows: seq<Row<T>>): set<nat> {
    set k | 0 <= k < |rows| :: rows[k].id
  }

  predicate UniqueIds<T>(rows: seq<Row<T>>) {
    forall i, j | 0 <= i < |rows| && 0 <= j < |rows| && rows[i].id == rows[j].id :: i == j
  }

  /** Primary keys are unique and every key in use is below the next one handed out. */
  predicate WellFormed<T>(t: TableState<T>) {
    && UniqueIds(t.rows)
    && forall k | 0 <= k < |t.rows| :: t.rows[k].id < t.nextId
  }

  lemma IdsCons<T>(rows: seq<Row<T>>)
    requires rows != []
    ensures Ids(rows) == {rows[0].id} + Ids(rows[1..])
  {
    forall x | x in Ids(rows) ensures x in {rows[0].id} + Ids(rows[1..]) {
      var k :| 0 <= k < |rows| && rows[k].id == x;
      if k > 0 { assert rows[1..][k - 1] == rows[k]; }
    }
    forall x | x in Ids(rows[1..]) ensures x in Ids(rows) {
      var k :| 0 <= k < |rows[1..]| && rows[1..][k].id == x;
      assert rows[k + 1].id == x;
    }
  }

  /** The position of the row with primary key `id`. */
  function IndexOfId<T>(rows: seq<Row<T>>, id: nat): (r: Option<nat>)
    ensures r.Some? ==> r.value < |rows| && rows[r.value].id == id
    ensures r.None? <==> id !in Ids(rows)
  {
    if rows == [] then None
    else
      IdsCons(rows);
      if rows[0].id == id then Some(0)
      else match IndexOfId(rows[1..], id)
        case None => None
        case Some(k) => Some(k + 1)
  }

  /** The rows left once the row with primary key `id` is removed, in storage order. */
  function WithoutId<T>(rows: seq<Row<T>>, id: nat): (r: seq<Row<T>>)
    ensures |r| <= |rows|
    ensures Ids(r) == Ids(rows) - {id}
    ensures forall k | 0 <= k < |r| :: r[k] in rows && r[k].id != id
    ensures forall k | 0 <= k < |rows| && rows[k].id != id :: rows[k] in r
  {
    if rows == [] then []
    else
      IdsCons(rows);
      var rest := WithoutId(rows[1..], id);
      if rows[0].id == id then rest
      else
        IdsCons([rows[0]] + rest);
        assert ([rows[0]] + rest)[1..] == rest;
        [rows[0]] + rest
  }

  lemma WithoutIdKeepsWellFormed<T>(t: TableState<T>, id: nat)
    requires WellFormed(t)
    ensures WellFormed(TableState(WithoutId(t.rows, id), t.nextId))
  {
    WithoutIdKeepsUniqueIds(t.rows, id);
  }

  lemma UniqueIdsTail<T>(rows: seq<Row<T>>)
    requires rows != [] && UniqueIds(rows)
    ensures UniqueIds(rows[1..])
    ensures rows[0].id !in Ids(rows[1..])
  {
    forall a, b | 0 <= a < |rows[1..]| && 0 <= b < |rows[1..]| && rows[1..][a].id == rows[1..][b].id
      ensures a == b
    {
      assert rows[a + 1].id == rows[b + 1].id;
    }
  }

  lemma UniqueIdsCons<T>(x: Row<T>, rows: seq<Row<T>>)
    requires UniqueIds(rows) && x.id !in Ids(rows)
    ensures UniqueIds([x] + rows)
  {
    var r := [x] + rows;
    forall a, b | 0 <= a < |r| && 0 <= b < |r| && r[a].id == r[b].id ensures a == b {
      if a > 0 && b > 0 {
        assert r[a] == rows[a - 1] && r[b] == rows[b - 1];
      } else if a > 0 {
        assert r[a] == rows[a - 1];
      }
    }
  }

  /** Removing the rows with one key keeps the other keys unique. */
  lemma {:induction false} WithoutIdKeepsUniqueIds<T>(rows: seq<Row<T>>, id: nat)
    requires UniqueIds(rows)
    ensures UniqueIds(WithoutId(rows, id))
  {
    if rows != [] {
      UniqueIdsTail(rows);
      WithoutIdKeepsUniqueIds(rows[1..], id);
      if rows[0].id != id {
        UniqueIdsCons(rows[0], WithoutId(rows[1..], id));
      }
    }
  }

  /**
   * One table of a soft-deletable model. `rows` holds every row, deleted or
   * not (what the catch-all manager sees); `nextId` is the next primary key.
   */
  class Table<T> {
    var rows: seq<Row<T>>
    var nextId: nat

    ghost predicate Valid()
      reads this
    {
      WellFormed(State())
    }

    function State(): TableState<T>
      reads this
    {
      TableState(rows, nextId)
    }

    constructor Empty()
      ensures Valid() && rows == [] && nextId == 1
    {
      rows := [];
      nextId := 1;
    }

    /** Inserting a new instance: a fresh primary key and no deletion stamp. */
    method Create(data: T) returns (id: nat)
      requires Valid()
      modifies this
      ensures Valid()
      ensures id == old(nextId) && id !in Ids(old(rows))
      ensures rows == old(rows) + [Row(id, None, data)] && nextId == old(nextId) + 1
    {
      id := nextId;
      rows := rows + [Row(id, None, data)];
      nextId := nextId + 1;
    }

    /**
     * Saving changed fields of the instance with primary key `id`. Saving with
     * `update_fields` fails when no row has that key; `ok` reports it.
     */
    method Save(id: nat, data: T) returns (ok: bool)
      requires Valid()
      modifies this
      ensures Valid() && nextId == old(nextId)
      ensures ok <==> id in Ids(old(rows))
      ensures ok ==> var k := IndexOfId(old(rows), id).value;
        rows == old(rows)[k := old(rows)[k].(data := data)]
      ensures !ok ==> rows == old(rows)
    {
      var k := IndexOfId(rows, id);
      ok := k.Some?;
      if ok {
        rows := rows[k.value := rows[k.value].(data := data)];
      }
    }

    /** `delete()` on an instance: a soft delete that stamps the row and saves only the stamp. */
    method Delete(id: nat, now: Timestamp) returns (ok: bool)
      requires Valid()
      modifies this
      ensures Valid() && nextId == old(nextId)
      ensures ok <==> id in Ids(old(rows))
      ensures ok ==> var k := IndexOfId(old(rows), id).value;
        rows == old(rows)[k := SoftDeleted(old(rows)[k], now)]
      ensures !ok ==> rows == old(rows)
    {
      var k := IndexOfId(rows, id);
      ok := k.Some?;
      if ok {
        rows := rows[k.value := SoftDeleted(rows[k.value], now)];
      }
    }

    /** `restore()` on an instance: clears the stamp and saves only the stamp. */
    method Restore(id: nat) returns (ok: bool)
      requires Valid()
      modifies this
      ensures Valid() && nextId == old(nextId)
      ensures ok <==> id in Ids(old(rows))
      ensures ok ==> var k := IndexOfId(old(rows), id).value;
        rows == old(rows)[k := Restored(old(rows)[k])]
      ensures !ok ==> rows == old(rows)
    {
      var k := IndexOfId(rows, id);
      ok := k.Some?;
      if ok {
        rows := rows[k.value := Restored(rows[k.value])];
      }
    }

    /**
     * `hard_delete()` on an instance of a model nothing else references: the
     * row is removed; `n` is the number of rows removed.
     */
    method HardDelete(id: nat) returns (n: nat)
      requires Valid()
      modifies this
      ensures Valid() && nextId == old(nextId)
      ensures rows == WithoutId(old(rows), id)
      ensures Ids(rows) == Ids(old(rows)) - {id}
      ensures n == if id in Ids(old(rows)) then 1 else 0
    {
      n := if id in Ids(rows) then 1 else 0;
      WithoutIdKeepsWellFormed(State(), id);
      rows := WithoutId(rows, id);
    }
  }
}
