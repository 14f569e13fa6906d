/** The borrowing store: rows keyed by a generated id, with the derived
    `findBy...` queries the service calls. */
module Persistence {
  import opened Wrappers
  import opened Exceptions
  import opened BorrowingEntity
  import opened Seqs

  /** The message of the exception a failed commit raises. */
  const COMMIT_FAILURE_MESSAGE := "Could not commit JPA transaction"

  /** Every row carries an id, and the ids strictly increase along the
      sequence: the store's order is ascending id order. */
  predicate Ascending(rows: seq<Entity>) {
    && (forall i :: 0 <= i < |rows| ==> rows[i].id.Some?)
    && (forall i, j :: 0 <= i < j < |rows| ==> rows[i].id.value < rows[j].id.value)
  }

  /** In an ascending sequence an id identifies at most one row. */
  lemma AscendingUnique(rows: seq<Entity>, x: Entity, y: Entity)
    requires Ascending(rows) && x in rows && y in rows && x.id == y.id
    ensures x == y
  {
    var i :| 0 <= i < |rows| && rows[i] == x;
    var j :| 0 <= j < |rows| && rows[j] == y;
    assert i == j;
  }

  /** Dropping rows keeps the remaining ones in ascending order. */
  lemma {:induction false} SelectAscending(rows: seq<Entity>, keep: Entity -> bool)
    requires Ascending(rows)
    ensures Ascending(Select(rows, keep))
  {
    if rows != [] {
      var tail := rows[1..];
      assert Ascending(tail);
      SelectAscending(tail, keep);
      forall x | x in Select(tail, keep) ensures rows[0].id.value < x.id.value {
        var j :| 0 <= j < |tail| && tail[j] == x;
        assert rows[j + 1] == x;
      }
    }
  }

  /** The position of the row with the given id, or -1 when there is none. */
  function IndexOf(rows: seq<Entity>, id: int): (i: int)
    ensures -1 <= i < |rows|
    ensures 0 <= i ==> rows[i].id == Some(id)
    ensures i < 0 ==> forall x :: x in rows ==> x.id != Some(id)
  {
    if rows == [] then -1
    else if rows[0].id == Some(id) then 0
    else
      var k := IndexOf(rows[1..], id);
      assert forall x :: x in rows ==> x == rows[0] || x in rows[1..];
      if k < 0 then -1 else k + 1
  }

  /** The rows without the one whose id is `id`. */
  function RemoveId(rows: seq<Entity>, id: int): (r: seq<Entity>)
    requires Ascending(rows)
    ensures Ascending(r)
    ensures forall x :: x in r <==> x in rows && x.id != Some(id)
  {
    SelectAscending(rows, (x: Entity) => x.id != Some(id));
    Select(rows, (x: Entity) => x.id != Some(id))
  }

  /** Replacing one row of an ascending sequence by a row with the same id. */
  lemma ReplaceMembers(rows: seq<Entity>, i: int, e: Entity)
    requires Ascending(rows) && 0 <= i < |rows| && e.id == rows[i].id
    ensures Ascending(rows[i := e])
    ensures forall x :: x in rows[i := e] <==> x == e || (x in rows && x.id != e.id)
  {
    var r := rows[i := e];
    assert r[i] == e;
    forall x ensures x in r <==> x == e || (x in rows && x.id != e.id) {
      if x in r && x != e {
        var k :| 0 <= k < |r| && r[k] == x;
        assert k != i && rows[k] == x;
        AscendingIdDistinct(rows, k, i);
      }
      if x in rows && x.id != e.id {
        var k :| 0 <= k < |rows| && rows[k] == x;
        assert k != i && r[k] == x;
      }
    }
  }

  lemma AscendingIdDistinct(rows: seq<Entity>, k: int, i: int)
    requires Ascending(rows) && 0 <= k < |rows| && 0 <= i < |rows| && k != i
    ensures rows[k].id != rows[i].id
  {
  }

  /** The row stored under `id`, if any. */
  function Lookup(rows: seq<Entity>, id: int): (r: Option<Entity>)
    requires Ascending(rows)
    ensures forall x :: r == Some(x) <==> x in rows && x.id == Some(id)
  {
    var i := IndexOf(rows, id);
    if i < 0 then None
    else
      assert forall x :: x in rows && x.id == Some(id) ==> x == rows[i] by {
        forall x | x in rows && x.id == Some(id) ensures x == rows[i] {
          AscendingUnique(rows, x, rows[i]);
        }
      }
      Some(rows[i])
  }

  /** Appending a row whose id exceeds every stored id keeps the order. */
  lemma AppendAscending(rows: seq<Entity>, e: Entity, bound: int)
    requires Ascending(rows) && e.id == Some(bound)
    requires forall i :: 0 <= i < |rows| ==> rows[i].id.value < bound
    ensures Ascending(rows + [e])
    ensures forall x :: x in rows + [e] <==> x in rows || x == e
  {
  }

  /** After appending, the appended row is found under its id and every other
      id finds what it found before. */
  lemma LookupAppend(rows: seq<Entity>, e: Entity, k: int)
    requires Ascending(rows) && Ascending(rows + [e])
    ensures Lookup(rows + [e], k) == if e.id == Some(k) then Some(e) else Lookup(rows, k)
  {
    assert forall x :: x in rows + [e] <==> x in rows || x == e;
    if e.id == Some(k) {
      assert e in rows + [e];
    } else if Lookup(rows, k).Some? {
      assert Lookup(rows, k).value in rows + [e];
    }
  }

  /** After replacing a row by one with the same id, the new row is found under
      that id and every other id finds what it found before. */
  lemma LookupReplace(rows: seq<Entity>, i: int, e: Entity, k: int)
    requires Ascending(rows) && 0 <= i < |rows| && e.id == rows[i].id
    ensures Ascending(rows[i := e])
    ensures Lookup(rows[i := e], k) == if e.id == Some(k) then Some(e) else Lookup(rows, k)
  {
    ReplaceMembers(rows, i, e);
    if e.id == Some(k) {
      assert e in rows[i := e];
    } else if Lookup(rows, k).Some? {
      assert Lookup(rows, k).value in rows[i := e];
    }
  }

  /** After removing an id, it finds nothing and every other id finds what it
      found before. */
  lemma LookupRemove(rows: seq<Entity>, id: int, k: int)
    requires Ascending(rows)
    ensures Lookup(RemoveId(rows, id), k) == if k == id then None else Lookup(rows, k)
  {
    if k != id && Lookup(rows, k).Some? {
      assert Lookup(rows, k).value in RemoveId(rows, id);
    }
  }

  class BorrowingRepository {
    /** The stored rows, in the order the store returns them. */
    var rows: seq<Entity>
    /** The next value of the identity column. */
    var nextId: int

    /** Ids are present, unique, ascending and below the next generated one;
        every row passed bean validation when it was saved, so the constraints
        that do not depend on the date still hold. */
    ghost predicate Valid()
      reads this
    {
      && Ascending(rows)
      && (forall i :: 0 <= i < |rows| ==> rows[i].id.value < nextId)
      && (forall i :: 0 <= i < |rows| ==> Persistable(rows[i]))
    }

    constructor ()
      ensures Valid() && rows == [] && nextId == 1
    {
      rows := [];
      nextId := 1;
    }

    /** `findById`: the row stored under `id`, if there is one. */
    function FindById(id: int): (r: Option<Entity>)
      reads this
      requires Valid()
      ensures forall x :: r == Some(x) <==> x in rows && x.id == Some(id)
    {
      Lookup(rows, id)
    }

    /** `findByUserId`: the rows of the user, in store order. A null user
        matches no stored row. */
    function FindByUserId(userId: Option<int>): (r: seq<Entity>)
      reads this
      requires Valid()
      ensures Ascending(r)
      ensures forall x :: x in r <==> x in rows && x.userId == userId
    {
      SelectAscending(rows, (x: Entity) => x.userId == userId);
      Select(rows, (x: Entity) => x.userId == userId)
    }

    /** `findByUserIdAndActiveTrue`: the user's active rows, in store order. */
    function FindByUserIdAndActiveTrue(userId: Option<int>): (r: seq<Entity>)
      reads this
      requires Valid()
      ensures Ascending(r)
      ensures forall x :: x in r <==> x in rows && x.userId == userId && x.active
    {
      SelectAscending(rows, (x: Entity) => x.userId == userId && x.active);
      Select(rows, (x: Entity) => x.userId == userId && x.active)
    }

    /** `findByUserIdAndActiveFalse`: the user's inactive rows, in store order. */
    function FindByUserIdAndActiveFalse(userId: Option<int>): (r: seq<Entity>)
      reads this
      requires Valid()
      ensures Ascending(r)
      ensures forall x :: x in r <==> x in rows && x.userId == userId && !x.active
    {
      SelectAscending(rows, (x: Entity) => x.userId == userId && !x.active);
      Select(rows, (x: Entity) => x.userId == userId && !x.active)
    }

    /** `findByBookUnitId`: the rows of the book unit, in store order. */
    function FindByBookUnitId(bookUnitId: Option<int>): (r: seq<Entity>)
      reads this
      requires Valid()
      ensures Ascending(r)
      ensures forall x :: x in r <==> x in rows && x.bookUnitId == bookUnitId
    {
      SelectAscending(rows, (x: Entity) => x.bookUnitId == bookUnitId);
      Select(rows, (x: Entity) => x.bookUnitId == bookUnitId)
    }

    /** `findByEndDateBeforeAndActiveFalse`: the inactive rows that ended
        strictly before `date`, in store order. */
    function FindByEndDateBeforeAndActiveFalse(date: Date): (r: seq<Entity>)
      reads this
      requires Valid()
      ensures Ascending(r)
      ensures forall x :: x in r <==> x in rows && EndedBeforeInactive(x, date)
    {
      SelectAscending(rows, (x: Entity) => EndedBeforeInactive(x, date));
      Select(rows, (x: Entity) => EndedBeforeInactive(x, date))
    }

    /** `save`: a row whose id is stored replaces that row in place; any
        other row (no id, or an id the store does not hold) is inserted at the
        end under a newly generated id. Bean validation runs when the row is
        written: an insert is written, and so checked, inside `save`, which
        then fails with the violations; an update is written only when the
        transaction commits, so the commit fails with the violations. Either
        way nothing changes. */
    method Save(e: Entity, today: Date) returns (r: Result<Entity, Exception>)
      requires Valid()
      modifies this
      ensures Valid()
      ensures !IsValid(e, today) && (e.id.None? || old(FindById(e.id.value)).None?) ==>
        r == Failure(ConstraintViolation(Violations(e, today)))
        && rows == old(rows) && nextId == old(nextId)
      ensures !IsValid(e, today) && e.id.Some? && old(FindById(e.id.value)).Some? ==>
        r == Failure(TransactionSystem(Some(COMMIT_FAILURE_MESSAGE), Violations(e, today)))
        && rows == old(rows) && nextId == old(nextId)
      ensures IsValid(e, today) && e.id.Some? && old(FindById(e.id.value)).Some? ==>
        r == Success(e) && nextId == old(nextId)
        && rows == old(rows)[IndexOf(old(rows), e.id.value) := e]
      ensures IsValid(e, today) && (e.id.None? || old(FindById(e.id.value)).None?) ==>
        r == Success(e.(id := Some(old(nextId))))
        && rows == old(rows) + [r.value] && nextId == old(nextId) + 1
      ensures r.Success? ==> r.value.id.Some? && FindById(r.value.id.value) == Some(r.value)
      ensures r.Success? ==> forall k :: Some(k) != r.value.id ==> FindById(k) == old(FindById(k))
    {
      var i := if e.id.Some? then IndexOf(rows, e.id.value) else -1;
      if !IsValid(e, today) {
        if 0 <= i {
          return Failure(TransactionSystem(Some(COMMIT_FAILURE_MESSAGE), Violations(e, today)));
        }
        return Failure(ConstraintViolation(Violations(e, today)));
      }
      if 0 <= i {
        Overwrite(i, e);
        r := Success(e);
      } else {
        var saved := Append(e);
        r := Success(saved);
      }
    }

    /** The update branch of `save`: the row at position `i` is replaced by a
        row with the same id. */
    method Overwrite(i: int, e: Entity)
      requires Valid() && 0 <= i < |rows| && e.id == rows[i].id && Persistable(e)
      modifies this
      ensures Valid() && nextId == old(nextId) && rows == old(rows)[i := e]
      ensures forall k :: FindById(k) == if e.id == Some(k) then Some(e) else old(FindById(k))
    {
      ghost var before := rows;
      forall k ensures Lookup(before[i := e], k) == if e.id == Some(k) then Some(e) else Lookup(before, k) {
        LookupReplace(before, i, e, k);
      }
      rows := rows[i := e];
    }

    /** The insert branch of `save`: the row is appended under the next
        generated id. */
    method Append(e: Entity) returns (saved: Entity)
      requires Valid() && Persistable(e)
      modifies this
      ensures saved == e.(id := Some(old(nextId)))
      ensures Valid() && rows == old(rows) + [saved] && nextId == old(nextId) + 1
      ensures forall k :: FindById(k) == if saved.id == Some(k) then Some(saved) else old(FindById(k))
    {
      ghost var before := rows;
      saved := e.(id := Some(nextId));
      AppendAscending(before, saved, nextId);
      forall k ensures Lookup(before + [saved], k) == if saved.id == Some(k) then Some(saved) else Lookup(before, k) {
        LookupAppend(before, saved, k);
      }
      rows := rows + [saved];
      nextId := nextId + 1;
    }

    /** `delete`: a row without an id is ignored (it counts as new); otherwise
        the row stored under its id, if any, is removed and no other row changes. */
    method Delete(e: Entity)
      requires Valid()
      modifies this
      ensures Valid() && nextId == old(nextId)
      ensures e.id.None? ==> rows == old(rows)
      ensures e.id.Some? ==> rows == RemoveId(old(rows), e.id.value)
      ensures e.id.Some? ==> FindById(e.id.value) == None
      ensures forall k :: Some(k) != e.id ==> FindById(k) == old(FindById(k))
    {
      if e.id.Some? {
        ghost var before := rows;
        forall k ensures Lookup(RemoveId(before, e.id.value), k) == if k == e.id.value then None else Lookup(before, k) {
          LookupRemove(before, e.id.value, k);
        }
        rows := RemoveId(rows, e.id.value);
      }
    }

    /** `deleteById`: the row stored under `id`, if any, is removed and no
        other row changes. */
    method DeleteById(id: int)
      requires Valid()
      modifies this
      ensures Valid() && nextId == old(nextId)
      ensures rows == RemoveId(old(rows), id)
      ensures FindById(id) == None
      ensures forall k :: k != id ==> FindById(k) == old(FindById(k))
    {
      ghost var before := rows;
      forall k ensures Lookup(RemoveId(before, id), k) == if k == id then None else Lookup(before, k) {
        LookupRemove(before, id, k);
      }
      rows := RemoveId(rows, id);
    }
  }

  /** The retention query's condition: inactive, and ended strictly before
      `date` (a missing end date compares as unknown and never matches). */
  predicate EndedBeforeInactive(x: Entity, date: Date) {
    !x.active && x.endDate.Some? && x.endDate.value < date
  }
}
