/**
  `DBSession`, the storage behind the `auth_session` cookie: a table of `(session_id, value)`
  rows with no unique index on `session_id`. `read` returns the value of the first row with the
  id and fails when there is none, `write` overwrites the first matching row or inserts one,
  and `invalidate` deletes every row with the id.
 */
module SessionStore {
  import opened Wrappers
  import opened Query

  datatype SessionRow = SessionRow(sessionId: string, value: string)

  /** `NoSuchElementException("Session $id not found")`. */
  datatype StoreError = SessionNotFound(id: string)

  function HasId(id: string): SessionRow -> bool
  {
    (row: SessionRow) => row.sessionId == id
  }

  /** What `read(id)` yields on a table: the value of the first row with the id. */
  function Lookup(rows: seq<SessionRow>, id: string): (r: Option<string>)
    ensures r.None? <==> forall k :: 0 <= k < |rows| ==> rows[k].sessionId != id
    ensures r.Some? ==> exists k :: 0 <= k < |rows| && rows[k] == SessionRow(id, r.value)
                                    && forall j :: 0 <= j < k ==> rows[j].sessionId != id
  {
    match FirstIndex(rows, HasId(id))
    case None => None
    case Some(k) => Some(rows[k].value)
  }

  /** The table after `write(id, value)`. */
  function Upserted(rows: seq<SessionRow>, id: string, value: string): (r: seq<SessionRow>)
    ensures |r| == |rows| + (if Lookup(rows, id).None? then 1 else 0)
  {
    match FirstIndex(rows, HasId(id))
    case None => rows + [SessionRow(id, value)]
    case Some(k) => rows[k := SessionRow(id, value)]
  }

  /** The table after `invalidate(id)`: `deleteWhere { sessionId eq id }`. */
  function Removed(rows: seq<SessionRow>, id: string): (r: seq<SessionRow>)
    ensures forall k :: 0 <= k < |r| ==> r[k].sessionId != id
    ensures forall k :: 0 <= k < |r| ==> r[k] in rows
  {
    if |rows| == 0 then []
    else (if rows[0].sessionId == id then [] else [rows[0]]) + Removed(rows[1..], id)
  }

  /** No two rows share a session id. The table has no unique index, so this holds only as long as rows get there through `write`. */
  ghost predicate OneRowPerId(rows: seq<SessionRow>)
  {
    forall i, j :: 0 <= i < j < |rows| ==> rows[i].sessionId != rows[j].sessionId
  }

  /** Round trip: after `write(id, value)`, `read(id)` yields `value`. */
  lemma UpsertedReadBack(rows: seq<SessionRow>, id: string, value: string)
    ensures Lookup(Upserted(rows, id, value), id) == Some(value)
  {
    var r := Upserted(rows, id, value);
    match FirstIndex(rows, HasId(id))
    case None =>
      assert r[|rows|] == SessionRow(id, value);
      assert FirstIndex(r, HasId(id)) == Some(|rows|);
    case Some(k) =>
      assert r[k] == SessionRow(id, value);
      assert FirstIndex(r, HasId(id)) == Some(k);
  }

  /** `write` on an id with no row inserts exactly the row `(id, value)` at the end. */
  lemma UpsertedInsertsWhenAbsent(rows: seq<SessionRow>, id: string, value: string)
    requires Lookup(rows, id).None?
    ensures Upserted(rows, id, value) == rows + [SessionRow(id, value)]
  {
    assert FirstIndex(rows, HasId(id)).None?;
  }

  /** `write` on an id that has a row changes only that row's value and adds no row. */
  lemma UpsertedOverwritesWhenPresent(rows: seq<SessionRow>, id: string, value: string)
    requires Lookup(rows, id).Some?
    ensures |Upserted(rows, id, value)| == |rows|
    ensures exists k :: 0 <= k < |rows| && rows[k].sessionId == id
                        && Upserted(rows, id, value) == rows[k := SessionRow(id, value)]
  {
    var k := FirstIndex(rows, HasId(id)).value;
    assert rows[k].sessionId == id;
  }

  /** `read` on a table, looking at its first row. */
  lemma LookupCons(rows: seq<SessionRow>, id: string)
    requires |rows| > 0
    ensures Lookup(rows, id) == if rows[0].sessionId == id then Some(rows[0].value) else Lookup(rows[1..], id)
  {
    if rows[0].sessionId != id {
      match FirstIndex(rows[1..], HasId(id))
      case None =>
      case Some(i) => assert rows[i + 1] == rows[1..][i];
    }
  }

  /** `write` leaves what `read` yields for every other id unchanged. */
  lemma UpsertedFrame(rows: seq<SessionRow>, id: string, value: string, other: string)
    requires other != id
    ensures Lookup(Upserted(rows, id, value), other) == Lookup(rows, other)
  {
    var r := Upserted(rows, id, value);
    match FirstIndex(rows, HasId(id))
    case None =>
      assert r == rows + [SessionRow(id, value)];
      FirstIndexAppendMiss(rows, SessionRow(id, value), HasId(other));
      assert forall i :: 0 <= i < |rows| ==> r[i] == rows[i];
    case Some(k) =>
      assert r == rows[k := SessionRow(id, value)];
      FirstIndexAgree(rows, r, HasId(other));
      assert forall i :: 0 <= i < |rows| && i != k ==> r[i] == rows[i];
  }

  /** After `invalidate(id)` no row has the id, so `read(id)` fails. */
  lemma RemovedReadFails(rows: seq<SessionRow>, id: string)
    ensures Lookup(Removed(rows, id), id).None?
  {
  }

  /** `invalidate(id)` is a no-op on a table without a row for the id. */
  lemma {:induction false} RemovedNoop(rows: seq<SessionRow>, id: string)
    requires forall k :: 0 <= k < |rows| ==> rows[k].sessionId != id
    ensures Removed(rows, id) == rows
  {
    if |rows| > 0 {
      RemovedNoop(rows[1..], id);
      assert rows == [rows[0]] + rows[1..];
    }
  }

  /** `invalidate(id)` keeps the rows of other ids, in order. */
  lemma {:induction false} RemovedKeepsOthers(rows: seq<SessionRow>, id: string, other: string)
    requires other != id
    ensures Lookup(Removed(rows, id), other) == Lookup(rows, other)
  {
    if |rows| > 0 {
      RemovedKeepsOthers(rows[1..], id, other);
      LookupCons(rows, other);
      var tail := Removed(rows[1..], id);
      if rows[0].sessionId != id {
        assert Removed(rows, id) == [rows[0]] + tail;
        LookupCons([rows[0]] + tail, other);
        assert ([rows[0]] + tail)[1..] == tail;
      } else {
        assert Removed(rows, id) == tail;
      }
    }
  }

  /** `write` keeps at most one row per session id. */
  lemma UpsertedKeepsOneRowPerId(rows: seq<SessionRow>, id: string, value: string)
    requires OneRowPerId(rows)
    ensures OneRowPerId(Upserted(rows, id, value))
  {
    var r := Upserted(rows, id, value);
    match FirstIndex(rows, HasId(id))
    case None =>
      assert forall i :: 0 <= i < |rows| ==> r[i] == rows[i];
    case Some(k) =>
      assert forall i :: 0 <= i < |rows| && i != k ==> r[i] == rows[i];
  }

  /** `invalidate` keeps at most one row per session id. */
  lemma {:induction false} RemovedKeepsOneRowPerId(rows: seq<SessionRow>, id: string)
    requires OneRowPerId(rows)
    ensures OneRowPerId(Removed(rows, id))
  {
    if |rows| > 0 {
      assert OneRowPerId(rows[1..]);
      RemovedKeepsOneRowPerId(rows[1..], id);
      var tail := Removed(rows[1..], id);
      if rows[0].sessionId != id {
        forall k | 0 <= k < |tail| ensures tail[k].sessionId != rows[0].sessionId {
          assert tail[k] in rows[1..];
        }
      }
    }
  }

  /** The session table (`SessionTable` through `DBSession`). */
  class DbSession {
    var rows: seq<SessionRow>

    constructor ()
      ensures rows == []
    {
      rows := [];
    }

    /** `invalidate(id)`: one delete statement. */
    method Invalidate(id: string)
      modifies this
      ensures rows == Removed(old(rows), id)
      ensures Lookup(rows, id).None?
    {
      rows := Removed(rows, id);
      RemovedReadFails(old(rows), id);
    }

    /** `read(id)`: the first matching row's value, or the exception. */
    method Read(id: string) returns (r: Result<string, StoreError>)
      ensures r.Failure? <==> forall k :: 0 <= k < |rows| ==> rows[k].sessionId != id
      ensures r.Failure? ==> r.error == SessionNotFound(id)
      ensures r.Success? ==> Lookup(rows, id) == Some(r.value)
    {
      var found := FirstIndex(rows, HasId(id));
      if found.None? {
        return Failure(SessionNotFound(id));
      }
      return Success(rows[found.value].value);
    }

    /** `write(id, value)`: look up the first matching row, then update it or insert a new one. */
    method Write(id: string, value: string)
      modifies this
      ensures rows == Upserted(old(rows), id, value)
      ensures Lookup(rows, id) == Some(value)
    {
      var found := FirstIndex(rows, HasId(id));
      if found.None? {
        rows := rows + [SessionRow(id, value)];
      } else {
        rows := rows[found.value := rows[found.value].(value := value)];
      }
      UpsertedReadBack(old(rows), id, value);
    }
  }

  /** Write then read on a fresh store: the value comes back and other ids stay absent. */
  method WriteThenRead(id: string, other: string, value: string)
    requires other != id
  {
    var store := new DbSession();
    store.Write(id, value);
    var r := store.Read(id);
    assert r == Success(value);
    UpsertedFrame([], id, value, other);
    var missing := store.Read(other);
    assert missing == Failure(SessionNotFound(other));
    store.Invalidate(id);
    var gone := store.Read(id);
    assert gone.Failure?;
  }
}
