/**
 * The table administration operations: the listing of all tables, one
 * table's detail page with its ten most recent sessions, creating a table,
 * the raw edit that writes validated fields directly, and deletion, which
 * ends the linked session and then removes the table together with every
 * session and reservation that references it.
 */
module TableAdmin {
  import opened Wrappers
  import opened Ordering
  import opened Models
  import opened TableRequest
  import TableStatus

  /** How many sessions the detail page shows. */
  const RecentSessionLimit: nat := 10

  datatype TableAdminError = TableMissing | InvalidTable(fields: set<TableField>)

  /** A table in the listing, with its current session and all its reservations. */
  datatype AdminView = AdminView(table: Table, currentSession: Option<Session>, reservations: seq<Reservation>)

  /** The detail page: the listing view plus the table's most recent sessions. */
  datatype Detail = Detail(view: AdminView, recentSessions: seq<Session>)

  function AdminViewOf(t: Table, db: Db): AdminView {
    AdminView(t, CurrentSession(t, db.sessions), ReservationsOf(t.id, db))
  }

  /** `TableController::index`. */
  function Index(db: Db): seq<AdminView> {
    var rows := Rows(db.tables, db.nextTableId);
    seq(|rows|, i requires 0 <= i < |rows| => AdminViewOf(rows[i], db))
  }

  /** `orderBy('start_time', 'desc')`. */
  const ByRecentStart: (Session, Session) -> bool := (a: Session, b: Session) => a.startTime >= b.startTime

  lemma ByRecentStartIsTotalPreorder()
    ensures TotalPreorder(ByRecentStart)
  {
  }

  function RecentSessions(tableId: nat, db: Db): seq<Session> {
    var q := SortBy(SessionsOf(tableId, db), ByRecentStart);
    q[..Min(RecentSessionLimit, |q|)]
  }

  /**
   * `TableController::show`; a missing table is not found. The detail is
   * about the requested table and carries its current session.
   */
  function Show(db: Db, tableId: nat): (r: Option<Detail>)
    ensures r.Some? <==> tableId in db.tables
    ensures r.Some? ==>
      && r.value.view.table == db.tables[tableId]
      && r.value.view.currentSession == CurrentSession(db.tables[tableId], db.sessions)
  {
    if tableId in db.tables then
      Some(Detail(AdminViewOf(db.tables[tableId], db), RecentSessions(tableId, db)))
    else None
  }

  /** The fields of a new table as already validated; the creation rules are not part of this model. */
  datatype NewTable = NewTable(name: string, capacity: int, positionX: real, positionY: real, status: Option<Status>)

  /** `TableController::store`: insert under the next id, status defaulting to Available, unlinked. */
  function CreateTable(db: Db, fields: NewTable): (Db, nat) {
    var id := db.nextTableId;
    var t := Table(id, fields.name, fields.capacity, fields.status.GetOr(Available), fields.positionX, fields.positionY, None);
    (db.(tables := db.tables[id := t], nextTableId := id + 1), id)
  }

  /** `TableController::update`: write the validated fields, and the status only when one was given. */
  function UpdateTable(db: Db, tableId: nat, input: TableInput): (Db, Result<Table, TableAdminError>) {
    if tableId !in db.tables then (db, Failure(TableMissing))
    else if TableInputErrors(input) != {} then (db, Failure(InvalidTable(TableInputErrors(input))))
    else
      var was := db.tables[tableId];
      var t := was.(name := input.name.value, capacity := input.capacity.value,
                     positionX := input.positionX.value, positionY := input.positionY.value,
                     status := if input.status.Some? then ParseStatus(input.status.value).value else was.status);
      (db.(tables := db.tables[tableId := t]), Success(t))
  }

  /** The deletion's first step: the linked session, if it exists, gets `end_time = now`, open or not. */
  function EndLinkedSession(sessions: map<nat, Session>, t: Table, now: int): (r: map<nat, Session>)
    ensures r.Keys == sessions.Keys
    ensures forall k :: k in r ==> r[k] == sessions[k].(endTime := r[k].endTime)
    ensures forall k :: k in r && t.currentSessionId != Some(k) ==> r[k] == sessions[k]
    ensures forall k :: k in r && r[k] != sessions[k] ==> r[k].endTime == Some(now)
  {
    if HasSessionRef(t) && t.currentSessionId.value in sessions then
      var sid := t.currentSessionId.value;
      sessions[sid := sessions[sid].(endTime := Some(now))]
    else
      sessions
  }

  /** Removing a table row and, by `onDelete('cascade')`, every session and reservation referencing it. */
  function Cascade(db: Db, tableId: nat): Db {
    db.(tables := db.tables - {tableId},
        sessions := map k | k in db.sessions && db.sessions[k].tableId != tableId :: db.sessions[k],
        reservations := map k | k in db.reservations && db.reservations[k].tableId != tableId :: db.reservations[k])
  }

  /** `TableController::destroy`. */
  function DestroyTable(db: Db, tableId: nat, now: int): (Db, Result<Table, TableAdminError>) {
    if tableId !in db.tables then (db, Failure(TableMissing))
    else
      var t := db.tables[tableId];
      (Cascade(db.(sessions := EndLinkedSession(db.sessions, t, now)), tableId), Success(t))
  }

  /**
   * The listing shows every table exactly once, in ascending id order, each
   * with its current session and exactly its reservations, each once.
   */
  lemma IndexExact(db: Db)
    requires WellFormed(db)
    ensures var v := Index(db);
      && |v| == |db.tables|
      && (forall i, j :: 0 <= i < j < |v| ==> v[i].table.id < v[j].table.id)
      && (forall k :: k in db.tables ==> exists i :: 0 <= i < |v| && v[i].table == db.tables[k])
      && (forall i :: 0 <= i < |v| ==>
            && v[i].table in db.tables.Values
            && v[i].currentSession == CurrentSession(v[i].table, db.sessions)
            && (forall x :: x in v[i].reservations <==> x in db.reservations.Values && x.tableId == v[i].table.id)
            && (forall a, b :: 0 <= a < b < |v[i].reservations| ==> v[i].reservations[a].id != v[i].reservations[b].id))
  {
    IndexListsTablesOnce(db);
    var v := Index(db);
    forall i | 0 <= i < |v|
      ensures forall x :: x in v[i].reservations <==> x in db.reservations.Values && x.tableId == v[i].table.id
      ensures forall a, b :: 0 <= a < b < |v[i].reservations| ==> v[i].reservations[a].id != v[i].reservations[b].id
    {
      AdminViewExact(v[i].table, db);
    }
  }

  /** The listing's tables: every stored table once, in ascending id order, each with its own view. */
  lemma IndexListsTablesOnce(db: Db)
    requires WellFormed(db)
    ensures var v := Index(db);
      && |v| == |db.tables|
      && (forall i, j :: 0 <= i < j < |v| ==> v[i].table.id < v[j].table.id)
      && (forall k :: k in db.tables ==> exists i :: 0 <= i < |v| && v[i].table == db.tables[k])
      && (forall i :: 0 <= i < |v| ==> v[i].table in db.tables.Values && v[i] == AdminViewOf(v[i].table, db))
  {
    var rows := Rows(db.tables, db.nextTableId);
    var v := Index(db);
    TablesListedOnce(db);
    forall i | 0 <= i < |v| ensures v[i].table == rows[i] && v[i].table in db.tables.Values && v[i] == AdminViewOf(v[i].table, db) {
      assert v[i] == AdminViewOf(rows[i], db);
      assert rows[i] in rows;
    }
    forall k | k in db.tables ensures exists i :: 0 <= i < |v| && v[i].table == db.tables[k] {
      assert db.tables[k] in rows;
      var i :| 0 <= i < |rows| && rows[i] == db.tables[k];
      assert v[i].table == rows[i];
    }
  }

  /** One table's listing entry holds exactly its reservations, each once. */
  lemma AdminViewExact(t: Table, db: Db)
    requires WellFormed(db)
    ensures var rs := AdminViewOf(t, db).reservations;
      && (forall x :: x in rs <==> x in db.reservations.Values && x.tableId == t.id)
      && (forall a, b :: 0 <= a < b < |rs| ==> rs[a].id != rs[b].id)
  {
    ReservationsListedOnce(t.id, db);
    forall x | x in db.reservations.Values && x.tableId == t.id ensures x in AdminViewOf(t, db).reservations {
      var k :| k in db.reservations && db.reservations[k] == x;
    }
  }

  /**
   * The detail page shows the requested table with its current session and
   * exactly its reservations, each once.
   */
  lemma ShowViewExact(db: Db, tableId: nat)
    requires WellFormed(db) && tableId in db.tables
    ensures Show(db, tableId).Some?
    ensures var v := Show(db, tableId).value.view;
      && v.table == db.tables[tableId]
      && v.currentSession == CurrentSession(db.tables[tableId], db.sessions)
      && (forall x :: x in v.reservations <==> x in db.reservations.Values && x.tableId == tableId)
      && (forall a, b :: 0 <= a < b < |v.reservations| ==> v.reservations[a].id != v.reservations[b].id)
  {
    AdminViewExact(db.tables[tableId], db);
  }

  /**
   * The detail page lists at most ten of the table's own sessions, each
   * once, latest start first, and they are the most recent: any session of
   * the table not listed started no later than every listed one.
   */
  lemma ShowListsRecentSessions(db: Db, tableId: nat)
    requires WellFormed(db) && tableId in db.tables
    ensures Show(db, tableId).Some?
    ensures var r := Show(db, tableId).value.recentSessions;
      && |r| <= RecentSessionLimit
      && (forall i :: 0 <= i < |r| ==> r[i] in db.sessions.Values && r[i].tableId == tableId)
      && (forall i, j :: 0 <= i < j < |r| ==> r[i].id != r[j].id)
      && (forall i, j :: 0 <= i < j < |r| ==> r[i].startTime >= r[j].startTime)
      && (forall k :: k in db.sessions && db.sessions[k].tableId == tableId ==>
            db.sessions[k] in r || (|r| == RecentSessionLimit && forall i :: 0 <= i < |r| ==> r[i].startTime >= db.sessions[k].startTime))
  {
    var all := SessionsOf(tableId, db);
    var r := RecentSessions(tableId, db);
    RecentSessionsSorted(all, r);
    RecentSessionsAreLatest(all, r);
    SessionsListedOnce(tableId, db);
    RecentSessionsOnce(all, r);
    forall k | k in db.sessions && db.sessions[k].tableId == tableId ensures db.sessions[k] in all {
    }
  }

  /** Sorting and taking keep the table's sessions distinct. */
  lemma RecentSessionsOnce(all: seq<Session>, r: seq<Session>)
    requires var q := SortBy(all, ByRecentStart); r == q[..Min(RecentSessionLimit, |q|)]
    requires forall i, j :: 0 <= i < j < |all| ==> all[i].id != all[j].id
    ensures forall i, j :: 0 <= i < j < |r| ==> r[i].id != r[j].id
  {
    var q := SortBy(all, ByRecentStart);
    assert KeysDistinct(all, SessionId) by {
      forall i, j | 0 <= i < j < |all| ensures SessionId(all[i]) != SessionId(all[j]) {
        assert all[i].id != all[j].id;
      }
    }
    SortByKeepsKeysDistinct(all, ByRecentStart, SessionId);
    forall i, j | 0 <= i < j < |r| ensures r[i].id != r[j].id {
      assert r[i] == q[i] && r[j] == q[j];
      assert SessionId(q[i]) != SessionId(q[j]);
    }
  }

  /** The listed sessions come from the table's sessions, newest first. */
  lemma RecentSessionsSorted(all: seq<Session>, r: seq<Session>)
    requires var q := SortBy(all, ByRecentStart); r == q[..Min(RecentSessionLimit, |q|)]
    ensures |r| <= RecentSessionLimit
    ensures forall i :: 0 <= i < |r| ==> r[i] in all
    ensures forall i, j :: 0 <= i < j < |r| ==> r[i].startTime >= r[j].startTime
  {
    var q := SortBy(all, ByRecentStart);
    ByRecentStartIsTotalPreorder();
    SortBySorted(all, ByRecentStart);
    forall i | 0 <= i < |r| ensures r[i] in all {
      assert r[i] == q[i] && q[i] in multiset(all);
    }
    forall i, j | 0 <= i < j < |r| ensures r[i].startTime >= r[j].startTime {
      assert ByRecentStart(q[i], q[j]);
    }
  }

  /** A session left out of the list started no later than any listed one, and then the list is full. */
  lemma RecentSessionsAreLatest(all: seq<Session>, r: seq<Session>)
    requires var q := SortBy(all, ByRecentStart); r == q[..Min(RecentSessionLimit, |q|)]
    ensures forall x :: x in all ==>
      x in r || (|r| == RecentSessionLimit && forall i :: 0 <= i < |r| ==> r[i].startTime >= x.startTime)
  {
    ByRecentStartIsTotalPreorder();
    TakeKeepsLeast(all, ByRecentStart, RecentSessionLimit);
    forall x | x in all && x !in r
      ensures |r| == RecentSessionLimit && forall i :: 0 <= i < |r| ==> r[i].startTime >= x.startTime
    {
      forall i | 0 <= i < |r| ensures r[i].startTime >= x.startTime {
        assert r[i] in r && ByRecentStart(r[i], x);
      }
    }
  }

  /**
   * Creating a table adds one unlinked row under a fresh id holding the
   * given fields, and keeps the schema's guarantees; it keeps the session
   * bookkeeping unless the new table is created Occupied.
   */
  lemma CreateTableAddsOne(db: Db, fields: NewTable)
    requires WellFormed(db)
    ensures var (db', id) := CreateTable(db, fields);
      var t := db'.tables[id];
      && id !in db.tables
      && db'.tables == db.tables[id := t]
      && t.id == id
      && t.name == fields.name && t.capacity == fields.capacity
      && t.positionX == fields.positionX && t.positionY == fields.positionY
      && t.status == (if fields.status.Some? then fields.status.value else Available)
      && t.currentSessionId == None
      && db'.sessions == db.sessions && db'.reservations == db.reservations
      && WellFormed(db')
      && (TableStatus.Coherent(db) && fields.status != Some(Occupied) ==> TableStatus.Coherent(db'))
  {
  }

  /**
   * The store does not go through the session bookkeeping either: a table
   * created with status Occupied has no session, so the result is never
   * coherent.
   */
  lemma CreateOccupiedBreaksCoherence(db: Db, fields: NewTable)
    requires fields.status == Some(Occupied)
    ensures !TableStatus.Coherent(CreateTable(db, fields).0)
  {
    var (db', id) := CreateTable(db, fields);
    assert !TableStatus.LinkConsistent(db'.tables[id]);
  }

  /**
   * A successful edit writes exactly the validated fields: the bounds hold
   * afterwards, the link to the current session is never touched, and no
   * session is opened or closed, even when the status crosses Occupied.
   */
  lemma UpdateWritesOnlyValidatedFields(db: Db, tableId: nat, input: TableInput)
    requires WellFormed(db)
    ensures var (db', res) := UpdateTable(db, tableId, input);
      && (res.Failure? ==> db' == db)
      && (res.Failure? <==> tableId !in db.tables || TableInputErrors(input) != {})
      && (res.Success? ==>
            var t := db'.tables[tableId];
            && res.value == t
            && db'.tables == db.tables[tableId := t]
            && Some(t.name) == input.name && 0 < |t.name| <= MaxNameLength
            && Some(t.capacity) == input.capacity
            && Some(t.positionX) == input.positionX && Some(t.positionY) == input.positionY
            && MinCapacity <= t.capacity <= MaxCapacity
            && 0.0 <= t.positionX <= MaxPosition && 0.0 <= t.positionY <= MaxPosition
            && t.status == (if input.status.Some? then ParseStatus(input.status.value).value else db.tables[tableId].status)
            && t.currentSessionId == db.tables[tableId].currentSessionId
            && db'.sessions == db.sessions && db'.reservations == db.reservations
            && WellFormed(db'))
  {
  }

  /**
   * Because the edit bypasses the session bookkeeping it can break it: a
   * coherent database with one free table becomes incoherent when the edit
   * marks that table Occupied.
   */
  lemma RawUpdateCanBreakCoherence()
    ensures exists db: Db, input: TableInput ::
      && WellFormed(db) && TableStatus.Coherent(db)
      && UpdateTable(db, 1, input).1.Success?
      && !TableStatus.Coherent(UpdateTable(db, 1, input).0)
  {
    var t := Table(1, "T1", 4, Available, 100.0, 100.0, None);
    var db := Db(map[1 := t], map[], map[], 2, 1, 1);
    var input := TableInput(Some("T1"), Some(4), Some(100.0), Some(100.0), Some("occupied"));
    assert Filled(input.name) by { assert !IsTrimmed(input.name.value[0]); }
    var db' := UpdateTable(db, 1, input).0;
    assert db'.tables[1].status == Occupied && db'.tables[1].currentSessionId == None;
    assert !TableStatus.LinkConsistent(db'.tables[1]);
  }

  /**
   * Deletion removes the table and every session and reservation that
   * references it, and leaves every other table and reservation as it was.
   * The linked session, if it exists, is given `end_time = now` whether or
   * not it was already closed; that write survives only when the session
   * belongs to another table.
   */
  lemma DestroyCascades(db: Db, tableId: nat, now: int)
    requires tableId in db.tables
    ensures var (db', res) := DestroyTable(db, tableId, now);
      var t := db.tables[tableId];
      && res == Success(t)
      && db'.tables == db.tables - {tableId}
      && db'.reservations == (map k | k in db.reservations && db.reservations[k].tableId != tableId :: db.reservations[k])
      && (forall k :: k in db'.sessions <==> k in db.sessions && db.sessions[k].tableId != tableId)
      && (forall k :: k in db'.sessions ==>
            db'.sessions[k] ==
              if HasSessionRef(t) && k == t.currentSessionId.value
              then db.sessions[k].(endTime := Some(now))
              else db.sessions[k])
  {
  }

  /** Deletion keeps the schema's guarantees: no session or reservation is left pointing at the removed table. */
  lemma DestroyWellFormed(db: Db, tableId: nat, now: int)
    requires WellFormed(db)
    ensures WellFormed(DestroyTable(db, tableId, now).0)
  {
  }

  /**
   * In a coherent database the linked session belongs to the deleted table,
   * so the end-time write is swept away by the cascade; deletion then keeps
   * the schema's guarantees and the session bookkeeping.
   */
  lemma DestroyKeepsCoherence(db: Db, tableId: nat, now: int)
    requires WellFormed(db) && TableStatus.Coherent(db) && tableId in db.tables
    ensures DestroyTable(db, tableId, now).0 == Cascade(db, tableId)
    ensures WellFormed(Cascade(db, tableId))
    ensures TableStatus.Coherent(Cascade(db, tableId))
  {
  }
}
