/**
 * The table status change (`POST /tables/{id}/status`): validate the request,
 * then open a session when the table moves into Occupied, close the current
 * session when it moves out of Occupied, and otherwise write only the status;
 * finally answer with the floor-plan snapshot taken after the change.
 */
module TableStatus {
  import opened Wrappers
  import opened Models
  import opened FloorPlan

  /** The `max:255` bound on `customer_name`. */
  const MaxCustomerNameLength: nat := 255

  /** The request body `{status, customer_name?, pax?}`; an absent field is None. */
  datatype StatusRequest = StatusRequest(status: Option<string>, customerName: Option<string>, pax: Option<int>)

  datatype StatusField = StatusInput | CustomerNameInput | PaxInput

  datatype StatusError = TableNotFound | Invalid(fields: set<StatusField>)

  /**
   * The fields that fail `status: required|in:...`, `customer_name:
   * nullable|string|max:255` and `pax: nullable|integer|min:1`.
   */
  function StatusErrors(req: StatusRequest): set<StatusField> {
    (if req.status.None? || ParseStatus(req.status.value).None? then {StatusInput} else {})
    + (if req.customerName.Some? && |req.customerName.value| > MaxCustomerNameLength then {CustomerNameInput} else {})
    + (if req.pax.Some? && req.pax.value < 1 then {PaxInput} else {})
  }

  /** Ends the session named by the table's `current_session_id`, but only if it exists and is still open. */
  function CloseCurrentIfOpen(sessions: map<nat, Session>, t: Table, now: int): (r: map<nat, Session>)
    ensures r.Keys == sessions.Keys
    ensures forall k :: k in r ==> r[k] == sessions[k].(endTime := r[k].endTime)
    ensures forall k :: k in r && t.currentSessionId != Some(k) ==> r[k] == sessions[k]
    ensures forall k :: k in r && r[k] != sessions[k] ==> r[k].endTime == Some(now)
  {
    if HasSessionRef(t) && t.currentSessionId.value in sessions && IsOpen(sessions[t.currentSessionId.value]) then
      var sid := t.currentSessionId.value;
      sessions[sid := sessions[sid].(endTime := Some(now))]
    else
      sessions
  }

  /** The three-way session bookkeeping for a validated new status. */
  function ApplyStatus(db: Db, tableId: nat, newStatus: Status, customerName: Option<string>, pax: Option<int>, now: int): Db
    requires tableId in db.tables
  {
    var t := db.tables[tableId];
    if newStatus == Occupied && t.status != Occupied then
      var sid := db.nextSessionId;
      db.(sessions := db.sessions[sid := Session(sid, tableId, now, None, pax.GetOr(1), customerName)],
          nextSessionId := sid + 1,
          tables := db.tables[tableId := t.(status := newStatus, currentSessionId := Some(sid))])
    else if newStatus != Occupied && t.status == Occupied then
      db.(sessions := CloseCurrentIfOpen(db.sessions, t, now),
          tables := db.tables[tableId := t.(status := newStatus, currentSessionId := None)])
    else
      db.(tables := db.tables[tableId := t.(status := newStatus)])
  }

  /** `TableStatusController::store`: the new database and the response. */
  function StoreStatus(db: Db, tableId: nat, req: StatusRequest, now: int): (r: (Db, Result<Snapshot, StatusError>))
    ensures r.1.Failure? <==> tableId !in db.tables || StatusErrors(req) != {}
    ensures r.1.Failure? ==> r.0 == db
    ensures r.1.Success? ==> tableId in r.0.tables && r.0.tables.Keys == db.tables.Keys
  {
    if tableId !in db.tables then (db, Failure(TableNotFound))
    else if StatusErrors(req) != {} then (db, Failure(Invalid(StatusErrors(req))))
    else
      var db' := ApplyStatus(db, tableId, ParseStatus(req.status.value).value, req.customerName, req.pax, now);
      (db', Success(Build(db', now)))
  }

  /** The link a table keeps to its session: `current_session_id` is set exactly while Occupied. */
  predicate LinkConsistent(t: Table) {
    t.currentSessionId.Some? <==> t.status == Occupied
  }

  /**
   * The session bookkeeping the status change is designed to keep: every
   * table's link is consistent, a set link names an open session of that
   * table, and every open session is its table's current one.
   */
  ghost predicate Coherent(db: Db) {
    && (forall tid :: tid in db.tables ==> LinkConsistent(db.tables[tid]))
    && (forall tid :: tid in db.tables && db.tables[tid].currentSessionId.Some? ==>
          && db.tables[tid].currentSessionId.value in db.sessions
          && db.sessions[db.tables[tid].currentSessionId.value].tableId == tid
          && IsOpen(db.sessions[db.tables[tid].currentSessionId.value]))
    && (forall sid :: sid in db.sessions && IsOpen(db.sessions[sid]) ==>
          && db.sessions[sid].tableId in db.tables
          && db.tables[db.sessions[sid].tableId].currentSessionId == Some(sid))
  }

  /** In a coherent database a table has at most one open session. */
  lemma AtMostOneOpenSession(db: Db, s1: nat, s2: nat)
    requires Coherent(db)
    requires s1 in db.sessions && s2 in db.sessions && IsOpen(db.sessions[s1]) && IsOpen(db.sessions[s2])
    requires db.sessions[s1].tableId == db.sessions[s2].tableId
    ensures s1 == s2
  {
  }

  /**
   * A request whose status is not one of the five names, whose pax is below
   * 1, or whose customer name is longer than 255 characters is refused with
   * that field named, and nothing is written; so is a request for a missing table.
   */
  lemma InvalidRequestChangesNothing(db: Db, tableId: nat, req: StatusRequest, now: int)
    requires tableId !in db.tables
          || req.status.None? || ParseStatus(req.status.value).None?
          || (req.pax.Some? && req.pax.value < 1)
          || (req.customerName.Some? && |req.customerName.value| > MaxCustomerNameLength)
    ensures StoreStatus(db, tableId, req, now).0 == db
    ensures StoreStatus(db, tableId, req, now).1.Failure?
    ensures tableId in db.tables ==>
      var errs := StoreStatus(db, tableId, req, now).1.error.fields;
      && ((req.status.None? || ParseStatus(req.status.value).None?) <==> StatusInput in errs)
      && ((req.pax.Some? && req.pax.value < 1) <==> PaxInput in errs)
      && ((req.customerName.Some? && |req.customerName.value| > MaxCustomerNameLength) <==> CustomerNameInput in errs)
  {
  }

  /**
   * A valid status request for an existing table on a well-formed database
   * succeeds: the database becomes the validated status change, stays
   * well-formed (and coherent, if it was), the table carries the new status,
   * and the answer is the floor plan of the new database, which lists every
   * table once, the changed one included, and at most five upcoming bookings.
   */
  lemma StatusRequestApplied(db: Db, tableId: nat, req: StatusRequest, now: int)
    requires WellFormed(db) && tableId in db.tables && StatusErrors(req) == {}
    ensures req.status.Some? && ParseStatus(req.status.value).Some?
    ensures var out := StoreStatus(db, tableId, req, now);
      && out.1.Success?
      && out.0 == ApplyStatus(db, tableId, ParseStatus(req.status.value).value, req.customerName, req.pax, now)
      && WellFormed(out.0)
      && (Coherent(db) ==> Coherent(out.0))
      && out.0.tables.Keys == db.tables.Keys
      && out.0.tables[tableId].status == ParseStatus(req.status.value).value
      && out.1.value == Build(out.0, now)
      && out.1.value.tables == TableViews(out.0, now)
      && |out.1.value.tables| == |out.0.tables|
      && (exists i :: 0 <= i < |out.1.value.tables| && out.1.value.tables[i].table == out.0.tables[tableId])
      && |out.1.value.upcoming| <= UpcomingLimit
  {
    var newStatus := ParseStatus(req.status.value).value;
    var db' := ApplyStatus(db, tableId, newStatus, req.customerName, req.pax, now);
    ApplyStatusWellFormed(db, tableId, newStatus, req.customerName, req.pax, now);
    if Coherent(db) {
      CoherencePreserved(db, tableId, newStatus, req.customerName, req.pax, now);
    }
    assert db'.tables.Keys == db.tables.Keys && db'.tables[tableId].status == newStatus;
    SnapshotListsTable(db', tableId, now);
  }

  /** The floor plan of a well-formed database lists a given stored table once among all its tables. */
  lemma SnapshotListsTable(db: Db, tableId: nat, now: int)
    requires WellFormed(db) && tableId in db.tables
    ensures var s := Build(db, now);
      && s.tables == TableViews(db, now)
      && |s.tables| == |db.tables|
      && (exists i :: 0 <= i < |s.tables| && s.tables[i].table == db.tables[tableId])
      && |s.upcoming| <= UpcomingLimit
  {
    TableViewsExact(db, now);
    UpcomingShape(db, now);
  }

  /**
   * Seating: a table not Occupied that moves to Occupied gets exactly one new
   * session (fresh id, this table, started now, open, pax defaulting to 1,
   * the given name), becomes Occupied and links to it; nothing else changes.
   */
  lemma SeatOpensOneSession(db: Db, tableId: nat, customerName: Option<string>, pax: Option<int>, now: int)
    requires WellFormed(db) && tableId in db.tables && db.tables[tableId].status != Occupied
    ensures var db' := ApplyStatus(db, tableId, Occupied, customerName, pax, now);
      var sid := db.nextSessionId;
      && sid !in db.sessions
      && db'.sessions.Keys == db.sessions.Keys + {sid}
      && db'.sessions[sid] == Session(sid, tableId, now, None, if pax.Some? then pax.value else 1, customerName)
      && (forall k :: k in db.sessions ==> db'.sessions[k] == db.sessions[k])
      && db'.tables.Keys == db.tables.Keys
      && db'.tables[tableId].status == Occupied
      && db'.tables[tableId].currentSessionId == Some(sid)
      && CurrentSession(db'.tables[tableId], db'.sessions) == Some(db'.sessions[sid])
      && (forall k :: k in db.tables && k != tableId ==> db'.tables[k] == db.tables[k])
      && db'.reservations == db.reservations
      && db'.nextSessionId == sid + 1
      && db'.nextTableId == db.nextTableId
      && db'.nextReservationId == db.nextReservationId
  {
  }

  /**
   * Leaving Occupied: the status is written and the link cleared; the linked
   * session gets `end_time = now` if it exists and is open, and otherwise no
   * session changes. No session is removed and no other table changes.
   */
  lemma ReleaseClosesCurrentSession(db: Db, tableId: nat, newStatus: Status, customerName: Option<string>, pax: Option<int>, now: int)
    requires tableId in db.tables && db.tables[tableId].status == Occupied && newStatus != Occupied
    ensures var t := db.tables[tableId];
      var db' := ApplyStatus(db, tableId, newStatus, customerName, pax, now);
      && db'.tables[tableId].status == newStatus
      && db'.tables[tableId].currentSessionId == None
      && (forall k :: k in db.tables && k != tableId ==> db'.tables[k] == db.tables[k])
      && db'.tables.Keys == db.tables.Keys
      && db'.sessions.Keys == db.sessions.Keys
      && db'.nextSessionId == db.nextSessionId
      && (forall k :: k in db.sessions ==>
            db'.sessions[k] ==
              if HasSessionRef(t) && k == t.currentSessionId.value && IsOpen(db.sessions[k])
              then db.sessions[k].(endTime := Some(now))
              else db.sessions[k])
      && db'.reservations == db.reservations
  {
  }

  /**
   * When the Occupied boundary is not crossed only the status is written:
   * the link, every session, and the given name and pax are left alone.
   */
  lemma NoCrossingWritesOnlyStatus(db: Db, tableId: nat, newStatus: Status, customerName: Option<string>, pax: Option<int>, now: int)
    requires tableId in db.tables && (newStatus == Occupied <==> db.tables[tableId].status == Occupied)
    ensures var db' := ApplyStatus(db, tableId, newStatus, customerName, pax, now);
      && db' == db.(tables := db.tables[tableId := db.tables[tableId].(status := newStatus)])
      && db'.sessions == db.sessions
  {
  }

  /** A consistent link stays consistent: `current_session_id` is set iff the status is Occupied. */
  lemma LinkConsistencyPreserved(db: Db, tableId: nat, newStatus: Status, customerName: Option<string>, pax: Option<int>, now: int)
    requires tableId in db.tables && LinkConsistent(db.tables[tableId])
    ensures LinkConsistent(ApplyStatus(db, tableId, newStatus, customerName, pax, now).tables[tableId])
  {
  }

  /** A status change keeps the schema's guarantees. */
  lemma ApplyStatusWellFormed(db: Db, tableId: nat, newStatus: Status, customerName: Option<string>, pax: Option<int>, now: int)
    requires WellFormed(db) && tableId in db.tables
    ensures WellFormed(ApplyStatus(db, tableId, newStatus, customerName, pax, now))
  {
  }

  /** A status change keeps the session bookkeeping coherent. */
  lemma {:induction false} CoherencePreserved(db: Db, tableId: nat, newStatus: Status, customerName: Option<string>, pax: Option<int>, now: int)
    requires WellFormed(db) && Coherent(db) && tableId in db.tables
    ensures Coherent(ApplyStatus(db, tableId, newStatus, customerName, pax, now))
  {
    var t := db.tables[tableId];
    var db' := ApplyStatus(db, tableId, newStatus, customerName, pax, now);
    if newStatus == Occupied && t.status != Occupied {
      var sid := db.nextSessionId;
      assert sid !in db.sessions;
      forall tid | tid in db'.tables && db'.tables[tid].currentSessionId.Some?
        ensures var c := db'.tables[tid].currentSessionId.value;
          c in db'.sessions && db'.sessions[c].tableId == tid && IsOpen(db'.sessions[c])
      {
        if tid != tableId {
          assert db'.tables[tid] == db.tables[tid];
        }
      }
      forall s | s in db'.sessions && IsOpen(db'.sessions[s])
        ensures db'.sessions[s].tableId in db'.tables && db'.tables[db'.sessions[s].tableId].currentSessionId == Some(s)
      {
        if s != sid {
          assert db'.sessions[s] == db.sessions[s];
          assert db.sessions[s].tableId != tableId;
        }
      }
    } else if newStatus != Occupied && t.status == Occupied {
      var sid := t.currentSessionId.value;
      assert sid in db.sessions && db.sessions[sid].tableId == tableId;
      assert HasSessionRef(t);
      assert db'.sessions == db.sessions[sid := db.sessions[sid].(endTime := Some(now))];
      forall tid | tid in db'.tables && db'.tables[tid].currentSessionId.Some?
        ensures var c := db'.tables[tid].currentSessionId.value;
          c in db'.sessions && db'.sessions[c].tableId == tid && IsOpen(db'.sessions[c])
      {
        assert tid != tableId;
        assert db'.tables[tid] == db.tables[tid];
      }
      forall s | s in db'.sessions && IsOpen(db'.sessions[s])
        ensures db'.sessions[s].tableId in db'.tables && db'.tables[db'.sessions[s].tableId].currentSessionId == Some(s)
      {
        assert s != sid;
        assert db.sessions[s].tableId != tableId;
      }
    }
  }

  /**
   * Seating a guest and then freeing the table leaves exactly one closed
   * session for the visit; freeing it again writes no session.
   */
  lemma SeatThenRelease(db: Db, tableId: nat, customerName: Option<string>, pax: Option<int>, t1: int, t2: int, t3: int,
                        next: Status, after: Status)
    requires WellFormed(db) && tableId in db.tables && db.tables[tableId].status != Occupied
    requires next != Occupied && after != Occupied
    ensures var db1 := ApplyStatus(db, tableId, Occupied, customerName, pax, t1);
      var db2 := ApplyStatus(db1, tableId, next, None, None, t2);
      var db3 := ApplyStatus(db2, tableId, after, None, None, t3);
      var sid := db.nextSessionId;
      && db2.sessions == db.sessions[sid := Session(sid, tableId, t1, Some(t2), if pax.Some? then pax.value else 1, customerName)]
      && db2.tables[tableId].status == next && db2.tables[tableId].currentSessionId == None
      && db3.sessions == db2.sessions
  {
  }
}
