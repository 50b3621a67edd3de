/**
 * The three record kinds of the restaurant database (tables, table sessions,
 * reservations), their enumerated status columns, the relationship lookups of
 * the Table and TableSession models, and the database as a whole.
 * Times are instants on one integer clock; positions are layout-only numbers.
 */
module Models {
  import opened Wrappers
  import opened Ordering

  /** The `tables.status` enum; new tables default to Available. */
  datatype Status = Available | Occupied | Reserved | Cleaning | Billed

  /** The `reservations.status` enum; new reservations default to Confirmed. */
  datatype ReservationStatus = Confirmed | Seated | Cancelled | Completed

  function StatusName(s: Status): string {
    match s
    case Available => "available"
    case Occupied => "occupied"
    case Reserved => "reserved"
    case Cleaning => "cleaning"
    case Billed => "billed"
  }

  /** The `in:available,occupied,reserved,cleaning,billed` rule: which enum value a string names, if any. */
  function ParseStatus(s: string): (r: Option<Status>)
    ensures r.Some? ==> StatusName(r.value) == s
    ensures forall v :: StatusName(v) == s ==> r == Some(v)
  {
    if s == "available" then Some(Available)
    else if s == "occupied" then Some(Occupied)
    else if s == "reserved" then Some(Reserved)
    else if s == "cleaning" then Some(Cleaning)
    else if s == "billed" then Some(Billed)
    else None
  }

  function ReservationStatusName(s: ReservationStatus): string {
    match s
    case Confirmed => "confirmed"
    case Seated => "seated"
    case Cancelled => "cancelled"
    case Completed => "completed"
  }

  function ParseReservationStatus(s: string): (r: Option<ReservationStatus>)
    ensures r.Some? ==> ReservationStatusName(r.value) == s
    ensures forall v :: ReservationStatusName(v) == s ==> r == Some(v)
  {
    if s == "confirmed" then Some(Confirmed)
    else if s == "seated" then Some(Seated)
    else if s == "cancelled" then Some(Cancelled)
    else if s == "completed" then Some(Completed)
    else None
  }

  /** A row of `tables`. `currentSessionId` is nullable and carries no foreign key, so it may dangle. */
  datatype Table = Table(
    id: nat,
    name: string,
    capacity: int,
    status: Status,
    positionX: real,
    positionY: real,
    currentSessionId: Option<nat>)

  /** A row of `sessions_table`: a timed occupation of one table, open while `endTime` is null. */
  datatype Session = Session(
    id: nat,
    tableId: nat,
    startTime: int,
    endTime: Option<int>,
    pax: int,
    customerName: Option<string>)

  /** A row of `reservations`. */
  datatype Reservation = Reservation(
    id: nat,
    customerName: string,
    customerPhone: string,
    pax: int,
    time: int,
    tableId: nat,
    status: ReservationStatus)

  predicate IsOpen(s: Session) { s.endTime.None? }

  /**
   * The whole database: each collection keyed by primary key, and the next
   * auto-increment value of each.
   */
  datatype Db = Db(
    tables: map<nat, Table>,
    sessions: map<nat, Session>,
    reservations: map<nat, Reservation>,
    nextTableId: nat,
    nextSessionId: nat,
    nextReservationId: nat)

  /**
   * What the schema guarantees: keys are issued below the auto-increment
   * counter and agree with the record's id, and `table_id` and
   * `assigned_table_id` are foreign keys into `tables`.
   */
  ghost predicate WellFormed(db: Db) {
    && 0 < db.nextTableId && 0 < db.nextSessionId && 0 < db.nextReservationId
    && (forall k :: k in db.tables ==> 0 < k < db.nextTableId && db.tables[k].id == k)
    && (forall k :: k in db.sessions ==>
          0 < k < db.nextSessionId && db.sessions[k].id == k && db.sessions[k].tableId in db.tables)
    && (forall k :: k in db.reservations ==>
          0 < k < db.nextReservationId && db.reservations[k].id == k && db.reservations[k].tableId in db.tables)
  }

  function EmptyDb(): (db: Db)
    ensures WellFormed(db)
    ensures db.tables == map[] && db.sessions == map[] && db.reservations == map[]
  {
    Db(map[], map[], map[], 1, 1, 1)
  }

  /** PHP truthiness of the nullable id: null and 0 are both false. */
  predicate HasSessionRef(t: Table) {
    t.currentSessionId.Some? && t.currentSessionId.value != 0
  }

  /** `Table::currentSession`: the session whose id is `current_session_id`, absent when null or dangling. */
  function CurrentSession(t: Table, sessions: map<nat, Session>): (r: Option<Session>)
    ensures r.Some? <==> t.currentSessionId.Some? && t.currentSessionId.value in sessions
    ensures r.Some? ==> r.value == sessions[t.currentSessionId.value]
  {
    match t.currentSessionId
    case Some(sid) => if sid in sessions then Some(sessions[sid]) else None
    case None => None
  }

  /** The `where('table_id', ...)` condition of `Table::sessions`. */
  function SessionOf(tableId: nat): Session -> bool {
    (s: Session) => s.tableId == tableId
  }

  /** The `where('assigned_table_id', ...)` condition of `Table::reservations`. */
  function ReservationOf(tableId: nat): Reservation -> bool {
    (x: Reservation) => x.tableId == tableId
  }

  function TableId(t: Table): nat { t.id }

  function SessionId(s: Session): nat { s.id }

  function ReservationId(x: Reservation): nat { x.id }

  /** The keys of the table's sessions. */
  ghost function SessionKeysOf(tableId: nat, db: Db): set<nat> {
    set k | k in db.sessions && db.sessions[k].tableId == tableId
  }

  /** The keys of the reservations assigned to the table. */
  ghost function ReservationKeysOf(tableId: nat, db: Db): set<nat> {
    set k | k in db.reservations && db.reservations[k].tableId == tableId
  }

  /** `Table::sessions`: every session row whose `table_id` is this table, in key order. */
  function SessionsOf(tableId: nat, db: Db): (r: seq<Session>)
    ensures forall s :: s in r ==> s in db.sessions.Values && s.tableId == tableId
    ensures forall k :: k in db.sessions && k < db.nextSessionId && db.sessions[k].tableId == tableId ==>
              db.sessions[k] in r
  {
    Filter(Rows(db.sessions, db.nextSessionId), SessionOf(tableId))
  }

  /** `Table::reservations`: every reservation whose `assigned_table_id` is this table, in key order. */
  function ReservationsOf(tableId: nat, db: Db): (r: seq<Reservation>)
    ensures forall x :: x in r ==> x in db.reservations.Values && x.tableId == tableId
    ensures forall k :: k in db.reservations && k < db.nextReservationId && db.reservations[k].tableId == tableId ==>
              db.reservations[k] in r
  {
    Filter(Rows(db.reservations, db.nextReservationId), ReservationOf(tableId))
  }

  /**
   * A `belongsTo` relation to a table, as `TableSession::table` and
   * `Reservation::assignedTable` use it: the table the foreign key names, if stored.
   */
  function TableOf(tableId: nat, db: Db): (r: Option<Table>)
    ensures r.Some? <==> tableId in db.tables
    ensures r.Some? ==> r.value == db.tables[tableId]
  {
    if tableId in db.tables then Some(db.tables[tableId]) else None
  }

  /**
   * In a well-formed database `Table::sessions` lists every session of the
   * table exactly once: ids are distinct, and the length is the number of
   * the table's sessions.
   */
  lemma SessionsListedOnce(tableId: nat, db: Db)
    requires WellFormed(db)
    ensures var r := SessionsOf(tableId, db);
      && (forall i, j :: 0 <= i < j < |r| ==> r[i].id != r[j].id)
      && |r| == |SessionKeysOf(tableId, db)|
  {
    var id, mine := SessionId, SessionOf(tableId);
    var rows := Rows(db.sessions, db.nextSessionId);
    RowsInKeyOrder(db.sessions, db.nextSessionId, id);
    FilterKeepsKeysDistinct(rows, mine, id);
    var r := SessionsOf(tableId, db);
    assert KeysDistinct(r, id);
    forall i, j | 0 <= i < j < |r| ensures r[i].id != r[j].id {
      assert id(r[i]) != id(r[j]);
    }
    forall x ensures x in r <==> x in db.sessions.Values && mine(x) {
      if x in db.sessions.Values {
        var k :| k in db.sessions && db.sessions[k] == x;
      }
    }
    ListedOnceCount(r, db.sessions, id, mine, SessionKeysOf(tableId, db));
  }

  /** Likewise `Table::reservations` lists every reservation of the table exactly once. */
  lemma ReservationsListedOnce(tableId: nat, db: Db)
    requires WellFormed(db)
    ensures var r := ReservationsOf(tableId, db);
      && (forall i, j :: 0 <= i < j < |r| ==> r[i].id != r[j].id)
      && |r| == |ReservationKeysOf(tableId, db)|
  {
    var id, mine := ReservationId, ReservationOf(tableId);
    var rows := Rows(db.reservations, db.nextReservationId);
    RowsInKeyOrder(db.reservations, db.nextReservationId, id);
    FilterKeepsKeysDistinct(rows, mine, id);
    var r := ReservationsOf(tableId, db);
    assert KeysDistinct(r, id);
    forall i, j | 0 <= i < j < |r| ensures r[i].id != r[j].id {
      assert id(r[i]) != id(r[j]);
    }
    forall x ensures x in r <==> x in db.reservations.Values && mine(x) {
      if x in db.reservations.Values {
        var k :| k in db.reservations && db.reservations[k] == x;
      }
    }
    ListedOnceCount(r, db.reservations, id, mine, ReservationKeysOf(tableId, db));
  }

  /**
   * Every table exactly once, in ascending id order: the rows of `tables`
   * in a well-formed database.
   */
  lemma TablesListedOnce(db: Db)
    requires WellFormed(db)
    ensures var rows := Rows(db.tables, db.nextTableId);
      && |rows| == |db.tables|
      && (forall i, j :: 0 <= i < j < |rows| ==> rows[i].id < rows[j].id)
  {
    var rows := Rows(db.tables, db.nextTableId);
    var any := (t: Table) => true;
    RowsInKeyOrder(db.tables, db.nextTableId, TableId);
    forall t ensures t in rows <==> t in db.tables.Values && any(t) {
      if t in db.tables.Values {
        var k :| k in db.tables && db.tables[k] == t;
      }
    }
    ListedOnceCount(rows, db.tables, TableId, any, db.tables.Keys);
    forall i, j | 0 <= i < j < |rows| ensures rows[i].id < rows[j].id {
      assert TableId(rows[i]) < TableId(rows[j]);
    }
  }
}
