/**
 * The floor-plan snapshot (the home page, and the response to a status
 * change): every table with its current session and its own upcoming
 * reservations, and the five earliest upcoming reservations of the restaurant.
 * A pure projection of the database at one instant `now`.
 */
module FloorPlan {
  import opened Wrappers
  import opened Ordering
  import opened Models

  /** How many reservations the global upcoming list shows. */
  const UpcomingLimit: nat := 5

  /** `where('status', 'confirmed')->where('reservation_time', '>=', now())`. */
  predicate IsUpcoming(r: Reservation, now: int) {
    r.status == Confirmed && r.time >= now
  }

  /** The upcoming condition as a query filter. */
  function UpcomingAt(now: int): Reservation -> bool {
    (r: Reservation) => IsUpcoming(r, now)
  }

  /** The keys of the stored upcoming reservations. */
  ghost function UpcomingKeys(db: Db, now: int): set<nat> {
    set k | k in db.reservations && IsUpcoming(db.reservations[k], now)
  }

  /** `orderBy('reservation_time')`: ascending time, ties in no promised order. */
  const ByTime: (Reservation, Reservation) -> bool := (a: Reservation, b: Reservation) => a.time <= b.time

  lemma ByTimeIsTotalPreorder()
    ensures TotalPreorder(ByTime)
  {
  }

  datatype TableView = TableView(table: Table, currentSession: Option<Session>, reservations: seq<Reservation>)

  /** A reservation with its `assignedTable` loaded, as `with('assignedTable')` returns it. */
  datatype ReservationEntry = ReservationEntry(reservation: Reservation, assignedTable: Option<Table>)

  datatype Snapshot = Snapshot(tables: seq<TableView>, upcoming: seq<ReservationEntry>)

  /** The constrained `reservations` relation of one table: its upcoming reservations by time. */
  function UpcomingOfTable(tableId: nat, db: Db, now: int): seq<Reservation> {
    SortBy(Filter(ReservationsOf(tableId, db), UpcomingAt(now)), ByTime)
  }

  function ViewOf(t: Table, db: Db, now: int): TableView {
    TableView(t, CurrentSession(t, db.sessions), UpcomingOfTable(t.id, db, now))
  }

  /** All upcoming reservations of the restaurant, earliest first. */
  function AllUpcoming(db: Db, now: int): seq<Reservation> {
    SortBy(Filter(Rows(db.reservations, db.nextReservationId), UpcomingAt(now)), ByTime)
  }

  /** `->take(5)` of the upcoming list, each with its assigned table. */
  function UpcomingEntries(db: Db, now: int): seq<ReservationEntry> {
    var q := AllUpcoming(db, now);
    var top := q[..Min(UpcomingLimit, |q|)];
    seq(|top|, i requires 0 <= i < |top| => ReservationEntry(top[i], TableOf(top[i].tableId, db)))
  }

  /** `FloorPlanController::index` (and the tail of the status change): the snapshot at `now`. */
  function Build(db: Db, now: int): Snapshot {
    Snapshot(TableViews(db, now), UpcomingEntries(db, now))
  }

  /** `Table::with([...])->get()`: every table row with its view. */
  function TableViews(db: Db, now: int): seq<TableView> {
    var rows := Rows(db.tables, db.nextTableId);
    seq(|rows|, i requires 0 <= i < |rows| => ViewOf(rows[i], db, now))
  }

  /**
   * The global upcoming list holds at most five entries, each a stored
   * confirmed reservation not in the past, with its own assigned table, in
   * ascending time.
   */
  lemma UpcomingShape(db: Db, now: int)
    ensures var u := Build(db, now).upcoming;
      && |u| <= UpcomingLimit
      && (forall i :: 0 <= i < |u| ==>
            && u[i].reservation in db.reservations.Values
            && IsUpcoming(u[i].reservation, now)
            && u[i].assignedTable == TableOf(u[i].reservation.tableId, db))
      && (forall i, j :: 0 <= i < j < |u| ==> u[i].reservation.time <= u[j].reservation.time)
  {
    var q := AllUpcoming(db, now);
    var u := Build(db, now).upcoming;
    ByTimeIsTotalPreorder();
    SortBySorted(Filter(Rows(db.reservations, db.nextReservationId), UpcomingAt(now)), ByTime);
    forall i | 0 <= i < |u|
      ensures u[i].reservation in db.reservations.Values && IsUpcoming(u[i].reservation, now)
    {
      assert u[i].reservation == q[i];
      assert q[i] in multiset(q);
    }
    forall i, j | 0 <= i < j < |u| ensures u[i].reservation.time <= u[j].reservation.time {
      assert ByTime(q[i], q[j]);
    }
  }

  /** Every stored upcoming reservation enters the sorted upcoming list exactly once. */
  lemma AllUpcomingListedOnce(db: Db, now: int)
    requires WellFormed(db)
    ensures KeysDistinct(AllUpcoming(db, now), ReservationId)
    ensures |AllUpcoming(db, now)| == |UpcomingKeys(db, now)|
  {
    var rows := Rows(db.reservations, db.nextReservationId);
    var filtered := Filter(rows, UpcomingAt(now));
    RowsInKeyOrder(db.reservations, db.nextReservationId, ReservationId);
    FilterKeepsKeysDistinct(rows, UpcomingAt(now), ReservationId);
    SortByKeepsKeysDistinct(filtered, ByTime, ReservationId);
    forall x ensures x in filtered <==> x in db.reservations.Values && UpcomingAt(now)(x) {
      if x in db.reservations.Values {
        var k :| k in db.reservations && db.reservations[k] == x;
      }
    }
    ListedOnceCount(filtered, db.reservations, ReservationId, UpcomingAt(now), UpcomingKeys(db, now));
  }

  /**
   * The upcoming list is the earliest five: it lists each reservation at
   * most once and holds min(5, number of upcoming reservations) entries, and
   * every stored upcoming reservation is listed, or five are listed and none
   * is later than it.
   */
  lemma UpcomingAreEarliest(db: Db, now: int)
    requires WellFormed(db)
    ensures var u := Build(db, now).upcoming;
      && (forall i, j :: 0 <= i < j < |u| ==> u[i].reservation.id != u[j].reservation.id)
      && |u| == Min(UpcomingLimit, |UpcomingKeys(db, now)|)
      && forall k :: k in db.reservations && IsUpcoming(db.reservations[k], now) ==>
        (exists i :: 0 <= i < |u| && u[i].reservation == db.reservations[k])
        || (|u| == UpcomingLimit && forall i :: 0 <= i < |u| ==> u[i].reservation.time <= db.reservations[k].time)
  {
    UpcomingListedOnce(db, now);
    UpcomingKeepsEarliest(db, now);
  }

  lemma UpcomingListedOnce(db: Db, now: int)
    requires WellFormed(db)
    ensures var u := Build(db, now).upcoming;
      && (forall i, j :: 0 <= i < j < |u| ==> u[i].reservation.id != u[j].reservation.id)
      && |u| == Min(UpcomingLimit, |UpcomingKeys(db, now)|)
  {
    var q := AllUpcoming(db, now);
    var u := Build(db, now).upcoming;
    AllUpcomingListedOnce(db, now);
    forall i, j | 0 <= i < j < |u| ensures u[i].reservation.id != u[j].reservation.id {
      assert u[i].reservation == q[i] && u[j].reservation == q[j];
      assert ReservationId(q[i]) != ReservationId(q[j]);
    }
  }

  lemma UpcomingKeepsEarliest(db: Db, now: int)
    requires WellFormed(db)
    ensures var u := Build(db, now).upcoming;
      forall k :: k in db.reservations && IsUpcoming(db.reservations[k], now) ==>
        (exists i :: 0 <= i < |u| && u[i].reservation == db.reservations[k])
        || (|u| == UpcomingLimit && forall i :: 0 <= i < |u| ==> u[i].reservation.time <= db.reservations[k].time)
  {
    var filtered := Filter(Rows(db.reservations, db.nextReservationId), UpcomingAt(now));
    var q := AllUpcoming(db, now);
    var top := q[..Min(UpcomingLimit, |q|)];
    var u := Build(db, now).upcoming;
    ByTimeIsTotalPreorder();
    TakeKeepsLeast(filtered, ByTime, UpcomingLimit);
    forall k | k in db.reservations && IsUpcoming(db.reservations[k], now)
      ensures (exists i :: 0 <= i < |u| && u[i].reservation == db.reservations[k])
        || (|u| == UpcomingLimit && forall i :: 0 <= i < |u| ==> u[i].reservation.time <= db.reservations[k].time)
    {
      var y := db.reservations[k];
      assert y in filtered;
      if y in top {
        var i :| 0 <= i < |top| && top[i] == y;
        assert u[i].reservation == y;
      } else {
        forall i | 0 <= i < |u| ensures u[i].reservation.time <= y.time {
          assert u[i].reservation == top[i];
          assert top[i] in top;
        }
      }
    }
  }

  /**
   * One table's view: its current session and exactly its upcoming
   * reservations, each once, by time.
   */
  lemma ViewOfExact(t: Table, db: Db, now: int)
    requires WellFormed(db)
    ensures var v := ViewOf(t, db, now);
      && v.currentSession == CurrentSession(t, db.sessions)
      && (forall x :: x in v.reservations <==>
            x in db.reservations.Values && x.tableId == t.id && IsUpcoming(x, now))
      && (forall a, b :: 0 <= a < b < |v.reservations| ==> v.reservations[a].id != v.reservations[b].id)
      && (forall a, b :: 0 <= a < b < |v.reservations| ==> v.reservations[a].time <= v.reservations[b].time)
  {
    ViewListsUpcoming(t, db, now);
    ViewListsOnce(t, db, now);
  }

  lemma ViewListsOnce(t: Table, db: Db, now: int)
    requires WellFormed(db)
    ensures var list := ViewOf(t, db, now).reservations;
      forall a, b :: 0 <= a < b < |list| ==> list[a].id != list[b].id
  {
    var mine := ReservationsOf(t.id, db);
    var filtered := Filter(mine, UpcomingAt(now));
    var list := ViewOf(t, db, now).reservations;
    ReservationsListedOnce(t.id, db);
    assert KeysDistinct(mine, ReservationId) by {
      forall a, b | 0 <= a < b < |mine| ensures ReservationId(mine[a]) != ReservationId(mine[b]) {
        assert mine[a].id != mine[b].id;
      }
    }
    FilterKeepsKeysDistinct(mine, UpcomingAt(now), ReservationId);
    SortByKeepsKeysDistinct(filtered, ByTime, ReservationId);
    forall a, b | 0 <= a < b < |list| ensures list[a].id != list[b].id {
      assert ReservationId(list[a]) != ReservationId(list[b]);
    }
  }

  lemma ViewListsUpcoming(t: Table, db: Db, now: int)
    requires WellFormed(db)
    ensures var list := ViewOf(t, db, now).reservations;
      && (forall x :: x in list <==> x in db.reservations.Values && x.tableId == t.id && IsUpcoming(x, now))
      && (forall a, b :: 0 <= a < b < |list| ==> list[a].time <= list[b].time)
  {
    var filtered := Filter(ReservationsOf(t.id, db), UpcomingAt(now));
    var list := ViewOf(t, db, now).reservations;
    ByTimeIsTotalPreorder();
    SortBySorted(filtered, ByTime);
    forall x ensures x in list <==> x in db.reservations.Values && x.tableId == t.id && IsUpcoming(x, now) {
      if x in db.reservations.Values {
        var k :| k in db.reservations && db.reservations[k] == x;
        assert k < db.nextReservationId;
      }
      assert UpcomingAt(now)(x) == IsUpcoming(x, now);
      assert x in list <==> x in multiset(filtered);
    }
    forall a, b | 0 <= a < b < |list| ensures list[a].time <= list[b].time {
      assert ByTime(list[a], list[b]);
    }
  }

  /**
   * The snapshot shows every stored table exactly once, in ascending id
   * order, each with the view ViewOfExact describes.
   */
  lemma TableViewsExact(db: Db, now: int)
    requires WellFormed(db)
    ensures Build(db, now).tables == TableViews(db, now)
    ensures var v := TableViews(db, now);
      && |v| == |db.tables|
      && (forall i, j :: 0 <= i < j < |v| ==> v[i].table.id < v[j].table.id)
      && (forall k :: k in db.tables ==> exists i :: 0 <= i < |v| && v[i].table == db.tables[k])
      && (forall i :: 0 <= i < |v| ==> v[i].table in db.tables.Values && v[i] == ViewOf(v[i].table, db, now))
  {
    TableViewsOnce(db, now);
    TableViewsCover(db, now);
  }

  lemma TableViewsOnce(db: Db, now: int)
    requires WellFormed(db)
    ensures var v := TableViews(db, now);
      && |v| == |db.tables|
      && (forall i, j :: 0 <= i < j < |v| ==> v[i].table.id < v[j].table.id)
  {
    var rows := Rows(db.tables, db.nextTableId);
    var v := TableViews(db, now);
    ViewsFollowRows(db, now);
    TablesListedOnce(db);
    forall i, j | 0 <= i < j < |v| ensures v[i].table.id < v[j].table.id {
      assert v[i].table == rows[i] && v[j].table == rows[j];
    }
  }

  lemma TableViewsCover(db: Db, now: int)
    requires WellFormed(db)
    ensures var v := TableViews(db, now);
      && (forall k :: k in db.tables ==> exists i :: 0 <= i < |v| && v[i].table == db.tables[k])
      && (forall i :: 0 <= i < |v| ==> v[i].table in db.tables.Values && v[i] == ViewOf(v[i].table, db, now))
  {
    var rows := Rows(db.tables, db.nextTableId);
    var v := TableViews(db, now);
    assert |v| == |rows|;
    forall i | 0 <= i < |v| ensures v[i].table in db.tables.Values && v[i] == ViewOf(v[i].table, db, now) {
      assert v[i] == ViewOf(rows[i], db, now);
      assert rows[i] in rows;
    }
    forall k | k in db.tables ensures exists i :: 0 <= i < |v| && v[i].table == db.tables[k] {
      assert db.tables[k] in rows;
      var i :| 0 <= i < |rows| && rows[i] == db.tables[k];
      assert v[i].table == rows[i];
    }
  }

  /** The snapshot's i-th view is the view of the i-th table row. */
  lemma ViewsFollowRows(db: Db, now: int)
    ensures var rows := Rows(db.tables, db.nextTableId);
      var v := TableViews(db, now);
      && |v| == |rows|
      && (forall i :: 0 <= i < |v| ==> v[i] == ViewOf(rows[i], db, now) && v[i].table == rows[i])
  {
  }
}
