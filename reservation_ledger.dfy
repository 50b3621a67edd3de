/**
 * The reservation ledger: the listing ordered by reservation time in pages
 * of twenty, the table choices of the create and edit forms ordered by
 * name, and the creation, edit and removal of single reservations.
 */
module ReservationLedger {
  import opened Wrappers
  import opened Ordering
  import opened Models
  import opened TableRequest
  import opened FloorPlan

  /** `paginate(20)`. */
  const PerPage: nat := 20

  /** The reservation form's fields; an absent field, or a time that does not parse, is None. */
  datatype ReservationInput = ReservationInput(
    customerName: Option<string>,
    customerPhone: Option<string>,
    pax: Option<int>,
    time: Option<int>,
    tableId: Option<int>,
    status: Option<ReservationStatus>)

  datatype ReservationField = CustomerNameField | CustomerPhoneField | PaxField | TimeField | AssignedTableField

  datatype ReservationError = ReservationMissing | InvalidReservation(fields: set<ReservationField>)

  /** Names and phones are required, pax is at least 1, the time parses, and the table exists. */
  function ReservationErrors(input: ReservationInput, db: Db): set<ReservationField> {
    (if !Filled(input.customerName) then {CustomerNameField} else {})
    + (if !Filled(input.customerPhone) then {CustomerPhoneField} else {})
    + (if input.pax.None? || input.pax.value < 1 then {PaxField} else {})
    + (if input.time.None? then {TimeField} else {})
    + (if input.tableId.None? || input.tableId.value < 0 || input.tableId.value as nat !in db.tables
       then {AssignedTableField} else {})
  }

  /** `ReservationController::store`: insert under the next id, status defaulting to Confirmed. */
  function StoreReservation(db: Db, input: ReservationInput): (Db, Result<nat, ReservationError>) {
    if ReservationErrors(input, db) != {} then (db, Failure(InvalidReservation(ReservationErrors(input, db))))
    else
      var id := db.nextReservationId;
      var r := Reservation(id, input.customerName.value, input.customerPhone.value, input.pax.value,
                           input.time.value, input.tableId.value as nat, input.status.GetOr(Confirmed));
      (db.(reservations := db.reservations[id := r], nextReservationId := id + 1), Success(id))
  }

  /** `ReservationController::update`: rewrite the validated fields; an absent status is kept. */
  function UpdateReservation(db: Db, id: nat, input: ReservationInput): (Db, Result<nat, ReservationError>) {
    if id !in db.reservations then (db, Failure(ReservationMissing))
    else if ReservationErrors(input, db) != {} then (db, Failure(InvalidReservation(ReservationErrors(input, db))))
    else
      var was := db.reservations[id];
      var r := Reservation(id, input.customerName.value, input.customerPhone.value, input.pax.value,
                           input.time.value, input.tableId.value as nat, input.status.GetOr(was.status));
      (db.(reservations := db.reservations[id := r]), Success(id))
  }

  /** `ReservationController::destroy`. */
  function DestroyReservation(db: Db, id: nat): (Db, Result<nat, ReservationError>) {
    if id !in db.reservations then (db, Failure(ReservationMissing))
    else (db.(reservations := db.reservations - {id}), Success(id))
  }

  /** `ReservationController::show`: the reservation with its assigned table. */
  function ShowReservation(db: Db, id: nat): (r: Option<(Reservation, Option<Table>)>)
    ensures r.Some? <==> id in db.reservations
    ensures r.Some? ==> r.value.0 == db.reservations[id] && r.value.1 == TableOf(db.reservations[id].tableId, db)
  {
    if id in db.reservations then Some((db.reservations[id], TableOf(db.reservations[id].tableId, db))) else None
  }

  /** Every reservation ordered by `reservation_time`. */
  function ByTimeOrder(db: Db): seq<Reservation> {
    SortBy(Rows(db.reservations, db.nextReservationId), ByTime)
  }

  /** `Reservation::with('assignedTable')->orderBy('reservation_time')`: each reservation with its table. */
  function Listing(db: Db): seq<ReservationEntry> {
    var q := ByTimeOrder(db);
    seq(|q|, i requires 0 <= i < |q| => ReservationEntry(q[i], TableOf(q[i].tableId, db)))
  }

  /** The page number the paginator uses: anything below 1 means page 1. */
  function CurrentPage(page: int): nat {
    if page >= 1 then page else 1
  }

  /** `ReservationController::index`: one page of the listing. */
  function Page(db: Db, page: int): seq<ReservationEntry> {
    var q := Listing(db);
    var p := CurrentPage(page);
    q[Min((p - 1) * PerPage, |q|)..Min(p * PerPage, |q|)]
  }

  /**
   * The listing holds every stored reservation exactly once and nothing
   * else, in ascending time, each with its assigned table: the stored table
   * it names, or none when that table is gone.
   */
  lemma ListingExact(db: Db)
    requires WellFormed(db)
    ensures var q := Listing(db);
      && |q| == |db.reservations|
      && (forall i, j :: 0 <= i < j < |q| ==> q[i].reservation.id != q[j].reservation.id)
      && (forall i :: 0 <= i < |q| ==> q[i].reservation in db.reservations.Values)
      && (forall x :: x in db.reservations.Values ==> exists i :: 0 <= i < |q| && q[i].reservation == x)
      && (forall i, j :: 0 <= i < j < |q| ==> q[i].reservation.time <= q[j].reservation.time)
      && (forall i :: 0 <= i < |q| ==> q[i].assignedTable == TableOf(q[i].reservation.tableId, db))
  {
    var o := ByTimeOrder(db);
    var q := Listing(db);
    ListingHoldsEachOnce(db);
    ByTimeOrderSorted(db);
    assert |q| == |o|;
    assert forall i :: 0 <= i < |q| ==> q[i] == ReservationEntry(o[i], TableOf(o[i].tableId, db));
    forall x | x in db.reservations.Values ensures exists i :: 0 <= i < |q| && q[i].reservation == x {
      var i :| 0 <= i < |o| && o[i] == x;
      assert q[i].reservation == x;
    }
  }

  lemma ByTimeOrderSorted(db: Db)
    ensures var o := ByTimeOrder(db);
      forall i, j :: 0 <= i < j < |o| ==> o[i].time <= o[j].time
  {
    var o := ByTimeOrder(db);
    ByTimeIsTotalPreorder();
    SortBySorted(Rows(db.reservations, db.nextReservationId), ByTime);
    forall i, j | 0 <= i < j < |o| ensures o[i].time <= o[j].time {
      assert ByTime(o[i], o[j]);
    }
  }

  lemma ListingHoldsEachOnce(db: Db)
    requires WellFormed(db)
    ensures var q := ByTimeOrder(db);
      && |q| == |db.reservations|
      && (forall i, j :: 0 <= i < j < |q| ==> q[i].id != q[j].id)
      && (forall x :: x in q <==> x in db.reservations.Values)
  {
    var rows := Rows(db.reservations, db.nextReservationId);
    var q := ByTimeOrder(db);
    ReservationRowsOnce(db);
    SortByKeepsKeysDistinct(rows, ByTime, ReservationId);
    forall i, j | 0 <= i < j < |q| ensures q[i].id != q[j].id {
      assert ReservationId(q[i]) != ReservationId(q[j]);
    }
    forall x ensures x in q <==> x in db.reservations.Values {
      assert x in q <==> x in multiset(rows);
    }
  }

  /** The rows of `reservations`: each stored reservation once. */
  lemma ReservationRowsOnce(db: Db)
    requires WellFormed(db)
    ensures var rows := Rows(db.reservations, db.nextReservationId);
      && |rows| == |db.reservations|
      && KeysDistinct(rows, ReservationId)
      && (forall x :: x in rows <==> x in db.reservations.Values)
  {
    var rows := Rows(db.reservations, db.nextReservationId);
    var any := (x: Reservation) => true;
    RowsInKeyOrder(db.reservations, db.nextReservationId, ReservationId);
    forall x ensures x in rows <==> x in db.reservations.Values && any(x) {
      if x in db.reservations.Values {
        var k :| k in db.reservations && db.reservations[k] == x;
      }
    }
    ListedOnceCount(rows, db.reservations, ReservationId, any, db.reservations.Keys);
  }

  /** A page holds at most twenty reservations: page p holds listing positions (p-1)*20 to p*20-1. */
  lemma PageShape(db: Db, page: int)
    ensures var q := Listing(db);
      var p := Page(db, page);
      var first := (CurrentPage(page) - 1) * PerPage;
      && |p| <= PerPage
      && (forall i :: 0 <= i < |p| ==> first + i < |q| && p[i] == q[first + i])
  {
  }

  /** Every position of the listing is found on page i/20 + 1 at place i mod 20. */
  lemma EveryReservationOnItsPage(db: Db, i: nat)
    requires i < |Listing(db)|
    ensures var p := Page(db, i / PerPage + 1);
      i % PerPage < |p| && p[i % PerPage] == Listing(db)[i]
  {
  }

  /** `orderBy('table_name')`. */
  const ByName: (Table, Table) -> bool := (a: Table, b: Table) => NameLe(a.name, b.name)

  lemma ByNameIsTotalPreorder()
    ensures TotalPreorder(ByName)
  {
    forall a: Table, b: Table ensures ByName(a, b) || ByName(b, a) {
      NameLeTotal(a.name, b.name);
    }
    forall a: Table, b: Table, c: Table | ByName(a, b) && ByName(b, c) ensures ByName(a, c) {
      NameLeTransitive(a.name, b.name, c.name);
    }
  }

  /** The create and edit forms' table list. */
  function TableChoices(db: Db): seq<Table> {
    SortBy(Rows(db.tables, db.nextTableId), ByName)
  }

  /** The table choices are every stored table exactly once, ordered by name. */
  lemma TableChoicesExact(db: Db)
    requires WellFormed(db)
    ensures var c := TableChoices(db);
      && |c| == |db.tables|
      && (forall i, j :: 0 <= i < j < |c| ==> c[i].id != c[j].id)
      && (forall t :: t in c <==> t in db.tables.Values)
      && (forall i, j :: 0 <= i < j < |c| ==> NameLe(c[i].name, c[j].name))
  {
    var rows := Rows(db.tables, db.nextTableId);
    var c := TableChoices(db);
    TablesListedOnce(db);
    assert KeysDistinct(rows, TableId) by {
      forall i, j | 0 <= i < j < |rows| ensures TableId(rows[i]) != TableId(rows[j]) {
        assert rows[i].id < rows[j].id;
      }
    }
    SortByKeepsKeysDistinct(rows, ByName, TableId);
    forall i, j | 0 <= i < j < |c| ensures c[i].id != c[j].id {
      assert TableId(c[i]) != TableId(c[j]);
    }
    ByNameIsTotalPreorder();
    SortBySorted(rows, ByName);
    forall t ensures t in c <==> t in db.tables.Values {
      if t in db.tables.Values {
        var k :| k in db.tables && db.tables[k] == t;
      }
      assert t in c <==> t in multiset(rows);
    }
    forall i, j | 0 <= i < j < |c| ensures NameLe(c[i].name, c[j].name) {
      assert ByName(c[i], c[j]);
    }
  }

  /**
   * The feature test's bad form: empty name and phone, pax 0, an
   * unparsable time and a table that does not exist fails on every one of
   * those fields, and nothing is stored.
   */
  lemma BadFormRejectedOnEveryField(db: Db)
    requires 999 !in db.tables
    ensures var input := ReservationInput(Some(""), Some(""), Some(0), None, Some(999), None);
      && StoreReservation(db, input).0 == db
      && StoreReservation(db, input).1 ==
           Failure(InvalidReservation({CustomerNameField, CustomerPhoneField, PaxField, TimeField, AssignedTableField}))
  {
    var input := ReservationInput(Some(""), Some(""), Some(0), None, Some(999), None);
    assert !Filled(input.customerName) && !Filled(input.customerPhone);
    assert ReservationErrors(input, db) == {CustomerNameField, CustomerPhoneField, PaxField, TimeField, AssignedTableField};
  }

  /** Creation either refuses and stores nothing, or adds exactly one reservation with the given fields. */
  lemma StoreAddsExactlyOne(db: Db, input: ReservationInput)
    requires WellFormed(db)
    ensures var (db', res) := StoreReservation(db, input);
      && (res.Failure? <==> ReservationErrors(input, db) != {})
      && (res.Failure? ==> db' == db)
      && (res.Success? ==>
            var id := res.value;
            var r := db'.reservations[id];
            && id !in db.reservations
            && db'.reservations == db.reservations[id := r]
            && r.id == id && Some(r.customerName) == input.customerName && Some(r.customerPhone) == input.customerPhone
            && Some(r.pax) == input.pax && r.pax >= 1 && Some(r.time) == input.time
            && r.tableId in db.tables && input.tableId == Some(r.tableId as int)
            && r.status == (if input.status.Some? then input.status.value else Confirmed)
            && db'.tables == db.tables && db'.sessions == db.sessions
            && WellFormed(db'))
  {
  }

  /** An edit rewrites only the targeted reservation, keeping its id and, when none is given, its status. */
  lemma UpdateChangesOnlyTarget(db: Db, id: nat, input: ReservationInput)
    requires WellFormed(db)
    ensures var (db', res) := UpdateReservation(db, id, input);
      && (res.Failure? <==> id !in db.reservations || ReservationErrors(input, db) != {})
      && (res.Failure? ==> db' == db)
      && (res.Success? ==>
            var r := db'.reservations[id];
            && db'.reservations == db.reservations[id := r]
            && r.id == id && Some(r.customerName) == input.customerName && Some(r.customerPhone) == input.customerPhone
            && Some(r.pax) == input.pax && r.pax >= 1 && Some(r.time) == input.time
            && r.tableId in db.tables && input.tableId == Some(r.tableId as int)
            && r.status == (if input.status.Some? then input.status.value else db.reservations[id].status)
            && db'.tables == db.tables && db'.sessions == db.sessions
            && WellFormed(db'))
  {
  }

  /** Removal deletes only the targeted reservation. */
  lemma DestroyRemovesOnlyTarget(db: Db, id: nat)
    requires WellFormed(db)
    ensures var (db', res) := DestroyReservation(db, id);
      && (res.Failure? <==> id !in db.reservations)
      && (res.Failure? ==> db' == db)
      && (res.Success? ==>
            && db'.reservations.Keys == db.reservations.Keys - {id}
            && (forall k :: k in db'.reservations ==> db'.reservations[k] == db.reservations[k])
            && db'.tables == db.tables && db'.sessions == db.sessions
            && WellFormed(db'))
  {
  }
}
