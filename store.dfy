/**
 * The restaurant database as a mutable store: each request handler changes
 * the rows in place, step by step as the controllers do, and each is tied
 * to the pure specification of its effect (TableStatus, TableAdmin,
 * ReservationLedger), about which the properties are proved.
 * Read-only pages (the floor plan, the table listing and detail, the
 * reservation pages) are the pure functions applied to State().
 */
module Store {
  import opened Wrappers
  import opened Models
  import opened FloorPlan
  import opened TableStatus
  import opened TableRequest
  import opened TableAdmin
  import opened ReservationLedger

  class Restaurant {
    var tables: map<nat, Table>
    var sessions: map<nat, Session>
    var reservations: map<nat, Reservation>
    var nextTableId: nat
    var nextSessionId: nat
    var nextReservationId: nat

    function State(): Db
      reads this
    {
      Db(tables, sessions, reservations, nextTableId, nextSessionId, nextReservationId)
    }

    ghost predicate Valid()
      reads this
    {
      WellFormed(State())
    }

    constructor ()
      ensures Valid() && State() == EmptyDb()
    {
      tables, sessions, reservations := map[], map[], map[];
      nextTableId, nextSessionId, nextReservationId := 1, 1, 1;
    }

    /** `POST /tables/{id}/status`: the status change and the snapshot taken after it. */
    method SetStatus(tableId: nat, req: StatusRequest, now: int) returns (res: Result<Snapshot, StatusError>)
      requires Valid()
      modifies this
      ensures Valid()
      ensures (State(), res) == StoreStatus(old(State()), tableId, req, now)
      ensures old(Coherent(State())) ==> Coherent(State())
      ensures res.Failure? <==> tableId !in old(tables) || StatusErrors(req) != {}
      ensures res.Failure? ==> State() == old(State())
      ensures res.Success? ==>
        && State() == ApplyStatus(old(State()), tableId, ParseStatus(req.status.value).value, req.customerName, req.pax, now)
        && tables[tableId].status == ParseStatus(req.status.value).value
        && res.value == Build(State(), now)
    {
      if tableId !in tables {
        return Failure(TableNotFound);
      }
      var errors := StatusErrors(req);
      if errors != {} {
        return Failure(Invalid(errors));
      }
      ghost var before := State();
      var newStatus := ParseStatus(req.status.value).value;
      var table := tables[tableId];
      if newStatus == Occupied && table.status != Occupied {
        var sid := nextSessionId;
        sessions := sessions[sid := Session(sid, tableId, now, None, req.pax.GetOr(1), req.customerName)];
        nextSessionId := sid + 1;
        tables := tables[tableId := table.(status := newStatus, currentSessionId := Some(sid))];
      } else if newStatus != Occupied && table.status == Occupied {
        if HasSessionRef(table) {
          var sid := table.currentSessionId.value;
          if sid in sessions && IsOpen(sessions[sid]) {
            sessions := sessions[sid := sessions[sid].(endTime := Some(now))];
          }
        }
        tables := tables[tableId := table.(status := newStatus, currentSessionId := None)];
      } else {
        tables := tables[tableId := table.(status := newStatus)];
      }
      assert State() == ApplyStatus(before, tableId, newStatus, req.customerName, req.pax, now);
      ApplyStatusWellFormed(before, tableId, newStatus, req.customerName, req.pax, now);
      if Coherent(before) {
        CoherencePreserved(before, tableId, newStatus, req.customerName, req.pax, now);
      }
      res := Success(Build(State(), now));
    }

    /** `TableController::store` with already validated fields. */
    method CreateTable(fields: NewTable) returns (id: nat)
      requires Valid()
      modifies this
      ensures Valid()
      ensures (State(), id) == TableAdmin.CreateTable(old(State()), fields)
    {
      ghost var before := State();
      id := nextTableId;
      tables := tables[id := Table(id, fields.name, fields.capacity, fields.status.GetOr(Available),
                                   fields.positionX, fields.positionY, None)];
      nextTableId := id + 1;
      CreateTableAddsOne(before, fields);
    }

    /** `TableController::update`: a raw write of the validated fields. */
    method UpdateTable(tableId: nat, input: TableInput) returns (res: Result<Table, TableAdminError>)
      requires Valid()
      modifies this
      ensures Valid()
      ensures (State(), res) == TableAdmin.UpdateTable(old(State()), tableId, input)
    {
      if tableId !in tables {
        return Failure(TableMissing);
      }
      var errors := TableInputErrors(input);
      if errors != {} {
        return Failure(InvalidTable(errors));
      }
      ghost var before := State();
      var table := tables[tableId];
      var status := if input.status.Some? then ParseStatus(input.status.value).value else table.status;
      table := table.(name := input.name.value, capacity := input.capacity.value,
                      positionX := input.positionX.value, positionY := input.positionY.value, status := status);
      tables := tables[tableId := table];
      res := Success(table);
      UpdateWritesOnlyValidatedFields(before, tableId, input);
    }

    /** `TableController::destroy`: end the linked session, then delete the table; the schema cascades. */
    method DestroyTable(tableId: nat, now: int) returns (res: Result<Table, TableAdminError>)
      requires Valid()
      modifies this
      ensures Valid()
      ensures (State(), res) == TableAdmin.DestroyTable(old(State()), tableId, now)
      ensures old(Coherent(State())) ==> Coherent(State())
    {
      if tableId !in tables {
        return Failure(TableMissing);
      }
      ghost var before := State();
      var table := tables[tableId];
      if HasSessionRef(table) {
        var sid := table.currentSessionId.value;
        if sid in sessions {
          sessions := sessions[sid := sessions[sid].(endTime := Some(now))];
        }
      }
      tables := tables - {tableId};
      sessions := map k | k in sessions && sessions[k].tableId != tableId :: sessions[k];
      reservations := map k | k in reservations && reservations[k].tableId != tableId :: reservations[k];
      res := Success(table);
      assert (State(), res) == TableAdmin.DestroyTable(before, tableId, now);
      DestroyWellFormed(before, tableId, now);
      if Coherent(before) {
        DestroyKeepsCoherence(before, tableId, now);
      }
    }

    /** `ReservationController::store`. */
    method CreateReservation(input: ReservationInput) returns (res: Result<nat, ReservationError>)
      requires Valid()
      modifies this
      ensures Valid()
      ensures (State(), res) == StoreReservation(old(State()), input)
      ensures Coherent(State()) == old(Coherent(State()))
    {
      var errors := ReservationErrors(input, State());
      if errors != {} {
        return Failure(InvalidReservation(errors));
      }
      ghost var before := State();
      var id := nextReservationId;
      reservations := reservations[id := Reservation(id, input.customerName.value, input.customerPhone.value,
                                                     input.pax.value, input.time.value, input.tableId.value as nat,
                                                     input.status.GetOr(Confirmed))];
      nextReservationId := id + 1;
      res := Success(id);
      StoreAddsExactlyOne(before, input);
    }

    /** `ReservationController::update`. */
    method UpdateReservation(id: nat, input: ReservationInput) returns (res: Result<nat, ReservationError>)
      requires Valid()
      modifies this
      ensures Valid()
      ensures (State(), res) == ReservationLedger.UpdateReservation(old(State()), id, input)
      ensures Coherent(State()) == old(Coherent(State()))
    {
      if id !in reservations {
        return Failure(ReservationMissing);
      }
      var errors := ReservationErrors(input, State());
      if errors != {} {
        return Failure(InvalidReservation(errors));
      }
      ghost var before := State();
      var was := reservations[id];
      reservations := reservations[id := Reservation(id, input.customerName.value, input.customerPhone.value,
                                                     input.pax.value, input.time.value, input.tableId.value as nat,
                                                     input.status.GetOr(was.status))];
      res := Success(id);
      UpdateChangesOnlyTarget(before, id, input);
    }

    /** `ReservationController::destroy`. */
    method DestroyReservation(id: nat) returns (res: Result<nat, ReservationError>)
      requires Valid()
      modifies this
      ensures Valid()
      ensures (State(), res) == ReservationLedger.DestroyReservation(old(State()), id)
      ensures Coherent(State()) == old(Coherent(State()))
    {
      if id !in reservations {
        return Failure(ReservationMissing);
      }
      ghost var before := State();
      reservations := reservations - {id};
      res := Success(id);
      DestroyRemovesOnlyTarget(before, id);
    }
  }
}
