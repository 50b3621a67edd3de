# Restaurant table manager — a verified model

This project models the core of a restaurant floor-plan manager, a Laravel application with a React front end. Its parts:

- **Tables** sit on a floor plan. Each has a name, a capacity, a position and one of five statuses: available, occupied, reserved, cleaning, billed.
- **Table sessions** are the periods in which a party occupies a table. A session has a start time, an optional end time, a party size (pax) and an optional customer name. An open session is one with no end time.
- **Reservations** are bookings for a date and time, which the schema does not require to be in the future. Each names an assigned table and has its own status: confirmed, seated, cancelled, completed.

The centre of the model is the status state machine behind `POST /tables/{id}/status`:

- seating a table that is not occupied opens a new session and links it to the table;
- moving an occupied table to any other status closes the linked session, if it is still open, and clears the link;
- every other change rewrites only the status.

The model also covers:

- the floor-plan snapshot, which is every table with its current session and upcoming confirmed reservations, plus the five earliest upcoming reservations overall;
- creating, editing, showing and deleting tables, including the cascade on delete;
- creating, editing, showing, deleting and listing reservations, with 20 per page;
- the validation rules of these requests;
- the display helpers of the two React pages: the floor plan and the reservation list.

The database is a value `Models.Db`. It holds three maps from id to record and the three auto-increment counters. The class `Store.Restaurant` keeps the same maps and counters as fields. Its methods change them in place, step by step, as the controllers do. Each method is proved to leave the store in the state that the pure function of the matching module computes, and the properties are proved about those functions as lemmas:

| module | models |
|---|---|
| `TableStatus` | the status controller |
| `FloorPlan` | the snapshot |
| `TableAdmin` | the table controller |
| `TableRequest` | the table edit rules |
| `ReservationLedger` | the reservation controller |
| `WelcomePage` | the floor-plan page helpers |
| `ReservationsPage` | the reservation list helpers |

The main invariant is `TableStatus.Coherent`. It has three parts:

- a table links a session exactly when it is occupied;
- a linked session belongs to that table and is open;
- every open session is its table's linked session.

The status controller preserves it, deleting a table preserves it, and reservation writes do not touch it. Creating a table preserves it unless the table is created with status occupied: such a table has no session, so the result is never coherent (`TableAdmin.CreateOccupiedBreaksCoherence`). A raw table edit can break it as well, because the edit form may set the status without touching sessions; `TableAdmin.RawUpdateCanBreakCoherence` shows an example.

The clock is a parameter: `now` and `elapsedMillis` are integers in the same unit as the stored times. Times are compared as integers. Decoding a time from text is not modelled: a time that fails to parse is `None`.

## Model

| member | source | states |
|---|---|---|
| Models.ParseStatus | database/migrations/2024_01_01_000003_create_tables_table.php:18 | a string is accepted as a table status exactly when it is the name of one of the five statuses, and then it maps to that status |
| Models.ParseReservationStatus | database/migrations/2024_01_01_000004_create_reservations_table.php:21 | a string is accepted as a reservation status exactly when it names one of the four statuses, and then it maps to that status |
| Models.EmptyDb | database/migrations/2024_01_01_000003_create_tables_table.php:14-26 | a fresh database has no tables, sessions or reservations, and satisfies the key and foreign-key invariant |
| Models.CurrentSession | app/Models/Table.php:75-78 | the `currentSession` relation yields a session exactly when the table's link names a stored session, and then it yields that session |
| Models.SessionsOf | app/Models/Table.php:83-86 | the `sessions` relation lists only stored sessions of the table, and every stored session of the table is listed; that each is listed once is `Models.SessionsListedOnce` |
| Models.SessionsListedOnce | app/Models/Table.php:83-86 | in a well-formed database the `sessions` relation lists each session of the table exactly once: the ids are distinct and the length is the number of the table's sessions |
| Models.ReservationsOf | app/Models/Table.php:91-94 | the `reservations` relation lists only stored reservations assigned to the table, and every one of them is listed; that each is listed once is `Models.ReservationsListedOnce` |
| Models.ReservationsListedOnce | app/Models/Table.php:91-94 | in a well-formed database the `reservations` relation lists each reservation of the table exactly once: the ids are distinct and the length is the number of the table's reservations |
| Models.TablesListedOnce | app/Http/Controllers/TableController.php:21 | in a well-formed database the table query `Table::with([...])->get()` yields one row per stored table and no row twice (the model lists them in key order, see Left out) |
| Models.TableOf | app/Models/TableSession.php:76-79 | a `belongsTo` table relation yields a table exactly when the foreign key names a stored table, and then it yields that table |
| Ordering.SortBy | app/Http/Controllers/ReservationController.php:20 | an `orderBy` result has the same length and the same rows, as a multiset, as its input |
| Ordering.SortBySorted | app/Http/Controllers/FloorPlanController.php:26 | under a total preorder an `orderBy` result is sorted |
| Ordering.TakeKeepsLeast | app/Http/Controllers/FloorPlanController.php:26-27 | after sorting and taking k rows, every input row is either kept or, when k rows were kept, sits no earlier than every kept row |
| Ordering.Rows | app/Http/Controllers/TableController.php:21 | a `get()` over a table returns only stored rows and every stored row with an id below the counter |
| Ordering.RowsInKeyOrder | app/Http/Controllers/TableController.php:21 | when each row stores its own key, the model's listing of a `get()` without `orderBy` holds the rows in strictly ascending key order, so no row twice |
| Ordering.Filter | app/Http/Controllers/FloorPlanController.php:24-25 | a `where` keeps exactly the rows that meet its condition, and never adds rows or repeats one: its result is a sub-multiset of its input |
| Ordering.FilterKeepsKeysDistinct | app/Http/Controllers/FloorPlanController.php:24-25 | a `where` over rows with distinct keys yields rows with distinct keys |
| Ordering.SortByKeepsKeysDistinct | app/Http/Controllers/ReservationController.php:20 | an `orderBy` over rows with distinct keys yields rows with distinct keys |
| Ordering.ListedOnceCount | app/Http/Controllers/ReservationController.php:19-21 | a list holding exactly the stored rows that meet a condition, none twice, is as long as the number of such rows |
| Ordering.NameLeTotal | app/Http/Controllers/ReservationController.php:33 | any two table names are comparable in the name order |
| Ordering.NameLeTransitive | app/Http/Controllers/ReservationController.php:33 | the name order is transitive |
| Ordering.NameLeAntisymmetric | app/Http/Controllers/ReservationController.php:33 | two names each no greater than the other are equal |
| TableStatus.CloseCurrentIfOpen | app/Http/Controllers/TableStatusController.php:43-48 | closing the linked session keeps every session id, changes no session but the linked one, and changes only its end time, to now |
| TableStatus.StatusErrors | app/Http/Controllers/TableStatusController.php:18-22 | the validation rules of the status request; no contract of its own, its behaviour is stated by `TableStatus.InvalidRequestChangesNothing` |
| TableStatus.ApplyStatus | app/Http/Controllers/TableStatusController.php:28-57 | the three branches of the state machine; no contract of its own, its behaviour is stated by `TableStatus.SeatOpensOneSession`, `TableStatus.ReleaseClosesCurrentSession`, `TableStatus.NoCrossingWritesOnlyStatus` and `TableStatus.CoherencePreserved` |
| TableStatus.StoreStatus | app/Http/Controllers/TableStatusController.php:16-78 | the request fails exactly when the table is missing or a field is invalid, and then writes nothing; on success the table set is unchanged. The success path is stated by `TableStatus.StatusRequestApplied` |
| TableStatus.StatusRequestApplied | app/Http/Controllers/TableStatusController.php:24-78 | a valid request for a stored table on a well-formed database succeeds. The new database is the state-machine step for the parsed status, stays well-formed (and coherent if it was) and keeps the table set, and the table carries the new status. The answer is the floor plan of the new database: every table once, the changed one included, and at most 5 upcoming bookings |
| TableStatus.SnapshotListsTable | app/Http/Controllers/TableStatusController.php:60-71 | the floor plan taken after the change lists each stored table once, as many views as tables, and at most 5 upcoming bookings |
| TableStatus.AtMostOneOpenSession | app/Http/Controllers/TableStatusController.php:28-53 | in a coherent database a table has at most one open session |
| TableStatus.InvalidRequestChangesNothing | app/Http/Controllers/TableStatusController.php:18-22 | a missing table or a request that fails validation changes nothing and fails. The status error is reported exactly when the status is missing or not one of the five, the pax error exactly when pax is below 1, and the name error exactly when the name exceeds 255 characters |
| TableStatus.SeatOpensOneSession | app/Http/Controllers/TableStatusController.php:28-40 | seating a table that is not occupied adds exactly one session under the next id. That session starts now, is open, has the given pax or 1 and the given name, and becomes the table's current session. No other table, session or reservation changes; the session counter moves on by one and the other counters stay |
| TableStatus.ReleaseClosesCurrentSession | app/Http/Controllers/TableStatusController.php:41-53 | moving an occupied table to another status sets that status and clears the link. The linked session gets end time now if its id is truthy and it is still open. No other row changes |
| TableStatus.NoCrossingWritesOnlyStatus | app/Http/Controllers/TableStatusController.php:54-57 | a change that neither enters nor leaves occupied rewrites the table's status and nothing else |
| TableStatus.LinkConsistencyPreserved | app/Http/Controllers/TableStatusController.php:28-57 | if a table links a session exactly when it is occupied, that still holds after any status change |
| TableStatus.ApplyStatusWellFormed | app/Http/Controllers/TableStatusController.php:28-57 | a status change keeps every key, id and foreign-key invariant of the database |
| TableStatus.CoherencePreserved | app/Http/Controllers/TableStatusController.php:28-57 | a status change keeps the database coherent: links match occupancy, every link names an open session of its table, and every open session is linked |
| TableStatus.SeatThenRelease | app/Http/Controllers/TableStatusController.php:28-53 | seating and then moving to a non-occupied status leaves exactly one new session, closed at the second time; a further non-occupied change writes no session |
| FloorPlan.ByTimeIsTotalPreorder | app/Http/Controllers/FloorPlanController.php:20 | ordering reservations by time is a total preorder |
| FloorPlan.UpcomingShape | app/Http/Controllers/FloorPlanController.php:23-28 | the upcoming list has at most 5 entries. Each is a stored reservation that is confirmed and not in the past, and carries its assigned table. The list is in ascending time |
| FloorPlan.ViewOf | app/Http/Controllers/FloorPlanController.php:17-21 | one table with its eager-loaded relations; no contract of its own, its behaviour is stated by `FloorPlan.ViewOfExact` |
| FloorPlan.UpcomingEntries | app/Http/Controllers/FloorPlanController.php:23-28 | the upcoming query with `take(5)` and its assigned tables; no contract of its own, its behaviour is stated by `FloorPlan.UpcomingShape` and `FloorPlan.UpcomingAreEarliest` |
| FloorPlan.Build | app/Http/Controllers/FloorPlanController.php:15-33 | the snapshot; no contract of its own, its behaviour is stated by `FloorPlan.TableViewsExact`, `FloorPlan.UpcomingShape` and `FloorPlan.UpcomingAreEarliest` |
| FloorPlan.AllUpcomingListedOnce | app/Http/Controllers/FloorPlanController.php:23-26 | before `take(5)`, the upcoming query holds each stored upcoming reservation exactly once: distinct ids, and as many entries as upcoming reservations |
| FloorPlan.UpcomingAreEarliest | app/Http/Controllers/FloorPlanController.php:23-28 | the upcoming list has distinct reservations and min(5, number of upcoming reservations) entries, and every upcoming reservation is listed unless the list is full and every listed one is no later than it |
| FloorPlan.ViewOfExact | app/Http/Controllers/FloorPlanController.php:17-21 | a table's view carries its current session and exactly its confirmed reservations that are not in the past, each once, in ascending time |
| FloorPlan.TableViewsExact | app/Http/Controllers/FloorPlanController.php:17-21 | the snapshot of `Table::with([...])->get()` shows every stored table exactly once, as many views as tables, and only stored tables, each with its own view (listed in key order, see Left out) |
| TableRequest.TableInputErrors | app/Http/Requests/UpdateTableRequest.php:24-30 | the edit rules as a set of failing fields; no contract of its own, its behaviour is stated by `TableRequest.AcceptedIffRulesHold` |
| TableRequest.AcceptedIffRulesHold | app/Http/Requests/UpdateTableRequest.php:24-30 | an edit is accepted exactly when: the name is present, not blank and at most 255 characters; the capacity is 1 to 20; both positions are in [0, 1000]; and the status is absent or one of the five |
| TableAdmin.ByRecentStartIsTotalPreorder | app/Http/Controllers/TableController.php:53 | ordering sessions by descending start time is a total preorder |
| TableAdmin.Index | app/Http/Controllers/TableController.php:19-26 | the table index; no contract of its own, its behaviour is stated by `TableAdmin.IndexExact` |
| TableAdmin.IndexExact | app/Http/Controllers/TableController.php:19-26 | the table index of `Table::with([...])->get()` lists every stored table exactly once, as many entries as tables, and only those (in key order, see Left out). Each carries its current session and exactly its reservations, each once |
| TableAdmin.Show | app/Http/Controllers/TableController.php:50-59 | a detail exists exactly when the table is stored (a missing table is not found); it shows the requested table and that table's current session. Its reservations are stated by `TableAdmin.ShowViewExact` and its sessions by `TableAdmin.ShowListsRecentSessions` |
| TableAdmin.ShowViewExact | app/Http/Controllers/TableController.php:50-59 | a stored table's detail shows that table, its current session and exactly its reservations, each once |
| TableAdmin.ShowListsRecentSessions | app/Http/Controllers/TableController.php:50-59 | a stored table's detail lists at most 10 of its sessions, each once, newest first. Every omitted session is no newer than all listed ones |
| TableAdmin.CreateTable | app/Http/Controllers/TableController.php:39-45 | the insert; no contract of its own, its behaviour is stated by `TableAdmin.CreateTableAddsOne` |
| TableAdmin.CreateTableAddsOne | app/Http/Controllers/TableController.php:39-45 | creating a table adds one table under a fresh id with the given name, capacity and positions. Its status is the given one or available, and it has no session link. Nothing else changes, the key invariants hold, and coherence is kept unless the status is occupied |
| TableAdmin.CreateOccupiedBreaksCoherence | app/Http/Controllers/TableController.php:39-45 | a table created with status occupied leaves the database incoherent, whatever it was before, since no session is opened |
| TableAdmin.UpdateTable | app/Http/Controllers/TableController.php:74-80 | the edit; no contract of its own, its behaviour is stated by `TableAdmin.UpdateWritesOnlyValidatedFields` |
| TableAdmin.UpdateWritesOnlyValidatedFields | app/Http/Controllers/TableController.php:74-80 | an edit fails, changing nothing, exactly when the table is missing or a rule fails. Otherwise it writes exactly the submitted name, capacity and positions, which then meet the rules, and the status, or keeps the old status when none is given, and keeps the session link |
| TableAdmin.RawUpdateCanBreakCoherence | app/Http/Controllers/TableController.php:74-80 | there is a coherent database and an accepted edit that leaves it incoherent, since the edit sets the status without opening or closing a session |
| TableAdmin.EndLinkedSession | app/Http/Controllers/TableController.php:87-93 | the deletion's first step keeps every session id, changes no session but the linked one, and changes only its end time, to now |
| TableAdmin.Cascade | database/migrations/2024_01_01_000005_create_sessions_table.php:16 | the database's cascade on delete; no contract of its own, its behaviour is stated by `TableAdmin.DestroyCascades` and `TableAdmin.DestroyWellFormed` |
| TableAdmin.DestroyTable | app/Http/Controllers/TableController.php:85-99 | the delete; no contract of its own, its behaviour is stated by `TableAdmin.DestroyCascades` and `TableAdmin.DestroyKeepsCoherence` |
| TableAdmin.DestroyCascades | app/Http/Controllers/TableController.php:85-99 | deleting a table removes it and, by the foreign keys' cascade, its sessions and reservations. The linked session's end time is set to now when the link is truthy. Every other row is untouched |
| TableAdmin.DestroyWellFormed | app/Http/Controllers/TableController.php:85-99 | deleting a table keeps every key, id and foreign-key invariant |
| TableAdmin.DestroyKeepsCoherence | app/Http/Controllers/TableController.php:85-99 | in a coherent database deleting a table amounts to the cascade alone and leaves a coherent, well-formed database |
| ReservationLedger.ShowReservation | app/Http/Controllers/ReservationController.php:54-61 | a reservation is shown exactly when it is stored, together with its assigned table |
| ReservationLedger.ReservationErrors | tests/Feature/RestaurantManagementTest.php:182-200 | the reservation rules as a set of failing fields; no contract of its own, its behaviour is stated by `ReservationLedger.BadFormRejectedOnEveryField` and `ReservationLedger.StoreAddsExactlyOne` |
| ReservationLedger.Listing | app/Http/Controllers/ReservationController.php:19-20 | the sorted listing, each reservation with its `assignedTable` loaded; no contract of its own, its behaviour is stated by `ReservationLedger.ListingExact` |
| ReservationLedger.ListingExact | app/Http/Controllers/ReservationController.php:17-26 | the listing holds every stored reservation exactly once, with distinct ids and as many entries as reservations, and nothing else, in ascending time. Each entry carries the reservation's assigned table: the stored table it names, or none, which the page reads for the table's name and seats |
| ReservationLedger.Page | app/Http/Controllers/ReservationController.php:19-21 | one page of the listing, entries with their assigned tables; no contract of its own, its behaviour is stated by `ReservationLedger.PageShape` and `ReservationLedger.EveryReservationOnItsPage` |
| ReservationLedger.PageShape | app/Http/Controllers/ReservationController.php:19-21 | a page holds at most 20 reservations: the consecutive slice of the listing that starts at (page - 1) * 20, with a page below 1 read as page 1 |
| ReservationLedger.EveryReservationOnItsPage | app/Http/Controllers/ReservationController.php:19-21 | the i-th reservation of the listing appears on page i div 20 + 1 at position i mod 20 |
| ReservationLedger.ByNameIsTotalPreorder | app/Http/Controllers/ReservationController.php:68 | ordering tables by name is a total preorder |
| ReservationLedger.TableChoices | app/Http/Controllers/ReservationController.php:33 | the form's table list; no contract of its own, its behaviour is stated by `ReservationLedger.TableChoicesExact` |
| ReservationLedger.TableChoicesExact | app/Http/Controllers/ReservationController.php:31-38 | the create and edit forms offer every stored table exactly once, as many as there are tables, and only those, ordered by name |
| ReservationLedger.BadFormRejectedOnEveryField | tests/Feature/RestaurantManagementTest.php:182-200 | an empty name and phone, pax 0, an unparsable time and a missing table are each reported, and nothing is stored |
| ReservationLedger.StoreReservation | app/Http/Controllers/ReservationController.php:43-49 | the insert; no contract of its own, its behaviour is stated by `ReservationLedger.StoreAddsExactlyOne` |
| ReservationLedger.StoreAddsExactlyOne | app/Http/Controllers/ReservationController.php:43-49 | creating fails, changing nothing, exactly when a rule fails. Otherwise it adds one reservation under a fresh id with the validated fields and status confirmed by default, and keeps the invariants |
| ReservationLedger.UpdateChangesOnlyTarget | app/Http/Controllers/ReservationController.php:79-85 | editing fails, changing nothing, exactly when the reservation is missing or a rule fails. Otherwise only that reservation is rewritten, under its own id, with exactly the submitted name, phone, pax, time and table, keeping its status when none is given |
| ReservationLedger.UpdateReservation | app/Http/Controllers/ReservationController.php:79-85 | the edit; no contract of its own, its behaviour is stated by `ReservationLedger.UpdateChangesOnlyTarget` |
| ReservationLedger.DestroyReservation | app/Http/Controllers/ReservationController.php:90-96 | the delete; no contract of its own, its behaviour is stated by `ReservationLedger.DestroyRemovesOnlyTarget` |
| ReservationLedger.DestroyRemovesOnlyTarget | app/Http/Controllers/ReservationController.php:90-96 | deleting fails exactly when the reservation is missing. Otherwise exactly that reservation is removed and everything else is kept |
| Store.Restaurant.constructor | database/migrations/2024_01_01_000003_create_tables_table.php:14-26 | a new store is valid and holds the empty database |
| Store.Restaurant.SetStatus | app/Http/Controllers/TableStatusController.php:16-78 | the in-place status update leaves the store in the state the status function computes and keeps coherence. It fails exactly when the table is missing or a field is invalid, and then writes nothing. Otherwise the store becomes the state-machine step for the parsed status, the table carries that status, and the answer is the floor plan of the new store |
| Store.Restaurant.CreateTable | app/Http/Controllers/TableController.php:39-45 | the in-place insert leaves the store in the state the create function computes and returns the new id; it promises no coherence, since a table created occupied breaks it |
| Store.Restaurant.UpdateTable | app/Http/Controllers/TableController.php:74-80 | the in-place edit leaves the store in the state the edit function computes |
| Store.Restaurant.DestroyTable | app/Http/Controllers/TableController.php:85-99 | the in-place delete leaves the store in the state the delete function computes and keeps coherence |
| Store.Restaurant.CreateReservation | app/Http/Controllers/ReservationController.php:43-49 | the in-place insert leaves the store in the state the create function computes; coherence is unaffected |
| Store.Restaurant.UpdateReservation | app/Http/Controllers/ReservationController.php:79-85 | the in-place edit leaves the store in the state the edit function computes; coherence is unaffected |
| Store.Restaurant.DestroyReservation | app/Http/Controllers/ReservationController.php:90-96 | the in-place delete leaves the store in the state the delete function computes; coherence is unaffected |
| WelcomePage.NatText | resources/js/pages/welcome.tsx:139 | a number's decimal text is a non-empty run of digits with no leading zero: it starts with '0' exactly for 0, which is "0" |
| WelcomePage.NatTextRoundTrip | resources/js/pages/welcome.tsx:139 | a number's decimal text reads back as that number |
| WelcomePage.JsRemainder | resources/js/pages/welcome.tsx:138 | the remainder has the sign of the dividend: in [0, b) for a non-negative dividend, in (-b, 0] for a negative one; and the dividend is the quotient rounded toward zero times b plus the remainder |
| WelcomePage.DurationOf | resources/js/pages/welcome.tsx:136-138 | the hours and minutes split; no contract of its own, its behaviour is stated by `WelcomePage.DurationSplitsMinutes` and `WelcomePage.NegativeElapsedShowsMinutesOnly` |
| WelcomePage.DurationText | resources/js/pages/welcome.tsx:136-139 | the label ends in "m". For a non-negative elapsed time it has an hour part exactly when at least 60 whole minutes have elapsed; a clock behind the session start never gives an hour part |
| WelcomePage.DurationLabelForm | resources/js/pages/welcome.tsx:133-140 | the exact label from the elapsed whole minutes alone: "{minutes}m" under an hour, and "{minutes / 60}h {minutes % 60}m" from an hour on |
| WelcomePage.DurationSplitsMinutes | resources/js/pages/welcome.tsx:136-138 | for a non-negative elapsed time, hours * 60 + minutes is the whole minutes elapsed, hours are at least 0, and minutes are in [0, 60) |
| WelcomePage.NegativeElapsedShowsMinutesOnly | resources/js/pages/welcome.tsx:136-139 | when the session starts after the clock, the hours are negative and the label is a minute count in (-60, 0] |
| WelcomePage.DurationTextRoundTrip | resources/js/pages/welcome.tsx:133-140 | for a non-negative elapsed time the label reads back as the whole minutes elapsed. The reader accepts only "{m}m" with m below 60 and "{h}h {m}m" with h at least 1 and m below 60, so the label has the form its value calls for |
| WelcomePage.LeadingDigits | resources/js/pages/welcome.tsx:359 | `parseInt` reads the longest prefix made only of digits |
| WelcomePage.ParseInt | resources/js/pages/welcome.tsx:359 | `parseInt` on the field text; no contract of its own, its behaviour is stated by `WelcomePage.LeadingDigits` and `WelcomePage.PaxFieldParsing` |
| WelcomePage.PaxFromField | resources/js/pages/welcome.tsx:359 | `parseInt(value) \|\| 1`; no contract of its own, its behaviour is stated by `WelcomePage.PaxFieldParsing` |
| WelcomePage.PaxFieldParsing | resources/js/pages/welcome.tsx:359 | the pax field never holds 0, holds 1 when the text is not a number, and reads any other integer's text as that integer |
| WelcomePage.OfferedActions | resources/js/pages/welcome.tsx:366-410 | the buttons the dialog shows; no contract of its own, its behaviour is stated by `WelcomePage.OfferedActionsChangeStatus` |
| WelcomePage.OfferedActionsChangeStatus | resources/js/pages/welcome.tsx:366-410 | a button is offered exactly when its target differs from the current status, and billing only for an occupied table |
| WelcomePage.Payload | resources/js/pages/welcome.tsx:102-110 | the request carries the status and carries a name and pax exactly when the new status is occupied, with the values from the form |
| WelcomePage.HandleStatusChange | resources/js/pages/welcome.tsx:102-120 | the body built field by field is the payload above |
| WelcomePage.PayloadValidation | resources/js/pages/welcome.tsx:102-120 | a button's request is refused only when seating, and then exactly for pax below 1 or a name over 255 characters |
| WelcomePage.NegativePaxIsSentAndRefused | resources/js/pages/welcome.tsx:359-379 | typing "-2" gives pax -2, leaves the seat button enabled once a name is typed, and the server refuses that request on pax |
| WelcomePage.Stats | resources/js/pages/welcome.tsx:251-269 | the four counters; no contract of its own, its behaviour is stated by `WelcomePage.StatsAccountForEveryTable` |
| WelcomePage.StatsAccountForEveryTable | resources/js/pages/welcome.tsx:251-269 | the four counters plus the uncounted billed tables add up to the number of tables |
| WelcomePage.TableColor | resources/js/pages/welcome.tsx:61-76 | the table colour classes; no contract of its own, its behaviour is stated by `WelcomePage.ColoursIdentifyStatus` |
| WelcomePage.StatusBadgeColor | resources/js/pages/welcome.tsx:78-93 | the badge colour classes; no contract of its own, its behaviour is stated by `WelcomePage.ColoursIdentifyStatus` |
| WelcomePage.ClassesDetermineHue | resources/js/pages/welcome.tsx:61-93 | different hues give different table classes and different badge classes |
| WelcomePage.ColoursIdentifyStatus | resources/js/pages/welcome.tsx:61-93 | a string is gray exactly when it is not a status, and different statuses get different table colours and different badge colours |
| ReservationsPage.FirstDigitRun | resources/js/pages/reservations/index.tsx:79 | the search finds the leftmost position where ten digits in a row start, or reports that there is none |
| ReservationsPage.FormatPhone | resources/js/pages/reservations/index.tsx:77-80 | the phone display; no contract of its own, its behaviour is stated by the three lemmas below |
| ReservationsPage.FormatPhoneRewritesFirstRun | resources/js/pages/reservations/index.tsx:77-80 | only the first ten-digit run is rewritten, as "(ddd) ddd-dddd". The text before and after is kept, and the result is four characters longer |
| ReservationsPage.FormatPhoneUnchangedIffNoRun | resources/js/pages/reservations/index.tsx:77-80 | a phone number is left as entered exactly when it holds no ten digits in a row |
| ReservationsPage.FormatPhoneKeepsDigits | resources/js/pages/reservations/index.tsx:77-80 | formatting keeps the digits of the number, in order |
| ReservationsPage.ShortNumberUnchanged | tests/Feature/RestaurantManagementTest.php:132 | "555-1234" is shown as entered |
| ReservationsPage.GuestWord | resources/js/pages/reservations/index.tsx:169 | the party-size word; no contract of its own, its behaviour is stated by `ReservationsPage.GuestWordSingularIffOne` |
| ReservationsPage.GuestWordSingularIffOne | resources/js/pages/reservations/index.tsx:169 | the word is "guest" exactly for a party of one, and "guests" otherwise |
| ReservationsPage.StatusBadge | resources/js/pages/reservations/index.tsx:51-64 | the status badge; no contract of its own, its behaviour is stated by `ReservationsPage.StatusBadgeLabels` |
| ReservationsPage.StatusBadgeLabels | resources/js/pages/reservations/index.tsx:51-64 | a known status is labelled with its name capitalised and has a tone of its own. Any other status is shown verbatim with no tone |

## Left out

- Rendering: Inertia rendering, redirects, flash messages and the React hooks, dialogs and markup are not modelled. Only the helpers named above are.
- Authentication and authorisation: `authorize()` always returns true, and route middleware is not part of this model.
- The clock: `now()` and `new Date()` are parameters. Dates are integers, and date and time formatting for display is not modelled.
- StoreTableRequest, StoreReservationRequest and UpdateReservationRequest are not part of this model.
- Ordering.Rows: a query without `orderBy` (the table queries of app/Http/Controllers/TableController.php:21, app/Http/Controllers/FloorPlanController.php:17-21 and app/Http/Controllers/TableStatusController.php:60-64) promises no row order. The model lists such rows in ascending key order by its own choice, so the id order stated for tables is a property of the model, not of the application.
- ReservationLedger.ReservationErrors: the reservation rules are only those the feature test shows are enforced, and the same rules serve for editing. Rules that StoreReservationRequest and UpdateReservationRequest may add are not modelled.
- TableAdmin.CreateTable: creation is modelled on already validated fields, because the rules of its request class are not part of this model.
- Ordering.NameLe: table names are ordered by code point, whereas the database collation may order them differently.
- Models.Table: positions are exact reals, so the two-decimal rounding of the `decimal:2` cast and the column is not modelled.
- Request normalisation: the framework's global middleware trims every request string and turns an empty one into null before validation. That middleware is not part of this model; the model sees strings as sent, as the lines below say member by member.
- TableRequest.Filled: the conversion of empty strings to null is folded into the `required` rule. A blank name fails in both readings.
- TableRequest.TableInputErrors: the 255-character limit is measured on the name as sent, whereas the application measures the trimmed name; a name padded with blanks past 255 characters is refused here and accepted there. Likewise the `status` is matched against the five names as sent, whereas the application trims it first: " available " is refused here and accepted there.
- TableAdmin.UpdateTable: the name is stored as sent, whereas the application stores it trimmed.
- TableStatus.ApplyStatus: seating with an empty or blank customer name stores that text, whereas the application stores null.
- ReservationLedger.StoreReservation: names and phone numbers are stored as sent, whereas the application stores them trimmed.
- TableStatus.StatusErrors: an absent `customer_name` is treated like null, since the page always sends the key when seating. In the application, seating a table with a request that omits the key reads an undefined array key, which the framework turns into an error: the request fails before any write. The model instead seats the table with no name. The 255-character limit is measured on the name as sent, not trimmed, and the `status` is matched against the five names as sent, not trimmed: " occupied " is refused here and accepted there.
- TableAdmin.UpdateTable: a status sent as an explicit null is treated like an absent one.
- Concurrency: the controllers run without locks or transactions, and interleaved requests are not modelled.
- Seeders and factories are not modelled.
- Mass-assignment guarding is expressed only by which fields each record constructor takes.
- WelcomePage.ParseInt: `parseInt`'s skipping of leading whitespace, hexadecimal prefixes and values beyond double precision are not modelled. The number field never yields them.
- WelcomePage.DurationOf: the elapsed time is an integer number of milliseconds, so floating-point division is replaced by exact integer division, which agrees for any realistic elapsed time.
- The party-size cell's number is rendered by React and is not modelled; only the word after it is.
