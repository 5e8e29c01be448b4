# Event store model

A Dafny model of `PostgresEventStore`, the persistence layer of the event service. It
stores an event aggregate in two tables:

- `events` holds the header row: owner `user_id`, title, description, start and end time, location.
- `event_entries` holds the sub-entries, each referencing its event through `event_id`.

The store offers five operations: `CreateEvent`, `GetEventByID`, `UpdateEvent`,
`DeleteEvent` and `GetEventOwner`.

How the database is modelled:

- The database is the class `EventStore.PostgresEventStore`. It holds both tables as maps
  from primary key to row, plus the next values of the two serial id sequences.
- Every database call can fail. Each operation takes the set of calls that fail on this
  invocation (`faults`, of type `EventStore.Stmt`) in place of the driver's error returns.
- `CreateEvent` and `UpdateEvent` run their statements on local copies of the tables.
  They assign the copies back only at the commit. A rolled-back call therefore leaves
  both tables exactly as they were.
- The id sequences are outside the transaction, as database sequences are. Ids handed out
  before a rollback stay used.
- The caller's `*Event` is the class `EventStore.Event`, and its `Entries` slice is an
  `array`. `CreateEvent` and `UpdateEvent` write each generated id into it as soon as the
  insert returns it. This also happens on calls that fail later.
- `Schema` defines the row types and the queries as functions:
  - `Selected` is the entry query, ordered by id;
  - `Find` is the aggregate read;
  - `NewRows` gives the inserted rows;
  - `Cascade` gives the rows left after deleting an event's rows;
  - `Stamped` gives the caller's entries with their new ids.
- `Consistent` is the invariant the database keeps between calls: each sequence is ahead
  of its keys, and every entry references an existing event.

Choices the code itself does not settle:

- `DeleteEvent` runs outside a transaction. If `RowsAffected` fails, the row is already gone.
- Deleting a header deletes its entries (ON DELETE CASCADE). The schema is not part of this
  model, so this is an assumption; the store's code does not guarantee it.

## Model

| member | source | states |
|---|---|---|
| Schema.Selected | store/event.go:132-138 | the entry query `WHERE event_id = $1 ORDER BY id` over the keys below a bound: the entries of the event in key order; its meaning is proved by `Schema.SelectedExact` and `Schema.SelectedAscending` |
| Schema.Find | store/event.go:108-161 | the aggregate a fault-free read returns: absent when there is no header row, otherwise the header with the result of the entry query |
| EventStore.PostgresEventStore.Lookup | store/event.go:108-161 | `Schema.Find` over the store's current tables and entry sequence |
| Schema.NewRows | store/event.go:80-95 | the rows the entry INSERT adds when it runs once per entry in order (here and at store/event.go:211-226): entry `i` under key `base + i` with `event_id` the event; its shape is proved by `Schema.NewRowsAt` |
| Schema.Stamped | store/event.go:95 | the caller's entries after each `RETURNING id` is scanned into them: entry `i` gets the id `base + i`, the other fields stay |
| Schema.Cascade | store/event.go:203 | `DELETE FROM event_entries WHERE event_id = $1`, and the assumed cascade of the header delete at store/event.go:235: the table without the rows of the event |
| Schema.Reheaded | store/event.go:172-181 | the UPDATE column list: title, description, start and end time and location are taken from the caller, `user_id` is kept |
| EventStore.CreateFailure | store/event.go:52-103 | the error CreateEvent returns: that of the first failing call among begin, the header insert, the entry inserts in order and the commit, or none; characterised by `EventStore.CreateOutcome` |
| EventStore.UpdateFailure | store/event.go:165-232 | the error UpdateEvent returns: begin, the UPDATE, `RowsAffected`, `ErrNoRows` for zero rows, the entry delete, the entry inserts in order, the commit, or none; characterised by `EventStore.UpdateOutcome` |
| EventStore.CursorError | store/event.go:144-160 | the error of the rows loop: a failing `Scan` is reported; a failing `Next` is reported only when `rows.Err()` is consulted |
| EventStore.Delivered | store/event.go:144-160 | the entries appended before the cursor stops: the prefix up to the first failing `Next` or `Scan`, or all rows |
| Schema.SelectedExact | store/event.go:132-138 | the entry query returns every row whose `event_id` is the event, and only such rows, each scanned from its row |
| Schema.SelectedAscending | store/event.go:132-137 | the entry query lists the entries in strictly ascending entry id |
| Schema.SelectedInserted | store/event.go:78-99 | entries inserted in order for an event that had none come back, with their new ids, in insertion order |
| Schema.NewRowsAt | store/event.go:80-95 | the inserted rows take exactly the keys `base` .. `base + n - 1`, in input order, and every one references the event |
| Schema.StampedStep | store/event.go:78-99 | giving entry `w` the id `base + w`, after entries `0 .. w - 1` got `base ..`, yields the list with `w + 1` entries stamped and the rest untouched |
| Schema.HitsInserted | store/event.go:80-95 | after entries are inserted for an event with no rows, the entry query finds nothing below the first new key and the stamped entries from it on |
| Schema.SelectedRun | store/event.go:132-160 | a table holding an event's rows exactly on consecutive keys from `base` on returns those rows in key order |
| Schema.CreateFound | store/event.go:51-105 | after a create, reading the new id gives back the header and the entries in input order with their new ids |
| Schema.SelectedOtherAdded | store/event.go:78-99 | inserting rows for one event leaves the entry query of every other event unchanged |
| Schema.SelectedOtherCascaded | store/event.go:203 | deleting the entries of one event leaves the entry query of every other event unchanged |
| Schema.CreateKeepsOthers | store/event.go:51-105 | a create leaves what is read back for every other id unchanged |
| Schema.UpdateFound | store/event.go:164-233 | after an update, the event reads back with the new title, description, times and location, the old owner, and exactly the new entries with their new ids |
| Schema.UpdateKeepsOthers | store/event.go:164-233 | an update leaves what is read back for every other id unchanged |
| Schema.SelectedOtherReplaced | store/event.go:203-230 | replacing the entries of one event leaves the entry query of every other event unchanged |
| Schema.DeleteKeepsOthers | store/event.go:236-249 | a delete with its cascade leaves what is read back for every other id unchanged |
| Schema.CreateCommitted | store/event.go:51-105 | the committed create is consistent again, is readable under the new id, and changes nothing else |
| Schema.UpdateCommitted | store/event.go:164-233 | the committed update is consistent again, is readable with the old owner, has no old entries of the event left, and changes nothing else |
| Schema.ConsistentAdvanced | store/event.go:56 | a rollback that leaves the sequences advanced keeps the database consistent |
| Schema.CascadeMissing | store/event.go:235-237 | with the foreign key in place, the cascade of a missing event removes nothing |
| EventStore.FirstIn | store/event.go:78-99 | the first failing position in a range (or its end): every position before it succeeds |
| EventStore.FirstInUnique | store/event.go:78-99 | a position with no failure before it, that fails itself or is the end, is the first failing position |
| EventStore.CreateOutcome | store/event.go:51-105 | CreateEvent succeeds exactly when begin, the header insert, every entry insert and the commit succeed; any error it returns names a failing call |
| EventStore.UpdateOutcome | store/event.go:164-233 | UpdateEvent succeeds exactly when the row exists and every call succeeds; it returns `ErrNoRows` exactly when the row is missing and the calls before the check succeed; any other error names a failing call |
| EventStore.CheckedCursorComplete | store/event.go:144-160 | a rows loop that checks the cursor error either reports an error or delivers every row |
| EventStore.UncheckedCursorTruncates | store/event.go:144-160 | without the cursor error check, a cursor that fails before its last row ends with no error and a shorter entry list |
| EventStore.ReadRows | store/event.go:144-160 | the rows loop as written: a scan error is returned; otherwise the rows up to where the cursor stopped are returned, with no error |
| EventStore.ReadRowsChecked | store/event.go:144-160 | the rows loop with the cursor error check: on no error, every row is returned in order |
| EventStore.Event.constructor | store/event.go:9-29 | the caller's event holds the given header fields and entries |
| EventStore.PostgresEventStore.constructor | store/event.go:31-39 | a store over a consistent database holds exactly the given tables and sequences |
| EventStore.InsertEntries | store/event.go:78-99 | entries are inserted in order until the first failing insert; each gets the next entry id, written back into the caller's array, and the rest stay untouched |
| EventStore.PostgresEventStore.CreateTx | store/event.go:52-103 | the transaction's statements: the error of the first failing call, the id written into the event, and the copies of the tables that the commit would install |
| EventStore.PostgresEventStore.CreateEvent | store/event.go:51-105 | on success, the same event comes back with a fresh id, its entries get consecutive fresh ids in input order and are stored under it, it reads back as itself, and nothing else changes; on any failure the result is nil and both tables are unchanged |
| EventStore.PostgresEventStore.GetEventByID | store/event.go:108-161 | a missing id gives nil with no error; an error of either query is returned; otherwise the header with the entries the cursor delivered |
| EventStore.PostgresEventStore.GetEventByIDChecked | store/event.go:108-161 | as GetEventByID with the cursor error checked: with no error, the result is nil exactly when the event is absent, and otherwise it is the stored aggregate |
| EventStore.PostgresEventStore.UpdateTx | store/event.go:165-232 | the transaction's statements: the error of the first failing call, or `ErrNoRows` for a missing row, and the copies of the tables that the commit would install |
| EventStore.PostgresEventStore.UpdateEvent | store/event.go:164-233 | a missing id gives `ErrNoRows`, and any failure leaves both tables unchanged; on success the header fields except `user_id` are replaced, all old entries of the event are gone, the new entries get fresh ids, and other events are untouched |
| EventStore.PostgresEventStore.DeleteEvent | store/event.go:236-249 | the header row and its entries are removed, so the id reads as absent and other ids are unchanged; `ErrNoRows` when no row matched, with nothing changed |
| EventStore.PostgresEventStore.GetEventOwner | store/event.go:252-265 | the stored `user_id` for an existing event, 0 with no error for a missing one, and 0 with the error when the query fails; the state is not changed |

## Left out

- Opening the database (environment variables, the connection string, `sql.Open`, the ping, the migrations) is I/O and is not part of this model.
- The command-line entry point, the HTTP server, the router and the HTTP handlers are plumbing and are not part of this model. The handlers do not call the store.
- The SQL text, the driver, and scanning columns into Go values are replaced by the table maps and the query functions in `Schema`.
- `updated_at = CURRENT_TIMESTAMP` reads the wall clock. The model has no `updated_at` column.
- The time fields are opaque strings. Their RFC 3339 format is never validated by the code.
- Integer widths are not modelled: the `int`/`int64` ids and the id sequences are unbounded (the sequences' column type is in the schema, which is not part of this model), so sequence exhaustion is not modelled.
- A statement that fails is modelled as consuming no sequence value, so the sequence values after a failing CreateEvent or UpdateEvent are exact. In PostgreSQL an `INSERT ... RETURNING id` that reaches the server evaluates `nextval` before it checks constraints, so a failing insert can use up an id. Only a failure before the statement runs uses none. Freshness of later ids holds either way, because `Consistent` only needs each sequence to be ahead of its keys.
- Concurrent calls and transaction isolation are not modelled. Calls run one at a time.
- Constraint violations and connection loss are not modelled by cause. Any call can fail through `faults`.
- ON DELETE CASCADE is assumed. The schema is not part of this model.

## Findings

| source | as written | input that shows it | evidently intended | confidence | as-written member | corrected member |
|---|---|---|---|---|---|---|
| store/event.go:144-160 | the `rows.Next()` loop is not followed by a `rows.Err()` check, so a cursor that fails mid-iteration ends the loop as if all rows had been read | an event with two entries where `rows.Next()` fails before the second row (`faults == {NextRow(1)}`): the event comes back with one entry and a nil error | report the cursor error, as `database/sql` requires of a rows loop | not executed | EventStore.UncheckedCursorTruncates | EventStore.CheckedCursorComplete |
