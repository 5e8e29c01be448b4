/**
 * The event store: the caller's `Event` object and `PostgresEventStore`, which keeps
 * the two tables and their id sequences and offers create, read, update, delete and
 * the owner lookup.
 *
 * The database can fail at any statement. Each method takes the set of statements
 * that fail on this call (`faults`) in place of the driver's error returns. A
 * transaction works on local copies of the tables and writes them back only at the
 * commit, so a rolled-back call leaves both tables exactly as they were. The two id
 * sequences live outside the transaction, as database sequences do.
 */
module EventStore {
  import opened Wrappers
  import opened Schema

  /** The database calls the store makes, any of which can return an error. */
  datatype Stmt =
    | BeginTx                   // db.Begin()
    | InsertHeader              // INSERT INTO events ... RETURNING id
    | InsertEntryRow(row: nat)  // INSERT INTO event_entries ... RETURNING id, for entry `row`
    | CommitTx                  // tx.Commit()
    | UpdateHeader              // UPDATE events SET ... WHERE id
    | CountAffected             // RowsAffected()
    | DeleteEntryRows           // DELETE FROM event_entries WHERE event_id
    | SelectHeader              // SELECT id, user_id, ... FROM events WHERE id
    | SelectEntryRows           // SELECT ... FROM event_entries WHERE event_id ORDER BY id
    | NextRow(row: nat)         // rows.Next() when it is about to deliver row `row`
    | ScanRow(row: nat)         // rows.Scan() of row `row`
    | DeleteHeader              // DELETE FROM events WHERE id
    | SelectUserId              // SELECT user_id FROM events WHERE id

  /** `sql.ErrNoRows`, or the error of the database call that failed. */
  datatype Error = ErrNoRows | DbError(at: Stmt)

  /** The least element of `s` in `lo .. n - 1`, or `n` if there is none. */
  function FirstIn(s: set<nat>, lo: nat, n: nat): (k: nat)
    requires lo <= n
    ensures lo <= k <= n
    ensures forall j :: lo <= j < k ==> j !in s
    ensures k < n ==> k in s
    decreases n - lo
  {
    if lo == n || lo in s then lo else FirstIn(s, lo + 1, n)
  }

  /** `FirstIn` is the only position with its three properties. */
  lemma {:induction false} FirstInUnique(s: set<nat>, lo: nat, n: nat, k: nat)
    requires lo <= k <= n
    requires forall j :: lo <= j < k ==> j !in s
    requires k < n ==> k in s
    ensures FirstIn(s, lo, n) == k
    decreases n - lo
  {
    if lo < k {
      FirstInUnique(s, lo + 1, n, k);
    }
  }

  /** The entry positions whose insert fails. */
  function InsertFaults(faults: set<Stmt>): set<nat> {
    set f | f in faults && f.InsertEntryRow? :: f.row
  }

  /** The cursor positions where `rows.Next()` or, for one of the `n` rows, `rows.Scan()` fails. */
  function CursorFaults(faults: set<Stmt>, n: nat): set<nat> {
    (set f | f in faults && f.NextRow? :: f.row) + (set f | f in faults && f.ScanRow? && f.row < n :: f.row)
  }

  // ---------------------------------------------------------------------------
  // Which statement a call fails at

  /** CreateEvent gets as far as its entry inserts: the transaction began and the header went in. */
  predicate CreateInserts(faults: set<Stmt>) {
    BeginTx !in faults && InsertHeader !in faults
  }

  /** How many of CreateEvent's `n` entry inserts succeed. */
  function CreateWritten(faults: set<Stmt>, n: nat): nat {
    if CreateInserts(faults) then FirstIn(InsertFaults(faults), 0, n) else 0
  }

  /** The error CreateEvent returns for a caller with `n` entries: that of the first failing call. */
  function CreateFailure(faults: set<Stmt>, n: nat): Option<Error> {
    if BeginTx in faults then Some(DbError(BeginTx))
    else if InsertHeader in faults then Some(DbError(InsertHeader))
    else if CreateWritten(faults, n) < n then Some(DbError(InsertEntryRow(CreateWritten(faults, n))))
    else if CommitTx in faults then Some(DbError(CommitTx))
    else None
  }

  /** UpdateEvent gets as far as its entry inserts: header updated, row found, old entries deleted. */
  predicate UpdateInserts(faults: set<Stmt>, found: bool) {
    && BeginTx !in faults && UpdateHeader !in faults && CountAffected !in faults
    && found && DeleteEntryRows !in faults
  }

  /** How many of UpdateEvent's `n` entry inserts succeed. */
  function UpdateWritten(faults: set<Stmt>, found: bool, n: nat): nat {
    if UpdateInserts(faults, found) then FirstIn(InsertFaults(faults), 0, n) else 0
  }

  /** The error UpdateEvent returns; `found` says whether the UPDATE matched a row. */
  function UpdateFailure(faults: set<Stmt>, found: bool, n: nat): Option<Error> {
    if BeginTx in faults then Some(DbError(BeginTx))
    else if UpdateHeader in faults then Some(DbError(UpdateHeader))
    else if CountAffected in faults then Some(DbError(CountAffected))
    else if !found then Some(ErrNoRows)
    else if DeleteEntryRows in faults then Some(DbError(DeleteEntryRows))
    else if UpdateWritten(faults, found, n) < n then Some(DbError(InsertEntryRow(UpdateWritten(faults, found, n))))
    else if CommitTx in faults then Some(DbError(CommitTx))
    else None
  }

  /** The cursor position where reading `n` rows stops early, or `n + 1` if it does not. */
  function CursorStop(faults: set<Stmt>, n: nat): nat {
    FirstIn(CursorFaults(faults, n), 0, n + 1)
  }

  /** The error of the rows loop over `n` rows; `checked` says whether it consults `rows.Err()`. */
  function CursorError(faults: set<Stmt>, n: nat, checked: bool): Option<Error> {
    var k := CursorStop(faults, n);
    if k > n then None
    else if NextRow(k) in faults then (if checked then Some(DbError(NextRow(k))) else None)
    else Some(DbError(ScanRow(k)))
  }

  /** The rows that reach the caller before the cursor stops. */
  function Delivered(rows: seq<EventEntry>, faults: set<Stmt>): seq<EventEntry> {
    var k := CursorStop(faults, |rows|);
    if k < |rows| then rows[..k] else rows
  }

  lemma InsertFaultsAt(faults: set<Stmt>, i: nat)
    ensures i in InsertFaults(faults) <==> InsertEntryRow(i) in faults
  {
    if InsertEntryRow(i) in faults {
      assert InsertEntryRow(i).row == i;
    }
  }

  lemma CursorFaultsAt(faults: set<Stmt>, n: nat, i: nat)
    ensures i in CursorFaults(faults, n) <==> NextRow(i) in faults || (i < n && ScanRow(i) in faults)
  {
    if NextRow(i) in faults {
      assert NextRow(i).row == i;
    }
    if ScanRow(i) in faults {
      assert ScanRow(i).row == i;
    }
  }

  /** CreateEvent succeeds exactly when none of its calls fails, and any error it returns
      names a call that failed. */
  lemma CreateOutcome(faults: set<Stmt>, n: nat)
    ensures CreateFailure(faults, n) == None <==>
              && BeginTx !in faults && InsertHeader !in faults && CommitTx !in faults
              && forall i :: 0 <= i < n ==> InsertEntryRow(i) !in faults
    ensures CreateFailure(faults, n).Some? ==>
              CreateFailure(faults, n).value.DbError? && CreateFailure(faults, n).value.at in faults
  {
    forall i | 0 <= i < n {
      InsertFaultsAt(faults, i);
    }
    var w := CreateWritten(faults, n);
    if CreateInserts(faults) && w < n {
      InsertFaultsAt(faults, w);
    }
  }

  /** UpdateEvent succeeds exactly when the row exists and none of its calls fails; it
      reports `ErrNoRows` exactly when the row is missing and the calls before the check
      succeed; any other error names a call that failed. */
  lemma UpdateOutcome(faults: set<Stmt>, found: bool, n: nat)
    ensures UpdateFailure(faults, found, n) == None <==>
              && UpdateInserts(faults, found) && CommitTx !in faults
              && forall i :: 0 <= i < n ==> InsertEntryRow(i) !in faults
    ensures UpdateFailure(faults, found, n) == Some(ErrNoRows) <==>
              BeginTx !in faults && UpdateHeader !in faults && CountAffected !in faults && !found
    ensures UpdateFailure(faults, found, n).Some? && UpdateFailure(faults, found, n).value.DbError? ==>
              UpdateFailure(faults, found, n).value.at in faults
  {
    forall i | 0 <= i < n {
      InsertFaultsAt(faults, i);
    }
    var w := UpdateWritten(faults, found, n);
    if UpdateInserts(faults, found) && w < n {
      InsertFaultsAt(faults, w);
    }
  }

  /** A rows loop that consults `rows.Err()` either reports an error or delivers every row. */
  lemma {:induction false} CheckedCursorComplete(rows: seq<EventEntry>, faults: set<Stmt>)
    ensures CursorError(faults, |rows|, true) == None ==> Delivered(rows, faults) == rows
    ensures CursorError(faults, |rows|, true) == None <==>
              forall i :: 0 <= i <= |rows| ==> NextRow(i) !in faults && (i < |rows| ==> ScanRow(i) !in faults)
  {
    var k := CursorStop(faults, |rows|);
    CursorFaultsAt(faults, |rows|, k);
    forall i | 0 <= i <= |rows| {
      CursorFaultsAt(faults, |rows|, i);
    }
  }

  /** Without `rows.Err()`, a cursor that fails before its last row ends the loop with no
      error, and the event comes back with its entry list cut short. */
  lemma UncheckedCursorTruncates(rows: seq<EventEntry>, j: nat)
    requires j < |rows|
    ensures CursorError({NextRow(j)}, |rows|, false) == None
    ensures Delivered(rows, {NextRow(j)}) == rows[..j] != rows
  {
    var faults := {NextRow(j)};
    CursorFaultsAt(faults, |rows|, j);
    forall i | 0 <= i < j {
      CursorFaultsAt(faults, |rows|, i);
    }
    assert CursorStop(faults, |rows|) == j;
    assert |rows[..j]| != |rows|;
  }

  // ---------------------------------------------------------------------------
  // The rows loop of GetEventByID

  /** `for rows.Next() { rows.Scan(...); append }` as written: an error that ends
      `rows.Next()` is not looked at afterwards. */
  method ReadRows(rows: seq<EventEntry>, faults: set<Stmt>) returns (got: seq<EventEntry>, err: Option<Error>)
    ensures err == CursorError(faults, |rows|, false)
    ensures err == None ==> got == Delivered(rows, faults)
  {
    got := [];
    var i := 0;
    while i < |rows| && NextRow(i) !in faults
      invariant 0 <= i <= |rows|
      invariant forall j :: 0 <= j < i ==> j !in CursorFaults(faults, |rows|)
      invariant got == rows[..i]
    {
      CursorFaultsAt(faults, |rows|, i);
      if ScanRow(i) in faults {
        return got, Some(DbError(ScanRow(i)));
      }
      got := got + [rows[i]];
      i := i + 1;
    }
    CursorFaultsAt(faults, |rows|, i);
    return got, None;
  }

  /** The same loop followed by the `rows.Err()` check that the source leaves out. */
  method ReadRowsChecked(rows: seq<EventEntry>, faults: set<Stmt>) returns (got: seq<EventEntry>, err: Option<Error>)
    ensures err == CursorError(faults, |rows|, true)
    ensures err == None ==> got == rows
  {
    got := [];
    var i := 0;
    while i < |rows| && NextRow(i) !in faults
      invariant 0 <= i <= |rows|
      invariant forall j :: 0 <= j < i ==> j !in CursorFaults(faults, |rows|)
      invariant got == rows[..i]
    {
      CursorFaultsAt(faults, |rows|, i);
      if ScanRow(i) in faults {
        return got, Some(DbError(ScanRow(i)));
      }
      got := got + [rows[i]];
      i := i + 1;
    }
    CursorFaultsAt(faults, |rows|, i);
    if NextRow(i) in faults {
      return got, Some(DbError(NextRow(i)));
    }
    return got, None;
  }

  /** The entry-insert loop: inserts the entries of `a` in order for `eventId` into the
      transaction's copy `rows`, the `i`-th taking the value `base + i` of the entry
      sequence, writes each generated id back into `a`, and stops at the first insert that
      fails; `w` is the number inserted. */
  method InsertEntries(eventId: int, a: array<EventEntry>, rows: Entries, base: int, faults: set<Stmt>)
    returns (rows': Entries, w: nat)
    modifies a
    ensures w == FirstIn(InsertFaults(faults), 0, a.Length)
    ensures a[..] == Stamped(old(a[..])[..w], base) + old(a[..])[w..]
    ensures rows' == rows + NewRows(eventId, old(a[..])[..w], base)
  {
    ghost var before := a[..];
    rows' := rows;
    w := 0;
    while w < a.Length
      invariant 0 <= w <= a.Length
      invariant forall j :: 0 <= j < w ==> j !in InsertFaults(faults)
      invariant a[..] == Stamped(before[..w], base) + before[w..]
      invariant rows' == rows + NewRows(eventId, before[..w], base)
    {
      InsertFaultsAt(faults, w);
      if InsertEntryRow(w) in faults {
        break;
      }
      StampedStep(before, w, base);
      assert before[..w + 1][..w] == before[..w];
      UnionUpdate(rows, NewRows(eventId, before[..w], base), base + w, EntryRowOf(eventId, before[w]));
      rows' := rows'[base + w := EntryRowOf(eventId, a[w])];
      a[w] := a[w].(id := base + w);
      w := w + 1;
    }
    FirstInUnique(InsertFaults(faults), 0, a.Length, w);
  }

  // ---------------------------------------------------------------------------
  // The caller's Event

  /** The caller's event: CreateEvent and UpdateEvent write the generated ids into it. */
  class Event {
    var id: int
    var userId: int
    var title: string
    var description: string
    var startTime: string
    var endTime: string
    var location: string
    var entries: array<EventEntry>

    constructor (id: int, userId: int, title: string, description: string,
                 startTime: string, endTime: string, location: string, es: seq<EventEntry>)
      ensures Value() == EventValue(id, userId, title, description, startTime, endTime, location, es)
      ensures fresh(entries)
    {
      this.id := id;
      this.userId := userId;
      this.title := title;
      this.description := description;
      this.startTime := startTime;
      this.endTime := endTime;
      this.location := location;
      this.entries := new EventEntry[|es|](i requires 0 <= i < |es| => es[i]);
    }

    /** The header columns the store writes. */
    function Header(): EventRow
      reads this
    {
      EventRow(userId, title, description, startTime, endTime, location)
    }

    /** The whole event as a value. */
    function Value(): EventValue
      reads this, entries
    {
      ValueOf(id, Header(), entries[..])
    }
  }

  // ---------------------------------------------------------------------------
  // The store

  class PostgresEventStore {
    var events: Events
    var entries: Entries
    var eventSeq: nat  // next value of the events id sequence
    var entrySeq: nat  // next value of the event_entries id sequence

    ghost predicate Valid()
      reads this
    {
      Consistent(events, entries, eventSeq, entrySeq)
    }

    /** What GetEventByID returns when no call fails. */
    function Lookup(id: int): Option<EventValue>
      reads this
    {
      Find(events, entries, entrySeq, id)
    }

    /** A store over a database in a consistent state. */
    constructor (events: Events, entries: Entries, eventSeq: nat, entrySeq: nat)
      requires Consistent(events, entries, eventSeq, entrySeq)
      ensures Valid()
      ensures this.events == events && this.entries == entries
      ensures this.eventSeq == eventSeq && this.entrySeq == entrySeq
    {
      this.events := events;
      this.entries := entries;
      this.eventSeq := eventSeq;
      this.entrySeq := entrySeq;
    }

    /** The statements of CreateEvent's transaction, applied to copies `evs` and `ens` of
        the two tables; the id of the header and then of each entry is written into `evt`
        as soon as its insert returns it. */
    method CreateTx(evt: Event, faults: set<Stmt>) returns (evs: Events, ens: Entries, err: Option<Error>)
      modifies this`eventSeq, this`entrySeq, evt`id, evt.entries
      ensures err == CreateFailure(faults, evt.entries.Length)
      ensures evt.id == (if CreateInserts(faults) then old(eventSeq) else old(evt.id))
      ensures eventSeq == old(eventSeq) + (if CreateInserts(faults) then 1 else 0)
      ensures var w := CreateWritten(faults, evt.entries.Length);
              && entrySeq == old(entrySeq) + w
              && evt.entries[..] == Stamped(old(evt.entries[..])[..w], old(entrySeq)) + old(evt.entries[..])[w..]
      ensures err == None ==>
                && entrySeq == old(entrySeq) + evt.entries.Length
                && evt.entries[..] == Stamped(old(evt.entries[..]), old(entrySeq))
                && evs == events[evt.id := evt.Header()]
                && ens == entries + NewRows(evt.id, old(evt.entries[..]), old(entrySeq))
    {
      ghost var es := evt.entries[..];
      assert Stamped(es[..0], entrySeq) + es[0..] == es;
      evs, ens := events, entries;
      if BeginTx in faults {
        return evs, ens, Some(DbError(BeginTx));
      }
      if InsertHeader in faults {
        return evs, ens, Some(DbError(InsertHeader));
      }
      evt.id := eventSeq;
      evs := evs[evt.id := evt.Header()];
      eventSeq := eventSeq + 1;
      var w;
      ens, w := InsertEntries(evt.id, evt.entries, ens, entrySeq, faults);
      entrySeq := entrySeq + w;
      if w < evt.entries.Length {
        return evs, ens, Some(DbError(InsertEntryRow(w)));
      }
      if CommitTx in faults {
        return evs, ens, Some(DbError(CommitTx));
      }
      assert es[..w] == es;
      assert Stamped(es[..w], old(entrySeq)) + es[w..] == Stamped(es, old(entrySeq));
      err := None;
    }

    /** Inserts the header of `evt` and then each of its entries in one transaction. */
    method CreateEvent(evt: Event, faults: set<Stmt>) returns (r: Event?, err: Option<Error>)
      requires Valid()
      modifies this, evt`id, evt.entries
      ensures Valid()
      ensures err == CreateFailure(faults, evt.entries.Length)
      ensures r == (if err == None then evt else null)
      ensures evt.id == (if CreateInserts(faults) then old(eventSeq) else old(evt.id))
      ensures eventSeq == old(eventSeq) + (if CreateInserts(faults) then 1 else 0)
      ensures var w := CreateWritten(faults, evt.entries.Length);
              && entrySeq == old(entrySeq) + w
              && evt.entries[..] == Stamped(old(evt.entries[..])[..w], old(entrySeq)) + old(evt.entries[..])[w..]
      ensures err != None ==> events == old(events) && entries == old(entries)
      ensures err != None && CreateInserts(faults) ==> Lookup(evt.id) == None
      ensures err == None ==>
                && events == old(events)[evt.id := evt.Header()]
                && entries == old(entries) + NewRows(evt.id, old(evt.entries[..]), old(entrySeq))
                && evt.entries[..] == Stamped(old(evt.entries[..]), old(entrySeq))
                && Lookup(evt.id) == Some(evt.Value())
                && forall other :: other != evt.id ==> Lookup(other) == old(Lookup(other))
    {
      ghost var es := evt.entries[..];
      var evs, ens;
      evs, ens, err := CreateTx(evt, faults);
      if err != None {
        // tx.Rollback(): the copies are dropped; the sequences keep their new values.
        ConsistentAdvanced(events, entries, old(eventSeq), old(entrySeq), eventSeq, entrySeq);
        return null, err;
      }
      CreateCommitted(old(events), old(entries), old(eventSeq), old(entrySeq), evt.Header(), es);
      events, entries := evs, ens;
      return evt, None;
    }

    /** Reads the header of event `id` and then its entries, as the source does. */
    method GetEventByID(id: int, faults: set<Stmt>) returns (r: Event?, err: Option<Error>)
      requires Valid()
      ensures err != None ==> r == null
      ensures SelectHeader in faults ==> err == Some(DbError(SelectHeader))
      ensures SelectHeader !in faults && id !in events ==> r == null && err == None
      ensures SelectHeader !in faults && id in events && SelectEntryRows in faults ==>
                err == Some(DbError(SelectEntryRows))
      ensures SelectHeader !in faults && id in events && SelectEntryRows !in faults ==>
                var rows := Selected(entries, id, entrySeq);
                && err == CursorError(faults, |rows|, false)
                && (err == None ==> r != null && r.Value() == ValueOf(id, events[id], Delivered(rows, faults)))
      ensures r != null ==> fresh(r) && fresh(r.entries)
    {
      if SelectHeader in faults {
        return null, Some(DbError(SelectHeader));
      }
      if id !in events {
        return null, None;
      }
      var row := events[id];
      if SelectEntryRows in faults {
        return null, Some(DbError(SelectEntryRows));
      }
      var got;
      got, err := ReadRows(Selected(entries, id, entrySeq), faults);
      if err != None {
        return null, err;
      }
      r := new Event(id, row.userId, row.title, row.description, row.startTime, row.endTime, row.location, got);
    }

    /** GetEventByID with the `rows.Err()` check after the rows loop. */
    method GetEventByIDChecked(id: int, faults: set<Stmt>) returns (r: Event?, err: Option<Error>)
      requires Valid()
      ensures err != None ==> r == null
      ensures SelectHeader in faults ==> err == Some(DbError(SelectHeader))
      ensures SelectHeader !in faults && id !in events ==> r == null && err == None
      ensures SelectHeader !in faults && id in events && SelectEntryRows in faults ==>
                err == Some(DbError(SelectEntryRows))
      ensures SelectHeader !in faults && id in events && SelectEntryRows !in faults ==>
                err == CursorError(faults, |Selected(entries, id, entrySeq)|, true)
      ensures err == None ==> (r == null <==> Lookup(id) == None)
      ensures r != null ==> fresh(r) && fresh(r.entries) && Lookup(id) == Some(r.Value())
    {
      if SelectHeader in faults {
        return null, Some(DbError(SelectHeader));
      }
      if id !in events {
        return null, None;
      }
      var row := events[id];
      if SelectEntryRows in faults {
        return null, Some(DbError(SelectEntryRows));
      }
      var got;
      got, err := ReadRowsChecked(Selected(entries, id, entrySeq), faults);
      if err != None {
        return null, err;
      }
      r := new Event(id, row.userId, row.title, row.description, row.startTime, row.endTime, row.location, got);
    }

    /** The statements of UpdateEvent's transaction, applied to copies `evs` and `ens` of
        the two tables; the id of each re-inserted entry is written into `evt` as soon as
        its insert returns it. */
    method UpdateTx(evt: Event, faults: set<Stmt>) returns (evs: Events, ens: Entries, err: Option<Error>)
      modifies this`entrySeq, evt.entries
      ensures err == UpdateFailure(faults, evt.id in events, evt.entries.Length)
      ensures var w := UpdateWritten(faults, evt.id in events, evt.entries.Length);
              && entrySeq == old(entrySeq) + w
              && evt.entries[..] == Stamped(old(evt.entries[..])[..w], old(entrySeq)) + old(evt.entries[..])[w..]
      ensures err == None ==>
                && evt.id in events
                && entrySeq == old(entrySeq) + evt.entries.Length
                && evt.entries[..] == Stamped(old(evt.entries[..]), old(entrySeq))
                && evs == events[evt.id := Reheaded(events[evt.id], evt.Header())]
                && ens == Cascade(entries, evt.id) + NewRows(evt.id, old(evt.entries[..]), old(entrySeq))
    {
      ghost var es := evt.entries[..];
      assert Stamped(es[..0], entrySeq) + es[0..] == es;
      evs, ens := events, entries;
      if BeginTx in faults {
        return evs, ens, Some(DbError(BeginTx));
      }
      if UpdateHeader in faults {
        return evs, ens, Some(DbError(UpdateHeader));
      }
      if CountAffected in faults {
        return evs, ens, Some(DbError(CountAffected));
      }
      if evt.id !in evs {
        return evs, ens, Some(ErrNoRows);
      }
      evs := evs[evt.id := Reheaded(evs[evt.id], evt.Header())];
      if DeleteEntryRows in faults {
        return evs, ens, Some(DbError(DeleteEntryRows));
      }
      ens := Cascade(ens, evt.id);
      var w;
      ens, w := InsertEntries(evt.id, evt.entries, ens, entrySeq, faults);
      entrySeq := entrySeq + w;
      if w < evt.entries.Length {
        return evs, ens, Some(DbError(InsertEntryRow(w)));
      }
      if CommitTx in faults {
        return evs, ens, Some(DbError(CommitTx));
      }
      assert es[..w] == es;
      assert Stamped(es[..w], old(entrySeq)) + es[w..] == Stamped(es, old(entrySeq));
      err := None;
    }

    /** Rewrites the header fields except `user_id`, and replaces all entries of the event,
        in one transaction. */
    method UpdateEvent(evt: Event, faults: set<Stmt>) returns (err: Option<Error>)
      requires Valid()
      modifies this, evt.entries
      ensures Valid()
      ensures err == UpdateFailure(faults, evt.id in old(events), evt.entries.Length)
      ensures eventSeq == old(eventSeq)
      ensures var w := UpdateWritten(faults, evt.id in old(events), evt.entries.Length);
              && entrySeq == old(entrySeq) + w
              && evt.entries[..] == Stamped(old(evt.entries[..])[..w], old(entrySeq)) + old(evt.entries[..])[w..]
      ensures err != None ==> events == old(events) && entries == old(entries)
      ensures err == None ==>
                && evt.id in old(events)
                && events == old(events)[evt.id := Reheaded(old(events)[evt.id], evt.Header())]
                && entries == Cascade(old(entries), evt.id) + NewRows(evt.id, old(evt.entries[..]), old(entrySeq))
                && evt.entries[..] == Stamped(old(evt.entries[..]), old(entrySeq))
                && Lookup(evt.id) == Some(evt.Value().(userId := old(events)[evt.id].userId))
                && (forall k :: k in old(entries) && old(entries)[k].eventId == evt.id ==> k !in entries)
                && (forall i :: 0 <= i < evt.entries.Length ==> old(entrySeq) <= evt.entries[i].id)
                && forall other :: other != evt.id ==> Lookup(other) == old(Lookup(other))
    {
      ghost var es := evt.entries[..];
      var evs, ens;
      evs, ens, err := UpdateTx(evt, faults);
      if err != None {
        // tx.Rollback(): the copies are dropped; the entry sequence keeps its new value.
        ConsistentAdvanced(events, entries, old(eventSeq), old(entrySeq), eventSeq, entrySeq);
        return err;
      }
      UpdateCommitted(old(events), old(entries), old(eventSeq), old(entrySeq), evt.id, evt.Header(), es);
      forall i | 0 <= i < evt.entries.Length ensures old(entrySeq) <= evt.entries[i].id {
        assert evt.entries[i] == evt.entries[..][i] == Stamped(es, old(entrySeq))[i];
      }
      events, entries := evs, ens;
      return None;
    }

    /** Deletes the header row outside any transaction; its entries go with it by the
        cascade on the foreign key. */
    method DeleteEvent(id: int, faults: set<Stmt>) returns (err: Option<Error>)
      requires Valid()
      modifies this
      ensures Valid()
      ensures eventSeq == old(eventSeq) && entrySeq == old(entrySeq)
      ensures DeleteHeader in faults ==>
                err == Some(DbError(DeleteHeader)) && events == old(events) && entries == old(entries)
      ensures DeleteHeader !in faults ==>
                && events == old(events) - {id}
                && entries == Cascade(old(entries), id)
                && Lookup(id) == None
                && (forall other :: other != id ==> Lookup(other) == old(Lookup(other)))
                && err == (if CountAffected in faults then Some(DbError(CountAffected))
                           else if id in old(events) then None
                           else Some(ErrNoRows))
      ensures err == Some(ErrNoRows) ==> events == old(events) && entries == old(entries)
    {
      if DeleteHeader in faults {
        return Some(DbError(DeleteHeader));
      }
      var found := id in events;
      if !found {
        CascadeMissing(events, entries, eventSeq, entrySeq, id);
      }
      forall other | other != id
        ensures Find(events - {id}, Cascade(entries, id), entrySeq, other) == Find(events, entries, entrySeq, other)
      {
        DeleteKeepsOthers(events, entries, entrySeq, id, other);
      }
      events, entries := events - {id}, Cascade(entries, id);
      if CountAffected in faults {
        return Some(DbError(CountAffected));
      }
      if !found {
        return Some(ErrNoRows);
      }
      return None;
    }

    /** The owner of event `eventId`; 0 with no error when there is no such event. */
    method GetEventOwner(eventId: int, faults: set<Stmt>) returns (userId: int, err: Option<Error>)
      requires Valid()
      ensures SelectUserId in faults ==> userId == 0 && err == Some(DbError(SelectUserId))
      ensures SelectUserId !in faults ==> err == None
      ensures SelectUserId !in faults && eventId !in events ==> userId == 0
      ensures SelectUserId !in faults && eventId in events ==> userId == events[eventId].userId
      ensures err == None && Lookup(eventId).Some? ==> userId == Lookup(eventId).value.userId
    {
      if SelectUserId in faults {
        return 0, Some(DbError(SelectUserId));
      }
      if eventId !in events {
        return 0, None;
      }
      return events[eventId].userId, None;
    }
  }

  /** Creating an event on an empty store assigns ids 1, and reading it back gives it again. */
  method CreateScenario() {
    var store := new PostgresEventStore(map[], map[], 1, 1);
    var daily := EventEntry(0, 5, "Daily", "", "", "", "");
    var evt := new Event(0, 1, "Standup", "", "", "", "", [daily]);
    var r, err := store.CreateEvent(evt, {});
    assert r == evt && err == None;
    assert evt.id == 1 && evt.entries[0].id == 1;

    var got, gerr := store.GetEventByIDChecked(1, {});
    assert gerr == None && got != null && got.Value() == evt.Value();
  }

  /** An update replaces the entries and keeps the owner; a delete makes the event absent. */
  method UpdateDeleteScenario() {
    var store := new PostgresEventStore(map[1 := EventRow(1, "Standup", "", "", "", "")],
                                        map[1 := EntryRow(1, 5, "Daily", "", "", "", "")], 2, 2);
    var retro := EventEntry(0, 6, "Retro", "", "", "", "");
    var upd := new Event(1, 7, "Standup", "moved", "", "", "", [retro]);
    var uerr := store.UpdateEvent(upd, {});
    assert uerr == None && upd.entries[0].id == 2;
    var got, gerr := store.GetEventByIDChecked(1, {});
    assert got != null && got.entries[..] == [retro.(id := 2)] && got.userId == 1;

    var derr := store.DeleteEvent(1, {});
    assert derr == None;
    got, gerr := store.GetEventByIDChecked(1, {});
    assert got == null && gerr == None;

    var owner, oerr := store.GetEventOwner(1, {});
    assert owner == 0 && oerr == None;
  }
}
