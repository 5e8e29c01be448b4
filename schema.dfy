/**
 * The two tables behind the event store, `events` and `event_entries`, as maps from
 * primary key to row, together with the queries the store issues against them, written
 * as functions, and what those queries return. The SQL text, row scanning and the
 * driver are replaced by these functions.
 */
module Schema {
  import opened Wrappers

  /** One sub-entry of an event, as the caller holds it. */
  datatype EventEntry = EventEntry(
    id: int,
    eventTypeId: int,
    title: string,
    description: string,
    startTime: string,
    endTime: string,
    location: string)

  /** An event aggregate as a value: the header fields and the entries in order. */
  datatype EventValue = EventValue(
    id: int,
    userId: int,
    title: string,
    description: string,
    startTime: string,
    endTime: string,
    location: string,
    entries: seq<EventEntry>)

  /** A row of `events`; its key is the event id. */
  datatype EventRow = EventRow(
    userId: int,
    title: string,
    description: string,
    startTime: string,
    endTime: string,
    location: string)

  /** A row of `event_entries`; its key is the entry id, `eventId` the owning event. */
  datatype EntryRow = EntryRow(
    eventId: int,
    eventTypeId: int,
    title: string,
    description: string,
    startTime: string,
    endTime: string,
    location: string)

  type Events = map<int, EventRow>
  type Entries = map<int, EntryRow>

  /** The columns `INSERT INTO event_entries` writes for entry `e` of event `eventId`. */
  function EntryRowOf(eventId: int, e: EventEntry): EntryRow {
    EntryRow(eventId, e.eventTypeId, e.title, e.description, e.startTime, e.endTime, e.location)
  }

  /** The entry that `SELECT id, event_type_id, ... FROM event_entries` scans from row `id`. */
  function EntryOf(id: int, row: EntryRow): EventEntry {
    EventEntry(id, row.eventTypeId, row.title, row.description, row.startTime, row.endTime, row.location)
  }

  /** The event that the header query scans from row `id`, with entries `es` attached. */
  function ValueOf(id: int, h: EventRow, es: seq<EventEntry>): EventValue {
    EventValue(id, h.userId, h.title, h.description, h.startTime, h.endTime, h.location, es)
  }

  /** `UPDATE events SET title, description, start_time, end_time, location`: `user_id` is not in the list. */
  function Reheaded(row: EventRow, h: EventRow): EventRow {
    row.(title := h.title, description := h.description, startTime := h.startTime,
         endTime := h.endTime, location := h.location)
  }

  /**
   * What the database guarantees between calls: both serial sequences are ahead of
   * every key they handed out, and every entry references an existing event (the
   * foreign key from `event_entries.event_id` to `events.id`).
   */
  ghost predicate Consistent(events: Events, entries: Entries, eventSeq: nat, entrySeq: nat) {
    && 1 <= eventSeq && 1 <= entrySeq
    && (forall id :: id in events ==> 1 <= id < eventSeq)
    && (forall k :: k in entries ==> 1 <= k < entrySeq && entries[k].eventId in events)
  }

  /** Row `k` of `event_entries` as the entry query sees it, if it belongs to `eventId`. */
  function Hit(entries: Entries, eventId: int, k: int): Option<EventEntry> {
    if k in entries && entries[k].eventId == eventId then Some(EntryOf(k, entries[k])) else None
  }

  /** `SELECT ... FROM event_entries WHERE event_id = eventId ORDER BY id`, over the keys below `n`. */
  function Selected(entries: Entries, eventId: int, n: nat): seq<EventEntry> {
    if n == 0 then []
    else
      var h := Hit(entries, eventId, n - 1);
      Selected(entries, eventId, n - 1) + (if h.Some? then [h.value] else [])
  }

  /** The aggregate stored under `id`: its header row and its entries in id order. */
  function Find(events: Events, entries: Entries, bound: nat, id: int): Option<EventValue> {
    if id in events then Some(ValueOf(id, events[id], Selected(entries, id, bound))) else None
  }

  /** The caller's entries after each `RETURNING id` was scanned into them, ids from `base` on. */
  function Stamped(es: seq<EventEntry>, base: int): seq<EventEntry> {
    seq(|es|, i requires 0 <= i < |es| => es[i].(id := base + i))
  }

  /** The rows that inserting `es` for `eventId`, in order, adds with keys from `base` on. */
  function NewRows(eventId: int, es: seq<EventEntry>, base: int): Entries {
    if |es| == 0 then map[]
    else NewRows(eventId, es[..|es| - 1], base)[base + |es| - 1 := EntryRowOf(eventId, es[|es| - 1])]
  }

  /** `DELETE FROM event_entries WHERE event_id = eventId`; also the ON DELETE CASCADE of a header. */
  function Cascade(entries: Entries, eventId: int): Entries {
    map k | k in entries && entries[k].eventId != eventId :: entries[k]
  }

  // ---------------------------------------------------------------------------
  // The entry query

  /** The entry query returns exactly the rows of that event: nothing else, nothing missed. */
  lemma {:induction false} SelectedExact(entries: Entries, eventId: int, n: nat)
    ensures forall e :: e in Selected(entries, eventId, n) ==>
              && 0 <= e.id < n
              && e.id in entries
              && entries[e.id].eventId == eventId
              && e == EntryOf(e.id, entries[e.id])
    ensures forall k :: 0 <= k < n && k in entries && entries[k].eventId == eventId ==>
              EntryOf(k, entries[k]) in Selected(entries, eventId, n)
  {
    if n > 0 {
      SelectedExact(entries, eventId, n - 1);
    }
  }

  /** Entry ids strictly increase along `s`. */
  ghost predicate Ascending(s: seq<EventEntry>) {
    forall i, j :: 0 <= i < j < |s| ==> s[i].id < s[j].id
  }

  /** The entry query returns its rows in strictly ascending id order. */
  lemma {:induction false} SelectedAscending(entries: Entries, eventId: int, n: nat)
    ensures Ascending(Selected(entries, eventId, n))
  {
    if n > 0 {
      SelectedAscending(entries, eventId, n - 1);
      SelectedExact(entries, eventId, n - 1);
      var s' := Selected(entries, eventId, n - 1);
      var h := Hit(entries, eventId, n - 1);
      if h.Some? {
        var s := s' + [h.value];
        assert Selected(entries, eventId, n) == s;
        assert h.value.id == n - 1;
        forall i, j | 0 <= i < j < |s| ensures s[i].id < s[j].id {
          if j == |s'| {
            assert s[i] == s'[i] && s'[i] in s';
          } else {
            assert s[i] == s'[i] && s[j] == s'[j];
          }
        }
      } else {
        assert Selected(entries, eventId, n) == s';
      }
    }
  }

  /** Two tables that agree on the rows of an event give the same entry query result. */
  lemma {:induction false} SelectedAgree(m: Entries, m': Entries, eventId: int, n: nat)
    requires forall k :: 0 <= k < n ==> Hit(m, eventId, k) == Hit(m', eventId, k)
    ensures Selected(m, eventId, n) == Selected(m', eventId, n)
  {
    if n > 0 {
      SelectedAgree(m, m', eventId, n - 1);
    }
  }

  /** Raising the bound past keys without rows of the event does not change the result. */
  lemma {:induction false} SelectedBeyond(m: Entries, eventId: int, n: nat, n': nat)
    requires n <= n'
    requires forall k :: n <= k < n' ==> Hit(m, eventId, k) == None
    ensures Selected(m, eventId, n') == Selected(m, eventId, n)
  {
    if n < n' {
      SelectedBeyond(m, eventId, n, n' - 1);
    }
  }

  /** Entries inserted for an event that had none come back stamped, in insertion order. */
  lemma SelectedInserted(m: Entries, eventId: int, es: seq<EventEntry>, base: nat, j: nat)
    requires forall k :: k in m ==> k < base && m[k].eventId != eventId
    requires j <= |es|
    ensures Selected(m + NewRows(eventId, es, base), eventId, base + j) == Stamped(es, base)[..j]
  {
    HitsInserted(m, eventId, es, base);
    SelectedRun(m + NewRows(eventId, es, base), eventId, Stamped(es, base), base, j);
  }

  /** What the entry query sees of a table after inserting `es` for an event that had no
      rows: nothing below `base`, and the stamped entries from `base` on. */
  lemma HitsInserted(m: Entries, eventId: int, es: seq<EventEntry>, base: nat)
    requires forall k :: k in m ==> k < base && m[k].eventId != eventId
    ensures forall k :: 0 <= k < base ==> Hit(m + NewRows(eventId, es, base), eventId, k) == None
    ensures forall i :: 0 <= i < |es| ==>
              Hit(m + NewRows(eventId, es, base), eventId, base + i) == Some(Stamped(es, base)[i])
  {
    NewRowsAt(eventId, es, base);
  }

  /** A table whose rows of the event are `s` on the keys from `base` on, and none below,
      gives `s` to the entry query. */
  lemma {:induction false} SelectedRun(m: Entries, eventId: int, s: seq<EventEntry>, base: nat, j: nat)
    requires forall k :: 0 <= k < base ==> Hit(m, eventId, k) == None
    requires forall i :: 0 <= i < |s| ==> Hit(m, eventId, base + i) == Some(s[i])
    requires j <= |s|
    ensures Selected(m, eventId, base + j) == s[..j]
  {
    if j == 0 {
      SelectedBeyond(m, eventId, 0, base);
    } else {
      SelectedRun(m, eventId, s, base, j - 1);
      assert s[..j] == s[..j - 1] + [s[j - 1]];
    }
  }

  /** The inserted rows occupy exactly the keys `base` .. `base + |es| - 1`, in input order,
      and all of them reference `eventId`. */
  lemma {:induction false} NewRowsAt(eventId: int, es: seq<EventEntry>, base: int)
    ensures forall k :: k in NewRows(eventId, es, base) <==> base <= k < base + |es|
    ensures forall i :: 0 <= i < |es| ==> NewRows(eventId, es, base)[base + i] == EntryRowOf(eventId, es[i])
    ensures forall k :: k in NewRows(eventId, es, base) ==> NewRows(eventId, es, base)[k].eventId == eventId
  {
    if |es| > 0 {
      NewRowsAt(eventId, es[..|es| - 1], base);
    }
  }

  /** Stamping one more entry of the caller's list: the list with `w` entries stamped,
      with entry `w` given the id `base + w`, is the list with `w + 1` entries stamped. */
  lemma StampedStep(es: seq<EventEntry>, w: nat, base: int)
    requires w < |es|
    ensures (Stamped(es[..w], base) + es[w..])[w := es[w].(id := base + w)]
         == Stamped(es[..w + 1], base) + es[w + 1..]
  {
    var l := (Stamped(es[..w], base) + es[w..])[w := es[w].(id := base + w)];
    var r := Stamped(es[..w + 1], base) + es[w + 1..];
    assert |l| == |r|;
    forall j | 0 <= j < |l| ensures l[j] == r[j] {
      if j < w {
        assert l[j] == es[..w][j].(id := base + j);
        assert r[j] == es[..w + 1][j].(id := base + j);
      } else if j > w {
        assert l[j] == es[w..][j - w];
        assert r[j] == es[w + 1..][j - w - 1];
      }
    }
  }

  /** Adding one row to the rows a transaction has inserted so far, on top of a table. */
  lemma UnionUpdate(m: Entries, added: Entries, k: int, row: EntryRow)
    ensures (m + added)[k := row] == m + added[k := row]
  {
  }

  // ---------------------------------------------------------------------------
  // The effect of each write on what the store returns

  /** After inserting header `h` under the next event id and then its entries, the
      aggregate read back is `h` with the entries in input order and their new ids. */
  lemma CreateFound(events: Events, entries: Entries, eventSeq: nat, entrySeq: nat, h: EventRow, es: seq<EventEntry>)
    requires Consistent(events, entries, eventSeq, entrySeq)
    ensures Find(events[eventSeq := h], entries + NewRows(eventSeq, es, entrySeq), entrySeq + |es|, eventSeq)
         == Some(ValueOf(eventSeq, h, Stamped(es, entrySeq)))
  {
    SelectedInserted(entries, eventSeq, es, entrySeq, |es|);
    assert Stamped(es, entrySeq)[..|es|] == Stamped(es, entrySeq);
  }

  /** Inserting rows for one event does not change the entry query of another. */
  lemma SelectedOtherAdded(m: Entries, eventId: int, es: seq<EventEntry>, base: nat, other: int, n: nat)
    requires forall k :: k in m ==> k < base
    requires other != eventId
    ensures Selected(m + NewRows(eventId, es, base), other, n) == Selected(m, other, n)
  {
    var added := NewRows(eventId, es, base);
    var m' := m + added;
    NewRowsAt(eventId, es, base);
    forall k | 0 <= k < n ensures Hit(m', other, k) == Hit(m, other, k) {
      if k in added {
        assert m'[k].eventId == eventId && k !in m;
      } else if k in m {
        assert m'[k] == m[k];
      }
    }
    SelectedAgree(m', m, other, n);
  }

  /** Deleting the rows of one event does not change the entry query of another. */
  lemma SelectedOtherCascaded(m: Entries, eventId: int, other: int, n: nat)
    requires other != eventId
    ensures Selected(Cascade(m, eventId), other, n) == Selected(m, other, n)
  {
    var kept := Cascade(m, eventId);
    forall k | 0 <= k < n ensures Hit(kept, other, k) == Hit(m, other, k) {
      if k in m && m[k].eventId == other {
        assert k in kept && kept[k] == m[k];
      } else if k in kept {
        assert kept[k] == m[k];
      }
    }
    SelectedAgree(kept, m, other, n);
  }

  /** Creating an event does not change what is read back for any other id. */
  lemma CreateKeepsOthers(events: Events, entries: Entries, eventSeq: nat, entrySeq: nat,
                          h: EventRow, es: seq<EventEntry>, other: int)
    requires forall k :: k in entries ==> k < entrySeq
    requires other != eventSeq
    ensures Find(events[eventSeq := h], entries + NewRows(eventSeq, es, entrySeq), entrySeq + |es|, other)
         == Find(events, entries, entrySeq, other)
  {
    SelectedOtherAdded(entries, eventSeq, es, entrySeq, other, entrySeq + |es|);
    SelectedBeyond(entries, other, entrySeq, entrySeq + |es|);
  }

  /** After an update of event `id` with header `h` and entries `es`, the aggregate read
      back has the header fields of `h` but the old owner, and exactly the new entries. */
  lemma UpdateFound(events: Events, entries: Entries, eventSeq: nat, entrySeq: nat,
                    id: int, h: EventRow, es: seq<EventEntry>)
    requires Consistent(events, entries, eventSeq, entrySeq)
    requires id in events
    ensures Find(events[id := Reheaded(events[id], h)], Cascade(entries, id) + NewRows(id, es, entrySeq),
                 entrySeq + |es|, id)
         == Some(ValueOf(id, h, Stamped(es, entrySeq)).(userId := events[id].userId))
  {
    SelectedInserted(Cascade(entries, id), id, es, entrySeq, |es|);
    assert Stamped(es, entrySeq)[..|es|] == Stamped(es, entrySeq);
  }

  /** Updating an event does not change what is read back for any other id. */
  lemma UpdateKeepsOthers(events: Events, entries: Entries, entrySeq: nat,
                          id: int, h: EventRow, es: seq<EventEntry>, other: int)
    requires forall k :: k in entries ==> k < entrySeq
    requires id in events && other != id
    ensures Find(events[id := Reheaded(events[id], h)], Cascade(entries, id) + NewRows(id, es, entrySeq),
                 entrySeq + |es|, other)
         == Find(events, entries, entrySeq, other)
  {
    SelectedOtherReplaced(entries, id, es, entrySeq, other);
  }

  /** Replacing the entry rows of event `id` does not change the entry query of another. */
  lemma SelectedOtherReplaced(entries: Entries, id: int, es: seq<EventEntry>, entrySeq: nat, other: int)
    requires forall k :: k in entries ==> k < entrySeq
    requires other != id
    ensures Selected(Cascade(entries, id) + NewRows(id, es, entrySeq), other, entrySeq + |es|)
         == Selected(entries, other, entrySeq)
  {
    CascadeBelow(entries, id, entrySeq);
    SelectedOtherAdded(Cascade(entries, id), id, es, entrySeq, other, entrySeq + |es|);
    SelectedOtherCascaded(entries, id, other, entrySeq + |es|);
    SelectedBeyond(entries, other, entrySeq, entrySeq + |es|);
  }

  /** Cascading keeps a subset of the rows, so it keeps any bound on their keys. */
  lemma CascadeBelow(entries: Entries, id: int, bound: nat)
    requires forall k :: k in entries ==> k < bound
    ensures forall k :: k in Cascade(entries, id) ==> k < bound
  {
  }

  /** Deleting an event (with its entries cascaded) does not change any other event. */
  lemma DeleteKeepsOthers(events: Events, entries: Entries, bound: nat, id: int, other: int)
    requires other != id
    ensures Find(events - {id}, Cascade(entries, id), bound, other) == Find(events, entries, bound, other)
  {
    SelectedOtherCascaded(entries, id, other, bound);
  }

  /** The committed state of a create: consistent again, the new aggregate readable under
      the new id, every other id unchanged. */
  lemma CreateCommitted(events: Events, entries: Entries, eventSeq: nat, entrySeq: nat,
                        h: EventRow, es: seq<EventEntry>)
    requires Consistent(events, entries, eventSeq, entrySeq)
    ensures var events' := events[eventSeq := h];
            var entries' := entries + NewRows(eventSeq, es, entrySeq);
            && Consistent(events', entries', eventSeq + 1, entrySeq + |es|)
            && Find(events', entries', entrySeq + |es|, eventSeq) == Some(ValueOf(eventSeq, h, Stamped(es, entrySeq)))
            && forall other :: other != eventSeq ==>
                 Find(events', entries', entrySeq + |es|, other) == Find(events, entries, entrySeq, other)
  {
    NewRowsAt(eventSeq, es, entrySeq);
    CreateFound(events, entries, eventSeq, entrySeq, h, es);
    forall other | other != eventSeq
      ensures Find(events[eventSeq := h], entries + NewRows(eventSeq, es, entrySeq), entrySeq + |es|, other)
           == Find(events, entries, entrySeq, other)
    {
      CreateKeepsOthers(events, entries, eventSeq, entrySeq, h, es, other);
    }
  }

  /** The committed state of an update of event `id`: consistent again, the event readable
      with the new header (old owner) and the new entries, its old entries gone, every
      other id unchanged. */
  lemma UpdateCommitted(events: Events, entries: Entries, eventSeq: nat, entrySeq: nat,
                        id: int, h: EventRow, es: seq<EventEntry>)
    requires Consistent(events, entries, eventSeq, entrySeq)
    requires id in events
    ensures var events' := events[id := Reheaded(events[id], h)];
            var entries' := Cascade(entries, id) + NewRows(id, es, entrySeq);
            && Consistent(events', entries', eventSeq, entrySeq + |es|)
            && Find(events', entries', entrySeq + |es|, id)
               == Some(ValueOf(id, h, Stamped(es, entrySeq)).(userId := events[id].userId))
            && (forall k :: k in entries && entries[k].eventId == id ==> k !in entries')
            && forall other :: other != id ==>
                 Find(events', entries', entrySeq + |es|, other) == Find(events, entries, entrySeq, other)
  {
    NewRowsAt(id, es, entrySeq);
    UpdateFound(events, entries, eventSeq, entrySeq, id, h, es);
    forall other | other != id
      ensures Find(events[id := Reheaded(events[id], h)], Cascade(entries, id) + NewRows(id, es, entrySeq),
                   entrySeq + |es|, other)
           == Find(events, entries, entrySeq, other)
    {
      UpdateKeepsOthers(events, entries, entrySeq, id, h, es, other);
    }
  }

  /** Advancing the sequences without inserting keeps the tables consistent, and the id
      the event sequence handed out has no event: this is the state a rolled-back create
      or update leaves behind. */
  lemma ConsistentAdvanced(events: Events, entries: Entries, eventSeq: nat, entrySeq: nat,
                           eventSeq': nat, entrySeq': nat)
    requires Consistent(events, entries, eventSeq, entrySeq)
    requires eventSeq <= eventSeq' && entrySeq <= entrySeq'
    ensures Consistent(events, entries, eventSeq', entrySeq')
    ensures Find(events, entries, entrySeq', eventSeq) == None
  {
  }

  /** With the foreign key in place, no entry belongs to a missing event. */
  lemma CascadeMissing(events: Events, entries: Entries, eventSeq: nat, entrySeq: nat, id: int)
    requires Consistent(events, entries, eventSeq, entrySeq)
    requires id !in events
    ensures Cascade(entries, id) == entries
  {
    forall k | k in entries ensures k in Cascade(entries, id) {
      assert entries[k].eventId in events;
    }
    assert Cascade(entries, id).Keys == entries.Keys;
  }
}
