/** The daily watch-time log: one row per (email, date) in a hosted table, and
    `updateTimeLog`, which adds seconds to today's row by reading it and then updating it,
    or inserting it when the read found nothing. */
module TimeLog {
  import opened Common
  import opened Strings

  /** The natural key of a row. */
  datatype Key = Key(email: string, date: string)

  /** `total_seconds` and `last_updated`; an inserted row leaves `last_updated` to the table. */
  datatype Row = Row(totalSeconds: int, lastUpdated: Option<string>)

  /** `NotFound` is what `.single()` reports when no row matches; `Conflict` is an insert of a
      key the table already holds; `Unavailable` is any failure of the request itself. */
  datatype StoreError = NotFound | Conflict | Unavailable

  /** The requests issued to the table, so that contracts can say which ones were made. */
  datatype Request = Select(key: Key) | Update(key: Key, totalSeconds: int) | Insert(key: Key, totalSeconds: int)

  /** Which requests of one call fail on the way to the table. */
  datatype Faults = Faults(readFails: bool, writeFails: bool)

  /** What `updateTimeLog` ends with: an early return, the rows the write returned
      (exactly the written row), or the error it rethrows. */
  datatype Outcome = Skipped | Saved(key: Key, row: Row) | Failed(error: StoreError)

  /** `new Date().toISOString().split("T")[0]`: the date part of an ISO timestamp. */
  function DatePart(timestamp: string): (date: string)
    ensures date <= timestamp
    ensures 'T' !in date
    ensures |date| == |timestamp| || timestamp[|date|] == 'T'
  {
    FirstPiece(timestamp, 'T');
    SplitOn(timestamp, 'T')[0]
  }

  /** The date part of `YYYY-MM-DD` + `T` + time is `YYYY-MM-DD`. */
  lemma DatePartOfTimestamp(date: string, time: string)
    requires 'T' !in date
    ensures DatePart(date + "T" + time) == date
  {
    SplitAfterPiece(date, 'T', time);
  }

  /** The seconds logged for `key`, 0 when there is no row. */
  function Total(rows: map<Key, Row>, key: Key): int {
    if key in rows then rows[key].totalSeconds else 0
  }

  /** The `time_logs` table, with at most one row per key. */
  class Store {
    var rows: map<Key, Row>
    var requests: seq<Request>

    constructor (initial: map<Key, Row>)
      ensures rows == initial && requests == []
    {
      rows := initial;
      requests := [];
    }

    /** `select ... eq(email) eq(date) single()`: the row, or an error. */
    method SelectRow(key: Key, fails: bool) returns (r: Result<Row, StoreError>)
      modifies this`requests
      ensures requests == old(requests) + [Select(key)]
      ensures fails ==> r == Failure(Unavailable)
      ensures !fails && key !in rows ==> r == Failure(NotFound)
      ensures !fails && key in rows ==> r == Success(rows[key])
    {
      requests := requests + [Select(key)];
      if fails {
        r := Failure(Unavailable);
      } else if key !in rows {
        r := Failure(NotFound);
      } else {
        r := Success(rows[key]);
      }
    }

    /** `update({total_seconds, last_updated}) eq(email) eq(date) select()`, on a present key. */
    method UpdateRow(key: Key, total: int, stamp: string, fails: bool) returns (r: Result<Row, StoreError>)
      requires key in rows
      modifies this
      ensures requests == old(requests) + [Update(key, total)]
      ensures fails ==> r == Failure(Unavailable) && rows == old(rows)
      ensures !fails ==> r == Success(Row(total, Some(stamp))) && rows == old(rows)[key := Row(total, Some(stamp))]
    {
      requests := requests + [Update(key, total)];
      if fails {
        r := Failure(Unavailable);
      } else {
        rows := rows[key := Row(total, Some(stamp))];
        r := Success(Row(total, Some(stamp)));
      }
    }

    /** `insert([{email, date, total_seconds}]) select()`; the table refuses a second row
        for a key. */
    method InsertRow(key: Key, total: int, fails: bool) returns (r: Result<Row, StoreError>)
      modifies this
      ensures requests == old(requests) + [Insert(key, total)]
      ensures fails ==> r == Failure(Unavailable) && rows == old(rows)
      ensures !fails && key in old(rows) ==> r == Failure(Conflict) && rows == old(rows)
      ensures !fails && key !in old(rows) ==> r == Success(Row(total, None)) && rows == old(rows)[key := Row(total, None)]
    {
      requests := requests + [Insert(key, total)];
      if fails {
        r := Failure(Unavailable);
      } else if key in rows {
        r := Failure(Conflict);
      } else {
        rows := rows[key := Row(total, None)];
        r := Success(Row(total, None));
      }
    }
  }

  /** `updateTimeLog(email, seconds)` at the moment `now` (an ISO timestamp), with `stamp` the
      timestamp written as `last_updated`. Blank email or a non-positive count returns at once
      without a request. Otherwise it reads today's row, ignoring the read's error: a row read
      is updated to its total plus `seconds`; no row read, for any reason, means an insert of
      `seconds`. A failed write is rethrown and leaves the table as it was. */
  method UpdateTimeLog(store: Store, email: string, seconds: int, now: string, stamp: string, faults: Faults)
    returns (r: Outcome)
    modifies store
    ensures var key := Key(email, DatePart(now));
      && (email == [] || seconds <= 0 ==>
            r == Skipped && store.rows == old(store.rows) && store.requests == old(store.requests))
      && (email != [] && seconds > 0 && !faults.readFails && key in old(store.rows) ==>
            var total := old(store.rows)[key].totalSeconds + seconds;
            && store.requests == old(store.requests) + [Select(key), Update(key, total)]
            && (faults.writeFails ==> r == Failed(Unavailable) && store.rows == old(store.rows))
            && (!faults.writeFails ==>
                  r == Saved(key, Row(total, Some(stamp)))
                  && store.rows == old(store.rows)[key := Row(total, Some(stamp))]))
      && (email != [] && seconds > 0 && (faults.readFails || key !in old(store.rows)) ==>
            && store.requests == old(store.requests) + [Select(key), Insert(key, seconds)]
            && (faults.writeFails ==> r == Failed(Unavailable) && store.rows == old(store.rows))
            && (!faults.writeFails && key in old(store.rows) ==>
                  r == Failed(Conflict) && store.rows == old(store.rows))
            && (!faults.writeFails && key !in old(store.rows) ==>
                  r == Saved(key, Row(seconds, None))
                  && store.rows == old(store.rows)[key := Row(seconds, None)]))
    // What the caller can rely on, whichever path was taken:
    ensures r.Failed? || r.Skipped? ==> store.rows == old(store.rows)
    ensures r.Saved? ==> r.key == Key(email, DatePart(now)) && r.key in store.rows && store.rows[r.key] == r.row
    ensures r.Saved? ==> Total(store.rows, r.key) == Total(old(store.rows), r.key) + seconds
    ensures forall k | k != Key(email, DatePart(now)) :: Total(store.rows, k) == Total(old(store.rows), k)
    ensures store.rows.Keys == old(store.rows.Keys) || store.rows.Keys == old(store.rows.Keys) + {Key(email, DatePart(now))}
  {
    if email == [] || seconds <= 0 {
      return Skipped;
    }
    var today := DatePart(now);
    var key := Key(email, today);
    var existing := store.SelectRow(key, faults.readFails);
    if existing.Success? {
      var written := store.UpdateRow(key, existing.value.totalSeconds + seconds, stamp, faults.writeFails);
      if written.Failure? {
        return Failed(written.error);
      }
      return Saved(key, written.value);
    } else {
      var written := store.InsertRow(key, seconds, faults.writeFails);
      if written.Failure? {
        return Failed(written.error);
      }
      return Saved(key, written.value);
    }
  }

  /** Two calls on one day: 15 seconds on a day without a row create it with 15, and 10 more
      bring it to 25. */
  method TwoCallsAccumulate(email: string, now: string, stamp: string) returns (store: Store)
    requires email != []
    ensures Total(store.rows, Key(email, DatePart(now))) == 25
  {
    store := new Store(map[]);
    var first := UpdateTimeLog(store, email, 15, now, stamp, Faults(false, false));
    assert Total(store.rows, Key(email, DatePart(now))) == 15;
    var second := UpdateTimeLog(store, email, 10, now, stamp, Faults(false, false));
  }
}
