/** The week store (db.ts): an IndexedDB object store `schedules` whose
    records `{weekId, schedule}` are keyed by `weekId`, reached through a
    database handle that is opened once and then reused. */
module Db {
  import opened Types

  const DbName: string := "WeeklyScheduleDB"
  const DbVersion: int := 1

  /** One stored record: the week identifier and that week's days. */
  datatype StoredRecord = StoredRecord(weekId: string, schedule: seq<ScheduleDay>)

  /** The settled outcome of the single `openDB` call. */
  datatype Connection = Opened(name: string, version: int) | OpenFailed

  datatype StoreError = StorageUnavailable

  /** The outcome of an asynchronous store call: its value, or the rejection it ends in. */
  datatype Result<T> = Ok(value: T) | Err(error: StoreError)

  /** The object store's key path is `weekId`: each record sits under its own identifier. */
  predicate KeyedByWeekId(records: map<string, StoredRecord>) {
    forall w :: w in records ==> records[w].weekId == w
  }

  /** `store.get(weekId)` followed by `result ? result.schedule : null`:
      the record's schedule, not the record around it. */
  function Lookup(records: map<string, StoredRecord>, weekId: string): Option<seq<ScheduleDay>> {
    if weekId in records then Some(records[weekId].schedule) else None
  }

  /** `store.put({ weekId, schedule })`: the whole record under `weekId` is replaced. */
  function Put(records: map<string, StoredRecord>, weekId: string, schedule: seq<ScheduleDay>)
    : (r: map<string, StoredRecord>)
    ensures KeyedByWeekId(records) ==> KeyedByWeekId(r)
    ensures r.Keys == records.Keys + {weekId}
  {
    records[weekId := StoredRecord(weekId, schedule)]
  }

  /** A week with no record reads as absent. */
  lemma LookupMissing(records: map<string, StoredRecord>, weekId: string)
    requires weekId !in records
    ensures Lookup(records, weekId) == None
  {
  }

  /** Round trip: what is saved under a week is what is read back for it. */
  lemma PutThenLookup(records: map<string, StoredRecord>, weekId: string, schedule: seq<ScheduleDay>)
    ensures Lookup(Put(records, weekId, schedule), weekId) == Some(schedule)
    ensures Put(records, weekId, schedule)[weekId] == StoredRecord(weekId, schedule)
  {
  }

  /** Saving one week leaves every other week's record as it was. */
  lemma PutKeepsOtherWeeks(records: map<string, StoredRecord>, weekId: string, schedule: seq<ScheduleDay>, other: string)
    requires other != weekId
    ensures other in Put(records, weekId, schedule) <==> other in records
    ensures other in records ==> Put(records, weekId, schedule)[other] == records[other]
    ensures Lookup(Put(records, weekId, schedule), other) == Lookup(records, other)
  {
  }

  /** A second save of the same week fully replaces the first. */
  lemma PutOverwrites(records: map<string, StoredRecord>, weekId: string, first: seq<ScheduleDay>, second: seq<ScheduleDay>)
    ensures Put(Put(records, weekId, first), weekId, second) == Put(records, weekId, second)
  {
  }

  class WeekStore {
    /** Whether the browser lets the database open; it does not change while the page lives. */
    const available: bool
    /** `dbPromise`: absent until the first `initDB`, then the cached outcome of its one `openDB`. */
    var dbPromise: Option<Connection>
    /** The contents of the object store. */
    var records: map<string, StoredRecord>
    /** How many times `openDB` has been called. */
    ghost var opens: nat

    ghost predicate Valid()
      reads this
    {
      && opens == (if dbPromise.Some? then 1 else 0)
      && (dbPromise.Some? ==> dbPromise.value == OpenOutcome(available))
      && KeyedByWeekId(records)
    }

    static function OpenOutcome(available: bool): Connection {
      if available then Opened(DbName, DbVersion) else OpenFailed
    }

    constructor (available: bool, records: map<string, StoredRecord>)
      requires KeyedByWeekId(records)
      ensures Valid()
      ensures this.available == available && this.records == records
      ensures dbPromise == None && opens == 0
    {
      this.available := available;
      this.records := records;
      dbPromise := None;
      opens := 0;
    }

    /** `initDB`: the first call opens the database; every later call hands
        back the cached outcome, a failed open included, without opening again. */
    method InitDB() returns (c: Connection)
      requires Valid()
      modifies this`dbPromise, this`opens
      ensures Valid()
      ensures dbPromise == Some(c) && c == OpenOutcome(available) && opens == 1
      ensures old(dbPromise).Some? ==> c == old(dbPromise).value && opens == old(opens)
    {
      if dbPromise.Some? {
        c := dbPromise.value;
        return;
      }
      c := OpenOutcome(available);
      dbPromise := Some(c);
      opens := opens + 1;
    }

    /** `getSchedule`: the stored week's days, absent when no record exists;
        it fails when the database did not open or the read transaction fails. */
    method GetSchedule(weekId: string, txOk: bool) returns (r: Result<Option<seq<ScheduleDay>>>)
      requires Valid()
      modifies this`dbPromise, this`opens
      ensures Valid() && opens == 1
      ensures r == if available && txOk then Ok(Lookup(records, weekId)) else Err(StorageUnavailable)
    {
      var db := InitDB();
      if db.OpenFailed? || !txOk {
        return Err(StorageUnavailable);
      }
      r := Ok(Lookup(records, weekId));
    }

    /** `saveSchedule`: replaces the record of `weekId` with `{weekId, schedule}`;
        a failed open or transaction leaves the store as it was. */
    method SaveSchedule(weekId: string, schedule: seq<ScheduleDay>, txOk: bool) returns (r: Result<()>)
      requires Valid()
      modifies this`dbPromise, this`opens, this`records
      ensures Valid() && opens == 1
      ensures r.Ok? <==> available && txOk
      ensures records == if r.Ok? then Put(old(records), weekId, schedule) else old(records)
    {
      var db := InitDB();
      if db.OpenFailed? || !txOk {
        return Err(StorageUnavailable);
      }
      records := Put(records, weekId, schedule);
      r := Ok(());
    }
  }
}
