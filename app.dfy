/** The schedule screen (App.tsx): it resolves the current week, loads that
    week's days from the week store or creates and saves a blank week, and
    applies the add, edit and delete actions to the days it shows, saving
    the whole week after each one. */
module App {
  import opened Types
  import opened Calendar
  import opened Db
  import opened ScheduleTable

  /** `vietnameseDays`: the weekday labels, Monday first. */
  const DayLabels: seq<string> := ["Thứ Hai", "Thứ Ba", "Thứ Tư", "Thứ Năm", "Thứ Sáu", "Thứ Bảy", "Chủ Nhật"]

  /** Day `i` of a fresh week: dated `monday + i`, labelled `DayLabels[i]`, with no events. */
  function BlankDay(monday: int, i: int): ScheduleDay
    requires 0 <= i < 7
  {
    ScheduleDay(FormatDate(monday + i), DayLabels[i], [])
  }

  /** The seven days `loadSchedule` builds for a week that has no record. */
  function BlankWeek(monday: int): seq<ScheduleDay> {
    seq(7, i requires 0 <= i < 7 => BlankDay(monday, i))
  }

  /** The loop of `loadSchedule` that pushes the seven blank days into `newWeekData`. */
  method NewWeekData(monday: int) returns (newWeekData: seq<ScheduleDay>)
    ensures newWeekData == BlankWeek(monday)
  {
    newWeekData := [];
    for i := 0 to 7
      invariant newWeekData == BlankWeek(monday)[..i]
    {
      var day := monday + i;
      newWeekData := newWeekData + [ScheduleDay(FormatDate(day), DayLabels[i], [])];
    }
    assert BlankWeek(monday)[..7] == BlankWeek(monday);
  }

  /** A fresh week of a Monday has seven days, Monday to Sunday, each with its
      own display date (that of `monday + i`), its label and no events. */
  lemma BlankWeekShape(monday: int)
    requires Weekday(monday) == 1
    ensures |BlankWeek(monday)| == 7
    ensures Weekday(monday + 6) == 0
    ensures forall i :: 0 <= i < 7 ==>
      && BlankWeek(monday)[i].events == []
      && BlankWeek(monday)[i].dayOfWeek == DayLabels[i]
      && ParseDisplayDate(BlankWeek(monday)[i].date) == Some(FromDays(monday + i))
    ensures forall i, j :: 0 <= i < j < 7 ==> BlankWeek(monday)[i].date != BlankWeek(monday)[j].date
  {
    assert Weekday(monday + 6) == 0 by {
      assert monday + 4 == 7 * ((monday + 4) / 7) + 1;
    }
    forall i | 0 <= i < 7
      ensures ParseDisplayDate(BlankWeek(monday)[i].date) == Some(FromDays(monday + i))
    {
      DisplayDateRoundTrip(FromDays(monday + i));
    }
    forall i, j | 0 <= i < j < 7
      ensures BlankWeek(monday)[i].date != BlankWeek(monday)[j].date
    {
      FormatDateInjective(monday + i, monday + j);
    }
  }

  /** `getWeekRange`: the display dates of the Monday and the Sunday of the week of `today`. */
  function GetWeekRange(today: int): (string, string) {
    var monday := GetMonday(today);
    (FormatDate(monday), FormatDate(monday + 6))
  }

  /** The header's range is the first and the last date of the week's grid,
      and `today` falls between them. */
  lemma WeekRangeBoundsBlankWeek(today: int)
    ensures GetMonday(today) <= today <= GetMonday(today) + 6
    ensures GetWeekRange(today).0 == BlankWeek(GetMonday(today))[0].date
    ensures GetWeekRange(today).1 == BlankWeek(GetMonday(today))[6].date
    ensures Weekday(GetMonday(today) + 6) == 0
  {
    BlankWeekShape(GetMonday(today));
  }

  // ---------------------------------------------------------------------
  // Loading

  /** The state `loadSchedule` leaves behind: the days shown and the store's records. */
  datatype Loaded = Loaded(schedule: seq<ScheduleDay>, records: map<string, StoredRecord>)

  /** `loadSchedule` for the day `today`, when the database opens iff `available`,
      the read succeeds iff `getOk` and the save of a blank week iff `saveOk`. */
  function LoadOrInit(records: map<string, StoredRecord>, available: bool, today: int, getOk: bool, saveOk: bool)
    : (r: Loaded)
    ensures r.schedule != [] ==>
      WeekIdOf(today) in r.records && r.records[WeekIdOf(today)].schedule == r.schedule
    ensures forall w :: w != WeekIdOf(today) ==> Lookup(r.records, w) == Lookup(records, w)
    ensures KeyedByWeekId(records) ==> KeyedByWeekId(r.records)
  {
    var weekId := WeekIdOf(today);
    if !(available && getOk) then Loaded([], records)
    else match Lookup(records, weekId)
      case Some(stored) => Loaded(stored, records)
      case None =>
        if saveOk then Loaded(BlankWeek(GetMonday(today)), Put(records, weekId, BlankWeek(GetMonday(today))))
        else Loaded([], records)
  }

  /** A stored week is shown as it is and nothing is saved. */
  lemma LoadFindsStoredWeek(records: map<string, StoredRecord>, today: int, saveOk: bool)
    requires WeekIdOf(today) in records
    ensures LoadOrInit(records, true, today, true, saveOk) == Loaded(records[WeekIdOf(today)].schedule, records)
  {
  }

  /** A missing week is created blank, saved under the week's identifier and shown. */
  lemma LoadCreatesMissingWeek(records: map<string, StoredRecord>, today: int)
    requires WeekIdOf(today) !in records
    ensures var r := LoadOrInit(records, true, today, true, true);
      && r.schedule == BlankWeek(GetMonday(today))
      && |r.schedule| == 7
      && Lookup(r.records, WeekIdOf(today)) == Some(r.schedule)
  {
  }

  /** A failed open, a failed read, or a failed save of the blank week leaves an empty schedule. */
  lemma LoadFailureEmptiesSchedule(records: map<string, StoredRecord>, available: bool, today: int, getOk: bool, saveOk: bool)
    requires !(available && getOk) || (WeekIdOf(today) !in records && !saveOk)
    ensures LoadOrInit(records, available, today, getOk, saveOk) == Loaded([], records)
  {
  }

  /** Loading again, on any day of the same week and with the store working,
      shows the same days and changes nothing. */
  lemma LoadIsIdempotent(records: map<string, StoredRecord>, today: int, later: int)
    requires GetMonday(today) <= later < GetMonday(today) + 7
    ensures var first := LoadOrInit(records, true, today, true, true);
      LoadOrInit(first.records, true, later, true, true) == first
  {
    WeekIdSameIffSameWeek(today, later);
  }

  // ---------------------------------------------------------------------
  // Editing

  /** The event `handleAddEvent` builds: the form fields, the new id and `lastModified = now`. */
  function NewEvent(fields: EventFields, id: string, now: int): (e: ScheduleEvent)
    ensures e.id == id && e.lastModified == Some(now)
    ensures EventFields(e.time, e.location, e.content, e.preparation, e.host, e.participants) == fields
  {
    ScheduleEvent(id, fields.time, fields.location, fields.content, None,
                  fields.preparation, fields.host, fields.participants, None, Some(now))
  }

  /** `{ ...updatedEvent, lastModified: now }`. */
  function Stamped(e: ScheduleEvent, now: int): (r: ScheduleEvent)
    ensures r.id == e.id && r.lastModified == Some(now)
    ensures r.(lastModified := e.lastModified) == e
  {
    e.(lastModified := Some(now))
  }

  /** The days with day `dayIndex`'s events replaced. */
  function WithEvents(days: seq<ScheduleDay>, dayIndex: int, events: seq<ScheduleEvent>): (r: seq<ScheduleDay>)
    requires 0 <= dayIndex < |days|
    ensures |r| == |days| && r[dayIndex].events == events
    ensures r[dayIndex].date == days[dayIndex].date && r[dayIndex].dayOfWeek == days[dayIndex].dayOfWeek
    ensures forall i :: 0 <= i < |days| && i != dayIndex ==> r[i] == days[i]
  {
    days[dayIndex := days[dayIndex].(events := events)]
  }

  /** `events.map(event => event.id === updatedEvent.id ? { ...updatedEvent, lastModified: now } : event)`. */
  function ReplaceEvents(events: seq<ScheduleEvent>, updated: ScheduleEvent, now: int): (r: seq<ScheduleEvent>)
    ensures |r| == |events|
    ensures forall i :: 0 <= i < |events| ==>
      r[i] == if events[i].id == updated.id then Stamped(updated, now) else events[i]
    ensures forall i :: 0 <= i < |events| ==> r[i].id == events[i].id
  {
    if events == [] then []
    else [if events[0].id == updated.id then Stamped(updated, now) else events[0]]
         + ReplaceEvents(events[1..], updated, now)
  }

  /** `events.filter(event => event.id !== eventId)`. */
  function RemoveEvents(events: seq<ScheduleEvent>, id: string): (r: seq<ScheduleEvent>)
    ensures forall e :: e in r <==> e in events && e.id != id
    ensures |r| <= |events|
  {
    if events == [] then []
    else (if events[0].id == id then [] else [events[0]]) + RemoveEvents(events[1..], id)
  }

  /** Deleting distributes over concatenation: the kept events stay in their order. */
  lemma {:induction false} RemoveEventsAppend(a: seq<ScheduleEvent>, b: seq<ScheduleEvent>, id: string)
    ensures RemoveEvents(a + b, id) == RemoveEvents(a, id) + RemoveEvents(b, id)
  {
    if a != [] {
      assert (a + b)[1..] == a[1..] + b;
      RemoveEventsAppend(a[1..], b, id);
    } else {
      assert a + b == b;
    }
  }

  /** Deleting removes every copy of the events with the id and no copy of any other. */
  lemma {:induction false} RemoveEventsCounts(events: seq<ScheduleEvent>, id: string)
    ensures forall e :: multiset(RemoveEvents(events, id))[e] == if e.id == id then 0 else multiset(events)[e]
  {
    if events != [] {
      RemoveEventsCounts(events[1..], id);
      assert events == [events[0]] + events[1..];
    }
  }

  /** Deleting an id no event has changes nothing. */
  lemma {:induction false} RemoveEventsAbsent(events: seq<ScheduleEvent>, id: string)
    requires forall e :: e in events ==> e.id != id
    ensures RemoveEvents(events, id) == events
  {
    if events != [] {
      var tail := events[1..];
      forall e | e in tail ensures e.id != id {
        assert e in events;
      }
      RemoveEventsAbsent(tail, id);
      assert events[0] in events;
      assert events == [events[0]] + tail;
    }
  }

  /** Deleting twice is deleting once. */
  lemma RemoveEventsIdempotent(events: seq<ScheduleEvent>, id: string)
    ensures RemoveEvents(RemoveEvents(events, id), id) == RemoveEvents(events, id)
  {
    RemoveEventsAbsent(RemoveEvents(events, id), id);
  }

  /** Editing with an id no event has changes nothing. */
  lemma ReplaceEventsAbsent(events: seq<ScheduleEvent>, updated: ScheduleEvent, now: int)
    requires forall e :: e in events ==> e.id != updated.id
    ensures ReplaceEvents(events, updated, now) == events
  {
    var r := ReplaceEvents(events, updated, now);
    assert forall i :: 0 <= i < |events| ==> r[i] == events[i];
  }

  /** Editing or deleting an id that no event of the day has leaves the whole schedule as it was. */
  lemma UnknownIdLeavesScheduleUnchanged(days: seq<ScheduleDay>, dayIndex: int, updated: ScheduleEvent, now: int)
    requires 0 <= dayIndex < |days|
    requires forall e :: e in days[dayIndex].events ==> e.id != updated.id
    ensures WithEvents(days, dayIndex, ReplaceEvents(days[dayIndex].events, updated, now)) == days
    ensures WithEvents(days, dayIndex, RemoveEvents(days[dayIndex].events, updated.id)) == days
  {
    ReplaceEventsAbsent(days[dayIndex].events, updated, now);
    RemoveEventsAbsent(days[dayIndex].events, updated.id);
    assert days[dayIndex].(events := days[dayIndex].events) == days[dayIndex];
  }

  /** Ids are unique within the day's events. */
  predicate UniqueIds(events: seq<ScheduleEvent>) {
    forall i, j :: 0 <= i < j < |events| ==> events[i].id != events[j].id
  }

  /** Deleting keeps the ids of a day unique. */
  lemma {:induction false} RemoveEventsKeepsIdsUnique(events: seq<ScheduleEvent>, id: string)
    requires UniqueIds(events)
    ensures UniqueIds(RemoveEvents(events, id))
  {
    if events != [] {
      var tail := events[1..];
      assert UniqueIds(tail) by {
        forall i, j | 0 <= i < j < |tail| ensures tail[i].id != tail[j].id {
          assert tail[i] == events[i + 1] && tail[j] == events[j + 1];
        }
      }
      RemoveEventsKeepsIdsUnique(tail, id);
      var rest := RemoveEvents(tail, id);
      if events[0].id != id {
        var r := [events[0]] + rest;
        forall i, j | 0 <= i < j < |r| ensures r[i].id != r[j].id {
          if i == 0 {
            assert r[j] == rest[j - 1] && rest[j - 1] in rest;
            var k :| 0 <= k < |tail| && tail[k] == r[j];
            assert events[k + 1] == r[j];
          } else {
            assert r[i] == rest[i - 1] && r[j] == rest[j - 1];
          }
        }
      }
    }
  }

  /** Adding an event with a fresh id, and editing, keep the ids of a day unique. */
  lemma EditsKeepIdsUnique(events: seq<ScheduleEvent>, added: ScheduleEvent, updated: ScheduleEvent, now: int)
    requires UniqueIds(events)
    requires forall e :: e in events ==> e.id != added.id
    ensures UniqueIds(events + [added])
    ensures UniqueIds(ReplaceEvents(events, updated, now))
  {
    var appended := events + [added];
    forall i, j | 0 <= i < j < |appended| ensures appended[i].id != appended[j].id {
      if j == |events| {
        assert appended[i] in events;
      }
    }
  }

  /** Adding an event with a fresh id and then deleting that id restores the day. */
  lemma AddThenDeleteRestores(days: seq<ScheduleDay>, dayIndex: int, fields: EventFields, id: string, now: int)
    requires 0 <= dayIndex < |days|
    requires forall e :: e in days[dayIndex].events ==> e.id != id
    ensures var added := WithEvents(days, dayIndex, days[dayIndex].events + [NewEvent(fields, id, now)]);
      WithEvents(added, dayIndex, RemoveEvents(added[dayIndex].events, id)) == days
  {
    var events := days[dayIndex].events;
    var added := WithEvents(days, dayIndex, events + [NewEvent(fields, id, now)]);
    RemoveEventsAppend(events, [NewEvent(fields, id, now)], id);
    RemoveEventsAbsent(events, id);
    assert RemoveEvents([NewEvent(fields, id, now)], id) == [];
    assert RemoveEvents(added[dayIndex].events, id) == events;
    assert added[dayIndex].(events := events) == days[dayIndex];
  }

  /** An added or edited event carries the current time, so it is flagged new
      for the next five minutes, provided that time is not 0. */
  lemma TouchedEventIsNew(fields: EventFields, id: string, updated: ScheduleEvent, now: int, currentTime: int)
    requires now != 0 && now <= currentTime < now + NewDurationMs
    ensures IsNew(NewEvent(fields, id, now), currentTime)
    ensures IsNew(Stamped(updated, now), currentTime)
  {
  }

  // ---------------------------------------------------------------------
  // The screen's state

  class ScheduleApp {
    /** `scheduleData`: the days on screen. */
    var scheduleData: seq<ScheduleDay>
    /** The week store the screen saves to. */
    const db: WeekStore

    ghost predicate Valid()
      reads this, db
    {
      db.Valid()
    }

    /** `useState<ScheduleDay[]>([])`: the screen starts with no days. */
    constructor (db: WeekStore)
      requires db.Valid()
      ensures Valid() && this.db == db && scheduleData == []
    {
      this.db := db;
      scheduleData := [];
    }

    /** `loadSchedule`, run on the day `today`. */
    method LoadSchedule(today: int, getOk: bool, saveOk: bool)
      requires Valid()
      modifies this, db
      ensures Valid()
      ensures db.dbPromise == Some(WeekStore.OpenOutcome(db.available))
      ensures Loaded(scheduleData, db.records) == LoadOrInit(old(db.records), db.available, today, getOk, saveOk)
    {
      var monday := GetMonday(today);
      var weekId := IsoDate(FromDays(monday));
      var stored := db.GetSchedule(weekId, getOk);
      if stored.Err? {
        scheduleData := [];
        return;
      }
      match stored.value {
        case Some(s) =>
          scheduleData := s;
        case None =>
          var newWeekData := NewWeekData(monday);
          scheduleData := newWeekData;
          var saved := db.SaveSchedule(weekId, newWeekData, saveOk);
          if saved.Err? {
            scheduleData := [];
          }
      }
    }

    /** `persistSchedule`: saves the days under the identifier of the week of
        `today`; a failure is reported through `saved` and not raised. */
    method PersistSchedule(newSchedule: seq<ScheduleDay>, today: int, putOk: bool) returns (saved: bool)
      requires Valid()
      modifies db
      ensures Valid()
      ensures db.dbPromise == Some(WeekStore.OpenOutcome(db.available))
      ensures saved == (db.available && putOk)
      ensures db.records == if saved then Put(old(db.records), WeekIdOf(today), newSchedule) else old(db.records)
    {
      var weekId := IsoDate(FromDays(GetMonday(today)));
      var r := db.SaveSchedule(weekId, newSchedule, putOk);
      saved := r.Ok?;
    }

    /** `handleAddEvent`: appends the new event to day `dayIndex`, then saves
        the week; the change stays on screen whether or not the save succeeds. */
    method HandleAddEvent(dayIndex: int, fields: EventFields, freshId: string, now: int, today: int, putOk: bool)
      requires Valid()
      requires 0 <= dayIndex < |scheduleData|
      requires forall e :: e in scheduleData[dayIndex].events ==> e.id != freshId
      modifies this, db
      ensures Valid()
      ensures db.dbPromise == Some(WeekStore.OpenOutcome(db.available))
      ensures scheduleData == WithEvents(old(scheduleData), dayIndex,
                                         old(scheduleData)[dayIndex].events + [NewEvent(fields, freshId, now)])
      ensures db.records == if db.available && putOk then Put(old(db.records), WeekIdOf(today), scheduleData)
                            else old(db.records)
    {
      var newSchedule := scheduleData;
      var newEvent := NewEvent(fields, freshId, now);
      newSchedule := WithEvents(newSchedule, dayIndex, newSchedule[dayIndex].events + [newEvent]);
      scheduleData := newSchedule;
      var _ := PersistSchedule(newSchedule, today, putOk);
    }

    /** `handleEditEvent`: every event of day `dayIndex` with the id of
        `updatedEvent` becomes `updatedEvent` stamped with `now`; then the week is saved. */
    method HandleEditEvent(dayIndex: int, updatedEvent: ScheduleEvent, now: int, today: int, putOk: bool)
      requires Valid()
      requires 0 <= dayIndex < |scheduleData|
      modifies this, db
      ensures Valid()
      ensures db.dbPromise == Some(WeekStore.OpenOutcome(db.available))
      ensures scheduleData == WithEvents(old(scheduleData), dayIndex,
                                         ReplaceEvents(old(scheduleData)[dayIndex].events, updatedEvent, now))
      ensures db.records == if db.available && putOk then Put(old(db.records), WeekIdOf(today), scheduleData)
                            else old(db.records)
    {
      var newSchedule := scheduleData;
      newSchedule := WithEvents(newSchedule, dayIndex, ReplaceEvents(newSchedule[dayIndex].events, updatedEvent, now));
      scheduleData := newSchedule;
      var _ := PersistSchedule(newSchedule, today, putOk);
    }

    /** `handleDeleteEvent`: removes the events of day `dayIndex` with id
        `eventId`; then the week is saved. */
    method HandleDeleteEvent(dayIndex: int, eventId: string, today: int, putOk: bool)
      requires Valid()
      requires 0 <= dayIndex < |scheduleData|
      modifies this, db
      ensures Valid()
      ensures db.dbPromise == Some(WeekStore.OpenOutcome(db.available))
      ensures scheduleData == WithEvents(old(scheduleData), dayIndex,
                                         RemoveEvents(old(scheduleData)[dayIndex].events, eventId))
      ensures db.records == if db.available && putOk then Put(old(db.records), WeekIdOf(today), scheduleData)
                            else old(db.records)
    {
      var newSchedule := scheduleData;
      newSchedule := WithEvents(newSchedule, dayIndex, RemoveEvents(newSchedule[dayIndex].events, eventId));
      scheduleData := newSchedule;
      var _ := PersistSchedule(newSchedule, today, putOk);
    }
  }
}
