/** The calendar commands of the command-line tool: the free-slot sweep of
    `calendar-free`, and the `event-*` commands, which only queue an action
    row in status 'proposed' for the executor to carry out. Instants are
    integer seconds on the user's local clock; day `d` starts at `d * 86400`. */
module CliCalendar {
  import opened Wrappers
  import opened Text
  import Sorting
  import Triggers
  import Calendar
  import Actions

  // ------------------------------------------------------------ calendar-free

  /** A `calendar_events` row as the free-slot query sees it. */
  datatype CalendarRow = CalendarRow(startAt: int, endAt: int, subject: string, showAs: string, isCancelled: bool)

  datatype Busy = Busy(start: int, end: int)

  datatype FreeSlot = FreeSlot(start: int, end: int, durationMinutes: int)

  const WorkStartHour := 9
  const WorkEndHour := 17

  /** The query: rows starting on the day, not cancelled, shown as busy,
      tentative or out of office. */
  predicate Selected(row: CalendarRow, day: int) {
    day * Triggers.SecondsPerDay <= row.startAt < (day + 1) * Triggers.SecondsPerDay
    && !row.isCancelled && row.showAs in {"busy", "tentative", "oof"}
  }

  function DayBusy(rows: seq<CalendarRow>, day: int): (r: seq<Busy>)
    ensures forall b :: b in r <==> exists i :: 0 <= i < |rows| && Selected(rows[i], day)
                                     && b == Busy(rows[i].startAt, rows[i].endAt)
  {
    if |rows| == 0 then []
    else
      var rest := DayBusy(rows[1..], day);
      assert forall i :: 1 <= i < |rows| ==> rows[i] == rows[1..][i - 1];
      (if Selected(rows[0], day) then [Busy(rows[0].startAt, rows[0].endAt)] else []) + rest
  }

  function BusyStart(b: Busy): real {
    b.start as real
  }

  function BusyEnd(b: Busy): real {
    b.end as real
  }

  /** `sorted(busy_periods)` orders the tuples by start, then by end: a stable
      sort by start after one by end. */
  function SortBusy(busy: seq<Busy>): (r: seq<Busy>)
    ensures Sorting.SortedBy(r, BusyStart)
    ensures multiset(r) == multiset(busy)
    ensures forall b :: b in r <==> b in busy
  {
    var r := Sorting.SortBy(Sorting.SortBy(busy, BusyEnd), BusyStart);
    assert forall b :: b in r <==> b in multiset(busy);
    r
  }

  function Slot(from: int, to: int): FreeSlot {
    FreeSlot(from, to, Calendar.TruncMinutes(to - from))
  }

  datatype Sweep = Sweep(slots: seq<FreeSlot>, cur: int)

  /** The loop over the sorted busy periods: a gap before each period that
      starts after `cur`, then `cur` moves to the period's end if later. */
  function SweepFrom(busy: seq<Busy>, cur: int): (r: Sweep)
    ensures r.cur >= cur
    ensures forall j :: 0 <= j < |busy| ==> busy[j].end <= r.cur
    ensures forall s :: s in r.slots ==> cur <= s.start < s.end && s.durationMinutes == Calendar.TruncMinutes(s.end - s.start)
    ensures forall s :: s in r.slots ==> exists j :: 0 <= j < |busy| && s.end == busy[j].start
  {
    if |busy| == 0 then Sweep([], cur)
    else
      var b := busy[0];
      assert forall j :: 1 <= j < |busy| ==> busy[j] == busy[1..][j - 1];
      var rest := SweepFrom(busy[1..], Calendar.Max(cur, b.end));
      Sweep((if b.start > cur then [Slot(cur, b.start)] else []) + rest.slots, rest.cur)
  }

  /** `calendar-free DATE`. `parseDate` stands for `strptime(date, "%Y-%m-%d")`,
      giving the day number; a date it rejects is the `invalid_date` error. */
  function CalendarFree(parseDate: string -> Option<int>, date: string, rows: seq<CalendarRow>)
    : (r: Result<seq<FreeSlot>>)
    ensures parseDate(date).None? <==> r.Failure?
    ensures r.Failure? ==> r.error == "invalid_date"
  {
    match parseDate(date)
    case None => Failure("invalid_date")
    case Some(day) => Success(FreeOn(day, rows))
  }

  function WorkStart(day: int): int {
    day * Triggers.SecondsPerDay + WorkStartHour * Triggers.SecondsPerHour
  }

  function WorkEnd(day: int): int {
    day * Triggers.SecondsPerDay + WorkEndHour * Triggers.SecondsPerHour
  }

  /** The day's busy periods in the order the sweep visits them. */
  function DayOrder(day: int, rows: seq<CalendarRow>): (r: seq<Busy>)
    ensures Sorting.SortedBy(r, BusyStart)
    ensures forall b :: b in r <==> exists i :: 0 <= i < |rows| && Selected(rows[i], day)
                                     && b == Busy(rows[i].startAt, rows[i].endAt)
  {
    SortBusy(DayBusy(rows, day))
  }

  /** The closing slot, up to 17:00, when the sweep stops before it. */
  function Closing(cur: int, day: int): (r: seq<FreeSlot>)
    ensures |r| <= 1
    ensures |r| == 1 <==> cur < WorkEnd(day)
    ensures |r| == 1 ==> r[0] == Slot(cur, WorkEnd(day))
  {
    if cur < WorkEnd(day) then [Slot(cur, WorkEnd(day))] else []
  }

  /** The free slots of one day between 09:00 and 17:00. */
  function FreeOn(day: int, rows: seq<CalendarRow>): (r: seq<FreeSlot>)
    ensures forall s :: s in r ==> WorkStart(day) <= s.start < s.end
  {
    var sweep := SweepFrom(DayOrder(day, rows), WorkStart(day));
    sweep.slots + Closing(sweep.cur, day)
  }

  predicate Holds(s: FreeSlot, t: int) {
    s.start <= t < s.end
  }

  predicate Occupies(row: CalendarRow, t: int) {
    row.startAt <= t < row.endAt
  }

  /** The sweep's slots keep clear of every busy period: each ends no later
      than the period starts, or starts no earlier than it ends. */
  lemma {:induction false} SweepAvoidsBusy(busy: seq<Busy>, cur: int)
    requires Sorting.SortedBy(busy, BusyStart)
    ensures forall s, j :: s in SweepFrom(busy, cur).slots && 0 <= j < |busy| ==>
      s.end <= busy[j].start || busy[j].end <= s.start
  {
    if |busy| > 0 {
      var b := busy[0];
      assert Sorting.SortedBy(busy[1..], BusyStart) by {
        forall i, j | 0 <= i < j < |busy[1..]|
          ensures BusyStart(busy[1..][i]) <= BusyStart(busy[1..][j])
        {
          assert BusyStart(busy[i + 1]) <= BusyStart(busy[j + 1]);
        }
      }
      assert forall j :: 1 <= j < |busy| ==> busy[j] == busy[1..][j - 1];
      assert forall j :: 0 <= j < |busy| ==> b.start <= busy[j].start by {
        forall j | 0 <= j < |busy|
          ensures b.start <= busy[j].start
        {
          if j > 0 {
            assert BusyStart(busy[0]) <= BusyStart(busy[j]);
          }
        }
      }
      SweepAvoidsBusy(busy[1..], Calendar.Max(cur, b.end));
    }
  }

  /** Each slot ends before or when the next one begins. */
  predicate InTimeOrder(slots: seq<FreeSlot>) {
    forall i :: 0 <= i < |slots| - 1 ==> slots[i].end <= slots[i + 1].start
  }

  lemma ConsInTimeOrder(h: FreeSlot, rest: seq<FreeSlot>)
    requires InTimeOrder(rest) && (|rest| > 0 ==> h.end <= rest[0].start)
    ensures InTimeOrder([h] + rest)
  {
    var r := [h] + rest;
    forall i | 0 <= i < |r| - 1
      ensures r[i].end <= r[i + 1].start
    {
      if i > 0 {
        assert r[i] == rest[i - 1] && r[i + 1] == rest[i];
      }
    }
  }

  /** With every busy period ending no earlier than it starts, consecutive
      slots follow each other: each ends before or when the next begins. */
  lemma {:induction false} SweepOrdered(busy: seq<Busy>, cur: int)
    requires forall j :: 0 <= j < |busy| ==> busy[j].start <= busy[j].end
    ensures InTimeOrder(SweepFrom(busy, cur).slots)
    ensures forall s :: s in SweepFrom(busy, cur).slots ==> s.end <= SweepFrom(busy, cur).cur
  {
    SweepEndsBeforeCur(busy, cur);
    if |busy| > 0 {
      var b := busy[0];
      var next := Calendar.Max(cur, b.end);
      assert forall j :: 0 <= j < |busy[1..]| ==> busy[1..][j] == busy[j + 1];
      SweepOrdered(busy[1..], next);
      var rest := SweepFrom(busy[1..], next);
      if b.start > cur {
        if |rest.slots| > 0 {
          assert rest.slots[0] in rest.slots;
        }
        ConsInTimeOrder(Slot(cur, b.start), rest.slots);
      }
    }
  }

  /** Every slot of the sweep ends where some busy period starts, hence
      before the sweep's final cursor. */
  lemma SweepEndsBeforeCur(busy: seq<Busy>, cur: int)
    requires forall j :: 0 <= j < |busy| ==> busy[j].start <= busy[j].end
    ensures forall s :: s in SweepFrom(busy, cur).slots ==> s.end <= SweepFrom(busy, cur).cur
  {
    var r := SweepFrom(busy, cur);
    forall s | s in r.slots
      ensures s.end <= r.cur
    {
      var j :| 0 <= j < |busy| && s.end == busy[j].start;
    }
  }

  /** No free slot of `calendar-free` shares an instant with a busy,
      tentative or out-of-office event that starts that day. */
  lemma FreeOnAvoidsBusy(day: int, rows: seq<CalendarRow>)
    ensures forall s, i, t ::
      (s in FreeOn(day, rows) && 0 <= i < |rows| && Selected(rows[i], day) && Holds(s, t))
      ==> !Occupies(rows[i], t)
  {
    var busy := DayOrder(day, rows);
    var sweep := SweepFrom(busy, WorkStart(day));
    SweepAvoidsBusy(busy, WorkStart(day));
    forall s, i, t | s in FreeOn(day, rows) && 0 <= i < |rows| && Selected(rows[i], day) && Holds(s, t)
      ensures !Occupies(rows[i], t)
    {
      var b := Busy(rows[i].startAt, rows[i].endAt);
      assert b in busy;
      var j :| 0 <= j < |busy| && busy[j] == b;
      if s !in sweep.slots {
        assert s == Slot(sweep.cur, WorkEnd(day));
      }
    }
  }

  /** Free slots start at or after 09:00 and, with every event ending no
      earlier than it starts, come in time order without overlapping. */
  lemma FreeOnOrdered(day: int, rows: seq<CalendarRow>)
    requires forall i :: 0 <= i < |rows| ==> rows[i].startAt <= rows[i].endAt
    ensures forall s :: s in FreeOn(day, rows) ==> WorkStart(day) <= s.start < s.end
    ensures InTimeOrder(FreeOn(day, rows))
  {
    var busy := DayOrder(day, rows);
    var sweep := SweepFrom(busy, WorkStart(day));
    assert forall j :: 0 <= j < |busy| ==> busy[j].start <= busy[j].end by {
      forall j | 0 <= j < |busy|
        ensures busy[j].start <= busy[j].end
      {
        assert busy[j] in busy;
      }
    }
    SweepOrdered(busy, WorkStart(day));
    var r := FreeOn(day, rows);
    if |sweep.slots| > 0 && sweep.cur < WorkEnd(day) {
      assert sweep.slots[|sweep.slots| - 1] in sweep.slots;
      assert r[|sweep.slots|] == Slot(sweep.cur, WorkEnd(day));
    }
  }

  /** Once the day's events end before 17:00, the last slot runs to 17:00. */
  lemma FreeOnEndsAtClose(day: int, rows: seq<CalendarRow>)
    requires forall i :: 0 <= i < |rows| && Selected(rows[i], day) ==> rows[i].endAt < WorkEnd(day)
    ensures |FreeOn(day, rows)| > 0 && FreeOn(day, rows)[|FreeOn(day, rows)| - 1].end == WorkEnd(day)
  {
    var sweep := SweepFrom(DayOrder(day, rows), WorkStart(day));
    SweepStopsBeforeClose(day, rows);
    assert FreeOn(day, rows) == sweep.slots + [Slot(sweep.cur, WorkEnd(day))];
  }

  /** Under the same condition the sweep's cursor stays before 17:00. */
  lemma SweepStopsBeforeClose(day: int, rows: seq<CalendarRow>)
    requires forall i :: 0 <= i < |rows| && Selected(rows[i], day) ==> rows[i].endAt < WorkEnd(day)
    ensures SweepFrom(DayOrder(day, rows), WorkStart(day)).cur < WorkEnd(day)
  {
    var busy := DayOrder(day, rows);
    var sweep := SweepFrom(busy, WorkStart(day));
    SweepCurIsAnEnd(busy, WorkStart(day));
    if sweep.cur != WorkStart(day) {
      var j :| 0 <= j < |busy| && busy[j].end == sweep.cur;
      assert busy[j] in busy;
    }
  }

  /** The sweep only moves to the end of some busy period. */
  lemma {:induction false} SweepCurIsAnEnd(busy: seq<Busy>, cur: int)
    ensures SweepFrom(busy, cur).cur == cur || exists j :: 0 <= j < |busy| && busy[j].end == SweepFrom(busy, cur).cur
  {
    if |busy| > 0 {
      var next := Calendar.Max(cur, busy[0].end);
      SweepCurIsAnEnd(busy[1..], next);
      if SweepFrom(busy[1..], next).cur != next {
        var j :| 0 <= j < |busy[1..]| && busy[1..][j].end == SweepFrom(busy[1..], next).cur;
        assert busy[j + 1].end == SweepFrom(busy, cur).cur;
      }
    }
  }

  /** A busy period starting after 17:00 is not clipped: the slot before it
      runs from 09:00 to its start. */
  lemma GapBeforeEveningMeetingUnclipped(day: int, row: CalendarRow)
    requires Selected(row, day) && WorkEnd(day) < row.startAt <= row.endAt
    ensures FreeOn(day, [row]) == [Slot(WorkStart(day), row.startAt)]
  {
    var b := Busy(row.startAt, row.endAt);
    assert DayBusy([row], day) == [b];
    var busy := DayOrder(day, [row]);
    assert multiset(busy) == multiset{b};
    assert busy == [b];
    assert b.start > WorkStart(day);
    assert busy[0] == b && busy[1..] == [];
    var rest := SweepFrom(busy[1..], Calendar.Max(WorkStart(day), b.end));
    assert rest == Sweep([], b.end);
    var sweep := SweepFrom(busy, WorkStart(day));
    assert sweep == Sweep([Slot(WorkStart(day), b.start)] + rest.slots, rest.cur);
    assert sweep.slots == [Slot(WorkStart(day), b.start)];
    assert sweep.cur == b.end;
  }

  // ------------------------------------------------------------ event commands

  /** `s.replace(" ", "T")`. */
  function SpaceToT(s: string): (r: string)
    ensures |r| == |s|
    ensures forall i :: 0 <= i < |s| ==> r[i] == if s[i] == ' ' then 'T' else s[i]
  {
    if |s| == 0 then "" else [if s[0] == ' ' then 'T' else s[0]] + SpaceToT(s[1..])
  }

  /** An optional option: None becomes JSON null. */
  function OrNull(v: Option<string>): Actions.Json {
    match v
    case None => Actions.JNull
    case Some(s) => Actions.JStr(s)
  }

  function StrList(items: seq<string>): (r: seq<Actions.Json>)
    ensures |r| == |items| && forall i :: 0 <= i < |items| ==> r[i] == Actions.JStr(items[i])
  {
    if |items| == 0 then [] else [Actions.JStr(items[0])] + StrList(items[1..])
  }

  function StripAll(items: seq<string>): (r: seq<string>)
    ensures |r| == |items| && forall i :: 0 <= i < |items| ==> r[i] == Strip(items[i])
  {
    if |items| == 0 then [] else [Strip(items[0])] + StripAll(items[1..])
  }

  /** `--attendees`: comma-separated, each stripped; absent or empty gives []. */
  function AttendeeList(attendees: Option<string>): Actions.Json {
    match attendees
    case Some(a) => if |a| > 0 then Actions.JList(StrList(StripAll(Split(a, ',')))) else Actions.JList([])
    case None => Actions.JList([])
  }

  /** The payload `event-create` queues. */
  function CreatePayload(subject: string, start: string, end: string, attendees: Option<string>,
                         location: Option<string>, body: Option<string>, online: bool): (p: map<string, Actions.Json>)
    ensures p.Keys == {"subject", "start", "end", "attendees", "location", "body", "is_online_meeting"}
    ensures p["start"] == Actions.JStr(SpaceToT(start)) && p["end"] == Actions.JStr(SpaceToT(end))
  {
    map["subject" := Actions.JStr(subject), "start" := Actions.JStr(SpaceToT(start)),
        "end" := Actions.JStr(SpaceToT(end)), "attendees" := AttendeeList(attendees),
        "location" := OrNull(location), "body" := OrNull(body), "is_online_meeting" := Actions.JBool(online)]
  }

  /** The payload `event-update` queues: the event id, and each change only
      when it is given and non-empty; no other key. */
  function UpdatePayload(eventId: string, subject: Option<string>, start: Option<string>, end: Option<string>,
                         location: Option<string>): (p: map<string, Actions.Json>)
    ensures "event_id" in p && p["event_id"] == Actions.JStr(eventId)
    ensures "start" in p <==> start.Some? && |start.value| > 0
    ensures "start" in p ==> p["start"] == Actions.JStr(SpaceToT(start.value))
    ensures "end" in p <==> end.Some? && |end.value| > 0
    ensures "end" in p ==> p["end"] == Actions.JStr(SpaceToT(end.value))
    ensures "subject" in p <==> subject.Some? && |subject.value| > 0
    ensures "subject" in p ==> p["subject"] == Actions.JStr(subject.value)
    ensures "location" in p <==> location.Some? && |location.value| > 0
    ensures "location" in p ==> p["location"] == Actions.JStr(location.value)
    ensures p.Keys <= {"event_id", "subject", "start", "end", "location"}
  {
    var p0 := map["event_id" := Actions.JStr(eventId)];
    var p1 := if subject.Some? && |subject.value| > 0 then p0["subject" := Actions.JStr(subject.value)] else p0;
    var p2 := if start.Some? && |start.value| > 0 then p1["start" := Actions.JStr(SpaceToT(start.value))] else p1;
    var p3 := if end.Some? && |end.value| > 0 then p2["end" := Actions.JStr(SpaceToT(end.value))] else p2;
    if location.Some? && |location.value| > 0 then p3["location" := Actions.JStr(location.value)] else p3
  }

  function CancelPayload(eventId: string, notify: bool): map<string, Actions.Json> {
    map["event_id" := Actions.JStr(eventId), "notify_attendees" := Actions.JBool(notify)]
  }

  /** `_create_action`: a new row in status 'proposed', stamped with the clock. */
  function CreateAction(id: string, itemType: string, itemId: Option<string>, actionType: string,
                        payload: map<string, Actions.Json>, now: int): (a: Actions.Action)
    ensures a.status == Actions.Proposed && a.proposedAt == now
    ensures a.executedAt.None? && a.result.None? && a.error.None?
    ensures a.payload == Actions.Payload(payload) && a.actionType == actionType
  {
    Actions.Action(id, itemType, itemId, actionType, Actions.Payload(payload), Actions.Proposed, now, None, None, None)
  }

  const ValidResponses: set<string> := {"accept", "tentative", "decline"}

  /** `event-respond`: any response other than accept, tentative or decline
      is the `invalid_response` error and queues nothing. */
  function EventRespond(id: string, eventId: string, response: string, now: int): (r: Result<Actions.Action>)
    ensures r.Success? <==> response in ValidResponses
    ensures r.Failure? ==> r.error == "invalid_response"
    ensures r.Success? ==>
      (r.value.status == Actions.Proposed && r.value.actionType == "respond_event"
       && r.value.itemId == Some(eventId))
  {
    if response !in ValidResponses then Failure("invalid_response")
    else
      Success(CreateAction(id, "calendar_event", Some(eventId), "respond_event",
                           map["event_id" := Actions.JStr(eventId), "response" := Actions.JStr(response)], now))
  }

  function EventCreate(id: string, subject: string, start: string, end: string, attendees: Option<string>,
                       location: Option<string>, body: Option<string>, online: bool, now: int): Actions.Action {
    CreateAction(id, "calendar_event", None, "create_event",
                 CreatePayload(subject, start, end, attendees, location, body, online), now)
  }

  function EventUpdate(id: string, eventId: string, subject: Option<string>, start: Option<string>,
                       end: Option<string>, location: Option<string>, now: int): Actions.Action {
    CreateAction(id, "calendar_event", Some(eventId), "update_event",
                 UpdatePayload(eventId, subject, start, end, location), now)
  }

  function EventCancel(id: string, eventId: string, notify: bool, now: int): Actions.Action {
    CreateAction(id, "calendar_event", Some(eventId), "cancel_event", CancelPayload(eventId, notify), now)
  }

  /** A queued action is pending for the executor. */
  lemma QueuedActionPending(rows: seq<Actions.Action>, a: Actions.Action)
    requires a.status == Actions.Proposed
    ensures Actions.HasPendingActions(rows + [a])
  {
    Actions.HasPendingIff(rows + [a]);
    assert (rows + [a])[|rows|] == a;
  }

  /** The executor reads back what `event-respond` wrote: it records the
      event id and the response, and calls nobody. */
  lemma RespondRoundTrip(client: Actions.Client, parseIso: string -> Option<int>, id: string, eventId: string,
                         response: string, now: int)
    requires response in ValidResponses
    ensures Actions.OutcomeOf(EventRespond(id, eventId, response, now).value, Actions.Runtime(Success(client), parseIso, now))
      == Success(Actions.Responded(Actions.JStr(eventId), Actions.JStr(response), Actions.NotImplemented))
  {
  }

  /** `event-cancel` makes the executor delete exactly the named event. */
  lemma CancelRoundTrip(client: Actions.Client, parseIso: string -> Option<int>, id: string, eventId: string,
                        notify: bool, now: int)
    ensures Actions.OutcomeOf(EventCancel(id, eventId, notify, now), Actions.Runtime(Success(client), parseIso, now))
      == match client.delete(Actions.JStr(eventId))
         case Failure(e) => Failure(e)
         case Success(ok) => Success(Actions.Cancelled(Actions.JStr(eventId), ok))
  {
  }

  /** `event-create` with times the executor can parse becomes exactly one
      create call carrying those times. */
  lemma CreateRoundTrip(client: Actions.Client, parseIso: string -> Option<int>, id: string, subject: string,
                        start: string, end: string, attendees: Option<string>, location: Option<string>,
                        body: Option<string>, online: bool, now: int, s: int, e: int)
    requires parseIso(SpaceToT(start)) == Some(s) && parseIso(SpaceToT(end)) == Some(e)
    ensures Actions.OutcomeOf(EventCreate(id, subject, start, end, attendees, location, body, online, now),
                              Actions.Runtime(Success(client), parseIso, now))
      == match client.create(Actions.CreateRequest(Actions.JStr(subject), s, e, AttendeeList(attendees),
                                                   OrNull(location), OrNull(body), Actions.JBool(online)))
         case Failure(err) => Failure(err)
         case Success(ev) => Success(Actions.Created(ev.eventId, ev.subject))
  {
    var p := CreatePayload(subject, start, end, attendees, location, body, online);
    var a := EventCreate(id, subject, start, end, attendees, location, body, online, now);
    assert a.payload == Actions.Payload(p) && a.actionType == "create_event";
    assert Actions.OutcomeOf(a, Actions.Runtime(Success(client), parseIso, now))
           == Actions.CreateEvent(client, parseIso, p);
    CreateEventOnPayload(client, parseIso, subject, start, end, attendees, location, body, online, s, e);
  }

  /** The executor's create step on the payload `event-create` queues. */
  lemma CreateEventOnPayload(client: Actions.Client, parseIso: string -> Option<int>, subject: string,
                             start: string, end: string, attendees: Option<string>, location: Option<string>,
                             body: Option<string>, online: bool, s: int, e: int)
    requires parseIso(SpaceToT(start)) == Some(s) && parseIso(SpaceToT(end)) == Some(e)
    ensures Actions.CreateEvent(client, parseIso, CreatePayload(subject, start, end, attendees, location, body, online))
      == match client.create(Actions.CreateRequest(Actions.JStr(subject), s, e, AttendeeList(attendees),
                                                   OrNull(location), OrNull(body), Actions.JBool(online)))
         case Failure(err) => Failure(err)
         case Success(ev) => Success(Actions.Created(ev.eventId, ev.subject))
  {
    var p := CreatePayload(subject, start, end, attendees, location, body, online);
    assert Actions.IsoTime(parseIso, p["start"]) == Success(s);
    assert Actions.IsoTime(parseIso, p["end"]) == Success(e);
  }

  /** `event-update` without new times sends an update with neither time. */
  lemma UpdateWithoutTimes(client: Actions.Client, parseIso: string -> Option<int>, id: string, eventId: string,
                           subject: Option<string>, location: Option<string>, now: int)
    ensures Actions.OutcomeOf(EventUpdate(id, eventId, subject, None, None, location, now),
                              Actions.Runtime(Success(client), parseIso, now))
      == match client.update(Actions.UpdateRequest(Actions.JStr(eventId),
                               Actions.Get(UpdatePayload(eventId, subject, None, None, location), "subject", Actions.JNull),
                               None, None,
                               Actions.Get(UpdatePayload(eventId, subject, None, None, location), "location", Actions.JNull)))
         case Failure(err) => Failure(err)
         case Success(ev) => Success(Actions.Updated(ev.eventId))
  {
  }
}
