/** The action executor: calendar actions queued as 'proposed' rows are
    picked oldest first, ten per poll, run against the calendar client and
    settled as 'executed' (with the result) or 'failed' (with the error). The
    calendar client is a parameter; a `Failure` from it stands for the
    exception it raises. */
module Actions {
  import opened Wrappers
  import Sorting

  /** The decoded JSON values a payload holds. */
  datatype Json = JNull | JBool(b: bool) | JNum(n: int) | JStr(s: string) | JList(items: seq<Json>)

  /** Python truthiness of a decoded value. */
  predicate Truthy(v: Json) {
    match v
    case JNull => false
    case JBool(b) => b
    case JNum(n) => n != 0
    case JStr(s) => |s| > 0
    case JList(items) => |items| > 0
  }

  /** `payload_json` as stored: NULL or empty, a JSON object, or text the
      decoder rejects (with the decoder's message). */
  datatype PayloadJson = NoPayload | Payload(fields: map<string, Json>) | Malformed(reason: string)

  datatype Status = Proposed | Executed | Failed

  datatype Event = Event(eventId: string, subject: string)

  /** What each executed action reports back. */
  datatype Outcome =
    | Created(eventId: string, subject: string)
    | Updated(eventId: string)
    | Cancelled(target: Json, deleted: bool)
    | Responded(target: Json, response: Json, note: string)

  datatype CreateRequest = CreateRequest(subject: Json, start: int, end: int, attendees: Json,
                                         location: Json, body: Json, online: Json)
  datatype UpdateRequest = UpdateRequest(eventId: Json, subject: Json, start: Option<int>, end: Option<int>,
                                         location: Json)

  /** The three Graph calls the executor makes. */
  datatype Client = Client(create: CreateRequest -> Result<Event>,
                           update: UpdateRequest -> Result<Event>,
                           delete: Json -> Result<bool>)

  /** Everything a poll depends on besides the table: the client (or the
      error its constructor raises), `datetime.fromisoformat`, and the clock. */
  datatype Runtime = Runtime(client: Result<Client>, parseIso: string -> Option<int>, now: int)

  datatype Action = Action(id: string, itemType: string, itemId: Option<string>, actionType: string,
                           payload: PayloadJson, status: Status, proposedAt: int,
                           executedAt: Option<int>, result: Option<Outcome>, error: Option<string>)

  const PollLimit := 10
  const NotImplemented := "not_implemented"

  // ------------------------------------------------------------ payload access

  /** `payload[key]`: a missing key raises KeyError, whose text is the quoted key. */
  function Item(p: map<string, Json>, key: string): (r: Result<Json>)
    ensures r.Success? <==> key in p
    ensures r.Success? ==> r.value == p[key]
    ensures r.Failure? ==> r.error == "'" + key + "'"
  {
    if key in p then Success(p[key]) else Failure("'" + key + "'")
  }

  /** `payload.get(key, default)`. */
  function Get(p: map<string, Json>, key: string, default: Json): (r: Json)
    ensures key in p ==> r == p[key]
    ensures key !in p ==> r == default
  {
    if key in p then p[key] else default
  }

  /** `datetime.fromisoformat(v)`. */
  function IsoTime(parseIso: string -> Option<int>, v: Json): (r: Result<int>)
    ensures r.Success? <==> v.JStr? && parseIso(v.s).Some?
    ensures r.Success? ==> r.value == parseIso(v.s).value
  {
    match v
    case JStr(s) =>
      (match parseIso(s)
       case Some(t) => Success(t)
       case None => Failure("Invalid isoformat string: '" + s + "'"))
    case _ => Failure("fromisoformat: argument must be str")
  }

  /** An optional time: absent or falsy gives None, anything else must parse. */
  function OptionalTime(parseIso: string -> Option<int>, p: map<string, Json>, key: string): (r: Result<Option<int>>)
    ensures !Truthy(Get(p, key, JNull)) ==> r == Success(None)
    ensures Truthy(Get(p, key, JNull)) ==>
      (r.Success? <==> IsoTime(parseIso, p[key]).Success?)
  {
    if Truthy(Get(p, key, JNull)) then
      match IsoTime(parseIso, p[key])
      case Success(t) => Success(Some(t))
      case Failure(e) => Failure(e)
    else Success(None)
  }

  // ------------------------------------------------------------ one action

  function CreateEvent(client: Client, parseIso: string -> Option<int>, p: map<string, Json>): Result<Outcome> {
    match Item(p, "subject")
    case Failure(e) => Failure(e)
    case Success(subject) =>
      match Item(p, "start")
      case Failure(e) => Failure(e)
      case Success(startText) =>
        match IsoTime(parseIso, startText)
        case Failure(e) => Failure(e)
        case Success(start) =>
          match Item(p, "end")
          case Failure(e) => Failure(e)
          case Success(endText) =>
            match IsoTime(parseIso, endText)
            case Failure(e) => Failure(e)
            case Success(end) =>
              var req := CreateRequest(subject, start, end, Get(p, "attendees", JNull), Get(p, "location", JNull),
                                       Get(p, "body", JNull), Get(p, "is_online_meeting", JBool(false)));
              match client.create(req)
              case Failure(e) => Failure(e)
              case Success(ev) => Success(Created(ev.eventId, ev.subject))
  }

  function UpdateEvent(client: Client, parseIso: string -> Option<int>, p: map<string, Json>): Result<Outcome> {
    match Item(p, "event_id")
    case Failure(e) => Failure(e)
    case Success(eventId) =>
      match OptionalTime(parseIso, p, "start")
      case Failure(e) => Failure(e)
      case Success(start) =>
        match OptionalTime(parseIso, p, "end")
        case Failure(e) => Failure(e)
        case Success(end) =>
          var req := UpdateRequest(eventId, Get(p, "subject", JNull), start, end, Get(p, "location", JNull));
          match client.update(req)
          case Failure(e) => Failure(e)
          case Success(ev) => Success(Updated(ev.eventId))
  }

  function CancelEvent(client: Client, p: map<string, Json>): Result<Outcome> {
    match Item(p, "event_id")
    case Failure(e) => Failure(e)
    case Success(eventId) =>
      match client.delete(eventId)
      case Failure(e) => Failure(e)
      case Success(ok) => Success(Cancelled(eventId, ok))
  }

  /** Responding to an invite is not implemented: nothing is sent. */
  function RespondEvent(p: map<string, Json>): Result<Outcome> {
    match Item(p, "event_id")
    case Failure(e) => Failure(e)
    case Success(eventId) =>
      match Item(p, "response")
      case Failure(e) => Failure(e)
      case Success(response) => Success(Responded(eventId, response, NotImplemented))
  }

  predicate KnownType(actionType: string) {
    actionType in {"create_event", "update_event", "cancel_event", "respond_event"}
  }

  /** `_execute_action`: dispatch on the action type; anything else raises ValueError. */
  function ExecuteAction(client: Client, parseIso: string -> Option<int>, actionType: string, p: map<string, Json>)
    : (r: Result<Outcome>)
    ensures !KnownType(actionType) ==> r == Failure("Unknown action type: " + actionType)
    ensures r.Success? && actionType == "create_event" ==> r.value.Created?
    ensures r.Success? && actionType == "update_event" ==> r.value.Updated?
    ensures r.Success? && actionType == "cancel_event" ==> r.value.Cancelled?
    ensures r.Success? && actionType == "respond_event" ==> r.value.Responded? && r.value.note == NotImplemented
  {
    if actionType == "create_event" then CreateEvent(client, parseIso, p)
    else if actionType == "update_event" then UpdateEvent(client, parseIso, p)
    else if actionType == "cancel_event" then CancelEvent(client, p)
    else if actionType == "respond_event" then RespondEvent(p)
    else Failure("Unknown action type: " + actionType)
  }

  /** `respond_event` makes no client call: any two clients give the same result,
      and it succeeds exactly when the payload names the event and the response. */
  lemma RespondEventMakesNoCall(c1: Client, c2: Client, parseIso: string -> Option<int>, p: map<string, Json>)
    ensures ExecuteAction(c1, parseIso, "respond_event", p) == ExecuteAction(c2, parseIso, "respond_event", p)
    ensures ExecuteAction(c1, parseIso, "respond_event", p).Success? <==> "event_id" in p && "response" in p
    ensures "event_id" in p && "response" in p ==>
      ExecuteAction(c1, parseIso, "respond_event", p) == Success(Responded(p["event_id"], p["response"], NotImplemented))
  {
  }

  /** A created event requires the subject and both times, each time parsed. */
  lemma CreateNeedsTimes(client: Client, parseIso: string -> Option<int>, p: map<string, Json>)
    requires ExecuteAction(client, parseIso, "create_event", p).Success?
    ensures "subject" in p && "start" in p && "end" in p
    ensures IsoTime(parseIso, p["start"]).Success? && IsoTime(parseIso, p["end"]).Success?
  {
  }

  /** The payload the row decodes to; NULL or empty text decodes to `{}`. */
  function Fields(payload: PayloadJson): map<string, Json> {
    match payload
    case Payload(fields) => fields
    case _ => map[]
  }

  /** The body of the per-action `try`: the client is built first, so a failing
      constructor fails every action, whatever its type. */
  function Attempt(a: Action, rt: Runtime): (r: Result<Outcome>)
    ensures rt.client.Failure? ==> r == Failure(rt.client.error)
    ensures rt.client.Success? ==> r == ExecuteAction(rt.client.value, rt.parseIso, a.actionType, Fields(a.payload))
  {
    match rt.client
    case Failure(e) => Failure(e)
    case Success(c) => ExecuteAction(c, rt.parseIso, a.actionType, Fields(a.payload))
  }

  /** The UPDATE that settles an action: exactly one terminal status. */
  function Settle(a: Action, out: Result<Outcome>, now: int): (r: Action)
    ensures r.id == a.id && r.actionType == a.actionType && r.payload == a.payload && r.proposedAt == a.proposedAt
    ensures r.executedAt == Some(now)
    ensures r.status == Executed <==> out.Success?
    ensures r.status == Failed <==> out.Failure?
    ensures out.Success? ==> r.result == Some(out.value) && r.error == a.error
    ensures out.Failure? ==> r.error == Some(out.error) && r.result == a.result
  {
    match out
    case Success(o) => a.(status := Executed, executedAt := Some(now), result := Some(o))
    case Failure(e) => a.(status := Failed, executedAt := Some(now), error := Some(e))
  }

  // ------------------------------------------------------------ the queue

  predicate DistinctIds(rows: seq<Action>) {
    forall i, j :: 0 <= i < j < |rows| ==> rows[i].id != rows[j].id
  }

  function ProposedRows(rows: seq<Action>): (r: seq<Action>)
    ensures forall a :: a in r <==> a in rows && a.status == Proposed
    ensures |r| <= |rows|
  {
    if |rows| == 0 then []
    else (if rows[0].status == Proposed then [rows[0]] else []) + ProposedRows(rows[1..])
  }

  function ProposedKey(a: Action): real {
    a.proposedAt as real
  }

  /** `SELECT ... WHERE status = 'proposed' ORDER BY proposed_at ASC LIMIT 10`. */
  function Picked(rows: seq<Action>): (r: seq<Action>)
    ensures |r| <= PollLimit
    ensures forall i :: 0 <= i < |r| ==> r[i] in rows && r[i].status == Proposed
    ensures Sorting.SortedBy(r, ProposedKey)
  {
    var proposed := ProposedRows(rows);
    var sorted := Sorting.SortBy(proposed, ProposedKey);
    Sorting.SortByMembers(proposed, ProposedKey);
    var r := Sorting.Take(sorted, PollLimit);
    assert forall i :: 0 <= i < |r| ==> r[i] == sorted[i] && r[i] in sorted && r[i] in proposed;
    r
  }

  /** A proposed action left for a later poll is no older than any picked one. */
  lemma PickedOldestFirst(rows: seq<Action>, a: Action)
    requires a in rows && a.status == Proposed && a !in Picked(rows)
    ensures |Picked(rows)| == PollLimit
    ensures forall i :: 0 <= i < PollLimit ==> Picked(rows)[i].proposedAt <= a.proposedAt
  {
    var proposed := ProposedRows(rows);
    var sorted := Sorting.SortBy(proposed, ProposedKey);
    assert a in multiset(proposed);
    assert a in sorted;
    var j :| 0 <= j < |sorted| && sorted[j] == a;
    var r := Picked(rows);
    assert r == Sorting.Take(sorted, PollLimit);
    assert j >= PollLimit;
    forall i | 0 <= i < PollLimit
      ensures r[i].proposedAt <= a.proposedAt
    {
      assert r[i] == sorted[i];
      assert ProposedKey(sorted[i]) <= ProposedKey(sorted[j]);
    }
  }

  /** Nothing is picked exactly when nothing is proposed. */
  lemma PickedEmptyIff(rows: seq<Action>)
    ensures |Picked(rows)| == 0 <==> forall i :: 0 <= i < |rows| ==> rows[i].status != Proposed
  {
    var proposed := ProposedRows(rows);
    if |Picked(rows)| == 0 {
      assert |Sorting.SortBy(proposed, ProposedKey)| == 0;
    } else {
      assert Picked(rows)[0] in rows;
    }
  }

  /** `has_pending_actions`. */
  function ProposedCount(rows: seq<Action>): (n: nat)
    ensures n <= |rows|
  {
    if |rows| == 0 then 0
    else (if rows[0].status == Proposed then 1 else 0) + ProposedCount(rows[1..])
  }

  function HasPendingActions(rows: seq<Action>): (r: bool)
  {
    ProposedCount(rows) > 0
  }

  lemma {:induction false} HasPendingIff(rows: seq<Action>)
    ensures HasPendingActions(rows) <==> exists i :: 0 <= i < |rows| && rows[i].status == Proposed
  {
    if |rows| > 0 {
      HasPendingIff(rows[1..]);
      if ProposedCount(rows[1..]) > 0 {
        var i :| 0 <= i < |rows[1..]| && rows[1..][i].status == Proposed;
        assert rows[i + 1].status == Proposed;
      }
      if rows[0].status != Proposed && exists i :: 0 <= i < |rows| && rows[i].status == Proposed {
        var i :| 0 <= i < |rows| && rows[i].status == Proposed;
        assert rows[1..][i - 1].status == Proposed;
      }
    }
  }

  /** `UPDATE actions SET ... WHERE id = ?`. */
  function Store(rows: seq<Action>, a: Action): (r: seq<Action>)
    ensures |r| == |rows|
    ensures forall i :: 0 <= i < |rows| ==> r[i] == if rows[i].id == a.id then a else rows[i]
  {
    seq(|rows|, i requires 0 <= i < |rows| => if rows[i].id == a.id then a else rows[i])
  }

  /** How one picked action ends: a payload the decoder rejects fails the action. */
  function OutcomeOf(a: Action, rt: Runtime): Result<Outcome> {
    if a.payload.Malformed? then Failure(a.payload.reason) else Attempt(a, rt)
  }

  /** The row a picked action leaves behind. */
  function Settled(a: Action, rt: Runtime): (r: Action)
    ensures r.status != Proposed
  {
    Settle(a, OutcomeOf(a, rt), rt.now)
  }

  datatype Polled = Polled(rows: seq<Action>, executed: nat, failed: nat)

  /** How many of `picked` execute. */
  function ExecutedCount(picked: seq<Action>, rt: Runtime): (n: nat)
    ensures n <= |picked|
  {
    if |picked| == 0 then 0
    else (if OutcomeOf(picked[0], rt).Success? then 1 else 0) + ExecutedCount(picked[1..], rt)
  }

  /** The loop over the picked rows, one commit per action. */
  function RunPicked(rows: seq<Action>, picked: seq<Action>, rt: Runtime): (r: Polled)
    requires DistinctIds(rows) && DistinctIds(picked)
    requires forall i :: 0 <= i < |picked| ==> picked[i] in rows && picked[i].status == Proposed
    ensures |r.rows| == |rows|
    ensures forall i :: 0 <= i < |rows| ==>
      r.rows[i] == if rows[i] in picked then Settled(rows[i], rt) else rows[i]
    ensures r.executed == ExecutedCount(picked, rt)
    ensures r.executed + r.failed == |picked|
    decreases |picked|
  {
    if |picked| == 0 then Polled(rows, 0, 0)
    else
      var a := picked[0];
      var rows1 := Store(rows, Settled(a, rt));
      StoreKeepsQueue(rows, picked, Settled(a, rt));
      var rest := RunPicked(rows1, picked[1..], rt);
      SettleStep(rows, picked, rt, rest.rows);
      var ok := if OutcomeOf(a, rt).Success? then 1 else 0;
      Polled(rest.rows, rest.executed + ok, rest.failed + (1 - ok))
  }

  /** Settling the first picked action and then the rest settles exactly the
      picked rows. */
  lemma SettleStep(rows: seq<Action>, picked: seq<Action>, rt: Runtime, after: seq<Action>)
    requires DistinctIds(rows) && |picked| > 0
    requires forall i :: 0 <= i < |picked| ==> picked[i] in rows && picked[i].status == Proposed
    requires var rows1 := Store(rows, Settled(picked[0], rt));
      |after| == |rows|
      && forall i :: 0 <= i < |rows| ==>
           after[i] == if rows1[i] in picked[1..] then Settled(rows1[i], rt) else rows1[i]
    ensures forall i :: 0 <= i < |rows| ==> after[i] == if rows[i] in picked then Settled(rows[i], rt) else rows[i]
  {
    var a := picked[0];
    var rows1 := Store(rows, Settled(a, rt));
    forall i | 0 <= i < |rows|
      ensures after[i] == if rows[i] in picked then Settled(rows[i], rt) else rows[i]
    {
      if rows[i].id == a.id {
        var j :| 0 <= j < |rows| && rows[j] == a;
        assert rows[i] == a;
        assert rows1[i] !in picked[1..];
      } else {
        assert rows1[i] == rows[i];
        assert rows[i] in picked <==> rows[i] in picked[1..];
      }
    }
  }

  /** Settling the first queued action keeps the rest of the queue in the table. */
  lemma StoreKeepsQueue(rows: seq<Action>, picked: seq<Action>, settled: Action)
    requires DistinctIds(rows) && DistinctIds(picked) && |picked| > 0 && settled.id == picked[0].id
    requires forall i :: 0 <= i < |picked| ==> picked[i] in rows && picked[i].status == Proposed
    ensures DistinctIds(Store(rows, settled))
    ensures forall i :: 0 <= i < |picked[1..]| ==> picked[1..][i] in Store(rows, settled)
  {
    var rows1 := Store(rows, settled);
    forall i | 0 <= i < |picked[1..]|
      ensures picked[1..][i] in rows1
    {
      var j :| 0 <= j < |rows| && rows[j] == picked[i + 1];
      assert picked[i + 1].id != picked[0].id;
      assert rows1[j] == rows[j];
    }
    forall i, j | 0 <= i < j < |rows1|
      ensures rows1[i].id != rows1[j].id
    {
      assert rows1[i].id == rows[i].id && rows1[j].id == rows[j].id;
    }
  }

  /** Picked rows come from a table with distinct ids, so they are distinct too. */
  lemma PickedDistinct(rows: seq<Action>)
    requires DistinctIds(rows)
    ensures DistinctIds(Picked(rows))
  {
    var proposed := ProposedRows(rows);
    var sorted := Sorting.SortBy(proposed, ProposedKey);
    ProposedRowsDistinct(rows);
    Sorting.DistinctLabelsPermute(sorted, proposed, (a: Action) => a.id);
  }

  lemma {:induction false} ProposedRowsDistinct(rows: seq<Action>)
    requires DistinctIds(rows)
    ensures DistinctIds(ProposedRows(rows))
  {
    if |rows| > 0 {
      ProposedRowsDistinct(rows[1..]);
      var tail := ProposedRows(rows[1..]);
      forall i | 0 <= i < |tail|
        ensures tail[i].id != rows[0].id
      {
        assert tail[i] in rows[1..];
      }
    }
  }

  /** `poll_and_execute_actions`, with the payload decoded inside the per-action
      `try`: every picked action ends executed or failed, and no other row changes. */
  function Poll(rows: seq<Action>, rt: Runtime): (r: Polled)
    requires DistinctIds(rows)
    ensures |r.rows| == |rows|
    ensures forall i :: 0 <= i < |rows| ==>
      r.rows[i] == if rows[i] in Picked(rows) then Settled(rows[i], rt) else rows[i]
    ensures r.executed + r.failed == |Picked(rows)|
    ensures r.executed == ExecutedCount(Picked(rows), rt)
  {
    PickedDistinct(rows);
    RunPicked(rows, Picked(rows), rt)
  }

  /** An empty queue returns zero counts and leaves the table alone. */
  lemma EmptyQueueNoop(rows: seq<Action>, rt: Runtime)
    requires DistinctIds(rows)
    requires forall i :: 0 <= i < |rows| ==> rows[i].status != Proposed
    ensures Poll(rows, rt) == Polled(rows, 0, 0)
  {
    PickedEmptyIff(rows);
    assert Picked(rows) == [];
  }

  /** Every picked action leaves exactly one terminal state with its timestamp
      and either a result or an error. */
  lemma PickedActionsSettle(rows: seq<Action>, rt: Runtime, i: nat)
    requires DistinctIds(rows) && i < |rows| && rows[i] in Picked(rows)
    ensures Poll(rows, rt).rows[i].status in {Executed, Failed}
    ensures Poll(rows, rt).rows[i].executedAt == Some(rt.now)
    ensures Poll(rows, rt).rows[i].status == Executed ==> Poll(rows, rt).rows[i].result.Some?
    ensures Poll(rows, rt).rows[i].status == Failed ==> Poll(rows, rt).rows[i].error.Some?
  {
  }

  /** An action of an unknown type is marked failed with the ValueError text
      (once the client could be built). */
  lemma UnknownTypeFails(rows: seq<Action>, rt: Runtime, i: nat)
    requires DistinctIds(rows) && i < |rows| && rows[i] in Picked(rows)
    requires !KnownType(rows[i].actionType) && !rows[i].payload.Malformed? && rt.client.Success?
    ensures Poll(rows, rt).rows[i].status == Failed
    ensures Poll(rows, rt).rows[i].error == Some("Unknown action type: " + rows[i].actionType)
  {
  }

  // ------------------------------------------------------------ as written

  /** The outcome of the loop as written, where a payload the decoder rejects
      raises outside the `try`: the rows settled so far stay committed and the
      exception ends the poll. */
  datatype PollAsWrittenOutcome = Finished(polled: Polled) | Aborted(rows: seq<Action>, error: string)

  /** How many picked actions come before the first malformed payload. */
  function FirstMalformed(picked: seq<Action>): (k: nat)
    ensures k <= |picked|
    ensures forall i :: 0 <= i < k ==> !picked[i].payload.Malformed?
    ensures k < |picked| ==> picked[k].payload.Malformed?
  {
    if |picked| == 0 || picked[0].payload.Malformed? then 0 else 1 + FirstMalformed(picked[1..])
  }

  /** `poll_and_execute_actions` as written: the actions before the first
      malformed payload are settled and committed one by one, exactly as in
      `Poll`, and the decoding error then escapes the loop. */
  function PollAsWritten(rows: seq<Action>, rt: Runtime): (r: PollAsWrittenOutcome)
    requires DistinctIds(rows)
    ensures (forall i :: 0 <= i < |Picked(rows)| ==> !Picked(rows)[i].payload.Malformed?) ==>
      r == Finished(Poll(rows, rt))
  {
    var picked := Picked(rows);
    PickedDistinct(rows);
    var k := FirstMalformed(picked);
    if k == |picked| then
      assert picked[..k] == picked;
      Finished(RunPicked(rows, picked, rt))
    else
      Aborted(RunPicked(rows, picked[..k], rt).rows, picked[k].payload.reason)
  }

  /** The oldest proposed action with a malformed payload aborts every poll
      before anything is settled, and the table is left exactly as it was: the
      next poll picks the same rows and aborts again, so the queue never drains. */
  lemma PoisonActionBlocksQueue(rows: seq<Action>, rt: Runtime)
    requires DistinctIds(rows)
    requires |Picked(rows)| > 0 && Picked(rows)[0].payload.Malformed?
    ensures PollAsWritten(rows, rt) == Aborted(rows, Picked(rows)[0].payload.reason)
  {
  }

  /** The corrected loop settles that same action as failed, so it is never
      picked again. */
  lemma PoisonActionSettles(rows: seq<Action>, rt: Runtime)
    requires DistinctIds(rows)
    requires |Picked(rows)| > 0 && Picked(rows)[0].payload.Malformed?
    ensures exists i :: (0 <= i < |rows| && rows[i] == Picked(rows)[0]
                         && Poll(rows, rt).rows[i].status == Failed
                         && Poll(rows, rt).rows[i].error == Some(Picked(rows)[0].payload.reason))
  {
    var a := Picked(rows)[0];
    var i :| 0 <= i < |rows| && rows[i] == a;
    assert rows[i] in Picked(rows);
  }
}
