/** The working-memory engine cycle: expire old observation facts, commit,
    then select the nudges (overdue replies, overdue commitments, stale
    urgent threads, pending decisions) and key each for the trigger outbox.
    The clock, the ISO rendering of times, Python's `hash` and the table
    order of unordered queries are parameters. */
module WmEngine {
  import opened Wrappers
  import opened Text
  import Facts
  import Triggers
  import Sorting

  // ---------------------------------------------------------------- views

  /** A row of the `active_threads` view. */
  datatype ThreadView = ThreadView(
    conversationId: Option<string>,
    subject: Option<string>,
    lastSender: Option<string>,
    lastActivity: Option<int>,
    urgency: Option<string>)

  /** What the engine reads: the facts table with its scan order, the
      thread view in its scan order, and the sender of each email. */
  datatype EngineDb = EngineDb(
    facts: Facts.FactTable,
    factOrder: seq<string>,
    threads: seq<ThreadView>,
    senders: map<string, Option<string>>)

  /** The environment settings the cycle reads. */
  datatype EngineEnv = EngineEnv(retentionDays: Option<string>, replyDays: Option<string>, decisionDays: Option<string>)

  /** The day counts, parsed with their defaults (30, 2 and 3); None when a
      setting is not an integer, which makes `int()` raise. */
  datatype DayCounts = DayCounts(retention: Option<int>, reply: Option<int>, decision: Option<int>)

  function ParseDayCounts(env: EngineEnv): (d: DayCounts)
    ensures env.retentionDays.None? && env.replyDays.None? && env.decisionDays.None? ==>
      d == DayCounts(Some(30), Some(2), Some(3))
  {
    ParseIntOfNat(30);
    ParseIntOfNat(2);
    ParseIntOfNat(3);
    DayCounts(ParseInt(env.retentionDays.UnwrapOr(NatToString(30))),
              ParseInt(env.replyDays.UnwrapOr(NatToString(2))),
              ParseInt(env.decisionDays.UnwrapOr(NatToString(3))))
  }

  // -------------------------------------------------------------- pruning

  /** The fact types `_prune_expired_facts` may expire. */
  predicate ObservationType(factType: string) {
    factType == "preference" || factType == "relationship" || factType == "pattern"
  }

  /** An active observation fact extracted before `threshold`. */
  predicate Expires(row: Facts.FactRow, threshold: int) {
    row.status == Facts.Active && ObservationType(row.factType) && row.extractedAt < threshold
  }

  function ExpiringIds(facts: Facts.FactTable, threshold: int): set<string> {
    set id | id in facts && Expires(facts[id], threshold)
  }

  /** `_prune_expired_facts`: the `UPDATE ... SET status = 'expired'` and
      its row count. */
  function Prune(facts: Facts.FactTable, threshold: int): (r: (nat, Facts.FactTable))
    ensures r.1.Keys == facts.Keys
    ensures forall id :: id in facts && Expires(facts[id], threshold) ==> r.1[id] == facts[id].(status := Facts.Expired)
    ensures forall id :: id in facts && !Expires(facts[id], threshold) ==> r.1[id] == facts[id]
    ensures r.0 == |ExpiringIds(facts, threshold)|
  {
    (|ExpiringIds(facts, threshold)|,
     map id | id in facts :: if Expires(facts[id], threshold) then facts[id].(status := Facts.Expired) else facts[id])
  }

  /** Pruning again at once expires nothing more and changes nothing. */
  lemma PruneIdempotent(facts: Facts.FactTable, threshold: int)
    ensures Prune(Prune(facts, threshold).1, threshold) == (0, Prune(facts, threshold).1)
  {
    var once := Prune(facts, threshold).1;
    assert ExpiringIds(once, threshold) == {};
    assert Prune(once, threshold).1 == once;
  }

  /** Decisions, commitments and facts of any other type are never expired. */
  lemma PruneKeepsObligations(facts: Facts.FactTable, threshold: int, id: string)
    requires id in facts && !ObservationType(facts[id].factType)
    ensures Prune(facts, threshold).1[id] == facts[id]
  {
  }

  // --------------------------------------------------------------- nudges

  datatype NudgeKind = ReplyOverdue | CommitmentOverdue | UrgentThreadStale | DecisionPending

  function KindName(k: NudgeKind): string {
    match k
    case ReplyOverdue => "reply_overdue"
    case CommitmentOverdue => "commitment_overdue"
    case UrgentThreadStale => "urgent_thread_stale"
    case DecisionPending => "decision_pending"
  }

  /** A nudge; exactly the id field of its kind is filled in. */
  datatype WmNudge = WmNudge(
    kind: NudgeKind,
    urgency: string,
    threadId: Option<string>,
    commitmentId: Option<string>,
    decisionId: Option<string>,
    message: string)

  const ReplyLimit: nat := 5
  const CommitmentLimit: nat := 5
  const StaleLimit: nat := 3
  const DecisionLimit: nat := 3

  /** Python's `str` of an integer. */
  function IntText(n: int): string {
    if n < 0 then "-" + NatToString(-n) else NatToString(n)
  }

  function SubjectOr(subject: Option<string>): string {
    if subject.Some? && subject.value != [] then subject.value else "(no subject)"
  }

  function SenderOr(senders: map<string, Option<string>>, sourceId: string): string {
    if sourceId in senders && senders[sourceId].Some? && senders[sourceId].value != [] then senders[sourceId].value
    else "unknown"
  }

  /** SQLite's default text order: byte-wise, a proper prefix first. */
  predicate TextLess(a: string, b: string)
    decreases |a|
  {
    if |b| == 0 then false
    else if |a| == 0 then true
    else if a[0] == b[0] then TextLess(a[1..], b[1..])
    else a[0] < b[0]
  }

  lemma {:induction false} TextLessIrreflexive(a: string)
    ensures !TextLess(a, a)
    decreases |a|
  {
    if |a| > 0 {
      TextLessIrreflexive(a[1..]);
    }
  }

  lemma {:induction false} TextLessAsymmetric(a: string, b: string)
    ensures TextLess(a, b) ==> !TextLess(b, a)
    decreases |a|
  {
    if |a| > 0 && |b| > 0 && a[0] == b[0] {
      TextLessAsymmetric(a[1..], b[1..]);
    }
  }

  // ---- overdue replies

  /** A thread the `reply_overdue` query matches: the last message is not
      the user's and the last activity is older than `reply_days`. */
  predicate AwaitsReply(t: ThreadView, user: string, now: int, replyDays: int) {
    t.lastSender.Some? && t.lastSender.value != user
    && t.lastActivity.Some? && t.lastActivity.value < now - replyDays * Triggers.SecondsPerDay
  }

  function AwaitingReply(threads: seq<ThreadView>, user: string, now: int, replyDays: int): (r: seq<ThreadView>)
    ensures forall t :: t in r <==> t in threads && AwaitsReply(t, user, now, replyDays)
  {
    if |threads| == 0 then []
    else
      var rest := AwaitingReply(threads[1..], user, now, replyDays);
      assert forall t :: t in threads <==> t == threads[0] || t in threads[1..];
      (if AwaitsReply(threads[0], user, now, replyDays) then [threads[0]] else []) + rest
  }

  function ActivityKey(t: ThreadView): real {
    t.lastActivity.UnwrapOr(0) as real
  }

  function ReplyNudge(t: ThreadView, now: int): WmNudge {
    var days := (now - t.lastActivity.UnwrapOr(now)) / Triggers.SecondsPerDay;
    WmNudge(ReplyOverdue, "today", t.conversationId, None, None,
            "No reply sent for " + IntText(days) + " days: " + Sorting.Take(SubjectOr(t.subject), 50))
  }

  function ReplyNudges(ts: seq<ThreadView>, now: int): (r: seq<WmNudge>)
    ensures |r| == |ts| && forall i :: 0 <= i < |ts| ==> r[i] == ReplyNudge(ts[i], now)
  {
    if |ts| == 0 then [] else [ReplyNudge(ts[0], now)] + ReplyNudges(ts[1..], now)
  }

  /** The threads `_check_overdue_replies` nudges: matching threads, oldest
      activity first, at most five. */
  function OverdueReplyThreads(threads: seq<ThreadView>, user: string, now: int, replyDays: int): (r: seq<ThreadView>)
    ensures |r| <= ReplyLimit
    ensures forall i :: 0 <= i < |r| ==> AwaitsReply(r[i], user, now, replyDays) && r[i] in threads
    ensures Sorting.SortedBy(r, ActivityKey)
  {
    var matching := AwaitingReply(threads, user, now, replyDays);
    var sorted := Sorting.SortBy(matching, ActivityKey);
    Sorting.SortByMembers(matching, ActivityKey);
    var r := Sorting.Take(sorted, ReplyLimit);
    assert forall i :: 0 <= i < |r| ==> r[i] == sorted[i] && r[i] in sorted && r[i] in matching;
    r
  }

  /** A matching thread left out of the five is no older than any chosen. */
  lemma OverdueRepliesOldestFirst(threads: seq<ThreadView>, user: string, now: int, replyDays: int, t: ThreadView)
    requires t in threads && AwaitsReply(t, user, now, replyDays)
    requires t !in OverdueReplyThreads(threads, user, now, replyDays)
    ensures |OverdueReplyThreads(threads, user, now, replyDays)| == ReplyLimit
    ensures forall i :: 0 <= i < ReplyLimit ==>
      ActivityKey(OverdueReplyThreads(threads, user, now, replyDays)[i]) <= ActivityKey(t)
  {
    var matching := AwaitingReply(threads, user, now, replyDays);
    var sorted := Sorting.SortBy(matching, ActivityKey);
    assert t in multiset(matching);
    assert t in sorted;
    var j :| 0 <= j < |sorted| && sorted[j] == t;
    var r := OverdueReplyThreads(threads, user, now, replyDays);
    assert r == Sorting.Take(sorted, ReplyLimit);
    assert j >= ReplyLimit;
  }

  // ---- overdue commitments

  /** An active commitment whose due date sorts before now. */
  predicate OverdueCommitment(row: Facts.FactRow, nowIso: string) {
    row.factType == "commitment" && row.status == Facts.Active
    && row.dueDate.Some? && TextLess(row.dueDate.value, nowIso)
  }

  /** An active decision extracted before the threshold. */
  predicate StaleDecision(row: Facts.FactRow, threshold: int) {
    row.factType == "decision" && row.status == Facts.Active && row.extractedAt < threshold
  }

  /** The two fact queries: overdue commitments and stale decisions. */
  datatype FactQuery = CommitmentsDueBefore(nowIso: string) | DecisionsExtractedBefore(threshold: int)

  predicate Holds(q: FactQuery, row: Facts.FactRow) {
    match q
    case CommitmentsDueBefore(nowIso) => OverdueCommitment(row, nowIso)
    case DecisionsExtractedBefore(threshold) => StaleDecision(row, threshold)
  }

  /** The fact ids in scan order whose row matches `q`, at most `limit`. */
  function SelectFacts(facts: Facts.FactTable, order: seq<string>, q: FactQuery, limit: nat)
    : (r: seq<string>)
    ensures |r| <= limit
    ensures forall i :: 0 <= i < |r| ==> r[i] in facts && Holds(q, facts[r[i]]) && r[i] in order
  {
    Sorting.Take(Matching(facts, order, q), limit)
  }

  function Matching(facts: Facts.FactTable, order: seq<string>, q: FactQuery): (r: seq<string>)
    ensures forall i :: 0 <= i < |r| ==> r[i] in facts && Holds(q, facts[r[i]]) && r[i] in order
    ensures forall id :: id in order && id in facts && Holds(q, facts[id]) ==> id in r
  {
    if |order| == 0 then []
    else
      var rest := Matching(facts, order[1..], q);
      assert forall i :: 0 <= i < |rest| ==> rest[i] in order;
      (if order[0] in facts && Holds(q, facts[order[0]]) then [order[0]] else []) + rest
  }

  /** Fewer selected than the limit means every matching fact was selected. */
  lemma SelectFactsComplete(facts: Facts.FactTable, order: seq<string>, q: FactQuery, limit: nat, id: string)
    requires id in order && id in facts && Holds(q, facts[id])
    requires |SelectFacts(facts, order, q, limit)| < limit
    ensures id in SelectFacts(facts, order, q, limit)
  {
  }

  function CommitmentNudge(db: EngineDb, id: string): WmNudge
    requires id in db.facts
  {
    WmNudge(CommitmentOverdue, "immediate", None, Some(id), None,
            "Overdue commitment: " + Sorting.Take(db.facts[id].value, 50))
  }

  function DecisionNudge(db: EngineDb, id: string): WmNudge
    requires id in db.facts
  {
    WmNudge(DecisionPending, "today", None, None, Some(id),
            "Decision pending from " + SenderOr(db.senders, db.facts[id].sourceId) + ": "
            + Sorting.Take(db.facts[id].value, 50))
  }

  function FactNudges(db: EngineDb, ids: seq<string>, kind: NudgeKind): (r: seq<WmNudge>)
    requires kind == CommitmentOverdue || kind == DecisionPending
    requires forall i :: 0 <= i < |ids| ==> ids[i] in db.facts
    ensures |r| == |ids|
    ensures forall i :: 0 <= i < |ids| ==>
      r[i] == if kind == CommitmentOverdue then CommitmentNudge(db, ids[i]) else DecisionNudge(db, ids[i])
  {
    if |ids| == 0 then []
    else
      [if kind == CommitmentOverdue then CommitmentNudge(db, ids[0]) else DecisionNudge(db, ids[0])]
      + FactNudges(db, ids[1..], kind)
  }

  // ---- stale urgent threads

  /** An immediate or today thread idle for 24 hours. */
  predicate StaleUrgent(t: ThreadView, now: int) {
    t.urgency.Some? && (t.urgency.value == "immediate" || t.urgency.value == "today")
    && t.lastActivity.Some? && t.lastActivity.value < now - 24 * Triggers.SecondsPerHour
  }

  function StaleThreads(threads: seq<ThreadView>, now: int): (r: seq<ThreadView>)
    ensures forall i :: 0 <= i < |r| ==> StaleUrgent(r[i], now) && r[i] in threads
    ensures forall t :: t in threads && StaleUrgent(t, now) ==> t in r
  {
    if |threads| == 0 then []
    else
      var rest := StaleThreads(threads[1..], now);
      assert forall i :: 0 <= i < |rest| ==> rest[i] in threads;
      (if StaleUrgent(threads[0], now) then [threads[0]] else []) + rest
  }

  function StaleNudges(ts: seq<ThreadView>): (r: seq<WmNudge>)
    requires forall i :: 0 <= i < |ts| ==> ts[i].urgency.Some?
    ensures |r| == |ts|
    ensures forall i :: 0 <= i < |ts| ==>
      r[i].kind == UrgentThreadStale && r[i].threadId == ts[i].conversationId && r[i].urgency == ts[i].urgency.value
  {
    if |ts| == 0 then []
    else
      [WmNudge(UrgentThreadStale, ts[0].urgency.value, ts[0].conversationId, None, None,
               "Urgent thread has no activity for 24h: " + Sorting.Take(SubjectOr(ts[0].subject), 50))]
      + StaleNudges(ts[1..])
  }

  // ---- all nudges

  /** `_check_overdue_replies`. */
  function ReplyPart(threads: seq<ThreadView>, user: string, now: int, replyDays: int): (r: seq<WmNudge>)
    ensures |r| <= ReplyLimit && forall n :: n in r ==> n.kind == ReplyOverdue
  {
    ReplyNudges(OverdueReplyThreads(threads, user, now, replyDays), now)
  }

  /** `_check_overdue_commitments`. */
  function CommitmentPart(db: EngineDb, nowIso: string): (r: seq<WmNudge>)
    ensures |r| <= CommitmentLimit
    ensures forall n :: n in r ==>
      (n.kind == CommitmentOverdue && n.commitmentId.Some?
       && n.commitmentId.value in db.facts && OverdueCommitment(db.facts[n.commitmentId.value], nowIso))
  {
    FactNudges(db, SelectFacts(db.facts, db.factOrder, CommitmentsDueBefore(nowIso), CommitmentLimit), CommitmentOverdue)
  }

  /** `_check_stale_urgent_threads`. */
  function StalePart(threads: seq<ThreadView>, now: int): (r: seq<WmNudge>)
    ensures |r| <= StaleLimit && forall n :: n in r ==> n.kind == UrgentThreadStale
    ensures forall n :: n in r ==>
      exists t :: t in threads && StaleUrgent(t, now) && n.threadId == t.conversationId
    ensures |StaleThreads(threads, now)| <= StaleLimit ==>
      forall t :: t in threads && StaleUrgent(t, now) ==> exists n :: n in r && n.threadId == t.conversationId
  {
    var ts := Sorting.Take(StaleThreads(threads, now), StaleLimit);
    var r := StaleNudges(ts);
    assert forall i :: 0 <= i < |r| ==> StaleUrgent(ts[i], now) && ts[i] in threads && r[i].threadId == ts[i].conversationId;
    if |StaleThreads(threads, now)| <= StaleLimit then
      assert ts == StaleThreads(threads, now);
      assert forall t :: t in ts ==> exists i :: 0 <= i < |ts| && ts[i] == t && r[i] in r;
      r
    else r
  }

  /** `_check_pending_decisions`. */
  function DecisionPart(db: EngineDb, threshold: int): (r: seq<WmNudge>)
    ensures |r| <= DecisionLimit
    ensures forall n :: n in r ==>
      (n.kind == DecisionPending && n.decisionId.Some?
       && n.decisionId.value in db.facts && StaleDecision(db.facts[n.decisionId.value], threshold))
  {
    FactNudges(db, SelectFacts(db.facts, db.factOrder, DecisionsExtractedBefore(threshold), DecisionLimit), DecisionPending)
  }

  /** Decisions extracted before this instant are stale. */
  function DecisionThreshold(now: int, decisionDays: int): (t: int)
    ensures t + decisionDays * Triggers.SecondsPerDay == now
  {
    now - decisionDays * Triggers.SecondsPerDay
  }

  /** The four selections, in the order `_generate_nudges` runs them. */
  function GenerateNudges(db: EngineDb, user: string, now: int, nowIso: string, replyDays: int, decisionDays: int)
    : (r: seq<WmNudge>)
    ensures |r| <= ReplyLimit + CommitmentLimit + StaleLimit + DecisionLimit
  {
    Assemble(ReplyPart(db.threads, user, now, replyDays), CommitmentPart(db, nowIso),
             StalePart(db.threads, now), DecisionPart(db, DecisionThreshold(now, decisionDays)))
  }

  /** The four kinds of nudge, in the order they are generated. */
  function Assemble(replies: seq<WmNudge>, commitments: seq<WmNudge>, stale: seq<WmNudge>, decisions: seq<WmNudge>)
    : (r: seq<WmNudge>)
    ensures |r| == |replies| + |commitments| + |stale| + |decisions|
    ensures var a, b, c := |replies|, |replies| + |commitments|, |replies| + |commitments| + |stale|;
      r[..a] == replies && r[a..b] == commitments && r[b..c] == stale && r[c..] == decisions
    ensures forall n :: n in r <==> n in replies || n in commitments || n in stale || n in decisions
  {
    replies + commitments + stale + decisions
  }

  /** Every commitment nudge names an active commitment due before now,
      every stale-thread nudge an urgent thread idle for a day, and every
      decision nudge an active decision older than the decision threshold. */
  lemma NudgesJustified(db: EngineDb, user: string, now: int, nowIso: string, replyDays: int, decisionDays: int,
                        n: WmNudge)
    requires n in GenerateNudges(db, user, now, nowIso, replyDays, decisionDays)
    ensures n.kind == CommitmentOverdue ==>
      n.commitmentId.Some? && n.commitmentId.value in db.facts
      && OverdueCommitment(db.facts[n.commitmentId.value], nowIso)
    ensures n.kind == DecisionPending ==>
      n.decisionId.Some? && n.decisionId.value in db.facts
      && StaleDecision(db.facts[n.decisionId.value], DecisionThreshold(now, decisionDays))
    ensures n.kind == UrgentThreadStale ==>
      exists t :: t in db.threads && StaleUrgent(t, now) && n.threadId == t.conversationId
  {
    var a := ReplyPart(db.threads, user, now, replyDays);
    var b := CommitmentPart(db, nowIso);
    var c := StalePart(db.threads, now);
    var d := DecisionPart(db, DecisionThreshold(now, decisionDays));
    assert n in Assemble(a, b, c, d);
  }

  // ------------------------------------------------------------ emitting

  /** Python truthiness of an optional string. */
  predicate Truthy(x: Option<string>) {
    x.Some? && x.value != []
  }

  /** The nudge id: the first non-empty of the thread, commitment and
      decision ids, else the hash of the message. */
  function NudgeId(n: WmNudge, hash: string -> string): (id: string)
    ensures Truthy(n.threadId) ==> id == n.threadId.value
    ensures !Truthy(n.threadId) && Truthy(n.commitmentId) ==> id == n.commitmentId.value
    ensures !Truthy(n.threadId) && !Truthy(n.commitmentId) && Truthy(n.decisionId) ==> id == n.decisionId.value
    ensures !Truthy(n.threadId) && !Truthy(n.commitmentId) && !Truthy(n.decisionId) ==> id == hash(n.message)
  {
    if Truthy(n.threadId) then n.threadId.value
    else if Truthy(n.commitmentId) then n.commitmentId.value
    else if Truthy(n.decisionId) then n.decisionId.value
    else hash(n.message)
  }

  /** The alert-rule event type of a nudge type, `wm_thread` by default. */
  function EventTypeFor(nudgeType: string): (e: string)
    ensures e in {"wm_thread", "wm_commitment", "wm_decision"}
  {
    if nudgeType == "commitment_overdue" then "wm_commitment"
    else if nudgeType == "decision_pending" then "wm_decision"
    else "wm_thread"
  }

  /** Reply and stale-thread nudges are thread events; the other two have
      event types of their own. */
  lemma EventTypes()
    ensures EventTypeFor(KindName(ReplyOverdue)) == "wm_thread"
    ensures EventTypeFor(KindName(UrgentThreadStale)) == "wm_thread"
    ensures EventTypeFor(KindName(CommitmentOverdue)) == "wm_commitment"
    ensures EventTypeFor(KindName(DecisionPending)) == "wm_decision"
  {
  }

  /** One trigger write of `_emit_nudges`. */
  datatype Emission = Emission(nudge: WmNudge, nudgeId: string, dedupeKey: string, eventType: string)

  function Emissions(nudges: seq<WmNudge>, user: string, hash: string -> string): (r: seq<Emission>)
    ensures |r| == |nudges|
    ensures forall i :: 0 <= i < |nudges| ==>
      r[i].nudge == nudges[i] && r[i].nudgeId == NudgeId(nudges[i], hash)
      && r[i].dedupeKey == Triggers.MakeDedupeKey("wm_nudge_" + KindName(nudges[i].kind), user, r[i].nudgeId)
      && r[i].eventType == EventTypeFor(KindName(nudges[i].kind))
  {
    if |nudges| == 0 then []
    else
      var n := nudges[0];
      var id := NudgeId(n, hash);
      [Emission(n, id, Triggers.MakeDedupeKey("wm_nudge_" + KindName(n.kind), user, id), EventTypeFor(KindName(n.kind)))]
      + Emissions(nudges[1..], user, hash)
  }

  /** Two overdue-commitment nudges for different facts never share a
      dedupe key, so neither suppresses the other. */
  lemma CommitmentKeysDistinct(db: EngineDb, id1: string, id2: string, user: string, hash: string -> string)
    requires id1 in db.facts && id2 in db.facts && id1 != id2 && id1 != [] && id2 != []
    ensures Triggers.MakeDedupeKey("wm_nudge_" + KindName(CommitmentOverdue), user, NudgeId(CommitmentNudge(db, id1), hash))
         != Triggers.MakeDedupeKey("wm_nudge_" + KindName(CommitmentOverdue), user, NudgeId(CommitmentNudge(db, id2), hash))
  {
    var t := "wm_nudge_" + KindName(CommitmentOverdue);
    assert NudgeId(CommitmentNudge(db, id1), hash) == id1 && NudgeId(CommitmentNudge(db, id2), hash) == id2;
    if Triggers.MakeDedupeKey(t, user, id1) == Triggers.MakeDedupeKey(t, user, id2) {
      Triggers.DedupeKeySameOwner(t, user, id1, id2);
    }
  }

  // --------------------------------------------------------------- cycle

  /** The cycle's statistics. */
  datatype Stats = Stats(factsPruned: nat, nudgesEmitted: nat)

  /** `run_cycle`: a retention setting that is not an integer fails the
      cycle before anything changes; otherwise the pruning is committed,
      and only then are the nudges selected, from the pruned table. A
      day-count setting that is not an integer keeps the pruning and
      emits nothing. */
  function RunCycle(db: EngineDb, user: string, now: int, nowIso: string, env: EngineEnv, hash: string -> string)
    : (r: (Stats, EngineDb, seq<Emission>))
    ensures ParseDayCounts(env).retention.None? ==> r == (Stats(0, 0), db, [])
    ensures ParseDayCounts(env).retention.Some? ==>
      var threshold := now - ParseDayCounts(env).retention.value * Triggers.SecondsPerDay;
      r.1 == db.(facts := Prune(db.facts, threshold).1)
      && r.0.factsPruned == |ExpiringIds(db.facts, threshold)|
    ensures r.0.nudgesEmitted == |r.2|
    ensures ParseDayCounts(env).reply.None? || ParseDayCounts(env).decision.None? ==> r.2 == []
    ensures var days := ParseDayCounts(env);
      days.retention.Some? && days.reply.Some? && days.decision.Some? ==>
      var nudges := GenerateNudges(r.1, user, now, nowIso, days.reply.value, days.decision.value);
      |r.2| == |nudges| && forall i :: 0 <= i < |r.2| ==> r.2[i].nudge == nudges[i]
  {
    var days := ParseDayCounts(env);
    if days.retention.None? then (Stats(0, 0), db, [])
    else
      var pruned := Prune(db.facts, now - days.retention.value * Triggers.SecondsPerDay);
      var db' := db.(facts := pruned.1);
      if days.reply.None? || days.decision.None? then (Stats(pruned.0, 0), db', [])
      else
        var emitted := Emissions(GenerateNudges(db', user, now, nowIso, days.reply.value, days.decision.value), user, hash);
        (Stats(pruned.0, |emitted|), db', emitted)
  }

  /** Pruning only touches observation facts and the selections only read
      commitments and decisions, so the nudges are the same as they would
      be before pruning. */
  lemma NudgesUnaffectedByPrune(db: EngineDb, threshold: int, user: string, now: int, nowIso: string,
                                replyDays: int, decisionDays: int)
    ensures GenerateNudges(db.(facts := Prune(db.facts, threshold).1), user, now, nowIso, replyDays, decisionDays)
         == GenerateNudges(db, user, now, nowIso, replyDays, decisionDays)
  {
    CommitmentPartUnaffected(db, threshold, nowIso);
    DecisionPartUnaffected(db, threshold, DecisionThreshold(now, decisionDays));
  }

  lemma CommitmentPartUnaffected(db: EngineDb, threshold: int, nowIso: string)
    ensures CommitmentPart(db.(facts := Prune(db.facts, threshold).1), nowIso) == CommitmentPart(db, nowIso)
  {
    var db' := db.(facts := Prune(db.facts, threshold).1);
    var q := CommitmentsDueBefore(nowIso);
    PruneKeepsQueried(db.facts, threshold, q);
    MatchingUnchanged(db.facts, db'.facts, db.factOrder, q);
    FactNudgesUnchanged(db, db', SelectFacts(db.facts, db.factOrder, q, CommitmentLimit), CommitmentOverdue);
  }

  lemma DecisionPartUnaffected(db: EngineDb, threshold: int, t: int)
    ensures DecisionPart(db.(facts := Prune(db.facts, threshold).1), t) == DecisionPart(db, t)
  {
    var db' := db.(facts := Prune(db.facts, threshold).1);
    var q := DecisionsExtractedBefore(t);
    PruneKeepsQueried(db.facts, threshold, q);
    MatchingUnchanged(db.facts, db'.facts, db.factOrder, q);
    FactNudgesUnchanged(db, db', SelectFacts(db.facts, db.factOrder, q, DecisionLimit), DecisionPending);
  }

  /** A row either query can match is never touched by pruning. */
  lemma PruneKeepsQueried(facts: Facts.FactTable, threshold: int, q: FactQuery)
    ensures forall id :: id in facts && (Holds(q, facts[id]) || Holds(q, Prune(facts, threshold).1[id])) ==>
      Prune(facts, threshold).1[id] == facts[id]
  {
  }

  /** Two tables that agree on every row `q` matches select the same ids. */
  lemma {:induction false} MatchingUnchanged(f1: Facts.FactTable, f2: Facts.FactTable, order: seq<string>, q: FactQuery)
    requires f1.Keys == f2.Keys
    requires forall id :: id in f1 && (Holds(q, f1[id]) || Holds(q, f2[id])) ==> f2[id] == f1[id]
    ensures Matching(f1, order, q) == Matching(f2, order, q)
  {
    if |order| > 0 {
      MatchingUnchanged(f1, f2, order[1..], q);
    }
  }

  /** Nudges built from rows both tables hold alike are the same. */
  lemma FactNudgesUnchanged(db1: EngineDb, db2: EngineDb, ids: seq<string>, kind: NudgeKind)
    requires kind == CommitmentOverdue || kind == DecisionPending
    requires db1.senders == db2.senders
    requires forall i :: 0 <= i < |ids| ==>
      (ids[i] in db1.facts && ids[i] in db2.facts && db1.facts[ids[i]] == db2.facts[ids[i]])
    ensures FactNudges(db1, ids, kind) == FactNudges(db2, ids, kind)
  {
  }
}
