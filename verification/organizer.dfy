/** The organizer: the per-email state transition (classification, then
    one commit of the triage row, `processed_at`, labels and reply
    tracking, or a rollback), the triggers chosen for a classified email,
    the category/flag command line, the once-only follow-up nudge and the
    weekly-digest gate. The classification agent, the database's failures,
    the clock, date parsing and the environment are parameters. */
module Organizer {
  import opened Wrappers
  import opened Text
  import Triggers
  import Categories
  import Sorting

  // ---------------------------------------------------------------- data

  /** A row of the `emails` table, as far as the organizer reads or writes it. */
  datatype EmailRecord = EmailRecord(
    id: string,
    subject: Option<string>,
    sender: Option<string>,
    bodyPreview: Option<string>,
    receivedAt: Option<string>,
    processedAt: Option<int>,
    outlookCategories: Option<seq<string>>,
    urgency: Option<string>)

  datatype Availability = Availability(
    timeWindow: Option<string>,
    durationMinutes: Option<int>,
    timezone: Option<string>,
    constraints: Option<string>,
    proposedSlots: seq<string>)

  /** The agent's classification of one email. */
  datatype Decision = Decision(
    outlookCategories: seq<string>,
    urgency: string,
    reason: string,
    labels: seq<string>,
    confidence: real,
    requiresReply: bool,
    replyReason: Option<string>,
    availabilityRequested: bool,
    availability: Option<Availability>)

  datatype TriageEntry = TriageEntry(emailId: string, categories: seq<string>, urgency: string, reason: string)

  /** A row of `reply_tracking`. */
  datatype ReplyRow = ReplyRow(
    requiresReply: bool,
    reason: string,
    lastActivityAt: Option<string>,
    followUpSentAt: Option<int>,
    nudgeScheduledAt: Option<int>)

  /** The tables the organizer touches. Labels are keyed by (message id, label). */
  datatype Db = Db(
    emails: map<string, EmailRecord>,
    triageLog: seq<TriageEntry>,
    labels: map<(string, string), real>,
    replies: map<string, ReplyRow>,
    lastDigestWeek: Option<int>)

  // ----------------------------------------------------------- selection

  /** `organize_emails` selects the emails whose `processed_at` is NULL. */
  function Unprocessed(db: Db): (ids: set<string>)
    ensures forall id :: id in ids <==> id in db.emails && db.emails[id].processedAt.None?
  {
    set id | id in db.emails && db.emails[id].processedAt.None?
  }

  // ------------------------------------------------------------- the VIP test

  /** The configured VIP senders, stripped and lowercased, blanks dropped. */
  function VipSet(vipSenders: seq<string>): (r: set<string>)
    ensures forall v :: v in r <==> exists s :: s in vipSenders && Strip(s) != [] && v == Lower(Strip(s))
  {
    set s | s in vipSenders && Strip(s) != [] :: Lower(Strip(s))
  }

  predicate IsVipSender(sender: Option<string>, vipSenders: seq<string>) {
    Lower(Strip(sender.UnwrapOr(""))) in VipSet(vipSenders)
  }

  /** A missing or blank sender is never a VIP. */
  lemma BlankSenderNotVip(sender: Option<string>, vipSenders: seq<string>)
    requires sender.None? || AllSpace(sender.value)
    ensures !IsVipSender(sender, vipSenders)
  {
    assert Strip(sender.UnwrapOr("")) == [];
  }

  // ------------------------------------------------------------ labels

  /** The label "vip", spelled by code point. */
  const VipLabel: string := [118 as char, 105 as char, 112 as char]

  /** The labels written for a decision: "vip" added for a VIP sender. */
  function EnrichedLabels(d: Decision, vip: bool): seq<string> {
    if vip then d.labels + [VipLabel] else d.labels
  }

  /** The non-empty results of `clean` over the labels. */
  function CleanSet(labels: seq<string>, clean: string -> string): (r: set<string>)
    ensures forall l :: l in r <==> l != [] && exists x :: x in labels && clean(x) == l
  {
    set x | x in labels && clean(x) != [] :: clean(x)
  }

  /** One more label that is already clean adds exactly itself. */
  lemma CleanSetExtra(labels: seq<string>, extra: string, clean: string -> string, l: string)
    requires clean(extra) == extra && extra != []
    ensures l in CleanSet(labels + [extra], clean) <==> l in CleanSet(labels, clean) || l == extra
  {
    var all := labels + [extra];
    assert extra in all;
    if l in CleanSet(all, clean) && l != extra {
      var x :| x in all && clean(x) == l;
      assert x in labels;
    }
    if l in CleanSet(labels, clean) {
      var x :| x in labels && clean(x) == l;
      assert x in all;
    }
  }

  /** The stored label texts: each label stripped, blanks skipped. */
  function StoredLabels(labels: seq<string>): (r: set<string>)
    ensures forall l :: l in r <==> l != [] && exists x :: x in labels && Strip(x) == l
  {
    CleanSet(labels, Strip)
  }

  /** The label keys of `texts` on one message. */
  function LabelKeys(messageId: string, texts: set<string>): (r: set<(string, string)>)
    ensures forall k :: k in r <==> k.0 == messageId && k.1 in texts
  {
    var r := set l | l in texts :: (messageId, l);
    assert forall k: (string, string) :: k.0 == messageId && k.1 in texts ==> k == (messageId, k.1);
    r
  }

  /** Replaces the message's labels with `texts`, each at `confidence`. */
  function ReplaceLabels(labels: map<(string, string), real>, messageId: string, texts: set<string>, confidence: real)
    : (r: map<(string, string), real>)
    ensures forall k :: k in r <==> (k in labels && k.0 != messageId) || (k.0 == messageId && k.1 in texts)
    ensures forall k :: k in labels && k.0 != messageId ==> r[k] == labels[k]
    ensures forall l :: l in texts ==> r[(messageId, l)] == confidence
  {
    var kept := set k | k in labels && k.0 != messageId;
    map k | k in kept + LabelKeys(messageId, texts) :: if k in kept then labels[k] else confidence
  }

  // ----------------------------------------------------- the transition

  /** How the label block went. Its errors are caught and logged, so
      processing goes on to the commit with whatever the block wrote: the
      `DELETE` raised (nothing written), or the labels before position
      `written` of the list were handled and the insert at that position
      raised. */
  datatype LabelWrites = LabelsOk | DeleteFails | InsertFails(written: nat)

  /** What can go wrong while one email is processed: the agent's answer
      (an error when it raises), whether a database write outside the label
      block raises before the commit, and how the label block went. */
  datatype Outcome = Outcome(classified: Result<Decision>, writeFails: bool, labelWrites: LabelWrites)

  /** The label rows after the label block, for the enriched label list. */
  function LabelsAfter(labels: map<(string, string), real>, messageId: string, list: seq<string>,
                       confidence: real, lw: LabelWrites): map<(string, string), real>
  {
    match lw
    case LabelsOk => ReplaceLabels(labels, messageId, StoredLabels(list), confidence)
    case DeleteFails => labels
    case InsertFails(written) =>
      ReplaceLabels(labels, messageId, StoredLabels(list[..if written < |list| then written else |list|]), confidence)
  }

  /** The upsert of `reply_tracking`: a new row, or the existing row with
      the flag, reason and last activity replaced and its nudge and
      follow-up stamps kept. */
  function UpsertReply(replies: map<string, ReplyRow>, id: string, reason: string, lastActivity: Option<string>)
    : (r: map<string, ReplyRow>)
    ensures r.Keys == replies.Keys + {id}
    ensures forall k :: k in replies && k != id ==> r[k] == replies[k]
    ensures r[id].requiresReply && r[id].reason == reason && r[id].lastActivityAt == lastActivity
    ensures id in replies ==> r[id].nudgeScheduledAt == replies[id].nudgeScheduledAt
                              && r[id].followUpSentAt == replies[id].followUpSentAt
    ensures id !in replies ==> r[id].nudgeScheduledAt.None? && r[id].followUpSentAt.None?
  {
    if id in replies then
      replies[id := replies[id].(requiresReply := true, reason := reason, lastActivityAt := lastActivity)]
    else replies[id := ReplyRow(true, reason, lastActivity, None, None)]
  }

  /** The committed writes for a classified email. */
  function Commit(db: Db, email: EmailRecord, d: Decision, vip: bool, lw: LabelWrites, now: int): Db {
    var log := db.triageLog + [TriageEntry(email.id, d.outlookCategories, d.urgency, d.reason)];
    var emails := if email.id in db.emails then
      db.emails[email.id := db.emails[email.id].(processedAt := Some(now),
                                                  outlookCategories := Some(d.outlookCategories),
                                                  urgency := Some(d.urgency))]
      else db.emails;
    var labels := LabelsAfter(db.labels, email.id, EnrichedLabels(d, vip), d.confidence, lw);
    var replies := if d.requiresReply then
      UpsertReply(db.replies, email.id, Triggers.OrElse(d.replyReason, d.reason), email.receivedAt)
      else db.replies;
    Db(emails, log, labels, replies, db.lastDigestWeek)
  }

  /** `_process_email`'s effect on the database: on success one commit of
      the triage row, the processed stamp with categories and urgency, the
      labels as far as the label block got, and the reply tracking; an
      agent error or a failing write outside the label block rolls
      everything back. */
  function ProcessEmail(db: Db, email: EmailRecord, vipSenders: seq<string>, outcome: Outcome, now: int)
    : (r: Db)
    ensures outcome.classified.Failure? || outcome.writeFails ==> r == db
    ensures r.lastDigestWeek == db.lastDigestWeek && r.emails.Keys == db.emails.Keys
    ensures forall k :: k in db.emails && k != email.id ==> r.emails[k] == db.emails[k]
    ensures forall k :: k in db.replies && k != email.id ==> k in r.replies && r.replies[k] == db.replies[k]
  {
    if outcome.classified.Failure? || outcome.writeFails then db
    else Commit(db, email, outcome.classified.value, IsVipSender(email.sender, vipSenders), outcome.labelWrites, now)
  }

  /** On success everything is committed together: the triage row is
      appended, and a stored email gets `processed_at`, its categories and
      its urgency. */
  lemma ProcessCommitsTogether(db: Db, email: EmailRecord, vipSenders: seq<string>, outcome: Outcome, now: int)
    requires outcome.classified.Success? && !outcome.writeFails
    ensures var r := ProcessEmail(db, email, vipSenders, outcome, now);
      var d := outcome.classified.value;
      r.triageLog == db.triageLog + [TriageEntry(email.id, d.outlookCategories, d.urgency, d.reason)]
      && (email.id in db.emails ==>
            r.emails[email.id].processedAt == Some(now)
            && r.emails[email.id].outlookCategories == Some(d.outlookCategories)
            && r.emails[email.id].urgency == Some(d.urgency))
  {
  }

  /** A failed run leaves `processed_at` NULL, so the email is selected again. */
  lemma FailureIsRetried(db: Db, email: EmailRecord, vipSenders: seq<string>, outcome: Outcome, now: int)
    requires email.id in Unprocessed(db)
    requires outcome.classified.Failure? || outcome.writeFails
    ensures email.id in Unprocessed(ProcessEmail(db, email, vipSenders, outcome, now))
  {
  }

  /** A successful run on a stored email takes it out of the selection. */
  lemma SuccessLeavesSelection(db: Db, email: EmailRecord, vipSenders: seq<string>, outcome: Outcome, now: int)
    requires email.id in db.emails
    requires outcome.classified.Success? && !outcome.writeFails
    ensures email.id !in Unprocessed(ProcessEmail(db, email, vipSenders, outcome, now))
  {
  }

  lemma StripVip()
    ensures Strip(VipLabel) == VipLabel && VipLabel != []
  {
    assert LeadingSpace(VipLabel) == 0;
    assert TrimmedEnd(VipLabel) == 3;
  }

  /** The stored label texts of a decision: its non-blank labels, stripped,
      and "vip" for a VIP sender. */
  lemma EnrichedStored(d: Decision, vip: bool, l: string)
    ensures l in StoredLabels(EnrichedLabels(d, vip)) <==>
      (l != [] && exists x :: x in d.labels && Strip(x) == l) || (l == VipLabel && vip)
  {
    if vip {
      StoredWithVip(d.labels, l);
    }
  }

  lemma StoredWithVip(labels: seq<string>, l: string)
    ensures l in StoredLabels(labels + [VipLabel]) <==>
      (l != [] && exists x :: x in labels && Strip(x) == l) || l == VipLabel
  {
    StripVip();
    StoredWithExtra(labels, VipLabel, l);
  }

  lemma StoredWithExtra(labels: seq<string>, extra: string, l: string)
    requires Strip(extra) == extra && extra != []
    ensures l in StoredLabels(labels + [extra]) <==>
      (l != [] && exists x :: x in labels && Strip(x) == l) || l == extra
  {
    CleanSetExtra(labels, extra, Strip, l);
  }

  /** The message's labels become exactly the decision's non-blank labels,
      stripped, plus "vip" iff the sender is a VIP (or the agent said so). */
  lemma LabelsReplaced(db: Db, email: EmailRecord, vipSenders: seq<string>, outcome: Outcome, now: int, l: string)
    requires outcome.classified.Success? && !outcome.writeFails && outcome.labelWrites == LabelsOk
    ensures var r := ProcessEmail(db, email, vipSenders, outcome, now);
      var d := outcome.classified.value;
      ((email.id, l) in r.labels <==>
        (l != [] && exists x :: x in d.labels && Strip(x) == l)
        || (l == VipLabel && IsVipSender(email.sender, vipSenders)))
  {
    var d := outcome.classified.value;
    var vip := IsVipSender(email.sender, vipSenders);
    EnrichedStored(d, vip, l);
    var r := ProcessEmail(db, email, vipSenders, outcome, now);
    assert r.labels == ReplaceLabels(db.labels, email.id, StoredLabels(EnrichedLabels(d, vip)), d.confidence);
  }

  /** A failing label block does not stop the commit: the e-mail is still
      stamped and logged, the message keeps its old labels when the
      `DELETE` raised, and holds exactly the stripped non-blank labels
      before the failing insert when an insert raised; other messages'
      labels are untouched either way. */
  lemma LabelFailureStillCommits(db: Db, email: EmailRecord, vipSenders: seq<string>, outcome: Outcome, now: int,
                                 l: string)
    requires outcome.classified.Success? && !outcome.writeFails && !outcome.labelWrites.LabelsOk?
    ensures var r := ProcessEmail(db, email, vipSenders, outcome, now);
      var d := outcome.classified.value;
      var list := EnrichedLabels(d, IsVipSender(email.sender, vipSenders));
      r.triageLog == db.triageLog + [TriageEntry(email.id, d.outlookCategories, d.urgency, d.reason)]
      && (email.id in db.emails ==> r.emails[email.id].processedAt == Some(now))
      && (forall k :: k in db.labels && k.0 != email.id ==> k in r.labels && r.labels[k] == db.labels[k])
      && (outcome.labelWrites.DeleteFails? ==> r.labels == db.labels)
      && (outcome.labelWrites.InsertFails? ==>
            var n := if outcome.labelWrites.written < |list| then outcome.labelWrites.written else |list|;
            ((email.id, l) in r.labels <==> l != [] && exists x :: x in list[..n] && Strip(x) == l))
  {
    var d := outcome.classified.value;
    var list := EnrichedLabels(d, IsVipSender(email.sender, vipSenders));
    ProcessCommitsTogether(db, email, vipSenders, outcome, now);
    var r := ProcessEmail(db, email, vipSenders, outcome, now);
    assert r.labels == LabelsAfter(db.labels, email.id, list, d.confidence, outcome.labelWrites);
    PartialLabels(db.labels, email.id, list, d.confidence, outcome.labelWrites, l);
  }

  /** The label rows after a failing label block. */
  lemma PartialLabels(labels: map<(string, string), real>, messageId: string, list: seq<string>,
                      confidence: real, lw: LabelWrites, l: string)
    requires !lw.LabelsOk?
    ensures var r := LabelsAfter(labels, messageId, list, confidence, lw);
      (forall k :: k in labels && k.0 != messageId ==> k in r && r[k] == labels[k])
      && (lw.DeleteFails? ==> r == labels)
      && (lw.InsertFails? ==>
            var n := if lw.written < |list| then lw.written else |list|;
            ((messageId, l) in r <==> l != [] && exists x :: x in list[..n] && Strip(x) == l))
  {
  }

  /** Reply tracking is written with requires_reply set only when the
      decision asks for a reply; otherwise it is left as it was. */
  lemma ReplyTrackingOnlyWhenRequired(db: Db, email: EmailRecord, vipSenders: seq<string>, outcome: Outcome, now: int)
    requires outcome.classified.Success? && !outcome.writeFails
    ensures var r := ProcessEmail(db, email, vipSenders, outcome, now);
      var d := outcome.classified.value;
      (d.requiresReply ==>
        email.id in r.replies && r.replies[email.id].requiresReply
        && r.replies[email.id].reason == Triggers.OrElse(d.replyReason, d.reason))
      && (!d.requiresReply ==> r.replies == db.replies)
  {
  }

  function IdsOf(batch: seq<EmailRecord>): set<string> {
    set e | e in batch :: e.id
  }

  /** `organize_emails`: processes the selected emails one after another;
      each email's outcome is given by `outcomes`. */
  function ProcessBatch(db: Db, batch: seq<EmailRecord>, vipSenders: seq<string>,
                        outcomes: string -> Outcome, now: int): (r: Db)
    ensures r.emails.Keys == db.emails.Keys
    ensures forall k :: k in db.emails && k !in IdsOf(batch) ==> r.emails[k] == db.emails[k]
    decreases |batch|
  {
    if |batch| == 0 then db
    else
      var next := ProcessEmail(db, batch[0], vipSenders, outcomes(batch[0].id), now);
      var rest := ProcessBatch(next, batch[1..], vipSenders, outcomes, now);
      assert IdsOf(batch) == {batch[0].id} + IdsOf(batch[1..]);
      rest
  }

  /** One step of the batch, seen from the stored email `id`. */
  lemma StepOnEmail(db: Db, e: EmailRecord, vipSenders: seq<string>, o: Outcome, now: int, id: string)
    requires id in db.emails
    ensures var n := ProcessEmail(db, e, vipSenders, o, now);
      id in n.emails
      && (e.id != id ==> n.emails[id] == db.emails[id])
      && (e.id == id && o.classified.Success? && !o.writeFails ==> n.emails[id].processedAt.Some?)
      && (o.classified.Failure? || o.writeFails ==> n == db)
  {
  }

  /** The rest of a batch that does not hold `id` leaves that email alone. */
  lemma RestWithout(db: Db, rest: seq<EmailRecord>, vipSenders: seq<string>, outcomes: string -> Outcome, now: int, id: string)
    requires id in db.emails
    requires forall i :: 0 <= i < |rest| ==> rest[i].id != id
    ensures id in ProcessBatch(db, rest, vipSenders, outcomes, now).emails
    ensures ProcessBatch(db, rest, vipSenders, outcomes, now).emails[id] == db.emails[id]
  {
    assert id !in IdsOf(rest);
  }

  /** After a batch, an email of the batch whose processing failed is still
      unprocessed when it was before, and one that succeeded is processed. */
  lemma {:induction false} BatchOutcome(db: Db, batch: seq<EmailRecord>, vipSenders: seq<string>,
                                        outcomes: string -> Outcome, now: int, j: nat)
    requires j < |batch| && batch[j].id in db.emails
    requires forall i :: 0 <= i < |batch| ==> outcomes(batch[i].id) == outcomes(batch[j].id) || batch[i].id != batch[j].id
    ensures var r := ProcessBatch(db, batch, vipSenders, outcomes, now);
      var o := outcomes(batch[j].id);
      (o.classified.Success? && !o.writeFails ==> r.emails[batch[j].id].processedAt.Some?)
      && (o.classified.Failure? || o.writeFails ==> r.emails[batch[j].id].processedAt == db.emails[batch[j].id].processedAt)
    decreases |batch|
  {
    var id := batch[j].id;
    var o := outcomes(id);
    var first := batch[0];
    var rest := batch[1..];
    var next := ProcessEmail(db, first, vipSenders, outcomes(first.id), now);
    StepOnEmail(db, first, vipSenders, outcomes(first.id), now, id);
    var r := ProcessBatch(next, rest, vipSenders, outcomes, now);
    assert ProcessBatch(db, batch, vipSenders, outcomes, now) == r;
    if first.id == id {
      assert outcomes(first.id) == o;
    }
    if exists i :: 0 <= i < |rest| && rest[i].id == id {
      var i :| 0 <= i < |rest| && rest[i].id == id;
      assert rest[i] == batch[i + 1];
      assert forall k :: 0 <= k < |rest| ==> rest[k] == batch[k + 1];
      BatchOutcome(next, rest, vipSenders, outcomes, now, i);
      assert o.classified.Failure? || o.writeFails ==> r.emails[id].processedAt == next.emails[id].processedAt;
    } else {
      assert j == 0;
      RestWithout(next, rest, vipSenders, outcomes, now, id);
      assert r.emails[id] == next.emails[id];
    }
  }

  // ------------------------------------------------------------ triggers

  /** The availability details sent with an availability trigger. */
  datatype AvailabilityPayload = AvailabilityPayload(
    timeWindow: Option<string>,
    durationMinutes: int,
    timezone: string,
    constraints: Option<string>,
    proposedSlots: seq<string>,
    requester: Option<string>)

  const DefaultMeetingMinutes: int := 30

  /** Missing details fall back to a 30-minute meeting in the default
      timezone with no proposed slots (a zero duration or an empty timezone
      counts as missing, as Python's `or` does). */
  function AvailabilityFor(a: Option<Availability>, requester: Option<string>, defaultTimezone: string)
    : (p: AvailabilityPayload)
    ensures a.None? ==> p == AvailabilityPayload(None, DefaultMeetingMinutes, defaultTimezone, None, [], requester)
    ensures a.Some? && a.value.durationMinutes.Some? && a.value.durationMinutes.value != 0 ==>
      p.durationMinutes == a.value.durationMinutes.value
    ensures a.Some? && (a.value.durationMinutes.None? || a.value.durationMinutes.value == 0) ==>
      p.durationMinutes == DefaultMeetingMinutes
    ensures a.Some? ==> p.timezone == Triggers.OrElse(a.value.timezone, defaultTimezone)
                        && p.proposedSlots == a.value.proposedSlots && p.timeWindow == a.value.timeWindow
    ensures p.requester == requester
  {
    match a
    case None => AvailabilityPayload(None, DefaultMeetingMinutes, defaultTimezone, None, [], requester)
    case Some(v) =>
      var minutes := if v.durationMinutes.Some? && v.durationMinutes.value != 0 then v.durationMinutes.value
                     else DefaultMeetingMinutes;
      AvailabilityPayload(v.timeWindow, minutes, Triggers.OrElse(v.timezone, defaultTimezone),
                          v.constraints, v.proposedSlots, requester)
  }

  /** A trigger the organizer asks the publisher to write. */
  datatype EmailTrigger =
    | UrgentEmail(messageId: string, reason: string, dedupeKey: string)
    | ReplyNeeded(messageId: string, reason: string, dedupeKey: string)
    | EnhancedAvailability(messageId: string, availability: AvailabilityPayload)
    | AvailabilityRequested(messageId: string, availability: AvailabilityPayload, dedupeKey: string)

  predicate IsAvailability(t: EmailTrigger) {
    t.EnhancedAvailability? || t.AvailabilityRequested?
  }

  /** The keyed triggers carry the dedupe key of their type, user and message. */
  predicate KeyedFor(t: EmailTrigger, user: string, messageId: string) {
    t.messageId == messageId
    && (t.UrgentEmail? ==> t.dedupeKey == Triggers.MakeDedupeKey("urgent_email", user, messageId))
    && (t.ReplyNeeded? ==> t.dedupeKey == Triggers.MakeDedupeKey("reply_needed", user, messageId))
    && (t.AvailabilityRequested? ==> t.dedupeKey == Triggers.MakeDedupeKey("availability_requested", user, messageId))
  }

  function UrgentPart(email: EmailRecord, d: Decision, user: string): (r: seq<EmailTrigger>)
    ensures |r| <= 1 && (r != [] <==> d.urgency == "immediate")
    ensures forall t :: t in r ==> t.UrgentEmail? && KeyedFor(t, user, email.id)
  {
    if d.urgency == "immediate" then
      [UrgentEmail(email.id, d.reason, Triggers.MakeDedupeKey("urgent_email", user, email.id))]
    else []
  }

  function ReplyPart(email: EmailRecord, d: Decision, user: string): (r: seq<EmailTrigger>)
    ensures |r| <= 1 && (r != [] <==> d.requiresReply)
    ensures forall t :: t in r ==> t.ReplyNeeded? && KeyedFor(t, user, email.id)
  {
    if d.requiresReply then
      [ReplyNeeded(email.id, Triggers.OrElse(d.replyReason, d.reason),
                   Triggers.MakeDedupeKey("reply_needed", user, email.id))]
    else []
  }

  /** The enhanced availability trigger is tried first; when it raises
      (`enhancedFails`) the plain one is written. */
  function AvailabilityPart(email: EmailRecord, d: Decision, user: string, defaultTimezone: string,
                            enhancedFails: bool): (r: seq<EmailTrigger>)
    ensures |r| <= 1 && (r != [] <==> d.availabilityRequested)
    ensures forall t :: t in r ==>
      IsAvailability(t) && KeyedFor(t, user, email.id)
      && t.availability == AvailabilityFor(d.availability, email.sender, defaultTimezone)
      && (t.AvailabilityRequested? <==> enhancedFails)
  {
    if d.availabilityRequested then
      var p := AvailabilityFor(d.availability, email.sender, defaultTimezone);
      if enhancedFails then
        [AvailabilityRequested(email.id, p, Triggers.MakeDedupeKey("availability_requested", user, email.id))]
      else [EnhancedAvailability(email.id, p)]
    else []
  }

  /** `_emit_triggers_for_email`, skipped in backfill mode: `urgent_email`
      iff the urgency is "immediate", `reply_needed` iff a reply is
      required, an availability trigger iff availability was requested. */
  function EmailTriggers(email: EmailRecord, d: Decision, user: string, defaultTimezone: string,
                         enhancedFails: bool, backfill: bool): (r: seq<EmailTrigger>)
    ensures backfill ==> r == []
    ensures !backfill ==> ((exists t :: t in r && t.UrgentEmail?) <==> d.urgency == "immediate")
    ensures !backfill ==> ((exists t :: t in r && t.ReplyNeeded?) <==> d.requiresReply)
    ensures !backfill ==> ((exists t :: t in r && IsAvailability(t)) <==> d.availabilityRequested)
    ensures |r| <= 3
    ensures forall t :: t in r ==> KeyedFor(t, user, email.id)
  {
    if backfill then []
    else
      var u, p, a := UrgentPart(email, d, user), ReplyPart(email, d, user),
                     AvailabilityPart(email, d, user, defaultTimezone, enhancedFails);
      assert forall t :: t in u + p + a <==> t in u || t in p || t in a;
      assert u != [] ==> u[0] in u + p + a;
      assert p != [] ==> p[0] in u + p + a;
      assert a != [] ==> a[0] in u + p + a;
      u + p + a
  }

  // --------------------------------------------------------- the command

  const MsGraphCli: string := "aech-cli-msgraph"

  /** `--categories a,b,c` when there are categories. */
  function CategoryArgs(cats: seq<string>): (r: seq<string>)
    ensures cats == [] ==> r == []
    ensures cats != [] ==> r == ["--categories", Join(cats, ',')]
  {
    if cats != [] then ["--categories", Join(cats, ',')] else []
  }

  predicate Flagging(urgency: string) {
    urgency == "immediate" || urgency == "today" || urgency == "this_week"
  }

  /** The flag arguments `get_flag_settings` asks for. */
  function FlagArgs(urgency: string): (r: seq<string>)
    ensures Flagging(urgency) ==>
      r == ["--flag", "flagged", "--flag-due", if urgency == "this_week" then "this-week" else "today"]
    ensures !Flagging(urgency) ==> r == []
  {
    var flags := Categories.GetFlagSettings(urgency);
    (if flags.status.Some? then ["--flag", flags.status.value] else [])
    + (if flags.due.Some? then ["--flag-due", flags.due.value] else [])
  }

  function UserArgs(user: string): (r: seq<string>)
    ensures user == [] ==> r == []
    ensures user != [] ==> r == ["--user", user]
  {
    if user != [] then ["--user", user] else []
  }

  /** `_apply_categories_and_flags`: the msgraph command line, or None when
      there are no categories and the urgency is "someday" (an empty
      urgency counts as "someday"). */
  function CategoryCommand(messageId: string, d: Decision, user: string): (argv: Option<seq<string>>)
  {
    var urgency := if d.urgency == [] then "someday" else d.urgency;
    if d.outlookCategories == [] && urgency == "someday" then None
    else Some([MsGraphCli, "update-message", messageId] + CategoryArgs(d.outlookCategories)
              + FlagArgs(urgency) + UserArgs(user))
  }

  /** Where the pieces of a four-part concatenation sit. */
  lemma FourPieces(h: seq<string>, b: seq<string>, c: seq<string>, e: seq<string>)
    ensures var a := h + b + c + e;
      |a| == |h| + |b| + |c| + |e|
      && a[..|h|] == h && a[|h|..|h| + |b|] == b
      && a[|h| + |b|..|h| + |b| + |c|] == c && a[|h| + |b| + |c|..] == e
  {
  }

  /** The command's shape: no command exactly for uncategorised "someday"
      mail; otherwise the update-message call on the message, then the
      categories (which split back into the decision's list), then a flag
      with its due date exactly for the flagging urgencies, then the user. */
  lemma CategoryCommandShape(messageId: string, d: Decision, user: string)
    requires forall i :: 0 <= i < |d.outlookCategories| ==> Lacks(d.outlookCategories[i], ',')
    ensures var argv := CategoryCommand(messageId, d, user);
      var urgency := if d.urgency == [] then "someday" else d.urgency;
      var k := if d.outlookCategories != [] then 5 else 3;
      var f := if Flagging(urgency) then 4 else 0;
      (argv.None? <==> d.outlookCategories == [] && urgency == "someday")
      && (argv.Some? ==>
        var a := argv.value;
        |a| == k + f + (if user != [] then 2 else 0)
        && a[..3] == [MsGraphCli, "update-message", messageId]
        && (d.outlookCategories != [] ==> a[3] == "--categories" && Split(a[4], ',') == d.outlookCategories)
        && (Flagging(urgency) ==>
              a[k..k + 4] == ["--flag", "flagged", "--flag-due", if urgency == "this_week" then "this-week" else "today"])
        && (user != [] ==> a[k + f..] == ["--user", user]))
  {
    var urgency := if d.urgency == [] then "someday" else d.urgency;
    if d.outlookCategories != [] || urgency != "someday" {
      var h := [MsGraphCli, "update-message", messageId];
      var b := CategoryArgs(d.outlookCategories);
      FourPieces(h, b, FlagArgs(urgency), UserArgs(user));
      if d.outlookCategories != [] {
        SplitJoin(d.outlookCategories, ',');
        assert b[1] == Join(d.outlookCategories, ',');
      }
    }
  }

  // ----------------------------------------------------------- follow-ups

  const FollowupLimit: nat := 50

  /** `int(prefs["followup_n_days"] or FOLLOWUP_N_DAYS or "2")`; None when
      the environment value is not an integer (the source raises). */
  function FollowupDays(pref: Option<int>, env: Option<string>): (n: Option<int>)
    ensures pref.Some? && pref.value != 0 ==> n == pref
    ensures pref.None? || pref.value == 0 ==> n == ParseInt(env.UnwrapOr("2"))
  {
    if pref.Some? && pref.value != 0 then pref else ParseInt(env.UnwrapOr("2"))
  }

  /** A preference of 0 is falsy and falls through to the environment, so
      it does not switch follow-ups off. */
  lemma ZeroPreferenceFallsThrough(env: Option<string>)
    ensures FollowupDays(Some(0), env) == FollowupDays(None, env)
  {
  }

  /** A reply-tracking row the follow-up query selects: a reply is required,
      no follow-up was sent, no nudge was scheduled, the last activity is
      known, and the email exists. */
  predicate Eligible(db: Db, id: string) {
    id in db.replies && id in db.emails
    && db.replies[id].requiresReply && db.replies[id].followUpSentAt.None?
    && db.replies[id].nudgeScheduledAt.None? && db.replies[id].lastActivityAt.Some?
  }

  /** A `no_reply_after_n_days` trigger. */
  datatype Nudge = Nudge(
    messageId: string,
    subject: Option<string>,
    sender: Option<string>,
    lastActivityAt: string,
    daysWaiting: int,
    draft: string,
    dedupeKey: string)

  /** Python's rendering of an optional value in an f-string. */
  function Shown(x: Option<string>): string {
    if x.Some? then x.value else "None"
  }

  function FollowUpDraft(subject: Option<string>): string {
    "Following up on \"" + Shown(subject) + "\" \U{2014} do you have an update?\n\nThanks!"
  }

  function Max(a: int, b: int): int {
    if a >= b then a else b
  }

  /** A nudge for an eligible row whose last activity, as read from the
      row, parses and lies at least `n` days before `now`. */
  predicate Justified(db: Db, m: Nudge, n: int, now: int, parse: string -> Option<int>, user: string) {
    Eligible(db, m.messageId)
    && m.lastActivityAt == db.replies[m.messageId].lastActivityAt.value
    && parse(m.lastActivityAt).Some?
    && now - parse(m.lastActivityAt).value >= n * Triggers.SecondsPerDay
    && m.daysWaiting == Max(n, (now - parse(m.lastActivityAt).value) / Triggers.SecondsPerDay)
    && m.dedupeKey == Triggers.MakeDedupeKey("no_reply_after_n_days", user, m.messageId)
  }

  /** Whether an eligible row has waited at least `n` days: its last
      activity parses and lies that far before `now`. */
  predicate Due(db: Db, id: string, n: int, now: int, parse: string -> Option<int>)
    requires Eligible(db, id)
  {
    var t := parse(db.replies[id].lastActivityAt.value);
    t.Some? && now - t.value >= n * Triggers.SecondsPerDay
  }

  /** The row with `nudge_scheduled_at` set to `now`. */
  function MarkNudged(db: Db, id: string, now: int): Db
    requires id in db.replies
  {
    db.(replies := db.replies[id := db.replies[id].(nudgeScheduledAt := Some(now))])
  }

  /** The trigger for a due row. */
  function NudgeFor(db: Db, id: string, n: int, now: int, parse: string -> Option<int>, user: string): Nudge
    requires Eligible(db, id) && Due(db, id, n, now, parse)
  {
    var last := db.replies[id].lastActivityAt.value;
    var email := db.emails[id];
    Nudge(id, email.subject, email.sender, last,
          Max(n, (now - parse(last).value) / Triggers.SecondsPerDay),
          FollowUpDraft(email.subject),
          Triggers.MakeDedupeKey("no_reply_after_n_days", user, id))
  }

  /** Marking one row leaves every other row eligible as before. */
  lemma MarkKeepsOthers(db: Db, ids: seq<string>, now: int)
    requires |ids| > 0 && ids[0] in db.replies
    requires forall i :: 0 <= i < |ids| ==> Eligible(db, ids[i])
    requires forall i, j :: 0 <= i < j < |ids| ==> ids[i] != ids[j]
    ensures forall i :: 0 <= i < |ids[1..]| ==> Eligible(MarkNudged(db, ids[0], now), ids[1..][i])
  {
    forall i | 0 <= i < |ids[1..]|
      ensures Eligible(MarkNudged(db, ids[0], now), ids[1..][i])
    {
      assert ids[1..][i] == ids[i + 1] && ids[i + 1] != ids[0];
      assert Eligible(db, ids[i + 1]);
    }
  }

  /** The follow-up pass over the selected message ids: a row whose last
      activity does not parse, or which has waited less than `n` days, is
      skipped; otherwise a nudge is emitted and `nudge_scheduled_at` set. */
  function NudgeRows(db: Db, ids: seq<string>, n: int, now: int, parse: string -> Option<int>, user: string)
    : (r: (Db, seq<Nudge>))
    requires forall i :: 0 <= i < |ids| ==> Eligible(db, ids[i])
    requires forall i, j :: 0 <= i < j < |ids| ==> ids[i] != ids[j]
    ensures |r.1| <= |ids|
    ensures r.0.emails == db.emails && r.0.triageLog == db.triageLog && r.0.labels == db.labels
    ensures r.0.lastDigestWeek == db.lastDigestWeek && r.0.replies.Keys == db.replies.Keys
    decreases |ids|
  {
    if |ids| == 0 then (db, [])
    else
      var id := ids[0];
      assert Eligible(db, id);
      if Due(db, id, n, now, parse) then
        MarkKeepsOthers(db, ids, now);
        assert forall i, j :: 0 <= i < j < |ids[1..]| ==> ids[1..][i] != ids[1..][j];
        var rest := NudgeRows(MarkNudged(db, id, now), ids[1..], n, now, parse, user);
        (rest.0, [NudgeFor(db, id, n, now, parse, user)] + rest.1)
      else
        assert forall i :: 0 <= i < |ids[1..]| ==> ids[1..][i] == ids[i + 1];
        var rest := NudgeRows(db, ids[1..], n, now, parse, user);
        (rest.0, rest.1)
  }

  /** Rows without a nudge come out of the pass untouched. */
  lemma {:induction false} NudgeRowsUntouched(db: Db, ids: seq<string>, n: int, now: int,
                                              parse: string -> Option<int>, user: string)
    requires forall i :: 0 <= i < |ids| ==> Eligible(db, ids[i])
    requires forall i, j :: 0 <= i < j < |ids| ==> ids[i] != ids[j]
    ensures var r := NudgeRows(db, ids, n, now, parse, user);
      forall k :: k in db.replies && (forall m :: m in r.1 ==> m.messageId != k) ==>
        r.0.replies[k] == db.replies[k]
    decreases |ids|
  {
    if |ids| > 0 {
      var id := ids[0];
      var tail := ids[1..];
      assert forall i :: 0 <= i < |tail| ==> tail[i] == ids[i + 1];
      assert forall i, j :: 0 <= i < j < |tail| ==> tail[i] != tail[j];
      var r := NudgeRows(db, ids, n, now, parse, user);
      if Due(db, id, n, now, parse) {
        var next := MarkNudged(db, id, now);
        MarkKeepsOthers(db, ids, now);
        NudgeRowsUntouched(next, tail, n, now, parse, user);
        var nudge := NudgeFor(db, id, n, now, parse, user);
        assert r.1 == [nudge] + NudgeRows(next, tail, n, now, parse, user).1;
        assert nudge in r.1;
      } else {
        NudgeRowsUntouched(db, tail, n, now, parse, user);
      }
    }
  }

  /** A nudge justified after another row was marked was justified before. */
  lemma JustifiedBeforeMark(db: Db, id: string, m: Nudge, n: int, now: int,
                            parse: string -> Option<int>, user: string)
    requires id in db.replies && m.messageId != id
    requires Justified(MarkNudged(db, id, now), m, n, now, parse, user)
    ensures Justified(db, m, n, now, parse, user)
  {
    assert MarkNudged(db, id, now).replies[m.messageId] == db.replies[m.messageId];
  }

  lemma NudgeForJustified(db: Db, id: string, n: int, now: int, parse: string -> Option<int>, user: string)
    requires Eligible(db, id) && Due(db, id, n, now, parse)
    ensures Justified(db, NudgeFor(db, id, n, now, parse, user), n, now, parse, user)
  {
  }

  /** Every nudge of the pass is for a selected, eligible row that has
      waited at least `n` days, carries that row's last activity and the
      per-message dedupe key, and leaves the row marked. */
  lemma {:induction false} NudgeRowsSound(db: Db, ids: seq<string>, n: int, now: int,
                                          parse: string -> Option<int>, user: string)
    requires forall i :: 0 <= i < |ids| ==> Eligible(db, ids[i])
    requires forall i, j :: 0 <= i < j < |ids| ==> ids[i] != ids[j]
    ensures var r := NudgeRows(db, ids, n, now, parse, user);
      forall m :: m in r.1 ==>
        m.messageId in ids && Justified(db, m, n, now, parse, user)
        && r.0.replies[m.messageId].nudgeScheduledAt == Some(now)
    decreases |ids|
  {
    if |ids| > 0 {
      var id := ids[0];
      var tail := ids[1..];
      assert forall i :: 0 <= i < |tail| ==> tail[i] == ids[i + 1] && ids[i + 1] != id;
      assert forall i, j :: 0 <= i < j < |tail| ==> tail[i] != tail[j];
      var r := NudgeRows(db, ids, n, now, parse, user);
      if Due(db, id, n, now, parse) {
        var next := MarkNudged(db, id, now);
        MarkKeepsOthers(db, ids, now);
        NudgeRowsSound(next, tail, n, now, parse, user);
        var rest := NudgeRows(next, tail, n, now, parse, user);
        var nudge := NudgeFor(db, id, n, now, parse, user);
        assert r.1 == [nudge] + rest.1;
        assert id !in tail;
        forall m | m in rest.1
          ensures m.messageId in ids && Justified(db, m, n, now, parse, user)
        {
          assert m.messageId in tail && m.messageId != id;
          JustifiedBeforeMark(db, id, m, n, now, parse, user);
        }
        NudgeForJustified(db, id, n, now, parse, user);
        NudgeRowsUntouched(next, tail, n, now, parse, user);
        assert r.0.replies[id] == next.replies[id];
      } else {
        assert forall i :: 0 <= i < |tail| ==> Eligible(db, tail[i]);
        NudgeRowsSound(db, tail, n, now, parse, user);
      }
    }
  }

  /** Every selected row that has waited at least `n` days gets a nudge. */
  lemma {:induction false} NudgeRowsComplete(db: Db, ids: seq<string>, n: int, now: int,
                                             parse: string -> Option<int>, user: string)
    requires forall i :: 0 <= i < |ids| ==> Eligible(db, ids[i])
    requires forall i, j :: 0 <= i < j < |ids| ==> ids[i] != ids[j]
    ensures var r := NudgeRows(db, ids, n, now, parse, user);
      forall i :: 0 <= i < |ids| && Due(db, ids[i], n, now, parse) ==>
        exists m :: m in r.1 && m.messageId == ids[i]
    decreases |ids|
  {
    if |ids| > 0 {
      var id := ids[0];
      var tail := ids[1..];
      assert forall i :: 0 <= i < |tail| ==> tail[i] == ids[i + 1] && ids[i + 1] != id;
      assert forall i, j :: 0 <= i < j < |tail| ==> tail[i] != tail[j];
      var r := NudgeRows(db, ids, n, now, parse, user);
      if Due(db, id, n, now, parse) {
        var next := MarkNudged(db, id, now);
        MarkKeepsOthers(db, ids, now);
        NudgeRowsComplete(next, tail, n, now, parse, user);
        var nudge := NudgeFor(db, id, n, now, parse, user);
        assert r.1 == [nudge] + NudgeRows(next, tail, n, now, parse, user).1;
        forall i | 0 <= i < |ids| && Due(db, ids[i], n, now, parse)
          ensures exists m :: m in r.1 && m.messageId == ids[i]
        {
          if i == 0 {
            assert nudge in r.1;
          } else {
            assert next.replies[ids[i]] == db.replies[ids[i]];
            assert Due(next, tail[i - 1], n, now, parse);
          }
        }
      } else {
        assert r == NudgeRows(db, tail, n, now, parse, user);
        NudgeRowsComplete(db, tail, n, now, parse, user);
        forall i | 0 <= i < |ids| && Due(db, ids[i], n, now, parse)
          ensures exists m :: m in r.1 && m.messageId == ids[i]
        {
          assert i > 0 && tail[i - 1] == ids[i];
        }
      }
    }
  }

  /** The last activity the follow-up query sorts on ("" for a row without one). */
  function Activity(db: Db, id: string): string {
    if id in db.replies && db.replies[id].lastActivityAt.Some? then db.replies[id].lastActivityAt.value else ""
  }

  /** Ascending by last activity: no id comes after one whose activity sorts
      strictly later than its own. */
  predicate ByActivity(db: Db, ids: seq<string>) {
    forall i, j :: 0 <= i < j < |ids| ==> !LexLess(Activity(db, ids[j]), Activity(db, ids[i]))
  }

  /** An order `ORDER BY rt.last_activity_at ASC` can produce over the
      reply-tracking rows: each id once, every eligible row present, and
      ascending by last activity. */
  predicate QueryOrder(db: Db, order: seq<string>) {
    (forall i, j :: 0 <= i < j < |order| ==> order[i] != order[j])
    && (forall k :: k in db.replies && Eligible(db, k) ==> k in order)
    && ByActivity(db, order)
  }

  /** The rows the follow-up query returns, at most 50, filtered from
      `order`. When `order` is the database's order by last activity, they
      are the 50 eligible rows of earliest activity, oldest first: every
      eligible row left out is at least as recent as every row selected,
      and none is left out when fewer than 50 are selected. */
  function FollowupSelection(db: Db, order: seq<string>): (ids: seq<string>)
    ensures |ids| <= FollowupLimit
    ensures forall i :: 0 <= i < |ids| ==> Eligible(db, ids[i]) && ids[i] in order
    ensures (forall i, j :: 0 <= i < j < |order| ==> order[i] != order[j]) ==>
      forall i, j :: 0 <= i < j < |ids| ==> ids[i] != ids[j]
    ensures QueryOrder(db, order) ==>
      ByActivity(db, ids)
      && (|ids| < FollowupLimit ==> forall k :: Eligible(db, k) ==> k in ids)
      && forall k, i :: Eligible(db, k) && k !in ids && 0 <= i < |ids| ==>
           !LexLess(Activity(db, k), Activity(db, ids[i]))
  {
    var all := EligibleIn(db, order);
    TakeByActivity(db, all, FollowupLimit);
    Sorting.Take(all, FollowupLimit)
  }

  /** A prefix of a list ascending by activity is ascending, and no element
      after the prefix sorts before one inside it. */
  lemma TakeByActivity(db: Db, s: seq<string>, n: nat)
    ensures var t := Sorting.Take(s, n);
      ByActivity(db, s) ==>
        ByActivity(db, t)
        && forall k, i :: k in s && k !in t && 0 <= i < |t| ==> !LexLess(Activity(db, k), Activity(db, t[i]))
  {
    var t := Sorting.Take(s, n);
    assert forall j :: 0 <= j < |t| ==> s[j] == t[j];
    if ByActivity(db, s) {
      forall k, i | k in s && k !in t && 0 <= i < |t|
        ensures !LexLess(Activity(db, k), Activity(db, t[i]))
      {
        var j :| 0 <= j < |s| && s[j] == k;
        assert |t| <= j;
      }
    }
  }

  /** In a list ascending by activity, the tail is ascending and nothing
      drawn from it sorts before the head. */
  lemma ActivityAfterHead(db: Db, order: seq<string>, rest: seq<string>)
    requires |order| > 0
    requires forall i :: 0 <= i < |rest| ==> rest[i] in order[1..]
    ensures ByActivity(db, order) ==>
      ByActivity(db, order[1..])
      && forall i :: 0 <= i < |rest| ==> !LexLess(Activity(db, rest[i]), Activity(db, order[0]))
  {
    if ByActivity(db, order) {
      forall i, j | 0 <= i < j < |order[1..]|
        ensures !LexLess(Activity(db, order[1..][j]), Activity(db, order[1..][i]))
      {
        assert order[1..][j] == order[j + 1] && order[1..][i] == order[i + 1];
      }
      forall i | 0 <= i < |rest|
        ensures !LexLess(Activity(db, rest[i]), Activity(db, order[0]))
      {
        var tail := order[1..];
        assert rest[i] in tail;
        var j :| 0 <= j < |tail| && tail[j] == rest[i];
        assert order[j + 1] == rest[i];
      }
    }
  }

  /** The eligible ids of `order`, in that order. */
  function EligibleIn(db: Db, order: seq<string>): (ids: seq<string>)
    ensures forall i :: 0 <= i < |ids| ==> Eligible(db, ids[i]) && ids[i] in order
    ensures forall k :: Eligible(db, k) && k in order ==> k in ids
    ensures (forall i, j :: 0 <= i < j < |order| ==> order[i] != order[j]) ==>
      forall i, j :: 0 <= i < j < |ids| ==> ids[i] != ids[j]
    ensures ByActivity(db, order) ==> ByActivity(db, ids)
  {
    if |order| == 0 then []
    else
      var rest := EligibleIn(db, order[1..]);
      var ids := (if Eligible(db, order[0]) then [order[0]] else []) + rest;
      EligibleInStep(db, order, rest, ids);
      ids
  }

  /** One step of `EligibleIn`: the head, when eligible, in front of the
      eligible ids of the tail. */
  lemma EligibleInStep(db: Db, order: seq<string>, rest: seq<string>, ids: seq<string>)
    requires |order| > 0
    requires ids == (if Eligible(db, order[0]) then [order[0]] else []) + rest
    requires forall i :: 0 <= i < |rest| ==> Eligible(db, rest[i]) && rest[i] in order[1..]
    requires forall k :: Eligible(db, k) && k in order[1..] ==> k in rest
    requires (forall i, j :: 0 <= i < j < |order[1..]| ==> order[1..][i] != order[1..][j]) ==>
      forall i, j :: 0 <= i < j < |rest| ==> rest[i] != rest[j]
    requires ByActivity(db, order[1..]) ==> ByActivity(db, rest)
    ensures forall i :: 0 <= i < |ids| ==> Eligible(db, ids[i]) && ids[i] in order
    ensures forall k :: Eligible(db, k) && k in order ==> k in ids
    ensures (forall i, j :: 0 <= i < j < |order| ==> order[i] != order[j]) ==>
      forall i, j :: 0 <= i < j < |ids| ==> ids[i] != ids[j]
    ensures ByActivity(db, order) ==> ByActivity(db, ids)
  {
    var tail := order[1..];
    assert forall i :: 0 <= i < |tail| ==> tail[i] == order[i + 1];
    assert forall i :: 0 < i < |order| ==> order[i] == tail[i - 1];
    DistinctAfterHead(order, rest, Eligible(db, order[0]));
    ActivityAfterHead(db, order, rest);
    if ByActivity(db, order) {
      HeadFirstByActivity(db, order[0], rest, ids);
    }
  }

  /** A head that sorts no later than anything after it, in front of a list
      ascending by activity, keeps the list ascending. */
  lemma HeadFirstByActivity(db: Db, head: string, rest: seq<string>, ids: seq<string>)
    requires ByActivity(db, rest)
    requires forall i :: 0 <= i < |rest| ==> !LexLess(Activity(db, rest[i]), Activity(db, head))
    requires ids == rest || ids == [head] + rest
    ensures ByActivity(db, ids)
  {
    if ids != rest {
      assert forall i :: 0 < i < |ids| ==> ids[i] == rest[i - 1];
    }
  }

  /** Keeping or dropping the head of a list without repeats, in front of
      repeat-free picks from its tail, gives no repeats. */
  lemma DistinctAfterHead(order: seq<string>, rest: seq<string>, keep: bool)
    requires |order| > 0
    requires forall i :: 0 <= i < |rest| ==> rest[i] in order[1..]
    requires (forall i, j :: 0 <= i < j < |order[1..]| ==> order[1..][i] != order[1..][j]) ==>
      forall i, j :: 0 <= i < j < |rest| ==> rest[i] != rest[j]
    ensures (forall i, j :: 0 <= i < j < |order| ==> order[i] != order[j]) ==>
      var ids := (if keep then [order[0]] else []) + rest;
      forall i, j :: 0 <= i < j < |ids| ==> ids[i] != ids[j]
  {
    if forall i, j :: 0 <= i < j < |order| ==> order[i] != order[j] {
      var tail := order[1..];
      assert forall i, j :: 0 <= i < j < |tail| ==> tail[i] == order[i + 1] && tail[j] == order[j + 1];
      assert order[0] !in tail;
      var ids := (if keep then [order[0]] else []) + rest;
      if keep {
        assert forall i :: 0 < i < |ids| ==> ids[i] == rest[i - 1];
      }
    }
  }

  /** `_emit_followup_triggers`: nothing when `n <= 0`; otherwise each
      selected row that has waited at least `n` days is nudged once.
      `order` lists the reply-tracking ids (each once) in the database's
      order of last activity. */
  function EmitFollowups(db: Db, order: seq<string>, n: int, now: int, parse: string -> Option<int>, user: string)
    : (r: (Db, seq<Nudge>))
    requires forall i, j :: 0 <= i < j < |order| ==> order[i] != order[j]
    ensures n <= 0 ==> r == (db, [])
    ensures |r.1| <= FollowupLimit
    ensures forall m :: m in r.1 ==>
      Eligible(db, m.messageId) && m.daysWaiting >= n && parse(m.lastActivityAt).Some?
      && now - parse(m.lastActivityAt).value >= n * Triggers.SecondsPerDay
      && !Eligible(r.0, m.messageId)
    ensures r.0.emails == db.emails && r.0.replies.Keys == db.replies.Keys
    ensures forall k :: k in db.replies && (forall m :: m in r.1 ==> m.messageId != k) ==>
      r.0.replies[k] == db.replies[k]
  {
    if n <= 0 then (db, [])
    else
      NudgeRowsSound(db, FollowupSelection(db, order), n, now, parse, user);
      NudgeRowsUntouched(db, FollowupSelection(db, order), n, now, parse, user);
      NudgeRows(db, FollowupSelection(db, order), n, now, parse, user)
  }

  /** With a positive threshold, every selected row that has waited at
      least `n` days is nudged. */
  lemma EmitFollowupsComplete(db: Db, order: seq<string>, n: int, now: int,
                              parse: string -> Option<int>, user: string)
    requires forall i, j :: 0 <= i < j < |order| ==> order[i] != order[j]
    requires n > 0
    ensures var ids := FollowupSelection(db, order);
      forall i :: 0 <= i < |ids| && Due(db, ids[i], n, now, parse) ==>
        exists m :: m in EmitFollowups(db, order, n, now, parse, user).1 && m.messageId == ids[i]
  {
    NudgeRowsComplete(db, FollowupSelection(db, order), n, now, parse, user);
  }

  /** Each message is nudged at most once: a later pass, with any clock and
      any threshold, emits nothing for a message an earlier pass nudged. */
  lemma NudgedOnce(db: Db, order1: seq<string>, order2: seq<string>, n1: int, n2: int, t1: int, t2: int,
                   parse: string -> Option<int>, user: string)
    requires forall i, j :: 0 <= i < j < |order1| ==> order1[i] != order1[j]
    requires forall i, j :: 0 <= i < j < |order2| ==> order2[i] != order2[j]
    ensures var first := EmitFollowups(db, order1, n1, t1, parse, user);
      var second := EmitFollowups(first.0, order2, n2, t2, parse, user);
      forall m1, m2 :: m1 in first.1 && m2 in second.1 ==> m1.messageId != m2.messageId
  {
  }

  // --------------------------------------------------------- weekly digest

  /** The settings the digest gate reads; a preference is Some when its key
      is present, whatever its value. */
  datatype DigestSettings = DigestSettings(
    enableEnv: string,
    prefDay: Option<string>,
    prefTime: Option<string>,
    envDay: Option<string>,
    envTime: Option<string>,
    envWindow: Option<string>)

  /** An email row of the digest query. `receivedDay` is the local day
      number of its receipt (None when the timestamp does not parse);
      `categories` is None when the stored JSON does not parse. */
  datatype DigestRow = DigestRow(
    id: string,
    subject: Option<string>,
    sender: Option<string>,
    receivedDay: Option<int>,
    categories: Option<seq<string>>,
    urgency: Option<string>)

  datatype TopItem = TopItem(title: Option<string>, sender: Option<string>, categories: seq<string>, link: string)

  datatype Digest = Digest(weekStart: int, weekEnd: int, topItems: seq<TopItem>, actions: seq<Option<string>>,
                           dedupeKey: string)

  /** The gate's verdict: not due, raised (the source lets a ValueError
      escape), or a digest to emit. */
  datatype DigestOutcome = NotDue | Raised | Ready(digest: Digest)

  const DigestRowLimit: nat := 500
  const DigestTopLimit: nat := 15
  const DigestActionLimit: nat := 20

  /** Monday is 0; None for anything that is not a lowercase English day name. */
  function WeekdayIndex(day: string): (r: Option<int>)
    ensures r.Some? ==> 0 <= r.value < 7
  {
    if day == "monday" then Some(0) else if day == "tuesday" then Some(1)
    else if day == "wednesday" then Some(2) else if day == "thursday" then Some(3)
    else if day == "friday" then Some(4) else if day == "saturday" then Some(5)
    else if day == "sunday" then Some(6) else None
  }

  /** Day numbers count from 1970-01-01, a Thursday. */
  function Weekday(day: int): (w: int)
    ensures 0 <= w < 7
  {
    (day + 3) % 7
  }

  /** The Monday that starts the week of `day`. */
  function WeekStart(day: int): (m: int)
    ensures Weekday(m) == 0 && m <= day < m + 7
  {
    day - Weekday(day)
  }

  predicate IsActionRow(r: DigestRow) {
    var urgency := if r.urgency.Some? && r.urgency.value != [] then r.urgency.value else "someday";
    urgency == "immediate" || urgency == "today" || "Action Required" in r.categories.UnwrapOr([])
  }

  predicate InWeek(r: DigestRow, weekStart: int) {
    r.receivedDay.Some? && weekStart <= r.receivedDay.value <= weekStart + 6
  }

  function ItemOf(r: DigestRow): TopItem {
    TopItem(r.subject, r.sender, r.categories.UnwrapOr([]), r.id)
  }

  /** The digest loop: every in-week action row adds its subject to the
      actions, and an in-week row becomes a top item while fewer than 15
      have been collected. */
  function CollectDigest(rows: seq<DigestRow>, weekStart: int, top: seq<TopItem>, actions: seq<Option<string>>)
    : (r: (seq<TopItem>, seq<Option<string>>))
    decreases |rows|
  {
    if |rows| == 0 then (top, actions)
    else
      var row := rows[0];
      if !InWeek(row, weekStart) then CollectDigest(rows[1..], weekStart, top, actions)
      else
        var actions' := if IsActionRow(row) then actions + [row.subject] else actions;
        var top' := if |top| < DigestTopLimit then top + [ItemOf(row)] else top;
        CollectDigest(rows[1..], weekStart, top', actions')
  }

  /** The in-week rows, in query order. */
  function InWeekRows(rows: seq<DigestRow>, weekStart: int): (r: seq<DigestRow>)
    ensures forall i :: 0 <= i < |r| ==> InWeek(r[i], weekStart) && r[i] in rows
  {
    if |rows| == 0 then []
    else
      var rest := InWeekRows(rows[1..], weekStart);
      assert forall i :: 0 <= i < |rest| ==> rest[i] in rows;
      (if InWeek(rows[0], weekStart) then [rows[0]] else []) + rest
  }

  function Items(rows: seq<DigestRow>): (r: seq<TopItem>)
    ensures |r| == |rows| && forall i :: 0 <= i < |rows| ==> r[i] == ItemOf(rows[i])
  {
    if |rows| == 0 then [] else [ItemOf(rows[0])] + Items(rows[1..])
  }

  function ActionSubjects(rows: seq<DigestRow>): (r: seq<Option<string>>)
    ensures |r| <= |rows|
  {
    if |rows| == 0 then []
    else (if IsActionRow(rows[0]) then [rows[0].subject] else []) + ActionSubjects(rows[1..])
  }

  /** Once `n` items are collected, taking `n` ignores what follows. */
  lemma TakeFull<T>(a: seq<T>, b: seq<T>, n: nat)
    requires |a| == n
    ensures Sorting.Take(a + b, n) == a
  {
    assert (a + b)[..n] == a;
  }

  /** The in-week rows of a non-empty sequence, one step unfolded. */
  lemma InWeekRowsCons(rows: seq<DigestRow>, weekStart: int)
    requires |rows| > 0
    ensures InWeekRows(rows, weekStart)
      == (if InWeek(rows[0], weekStart) then [rows[0]] else []) + InWeekRows(rows[1..], weekStart)
  {
  }

  /** One in-week row added to the top items, as the loop adds it. */
  lemma TopStep(row: DigestRow, tail: seq<DigestRow>, top: seq<TopItem>)
    requires |top| <= DigestTopLimit
    ensures var top' := if |top| < DigestTopLimit then top + [ItemOf(row)] else top;
      Sorting.Take(top' + Items(tail), DigestTopLimit) == Sorting.Take(top + Items([row] + tail), DigestTopLimit)
  {
    assert Items([row] + tail) == [ItemOf(row)] + Items(tail);
    if |top| < DigestTopLimit {
      assert top + Items([row] + tail) == (top + [ItemOf(row)]) + Items(tail);
    } else {
      TakeFull(top, Items([row] + tail), DigestTopLimit);
      TakeFull(top, Items(tail), DigestTopLimit);
    }
  }

  /** One in-week row added to the action list, as the loop adds it. */
  lemma ActionStep(row: DigestRow, tail: seq<DigestRow>, actions: seq<Option<string>>)
    ensures var actions' := if IsActionRow(row) then actions + [row.subject] else actions;
      actions' + ActionSubjects(tail) == actions + ActionSubjects([row] + tail)
  {
    assert ([row] + tail)[1..] == tail;
  }

  /** The loop's top items are the first 15 in-week rows, in query order. */
  lemma {:induction false} CollectDigestTop(rows: seq<DigestRow>, weekStart: int, top: seq<TopItem>,
                                            actions: seq<Option<string>>)
    requires |top| <= DigestTopLimit
    ensures CollectDigest(rows, weekStart, top, actions).0
      == Sorting.Take(top + Items(InWeekRows(rows, weekStart)), DigestTopLimit)
    decreases |rows|
  {
    if |rows| == 0 {
      assert top + Items(InWeekRows(rows, weekStart)) == top;
    } else {
      var row := rows[0];
      InWeekRowsCons(rows, weekStart);
      if !InWeek(row, weekStart) {
        CollectDigestTop(rows[1..], weekStart, top, actions);
        assert InWeekRows(rows, weekStart) == InWeekRows(rows[1..], weekStart);
      } else {
        var actions' := if IsActionRow(row) then actions + [row.subject] else actions;
        var top' := if |top| < DigestTopLimit then top + [ItemOf(row)] else top;
        CollectDigestTop(rows[1..], weekStart, top', actions');
        TopStep(row, InWeekRows(rows[1..], weekStart), top);
      }
    }
  }

  /** The loop's action list holds the subjects of all in-week action rows,
      in query order. */
  lemma {:induction false} CollectDigestActions(rows: seq<DigestRow>, weekStart: int, top: seq<TopItem>,
                                                actions: seq<Option<string>>)
    ensures CollectDigest(rows, weekStart, top, actions).1 == actions + ActionSubjects(InWeekRows(rows, weekStart))
    decreases |rows|
  {
    if |rows| == 0 {
      assert actions + ActionSubjects(InWeekRows(rows, weekStart)) == actions;
    } else {
      var row := rows[0];
      InWeekRowsCons(rows, weekStart);
      if !InWeek(row, weekStart) {
        CollectDigestActions(rows[1..], weekStart, top, actions);
        assert InWeekRows(rows, weekStart) == InWeekRows(rows[1..], weekStart);
      } else {
        var actions' := if IsActionRow(row) then actions + [row.subject] else actions;
        var top' := if |top| < DigestTopLimit then top + [ItemOf(row)] else top;
        CollectDigestActions(rows[1..], weekStart, top', actions');
        ActionStep(row, InWeekRows(rows[1..], weekStart), actions);
      }
    }
  }

  /** The Python `in {"1", "true", "yes"}` test on the stripped, lowercased value. */
  predicate DigestEnabled(env: string) {
    var v := Lower(Strip(env));
    v == "1" || v == "true" || v == "yes"
  }

  /** The scheduling half of `_emit_weekly_digest_trigger`: the week whose
      digest is due at local time `nowLocal`, or nothing, or an error the
      source raises (a window that is not an integer, an hour or minute out
      of range). */
  datatype Schedule = Idle | Broken | DueWeek(weekStart: int)

  /** The configured day name: the preference, else the environment, else
      "friday"; stripped and lowercased. */
  function DigestDayName(cfg: DigestSettings): string {
    Lower(Strip(Triggers.OrElse(cfg.prefDay, cfg.envDay.UnwrapOr("friday"))))
  }

  /** The configured "HH:MM" time, split at the first ':' into two integers;
      nothing when it does not split or either part is not an integer. */
  function DigestClock(cfg: DigestSettings): Option<(int, int)> {
    var time := Strip(Triggers.OrElse(cfg.prefTime, cfg.envTime.UnwrapOr("08:30")));
    var parts := SplitFirst(time, ':');
    if parts.None? then None
    else
      var hour := ParseInt(parts.value.0);
      var minute := ParseInt(parts.value.1);
      if hour.None? || minute.None? then None else Some((hour.value, minute.value))
  }

  /** The window in minutes, "30" by default. */
  function DigestWindow(cfg: DigestSettings): Option<int> {
    ParseInt(cfg.envWindow.UnwrapOr("30"))
  }

  function DigestSchedule(cfg: DigestSettings, nowLocal: int): (s: Schedule)
    ensures s.DueWeek? ==> s.weekStart == WeekStart(nowLocal / Triggers.SecondsPerDay)
    ensures s.DueWeek? ==> DigestEnabled(cfg.enableEnv) || cfg.prefDay.Some? || cfg.prefTime.Some?
  {
    if !DigestEnabled(cfg.enableEnv) && cfg.prefDay.None? && cfg.prefTime.None? then Idle
    else ScheduleAt(WeekdayIndex(DigestDayName(cfg)), DigestClock(cfg), DigestWindow(cfg), nowLocal)
  }

  /** The schedule once the settings are parsed: an unknown day or a bad
      time is silently idle, a bad window or an out-of-range time raises,
      and otherwise the digest is due on the target weekday inside
      [scheduled, scheduled + window]. */
  function ScheduleAt(target: Option<int>, clock: Option<(int, int)>, window: Option<int>, nowLocal: int)
    : (s: Schedule)
    ensures s.DueWeek? ==> s.weekStart == WeekStart(nowLocal / Triggers.SecondsPerDay)
    ensures s.DueWeek? <==>
      var day := nowLocal / Triggers.SecondsPerDay;
      target == Some(Weekday(day)) && clock.Some? && window.Some?
      && 0 <= clock.value.0 < 24 && 0 <= clock.value.1 < 60
      && day * Triggers.SecondsPerDay + clock.value.0 * 3600 + clock.value.1 * 60 <= nowLocal
      <= day * Triggers.SecondsPerDay + clock.value.0 * 3600 + clock.value.1 * 60 + window.value * 60
  {
    if target.None? || clock.None? then Idle
    else if window.None? then Broken
    else
      var (hour, minute) := clock.value;
      if !(0 <= hour < 24 && 0 <= minute < 60) then Broken
      else
        var day := nowLocal / Triggers.SecondsPerDay;
        var scheduled := day * Triggers.SecondsPerDay + hour * 3600 + minute * 60;
        if !(Weekday(day) == target.value && scheduled <= nowLocal <= scheduled + window.value * 60) then Idle
        else DueWeek(WeekStart(day))
  }

  /** `_emit_weekly_digest_trigger` at local time `nowLocal` (seconds since
      the epoch on the local clock). Returns the verdict and the database,
      whose digest marker records the week of an emitted digest. */
  function WeeklyDigest(db: Db, cfg: DigestSettings, nowLocal: int, recent: seq<DigestRow>,
                        isoDate: int -> string, user: string): (r: (DigestOutcome, Db))
    ensures !r.0.Ready? ==> r.1 == db
    ensures r.0.Ready? ==>
      var day := nowLocal / Triggers.SecondsPerDay;
      var d := r.0.digest;
      d.weekStart == WeekStart(day) && d.weekEnd == d.weekStart + 6
      && db.lastDigestWeek != Some(d.weekStart)
      && r.1 == db.(lastDigestWeek := Some(d.weekStart))
      && |d.topItems| <= DigestTopLimit && |d.actions| <= DigestActionLimit
      && d.dedupeKey == Triggers.MakeDedupeKey("weekly_digest_ready", user, isoDate(d.weekStart))
      && d.topItems == Sorting.Take(Items(InWeekRows(Sorting.Take(recent, DigestRowLimit), d.weekStart)), DigestTopLimit)
      && d.actions
         == Sorting.Take(ActionSubjects(InWeekRows(Sorting.Take(recent, DigestRowLimit), d.weekStart)), DigestActionLimit)
    ensures r.0.Ready? ==>
      DigestEnabled(cfg.enableEnv) || cfg.prefDay.Some? || cfg.prefTime.Some?
  {
    var schedule := DigestSchedule(cfg, nowLocal);
    if schedule.Idle? then (NotDue, db)
    else if schedule.Broken? then (Raised, db)
    else
      var weekStart := schedule.weekStart;
      if db.lastDigestWeek == Some(weekStart) then (NotDue, db)
      else
        var collected := CollectDigest(Sorting.Take(recent, DigestRowLimit), weekStart, [], []);
        var digest := Digest(weekStart, weekStart + 6, collected.0,
                             Sorting.Take(collected.1, DigestActionLimit),
                             Triggers.MakeDedupeKey("weekly_digest_ready", user, isoDate(weekStart)));
        var rows := InWeekRows(Sorting.Take(recent, DigestRowLimit), weekStart);
        CollectDigestTop(Sorting.Take(recent, DigestRowLimit), weekStart, [], []);
        CollectDigestActions(Sorting.Take(recent, DigestRowLimit), weekStart, [], []);
        assert [] + Items(rows) == Items(rows) && [] + ActionSubjects(rows) == ActionSubjects(rows);
        (Ready(digest), db.(lastDigestWeek := Some(weekStart)))
  }

  /** At most one digest per Monday-based week: once a digest is emitted,
      any later call in the same week emits nothing. */
  lemma DigestOncePerWeek(db: Db, cfg1: DigestSettings, cfg2: DigestSettings, t1: int, t2: int,
                          rows1: seq<DigestRow>, rows2: seq<DigestRow>, isoDate: int -> string, user: string)
    requires WeekStart(t1 / Triggers.SecondsPerDay) == WeekStart(t2 / Triggers.SecondsPerDay)
    ensures var first := WeeklyDigest(db, cfg1, t1, rows1, isoDate, user);
      first.0.Ready? ==> !WeeklyDigest(first.1, cfg2, t2, rows2, isoDate, user).0.Ready?
  {
  }

  /** The digest is only emitted on the configured weekday, inside
      [scheduled, scheduled + window], with the time and window parsed. */
  lemma DigestOnlyInWindow(db: Db, cfg: DigestSettings, nowLocal: int, recent: seq<DigestRow>,
                           isoDate: int -> string, user: string)
    ensures WeeklyDigest(db, cfg, nowLocal, recent, isoDate, user).0.Ready? ==>
      var day := nowLocal / Triggers.SecondsPerDay;
      var clock := DigestClock(cfg);
      var window := DigestWindow(cfg);
      WeekdayIndex(DigestDayName(cfg)) == Some(Weekday(day))
      && clock.Some? && window.Some?
      && day * Triggers.SecondsPerDay + clock.value.0 * 3600 + clock.value.1 * 60 <= nowLocal
      <= day * Triggers.SecondsPerDay + clock.value.0 * 3600 + clock.value.1 * 60 + window.value * 60
  {
  }

  /** Conversely to `DigestOnlyInWindow` and `DigestOncePerWeek`: an enabled
      digest whose day, time and window parse, called on the configured
      weekday inside [scheduled, scheduled + window] of a week that has no
      digest yet, is emitted. */
  lemma DigestWhenDue(db: Db, cfg: DigestSettings, nowLocal: int, recent: seq<DigestRow>,
                      isoDate: int -> string, user: string, hour: int, minute: int, window: int)
    requires DigestEnabled(cfg.enableEnv) || cfg.prefDay.Some? || cfg.prefTime.Some?
    requires WeekdayIndex(DigestDayName(cfg)) == Some(Weekday(nowLocal / Triggers.SecondsPerDay))
    requires DigestClock(cfg) == Some((hour, minute)) && DigestWindow(cfg) == Some(window)
    requires 0 <= hour < 24 && 0 <= minute < 60
    requires var day := nowLocal / Triggers.SecondsPerDay;
      var scheduled := day * Triggers.SecondsPerDay + hour * 3600 + minute * 60;
      scheduled <= nowLocal <= scheduled + window * 60
    requires db.lastDigestWeek != Some(WeekStart(nowLocal / Triggers.SecondsPerDay))
    ensures WeeklyDigest(db, cfg, nowLocal, recent, isoDate, user).0.Ready?
  {
  }

  /** An unknown day name never emits a digest. */
  lemma DigestUnknownDay(db: Db, cfg: DigestSettings, nowLocal: int, recent: seq<DigestRow>,
                         isoDate: int -> string, user: string)
    requires WeekdayIndex(DigestDayName(cfg)).None?
    ensures WeeklyDigest(db, cfg, nowLocal, recent, isoDate, user) == (NotDue, db)
  {
  }
}
