/** The working-memory updater: the CC test, the facts an analysed email
    adds (observations, pending decisions, commitments) and the update of
    the email row, all committed together or rolled back together. The
    analysis agent, the uuid generator and the clock are parameters. */
module WmUpdater {
  import opened Wrappers
  import opened Text
  import Facts

  // ---------------------------------------------------------------- types

  /** The email columns the updater reads; recipient lists are already
      decoded from their JSON text. */
  datatype WmEmail = WmEmail(
    id: string,
    subject: Option<string>,
    sender: Option<string>,
    toEmails: seq<string>,
    ccEmails: seq<string>,
    conversationId: Option<string>)

  /** The email columns the updater writes. */
  datatype EmailRow = EmailRow(
    bodyMarkdown: Option<string>,
    threadSummary: Option<string>,
    signatureBlock: Option<string>,
    suggestedAction: Option<string>,
    processedAt: Option<int>)

  datatype WmDb = WmDb(emails: map<string, EmailRow>, facts: Facts.FactTable)

  /** An observation as the agent returns it; None marks a missing key. */
  datatype Observation = Observation(obsType: Option<string>, content: Option<string>, confidence: Option<real>)

  /** A decision the sender asks of the user; None marks a missing key. */
  datatype DecisionRequest = DecisionRequest(question: Option<string>, context: Option<string>, deadline: Option<string>)

  /** A commitment the user made; None marks a missing key. */
  datatype Commitment = Commitment(description: Option<string>, dueBy: Option<string>)

  /** The content the email update writes back. */
  datatype ContentFields = ContentFields(
    extractedNewContent: Option<string>,
    threadSummary: Option<string>,
    signatureBlock: Option<string>,
    suggestedAction: Option<string>)

  /** The agent's analysis. `content` is None for an object of the
      analysis class as declared, which has no such attributes. */
  datatype Analysis = Analysis(
    observations: seq<Observation>,
    decisions: seq<DecisionRequest>,
    commitments: seq<Commitment>,
    content: Option<ContentFields>)

  /** The analysis used when the agent fails. */
  const EmptyAnalysis := Analysis([], [], [], None)

  const NoContent := ContentFields(None, None, None, None)

  // -------------------------------------------------------------- CC test

  function LowerAll(xs: seq<string>): (r: seq<string>)
    ensures |r| == |xs| && forall i :: 0 <= i < |xs| ==> r[i] == Lower(xs[i])
  {
    if |xs| == 0 then [] else [Lower(xs[0])] + LowerAll(xs[1..])
  }

  /** `is_user_cc`: the user, ignoring case, is among the CC recipients and
      not among the direct ones. */
  function IsUserCc(user: string, email: WmEmail): (r: bool)
    ensures r <==> (exists i :: 0 <= i < |email.ccEmails| && Lower(email.ccEmails[i]) == Lower(user))
                   && (forall i :: 0 <= i < |email.toEmails| ==> Lower(email.toEmails[i]) != Lower(user))
  {
    var u := Lower(user);
    var cc := LowerAll(email.ccEmails);
    var to := LowerAll(email.toEmails);
    assert u in cc <==> exists i :: 0 <= i < |email.ccEmails| && Lower(email.ccEmails[i]) == u by {
      if u in cc {
        var i :| 0 <= i < |cc| && cc[i] == u;
        assert Lower(email.ccEmails[i]) == u;
      }
    }
    assert u in to <==> exists i :: 0 <= i < |email.toEmails| && Lower(email.toEmails[i]) == u by {
      if u in to {
        var i :| 0 <= i < |to| && to[i] == u;
        assert Lower(email.toEmails[i]) == u;
      }
    }
    u in cc && u !in to
  }

  /** The CC test does not depend on how the user's address is cased. */
  lemma CcIgnoresUserCase(user: string, email: WmEmail)
    ensures IsUserCc(Lower(user), email) == IsUserCc(user, email)
  {
    LowerIdempotent(user);
  }

  // -------------------------------------------------------- facts written

  const ContextLearned := "context_learned"
  const CommitmentMade := "commitment_made"

  /** The observation-type to fact-type table, "preference" by default. */
  function ObservationFactType(obsType: string): string {
    if obsType == "person_introduced" then "relationship"
    else if obsType == "meeting_scheduled" || obsType == "project_mention" || obsType == "deadline_mentioned" then "pattern"
    else if obsType == CommitmentMade then "commitment"
    else "preference"
  }

  /** The type of an observation, "context_learned" when the key is missing. */
  function TypeOf(o: Observation): string {
    o.obsType.UnwrapOr(ContextLearned)
  }

  /** Python's rendering of an optional value in an f-string. */
  function Shown(x: Option<string>): string {
    if x.Some? then x.value else "None"
  }

  /** The observations recorded: a CC email the agent found nothing in gets
      one generic `context_learned` observation about its thread. */
  function EffectiveObservations(isCc: bool, email: WmEmail, obs: seq<Observation>): (r: seq<Observation>)
    ensures |obs| > 0 ==> r == obs
    ensures isCc && |obs| == 0 ==> |r| == 1 && TypeOf(r[0]) == ContextLearned
    ensures !isCc && |obs| == 0 ==> r == []
  {
    if isCc && |obs| == 0 then [Observation(Some(ContextLearned), Some("Observed thread: " + Shown(email.subject)), None)]
    else obs
  }

  /** The row an observation becomes. */
  function ObservationRow(email: WmEmail, o: Observation, now: int): Facts.FactRow {
    Facts.FactRow("email", email.id, ObservationFactType(TypeOf(o)), o.content.UnwrapOr(""), None,
                  o.confidence.UnwrapOr(0.5), None, None, Facts.Active, None, now)
  }

  /** The rows the observations become; `commitment_made` observations are
      skipped (commitments have their own list). */
  function ObservationRows(email: WmEmail, obs: seq<Observation>, now: int): (r: seq<Facts.FactRow>)
    ensures |r| <= |obs|
    ensures forall k :: 0 <= k < |r| ==>
      r[k].status == Facts.Active && r[k].factType in {"preference", "relationship", "pattern"}
    ensures forall o :: o in obs && TypeOf(o) != CommitmentMade ==> ObservationRow(email, o, now) in r
    ensures forall row :: row in r ==>
      exists o :: o in obs && TypeOf(o) != CommitmentMade && row == ObservationRow(email, o, now)
  {
    if |obs| == 0 then []
    else if TypeOf(obs[0]) == CommitmentMade then ObservationRows(email, obs[1..], now)
    else [ObservationRow(email, obs[0], now)] + ObservationRows(email, obs[1..], now)
  }

  /** The rows keep the observations' order: the rows of two runs of
      observations are the rows of the first followed by those of the second. */
  lemma {:induction false} ObservationRowsAppend(email: WmEmail, a: seq<Observation>, b: seq<Observation>, now: int)
    ensures ObservationRows(email, a + b, now) == ObservationRows(email, a, now) + ObservationRows(email, b, now)
    decreases |a|
  {
    if |a| > 0 {
      assert (a + b)[0] == a[0] && (a + b)[1..] == a[1..] + b;
      ObservationRowsAppend(email, a[1..], b, now);
    } else {
      assert a + b == b;
    }
  }

  /** The observation types map through the fixed table, "preference" for
      any other type, and `commitment_made` observations give no row. */
  lemma ObservationTypeTable(email: WmEmail, o: Observation, now: int)
    ensures ObservationFactType("context_learned") == "preference"
    ensures ObservationFactType("person_introduced") == "relationship"
    ensures ObservationFactType("meeting_scheduled") == "pattern"
    ensures ObservationFactType("status_update") == "preference"
    ensures ObservationFactType("project_mention") == "pattern"
    ensures ObservationFactType("decision_made") == "preference"
    ensures ObservationFactType("deadline_mentioned") == "pattern"
    ensures TypeOf(o) !in {"context_learned", "person_introduced", "meeting_scheduled", "status_update",
                           "project_mention", "decision_made", "deadline_mentioned", "commitment_made"}
            ==> ObservationRows(email, [o], now) == [ObservationRow(email, o, now)]
                && ObservationRow(email, o, now).factType == "preference"
    ensures TypeOf(o) == "commitment_made" ==> ObservationRows(email, [o], now) == []
  {
    assert [o][1..] == [];
  }

  function DecisionRow(email: WmEmail, d: DecisionRequest, now: int): Facts.FactRow {
    Facts.FactRow("email", email.id, "decision", d.question.UnwrapOr(""), Some(d.context.UnwrapOr("")),
                  0.9, None, d.deadline, Facts.Active, None, now)
  }

  function DecisionRows(email: WmEmail, ds: seq<DecisionRequest>, now: int): (r: seq<Facts.FactRow>)
    ensures |r| == |ds| && forall k :: 0 <= k < |r| ==> r[k] == DecisionRow(email, ds[k], now)
  {
    if |ds| == 0 then [] else [DecisionRow(email, ds[0], now)] + DecisionRows(email, ds[1..], now)
  }

  function CommitmentRow(email: WmEmail, c: Commitment, now: int): Facts.FactRow {
    Facts.FactRow("email", email.id, "commitment", c.description.UnwrapOr(""), None,
                  0.9, None, c.dueBy, Facts.Active, None, now)
  }

  function CommitmentRows(email: WmEmail, cs: seq<Commitment>, now: int): (r: seq<Facts.FactRow>)
    ensures |r| == |cs| && forall k :: 0 <= k < |r| ==> r[k] == CommitmentRow(email, cs[k], now)
  {
    if |cs| == 0 then [] else [CommitmentRow(email, cs[0], now)] + CommitmentRows(email, cs[1..], now)
  }

  /** Every row inserted for an email, in insertion order: observations
      (when the email is CC or the agent returned some), decisions (only
      for a direct email), then commitments. */
  function NewFacts(isCc: bool, email: WmEmail, a: Analysis, now: int): seq<Facts.FactRow> {
    (if isCc || |a.observations| > 0 then ObservationRows(email, EffectiveObservations(isCc, email, a.observations), now)
     else [])
    + (if isCc then [] else DecisionRows(email, a.decisions, now))
    + CommitmentRows(email, a.commitments, now)
  }

  /** Every row the updater inserts is active, comes from this email, and
      was extracted now. */
  lemma NewFactsActive(isCc: bool, email: WmEmail, a: Analysis, now: int)
    ensures forall row :: row in NewFacts(isCc, email, a, now) ==>
      row.status == Facts.Active && row.sourceType == "email" && row.sourceId == email.id
      && row.extractedAt == now && row.resolvedAt.None?
  {
    var obs := if isCc || |a.observations| > 0 then ObservationRows(email, EffectiveObservations(isCc, email, a.observations), now)
               else [];
    var ds := if isCc then [] else DecisionRows(email, a.decisions, now);
    var cs := CommitmentRows(email, a.commitments, now);
    assert NewFacts(isCc, email, a, now) == obs + ds + cs;
    ObservationRowsSource(email, EffectiveObservations(isCc, email, a.observations), now);
  }

  lemma {:induction false} ObservationRowsSource(email: WmEmail, obs: seq<Observation>, now: int)
    ensures forall row :: row in ObservationRows(email, obs, now) ==>
      row.status == Facts.Active && row.sourceType == "email" && row.sourceId == email.id
      && row.extractedAt == now && row.resolvedAt.None?
  {
    if |obs| > 0 {
      ObservationRowsSource(email, obs[1..], now);
    }
  }

  /** A CC email never records a decision; a direct email records one row
      per requested decision. Commitments are recorded either way. */
  lemma DecisionsOnlyWhenDirect(isCc: bool, email: WmEmail, a: Analysis, now: int)
    ensures isCc ==> forall row :: row in NewFacts(isCc, email, a, now) ==> row.factType != "decision"
    ensures forall c :: c in a.commitments ==> CommitmentRow(email, c, now) in NewFacts(isCc, email, a, now)
    ensures !isCc ==> forall d :: d in a.decisions ==> DecisionRow(email, d, now) in NewFacts(isCc, email, a, now)
  {
    var obs := if isCc || |a.observations| > 0 then ObservationRows(email, EffectiveObservations(isCc, email, a.observations), now)
               else [];
    var ds := if isCc then [] else DecisionRows(email, a.decisions, now);
    var cs := CommitmentRows(email, a.commitments, now);
    assert NewFacts(isCc, email, a, now) == obs + ds + cs;
    forall c | c in a.commitments
      ensures CommitmentRow(email, c, now) in NewFacts(isCc, email, a, now)
    {
      var k :| 0 <= k < |a.commitments| && a.commitments[k] == c;
      assert cs[k] == CommitmentRow(email, c, now);
    }
    if !isCc {
      forall d | d in a.decisions
        ensures DecisionRow(email, d, now) in NewFacts(isCc, email, a, now)
      {
        var k :| 0 <= k < |a.decisions| && a.decisions[k] == d;
        assert ds[k] == DecisionRow(email, d, now);
      }
    }
  }

  /** A CC email the agent found nothing in gets exactly one row: a
      `preference` fact about the thread. */
  lemma CcWithoutObservations(email: WmEmail, a: Analysis, now: int)
    requires a.observations == [] && a.commitments == []
    ensures NewFacts(true, email, a, now)
      == [Facts.FactRow("email", email.id, "preference", "Observed thread: " + Shown(email.subject), None,
                        0.5, None, None, Facts.Active, None, now)]
  {
    var obs := EffectiveObservations(true, email, a.observations);
    assert ObservationRows(email, obs, now) == [ObservationRow(email, obs[0], now)];
  }

  // ------------------------------------------------------------ inserting

  /** The uuids `uuid(k) .. uuid(k + n - 1)` are distinct and new to the table. */
  predicate FreshUuids(table: Facts.FactTable, uuid: nat -> string, k: nat, n: nat) {
    (forall i :: k <= i < k + n ==> uuid(i) !in table)
    && (forall i, j :: k <= i < j < k + n ==> uuid(i) != uuid(j))
  }

  /** Inserts `rows[i]` under `uuid(k + i)`; an id already taken raises
      the integrity error that rolls the whole email back. */
  function InsertRows(table: Facts.FactTable, rows: seq<Facts.FactRow>, uuid: nat -> string, k: nat)
    : (r: Result<Facts.FactTable>)
    ensures FreshUuids(table, uuid, k, |rows|) ==> r.Success?
    ensures r.Success? ==> table.Keys <= r.value.Keys && forall id :: id in table ==> r.value[id] == table[id]
    ensures r.Success? ==> forall i :: k <= i < k + |rows| ==> uuid(i) !in table && uuid(i) in r.value && r.value[uuid(i)] == rows[i - k]
    ensures r.Success? ==> forall id :: id in r.value && id !in table ==> r.value[id] in rows
    decreases |rows|
  {
    if |rows| == 0 then Success(table)
    else if uuid(k) in table then Failure("UNIQUE constraint failed: facts.id")
    else
      var t1 := table[uuid(k) := rows[0]];
      assert FreshUuids(table, uuid, k, |rows|) ==> FreshUuids(t1, uuid, k + 1, |rows| - 1);
      var rest := InsertRows(t1, rows[1..], uuid, k + 1);
      if rest.Success? then
        InsertStep(table, rows, uuid, k, rest.value);
        Success(rest.value)
      else rest
  }

  /** The first row stored and the rest inserted on top: together, every
      row is inserted. */
  lemma InsertStep(table: Facts.FactTable, rows: seq<Facts.FactRow>, uuid: nat -> string, k: nat, t: Facts.FactTable)
    requires |rows| > 0 && uuid(k) !in table
    requires var t1 := table[uuid(k) := rows[0]];
      t1.Keys <= t.Keys && (forall id :: id in t1 ==> t[id] == t1[id])
      && (forall i :: k + 1 <= i < k + |rows| ==> uuid(i) !in t1 && uuid(i) in t && t[uuid(i)] == rows[1..][i - (k + 1)])
      && (forall id :: id in t && id !in t1 ==> t[id] in rows[1..])
    ensures table.Keys <= t.Keys && forall id :: id in table ==> t[id] == table[id]
    ensures forall i :: k <= i < k + |rows| ==> uuid(i) !in table && uuid(i) in t && t[uuid(i)] == rows[i - k]
    ensures forall id :: id in t && id !in table ==> t[id] in rows
  {
    var t1 := table[uuid(k) := rows[0]];
    forall i | k <= i < k + |rows|
      ensures uuid(i) !in table && uuid(i) in t && t[uuid(i)] == rows[i - k]
    {
      if i > k {
        assert rows[1..][i - (k + 1)] == rows[i - k];
      }
    }
    forall id | id in t && id !in table
      ensures t[id] in rows
    {
      if id !in t1 {
        var x := t[id];
        assert x in rows[1..];
      }
    }
  }

  // ---------------------------------------------------------- email update

  /** The email update: extracted content and signature overwrite only when
      present, the summary and suggested action are always overwritten, and
      `processed_at` is set only when it is still empty. */
  function UpdateRow(row: EmailRow, c: ContentFields, now: int): (r: EmailRow)
    ensures r.processedAt == (if row.processedAt.Some? then row.processedAt else Some(now))
    ensures r.bodyMarkdown == (if c.extractedNewContent.Some? then c.extractedNewContent else row.bodyMarkdown)
    ensures r.signatureBlock == (if c.signatureBlock.Some? then c.signatureBlock else row.signatureBlock)
    ensures r.threadSummary == c.threadSummary && r.suggestedAction == c.suggestedAction
  {
    EmailRow(if c.extractedNewContent.Some? then c.extractedNewContent else row.bodyMarkdown,
             c.threadSummary,
             if c.signatureBlock.Some? then c.signatureBlock else row.signatureBlock,
             c.suggestedAction,
             if row.processedAt.Some? then row.processedAt else Some(now))
  }

  /** Once set, `processed_at` never changes, however often the email is
      updated again. */
  lemma ProcessedAtStable(row: EmailRow, c1: ContentFields, c2: ContentFields, t1: int, t2: int)
    ensures UpdateRow(UpdateRow(row, c1, t1), c2, t2).processedAt == UpdateRow(row, c1, t1).processedAt
    ensures UpdateRow(row, c1, t1).processedAt.Some?
  {
  }

  /** The `UPDATE ... WHERE id = ?`: a missing row is left missing. */
  function UpdateEmail(emails: map<string, EmailRow>, id: string, c: ContentFields, now: int)
    : (r: map<string, EmailRow>)
    ensures r.Keys == emails.Keys
    ensures forall other :: other in emails && other != id ==> r[other] == emails[other]
    ensures id in emails ==> r[id] == UpdateRow(emails[id], c, now)
  {
    if id in emails then emails[id := UpdateRow(emails[id], c, now)] else emails
  }

  // ------------------------------------------------------------- process

  /** `process_email` with the analysis fields read as optional (absent
      means None): `analysis` is None when the agent fails. All inserts and
      the email update commit together; an insert that fails rolls back
      everything. */
  function ProcessEmail(db: WmDb, user: string, email: WmEmail, analysis: Option<Analysis>,
                        uuid: nat -> string, now: int): (r: WmDb)
    ensures var a := analysis.UnwrapOr(EmptyAnalysis);
      var rows := NewFacts(IsUserCc(user, email), email, a, now);
      && (r == db || r.emails == UpdateEmail(db.emails, email.id, a.content.UnwrapOr(NoContent), now))
      && (FreshUuids(db.facts, uuid, 0, |rows|) ==>
            r.emails == UpdateEmail(db.emails, email.id, a.content.UnwrapOr(NoContent), now))
      && db.facts.Keys <= r.facts.Keys
      && (forall id :: id in db.facts ==> r.facts[id] == db.facts[id])
      && (forall id :: id in r.facts && id !in db.facts ==> r.facts[id] in rows)
      && (r.facts != db.facts ==> r.emails == UpdateEmail(db.emails, email.id, a.content.UnwrapOr(NoContent), now))
  {
    var a := analysis.UnwrapOr(EmptyAnalysis);
    var rows := NewFacts(IsUserCc(user, email), email, a, now);
    var inserted := InsertRows(db.facts, rows, uuid, 0);
    if inserted.Failure? then db
    else WmDb(UpdateEmail(db.emails, email.id, a.content.UnwrapOr(NoContent), now), inserted.value)
  }

  /** With fresh uuids every row is stored under its uuid and the email is
      marked processed, also when the agent failed. */
  lemma ProcessEmailCommits(db: WmDb, user: string, email: WmEmail, analysis: Option<Analysis>,
                            uuid: nat -> string, now: int)
    requires FreshUuids(db.facts, uuid, 0, |NewFacts(IsUserCc(user, email), email, analysis.UnwrapOr(EmptyAnalysis), now)|)
    requires email.id in db.emails
    ensures var rows := NewFacts(IsUserCc(user, email), email, analysis.UnwrapOr(EmptyAnalysis), now);
      var r := ProcessEmail(db, user, email, analysis, uuid, now);
      (forall i :: 0 <= i < |rows| ==> uuid(i) in r.facts && r.facts[uuid(i)] == rows[i])
      && r.emails[email.id].processedAt.Some?
      && (db.emails[email.id].processedAt.Some? ==> r.emails[email.id].processedAt == db.emails[email.id].processedAt)
  {
  }

  /** `process_email` as written: the analysis class as declared has no
      content attributes, so reading them raises, the handler rolls back,
      and nothing is stored. */
  function ProcessEmailAsWritten(db: WmDb, user: string, email: WmEmail, analysis: Option<Analysis>,
                                 uuid: nat -> string, now: int): (r: WmDb)
    ensures analysis.UnwrapOr(EmptyAnalysis).content.Some? ==> r == ProcessEmail(db, user, email, analysis, uuid, now)
    ensures analysis.UnwrapOr(EmptyAnalysis).content.None? ==> r == db
  {
    var a := analysis.UnwrapOr(EmptyAnalysis);
    var rows := NewFacts(IsUserCc(user, email), email, a, now);
    var inserted := InsertRows(db.facts, rows, uuid, 0);
    if inserted.Failure? then db
    else if a.content.None? then db
    else WmDb(UpdateEmail(db.emails, email.id, a.content.value, now), inserted.value)
  }

  /** When the agent fails, the code as written stores nothing, not even
      the CC observation, and leaves `processed_at` empty; the corrected
      update stores the observation and marks the email processed. */
  lemma AgentFailureLosesUpdate(db: WmDb, user: string, email: WmEmail, uuid: nat -> string, now: int)
    requires IsUserCc(user, email) && email.id in db.emails && db.emails[email.id].processedAt.None?
    requires uuid(0) !in db.facts
    ensures ProcessEmailAsWritten(db, user, email, None, uuid, now) == db
    ensures ProcessEmail(db, user, email, None, uuid, now).emails[email.id].processedAt == Some(now)
    ensures uuid(0) in ProcessEmail(db, user, email, None, uuid, now).facts
  {
    CcWithoutObservations(email, EmptyAnalysis, now);
  }
}
