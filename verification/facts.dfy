/** Fact extraction and the facts table: the length guard in front of the
    extraction agent, the prompt it is given, storing extracted facts as
    active rows under fresh ids, and resolving a fact. The agent, the uuid
    generator and the database's insert failures are parameters. */
module Facts {
  import opened Wrappers
  import opened Text

  // ---------------------------------------------------------------- types

  datatype FactType =
    | Decision | Commitment | ActionItem
    | TaxId | BusinessNumber | AccountNumber | Amount | Address | Phone | Deadline
    | PersonName | CompanyName | ContractNumber
    | Preference | Relationship | Pattern
    | OtherFact

  /** The enum value stored in the `fact_type` column. */
  function FactTypeName(t: FactType): string {
    match t
    case Decision => "decision"
    case Commitment => "commitment"
    case ActionItem => "action_item"
    case TaxId => "tax_id"
    case BusinessNumber => "business_number"
    case AccountNumber => "account_number"
    case Amount => "amount"
    case Address => "address"
    case Phone => "phone"
    case Deadline => "deadline"
    case PersonName => "person_name"
    case CompanyName => "company_name"
    case ContractNumber => "contract_number"
    case Preference => "preference"
    case Relationship => "relationship"
    case Pattern => "pattern"
    case OtherFact => "other"
  }

  /** A fact as the extraction agent returns it. */
  datatype ExtractedFact = ExtractedFact(
    factType: FactType,
    value: string,
    context: Option<string>,
    confidence: real,
    entityNormalized: Option<string>,
    dueDate: Option<string>)

  datatype FactStatus = Active | Resolved | Expired

  /** A row of the `facts` table. */
  datatype FactRow = FactRow(
    sourceType: string,
    sourceId: string,
    factType: string,
    value: string,
    context: Option<string>,
    confidence: real,
    entityNormalized: Option<string>,
    dueDate: Option<string>,
    status: FactStatus,
    resolvedAt: Option<int>,
    extractedAt: int)

  /** The `facts` table by its primary key. */
  type FactTable = map<string, FactRow>

  // ----------------------------------------------------------- extraction

  /** Content shorter than this, once stripped, is not sent to the agent. */
  const MinContentLength: nat := 50
  /** Attachment text beyond this many characters is cut off. */
  const MaxAttachmentText: nat := 10000

  /** The extraction agent: a prompt in, facts or an error out. */
  type Agent = string -> Result<seq<ExtractedFact>>

  predicate TooShort(text: string) {
    |Strip(text)| < MinContentLength
  }

  /** Header lines for the present, non-empty context values. */
  function ContextLines(labelled: seq<(string, Option<string>)>): (r: seq<string>)
    ensures |r| <= |labelled|
  {
    if |labelled| == 0 then []
    else
      var (name, v) := labelled[0];
      (if v.Some? && v.value != "" then [name + v.value] else []) + ContextLines(labelled[1..])
  }

  /** The prompt: context lines, an empty line, then the content. */
  function Prompt(header: seq<string>, content: string): string {
    JoinWith(header + ["", content], "\n")
  }

  function EmailPrompt(body: string, subject: Option<string>, sender: Option<string>): string {
    Prompt(ContextLines([("Subject: ", subject), ("From: ", sender)]), body)
  }

  function Truncate(text: string): (r: string)
    ensures |r| <= MaxAttachmentText
    ensures r <= text
    ensures |text| <= MaxAttachmentText ==> r == text
  {
    if |text| > MaxAttachmentText then text[..MaxAttachmentText] else text
  }

  function AttachmentPrompt(text: string, filename: Option<string>): string {
    Prompt(ContextLines([("Document: ", filename)]), Truncate(text))
  }

  /** The agent's facts, or none when it fails. */
  function AskAgent(agent: Agent, prompt: string): seq<ExtractedFact> {
    var res := agent(prompt);
    if res.Success? then res.value else []
  }

  /** `extract_from_email`: empty or short bodies never reach the agent. */
  function ExtractFromEmail(body: string, subject: Option<string>, sender: Option<string>, agent: Agent)
    : (r: seq<ExtractedFact>)
    ensures TooShort(body) ==> r == []
    ensures !TooShort(body) && agent(EmailPrompt(body, subject, sender)).Failure? ==> r == []
    ensures !TooShort(body) && agent(EmailPrompt(body, subject, sender)).Success? ==>
      r == agent(EmailPrompt(body, subject, sender)).value
  {
    if body == [] || TooShort(body) then [] else AskAgent(agent, EmailPrompt(body, subject, sender))
  }

  /** `extract_from_attachment`: the same guard, and at most the first
      10000 characters of the text go into the prompt. */
  function ExtractFromAttachment(text: string, filename: Option<string>, agent: Agent)
    : (r: seq<ExtractedFact>)
    ensures TooShort(text) ==> r == []
    ensures !TooShort(text) && agent(AttachmentPrompt(text, filename)).Failure? ==> r == []
    ensures !TooShort(text) && agent(AttachmentPrompt(text, filename)).Success? ==>
      r == agent(AttachmentPrompt(text, filename)).value
  {
    if text == [] || TooShort(text) then [] else AskAgent(agent, AttachmentPrompt(text, filename))
  }

  /** Joining context lines, an empty part and the content. */
  lemma JoinShape(header: seq<string>, content: string, sep: string)
    ensures |header| == 0 ==> JoinWith(header + ["", content], sep) == sep + content
    ensures |header| > 0 ==> JoinWith(header + ["", content], sep) == JoinWith(header, sep) + sep + sep + content
  {
    if |header| == 0 {
      assert header + ["", content] == ["", content];
      assert ["", content][1..] == [content];
    } else {
      JoinShapeNonEmpty(header, content, sep);
    }
  }

  lemma JoinShapeNonEmpty(header: seq<string>, content: string, sep: string)
    requires |header| > 0
    ensures JoinWith(header + ["", content], sep) == JoinWith(header, sep) + sep + sep + content
  {
    var withEmpty := header + [""];
    JoinWithSnoc(header, "", sep);
    assert JoinWith(withEmpty, sep) == JoinWith(header, sep) + sep;
    JoinWithSnoc(withEmpty, content, sep);
    assert header + ["", content] == withEmpty + [content];
  }

  /** The prompt always ends with the content after a line break, and the
      context lines come first. */
  lemma PromptShape(header: seq<string>, content: string)
    ensures |header| == 0 ==> Prompt(header, content) == "\n" + content
    ensures |header| > 0 ==> Prompt(header, content) == JoinWith(header, "\n") + "\n\n" + content
  {
    JoinShape(header, content, "\n");
  }

  /** With a subject and a sender the email prompt is the two header lines,
      a blank line and the whole body. */
  lemma EmailPromptWithContext(body: string, subject: string, sender: string)
    requires subject != [] && sender != []
    ensures EmailPrompt(body, Some(subject), Some(sender))
      == "Subject: " + subject + "\n" + "From: " + sender + "\n\n" + body
  {
    var lines := ContextLines([("Subject: ", Some(subject)), ("From: ", Some(sender))]);
    var rest := [("From: ", Some(sender))];
    assert [("Subject: ", Some(subject)), ("From: ", Some(sender))][1..] == rest;
    assert ContextLines(rest) == ["From: " + sender] + ContextLines(rest[1..]);
    assert lines == ["Subject: " + subject, "From: " + sender];
    assert JoinWith(lines, "\n") == "Subject: " + subject + "\n" + "From: " + sender;
    PromptShape(lines, body);
  }

  /** The agent sees a prefix of the attachment text no longer than the cap,
      placed at the end of the prompt. */
  lemma AttachmentPromptBounded(text: string, filename: Option<string>)
    ensures var p := AttachmentPrompt(text, filename);
      exists head: string :: p == head + Truncate(text)
    ensures |Truncate(text)| == if |text| > MaxAttachmentText then MaxAttachmentText else |text|
  {
    var header := ContextLines([("Document: ", filename)]);
    PromptShape(header, Truncate(text));
    if |header| == 0 {
      assert AttachmentPrompt(text, filename) == "\n" + Truncate(text);
    } else {
      assert AttachmentPrompt(text, filename) == (JoinWith(header, "\n") + "\n\n") + Truncate(text);
    }
  }

  // -------------------------------------------------------------- storing

  /** The row `store_facts` inserts for one extracted fact; `now` stands
      for the table's default insert time. */
  function NewRow(sourceType: string, sourceId: string, f: ExtractedFact, now: int): (row: FactRow)
    ensures row.status == Active && row.resolvedAt.None? && row.extractedAt == now
    ensures row.sourceType == sourceType && row.sourceId == sourceId
    ensures row.factType == FactTypeName(f.factType) && row.value == f.value && row.dueDate == f.dueDate
  {
    FactRow(sourceType, sourceId, FactTypeName(f.factType), f.value, f.context, f.confidence,
            f.entityNormalized, f.dueDate, Active, None, now)
  }

  /** Number of facts the database accepts. */
  function AcceptedCount(facts: seq<ExtractedFact>, accepts: ExtractedFact -> bool): (n: nat)
    ensures n <= |facts|
  {
    if |facts| == 0 then 0 else (if accepts(facts[0]) then 1 else 0) + AcceptedCount(facts[1..], accepts)
  }

  /** `store_facts`: each fact is inserted as an active row under the next
      fresh id; an insert that fails (the id is taken, or the database
      rejects the row) is skipped. Returns the number of rows stored and the
      table. `ids` are the uuids drawn, one per fact. */
  function StoreFacts(table: FactTable, sourceType: string, sourceId: string,
                      facts: seq<ExtractedFact>, ids: seq<string>, accepts: ExtractedFact -> bool, now: int)
    : (r: (nat, FactTable))
    requires |ids| == |facts|
    ensures facts == [] ==> r == (0, table)
    ensures r.0 <= |facts|
    ensures table.Keys <= r.1.Keys && |r.1.Keys| == |table.Keys| + r.0
    ensures forall id :: id in table ==> r.1[id] == table[id]
    ensures forall id :: id in r.1 && id !in table ==> id in ids
    ensures forall id :: id in r.1 && id !in table ==>
      r.1[id].status == Active && r.1[id].sourceType == sourceType && r.1[id].sourceId == sourceId
      && r.1[id].extractedAt == now
    decreases |facts|
  {
    if |facts| == 0 then (0, table)
    else
      var ok := ids[0] !in table && accepts(facts[0]);
      var t1 := if ok then table[ids[0] := NewRow(sourceType, sourceId, facts[0], now)] else table;
      AddKeyCard(table, ids[0], NewRow(sourceType, sourceId, facts[0], now));
      var rest := StoreFacts(t1, sourceType, sourceId, facts[1..], ids[1..], accepts, now);
      ((if ok then 1 else 0) + rest.0, rest.1)
  }

  /** Inserting a new key adds exactly one key. */
  lemma AddKeyCard(table: FactTable, k: string, row: FactRow)
    ensures k !in table ==> table.Keys <= table[k := row].Keys && |table[k := row].Keys| == |table.Keys| + 1
  {
    assert table[k := row].Keys == table.Keys + {k};
  }

  /** The uuids are new to the table and pairwise distinct. */
  predicate FreshIds(table: FactTable, ids: seq<string>) {
    (forall j :: 0 <= j < |ids| ==> ids[j] !in table)
    && (forall i, j :: 0 <= i < j < |ids| ==> ids[i] != ids[j])
  }

  /** With fresh uuids, exactly the facts the database accepts are stored,
      each as an active row of its own content under its own id. */
  lemma StoreFactsFresh(table: FactTable, sourceType: string, sourceId: string,
                        facts: seq<ExtractedFact>, ids: seq<string>,
                        accepts: ExtractedFact -> bool, now: int)
    requires |ids| == |facts| && FreshIds(table, ids)
    ensures StoreFacts(table, sourceType, sourceId, facts, ids, accepts, now).0 == AcceptedCount(facts, accepts)
    ensures forall j :: 0 <= j < |facts| ==>
      (ids[j] in StoreFacts(table, sourceType, sourceId, facts, ids, accepts, now).1 <==> accepts(facts[j]))
    ensures forall j :: 0 <= j < |facts| && accepts(facts[j]) ==>
      StoreFacts(table, sourceType, sourceId, facts, ids, accepts, now).1[ids[j]] == NewRow(sourceType, sourceId, facts[j], now)
  {
    StoreFactsCount(table, sourceType, sourceId, facts, ids, accepts, now);
    StoreFactsRows(table, sourceType, sourceId, facts, ids, accepts, now);
  }

  /** Every id stored is counted, and only accepted facts are stored. */
  lemma {:induction false} StoreFactsCount(table: FactTable, sourceType: string, sourceId: string,
                                           facts: seq<ExtractedFact>, ids: seq<string>,
                                           accepts: ExtractedFact -> bool, now: int)
    requires |ids| == |facts| && FreshIds(table, ids)
    ensures StoreFacts(table, sourceType, sourceId, facts, ids, accepts, now).0 == AcceptedCount(facts, accepts)
    decreases |facts|
  {
    if |facts| > 0 {
      var ok := accepts(facts[0]);
      var t1 := if ok then table[ids[0] := NewRow(sourceType, sourceId, facts[0], now)] else table;
      FreshTail(table, ids, NewRow(sourceType, sourceId, facts[0], now));
      StoreFactsCount(t1, sourceType, sourceId, facts[1..], ids[1..], accepts, now);
    }
  }

  /** Each accepted fact's row, and no other, is stored under its id. */
  lemma {:induction false} StoreFactsRows(table: FactTable, sourceType: string, sourceId: string,
                                          facts: seq<ExtractedFact>, ids: seq<string>,
                                          accepts: ExtractedFact -> bool, now: int)
    requires |ids| == |facts| && FreshIds(table, ids)
    ensures forall j :: 0 <= j < |facts| ==>
      (ids[j] in StoreFacts(table, sourceType, sourceId, facts, ids, accepts, now).1 <==> accepts(facts[j]))
    ensures forall j :: 0 <= j < |facts| && accepts(facts[j]) ==>
      StoreFacts(table, sourceType, sourceId, facts, ids, accepts, now).1[ids[j]] == NewRow(sourceType, sourceId, facts[j], now)
    decreases |facts|
  {
    if |facts| > 0 {
      var ok := accepts(facts[0]);
      var t1 := if ok then table[ids[0] := NewRow(sourceType, sourceId, facts[0], now)] else table;
      FreshTail(table, ids, NewRow(sourceType, sourceId, facts[0], now));
      StoreFactsRows(t1, sourceType, sourceId, facts[1..], ids[1..], accepts, now);
      StoreFactsHead(table, sourceType, sourceId, facts, ids, accepts, now);
      var r := StoreFacts(table, sourceType, sourceId, facts, ids, accepts, now).1;
      assert r == StoreFacts(t1, sourceType, sourceId, facts[1..], ids[1..], accepts, now).1;
      RowsFromTail(r, sourceType, sourceId, facts, ids, accepts, now);
    }
  }

  /** The rows claim for all facts from the claim for the first and the rest. */
  lemma RowsFromTail(r: FactTable, sourceType: string, sourceId: string,
                     facts: seq<ExtractedFact>, ids: seq<string>, accepts: ExtractedFact -> bool, now: int)
    requires |ids| == |facts| > 0
    requires (ids[0] in r <==> accepts(facts[0]))
             && (accepts(facts[0]) ==> r[ids[0]] == NewRow(sourceType, sourceId, facts[0], now))
    requires forall j :: 0 <= j < |facts[1..]| ==> (ids[1..][j] in r <==> accepts(facts[1..][j]))
    requires forall j :: 0 <= j < |facts[1..]| && accepts(facts[1..][j]) ==>
               r[ids[1..][j]] == NewRow(sourceType, sourceId, facts[1..][j], now)
    ensures forall j :: 0 <= j < |facts| ==> (ids[j] in r <==> accepts(facts[j]))
    ensures forall j :: 0 <= j < |facts| && accepts(facts[j]) ==> r[ids[j]] == NewRow(sourceType, sourceId, facts[j], now)
  {
    forall j | 1 <= j < |facts|
      ensures ids[j] in r <==> accepts(facts[j])
      ensures accepts(facts[j]) ==> r[ids[j]] == NewRow(sourceType, sourceId, facts[j], now)
    {
      assert ids[1..][j - 1] == ids[j] && facts[1..][j - 1] == facts[j];
    }
  }

  /** The remaining ids stay fresh once the first is inserted. */
  lemma FreshTail(table: FactTable, ids: seq<string>, row: FactRow)
    requires |ids| > 0 && FreshIds(table, ids)
    ensures FreshIds(table, ids[1..]) && FreshIds(table[ids[0] := row], ids[1..])
  {
    forall j | 0 <= j < |ids[1..]|
      ensures ids[1..][j] != ids[0] && ids[1..][j] !in table
    {
      assert ids[1..][j] == ids[j + 1];
    }
  }

  /** The first fact is stored, under its own id, exactly when it is accepted. */
  lemma StoreFactsHead(table: FactTable, sourceType: string, sourceId: string,
                       facts: seq<ExtractedFact>, ids: seq<string>, accepts: ExtractedFact -> bool, now: int)
    requires |ids| == |facts| && |facts| > 0 && FreshIds(table, ids)
    ensures var r := StoreFacts(table, sourceType, sourceId, facts, ids, accepts, now).1;
      (ids[0] in r <==> accepts(facts[0]))
      && (accepts(facts[0]) ==> r[ids[0]] == NewRow(sourceType, sourceId, facts[0], now))
  {
    var ok := accepts(facts[0]);
    var t1 := if ok then table[ids[0] := NewRow(sourceType, sourceId, facts[0], now)] else table;
    var rest := StoreFacts(t1, sourceType, sourceId, facts[1..], ids[1..], accepts, now);
    assert StoreFacts(table, sourceType, sourceId, facts, ids, accepts, now).1 == rest.1;
    if !ok {
      assert ids[0] !in ids[1..] by {
        forall k | 0 <= k < |ids[1..]|
          ensures ids[1..][k] != ids[0]
        {
          assert ids[1..][k] == ids[k + 1];
        }
      }
    }
  }

  // ------------------------------------------------------------ resolving

  /** `resolve_fact`: only an active fact with the id is marked resolved,
      stamped with `now`; the result says whether a row changed. */
  function ResolveFact(table: FactTable, id: string, now: int): (r: (bool, FactTable))
    ensures r.0 <==> id in table && table[id].status == Active
    ensures r.1.Keys == table.Keys
    ensures forall other :: other in table && other != id ==> r.1[other] == table[other]
    ensures r.0 ==> r.1[id] == table[id].(status := Resolved, resolvedAt := Some(now))
    ensures !r.0 ==> r.1 == table
  {
    if id in table && table[id].status == Active then
      (true, table[id := table[id].(status := Resolved, resolvedAt := Some(now))])
    else (false, table)
  }

  /** Resolving twice: the second call reports no update and changes nothing. */
  lemma ResolveIdempotent(table: FactTable, id: string, t1: int, t2: int)
    ensures var first := ResolveFact(table, id, t1);
      var second := ResolveFact(first.1, id, t2);
      !second.0 && second.1 == first.1
  {
  }

  /** Resolving never activates a row and keeps every row's content. */
  lemma ResolveOnlyRetires(table: FactTable, id: string, now: int)
    ensures var t := ResolveFact(table, id, now).1;
      forall x :: x in t ==>
        (t[x].status == Active ==> table[x].status == Active)
        && t[x].value == table[x].value && t[x].sourceId == table[x].sourceId
  {
  }
}
