/** The alert rule engine: wildcard patterns, the fast pre-filters for
    e-mail, working-memory and calendar events, the per-rule gate, the
    record kept when a rule fires, and the rule update whitelist. */
module Alerts {
  import opened Wrappers
  import opened Text
  import Triggers

  // ------------------------------------------------------------ patterns

  /** No line break in `v[lo..hi]`: the stretch a regex `.*` may cover. */
  predicate NoBreak(v: string, lo: int, hi: int) {
    forall j :: lo <= j < hi && 0 <= j < |v| ==> v[j] != '\n'
  }

  /** Meaning of the regex `p0.*p1.*...`, its pieces taken literally (the
      source escapes only `.`; see the README), continued at `from`: the next piece starts
      at some `i >= from` with no line break in between, and the remaining
      pieces follow it. */
  ghost predicate PiecesFrom(pieces: seq<string>, v: string, from: int)
    decreases |pieces|
  {
    |pieces| == 0 ||
    exists i :: from <= i && NoBreak(v, from, i) && OccursAt(v, pieces[0], i)
                && PiecesFrom(pieces[1..], v, i + |pieces[0]|)
  }

  /** `re.search` of that regex: the first piece may start anywhere. */
  ghost predicate RegexSearch(pieces: seq<string>, v: string)
    requires |pieces| >= 1
  {
    exists s :: OccursAt(v, pieces[0], s) && PiecesFrom(pieces[1..], v, s + |pieces[0]|)
  }

  /** Backtracking matcher for the pieces after the first: try the next
      piece at `i`, then at `i + 1`, ..., never stepping over a line break. */
  function Scan(pieces: seq<string>, v: string, i: nat): bool
    decreases |pieces|, |v| - i
  {
    if |pieces| == 0 then true
    else if i > |v| then false
    else (OccursAt(v, pieces[0], i) && Scan(pieces[1..], v, i + |pieces[0]|))
         || (i < |v| && v[i] != '\n' && Scan(pieces, v, i + 1))
  }

  lemma {:induction false} ScanSpec(pieces: seq<string>, v: string, i: nat)
    ensures Scan(pieces, v, i) <==> PiecesFrom(pieces, v, i)
    decreases |pieces|, |v| - i
  {
    if |pieces| == 0 || i > |v| {
      return;
    }
    var p := pieces[0];
    ScanSpec(pieces[1..], v, i + |p|);
    if i < |v| {
      ScanSpec(pieces, v, i + 1);
    }
    if Scan(pieces, v, i) {
      ScanSound(pieces, v, i);
    }
    if PiecesFrom(pieces, v, i) {
      var j := NextPiece(pieces, v, i);
      ScanComplete(pieces, v, i, j);
    }
  }

  /** Where `PiecesFrom` places the next piece. */
  lemma NextPiece(pieces: seq<string>, v: string, i: int) returns (j: int)
    requires |pieces| > 0 && PiecesFrom(pieces, v, i)
    ensures i <= j && NoBreak(v, i, j) && OccursAt(v, pieces[0], j) && PiecesFrom(pieces[1..], v, j + |pieces[0]|)
  {
    j :| i <= j && NoBreak(v, i, j) && OccursAt(v, pieces[0], j) && PiecesFrom(pieces[1..], v, j + |pieces[0]|);
  }

  /** The "if" step of `ScanSpec` at one position, given it below: the next
      piece found at `j`. */
  lemma ScanComplete(pieces: seq<string>, v: string, i: nat, j: int)
    requires |pieces| > 0 && i <= |v| && i <= j && NoBreak(v, i, j) && OccursAt(v, pieces[0], j)
    requires PiecesFrom(pieces[1..], v, j + |pieces[0]|)
    requires Scan(pieces[1..], v, i + |pieces[0]|) <==> PiecesFrom(pieces[1..], v, i + |pieces[0]|)
    requires i < |v| ==> (Scan(pieces, v, i + 1) <==> PiecesFrom(pieces, v, i + 1))
    ensures Scan(pieces, v, i)
  {
    if j != i {
      StepOver(pieces, v, i, j);
    }
  }

  /** A later start `j` for the next piece is also reachable from `i + 1`. */
  lemma StepOver(pieces: seq<string>, v: string, i: nat, j: int)
    requires |pieces| > 0 && i < j && NoBreak(v, i, j) && OccursAt(v, pieces[0], j)
    requires PiecesFrom(pieces[1..], v, j + |pieces[0]|)
    ensures i < |v| && v[i] != '\n' && PiecesFrom(pieces, v, i + 1)
  {
    assert NoBreak(v, i + 1, j);
  }

  /** The "only if" step of `ScanSpec` at one position, given it below. */
  lemma ScanSound(pieces: seq<string>, v: string, i: nat)
    requires |pieces| > 0 && i <= |v| && Scan(pieces, v, i)
    requires Scan(pieces[1..], v, i + |pieces[0]|) <==> PiecesFrom(pieces[1..], v, i + |pieces[0]|)
    requires i < |v| ==> (Scan(pieces, v, i + 1) <==> PiecesFrom(pieces, v, i + 1))
    ensures PiecesFrom(pieces, v, i)
  {
    var p := pieces[0];
    if OccursAt(v, p, i) && Scan(pieces[1..], v, i + |p|) {
      assert NoBreak(v, i, i);
    } else {
      var j :| i + 1 <= j && NoBreak(v, i + 1, j) && OccursAt(v, p, j)
               && PiecesFrom(pieces[1..], v, j + |p|);
      assert NoBreak(v, i, j);
    }
  }

  /** Tries the first piece at `s`, `s + 1`, ..., up to the end of `v`. */
  function SearchFrom(pieces: seq<string>, v: string, s: nat): bool
    requires |pieces| >= 1
    decreases |v| + 1 - s
  {
    if s > |v| then false
    else (OccursAt(v, pieces[0], s) && Scan(pieces[1..], v, s + |pieces[0]|))
         || SearchFrom(pieces, v, s + 1)
  }

  lemma {:induction false} SearchFromSpec(pieces: seq<string>, v: string, s: nat)
    requires |pieces| >= 1
    ensures SearchFrom(pieces, v, s) <==>
            exists t :: s <= t && OccursAt(v, pieces[0], t) && PiecesFrom(pieces[1..], v, t + |pieces[0]|)
    decreases |v| + 1 - s
  {
    var p := pieces[0];
    if s <= |v| {
      ScanSpec(pieces[1..], v, s + |p|);
      SearchFromSpec(pieces, v, s + 1);
      if SearchFrom(pieces, v, s) {
        if OccursAt(v, p, s) && Scan(pieces[1..], v, s + |p|) {
          assert PiecesFrom(pieces[1..], v, s + |p|);
        } else {
          assert SearchFrom(pieces, v, s + 1);
          var t :| s + 1 <= t && OccursAt(v, p, t) && PiecesFrom(pieces[1..], v, t + |p|);
          assert s <= t;
        }
      } else {
        forall t | s <= t && OccursAt(v, p, t)
          ensures !PiecesFrom(pieces[1..], v, t + |p|)
        {
          if t == s {
          } else {
            assert s + 1 <= t;
          }
        }
      }
    } else {
      forall t | s <= t
        ensures !OccursAt(v, p, t)
      {
      }
    }
  }

  lemma SearchSpec(pieces: seq<string>, v: string)
    requires |pieces| >= 1
    ensures SearchFrom(pieces, v, 0) <==> RegexSearch(pieces, v)
  {
    SearchFromSpec(pieces, v, 0);
  }

  /** `_pattern_matches`: case-insensitive; without `*` a substring test,
      with `*` an unanchored search of the glob turned into a regex. */
  function PatternMatches(pattern: string, value: string): (r: bool)
    ensures pattern == [] || value == [] ==> !r
    ensures pattern != [] && value != [] && Lacks(Lower(pattern), '*') ==>
              (r <==> Contains(Lower(value), Lower(pattern)))
    ensures pattern != [] && value != [] && !Lacks(Lower(pattern), '*') ==>
              (r <==> RegexSearch(Split(Lower(pattern), '*'), Lower(value)))
  {
    if pattern == [] || value == [] then false
    else
      var p := Lower(pattern);
      var v := Lower(value);
      if Lacks(p, '*') then Contains(v, p)
      else
        SearchSpec(Split(p, '*'), v);
        SearchFrom(Split(p, '*'), v, 0)
  }

  /** The pieces occur in order, each starting at or after `from`, with no
      restriction on what lies between them. */
  ghost predicate InOrder(pieces: seq<string>, v: string, from: int)
    decreases |pieces|
  {
    |pieces| == 0 ||
    exists i :: from <= i && OccursAt(v, pieces[0], i) && InOrder(pieces[1..], v, i + |pieces[0]|)
  }

  lemma {:induction false} PiecesFromInOrder(pieces: seq<string>, v: string, from: int)
    requires Lacks(v, '\n')
    ensures PiecesFrom(pieces, v, from) <==> InOrder(pieces, v, from)
    decreases |pieces|
  {
    if |pieces| > 0 {
      var p := pieces[0];
      if PiecesFrom(pieces, v, from) {
        var i :| from <= i && NoBreak(v, from, i) && OccursAt(v, p, i) && PiecesFrom(pieces[1..], v, i + |p|);
        PiecesFromInOrder(pieces[1..], v, i + |p|);
      }
      if InOrder(pieces, v, from) {
        var i :| from <= i && OccursAt(v, p, i) && InOrder(pieces[1..], v, i + |p|);
        PiecesFromInOrder(pieces[1..], v, i + |p|);
        assert NoBreak(v, from, i);
      }
    }
  }

  lemma InOrderSearch(pieces: seq<string>, v: string)
    requires |pieces| >= 1 && Lacks(v, '\n')
    ensures RegexSearch(pieces, v) <==> InOrder(pieces, v, 0)
  {
    if RegexSearch(pieces, v) {
      SearchToInOrder(pieces, v);
    }
    if InOrder(pieces, v, 0) {
      InOrderToSearch(pieces, v);
    }
  }

  lemma SearchToInOrder(pieces: seq<string>, v: string)
    requires |pieces| >= 1 && Lacks(v, '\n') && RegexSearch(pieces, v)
    ensures InOrder(pieces, v, 0)
  {
    var p := pieces[0];
    var s :| OccursAt(v, p, s) && PiecesFrom(pieces[1..], v, s + |p|);
    PiecesFromInOrder(pieces[1..], v, s + |p|);
  }

  lemma InOrderToSearch(pieces: seq<string>, v: string)
    requires |pieces| >= 1 && Lacks(v, '\n') && InOrder(pieces, v, 0)
    ensures RegexSearch(pieces, v)
  {
    var p := pieces[0];
    var s :| 0 <= s && OccursAt(v, p, s) && InOrder(pieces[1..], v, s + |p|);
    PiecesFromInOrder(pieces[1..], v, s + |p|);
  }

  /** On a value without line breaks, a pattern with `*` matches exactly
      when its `*`-separated pieces occur in order somewhere in the value. */
  lemma GlobInOrder(pattern: string, value: string)
    requires pattern != [] && value != [] && !Lacks(pattern, '*') && Lacks(value, '\n')
    ensures PatternMatches(pattern, value) <==> InOrder(Split(Lower(pattern), '*'), Lower(value), 0)
  {
    var k :| 0 <= k < |pattern| && pattern[k] == '*';
    assert Lower(pattern)[k] == '*';
    InOrderSearch(Split(Lower(pattern), '*'), Lower(value));
  }

  // ---------------------------------------------------------- conditions

  /** The structured conditions a natural-language rule is parsed into,
      with the parser's defaults in `DefaultConditions`. */
  datatype Conditions = Conditions(
    eventTypes: seq<string>,
    senderPatterns: seq<string>,
    recipientPatterns: seq<string>,
    subjectKeywords: seq<string>,
    bodyKeywords: seq<string>,
    urgencyLevels: seq<string>,
    labels: seq<string>,
    categories: seq<string>,
    minAttendees: Option<int>,
    organizerPatterns: seq<string>,
    wmTypes: seq<string>,
    overdueOnly: bool,
    matchMode: string,
    requiresSemanticMatch: bool)

  function DefaultConditions(): Conditions {
    Conditions(["email_received"], [], [], [], [], [], [], [], None, [], [], false, "any", false)
  }

  /** Some entry of `xs` satisfies `p`. */
  predicate AnyHolds<T>(xs: seq<T>, p: T -> bool) {
    exists i :: 0 <= i < |xs| && p(xs[i])
  }

  /** Every entry of `xs` satisfies `p`. */
  predicate AllHold<T>(xs: seq<T>, p: T -> bool) {
    forall i :: 0 <= i < |xs| ==> p(xs[i])
  }

  /** Number of entries of `xs` that satisfy `p`. */
  function CountIf<T>(xs: seq<T>, p: T -> bool): (n: nat)
    ensures n <= |xs|
    ensures n == |xs| <==> AllHold(xs, p)
    ensures n == 0 <==> !AnyHolds(xs, p)
  {
    if |xs| == 0 then 0
    else
      var rest := CountIf(xs[1..], p);
      assert forall i :: 1 <= i < |xs| ==> xs[i] == xs[1..][i - 1];
      (if p(xs[0]) then 1 else 0) + rest
  }

  function LowerAll(xs: seq<string>): (r: seq<string>)
    ensures |r| == |xs| && forall i :: 0 <= i < |xs| ==> r[i] == Lower(xs[i])
  {
    seq(|xs|, i requires 0 <= i < |xs| => Lower(xs[i]))
  }

  // --------------------------------------------------------- e-mail match

  datatype Email = Email(id: string, sender: Option<string>, subject: Option<string>,
                         bodyPreview: Option<string>, bodyMarkdown: Option<string>,
                         toEmails: seq<string>)

  datatype Classification = Classification(labels: seq<string>, urgency: Option<string>,
                                           categories: seq<string>)

  function SenderText(e: Email): string {
    Lower(Triggers.OrElse(e.sender, ""))
  }

  function SubjectText(e: Email): string {
    Lower(Triggers.OrElse(e.subject, ""))
  }

  /** The preview, else the markdown body, lower-cased. */
  function BodyText(e: Email): string {
    Lower(Triggers.OrElse(e.bodyPreview, Triggers.OrElse(e.bodyMarkdown, "")))
  }

  function UrgencyOf(cls: Classification): string {
    Triggers.OrElse(cls.urgency, "someday")
  }

  // The test each listed condition applies, one per list.

  function SenderHit(sender: string): string -> bool {
    (p: string) => PatternMatches(p, sender)
  }

  /** The pattern matches one of `values`. */
  function MatchesAny(values: seq<string>): string -> bool {
    (p: string) => exists j :: 0 <= j < |values| && PatternMatches(p, values[j])
  }

  function SubjectHit(subject: string): string -> bool {
    (kw: string) => Contains(subject, Lower(kw))
  }

  function BodyHit(body: string): string -> bool {
    (kw: string) => Contains(body, Lower(kw))
  }

  function LabelHit(cls: Classification): string -> bool {
    (l: string) => Lower(l) in LowerAll(cls.labels)
  }

  function UrgencyHit(cls: Classification): string -> bool {
    (lv: string) => lv == UrgencyOf(cls)
  }

  function CategoryHit(cls: Classification): string -> bool {
    (cat: string) => cat in cls.categories
  }

  /** The test each kind of listed condition applies. */
  datatype Tests = Tests(sender: string -> bool, recipient: string -> bool,
                         subject: string -> bool, body: string -> bool,
                         labelled: string -> bool, urgency: string -> bool,
                         category: string -> bool)

  /** The tests of an e-mail: sender patterns against the sender, recipient
      patterns against each recipient, keywords against the lower-cased
      subject and body, and the classification's labels, urgency and
      categories. */
  function EmailTests(e: Email, cls: Classification): Tests {
    Tests(SenderHit(SenderText(e)), MatchesAny(e.toEmails), SubjectHit(SubjectText(e)), BodyHit(BodyText(e)),
          LabelHit(cls), UrgencyHit(cls), CategoryHit(cls))
  }

  /** Some listed e-mail condition holds under the tests `t`; recipient
      patterns count only when `sent`. */
  predicate SomeFires(c: Conditions, t: Tests, sent: bool) {
    AnyHolds(c.senderPatterns, t.sender)
    || (sent && AnyHolds(c.recipientPatterns, t.recipient))
    || AnyHolds(c.subjectKeywords, t.subject)
    || AnyHolds(c.bodyKeywords, t.body)
    || AnyHolds(c.labels, t.labelled)
    || AnyHolds(c.urgencyLevels, t.urgency)
    || AnyHolds(c.categories, t.category)
  }

  /** Every listed e-mail condition holds under the tests `t`; a recipient
      pattern cannot hold unless `sent`. */
  predicate AllFire(c: Conditions, t: Tests, sent: bool) {
    AllHold(c.senderPatterns, t.sender)
    && (if sent then AllHold(c.recipientPatterns, t.recipient) else |c.recipientPatterns| == 0)
    && AllHold(c.subjectKeywords, t.subject)
    && AllHold(c.bodyKeywords, t.body)
    && AllHold(c.labels, t.labelled)
    && AllHold(c.urgencyLevels, t.urgency)
    && AllHold(c.categories, t.category)
  }

  /** Number of listed conditions that hold; recipients only when `sent`,
      and counted once per pattern. */
  function Tally(c: Conditions, t: Tests, sent: bool): (n: nat)
    ensures n == 0 <==> !SomeFires(c, t, sent)
    ensures n <= EmailExpected(c)
    ensures n == EmailExpected(c) <==> AllFire(c, t, sent)
  {
    CountIf(c.senderPatterns, t.sender)
    + (if sent then CountIf(c.recipientPatterns, t.recipient) else 0)
    + CountIf(c.subjectKeywords, t.subject)
    + CountIf(c.bodyKeywords, t.body)
    + CountIf(c.labels, t.labelled)
    + CountIf(c.urgencyLevels, t.urgency)
    + CountIf(c.categories, t.category)
  }

  /** Total number of listed e-mail conditions. */
  function EmailExpected(c: Conditions): nat {
    |c.senderPatterns| + |c.recipientPatterns| + |c.subjectKeywords| + |c.bodyKeywords|
    + |c.labels| + |c.urgencyLevels| + |c.categories|
  }

  /** Number of (pattern, value) pairs that match: the source's recipient
      loop appends one match per matching recipient. */
  function PairCount(patterns: seq<string>, values: seq<string>): (n: nat)
    ensures n == 0 <==> !AnyHolds(patterns, MatchesAny(values))
    ensures n >= CountIf(patterns, MatchesAny(values))
  {
    if |patterns| == 0 then 0
    else
      var p := patterns[0];
      var here := CountIf(values, (v: string) => PatternMatches(p, v));
      var rest := PairCount(patterns[1..], values);
      assert here > 0 <==> MatchesAny(values)(p);
      assert forall i :: 1 <= i < |patterns| ==> patterns[i] == patterns[1..][i - 1];
      here + rest
  }

  /** Matches appended by the source: one per holding entry of each list,
      and for a sent e-mail one per matching (pattern, recipient) pair. */
  function AsWrittenFired(c: Conditions, t: Tests, recipients: seq<string>, sent: bool): nat {
    Tally(c, t, false) + (if sent then PairCount(c.recipientPatterns, recipients) else 0)
  }

  /** The verdict from a count of matches: none is a miss; "all" mode also
      needs at least `expected` of them. */
  function Decide(fired: nat, expected: nat, all: bool): bool {
    if fired == 0 then false
    else if all then fired >= expected
    else true
  }

  /** The verdict of `_fast_match_email` as written, for any tests whose
      recipient test matches against `recipients`: a match needs some listed
      condition to hold, "any" mode needs nothing more, "all" mode accepts
      every condition holding, and a rule listing recipient patterns never
      matches an e-mail that was not sent in "all" mode. */
  function RuleMatchesAsWritten(c: Conditions, t: Tests, recipients: seq<string>, sent: bool): (r: bool)
    requires t.recipient == MatchesAny(recipients)
    ensures r ==> SomeFires(c, t, sent)
    ensures c.matchMode != "all" ==> (r <==> SomeFires(c, t, sent))
    ensures c.matchMode == "all" && EmailExpected(c) > 0 && AllFire(c, t, sent) ==> r
    ensures c.matchMode == "all" && !sent && |c.recipientPatterns| > 0 ==> !r
  {
    AsWrittenCount(c, t, recipients, sent);
    Decide(AsWrittenFired(c, t, recipients, sent), EmailExpected(c), c.matchMode == "all")
  }

  /** The source's count against the per-condition tally, for any tests. */
  lemma AsWrittenCount(c: Conditions, t: Tests, recipients: seq<string>, sent: bool)
    requires t.recipient == MatchesAny(recipients)
    ensures var n := AsWrittenFired(c, t, recipients, sent);
      && (n > 0 <==> Tally(c, t, sent) > 0)
      && n >= Tally(c, t, sent)
      && (!sent ==> n == Tally(c, t, sent))
  {
    var base := Tally(c, t, false);
    var rec := CountIf(c.recipientPatterns, t.recipient);
    assert Tally(c, t, sent) == base + (if sent then rec else 0);
    var pairs := PairCount(c.recipientPatterns, recipients);
    assert pairs >= rec;
    assert pairs > 0 <==> rec > 0;
  }

  /** `_fast_match_email` as written. */
  function FastMatchEmailAsWritten(c: Conditions, e: Email, cls: Classification, eventType: string): bool {
    RuleMatchesAsWritten(c, EmailTests(e, cls), e.toEmails, eventType == "email_sent")
  }

  /** The verdict with each listed condition counted once, however many
      recipients a pattern matches: "any" needs one listed condition to
      hold, "all" needs every one of them. */
  function RuleMatches(c: Conditions, t: Tests, sent: bool): (r: bool)
    ensures c.matchMode != "all" ==> (r <==> SomeFires(c, t, sent))
    ensures c.matchMode == "all" ==> (r <==> SomeFires(c, t, sent) && AllFire(c, t, sent))
  {
    Decide(Tally(c, t, sent), EmailExpected(c), c.matchMode == "all")
  }

  /** `_fast_match_email` with each condition counted once. */
  function FastMatchEmail(c: Conditions, e: Email, cls: Classification, eventType: string): bool {
    RuleMatches(c, EmailTests(e, cls), eventType == "email_sent")
  }

  /** Recipients play no part unless the event is a sent e-mail. */
  lemma RecipientsOnlyWhenSent(c: Conditions, e1: Email, e2: Email, cls: Classification, eventType: string)
    requires eventType != "email_sent" && e1.(toEmails := e2.toEmails) == e2
    ensures FastMatchEmail(c, e1, cls, eventType) == FastMatchEmail(c, e2, cls, eventType)
    ensures FastMatchEmailAsWritten(c, e1, cls, eventType) == FastMatchEmailAsWritten(c, e2, cls, eventType)
  {
    assert SenderText(e1) == SenderText(e2) && SubjectText(e1) == SubjectText(e2) && BodyText(e1) == BodyText(e2);
    UnsentIgnoresRecipients(c, EmailTests(e1, cls), EmailTests(e2, cls), e1.toEmails, e2.toEmails);
  }

  /** With `sent` false, the verdicts read every test but the recipient one. */
  lemma UnsentIgnoresRecipients(c: Conditions, t1: Tests, t2: Tests, rec1: seq<string>, rec2: seq<string>)
    requires t1.(recipient := t2.recipient) == t2
    requires t1.recipient == MatchesAny(rec1) && t2.recipient == MatchesAny(rec2)
    ensures RuleMatches(c, t1, false) == RuleMatches(c, t2, false)
    ensures RuleMatchesAsWritten(c, t1, rec1, false) == RuleMatchesAsWritten(c, t2, rec2, false)
  {
    assert Tally(c, t1, false) == Tally(c, t2, false);
    AsWrittenCount(c, t1, rec1, false);
    AsWrittenCount(c, t2, rec2, false);
  }

  /** In "all" mode the source counts a recipient pattern once per matching
      recipient: with one recipient pattern and one subject keyword listed,
      two matching recipients stand in for the keyword that does not occur. */
  lemma Overcount(p: string, kw: string, t: Tests, recipients: seq<string>)
    requires t.recipient == MatchesAny(recipients)
    requires PairCount([p], recipients) >= 2 && !t.subject(kw)
    ensures var c := DefaultConditions().(recipientPatterns := [p], subjectKeywords := [kw], matchMode := "all");
            RuleMatchesAsWritten(c, t, recipients, true) && !RuleMatches(c, t, true)
  {
    var c := DefaultConditions().(recipientPatterns := [p], subjectKeywords := [kw], matchMode := "all");
    assert EmailExpected(c) == 2;
    assert !t.subject(c.subjectKeywords[0]);
    assert !AllFire(c, t, true);
  }

  lemma TwoMatches(p: string, r1: string, r2: string)
    requires PatternMatches(p, r1) && PatternMatches(p, r2)
    ensures PairCount([p], [r1, r2]) >= 2
  {
    var hits := (v: string) => PatternMatches(p, v);
    assert [r1, r2][1..] == [r2];
    assert CountIf([r2], hits) == 1;
    assert CountIf([r1, r2], hits) == 2;
  }

  lemma LowerNoUpper(s: string)
    requires forall i :: 0 <= i < |s| ==> !IsUpper(s[i])
    ensures Lower(s) == s
  {
  }

  /** A lower-case pattern without `*` matches a lower-case value it occurs in. */
  lemma PlainMatch(p: string, v: string, i: nat)
    requires p != [] && Lacks(p, '*') && OccursAt(v, p, i)
    requires forall j :: 0 <= j < |p| ==> !IsUpper(p[j])
    requires forall j :: 0 <= j < |v| ==> !IsUpper(v[j])
    ensures PatternMatches(p, v)
  {
    LowerNoUpper(p);
    LowerNoUpper(v);
  }

  /** "x.com" matches a one-letter lower-case address at x.com. */
  lemma XComMatchesAddress(v: string)
    requires |v| == 7 && 'a' <= v[0] <= 'z' && v[1..] == "@x.com"
    ensures PatternMatches("x.com", v)
  {
    assert v[2..] == "x.com";
    PlainMatch("x.com", v, 2);
  }

  lemma XComMatches()
    ensures PatternMatches("x.com", "a@x.com") && PatternMatches("x.com", "b@x.com")
  {
    XComMatchesAddress("a@x.com");
    XComMatchesAddress("b@x.com");
  }

  lemma NoSubject(e: Email, kw: string)
    requires e.subject.None? && kw != []
    ensures !SubjectHit(SubjectText(e))(kw)
  {
    assert SubjectText(e) == [];
  }

  /** The counterexample for any pattern matching two recipients and any
      non-empty keyword, on an e-mail without a subject. */
  lemma OvercountWith(p: string, r1: string, r2: string, kw: string, sent: string)
    requires sent == "email_sent" && kw != []
    requires PatternMatches(p, r1) && PatternMatches(p, r2)
    ensures var c := DefaultConditions().(recipientPatterns := [p], subjectKeywords := [kw], matchMode := "all");
            var e := Email("m1", None, None, None, None, [r1, r2]);
            var cls := Classification([], None, []);
            FastMatchEmailAsWritten(c, e, cls, sent) && !FastMatchEmail(c, e, cls, sent)
  {
    var e := Email("m1", None, None, None, None, [r1, r2]);
    var cls := Classification([], None, []);
    NoSubject(e, kw);
    TwoMatches(p, r1, r2);
    Overcount(p, kw, EmailTests(e, cls), e.toEmails);
  }

  /** The input: recipient pattern "x.com", subject keyword "budget", a sent
      e-mail without a subject to a@x.com and b@x.com. */
  lemma AllModeOvercounts()
    ensures var c := DefaultConditions().(recipientPatterns := ["x.com"], subjectKeywords := ["budget"], matchMode := "all");
            var e := Email("m1", None, None, None, None, ["a@x.com", "b@x.com"]);
            var cls := Classification([], None, []);
            FastMatchEmailAsWritten(c, e, cls, "email_sent") && !FastMatchEmail(c, e, cls, "email_sent")
  {
    XComMatches();
    OvercountWith("x.com", "a@x.com", "b@x.com", "budget", "email_sent");
  }

  // ------------------------------------------------ working-memory match

  datatype WmItem = WmItem(id: string, urgency: Option<string>, dueBy: Option<int>,
                           needsReply: bool, isResolved: bool)

  /** The item type a `wm_*` event type stands for. */
  function WmTypeName(wmType: string): string {
    if wmType == "wm_thread" then "thread"
    else if wmType == "wm_commitment" then "commitment"
    else if wmType == "wm_decision" then "decision"
    else wmType
  }

  /** A commitment is overdue once its due time has passed (an absent or
      unreadable due time never is), a thread while it needs a reply, a
      decision while it is unresolved; nothing else is ever overdue. */
  predicate IsOverdue(item: WmItem, wmType: string, now: int) {
    if wmType == "wm_commitment" then item.dueBy.Some? && item.dueBy.value < now
    else if wmType == "wm_thread" then item.needsReply
    else if wmType == "wm_decision" then !item.isResolved
    else false
  }

  /** `_fast_match_wm`: only a type mismatch or a non-overdue item under
      `overdue_only` reject; urgency levels add a reason but never reject. */
  function FastMatchWm(c: Conditions, item: WmItem, wmType: string, now: int): (r: bool)
    ensures |c.wmTypes| > 0 && WmTypeName(wmType) !in LowerAll(c.wmTypes) ==> !r
    ensures c.overdueOnly && !IsOverdue(item, wmType, now) ==> !r
    ensures r <==> (|c.wmTypes| == 0 || WmTypeName(wmType) in LowerAll(c.wmTypes))
                   && (!c.overdueOnly || IsOverdue(item, wmType, now))
  {
    if |c.wmTypes| > 0 && WmTypeName(wmType) !in LowerAll(c.wmTypes) then false
    else if c.overdueOnly && !IsOverdue(item, wmType, now) then false
    else true
  }

  // ------------------------------------------------------ calendar match

  datatype CalendarEvent = CalendarEvent(id: string, subject: Option<string>,
                                         organizerEmail: Option<string>, organizerName: Option<string>,
                                         attendeeCount: Option<int>, attendees: seq<string>,
                                         location: Option<string>)

  /** The stored attendee count, or the length of the attendee list when
      that count is missing or zero. */
  function AttendeeCount(ev: CalendarEvent): int {
    if ev.attendeeCount.Some? && ev.attendeeCount.value != 0 then ev.attendeeCount.value
    else |ev.attendees|
  }

  /** The tests calendar conditions apply, and the attendee count. */
  datatype CalTests = CalTests(organizer: string -> bool, subject: string -> bool,
                               location: string -> bool, attendees: int)

  function CalendarTests(ev: CalendarEvent): CalTests {
    var email := Lower(Triggers.OrElse(ev.organizerEmail, ""));
    var name := Lower(Triggers.OrElse(ev.organizerName, ""));
    var subject := Lower(Triggers.OrElse(ev.subject, ""));
    var location := Lower(Triggers.OrElse(ev.location, ""));
    CalTests((p: string) => PatternMatches(p, email) || PatternMatches(p, name),
             (kw: string) => Contains(subject, Lower(kw)),
             (kw: string) => Contains(location, Lower(kw)),
             AttendeeCount(ev))
  }

  /** The rule says something about calendar events. */
  predicate HasCalendarConditions(c: Conditions) {
    |c.organizerPatterns| > 0 || c.minAttendees.Some? || |c.subjectKeywords| > 0 || |c.bodyKeywords| > 0
  }

  predicate CalSomeFires(c: Conditions, t: CalTests) {
    AnyHolds(c.organizerPatterns, t.organizer)
    || AnyHolds(c.subjectKeywords, t.subject)
    || AnyHolds(c.bodyKeywords, t.location)
    || (c.minAttendees.Some? && t.attendees >= c.minAttendees.value)
  }

  predicate CalAllFire(c: Conditions, t: CalTests) {
    AllHold(c.organizerPatterns, t.organizer)
    && AllHold(c.subjectKeywords, t.subject)
    && AllHold(c.bodyKeywords, t.location)
    && (c.minAttendees.Some? ==> t.attendees >= c.minAttendees.value)
  }

  /** The decision of `_fast_match_calendar` under the tests `t`: body
      keywords are looked up in the location. */
  function CalendarDecide(c: Conditions, t: CalTests): (r: bool)
    ensures !HasCalendarConditions(c) ==> r
    ensures c.matchMode == "all" ==> (r <==> CalAllFire(c, t))
    ensures c.matchMode != "all" ==> (r <==> !HasCalendarConditions(c) || CalSomeFires(c, t))
  {
    var all := c.matchMode == "all";
    var listed := CountIf(c.organizerPatterns, t.organizer) + CountIf(c.subjectKeywords, t.subject)
                  + CountIf(c.bodyKeywords, t.location);
    var enough := c.minAttendees.Some? && t.attendees >= c.minAttendees.value;
    if c.minAttendees.Some? && !enough && all then false
    else
      var fired := listed + (if enough then 1 else 0);
      if fired == 0 then !HasCalendarConditions(c)
      else if all then
        fired >= |c.organizerPatterns| + |c.subjectKeywords| + |c.bodyKeywords|
                 + (if c.minAttendees.Some? then 1 else 0)
      else true
  }

  /** `_fast_match_calendar`: a rule without calendar conditions matches
      every event; "any" needs one condition to hold, "all" every one. */
  function FastMatchCalendar(c: Conditions, ev: CalendarEvent): (r: bool)
    ensures !HasCalendarConditions(c) ==> r
    ensures c.matchMode == "all" ==> (r <==> CalAllFire(c, CalendarTests(ev)))
    ensures c.matchMode != "all" ==> (r <==> !HasCalendarConditions(c) || CalSomeFires(c, CalendarTests(ev)))
    ensures c.matchMode == "all" && c.minAttendees.Some? && AttendeeCount(ev) < c.minAttendees.value ==> !r
  {
    CalendarDecide(c, CalendarTests(ev))
  }

  // ------------------------------------------------------------ the gate

  /** A stored alert rule. `eventTypes` and `conditions` are None when the
      stored JSON is missing or unreadable; `lastTriggeredAt` is None when
      unset or unreadable; times are seconds. */
  datatype Rule = Rule(id: string, text: string, enabled: bool,
                       eventTypes: Option<seq<string>>, conditions: Option<Conditions>,
                       lastTriggeredAt: Option<int>, cooldownMinutes: Option<int>,
                       channel: Option<string>, channelTarget: Option<string>,
                       triggerCount: int, updatedAt: int)

  function RuleEventTypes(rule: Rule): seq<string> {
    rule.eventTypes.UnwrapOr(["email_received"])
  }

  function RuleConditions(rule: Rule): Conditions {
    rule.conditions.UnwrapOr(DefaultConditions())
  }

  /** The cooldown in seconds: 30 minutes when unset or zero. */
  function CooldownSeconds(rule: Rule): (s: int)
    ensures rule.cooldownMinutes.None? || rule.cooldownMinutes.value == 0 ==> s == 1800
    ensures rule.cooldownMinutes.Some? && rule.cooldownMinutes.value != 0 ==> s == rule.cooldownMinutes.value * 60
  {
    var minutes := if rule.cooldownMinutes.None? || rule.cooldownMinutes.value == 0 then 30
                   else rule.cooldownMinutes.value;
    minutes * 60
  }

  predicate CoolingDown(rule: Rule, now: int) {
    rule.lastTriggeredAt.Some? && now - rule.lastTriggeredAt.value < CooldownSeconds(rule)
  }

  /** The semantic matcher's answer for a rule: yes with a reason, no, or
      a failure. */
  datatype Verdict = Yes(reason: string) | No | Failed

  /** Fired rules, by (rule id, event type, event id). */
  type History = set<(string, string, string)>

  /** Every test a rule must pass, in the order the source applies them. */
  predicate Admitted(rule: Rule, history: History, eventType: string, eventId: string, now: int,
                     fast: Conditions -> bool, semantic: Option<Rule -> Verdict>)
  {
    rule.enabled
    && eventType in RuleEventTypes(rule)
    && (rule.id, eventType, eventId) !in history
    && !CoolingDown(rule, now)
    && fast(RuleConditions(rule))
    && (RuleConditions(rule).requiresSemanticMatch && semantic.Some? ==> semantic.value(rule).Yes?)
  }

  /** The loop of `evaluate_*_rules` over the enabled rules: the event type
      filter, the history, the cooldown, the fast match, then the semantic
      check where one is configured. */
  function Evaluate(rules: seq<Rule>, history: History, eventType: string, eventId: string, now: int,
                    fast: Conditions -> bool, semantic: Option<Rule -> Verdict>): (r: seq<Rule>)
    ensures |r| <= |rules|
    ensures forall x :: x in r <==> x in rules && Admitted(x, history, eventType, eventId, now, fast, semantic)
  {
    if |rules| == 0 then []
    else
      var rule := rules[0];
      var rest := Evaluate(rules[1..], history, eventType, eventId, now, fast, semantic);
      assert forall x :: x in rules <==> x == rule || x in rules[1..];
      if !rule.enabled || eventType !in RuleEventTypes(rule) then rest
      else if (rule.id, eventType, eventId) in history then rest
      else if CoolingDown(rule, now) then rest
      else
        var conditions := RuleConditions(rule);
        if !fast(conditions) then rest
        else if conditions.requiresSemanticMatch && semantic.Some? && !semantic.value(rule).Yes? then rest
        else [rule] + rest
  }

  /** Rules that reach the semantic check: every earlier test passed. */
  predicate ReachesSemantic(rule: Rule, history: History, eventType: string, eventId: string, now: int,
                            fast: Conditions -> bool)
  {
    Admitted(rule, history, eventType, eventId, now, fast, None) && RuleConditions(rule).requiresSemanticMatch
  }

  /** The semantic matcher is consulted only for rules that passed every
      other test and ask for it: two matchers that agree on those rules
      give the same outcome. */
  lemma {:induction false} SemanticOnlyAfterFastMatch(rules: seq<Rule>, history: History, eventType: string,
                                                       eventId: string, now: int, fast: Conditions -> bool,
                                                       s1: Rule -> Verdict, s2: Rule -> Verdict)
    requires forall i :: 0 <= i < |rules| && ReachesSemantic(rules[i], history, eventType, eventId, now, fast) ==>
               s1(rules[i]) == s2(rules[i])
    ensures Evaluate(rules, history, eventType, eventId, now, fast, Some(s1))
            == Evaluate(rules, history, eventType, eventId, now, fast, Some(s2))
  {
    if |rules| > 0 {
      SemanticOnlyAfterFastMatch(rules[1..], history, eventType, eventId, now, fast, s1, s2);
      assert ReachesSemantic(rules[0], history, eventType, eventId, now, fast) ==> s1(rules[0]) == s2(rules[0]);
    }
  }

  /** `Evaluate` with a semantic matcher present: a rule asking for a
      semantic match is admitted only on a Yes verdict. */
  function EvaluateSemantic(rules: seq<Rule>, history: History, eventType: string, eventId: string, now: int,
                            fast: Conditions -> bool, semantic: Rule -> Verdict): (r: seq<Rule>)
    ensures forall x :: x in r <==>
      x in rules && x.enabled && eventType in RuleEventTypes(x) && (x.id, eventType, eventId) !in history
      && !CoolingDown(x, now) && fast(RuleConditions(x))
      && (RuleConditions(x).requiresSemanticMatch ==> semantic(x).Yes?)
  {
    Evaluate(rules, history, eventType, eventId, now, fast, Some(semantic))
  }

  /** `evaluate_email_rules`: the event type is "email_received" or
      "email_sent", and the semantic matcher takes part. */
  function EvaluateEmailRules(rules: seq<Rule>, history: History, e: Email, cls: Classification,
                              eventType: string, now: int, semantic: Rule -> Verdict): (r: seq<Rule>)
    ensures forall x :: x in r <==>
      x in rules && x.enabled && eventType in RuleEventTypes(x) && (x.id, eventType, e.id) !in history
      && !CoolingDown(x, now) && FastMatchEmail(RuleConditions(x), e, cls, eventType)
      && (RuleConditions(x).requiresSemanticMatch ==> semantic(x).Yes?)
  {
    EvaluateSemantic(rules, history, eventType, e.id, now,
                     (c: Conditions) => FastMatchEmail(c, e, cls, eventType), semantic)
  }

  /** `evaluate_email_rules` as the source composes it, over the fast match
      as written (whose "all" mode counts every matching recipient). */
  function EvaluateEmailRulesAsWritten(rules: seq<Rule>, history: History, e: Email, cls: Classification,
                                       eventType: string, now: int, semantic: Rule -> Verdict): (r: seq<Rule>)
    ensures forall x :: x in r <==>
      x in rules && x.enabled && eventType in RuleEventTypes(x) && (x.id, eventType, e.id) !in history
      && !CoolingDown(x, now) && FastMatchEmailAsWritten(RuleConditions(x), e, cls, eventType)
      && (RuleConditions(x).requiresSemanticMatch ==> semantic(x).Yes?)
  {
    EvaluateSemantic(rules, history, eventType, e.id, now,
                     (c: Conditions) => FastMatchEmailAsWritten(c, e, cls, eventType), semantic)
  }

  /** The two evaluations differ only where the two fast matches do: a rule
      that one admits and the other does not is one whose conditions the
      matchers judge differently. */
  lemma EmailRulesDifferOnlyInFastMatch(rules: seq<Rule>, history: History, e: Email, cls: Classification,
                                        eventType: string, now: int, semantic: Rule -> Verdict, x: Rule)
    requires (x in EvaluateEmailRulesAsWritten(rules, history, e, cls, eventType, now, semantic))
             != (x in EvaluateEmailRules(rules, history, e, cls, eventType, now, semantic))
    ensures FastMatchEmailAsWritten(RuleConditions(x), e, cls, eventType)
            != FastMatchEmail(RuleConditions(x), e, cls, eventType)
  {
  }

  /** `evaluate_wm_rules`: the event type is the item's `wm_*` type, and no
      semantic check is made. */
  function EvaluateWmRules(rules: seq<Rule>, history: History, item: WmItem, wmType: string, now: int)
    : (r: seq<Rule>)
    ensures forall x :: x in r <==>
      x in rules && x.enabled && wmType in RuleEventTypes(x) && (x.id, wmType, item.id) !in history
      && !CoolingDown(x, now) && FastMatchWm(RuleConditions(x), item, wmType, now)
  {
    Evaluate(rules, history, wmType, item.id, now,
             (c: Conditions) => FastMatchWm(c, item, wmType, now), None)
  }

  /** `evaluate_calendar_rules`: the event type is always "calendar_event". */
  function EvaluateCalendarRules(rules: seq<Rule>, history: History, ev: CalendarEvent, now: int,
                                 semantic: Rule -> Verdict): (r: seq<Rule>)
    ensures forall x :: x in r <==>
      x in rules && x.enabled && "calendar_event" in RuleEventTypes(x)
      && (x.id, "calendar_event", ev.id) !in history
      && !CoolingDown(x, now) && FastMatchCalendar(RuleConditions(x), ev)
      && (RuleConditions(x).requiresSemanticMatch ==> semantic(x).Yes?)
  {
    EvaluateSemantic(rules, history, "calendar_event", ev.id, now,
                     (c: Conditions) => FastMatchCalendar(c, ev), semantic)
  }

  // ------------------------------------------------------------ emitting

  /** The alert rules table and the history of fired rules. */
  datatype AlertState = AlertState(rules: seq<Rule>, history: History)

  /** Event payload keys copied into the trigger. */
  const ForwardedKeys: set<string> :=
    {"subject", "sender", "received_at", "web_link", "description", "to_whom", "due_by", "question"}

  const RuleKeys: set<string> := {"rule_id", "rule_text", "event_type", "event_id", "match_reason"}

  /** The trigger payload: the rule and event identification plus the
      forwarded keys of the event payload. */
  function AlertPayload(rule: Rule, eventType: string, eventId: string, payload: map<string, string>,
                        matchReason: string): map<string, string>
  {
    var fixed := map["rule_id" := rule.id, "rule_text" := rule.text, "event_type" := eventType,
                     "event_id" := eventId, "match_reason" := matchReason];
    var forwarded := map k | k in payload.Keys && k in ForwardedKeys :: payload[k];
    fixed + forwarded
  }

  /** The payload holds the five identifying keys and exactly the forwarded
      keys the event payload has, with the event's values. */
  lemma AlertPayloadKeys(rule: Rule, eventType: string, eventId: string, payload: map<string, string>,
                         matchReason: string)
    ensures var m := AlertPayload(rule, eventType, eventId, payload, matchReason);
            m.Keys == RuleKeys + (payload.Keys * ForwardedKeys)
            && forall k :: k in payload && k in ForwardedKeys ==> m[k] == payload[k]
  {
  }

  /** The identifying keys carry the rule and the event. */
  lemma AlertPayloadIdentifies(rule: Rule, eventType: string, eventId: string, payload: map<string, string>,
                               matchReason: string)
    ensures var m := AlertPayload(rule, eventType, eventId, payload, matchReason);
            RuleKeys <= m.Keys
            && m["rule_id"] == rule.id && m["rule_text"] == rule.text && m["event_type"] == eventType
            && m["event_id"] == eventId && m["match_reason"] == matchReason
  {
    var forwarded := map k | k in payload.Keys && k in ForwardedKeys :: payload[k];
    assert RuleKeys !! ForwardedKeys;
    assert RuleKeys !! forwarded.Keys;
  }

  /** Routing: the rule's channel, "teams" by default, and its target when set. */
  function AlertRouting(rule: Rule): (m: map<string, string>)
    ensures "channel" in m && m["channel"] == Triggers.OrElse(rule.channel, "teams")
    ensures "target" in m <==> rule.channelTarget.Some? && rule.channelTarget.value != ""
    ensures "target" in m ==> m["target"] == rule.channelTarget.value
    ensures m.Keys <= {"channel", "target"}
  {
    var routing := map["channel" := Triggers.OrElse(rule.channel, "teams")];
    if rule.channelTarget.Some? && rule.channelTarget.value != "" then
      routing["target" := rule.channelTarget.value]
    else routing
  }

  function AlertDedupeKey(user: string, ruleId: string, eventType: string, eventId: string): string {
    Triggers.MakeDedupeKey("alert_rule_triggered", user, ruleId + ":" + eventType + ":" + eventId)
  }

  /** Every rule stored under `id` after firing at `now`. */
  function MarkFired(rules: seq<Rule>, id: string, now: int): (r: seq<Rule>)
    ensures |r| == |rules|
    ensures forall i :: 0 <= i < |rules| && rules[i].id != id ==> r[i] == rules[i]
    ensures forall i :: 0 <= i < |rules| && rules[i].id == id ==>
              r[i] == rules[i].(lastTriggeredAt := Some(now), triggerCount := rules[i].triggerCount + 1,
                                updatedAt := now)
  {
    seq(|rules|, i requires 0 <= i < |rules| =>
      if rules[i].id == id
      then rules[i].(lastTriggeredAt := Some(now), triggerCount := rules[i].triggerCount + 1, updatedAt := now)
      else rules[i])
  }

  /** `emit_alert_trigger`: writes the trigger through the dedupe guard,
      records the history row and stamps the rule. */
  function EmitAlertTrigger(st: AlertState, outbox: Triggers.Outbox, markers: Triggers.MarkerStore,
                            env: Triggers.Env, user: string, rule: Rule, eventType: string,
                            eventId: string, payload: map<string, string>, matchReason: string)
    : (r: (AlertState, Triggers.Emitted))
    ensures r.0.history == st.history + {(rule.id, eventType, eventId)}
    ensures |r.0.rules| == |st.rules|
    ensures forall i :: 0 <= i < |st.rules| && st.rules[i].id != rule.id ==> r.0.rules[i] == st.rules[i]
    ensures forall i :: 0 <= i < |st.rules| && st.rules[i].id == rule.id ==>
              r.0.rules[i] == st.rules[i].(lastTriggeredAt := Some(env.now),
                                           triggerCount := st.rules[i].triggerCount + 1,
                                           updatedAt := env.now)
    ensures var t := r.1.trigger;
            t.triggerType == "alert_rule_triggered" && t.user == user
            && t.dedupeKey == AlertDedupeKey(user, rule.id, eventType, eventId)
            && t.payload == AlertPayload(rule, eventType, eventId, payload, matchReason)
            && t.routing == Some(AlertRouting(rule))
  {
    var key := AlertDedupeKey(user, rule.id, eventType, eventId);
    var routing := AlertRouting(rule);
    assert "channel" in routing;
    var written := Triggers.WriteTrigger(outbox, markers, env, user, "alert_rule_triggered",
                                         AlertPayload(rule, eventType, eventId, payload, matchReason),
                                         key, routing, None, None, None);
    (AlertState(MarkFired(st.rules, rule.id, env.now), st.history + {(rule.id, eventType, eventId)}),
     written.value)
  }

  /** After a rule fires for an event, evaluating that event again never
      yields the rule, whatever the clock, matchers and verdicts. */
  lemma NoRepeatAfterEmit(st: AlertState, outbox: Triggers.Outbox, markers: Triggers.MarkerStore,
                          env: Triggers.Env, user: string, rule: Rule, eventType: string,
                          eventId: string, payload: map<string, string>, matchReason: string,
                          later: int, fast: Conditions -> bool, semantic: Option<Rule -> Verdict>)
    ensures var next := EmitAlertTrigger(st, outbox, markers, env, user, rule, eventType, eventId, payload, matchReason).0;
            forall x :: x in Evaluate(next.rules, next.history, eventType, eventId, later, fast, semantic) ==>
              x.id != rule.id
  {
  }

  /** After a rule fires, it fires for no event at all until its cooldown
      has passed. */
  lemma CooldownAfterEmit(st: AlertState, outbox: Triggers.Outbox, markers: Triggers.MarkerStore,
                          env: Triggers.Env, user: string, rule: Rule, eventType: string,
                          eventId: string, payload: map<string, string>, matchReason: string,
                          otherType: string, otherId: string, later: int,
                          fast: Conditions -> bool, semantic: Option<Rule -> Verdict>)
    ensures var next := EmitAlertTrigger(st, outbox, markers, env, user, rule, eventType, eventId, payload, matchReason).0;
            forall x :: (x in Evaluate(next.rules, next.history, otherType, otherId, later, fast, semantic)
                         && x.id == rule.id) ==> later - env.now >= CooldownSeconds(x)
  {
    var next := EmitAlertTrigger(st, outbox, markers, env, user, rule, eventType, eventId, payload, matchReason).0;
    forall x | x in Evaluate(next.rules, next.history, otherType, otherId, later, fast, semantic) && x.id == rule.id
      ensures later - env.now >= CooldownSeconds(x)
    {
      var i :| 0 <= i < |next.rules| && next.rules[i] == x;
      assert x.lastTriggeredAt == Some(env.now);
    }
  }

  // ------------------------------------------------------------- updates

  /** One keyword argument of `update_alert_rule`; `Other` is any field
      outside the whitelist. */
  datatype RuleUpdate =
    | SetEnabled(on: bool)
    | SetChannel(channel: Option<string>)
    | SetChannelTarget(target: Option<string>)
    | SetCooldown(minutes: Option<int>)
    | Other(field: string)

  /** The fields of a rule the update cannot touch. */
  function Fixed(rule: Rule): (string, string, Option<seq<string>>, Option<Conditions>, Option<int>, int) {
    (rule.id, rule.text, rule.eventTypes, rule.conditions, rule.lastTriggeredAt, rule.triggerCount)
  }

  /** The column an update writes; `Other` writes none. */
  function Column(u: RuleUpdate): nat {
    match u
    case SetEnabled(_) => 0
    case SetChannel(_) => 1
    case SetChannelTarget(_) => 2
    case SetCooldown(_) => 3
    case Other(_) => 4
  }

  /** No later update writes the column update `k` writes. */
  predicate LastOfColumn(updates: seq<RuleUpdate>, k: int) {
    0 <= k < |updates| && forall j :: k < j < |updates| ==> Column(updates[j]) != Column(updates[k])
  }

  /** The rule's column holds the value the update writes. */
  predicate Holds(rule: Rule, u: RuleUpdate) {
    match u
    case SetEnabled(on) => rule.enabled == on
    case SetChannel(channel) => rule.channel == channel
    case SetChannelTarget(target) => rule.channelTarget == target
    case SetCooldown(minutes) => rule.cooldownMinutes == minutes
    case Other(_) => true
  }

  /** The `SET` list applied to one row: each whitelisted column takes the
      value of the last update naming it, and keeps its value when none
      does. */
  function ApplyUpdates(rule: Rule, updates: seq<RuleUpdate>): (r: Rule)
    ensures Fixed(r) == Fixed(rule) && r.updatedAt == rule.updatedAt
    ensures (forall i :: 0 <= i < |updates| ==> !updates[i].SetEnabled?) ==> r.enabled == rule.enabled
    ensures (forall i :: 0 <= i < |updates| ==> !updates[i].SetChannel?) ==> r.channel == rule.channel
    ensures (forall i :: 0 <= i < |updates| ==> !updates[i].SetChannelTarget?) ==> r.channelTarget == rule.channelTarget
    ensures (forall i :: 0 <= i < |updates| ==> !updates[i].SetCooldown?) ==> r.cooldownMinutes == rule.cooldownMinutes
    ensures |updates| > 0 && updates[|updates| - 1].SetEnabled? ==> r.enabled == updates[|updates| - 1].on
    decreases |updates|
  {
    if |updates| == 0 then rule
    else
      ApplyOne(ApplyUpdates(rule, updates[..|updates| - 1]), updates[|updates| - 1])
  }

  /** One `column = ?` of the `SET` list. */
  function ApplyOne(rule: Rule, u: RuleUpdate): (r: Rule)
    ensures Holds(r, u)
  {
    match u
    case SetEnabled(on) => rule.(enabled := on)
    case SetChannel(channel) => rule.(channel := channel)
    case SetChannelTarget(target) => rule.(channelTarget := target)
    case SetCooldown(minutes) => rule.(cooldownMinutes := minutes)
    case Other(_) => rule
  }

  /** Each whitelisted column ends up holding the value of the last update
      that names it. */
  lemma {:induction false} ApplyUpdatesLastWins(rule: Rule, updates: seq<RuleUpdate>, k: int)
    requires LastOfColumn(updates, k)
    ensures Holds(ApplyUpdates(rule, updates), updates[k])
    decreases |updates|
  {
    var n := |updates| - 1;
    var prefix := updates[..n];
    if k < n {
      assert LastOfColumn(prefix, k) by {
        forall j | k < j < |prefix|
          ensures Column(prefix[j]) != Column(prefix[k])
        {
          assert prefix[j] == updates[j];
        }
      }
      ApplyUpdatesLastWins(rule, prefix, k);
      assert Column(updates[n]) != Column(updates[k]);
      UnrelatedKeeps(ApplyUpdates(rule, prefix), updates[n], prefix[k]);
    }
  }

  /** An update of another column leaves what a rule holds for `v`. */
  lemma UnrelatedKeeps(before: Rule, u: RuleUpdate, v: RuleUpdate)
    requires Column(u) != Column(v) && Holds(before, v)
    ensures Holds(ApplyOne(before, u), v)
  {
  }

  /** `update_alert_rule`: fields outside the whitelist are dropped; with
      nothing left it reports false and writes nothing; otherwise every
      rule with the id is updated and stamped, and the result says whether
      there was one. */
  function UpdateAlertRule(rules: seq<Rule>, ruleId: string, updates: seq<RuleUpdate>, now: int)
    : (r: (bool, seq<Rule>))
    ensures (forall i :: 0 <= i < |updates| ==> updates[i].Other?) ==> r == (false, rules)
    ensures (exists i :: 0 <= i < |updates| && !updates[i].Other?) ==>
              (r.0 <==> exists j :: 0 <= j < |rules| && rules[j].id == ruleId)
    ensures |r.1| == |rules|
    ensures forall j :: 0 <= j < |rules| ==> Fixed(r.1[j]) == Fixed(rules[j])
    ensures forall j :: 0 <= j < |rules| && rules[j].id != ruleId ==> r.1[j] == rules[j]
    ensures (exists i :: 0 <= i < |updates| && !updates[i].Other?) ==>
              forall j :: 0 <= j < |rules| && rules[j].id == ruleId ==> r.1[j].updatedAt == now
    ensures (exists i :: 0 <= i < |updates| && !updates[i].Other?) ==>
              forall j :: 0 <= j < |rules| && rules[j].id == ruleId ==>
                r.1[j] == ApplyUpdates(rules[j], updates).(updatedAt := now)
  {
    if forall i :: 0 <= i < |updates| ==> updates[i].Other? then (false, rules)
    else
      var found := exists j :: 0 <= j < |rules| && rules[j].id == ruleId;
      (found, seq(|rules|, j requires 0 <= j < |rules| =>
                 if rules[j].id == ruleId then ApplyUpdates(rules[j], updates).(updatedAt := now)
                 else rules[j]))
  }

  /** A rule disabled through the update never fires afterwards. */
  lemma DisabledNeverFires(rules: seq<Rule>, ruleId: string, updates: seq<RuleUpdate>, now: int,
                           history: History, eventType: string, eventId: string, later: int,
                           fast: Conditions -> bool, semantic: Option<Rule -> Verdict>)
    requires |updates| > 0 && updates[|updates| - 1] == SetEnabled(false)
    ensures forall x :: x in Evaluate(UpdateAlertRule(rules, ruleId, updates, now).1,
                                      history, eventType, eventId, later, fast, semantic)
                        ==> x.id != ruleId
  {
    var updated := UpdateAlertRule(rules, ruleId, updates, now).1;
    UpdatedRulesDisabled(rules, ruleId, updates, now);
    forall x | x in Evaluate(updated, history, eventType, eventId, later, fast, semantic)
      ensures x.id != ruleId
    {
      var j :| 0 <= j < |updated| && updated[j] == x;
    }
  }

  /** An update list ending in `enabled = false` leaves every rule with the
      id disabled. */
  lemma UpdatedRulesDisabled(rules: seq<Rule>, ruleId: string, updates: seq<RuleUpdate>, now: int)
    requires |updates| > 0 && updates[|updates| - 1] == SetEnabled(false)
    ensures var updated := UpdateAlertRule(rules, ruleId, updates, now).1;
      forall j :: 0 <= j < |rules| && rules[j].id == ruleId ==> !updated[j].enabled
  {
    forall j | 0 <= j < |rules| && rules[j].id == ruleId
      ensures !ApplyUpdates(rules[j], updates).enabled
    {
    }
  }
}
