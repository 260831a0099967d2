/** Meeting preparation: which addresses are external, which calendar events
    get a briefing and under which rule, the back-to-back alerts of the daily
    briefing, and which events get an individual prep trigger. Instants are
    integer seconds. */
module MeetingPrep {
  import opened Wrappers
  import opened Text
  import Sorting

  datatype Rule = Rule(
    name: string,
    enabled: bool,
    externalOnly: bool,
    minAttendees: int,
    keywords: seq<string>,
    senderDomains: seq<string>,
    vipAttendees: seq<string>,
    prepMinutesBefore: int)

  datatype Config = Config(
    individualPrepEnabled: bool,
    rules: seq<Rule>,
    skipAllDayEvents: bool,
    skipDeclinedEvents: bool,
    skipTentativeEvents: bool,
    minDurationMinutes: int)

  datatype Event = Event(
    eventId: string,
    subject: string,
    start: int,
    end: int,
    isAllDay: bool,
    responseStatus: string,
    attendees: seq<string>,
    organizerEmail: string)

  /** The rule set used when preferences do not override it. */
  const DefaultRules: seq<Rule> := [
    Rule("external_meetings", true, true, 0, [], [], [], 15),
    Rule("large_meetings", true, false, 5, [], [], [], 30),
    Rule("important_keywords", true, false, 0, ["interview", "review", "board", "exec", "client", "partner"], [], [], 30)
  ]

  const DefaultConfig := Config(true, DefaultRules, true, true, false, 15)

  // ------------------------------------------------------------ domains

  /** `address.split("@")[-1].lower()`: the whole address when it has no '@'. */
  function DomainOf(address: string): (d: string)
    ensures Lacks(d, '@')
  {
    Lower(AfterLast(address, '@'))
  }

  /** `_get_internal_domains`: the user's own domain, or nothing without a user. */
  function InternalDomains(userEmail: string): (r: set<string>)
    ensures |userEmail| == 0 <==> r == {}
    ensures forall d :: d in r <==> |userEmail| > 0 && d == DomainOf(userEmail)
  {
    if |userEmail| > 0 then {DomainOf(userEmail)} else {}
  }

  /** `_is_external`. */
  function IsExternal(address: string, internal: set<string>): (ext: bool)
    ensures |address| == 0 ==> !ext
    ensures |address| > 0 ==> (ext <==> DomainOf(address) !in internal)
  {
    if |address| == 0 then false else DomainOf(address) !in internal
  }

  /** A colleague at the user's own domain, in any letter case, is internal;
      without a known user every non-empty address is external. */
  lemma ExternalIsDomainTest(userEmail: string, address: string)
    ensures |address| > 0 && |userEmail| > 0 ==>
      (IsExternal(address, InternalDomains(userEmail)) <==> DomainOf(address) != DomainOf(userEmail))
    ensures |userEmail| == 0 ==> (IsExternal(address, InternalDomains(userEmail)) <==> |address| > 0)
  {
  }

  // ------------------------------------------------------------ rules

  predicate AnyExternal(attendees: seq<string>, internal: set<string>) {
    exists i :: 0 <= i < |attendees| && IsExternal(attendees[i], internal)
  }

  predicate KeywordHit(subject: string, keywords: seq<string>) {
    exists i :: 0 <= i < |keywords| && Contains(Lower(subject), Lower(keywords[i]))
  }

  predicate DomainListed(domain: string, domains: seq<string>) {
    exists i :: 0 <= i < |domains| && Lower(domains[i]) == domain
  }

  predicate VipPresent(attendees: seq<string>, vips: seq<string>) {
    exists i, j :: 0 <= i < |vips| && 0 <= j < |attendees| && Lower(vips[i]) == Lower(attendees[j])
  }

  /** The conditions of one rule, any of which is enough. */
  predicate Matches(rule: Rule, e: Event, internal: set<string>) {
    (rule.externalOnly && AnyExternal(e.attendees, internal))
    || (rule.minAttendees > 0 && |e.attendees| >= rule.minAttendees)
    || (|rule.keywords| > 0 && KeywordHit(e.subject, rule.keywords))
    || (|rule.senderDomains| > 0 && |e.organizerEmail| > 0 && DomainListed(DomainOf(e.organizerEmail), rule.senderDomains))
    || (|rule.vipAttendees| > 0 && VipPresent(e.attendees, rule.vipAttendees))
  }

  predicate Fires(rule: Rule, e: Event, internal: set<string>) {
    rule.enabled && Matches(rule, e, internal)
  }

  /** A rule with no condition set never matches. */
  lemma EmptyRuleNeverMatches(rule: Rule, e: Event, internal: set<string>)
    requires !rule.externalOnly && rule.minAttendees <= 0
    requires |rule.keywords| == 0 && |rule.senderDomains| == 0 && |rule.vipAttendees| == 0
    ensures !Matches(rule, e, internal)
  {
  }

  /** The exclusions applied before any rule. */
  predicate Excluded(c: Config, e: Event) {
    (c.skipAllDayEvents && e.isAllDay)
    || (c.skipDeclinedEvents && e.responseStatus == "declined")
    || (c.skipTentativeEvents && e.responseStatus == "tentative")
    || e.end - e.start < c.minDurationMinutes * 60
  }

  /** The first rule of `rules` that fires. */
  function FirstFiring(rules: seq<Rule>, e: Event, internal: set<string>): (r: Option<nat>)
    ensures r.Some? ==>
      (r.value < |rules| && Fires(rules[r.value], e, internal)
       && forall j :: 0 <= j < r.value ==> !Fires(rules[j], e, internal))
    ensures r.None? ==> forall j :: 0 <= j < |rules| ==> !Fires(rules[j], e, internal)
  {
    if |rules| == 0 then None
    else if Fires(rules[0], e, internal) then Some(0)
    else
      match FirstFiring(rules[1..], e, internal)
      case None => None
      case Some(k) => Some(k + 1)
  }

  /** `_should_prepare`: no rule for an excluded event; otherwise the first
      enabled rule, in configuration order, any of whose conditions holds. */
  function ShouldPrepare(c: Config, e: Event, internal: set<string>): (r: Option<Rule>)
    ensures Excluded(c, e) ==> r.None?
    ensures r.Some? <==> !Excluded(c, e) && exists i :: 0 <= i < |c.rules| && Fires(c.rules[i], e, internal)
    ensures r.Some? ==> exists i ::
      (0 <= i < |c.rules| && c.rules[i] == r.value && Fires(r.value, e, internal)
       && forall j :: 0 <= j < i ==> !Fires(c.rules[j], e, internal))
  {
    if Excluded(c, e) then None
    else
      match FirstFiring(c.rules, e, internal)
      case None => None
      case Some(i) => Some(c.rules[i])
  }

  /** Disabling every rule, or clearing every condition, turns prep off. */
  lemma NoFiringRuleNoPrep(c: Config, e: Event, internal: set<string>)
    requires forall i :: 0 <= i < |c.rules| ==>
      !c.rules[i].enabled
      || (!c.rules[i].externalOnly && c.rules[i].minAttendees <= 0 && |c.rules[i].keywords| == 0
          && |c.rules[i].senderDomains| == 0 && |c.rules[i].vipAttendees| == 0)
    ensures ShouldPrepare(c, e, internal).None?
  {
  }

  /** With the default rules, a long enough accepted meeting with someone
      outside the user's domain gets the external-meetings rule. */
  lemma ExternalMeetingGetsDefaultRule(e: Event, internal: set<string>, i: nat)
    requires !e.isAllDay && e.responseStatus != "declined" && e.end - e.start >= 15 * 60
    requires i < |e.attendees| && IsExternal(e.attendees[i], internal)
    ensures ShouldPrepare(DefaultConfig, e, internal) == Some(DefaultRules[0])
  {
    assert Fires(DefaultRules[0], e, internal);
  }

  // ------------------------------------------------------------ back-to-back

  function StartKey(e: Event): real {
    e.start as real
  }

  datatype Alert = BackToBack(current: Event, next: Event)

  /** The timed events of the day, stably sorted by start. */
  function TimedByStart(events: seq<Event>): seq<Event> {
    Sorting.SortBy(Timed(events), StartKey)
  }

  function Timed(events: seq<Event>): (r: seq<Event>)
    ensures forall e :: e in r <==> e in events && !e.isAllDay
  {
    if |events| == 0 then []
    else (if events[0].isAllDay then [] else [events[0]]) + Timed(events[1..])
  }

  /** Fewer than five minutes from the end of one meeting to the start of the next. */
  predicate Tight(current: Event, next: Event) {
    next.start - current.end < 5 * 60
  }

  /** The alerts for consecutive pairs of `s` from index `i` on. */
  function PairAlerts(s: seq<Event>, i: nat): (r: seq<Alert>)
    requires i <= |s|
    ensures forall a :: a in r <==> exists k :: i <= k < |s| - 1 && Tight(s[k], s[k + 1]) && a == BackToBack(s[k], s[k + 1])
    decreases |s| - i
  {
    if i + 1 >= |s| then []
    else (if Tight(s[i], s[i + 1]) then [BackToBack(s[i], s[i + 1])] else []) + PairAlerts(s, i + 1)
  }

  /** The back-to-back alerts of `generate_daily_briefing`: one for every pair
      of consecutive timed meetings, in start order, that leave under five
      minutes between them. */
  function BackToBackAlerts(events: seq<Event>): (r: seq<Alert>)
    ensures forall a :: a in r <==>
      exists k :: 0 <= k < |TimedByStart(events)| - 1 && Tight(TimedByStart(events)[k], TimedByStart(events)[k + 1])
        && a == BackToBack(TimedByStart(events)[k], TimedByStart(events)[k + 1])
  {
    PairAlerts(TimedByStart(events), 0)
  }

  /** No alert involves an all-day event, and each pairs meetings that follow
      each other in start order. */
  lemma BackToBackAlertsTimed(events: seq<Event>, a: Alert)
    requires a in BackToBackAlerts(events)
    ensures a.current in events && !a.current.isAllDay && a.next in events && !a.next.isAllDay
    ensures a.current.start <= a.next.start && a.next.start - a.current.end < 300
  {
    var s := TimedByStart(events);
    Sorting.SortByMembers(Timed(events), StartKey);
    var k :| 0 <= k < |s| - 1 && Tight(s[k], s[k + 1]) && a == BackToBack(s[k], s[k + 1]);
    assert s[k] in s && s[k + 1] in s;
    assert StartKey(s[k]) <= StartKey(s[k + 1]);
  }

  // ------------------------------------------------------------ individual prep

  /** The prep window of `check_and_emit_meeting_preps`: a rule applies and the
      meeting starts within `prep_minutes_before` minutes of now. */
  predicate PrepDue(c: Config, e: Event, internal: set<string>, now: int) {
    var rule := ShouldPrepare(c, e, internal);
    rule.Some? && e.start - now <= rule.value.prepMinutesBefore * 60
  }

  /** `check_and_emit_meeting_preps` over the events of the lookahead window.
      `emit` stands for `emit_meeting_prep`: the trigger id, or None when
      emitting failed. */
  function EmitMeetingPreps(c: Config, events: seq<Event>, internal: set<string>, now: int,
                            emit: string -> Option<string>): (r: seq<string>)
    ensures !c.individualPrepEnabled ==> r == []
    ensures |r| <= |events|
    ensures forall id :: id in r ==>
      exists e :: e in events && PrepDue(c, e, internal, now) && emit(e.eventId) == Some(id)
    ensures c.individualPrepEnabled ==>
      forall e :: e in events && PrepDue(c, e, internal, now) && emit(e.eventId).Some? ==> emit(e.eventId).value in r
  {
    if !c.individualPrepEnabled then [] else EmitDue(c, events, internal, now, emit)
  }

  function EmitDue(c: Config, events: seq<Event>, internal: set<string>, now: int,
                   emit: string -> Option<string>): (r: seq<string>)
    ensures |r| <= |events|
    ensures forall id :: id in r ==>
      exists e :: e in events && PrepDue(c, e, internal, now) && emit(e.eventId) == Some(id)
    ensures forall e :: e in events && PrepDue(c, e, internal, now) && emit(e.eventId).Some? ==> emit(e.eventId).value in r
  {
    if |events| == 0 then []
    else
      var e := events[0];
      var here := if PrepDue(c, e, internal, now) && emit(e.eventId).Some? then [emit(e.eventId).value] else [];
      var rest := EmitDue(c, events[1..], internal, now, emit);
      assert forall x :: x in events[1..] ==> x in events;
      assert forall x :: x in events ==> x == e || x in events[1..];
      here + rest
  }

  /** A meeting whose start is further away than its rule's lead time gets
      no prep trigger in this round. */
  lemma TooEarlyNotEmitted(c: Config, events: seq<Event>, internal: set<string>, now: int,
                           emit: string -> Option<string>, id: string)
    requires forall e :: e in events && emit(e.eventId) == Some(id) ==>
      ShouldPrepare(c, e, internal).Some? && e.start - now > ShouldPrepare(c, e, internal).value.prepMinutesBefore * 60
    ensures id !in EmitMeetingPreps(c, events, internal, now, emit)
  {
  }
}
