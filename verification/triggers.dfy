/** The trigger publisher: dedupe keys, the dedupe TTL, the claim-marker
    store that guards the write-once outbox, and `write_trigger`.
    The marker directory and the outbox directory are maps from file name
    to contents; the clock, the fresh uuid, the ISO rendering of "now", the
    platform's path separators and the `RT_DEDUPE_TTL_DAYS` variable are
    parameters. */
module Triggers {
  import opened Wrappers
  import Text

  const CapabilityName: string := "inbox-assistant"
  const SecondsPerDay: int := 86400
  const SecondsPerHour: int := 3600
  const DefaultTtlDays: int := 7

  // --------------------------------------------------------- dedupe keys

  /** `make_dedupe_key`: "inbox-assistant:type:user:id". */
  function MakeDedupeKey(triggerType: string, user: string, primaryId: string): (key: string)
    ensures |key| > 0
  {
    CapabilityName + ":" + triggerType + ":" + user + ":" + primaryId
  }

  /** When trigger types and user addresses contain no ':', the key
      determines the trigger type, the user and the primary id. */
  lemma DedupeKeyInjective(t1: string, u1: string, p1: string, t2: string, u2: string, p2: string)
    requires Text.Lacks(t1, ':') && Text.Lacks(t2, ':') && Text.Lacks(u1, ':') && Text.Lacks(u2, ':')
    requires MakeDedupeKey(t1, u1, p1) == MakeDedupeKey(t2, u2, p2)
    ensures t1 == t2 && u1 == u2 && p1 == p2
  {
    var c := CapabilityName + ":";
    var rest1 := t1 + ":" + u1 + ":" + p1;
    var rest2 := t2 + ":" + u2 + ":" + p2;
    assert MakeDedupeKey(t1, u1, p1) == c + rest1;
    assert MakeDedupeKey(t2, u2, p2) == c + rest2;
    assert rest1 == MakeDedupeKey(t1, u1, p1)[|c|..] == rest2;
    assert rest1 == t1 + [':'] + (u1 + ":" + p1);
    assert rest2 == t2 + [':'] + (u2 + ":" + p2);
    Text.FirstSeparator(t1, u1 + ":" + p1, t2, u2 + ":" + p2, ':');
    assert u1 + ":" + p1 == u1 + [':'] + p1;
    assert u2 + ":" + p2 == u2 + [':'] + p2;
    Text.FirstSeparator(u1, p1, u2, p2, ':');
  }

  /** For one trigger type and user, the key determines the primary id,
      whatever characters the type and user hold. */
  lemma DedupeKeySameOwner(t: string, u: string, p1: string, p2: string)
    requires MakeDedupeKey(t, u, p1) == MakeDedupeKey(t, u, p2)
    ensures p1 == p2
  {
    var prefix := CapabilityName + ":" + t + ":" + u + ":";
    assert MakeDedupeKey(t, u, p1) == prefix + p1;
    assert MakeDedupeKey(t, u, p2) == prefix + p2;
    assert p1 == (prefix + p1)[|prefix|..];
    assert p2 == (prefix + p2)[|prefix|..];
  }

  /** The platform's `os.sep` and optional `os.altsep`. */
  datatype PathSeps = PathSeps(sep: char, altsep: Option<char>)

  /** `s.replace(c, by)` for single characters. */
  function Replace(s: string, c: char, sub: char): (r: string)
    ensures |r| == |s|
    ensures forall i :: 0 <= i < |s| ==> r[i] == (if s[i] == c then sub else s[i])
  {
    if |s| == 0 then [] else [if s[0] == c then sub else s[0]] + Replace(s[1..], c, sub)
  }

  /** `_sanitize_dedupe_key`: every path separator becomes '_', so the key
      is a single file name of the same length. */
  function SanitizeKey(key: string, seps: PathSeps): (r: string)
    ensures |r| == |key|
    ensures seps.sep != '_' ==> Text.Lacks(r, seps.sep)
    ensures seps.altsep.Some? && seps.altsep.value != '_' ==> Text.Lacks(r, seps.altsep.value)
    ensures forall i :: 0 <= i < |key| ==>
      r[i] == (if key[i] == seps.sep || (seps.altsep.Some? && key[i] == seps.altsep.value) then '_' else key[i])
  {
    var s := Replace(key, seps.sep, '_');
    if seps.altsep.Some? then Replace(s, seps.altsep.value, '_') else s
  }

  /** Sanitizing is not injective: a key with a separator shares its marker
      with the key that has '_' in its place. */
  lemma SanitizeMerges(seps: PathSeps)
    ensures SanitizeKey([seps.sep], seps) == SanitizeKey("_", seps)
  {
  }

  // ----------------------------------------------------------------- TTL

  function Max0(n: int): nat {
    if n < 0 then 0 else n
  }

  /** `_dedupe_ttl_seconds`: the explicit day count, else the environment's,
      else 7 days when the variable is unset or not an integer; negative
      day counts give 0. */
  function DedupeTtlSeconds(ttlDays: Option<int>, env: Option<string>): (ttl: int)
    ensures ttl >= 0 && ttl % SecondsPerDay == 0
    ensures ttlDays.Some? ==> ttl == Max0(ttlDays.value) * SecondsPerDay
    ensures ttlDays.None? && (env.None? || Text.ParseInt(env.value).None?) ==> ttl == DefaultTtlDays * SecondsPerDay
    ensures ttlDays.None? && env.Some? && Text.ParseInt(env.value).Some? ==>
      ttl == Max0(Text.ParseInt(env.value).value) * SecondsPerDay
  {
    var days :=
      if ttlDays.Some? then ttlDays.value
      else
        var raw := env.UnwrapOr("7");
        Text.ParseInt(raw).UnwrapOr(DefaultTtlDays);
    Max0(days) * SecondsPerDay
  }

  /** With neither an explicit value nor a usable environment value the TTL is one week. */
  lemma DefaultTtlIsAWeek()
    ensures DedupeTtlSeconds(None, None) == 604800
    ensures DedupeTtlSeconds(None, Some("soon")) == 604800
  {
    assert !Text.IsDigits("soon") by { assert !Text.IsDigit("soon"[0]); }
  }

  // ------------------------------------------------------------- markers

  /** A claim marker file: what it records and its modification time. */
  datatype Marker = Marker(dedupeKey: string, triggerId: string, mtime: int)

  /** The marker directory, by file name. */
  type MarkerStore = map<string, Marker>

  /** `_is_marker_fresh`: a marker exists and is younger than the TTL. */
  predicate IsFresh(markers: MarkerStore, name: string, ttl: int, now: int) {
    ttl > 0 && name in markers && now - markers[name].mtime < ttl
  }

  /** `_claim_dedupe_marker`: with no TTL every claim succeeds and nothing is
      recorded; otherwise a fresh marker refuses the claim, and a stale or
      missing one is replaced by a new marker for this trigger. */
  function ClaimMarker(markers: MarkerStore, seps: PathSeps, key: string, ttl: int, triggerId: string, now: int)
    : (r: (bool, MarkerStore))
    ensures ttl <= 0 ==> r == (true, markers)
    ensures ttl > 0 ==> (r.0 <==> !IsFresh(markers, SanitizeKey(key, seps), ttl, now))
    ensures !r.0 ==> r.1 == markers
    ensures r.0 && ttl > 0 ==> r.1 == markers[SanitizeKey(key, seps) := Marker(key, triggerId, now)]
  {
    if ttl <= 0 then (true, markers)
    else
      var name := SanitizeKey(key, seps);
      if IsFresh(markers, name, ttl, now) then (false, markers)
      else (true, markers[name := Marker(key, triggerId, now)])
  }

  /** After a successful claim, the same key cannot be claimed again until
      the TTL has passed, and can be once it has. */
  lemma ClaimWindow(markers: MarkerStore, seps: PathSeps, key: string, ttl: int, id1: string, id2: string, t1: int, t2: int)
    requires ttl > 0 && t1 <= t2
    requires ClaimMarker(markers, seps, key, ttl, id1, t1).0
    ensures var after := ClaimMarker(markers, seps, key, ttl, id1, t1).1;
      ClaimMarker(after, seps, key, ttl, id2, t2).0 <==> t2 - t1 >= ttl
  {
  }

  // ------------------------------------------------------------ triggers

  /** An emitted trigger; JSON payload and routing values are kept as text. */
  datatype Trigger = Trigger(
    id: string,
    capability: string,
    user: string,
    triggerType: string,
    createdAt: string,
    dedupeKey: string,
    payload: map<string, string>,
    routing: Option<map<string, string>>)

  /** The outbox directory, by file name. */
  type Outbox = map<string, Trigger>

  /** The inputs `write_trigger` takes from its surroundings. */
  datatype Env = Env(now: int, nowIso: string, freshUuid: string, seps: PathSeps, ttlEnv: Option<string>)

  datatype Emitted = Emitted(trigger: Trigger, outbox: Outbox, markers: MarkerStore)

  /** Python's `x or default` for an optional string. */
  function OrElse(x: Option<string>, fallback: string): (r: string)
    ensures x.Some? && x.value != "" ==> r == x.value
    ensures x.None? || x.value == "" ==> r == fallback
  {
    if x.Some? && x.value != "" then x.value else fallback
  }

  function FileName(id: string): string {
    id + ".json"
  }

  /** `write_trigger`: an empty dedupe key is an error; otherwise the
      trigger is built, and written to the outbox as `<id>.json` only when
      its dedupe marker can be claimed. Routing is included only when it is
      non-empty. */
  function WriteTrigger(outbox: Outbox, markers: MarkerStore, env: Env,
                        user: string, triggerType: string, payload: map<string, string>,
                        dedupeKey: string, routing: map<string, string>,
                        triggerId: Option<string>, createdAt: Option<string>, ttlDays: Option<int>)
    : (r: Result<Emitted>)
    ensures r.Failure? <==> dedupeKey == []
    ensures r.Success? ==>
      var t := r.value.trigger;
      t.id == OrElse(triggerId, env.freshUuid)
      && t.capability == CapabilityName && t.user == user && t.triggerType == triggerType
      && t.dedupeKey == dedupeKey && t.payload == payload
      && (t.routing.Some? <==> |routing| > 0) && (t.routing.Some? ==> t.routing.value == routing)
    ensures r.Success? ==>
      var claim := ClaimMarker(markers, env.seps, dedupeKey, DedupeTtlSeconds(ttlDays, env.ttlEnv), r.value.trigger.id, env.now);
      r.value.markers == claim.1
      && (claim.0 ==> r.value.outbox == outbox[FileName(r.value.trigger.id) := r.value.trigger])
      && (!claim.0 ==> r.value.outbox == outbox)
  {
    if dedupeKey == [] then Failure("dedupe_key is required")
    else
      var id := OrElse(triggerId, env.freshUuid);
      var trigger := Trigger(id, CapabilityName, user, triggerType, OrElse(createdAt, env.nowIso),
                             dedupeKey, payload, if |routing| > 0 then Some(routing) else None);
      var ttl := DedupeTtlSeconds(ttlDays, env.ttlEnv);
      var claim := ClaimMarker(markers, env.seps, dedupeKey, ttl, id, env.now);
      if !claim.0 then Success(Emitted(trigger, outbox, claim.1))
      else Success(Emitted(trigger, outbox[FileName(id) := trigger], claim.1))
  }

  /** When a write lands in the outbox, a second write with the same dedupe
      key within the TTL writes nothing and changes no marker, so the two
      leave one outbox file. */
  lemma SecondWriteSuppressed(outbox: Outbox, markers: MarkerStore, e1: Env, e2: Env,
                              user: string, triggerType: string, p1: map<string, string>, p2: map<string, string>,
                              dedupeKey: string, routing: map<string, string>, ttlDays: int)
    requires dedupeKey != [] && ttlDays > 0 && e1.seps == e2.seps
    requires e1.now <= e2.now < e1.now + ttlDays * SecondsPerDay
    requires !IsFresh(markers, SanitizeKey(dedupeKey, e1.seps), ttlDays * SecondsPerDay, e1.now)
    ensures var first := WriteTrigger(outbox, markers, e1, user, triggerType, p1, dedupeKey, routing, None, None, Some(ttlDays));
      var second := WriteTrigger(first.value.outbox, first.value.markers, e2, user, triggerType, p2, dedupeKey, routing, None, None, Some(ttlDays));
      second.Success? && second.value.outbox == first.value.outbox && second.value.markers == first.value.markers
  {
    var ttl := DedupeTtlSeconds(Some(ttlDays), e1.ttlEnv);
    assert ttl == DedupeTtlSeconds(Some(ttlDays), e2.ttlEnv) == ttlDays * SecondsPerDay;
  }

  /** With a TTL of zero days nothing is deduplicated: every write with a
      key lands in the outbox. */
  lemma NoTtlAlwaysWrites(outbox: Outbox, markers: MarkerStore, env: Env,
                          user: string, triggerType: string, payload: map<string, string>,
                          dedupeKey: string, routing: map<string, string>, triggerId: Option<string>)
    requires dedupeKey != []
    ensures var r := WriteTrigger(outbox, markers, env, user, triggerType, payload, dedupeKey, routing, triggerId, None, Some(0));
      r.Success? && FileName(r.value.trigger.id) in r.value.outbox && r.value.markers == markers
  {
  }
}
