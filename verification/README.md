# Inbox assistant decision logic, in Dafny

This project models the decision logic of a mailbox assistant: a service that
indexes and searches mail, classifies incoming messages, keeps a working
memory of commitments and decisions, raises alerts and nudges through a
trigger outbox, runs a queue of calendar actions and reasons about free time.
Everything the service delegates to the outside world is a parameter:
language-model agents, the Graph calendar and mail API, the documents
extractor, hashing, uuids, clocks, date parsing and environment variables.
Database tables become maps (keyed tables) or sequences (tables whose row
order matters to an `ORDER BY` or `LIMIT`). The trigger outbox and the
dedupe-marker directory are maps from file name to contents. Instants are
integer seconds, and fusion and recency scores are `real`.

One module per component:

| module | file | what it covers |
|---|---|---|
| `Wrappers`, `Text`, `Sorting` | wrappers.dfy, text.dfy, sorting.dfy | Option/Result, Python `str` helpers (ASCII case folding), a stable sort on a real key |
| `Search`, `UnifiedRetrieval` | search.dfy, unified_search.dfy | reciprocal-rank fusion, mode dispatch, recency weighting, unified search |
| `Chunker` | chunker.dfy | document windows, chunk ids, e-mail and attachment chunk rows, header removal |
| `Triggers` | triggers.dfy | dedupe keys, TTL, claim markers, `write_trigger` |
| `Alerts` | alerts.dfy | glob patterns, fast matchers, the per-rule gate, firing, rule updates |
| `Organizer` | organizer.dfy | per-e-mail processing, trigger choice, category command, follow-ups, weekly digest |
| `WmUpdater`, `WmEngine` | wm_updater.dfy, wm_engine.dfy | working-memory updates, pruning, nudge selection |
| `Facts` | facts.dfy | extraction guards, storing and resolving facts |
| `Actions` | actions.dfy | the proposed → executed / failed action queue |
| `Attachments` | attachments.dfy | the pending → skipped / failed / completed pipeline with hash reuse |
| `Categories`, `ModelUtils` | categories.dfy, model_utils.dfy | the category list and its edits, model-string settings |
| `Calendar`, `MeetingPrep`, `CliCalendar` | calendar.dfy, meeting_prep.dfy, cli_calendar.dfy | overlap tests, slot merging, free gaps, constraints, meeting-prep rules, the command-line free-slot sweep and event commands |
| `Manifest` | manifest.dfy | parameter introspection and the compact manifest |

Where the written description of the system and its code disagree, the model
follows the code:

- Fusing full-text [A, B, C] with vector [B, A, D] at k = 60 gives A, B, C, D.
  A and B tie exactly, and A keeps its first-seen place. The description
  puts B first and breaks ties by recency; the code does neither.
- The recency factor reaches its floor of 0.5 at `days == decay`, not at
  twice the decay, since the code divides by `2 * decay`. A future date gives
  a factor above 1, and no cap applies.
- `calendar-free` selects only the events that start on the requested day.
  An event that began the evening before and runs into the morning is not
  busy time.
- An empty `source_types` list filters no chunks but does exclude facts
  (`if source_types and ...` against `source_types is None or ...`).

## Model

| member | source | states |
|---|---|---|
| Search.RrfMerge | src/search.py:136-184 | the fused list holds each chunk id of either input exactly once; each entry's score is the sum of 1/(k+rank) over both lists, its ranks are its last rank in each list; scores never increase down the list, and equal scores keep the order in which ids were first seen |
| Search.MergeShape | src/search.py:147-184 | the sorted dictionary values are distinct, cover exactly the ids seen, are ordered by descending score and break ties by first insertion |
| Search.MergedPresence | src/search.py:147-181 | an id is in the fused list exactly when it occurs in one of the two inputs |
| Search.LastRankPresent | src/search.py:162-178 | a rank is recorded for an id exactly when the id occurs in that list |
| Search.AccumulateScore | src/search.py:151-178 | after a pass over a list, an id's score has grown by exactly its reciprocal-rank contributions in that list |
| Search.AccumulateOrder | src/search.py:147-178 | dictionary insertion order stays the order of first occurrence across both passes |
| Search.RrfExample | src/search.py:136-184 | for any four distinct chunk ids, with k = 60, full-text [A, B, C] and vector [B, A, D] fuse to A, B, C, D: the A/B and C/D ties keep first-seen order |
| UnifiedRetrieval.HybridSearch | src/search.py:187-217 | "fts" and "vector" return that search's list; "hybrid" returns the fused list of twice-as-long searches cut to the limit; any other mode is an error |
| UnifiedRetrieval.HybridKeepsBest | src/search.py:206-214 | a fused chunk that the cut drops scores no higher than any chunk that was kept |
| UnifiedRetrieval.RecencyFactor | src/search.py:452-455 | the factor is 1 - days/(2*decay) floored at 0.5; it is 1 at day 0, 0.5 from day 'decay' on, and above 1 for a future date |
| UnifiedRetrieval.ApplyRecency | src/search.py:430-460 | one weighted result per input, in order: a dated result's score is multiplied by the recency factor; an undated one, or any under a zero decay (whose division error the source swallows), is unchanged |
| UnifiedRetrieval.RecencyBounds | src/search.py:454-456 | a non-negative score is never cut below half, and with a positive decay and a past date never grows |
| UnifiedRetrieval.ChunkFilter | src/search.py:494-502 | exactly the chunks whose grouped type (virtual e-mail counted as e-mail) is requested are kept, in order; an empty or missing type list keeps all |
| UnifiedRetrieval.Candidates | src/search.py:489-571 | the list starts with one entry per admitted chunk (every chunk whose grouped type passes the filter appears, and nothing else does) and ends with the facts, in order, exactly when facts are asked for and the type list is missing or names "fact"; with recency on, each entry is its source weighted by the recency factor of its date (an undated one keeps its score), otherwise it is the source unchanged |
| UnifiedRetrieval.UnifiedSearch | src/search.py:463-576 | the answer holds `limit` of the candidates (all of them when fewer), drawn from them, in descending score, and no candidate left out scores above one kept; it fails exactly when the mode is unknown |
| UnifiedRetrieval.TopK | src/search.py:573-576 | a candidate that is cut scores no higher than any that is kept |
| UnifiedRetrieval.VirtualEmailFiltersAsEmail | src/search.py:496-502 | a virtual e-mail chunk passes exactly the filters an e-mail chunk passes |
| UnifiedRetrieval.EmptyTypeList | src/search.py:501-565 | an empty type list keeps every chunk but drops the facts |
| Chunker.SentenceCut | src/chunker.py:256-261 | the cut lies just after the terminator of the first separator found after the window start in the second half, or at the window end when none is |
| Chunker.Cut | src/chunker.py:245-261 | the window ends after its start, no later than start+size and no earlier than half a size in; it takes the full size when that reaches the end of the text and otherwise ends before the text end |
| Chunker.CutPrefersParagraph | src/chunker.py:249-261 | away from the end of the text, a paragraph break in the window's second half wins over any sentence break |
| Chunker.WindowsStep | src/chunker.py:267-272 | only the last window can reach the end of the text |
| Chunker.WindowsReachEnd | src/chunker.py:245-272 | with a non-negative overlap the last window reaches the end of the text |
| Chunker.WindowsCover | src/chunker.py:242-272 | the windows cover the whole text: the first starts at 0, each later one starts after and no later than the previous window's end, the last ends at the text end |
| Chunker.ChunkDocument | src/chunker.py:234-274 | an empty text has no chunks, a text up to the size is one chunk, a longer one yields the non-empty stripped window slices, each at most `size` long |
| Chunker.ChunkIdInjective | src/chunker.py:277-279 | for one source type, distinct (source id, index) pairs give distinct chunk ids |
| Chunker.ChunkIdIndex | src/chunker.py:277-279 | the index is the text after the last ':' of the id |
| Chunker.ProcessForIndexing | src/chunker.py:297-341 | nothing for a missing row, a missing or empty body or a body under 50 characters; otherwise the body and the row's fields |
| Chunker.BodyChunks | src/chunker.py:355-360 | none below 50 characters, the body itself up to 1500, else the chunked document |
| Chunker.EmailChunkRows | src/chunker.py:362-436 | body chunk i is written at index i, virtual e-mail at body-chunk count plus its position |
| Chunker.CreateEmailChunks | src/chunker.py:344-447 | the count returned is the number of body chunks plus the number of virtual e-mails, and the table holds every body chunk's row |
| Chunker.EmailBodyStored | src/chunker.py:395-401 | a virtual e-mail's row never overwrites a body chunk's row |
| Chunker.UpsertLastWins | src/chunker.py:374-435 | an upserted row that no later row repeats is what the table holds |
| Chunker.ReplaceAttachment | src/chunker.py:491-513 | the attachment's rows are deleted, then its pieces inserted; an id already present is an error |
| Chunker.CreateAttachmentChunks | src/chunker.py:462-518 | nothing happens without text; otherwise the attachment's chunks are replaced and their count returned |
| Chunker.ReplaceAttachmentSpec | src/chunker.py:493-513 | on a consistent table the replacement succeeds, keeps every other source's rows, leaves exactly the new pieces under their ids and keeps the table consistent |
| Chunker.AttachmentChunksIdempotent | src/chunker.py:462-518 | re-running the attachment chunking leaves the table as the first run left it |
| Chunker.DropAfterInsert | src/chunker.py:494-513 | deleting an attachment's chunks right after inserting them restores the table |
| Chunker.RemoveHeaders | src/chunker.py:171-192 | the result is the block from line b on, joined and stripped, where b is 0 when no line is a header line, and otherwise lies past the first header line h with every line from h up to b-1 a header, line b-1 either a header followed by a content line or the end, or a blank line closing the run |
| Chunker.BodyStartUnique | src/chunker.py:179-190 | that description of the body line fits exactly one line index |
| Chunker.RemoveHeadersNoHeader | src/chunker.py:179-192 | a block without a header line comes back whole, stripped |
| Triggers.DedupeKeyInjective | src/triggers.py:23-24 | with types and users free of ':', the key determines type, user and primary id |
| Triggers.DedupeKeySameOwner | src/triggers.py:23-24 | for one trigger type and user, whatever their characters, the key determines the primary id |
| Triggers.SanitizeKey | src/triggers.py:27-31 | every path separator becomes '_', the length is kept and no separator remains |
| Triggers.SanitizeMerges | src/triggers.py:27-45 | two different keys can share one marker file |
| Triggers.DedupeTtlSeconds | src/triggers.py:34-41 | explicit days, else the environment's integer, else 7 days; negative day counts give 0; the result is days times 86400 |
| Triggers.ClaimMarker | src/triggers.py:48-83 | with no TTL every claim succeeds and nothing is recorded; a fresh marker refuses; a stale or missing one is replaced by this trigger's marker |
| Triggers.ClaimWindow | src/triggers.py:48-64 | after a claim the same key cannot be claimed again until the TTL has passed, and can be once it has |
| Triggers.WriteTrigger | src/triggers.py:86-130 | an empty dedupe key is an error; the trigger carries the given fields and routing only when given; it lands in the outbox under its id exactly when the marker is claimed |
| Triggers.SecondWriteSuppressed | src/triggers.py:106-128 | a second write with the same key within the TTL writes nothing and changes no marker |
| Triggers.NoTtlAlwaysWrites | src/triggers.py:58-128 | with a zero TTL every write lands in the outbox |
| Alerts.PatternMatches | src/alerts.py:213-224 | case-insensitive; without `*` a substring test, with `*` an unanchored search for the pieces in order, `*` spanning no line break (other regex characters taken literally) |
| Alerts.GlobInOrder | src/alerts.py:218-224 | on a value without line breaks a '*' pattern matches exactly when its pieces occur in order |
| Alerts.RuleMatches | src/alerts.py:226-314 | with each condition counted once: "any" matches exactly when one listed condition holds, "all" exactly when every listed condition holds and there is at least one; recipient patterns hold only for sent e-mail |
| Alerts.RuleMatchesAsWritten | src/alerts.py:257-306 | the source's count (one per matching recipient pattern and recipient pair): a match needs some listed condition to hold, "any" matches exactly then, "all" matches whenever every condition holds, and "all" never matches an e-mail that was not sent when recipient patterns are listed |
| Alerts.Overcount | src/alerts.py:257-306 | for any tests under which one recipient pattern matches two recipients and a subject keyword fails, "all" of {pattern, keyword} matches as written but not with each condition counted once |
| Alerts.AllModeOvercounts | src/alerts.py:257-306 | a sent e-mail to two x.com recipients without a subject matches "all" of {recipient x.com, subject budget} |
| Alerts.RecipientsOnlyWhenSent | src/alerts.py:257-263 | two e-mails differing only in recipients get the same verdict, both as written and corrected, unless the event is a sent e-mail |
| Alerts.FastMatchWm | src/alerts.py:316-373 | only a type mismatch or a non-overdue item under overdue_only reject |
| Alerts.FastMatchCalendar | src/alerts.py:536-604 | a rule without calendar conditions matches every event; "any" needs one, "all" every condition |
| Alerts.CooldownSeconds | src/alerts.py:418 | the configured minutes in seconds, and 30 minutes when unset or zero |
| Alerts.Evaluate | src/alerts.py:392-461 | a rule is returned exactly when it is enabled, lists the event type, has no history row for the event, is out of cooldown, fast-matches and (when asked) the semantic check agrees |
| Alerts.SemanticOnlyAfterFastMatch | src/alerts.py:436-455 | two semantic matchers that agree on the rules passing every other test give the same outcome |
| Alerts.EvaluateEmailRules | src/alerts.py:375-465 | the e-mail evaluation over the enabled rules, under the e-mail's event type, using the corrected fast match (each condition counts once) |
| Alerts.EvaluateEmailRulesAsWritten | src/alerts.py:375-465 | the same evaluation over the fast match as written, where in "all" mode every matching recipient adds to the count |
| Alerts.EmailRulesDifferOnlyInFastMatch | src/alerts.py:257-306 | a rule admitted by one evaluation and not the other is one on which the two fast matches disagree |
| Alerts.EvaluateWmRules | src/alerts.py:467-534 | the working-memory evaluation, without a semantic check |
| Alerts.EvaluateCalendarRules | src/alerts.py:606-701 | the calendar evaluation under "calendar_event" |
| Alerts.AlertPayloadKeys | src/alerts.py:714-724 | the payload holds the five identifying keys and exactly the forwarded keys the event has, with its values |
| Alerts.AlertRouting | src/alerts.py:726-729 | the rule's channel, "teams" by default, and its target when set |
| Alerts.EmitAlertTrigger | src/alerts.py:703-775 | writes the trigger through the dedupe guard, records the history row and stamps the rule |
| Alerts.NoRepeatAfterEmit | src/alerts.py:405-763 | after a rule fires for an event, evaluating that event again never yields the rule |
| Alerts.CooldownAfterEmit | src/alerts.py:413-771 | after a rule fires it fires for no event until its cooldown has passed |
| Alerts.UpdateAlertRule | src/alerts.py:861-889 | fields outside the whitelist are dropped; with nothing left it reports false and writes nothing; otherwise it reports whether a rule has the id, every rule with the id gets the updates applied and the update stamp, and every other rule is unchanged |
| Alerts.ApplyUpdates | src/alerts.py:867-883 | id, text, event types, conditions and firing record never change; a whitelisted column no update names keeps its value |
| Alerts.ApplyUpdatesLastWins | src/alerts.py:867-883 | enabled, channel, channel target and cooldown each take the value of the last update naming them |
| Alerts.DisabledNeverFires | src/alerts.py:385-889 | a rule disabled through the update never fires afterwards |
| Facts.ExtractFromEmail | src/facts.py:149-188 | a short or empty body never reaches the agent and gives no facts; an agent failure gives no facts; otherwise the agent's facts |
| Facts.ExtractFromAttachment | src/facts.py:190-227 | the same guard, with the attachment prompt |
| Facts.PromptShape | src/facts.py:171-180 | the context lines come first, then a blank line and the content |
| Facts.EmailPromptWithContext | src/facts.py:172-180 | with subject and sender the prompt is the two header lines, a blank line and the whole body |
| Facts.AttachmentPromptBounded | src/facts.py:210-219 | the agent sees a prefix of the text no longer than 10000 characters, at the end of the prompt |
| Facts.NewRow | src/facts.py:256-276 | the inserted row is active, unresolved, carries the fact's type, value and due date and the source it came from |
| Facts.StoreFacts | src/facts.py:229-287 | no facts store nothing; the count is at most the number of facts and equals the number of new rows; existing rows are untouched; every new row is active, under one of the fresh ids |
| Facts.StoreFactsFresh | src/facts.py:252-279 | with fresh ids exactly the facts the database accepts are stored, each under its own id with its own content |
| Facts.ResolveFact | src/facts.py:435-458 | a row changes exactly when an active fact has the id; it becomes resolved and stamped; nothing else changes |
| Facts.ResolveIdempotent | src/facts.py:447-456 | resolving twice: the second call reports no update and changes nothing |
| Facts.ResolveOnlyRetires | src/facts.py:447-454 | resolving never activates a row and keeps every row's content |
| Categories.Lookup | src/categories_config.py:298 | the preset of a known colour, preset7 for an unknown one |
| Categories.GetFlagSettings | src/categories_config.py:81-147 | immediate and today flag due today, this_week flags due this week, anything else sets no flag |
| Categories.FlagIffUrgent | src/categories_config.py:81-147 | a flag is set exactly for the three urgent levels, and then both status and due are present |
| Categories.GetCategories | src/categories_config.py:89-112 | the stored list, or the defaults when there is none |
| Categories.GetCategoryConfig | src/categories_config.py:120-136 | none exactly when no category has the name ignoring case; otherwise a stored category of that name |
| Categories.EnsureInitialized | src/categories_config.py:166-188 | the defaults are stored exactly when no list exists; the list returned is the one stored afterwards |
| Categories.EnsureInitializedIdempotent | src/categories_config.py:166-188 | a second initialisation changes nothing and reports no change |
| Categories.AddCategory | src/categories_config.py:190-229 | fails exactly on a name clash ignoring case; otherwise appends the category with its colour lowercased and the colour's preset |
| Categories.AddKeepsUnique | src/categories_config.py:190-229 | adding keeps names unique ignoring case |
| Categories.RemoveCategory | src/categories_config.py:231-251 | fails exactly when no category has the name; otherwise removes and returns the first one that does |
| Categories.RemoveKeepsUnique | src/categories_config.py:231-251 | removing keeps names unique and leaves the name absent |
| Categories.ApplyEdit | src/categories_config.py:294-304 | each given field replaces the old one; a colour also sets its preset; the flag value "none" in any case clears the flag |
| Categories.EditCategory | src/categories_config.py:253-306 | fails exactly when the name is missing or a real rename would clash; otherwise only the first matching category changes, in place |
| Categories.CaseOnlyRenameKeepsName | src/categories_config.py:290-294 | a rename that differs only in case leaves the name unchanged |
| Categories.EditKeepsUnique | src/categories_config.py:253-306 | editing keeps names unique ignoring case |
| Categories.DefaultsUnique | src/categories_config.py:23-59 | the default names are unique ignoring case |
| ModelUtils.ParseValue | src/model_utils.py:33-40 | "true"/"false" in any case become booleans, all-digit text an integer of its value, anything else stays text |
| ModelUtils.ParseSettings | src/model_utils.py:29-40 | a key is set exactly when some '@' segment holding '=' names it |
| ModelUtils.LastSegmentWins | src/model_utils.py:29-40 | a key's value comes from the last segment that sets it |
| ModelUtils.ParseModelString | src/model_utils.py:14-42 | without '@' the whole text is the name and there are no settings; otherwise the name is the text before the first '@' and the settings come from the rest |
| ModelUtils.ParseOneSetting | src/model_utils.py:22-42 | a name with one key=value setting parses back to that name and setting |
| ModelUtils.ThinkingFor | src/model_utils.py:71-77 | true asks for 10000 tokens, a positive integer for that many, anything else for none |
| ModelUtils.GetModelSettings | src/model_utils.py:45-80 | none without settings, for another provider, or when no setting maps to a keyword; otherwise the provider's keyword arguments |
| ModelUtils.AnthropicSettingsOf | src/model_utils.py:68-78 | for an anthropic model the settings are the thinking budget alone |
| ModelUtils.ThinkingOffGivesNone | src/model_utils.py:71-78 | thinking=false and thinking=0 leave an anthropic model without settings |
| ModelUtils.ThinkingBudgetGiven | src/model_utils.py:71-78 | thinking=n with n > 0 asks for an n-token budget |
| Organizer.Unprocessed | src/organizer.py:184 | the selection is exactly the e-mails whose processed stamp is null |
| Organizer.VipSet | src/organizer.py:213 | the VIP set is the stripped, lowercased, non-blank configured senders |
| Organizer.BlankSenderNotVip | src/organizer.py:213-214 | a missing or blank sender is never a VIP |
| Organizer.ReplaceLabels | src/organizer.py:256-265 | the message's labels become exactly the given texts at one confidence; other messages' labels are untouched |
| Organizer.UpsertReply | src/organizer.py:270-282 | a new row or the existing one with flag, reason and last activity replaced and its nudge and follow-up stamps kept |
| Organizer.ProcessEmail | src/organizer.py:208-309 | an agent failure or a failing write outside the label block rolls everything back; a failing label write does not; otherwise only this e-mail's rows change |
| Organizer.ProcessCommitsTogether | src/organizer.py:233-253 | on success the triage row is appended and a stored e-mail gets its stamp, categories and urgency |
| Organizer.FailureIsRetried | src/organizer.py:305-307 | a failed run leaves the e-mail selected for the next run |
| Organizer.SuccessLeavesSelection | src/organizer.py:244-252 | a successful run takes a stored e-mail out of the selection |
| Organizer.LabelsReplaced | src/organizer.py:226-265 | when the label block runs through, the labels become the decision's non-blank labels, stripped, plus "vip" exactly for a VIP sender or when the agent gave it |
| Organizer.LabelFailureStillCommits | src/organizer.py:255-281 | a failing label block is logged and the commit goes ahead: the e-mail is stamped and logged, other messages' labels are untouched, the old labels stay when the DELETE raised, and the labels before the failing insert are stored when an insert raised |
| Organizer.ReplyTrackingOnlyWhenRequired | src/organizer.py:269-282 | reply tracking is written, with the reply reason or else the reason, only when a reply is required |
| Organizer.ProcessBatch | src/organizer.py:178-201 | a batch touches only the e-mails it holds |
| Organizer.BatchOutcome | src/organizer.py:196-201 | in a batch each e-mail that succeeded is processed and each that failed keeps its stamp |
| Organizer.AvailabilityFor | src/organizer.py:346-357 | missing details fall back to 30 minutes, the default timezone and no proposed slots, with Python's falsy zero and empty text counting as missing |
| Organizer.AvailabilityPart | src/organizer.py:345-374 | one availability trigger exactly when requested: the enhanced one, or the plain one when that raises |
| Organizer.EmailTriggers | src/organizer.py:301-374 | none in backfill; otherwise urgent_email iff immediate, reply_needed iff a reply is required, an availability trigger iff requested, each keyed on the message |
| Organizer.FlagArgs | src/organizer.py:390-395 | the flag and due arguments for the urgent levels, none otherwise |
| Organizer.CategoryCommandShape | src/organizer.py:376-398 | no command exactly for uncategorised someday mail; otherwise update-message on the message, then categories that split back into the list, the flag arguments and the user |
| Organizer.FollowupDays | src/organizer.py:415 | a non-zero preference wins; otherwise the environment value or "2", parsed |
| Organizer.ZeroPreferenceFallsThrough | src/organizer.py:415 | a zero preference is falsy and falls through to the environment |
| Organizer.FollowupSelection | src/organizer.py:421-433 | at most 50 eligible rows without repeats; when the input order is the table's order by last activity, they are the eligible rows of earliest activity, oldest first: no eligible row left out has earlier activity than one selected, and none is left out when fewer than 50 are selected |
| Organizer.NudgeRowsSound | src/organizer.py:437-470 | each nudge is for a selected eligible row whose last activity parses and is at least n days old; it carries that raw timestamp, max(n, whole days waited) and the per-message dedupe key, and the row is left with nudge_scheduled_at set |
| Organizer.NudgeRowsUntouched | src/organizer.py:437-470 | a row the pass emits no nudge for keeps its reply-tracking record unchanged |
| Organizer.EmitFollowups | src/organizer.py:414-475 | nothing for n <= 0; otherwise at most 50 nudges, each for an eligible row whose last activity parses and is at least n days old, which is then no longer eligible; rows without a nudge and the e-mails are untouched |
| Organizer.NudgeRowsComplete | src/organizer.py:437-470 | every selected row whose last activity parses and is at least n days old gets a nudge |
| Organizer.EmitFollowupsComplete | src/organizer.py:414-475 | with n > 0, every selected row whose last activity parses and is at least n days old is nudged |
| Organizer.NudgedOnce | src/organizer.py:426-472 | a later pass never nudges a message an earlier pass nudged |
| Organizer.WeekStart | src/organizer.py:519 | the Monday on or before the day, within the same week |
| Organizer.CollectDigestTop | src/organizer.py:545-573 | the top items are the first 15 in-week rows, in query order |
| Organizer.CollectDigestActions | src/organizer.py:545-566 | the actions are the subjects of every in-week row that is urgent or action-required, in query order |
| Organizer.WeeklyDigest | src/organizer.py:477-600 | a digest for the Monday-based week, ending six days later, emitted only when that week has none yet and then recorded; its top items are the first 15 in-week rows among the first 500 rows of the digest query as given, its actions at most 20, keyed on the week start; otherwise nothing changes |
| Organizer.DigestOncePerWeek | src/organizer.py:525-530 | once a digest is emitted no later call in the same week emits one |
| Organizer.DigestOnlyInWindow | src/organizer.py:496-517 | a digest is only emitted on the configured weekday inside [scheduled, scheduled + window] |
| Organizer.ScheduleAt | src/organizer.py:496-517 | the digest is due exactly when the day name is known and is today's weekday, the time and window parse, the hour and minute are in range and the moment lies in [scheduled, scheduled + window]; the week is the Monday-based week of today |
| Organizer.DigestWhenDue | src/organizer.py:478-600 | an enabled digest whose settings parse, called inside the window on the configured weekday of a week without a digest, is emitted |
| Organizer.DigestUnknownDay | src/organizer.py:500-501 | an unknown day name never emits a digest |
| WmUpdater.IsUserCc | src/working_memory/updater.py:133-146 | true exactly when the user, ignoring case, is among the CC recipients and not among the direct ones |
| WmUpdater.CcIgnoresUserCase | src/working_memory/updater.py:142-146 | the CC test does not depend on how the user's address is cased |
| WmUpdater.EffectiveObservations | src/working_memory/updater.py:265-272 | the agent's observations when there are any; one context_learned observation for a CC e-mail without any; none otherwise |
| WmUpdater.ObservationRows | src/working_memory/updater.py:274-317 | every observation other than `commitment_made` gives its row and every row comes from such an observation; each row is active and typed preference, relationship or pattern |
| WmUpdater.ObservationRowsAppend | src/working_memory/updater.py:286-317 | rows come in observation order: the rows of two runs of observations are those of the first followed by those of the second |
| WmUpdater.ObservationTypeTable | src/working_memory/updater.py:275-295 | the observation types map through the fixed table, any other type to "preference", and `commitment_made` gives no row |
| WmUpdater.NewFactsActive | src/working_memory/updater.py:255-383 | every inserted row is active, unresolved, from this e-mail and extracted now |
| WmUpdater.DecisionsOnlyWhenDirect | src/working_memory/updater.py:186-197 | a CC e-mail never records a decision; a direct one records each requested decision; commitments are recorded either way |
| WmUpdater.CcWithoutObservations | src/working_memory/updater.py:265-317 | a CC e-mail without observations gets exactly one preference row about its thread |
| WmUpdater.InsertRows | src/working_memory/updater.py:301-317 | with fresh ids every row is stored under its id and nothing else changes; an id already taken is an error |
| WmUpdater.UpdateRow | src/working_memory/updater.py:200-210 | content and signature overwrite only when present, summary and suggested action always, and the processed stamp only when empty |
| WmUpdater.ProcessedAtStable | src/working_memory/updater.py:206 | once set, the processed stamp never changes |
| WmUpdater.UpdateEmail | src/working_memory/updater.py:200-210 | only the e-mail with the id changes; a missing row stays missing |
| WmUpdater.ProcessEmail | src/working_memory/updater.py:148-220 | either everything commits (the new rows and the e-mail update) or nothing does; with fresh ids everything commits |
| WmUpdater.ProcessEmailCommits | src/working_memory/updater.py:184-212 | with fresh ids every row is stored and the e-mail is marked processed, also when the agent failed |
| WmUpdater.ProcessEmailAsWritten | src/working_memory/updater.py:200-218 | as written, reading the undeclared analysis attributes raises and the handler rolls back: an analysis without them leaves the database exactly as it was, and only an analysis carrying them commits |
| WmUpdater.AgentFailureLosesUpdate | src/working_memory/updater.py:178-218 | after an agent failure the code as written stores nothing and leaves the stamp empty, while the corrected update stores the observation and marks the e-mail |
| WmEngine.ParseDayCounts | src/working_memory/engine.py:74 | without environment values the retention, reply and decision days are 30, 2 and 3 |
| WmEngine.Prune | src/working_memory/engine.py:72-88 | exactly the active observation rows extracted before the threshold become expired, and their number is returned |
| WmEngine.PruneIdempotent | src/working_memory/engine.py:78-88 | pruning again at once expires nothing more |
| WmEngine.PruneKeepsObligations | src/working_memory/engine.py:83 | decisions, commitments and other types are never expired |
| WmEngine.OverdueReplyThreads | src/working_memory/engine.py:189-232 | at most five awaiting threads, oldest activity first |
| WmEngine.OverdueRepliesOldestFirst | src/working_memory/engine.py:205-206 | an awaiting thread left out of the five is no older than any chosen |
| WmEngine.SelectFacts | src/working_memory/engine.py:234-268 | at most `limit` ids in scan order, each matching the query |
| WmEngine.SelectFactsComplete | src/working_memory/engine.py:234-268 | fewer than the limit selected means every match was selected |
| WmEngine.CommitmentPart | src/working_memory/engine.py:234-268 | at most five nudges, each naming an active commitment due before now |
| WmEngine.StaleThreads | src/working_memory/engine.py:270-303 | the threads returned are exactly those of the list with urgency immediate or today and no activity for more than 24 hours |
| WmEngine.StalePart | src/working_memory/engine.py:270-303 | at most three stale-thread nudges, each naming a thread of the list whose urgency is immediate or today and whose last activity is more than 24 hours old; when there are at most three such threads, every one of them gets a nudge |
| WmEngine.DecisionPart | src/working_memory/engine.py:305-340 | at most three nudges, each naming an active decision older than the threshold |
| WmEngine.Assemble | src/working_memory/engine.py:166-187 | the nudges are the four kinds, counted and in generation order |
| WmEngine.NudgesJustified | src/working_memory/engine.py:234-340 | every commitment nudge names an overdue active commitment, every stale-thread nudge an urgent thread idle for 24 hours, and every decision nudge a stale active decision |
| WmEngine.NudgeId | src/working_memory/engine.py:97-102 | the first non-empty of the thread, commitment and decision ids, else the hash of the message |
| WmEngine.EventTypes | src/working_memory/engine.py:124-165 | reply and stale nudges are thread events; commitments and decisions have their own types |
| WmEngine.Emissions | src/working_memory/engine.py:90-122 | one emission per nudge, keyed on its type and nudge id |
| WmEngine.CommitmentKeysDistinct | src/working_memory/engine.py:97-108 | two commitment nudges for different facts never share a dedupe key |
| WmEngine.RunCycle | src/working_memory/engine.py:37-70 | an unparsable retention fails the cycle before any change; otherwise the pruning is committed; when the reply and decision day counts also parse, one emission is made per nudge selected from the pruned table, in order, and otherwise none |
| WmEngine.NudgesUnaffectedByPrune | src/working_memory/engine.py:53-59 | the nudges are the same as before pruning |
| Actions.Item | src/action_executor.py:92-125 | a missing payload key fails with the quoted key as the error text; a present one gives its value |
| Actions.OptionalTime | src/action_executor.py:104-105 | an absent or falsy time is none; anything else succeeds exactly when it parses |
| Actions.ExecuteAction | src/action_executor.py:87-132 | an unknown type fails with "Unknown action type: ..."; each known type gives its own kind of result |
| Actions.RespondEventMakesNoCall | src/action_executor.py:121-129 | respond_event does not depend on the client and succeeds exactly when the payload names the event and the response |
| Actions.CreateNeedsTimes | src/action_executor.py:90-100 | a created event needs the subject and both times, each of which parses |
| Actions.Attempt | src/action_executor.py:49-54 | a client that cannot be built fails every action, whatever its type |
| Actions.Settle | src/action_executor.py:56-80 | the row is stamped and becomes executed with its result exactly on success, failed with its error exactly on failure |
| Actions.Picked | src/action_executor.py:26-34 | at most ten proposed actions, oldest first |
| Actions.PickedOldestFirst | src/action_executor.py:31-32 | a proposed action left for a later poll is no older than any picked one |
| Actions.PickedEmptyIff | src/action_executor.py:26-38 | nothing is picked exactly when nothing is proposed |
| Actions.HasPendingIff | src/action_executor.py:135-142 | pending exactly when some action is proposed |
| Actions.RunPicked | src/action_executor.py:44-84 | each picked row is settled, every other row kept, and executed plus failed is the number picked |
| Actions.Poll | src/action_executor.py:18-84 | every picked action ends executed or failed, no other row changes, and the counts add up |
| Actions.EmptyQueueNoop | src/action_executor.py:36-38 | an empty queue returns zero counts and leaves the table alone |
| Actions.PickedActionsSettle | src/action_executor.py:56-80 | each picked action ends in exactly one terminal state with its timestamp and a result or an error |
| Actions.UnknownTypeFails | src/action_executor.py:131-132 | an action of unknown type is marked failed with the ValueError text |
| Actions.PollAsWritten | src/action_executor.py:44-48 | as written: without a malformed payload it is the same as the corrected poll |
| Actions.PoisonActionBlocksQueue | src/action_executor.py:44-48 | when the oldest proposed action has a malformed payload, the poll as written aborts and leaves the table exactly as it was |
| Actions.PoisonActionSettles | src/action_executor.py:44-80 | the corrected poll marks that action failed with the decoding error |
| Attachments.Limit | src/attachments.py:73 | a negative limit means no limit, otherwise the first n rows |
| Attachments.SelectPending | src/attachments.py:63-78 | at most `limit` pending rows, smallest first |
| Attachments.SelectSmallestFirst | src/attachments.py:72-73 | a pending attachment left out is no smaller than any selected one, and only left out when the limit was reached |
| Attachments.PathName | src/attachments.py:235 | the path's name is its last component that is neither empty nor ".", or empty when there is none |
| Attachments.Stem | src/attachments.py:235 | the stem is the path's name up to its last dot, unless that dot is the first or the last character, in which case it is the whole name |
| Attachments.StemIgnoresTrailingSlash | src/attachments.py:235-236 | a trailing "/" leaves the name and the stem unchanged ("logo.png/" has the stem of "logo.png") |
| Attachments.FilenameOf | src/attachments.py:227 | a missing or empty filename reads as "unknown"; any other is kept |
| Attachments.FindCached | src/attachments.py:259-265 | the first other row with the same hash and stored text, or none when there is no such row |
| Attachments.ProcessAttachment | src/attachments.py:221-300 | the outcome is completed, failed or skipped; completed carries text and a hash; the others carry an error and no text |
| Attachments.NoiseNameSkipped | src/attachments.py:233-241 | a noise file name is skipped, whatever its type, before any download |
| Attachments.UnsupportedTypeSkipped | src/attachments.py:243-248 | an unsupported type is skipped before any download |
| Attachments.DownloadFailureFails | src/attachments.py:250-254 | a failed download fails the attachment, with no hash |
| Attachments.DuplicateContentReused | src/attachments.py:256-283 | content already extracted elsewhere is reused: completed, the first such row's text, and the extractor plays no part |
| Attachments.EmptyExtractionFails | src/attachments.py:285-300 | without a cached copy an empty extraction fails and keeps the hash |
| Attachments.FreshExtractionCompletes | src/attachments.py:285-293 | without a cached copy a non-empty extraction completes the attachment with that text and the content hash |
| Attachments.CompletedTextNonEmpty | src/attachments.py:285-295 | a completed attachment carries non-empty text when every stored text is non-empty |
| Attachments.Store | src/attachments.py:196-219 | only the row with the id changes, to the new status, text, error and hash |
| Attachments.BucketMatchesStatus | src/attachments.py:400-414 | success counts completed; a failure counts skipped exactly when the status written was skipped, otherwise failed |
| Attachments.RunPass | src/attachments.py:391-418 | the listed attachments leave pending, other rows are untouched, and the counts grow by one per attachment |
| Attachments.ProcessPending | src/attachments.py:373-424 | every selected attachment leaves pending, every other row is untouched, and the three counts add up to the number selected |
| Calendar.DurationMinutes | src/calendar.py:59-61 | the whole minutes between start and end, truncated toward zero, also for a negative span |
| Calendar.CheckAvailability | src/calendar.py:354-368 | an empty answer counts as free; otherwise busy exactly when some busy, out-of-office or tentative item overlaps the slot |
| Calendar.TouchingOrFreeNeverBlocks | src/calendar.py:361-366 | free items, and busy items that only touch the slot, never make it busy |
| Calendar.MergeTimeSlots | src/calendar_intelligence.py:272-289 | no more slots than the input, and none exactly when the input is empty |
| Calendar.MergeFromCovers | src/calendar_intelligence.py:280-287 | merging covers exactly the instants the merged and remaining slots cover |
| Calendar.MergeTimeSlotsSpec | src/calendar_intelligence.py:272-289 | the output is sorted by start with a gap between consecutive slots, covers exactly the union of the input, and contains every input slot |
| Calendar.DayNamesAgree | src/calendar_intelligence.py:221-224 | the day's name maps back to its weekday |
| Calendar.BusyPeriods | src/calendar_intelligence.py:203-212 | the busy periods are exactly the slots of the busy, out-of-office or tentative items of the results |
| Calendar.Scan | src/calendar_intelligence.py:240-262 | the cursor never moves back, every busy period ends by the cursor or starts after the window, and each gap lies in the window and lasts at least the minimum |
| Calendar.ScanAvoidsBusy | src/calendar_intelligence.py:240-262 | with busy periods sorted by start, no gap shares an instant with any of them |
| Calendar.DaySlots | src/calendar_intelligence.py:218-264 | the gaps of one working day lie within its working hours and last at least the minimum |
| Calendar.SlotsFrom | src/calendar_intelligence.py:216-268 | each gap lies in the range, lasts at least the minimum and is a gap of one of the days walked |
| Calendar.ExtractFreeSlots | src/calendar_intelligence.py:179-270 | no schedule gives no slots; it fails exactly when there are results, the working hours are outside 0..23 and some working day lies in the range |
| Calendar.FreeSlotsSound | src/calendar_intelligence.py:179-270 | every free slot lies inside the range and inside the working hours of a working day, lasts at least the minimum, and shares no instant with any busy item |
| Calendar.ApplyConstraints | src/calendar_intelligence.py:291-332 | the kept slots are a subsequence of the input and exactly those the lowercased constraints allow |
| Calendar.ConstraintExamples | src/calendar_intelligence.py:304-318 | "weekdays only" drops weekend slots and "avoid mornings" drops slots starting before noon, in any letter case |
| Calendar.RecommendationPriority | src/calendar_intelligence.py:345-366 | each tier decides the message alone: available proposed slots first, then times found for both parties, then the count of alternative free slots, then the fallback |
| Calendar.OfferedSlots | src/calendar_intelligence.py:63-122 | none when the schedule fetch fails or the hours raise; otherwise the first ten (or all, if fewer) of the free slots the constraints keep, constraints applying only when given |
| Calendar.OfferedWithoutConstraints | src/calendar_intelligence.py:63-119 | without constraints the offer is the first ten free slots |
| MeetingPrep.DomainOf | src/meeting_prep.py:184 | the part after the last '@', lowercased, holds no '@' |
| MeetingPrep.InternalDomains | src/meeting_prep.py:172-178 | the user's own domain, or nothing without a user |
| MeetingPrep.IsExternal | src/meeting_prep.py:180-185 | an empty address is not external; otherwise external exactly when its domain is not internal |
| MeetingPrep.ExternalIsDomainTest | src/meeting_prep.py:172-185 | an address at the user's domain in any case is internal; without a user every non-empty address is external |
| MeetingPrep.EmptyRuleNeverMatches | src/meeting_prep.py:213-244 | a rule with no condition set never matches |
| MeetingPrep.ShouldPrepare | src/meeting_prep.py:191-246 | no rule for an excluded event; otherwise some rule exactly when an enabled rule has a condition that holds, and then the first such rule |
| MeetingPrep.NoFiringRuleNoPrep | src/meeting_prep.py:209-246 | disabling every rule, or clearing every condition, turns prep off |
| MeetingPrep.ExternalMeetingGetsDefaultRule | src/meeting_prep.py:57-78 | with the defaults a long enough accepted meeting with an outsider gets the external-meetings rule |
| MeetingPrep.BackToBackAlerts | src/meeting_prep.py:493-504 | one alert exactly for each pair of consecutive timed meetings, in start order, with under five minutes between them |
| MeetingPrep.BackToBackAlertsTimed | src/meeting_prep.py:494-499 | no alert involves an all-day event, and each pairs meetings in start order |
| MeetingPrep.EmitMeetingPreps | src/meeting_prep.py:593-628 | nothing when individual prep is off; otherwise the ids emitted are exactly those of due events whose emission succeeded |
| MeetingPrep.TooEarlyNotEmitted | src/meeting_prep.py:618-623 | a meeting further away than its rule's lead time gets no prep trigger this round |
| CliCalendar.DayBusy | packages/aech-cli-inbox-assistant/src/aech_cli_inbox_assistant/main.py:578-598 | the busy periods are exactly the non-cancelled busy, tentative or out-of-office events starting that day |
| CliCalendar.SortBusy | packages/aech-cli-inbox-assistant/src/aech_cli_inbox_assistant/main.py:600-603 | sorted by start, a permutation of the busy periods |
| CliCalendar.SweepFrom | packages/aech-cli-inbox-assistant/src/aech_cli_inbox_assistant/main.py:600-611 | the cursor never moves back and ends past every period; each gap starts at or after the cursor, ends where a busy period starts and carries its truncated minutes |
| CliCalendar.CalendarFree | packages/aech-cli-inbox-assistant/src/aech_cli_inbox_assistant/main.py:562-619 | fails with invalid_date exactly when the date does not parse |
| CliCalendar.Closing | packages/aech-cli-inbox-assistant/src/aech_cli_inbox_assistant/main.py:612-617 | one closing slot up to 17:00 exactly when the sweep stops before 17:00 |
| CliCalendar.SweepAvoidsBusy | packages/aech-cli-inbox-assistant/src/aech_cli_inbox_assistant/main.py:600-611 | each gap keeps clear of every busy period |
| CliCalendar.SweepOrdered | packages/aech-cli-inbox-assistant/src/aech_cli_inbox_assistant/main.py:600-611 | with well-formed periods consecutive gaps do not overlap and all end by the final cursor |
| CliCalendar.FreeOnAvoidsBusy | packages/aech-cli-inbox-assistant/src/aech_cli_inbox_assistant/main.py:578-617 | no free slot shares an instant with a busy, tentative or out-of-office event starting that day |
| CliCalendar.FreeOnOrdered | packages/aech-cli-inbox-assistant/src/aech_cli_inbox_assistant/main.py:591-617 | free slots start at or after 09:00 and, with well-formed events, come in time order without overlapping |
| CliCalendar.FreeOnEndsAtClose | packages/aech-cli-inbox-assistant/src/aech_cli_inbox_assistant/main.py:612-617 | once the day's events end before 17:00 the last slot runs to 17:00 |
| CliCalendar.GapBeforeEveningMeetingUnclipped | packages/aech-cli-inbox-assistant/src/aech_cli_inbox_assistant/main.py:602-609 | a busy period starting after 17:00 is not clipped: the slot before it runs from 09:00 to its start |
| CliCalendar.SpaceToT | packages/aech-cli-inbox-assistant/src/aech_cli_inbox_assistant/main.py:826-827 | every space becomes 'T' and nothing else changes |
| CliCalendar.CreatePayload | packages/aech-cli-inbox-assistant/src/aech_cli_inbox_assistant/main.py:829-837 | the payload has exactly the seven keys, with both times' spaces replaced by 'T' |
| CliCalendar.UpdatePayload | packages/aech-cli-inbox-assistant/src/aech_cli_inbox_assistant/main.py:851-859 | the event id always; subject, start, end and location each present exactly when given and non-empty, with the given value (times with spaces turned into 'T'); no other key |
| CliCalendar.CreateAction | packages/aech-cli-inbox-assistant/src/aech_cli_inbox_assistant/main.py:793-813 | a new proposed row stamped with the clock, unexecuted, carrying the payload and type |
| CliCalendar.EventRespond | packages/aech-cli-inbox-assistant/src/aech_cli_inbox_assistant/main.py:879-894 | fails with invalid_response exactly when the response is not accept, tentative or decline; otherwise a proposed respond_event action for the event |
| CliCalendar.QueuedActionPending | packages/aech-cli-inbox-assistant/src/aech_cli_inbox_assistant/main.py:839-840 | a queued action is pending for the executor |
| CliCalendar.RespondRoundTrip | packages/aech-cli-inbox-assistant/src/aech_cli_inbox_assistant/main.py:888-894 | the executor reads back the event id and response that event-respond wrote, and calls nobody |
| CliCalendar.CancelRoundTrip | packages/aech-cli-inbox-assistant/src/aech_cli_inbox_assistant/main.py:865-876 | event-cancel makes the executor delete exactly the named event |
| CliCalendar.CreateRoundTrip | packages/aech-cli-inbox-assistant/src/aech_cli_inbox_assistant/main.py:816-840 | event-create with parsable times becomes exactly one create call carrying those times |
| CliCalendar.UpdateWithoutTimes | packages/aech-cli-inbox-assistant/src/aech_cli_inbox_assistant/main.py:843-862 | event-update without new times sends an update with neither time |
| Manifest.OptionName | generate_manifest.py:56-63 | the first declared name starting with "--", without the dashes, else the parameter name |
| Manifest.Introspect | generate_manifest.py:24-74 | only arguments and options are kept; required exactly when the default is the ellipsis; the description is the help text; an option's default is kept only when meaningful |
| Manifest.CommandParams | generate_manifest.py:124-133 | the parameters are exactly the introspected recognised ones other than verbose and debug |
| Manifest.CommandParamsAppend | generate_manifest.py:124-133 | parameters keep signature order: those of two runs of a signature are the first's followed by the second's |
| Manifest.Describe | generate_manifest.py:249-271 | the name, then ": description" when there is one, then " [default]" when there is one |
| Manifest.ArgString | generate_manifest.py:249-260 | an optional argument is bracketed, a required one is not |
| Manifest.OptString | generate_manifest.py:263-271 | an option's string starts with "--" and its name |
| Manifest.CompactParameters | generate_manifest.py:231-274 | arguments go to args and every other kind to opts, each in order and nothing lost |
| Manifest.CompactAppend | generate_manifest.py:242-272 | compacting a concatenation concatenates the compacted parts |
| Manifest.CompactExamples | generate_manifest.py:256-271 | a bare required argument is its name; a bare option with a default shows it in brackets |
| Manifest.FalseFlagHasNoDefault | generate_manifest.py:72-74 | a boolean flag defaulting to False is listed without a default |
| Manifest.CompactActionOf | generate_manifest.py:305-320 | desc, args, opts and out are present exactly when non-empty or known, and hold those values |
| Manifest.Put | generate_manifest.py:322 | a new name is appended, an existing one keeps its place and takes the new entry |
| Manifest.BuildCompactManifest | generate_manifest.py:276-327 | name, command, description and the example line come from the introspection; actions are present exactly when there are any |
| Manifest.ManifestListsEveryAction | generate_manifest.py:303-325 | every action of the application is listed by name |
| Manifest.ManifestEntriesFaithful | generate_manifest.py:303-325 | each listed action is the compact form of an introspected action of that name |

## Left out

- Network and process calls: Graph and msgraph requests, the documents `subprocess`, and HTTP become parameters or results supplied by the caller.
- SQLite specifics: the FTS5 query syntax, the embedding model and the vector index are left out. The full-text and vector result lists are inputs to fusion.
- Concurrency: `asyncio.gather` in the async attachment pass is left out, and every pass is modelled as sequential.
- Time zones and ISO-8601 parsing: instants are integer seconds. `fromisoformat` and `strptime` are parameters, and a day starts at a multiple of 86400 seconds.
- Language-model agents: the classification, working-memory, semantic-alert and fact-extraction agents are parameters whose answers are inputs. Prompt text is modelled only for the fact prompt's shape and truncation bounds.
- Forward and quoted-reply detection (`strip_quoted_replies` and its regexes) is left out; the cleaned body is an input.
- Alerts.PatternMatches: in a pattern with `*` the source escapes only `.` before turning `*` into `.*`, so `+ ? ( ) [ ] | ^ $ \ { }` keep their regular-expression meaning there; the model takes them literally. An ill-formed pattern such as `a(*` makes `re.search` raise `re.error` out of the evaluation; that path is not modelled.
- Actions.PayloadJson: a `payload_json` that decodes to something other than an object (`null`, a list, a number) cannot be represented. In the source `.get` on it raises inside the action's `try` and the action is settled as failed; the modelled writers only ever store objects.
- Metadata and recipient JSON: `to`/`cc` arrive decoded as lists, and JSON text is not parsed.
- Attachments: content hashing, download and extraction are parameters. `_index_attachment`, `_extract_attachment_facts`, the async variant and exceptions raised by the extractor beyond "failed" are left out.
- Calendar: `_parse_time_window`, the slot formatting, `find_meeting_times`, parsing of proposed slots and the fallback message text are left out.
- Meeting prep: note and summary writing, the attendee-context database, fractional busy hours, the early-start and long-day alerts, the daily and morning briefings are left out.
- Manifest: inference from model output, importing a module for `introspect_cli_app`, command-name derivation and `main` are left out. A command's parameters are given as data.
- Alert rule CRUD other than updates (create, list, get, delete) and the trigger history are left out; they are plain table writes and reads.
- Fact search SQL, statistics, `search_with_source_details` and the remaining command-line commands are left out as formatting over the modelled tables.
- Text.ParseInt: Python `int()` also accepts a `+` sign, surrounding whitespace and underscores. The model accepts an optional `-` followed by decimal digits only. `str.isdigit()` and `int()` also accept non-ASCII Unicode digits, and `Text.IsDigits` admits ASCII digits only.
- The schema default for `extracted_at` is not modelled; the caller supplies the time.
- Actions.Poll: one clock reading is used for the whole poll, while the source reads the clock once per action.
- Text.Lower: case folding is ASCII only, with no Unicode case mapping.
- Triggers.ClaimMarker: the file-system failures are not modelled; the source also refuses the claim when removing a stale marker raises `OSError` or when the exclusive create finds the file already there (a race with another writer).
- WmEngine.RunCycle: it returns each nudge's emission (type, id, dedupe key) but does not itself write the trigger files or run the alert rules for the nudge, which `_emit_nudges` does; those steps are modelled separately by Triggers.WriteTrigger and Alerts.EvaluateWmRules.
- Attachments.ProcessAttachment: the completed outcome does not go on to `_index_attachment` or `_extract_attachment_facts`, which the source calls after storing the text.
- Organizer.FollowupSelection: the row order of the `ORDER BY rt.last_activity_at ASC` query is an input; "earliest activity first" is proved for any order satisfying `Organizer.QueryOrder` (each id once, every eligible row present, ascending by last activity in code-point order, SQLite's default BINARY collation), and rows with equal activity may come in any order.
- Organizer.WeeklyDigest: the rows of the `ORDER BY received_at DESC LIMIT 500` query are an input (`recent`), taken in the order given; the model keeps the first 500 of them but does not derive them from the emails table, so it does not prove they are the newest, because the digest columns are not part of the modelled e-mail record.
- Organizer.WeeklyDigest: the categories JSON is taken as decoded; a value that decodes to something other than a list (a string, a number) is not modelled, so the `in` test and `join` on such a value are left out.
- Alerts.EvaluateEmailRules: it uses the corrected fast match, not the over-counting one the source calls; Alerts.EvaluateEmailRulesAsWritten models the source as written.



| source | as written | input that shows it | evidently intended | confidence | as-written member | corrected member |
|---|---|---|---|---|---|---|
| src/alerts.py:257-306 | in "all" mode every (recipient pattern, recipient) pair that matches adds one to the match count, which is then compared with the number of conditions | a rule with recipient pattern `x.com` and subject keyword `budget`, against a sent e-mail to `a@x.com` and `b@x.com` with no subject: the count reaches 2 and the rule matches | each condition counts once, so every condition must hold | not executed; high | Alerts.RuleMatchesAsWritten | Alerts.RuleMatches |
| src/working_memory/updater.py:160-210 | the final `UPDATE` reads content attributes that the `EmailAnalysis` model does not declare, so the attribute error rolls back the whole update, observations included, and `processed_at` stays NULL | any e-mail, with or without an agent failure, since no `EmailAnalysis` the agent or the `EmailAnalysis()` fallback can return has those attributes; for instance a CC e-mail whose observation is then lost: nothing is stored | the observations are written and the e-mail is marked processed in one transaction | not executed; medium | WmUpdater.ProcessEmailAsWritten | WmUpdater.ProcessEmail |
| src/action_executor.py:40-80 | `json.loads(payload)` runs before the `try`, so a malformed payload raises out of the poll | a proposed action whose payload is not JSON: it is never settled and blocks every later poll at the same place | the action is marked failed and the poll goes on to the next action | not executed; low | Actions.PollAsWritten | Actions.Poll |
