# TraceBack install attribution, modelled in Dafny

TraceBack is a Firebase extension that replaces Firebase Dynamic Links. A
browser page saves a set of device heuristics before an app is installed
(the *pre-install* record). After installation the app sends a device
fingerprint, and the *post-install* search finds the record that belongs
to this device. When the app sends the link it read from the clipboard,
the exact clipboard search decides alone. A miss stays a miss, and the
scored heuristic scan then only feeds a debug event comparing the two.
When the app sends no link, the heuristic scan decides. The matched record
is consumed, and a diagnostic event is logged for every doubtful outcome.

The repository's integration tests expect something else. They expect a
heuristic fallback after a clipboard miss (functions/test/installs.integration.test.ts,
lines 217-264), and a `heuristics` match type (functions/test/installs.integration.cornercases.test.ts,
line 175 and others). The code gives neither, and the model follows the
code: `PostInstall.ClipboardMissIsFinal` and `PostInstall.NeverHeuristicsMatchType`
state this.

Around this core sit four smaller parts:
- a campaign endpoint, which resolves a link path to its follow link and copies `utm_` parameters onto it;
- per-day link analytics counters;
- an App Store metadata cache;
- site id derivation.

The model is in these modules.

- `Scoring` (scoring.dfy) is the scoring engine, covering `findMatchingInstall`, `matchWithAppUserAgent` and `osVersionMatches`.
- `Ranking` (ranking.dfy) is the stable sort by descending score and what it picks.
- `Search` (search.dfy) covers the heuristic scan, the exact clipboard search, its fallback by `_tracebackid` document id, and the extraction of that id from a dynamic link.
- `PostInstall` (post_install.dfy) covers `searchPostInstall` with its debug and dark-launch events, the response, the handler's log levels, and the client IP and user-agent derivation.
- `InstallStore` (install_store.dfy) is a class holding the records collection and the module-level `cleanupCount`. It covers the pre-install save, the retention sweep run on every tenth save, and the post-install handler that consumes a match.
- `InstallAnalytics` (install_analytics.dfy) is the shared install-analytics logger.
- `LinkLookup`, `TrackAnalytics`, `Campaigns`, `AppStore` and `SiteUtils` model the files of the same names.
- `Wrappers`, `Logging`, `Text`, `Urls`, `InstallTypes`, `Records` and `SearchTypes` hold the values and JavaScript operations the rest is written in.

Several things the code gets from outside are parameters of the model:
- the clock, the new install id and the App Store answer;
- whether a store operation succeeds;
- the runtime's URL parser, `decodeURIComponent` and URL serialiser, together as a `UrlCodec`.

A Firestore collection is a sequence of documents with distinct ids. The sequence order stands for the order in which the store returns documents to a query.

## Model

| member | source | states |
|---|---|---|
| Scoring.FindMatchingInstall | functions/src/installs/installs.ts:533-623 | The score is 0 exactly when the screen size, the case-insensitive timezone or the primary language subtag differ; every other score lies between 5 and 22 |
| Scoring.ScoreIsBasePlusBonuses | functions/src/installs/installs.ts:571-622 | A qualifying record scores 5 plus bonuses, each in its own range: the language bonus at most 3, the exact timezone and exact language code 0 or 1 each, the IP 0 or 5, and the user-agent affinity at most 7, above 0 only when both user agents are known. So the score lies between 5 and 15 plus the timezone, code and IP bonuses |
| Scoring.LanguageBonus | functions/src/installs/installs.ts:574-588 | 3 exactly when the normalised tags are equal; with both regions present, 2 exactly when they agree and never 1; with a region missing, 1 or 3 |
| Scoring.IpIsBonusOnly | functions/src/installs/installs.ts:600-604 | An IP adds exactly 5 when both IPs are known and equal, and otherwise neither disqualifies nor lowers the score |
| Scoring.UserAgentIsBonusOnly | functions/src/installs/installs.ts:606-620 | Knowing the request's user agent never lowers the score, never changes whether a record qualifies, and adds at most 7 |
| Scoring.UserAgentAffinity | functions/src/installs/installs.ts:606-620 | The user-agent and OS bonuses total at most 7, and are 0 when either user agent is unknown |
| Scoring.MatchWithAppUserAgent | functions/src/installs/installs.ts:625-679 | The result is 0, 2, 3 or 4, and 0 exactly when neither the model nor one of its long parts occurs in the browser user agent. It is 4 exactly for a full-model hit with token overlap, and 2 exactly for a part-only hit without overlap |
| Scoring.OsVersionMatches | functions/src/installs/installs.ts:681-728 | The result is 0, 2 or 3, and 0 when either input is empty or the version has no leading digits. It is 3 exactly when the browser user agent contains the version, either dotted or with `_`. It is 2 exactly when it is not 3 and the lower-cased user agent contains `ios M`, `android M`, `M_` or `os M`, for M the version's leading digits |
| Scoring.IdenticalDeviceScoresAtLeastTen | functions/src/installs/installs.ts:541-598 | A record repeating the device's screen, timezone and language code verbatim scores at least 10, when the app reports no web-view language |
| Scoring.OnlyFirstUnderscoreNormalised | functions/src/installs/installs.ts:555-564 | `replace('_', '-')` changes only the first `_`, so `C_d_e` normalises to `c-d_e`, with primary `c` and region `d_e` |
| Text.ReplaceFirstChangesFirstOccurrence | functions/src/installs/installs.ts:555 | String `replace` with a string pattern changes the first occurrence only and keeps the length |
| Text.SplitJoin | functions/src/installs/installs.ts:563-564 | Splitting on a character loses nothing: joining the pieces gives the string back |
| Ranking.SortByScore | functions/src/installs/installs.ts:378 | The sorted candidates are a permutation of the input, in non-increasing score order |
| Ranking.InsertSorted | functions/src/installs/installs.ts:378 | Each stable insertion step keeps the sequence sorted by score |
| Ranking.SortHead | functions/src/installs/installs.ts:378-379 | Because the sort is stable, the best match is the earliest record in store order with the highest score |
| Ranking.SortTie | functions/src/installs/installs.ts:380-381 | The second sorted score equals the highest exactly when two candidates reach the highest score |
| Ranking.RankPositive | functions/src/installs/installs.ts:378-381 | With positive scores the sort is empty only for no candidates, and its head is the earliest best candidate with a positive score. The top two tie exactly when the maximum is tied |
| Ranking.FirstMax | functions/src/installs/installs.ts:379 | The position chosen reaches the highest score, and every earlier candidate scores less |
| Search.CandidatesMembers | functions/src/installs/installs.ts:358-377 | Every scored record with a positive score and a creation time less than 30 seconds after the install time is kept. Each one kept is such a stored record with its own score |
| Search.CandidatesInStoreOrder | functions/src/installs/installs.ts:358-377 | The candidates are the kept records in store order, once each. Their store positions strictly increase, candidate i is the scored record at position i, and every position that passes the filter is among them |
| Search.RankCandidates | functions/src/installs/installs.ts:378-424 | No candidates gives HEURISTICS_NOT_FOUND and no entry. Otherwise the result is the earliest best candidate with its id, non-unique. A multiple-matches event comes exactly when there are several candidates, of the same-score kind exactly when the top score is tied |
| Search.SearchByHeuristics | functions/src/installs/installs.ts:352-425 | The scan ranks the candidates. The found record is a stored document, and it scores at least as much as every eligible record |
| Search.ExtractTracebackIdFromDynamicLink | functions/src/installs/installs.ts:505-531 | None exactly when the nested `link` URL cannot be obtained. Otherwise both returned URLs are the nested URL without `_tracebackid`, with every other parameter, the origin and the path kept. The id is the first `_tracebackid` value, None when there is none |
| Search.ExtractFindsAppendedId | functions/src/installs/installs.ts:505-531 | A nested URL ending in `_tracebackid=t` yields `t` and the nested URL without the id |
| Search.ClipboardHitsMembers | functions/src/installs/installs.ts:432-434 | The hits are exactly the stored records whose clipboard equals the link |
| Search.HitsInStoreOrder | functions/src/installs/installs.ts:432-434 | The hits are the matching records in store order, once each. Their store positions strictly increase, hit i is the record at position i and matches, and every matching position is among them |
| Search.HitsKeepDistinctIds | functions/src/installs/installs.ts:432-434 | When the stored ids are distinct, so are the ids of the hits |
| Search.FirstHitIsEarliest | functions/src/installs/installs.ts:496-500 | When there is a hit, the first one, which the search answers with, is the earliest matching record in store order |
| Search.MultipleHitsIffTwoMatches | functions/src/installs/installs.ts:489-495 | There is more than one hit exactly when two stored records match the link |
| Search.SearchById | functions/src/installs/installs.ts:462-484 | The lookup of a record id (a single path segment) finds a record exactly when that id is stored, as a unique match with no events and the record's id; otherwise PASTEBOARD_NOT_FOUND |
| Search.SearchByTracebackId | functions/src/installs/installs.ts:461-484 | The `_tracebackid` is read as a document path. A record is found exactly when the path is a single segment that is a stored id, and the answer then carries that id; every other path, including one the path check refuses, answers PASTEBOARD_NOT_FOUND |
| Search.TrailingSlashFindsRecord | functions/src/installs/installs.ts:461-482 | An id followed by `/` finds the stored record with that id and answers its id |
| Search.SearchByClipboardContentAsWritten | functions/src/installs/installs.ts:427-503 | The written code fails (HTTP 500) exactly when the clipboard has no hit, the nested link exists, and its `_tracebackid` is missing or non-empty and refused by the store's path check |
| Search.SearchByClipboardContent | functions/src/installs/installs.ts:427-503 | A match is unique exactly when found, and carries the stored record's id. A hit answers the first hit, with a multiple-matches event exactly for more than one hit. A miss falls back to the `_tracebackid`, read as a document path: it finds a record exactly when the path is one stored id, and otherwise answers PASTEBOARD_NOT_FOUND with the right text in each failing case. All events are pasteboard events |
| Search.ClipboardAsWrittenAgreesOtherwise | functions/src/installs/installs.ts:440-461 | Whenever the written code does not fail, it answers what the corrected search answers |
| Search.MissingTracebackIdFailsAsWritten | functions/src/installs/installs.ts:440-461 | A clipboard miss whose nested link has no `_tracebackid` makes the written code fail, while the corrected search answers PASTEBOARD_NOT_FOUND |
| Search.MissingTracebackIdExample | functions/src/installs/installs.ts:519 | Concrete case: an empty store and `https://x.page.link/?link=https%3A%2F%2Fexample.com%2Fp` |
| Search.RefusedTracebackIdFailsAsWritten | functions/src/installs/installs.ts:457-461 | A clipboard miss whose nested link has a non-empty `_tracebackid` that the path check refuses makes the written code fail, while the corrected search answers PASTEBOARD_NOT_FOUND |
| Search.SlashTracebackIdExample | functions/src/installs/installs.ts:461 | Concrete case: an empty store and a nested link with `_tracebackid=a/b` |
| PostInstall.DebugEvent | functions/src/installs/installs.ts:273-293 | The debug event is FAILURE exactly when the clipboard search found nothing and the heuristic scan found something, and otherwise SUCCESS |
| PostInstall.DarkLaunchEvent | functions/src/installs/installs.ts:298-347 | DARK_LAUNCH_MATCH exactly when an entry was found, its clipboard yields a nested link, and that link without `_tracebackid` serialises to the reported link; otherwise a mismatch |
| PostInstall.PrimarySearch | functions/src/installs/installs.ts:260-296 | When the app sent a link, the deciding search is the clipboard search for that link. Otherwise it is the heuristic scan. It emits no dark-launch events, and any id it returns names a stored record |
| PostInstall.ClipboardMissIsFinal | functions/src/installs/installs.ts:260-296 | When the app sent a link and the clipboard search found nothing, the answer has no entry, no id and no unique match. If the heuristic scan would have found a record, the event right after the clipboard search's own is DEBUG_HEURISTICS_FAILURE |
| PostInstall.AppendEvents | functions/src/installs/installs.ts:273-347 | The primary search's entry, uniqueness and id are kept. Its events are followed by the debug comparison with the heuristic scan when a link was sent, then by the dark-launch check of the kept entry when a dark-launch link was sent |
| PostInstall.SearchPostInstall | functions/src/installs/installs.ts:243-350 | The found entry, uniqueness and id are the primary search's, so a clipboard miss is never replaced by the heuristic answer. The events are the primary's, then the debug event when a link was sent, then the dark-launch event about the returned entry when a dark-launch link was sent |
| PostInstall.SearchPostInstallAsWritten | functions/src/installs/installs.ts:243-296 | With the written clipboard search, the request fails (answers 500) exactly when the app sent a link whose clipboard search misses and whose nested link has no `_tracebackid`, or one the store's path check refuses |
| PostInstall.SearchPostInstallAgreesWithWritten | functions/src/installs/installs.ts:243-350 | Wherever the written `searchPostInstall` does not fail, its answer is the modelled one. Where it fails, the modelled primary search answers PASTEBOARD_NOT_FOUND, with the no-id text for a missing `_tracebackid` and the no-document text for one the path check refuses |
| PostInstall.AppendedEventPositions | functions/src/installs/installs.ts:273-347 | The debug event sits right after the primary search's own events and the dark-launch event last. When the primary search emitted no dark-launch event, no other position holds one |
| PostInstall.BuildResponse | functions/src/installs/installs.ts:174-196 | The match type is `unique`, `ambiguous` or `none` exactly as found-and-unique, found-not-unique or not found. The message is the one for each of these three cases. IP_V4, no UTM values, and the deep link is the found clipboard or the app's link |
| PostInstall.NeverHeuristicsMatchType | functions/src/installs/installs.ts:174-196 | The handler never answers `heuristics`, and never `unique` when the app sent no link |
| PostInstall.HandlerSeverity | functions/src/installs/installs.ts:103-167 | ERROR and DARK_LAUNCH_MISMATCH log at error level; the expected outcomes at info; the ambiguous and missing ones at warn |
| PostInstall.LogAnalytics | functions/src/installs/installs.ts:102-167 | One log line per event, in order, with the event's level and the text `TYPE: message` |
| PostInstall.ClientIp | functions/src/installs/installs.ts:90-92 | Without `x-forwarded-for` the IP is the socket address. Otherwise it is exactly the header's first comma-separated entry, trimmed, which holds no comma and no white space at either end |
| PostInstall.ClientIpFirstEntry | functions/src/installs/installs.ts:764-766 | For a header `client,proxies` the IP is the trimmed client; a header with one entry and no white space is the IP itself |
| PostInstall.UserAgentHeader | functions/src/installs/installs.ts:93 | An empty user-agent header counts as absent; any other is kept |
| Records.FindById | functions/src/installs/installs.ts:462 | `get()` of the document a single-segment path names finds a document exactly when that id is stored, and it is that document |
| Records.PlainIdIsRecord | functions/src/installs/installs.ts:461 | `collection.doc` reads a plain id, and the id with a leading or trailing `/`, as the record with that id |
| Records.TwoSegmentsInvalid | functions/src/installs/installs.ts:461 | `collection.doc` refuses `a/b`, which names a collection, and `a//b` |
| Records.RemoveId | functions/src/installs/installs.ts:205-212 | `delete()` removes the documents with that id and no others, and keeps ids distinct |
| Records.SetDoc | functions/src/installs/installs.ts:783-788 | `set()` leaves exactly one document with that id, carrying the new data; the other documents are unchanged |
| Records.RemoveIdCount | functions/src/installs/installs.ts:210-212 | With distinct ids, deleting a present id removes exactly one document |
| InstallTypes.FromMillis | functions/src/installs/installs.ts:829 | `Timestamp.fromMillis` gives a valid timestamp |
| InstallTypes.BeforeFromMillis | functions/src/installs/installs.ts:825-830 | Being before `fromMillis(ms)` means being strictly earlier than `ms` milliseconds |
| InstallStore.OldRecords | functions/src/installs/installs.ts:825-830 | The old records are exactly the stored records created before the cutoff |
| InstallStore.OldRecordsQuery | functions/src/installs/installs.ts:822-832 | The query returns at most 100 old records: all of them when there are at most 100, otherwise exactly 100 |
| InstallStore.RemoveIds | functions/src/installs/installs.ts:838-840 | A committed batch removes exactly the documents with the listed ids |
| InstallStore.RemoveIdsCount | functions/src/installs/installs.ts:838-840 | A batch of n deletes removes at most n documents |
| InstallStore.SweepBounds | functions/src/installs/installs.ts:818-841 | A sweep deletes at most 100 records, all created before the cutoff, and keeps every newer record. When at most 100 are old, it leaves none behind |
| InstallStore.SweepsFromZero | functions/src/installs/installs.ts:804-807 | From a fresh counter, n saves run the sweep n / 10 times; the class's ghost `sweeps` counter is kept equal to this count |
| InstallStore.InstallRecords.RemoveFoundPostInstall | functions/src/installs/installs.ts:203-217 | The found record is deleted. A failed delete is logged and leaves the store unchanged |
| InstallStore.InstallRecords.ConsumeFound | functions/src/installs/installs.ts:169-172 | The found record, if any, is removed, exactly one document when the delete succeeds |
| InstallStore.InstallRecords.DeleteOldInstalls | functions/src/installs/installs.ts:818-841 | The committed batch removes the query's records. A failed commit changes nothing |
| InstallStore.InstallRecords.OldInstallsMaintenance | functions/src/installs/installs.ts:804-816 | The counter goes up by one on every call. The 30-minute sweep runs exactly when it reaches a multiple of 10, so the number of sweeps run is the counter divided by 10; a failed sweep is logged and not rethrown |
| InstallStore.InstallRecords.PreinstallSaveLink | functions/src/installs/installs.ts:746-800 | An invalid payload answers 400, a failed write 500, both changing nothing. On success the record (heuristics, creation time, client IP when known) is stored under the new id, maintenance follows, and the id is answered with 200 |
| InstallStore.InstallRecords.PostinstallSearchLink | functions/src/installs/installs.ts:71-201 | An invalid payload answers 400 and a failed read 500. Otherwise 200 with the response for the search result. Every event is logged in order, then a failed delete. The found record is removed exactly once |
| InstallAnalytics.Severity | functions/src/installs/install-analytics.ts:37-62 | Only ERROR logs at error level. HEURISTICS_MULTIPLE_MATCHES, HEURISTICS_NOT_FOUND and DEBUG_HEURISTICS_SUCCESS log at info, the other four at warn |
| InstallAnalytics.AsHandlerKind | functions/src/installs/install-analytics.ts:6-15 | Each of the eight kinds has a handler kind of the same name logged at the same level, and none is a dark-launch kind |
| InstallAnalytics.LogPostInstallDebugInfo | functions/src/installs/install-analytics.ts:30-64 | One log line per event, in input order, at the kind's level, with the text `TYPE: message` |
| InstallAnalytics.SharedLoggerAgrees | functions/src/installs/install-analytics.ts:33-63 | The shared logger writes, line for line, what the handler's own loop writes for the same events |
| LinkLookup.FindDynamicLinkByPath | functions/src/common/link-lookup.ts:24-45 | None exactly when no record's path equals the path. Otherwise a record with that path, at a position before which no record has it |
| LinkLookup.FindIsFirstMatch | functions/src/common/link-lookup.ts:33-44 | The lookup returns the first record in store order whose path matches |
| TrackAnalytics.Bump | functions/src/analytics/track-analytics.ts:36-40 | Updating a day raises only the event's counter, by one, with a missing counter read as 0 |
| TrackAnalytics.Fresh | functions/src/analytics/track-analytics.ts:41-49 | A new day has all four counters, 0 except the event's, which is 1 |
| TrackAnalytics.BumpTotal | functions/src/analytics/track-analytics.ts:33-51 | Each tracked event adds exactly one to the day's total, and counts do not depend on the order of events |
| TrackAnalytics.AnalyticsStore.TrackLinkAnalytics | functions/src/analytics/track-analytics.ts:17-56 | The day record for (link id, day) is bumped or created, and nothing else changes. A failed transaction is logged and changes nothing |
| TrackAnalytics.AnalyticsStore.TrackLinkAnalyticsByUrl | functions/src/analytics/track-analytics.ts:63-99 | An unparsable URL, the root path, a failed query or an unknown path tracks nothing. Otherwise the first link with the URL's path is tracked |
| Campaigns.ParseRequest | functions/src/campaigns/campaigns.ts:31-64 | Without `link`, the path is `/default` with no parameters. A decode failure answers 400 `Invalid URL encoding` and a parse failure 400 `Invalid URL format`. A `/` or empty path answers 404 before any lookup |
| Campaigns.LookupCampaign | functions/src/campaigns/campaigns.ts:66-80 | 404 `Campaign not found` exactly when no link has the path. 404 `Campaign has no follow link` exactly when the first such link has none. Otherwise that link, whose follow link is present |
| Campaigns.TrackingFor | functions/src/campaigns/campaigns.ts:83-94 | `true` asks for a first-open intent and `false` for a reopen, each exactly for that value; anything else tracks nothing |
| Campaigns.CopyUtmValues | functions/src/campaigns/campaigns.ts:97-103 | After the copy, a `utm_` key of the request holds only the request's last value for it, and every other key holds the follow link's own values |
| Campaigns.NonUtmUntouched | functions/src/campaigns/campaigns.ts:99-103 | Request parameters without the `utm_` prefix are never copied |
| Campaigns.CopyUtmParams | functions/src/campaigns/campaigns.ts:97-103 | The in-place loop over the request's entries computes the fold `CopyUtm` |
| Campaigns.GetCampaign | functions/src/campaigns/campaigns.ts:25-113 | Parse and lookup errors answer their status and text, leaving the counters unchanged, and a failed query answers 500. A reopen is counted before the follow link is parsed. An unparsable follow link answers 500, and otherwise 200 with the follow link carrying the `utm_` parameters |
| Campaigns.DefaultCampaign | functions/src/campaigns/campaigns.ts:33-37 | Without `link` the default campaign is used and its follow link gets no parameters |
| AppStore.CacheKeyInjective | functions/src/appstore/appstore.ts:30 | For bundle ids without `_`, equal cache keys mean the same bundle id and country |
| AppStore.CacheKeyCollision | functions/src/appstore/appstore.ts:30 | With `_` in a bundle id, two different requests can share a key |
| AppStore.CachedAt | functions/src/appstore/appstore.ts:33-36 | A cached answer is used exactly while its expiry lies after now |
| AppStore.StoredEntryLifetime | functions/src/appstore/appstore.ts:46-49 | A stored answer is served for exactly the next 24 hours |
| AppStore.AppStoreCache.GetAppStoreInfo | functions/src/appstore/appstore.ts:26-59 | A live entry is answered with the cache unchanged. Otherwise the first result is stored for 86400000 ms and answered, with the other keys unchanged. An empty or failed lookup answers None and stores nothing |
| SiteUtils.GetSiteId | functions/src/common/site-utils.ts:7-12 | The configured domain when it is non-empty, otherwise `projectID-traceback`; never empty |
| SiteUtils.GetSiteName | functions/src/common/site-utils.ts:17-19 | `https://` plus the site id plus `.web.app` |
| SiteUtils.SiteNameDeterminesId | functions/src/common/site-utils.ts:17-19 | The site id can be read back from the site name, so equal site names mean equal site ids |
| SiteUtils.EntryPointSiteIdAgrees | functions/src/index.ts:24-30 | The entry point's copy of `getSiteId` agrees with `getSiteId` on every configuration |
| Urls.Get | functions/src/installs/installs.ts:519 | `searchParams.get` is None (`null`) exactly when the key is absent, and otherwise the first value |
| Urls.Delete | functions/src/installs/installs.ts:521 | `searchParams.delete` removes every pair under the key and keeps all others |
| Urls.SetParam | functions/src/campaigns/campaigns.ts:101 | After `searchParams.set` the key holds exactly the new value, and other keys are unchanged |

## Left out

- HTTP plumbing is not modelled: the 405 answer to non-POST requests, JSON marshalling, and the `functions.region(...)` wrappers. Answers are modelled as a status and the decision values.
- Joi schema validation is not modelled. A payload the schema rejects is the `None` input of the handlers, which answer 400.
- `uuidv4`, `Timestamp.now()` and `Date.now()` are parameters. The pre-install save takes the record's time and the sweep's time separately.
- WHATWG URL parsing, `decodeURIComponent` (including the double decode at installs.ts:516) and URL serialisation belong to the JavaScript runtime. They are the `UrlCodec` parameter.
- Concurrency is modelled sequentially:
  - the race on `cleanupCount`;
  - Firestore transaction atomicity;
  - the un-awaited delete of the found record, whose failure line is placed after the event lines.
- `collection.doc(path)` is modelled only by its client-side path check (`//`, an even number of segments) and its reading of `/`. The server's id rules are not modelled: the `.` and `..` ids, ids of the form `__…__`, and the length limit. A deeper path such as `a/b/c` names a document of a sub-collection below a record; no code writes there, so it is taken as not found.
- Store order is an assumption. The sequence order stands for the order Firestore returns. The sweep's 100 records are taken in that order, though Firestore orders a range query on `createdAt` by `createdAt`. `SetDoc` puts the new document first.
- `Text.ToLower` lower-cases ASCII letters only, whereas JavaScript lower-cases all of Unicode.
- String lengths count Unicode scalar values, whereas JavaScript's `length` counts UTF-16 code units. The `part.length > 2` and `token.length > 3` filters of `matchWithAppUserAgent` (installs.ts:650, 661-664) can therefore differ for characters outside the Basic Multilingual Plane.
- `appInstallationTime` is an integer, whereas the schema accepts any number. A fractional install time against the strict `> -30` bound of the filter (installs.ts:376) is not modelled.
- Null heuristics on a stored record are not modelled. The schema (installs.ts:731-738) allows `null` for `language`, `timezone` and `userAgent`. On such a record the code throws: at `entry.timezone.toLowerCase()` (installs.ts:550), at `entry.language.replace` (installs.ts:555), or for a `null` user agent, which passes the `!== undefined` test at installs.ts:607, at `browserUserAgent.toLowerCase()` (installs.ts:634). Every search that reaches the record then answers 500. The model's language and timezone are mandatory strings, and its user agent is absent or a string.
- The `debugObject` payloads and the JSON data attached to log lines are not modelled.
- The numeric heuristics the scoring never reads (pixel ratio, memory, colour depth, and so on) and the display fields of a dynamic link are not modelled. Screen sizes are `int`.
- A repeated `x-forwarded-for` header, and a repeated `link` or `first_campaign_open` query parameter, are not modelled.
- Campaigns.GetCampaign: a first-open intent (`first_campaign_open=true`) is decided but not counted. Its event type `APP_FIRST_OPEN_INTENT` and its `first_opens_intent` counter are not in the enum at track-analytics.ts:10-15, and the store here has the four counters shown.
- Campaigns.GetCampaign: `APP_REOPEN`, which that enum also lacks, is counted as `reopens`, as campaigns.test.ts expects.
- PostInstall.PrimarySearch: it uses the corrected `Search.SearchByClipboardContent`. On a clipboard miss whose nested link has no `_tracebackid`, or one the store's path check refuses, the code as written throws and the request answers 500, where this member answers PASTEBOARD_NOT_FOUND. `PostInstall.SearchPostInstallAsWritten` models the throw.
- PostInstall.SearchPostInstall: for the same reason it answers a no-match followed by the debug and dark-launch events where the code as written throws (installs.ts:440-461) and the request answers 500. `PostInstall.SearchPostInstallAgreesWithWritten` proves the two agree everywhere else.
- InstallStore.InstallRecords.PostinstallSearchLink: the handler uses the corrected `Search.SearchByClipboardContent`. The 500 answer of the code as written is shown separately under Findings.
- The Firestore write, read and delete errors are boolean inputs. The error texts of exceptions are not modelled.
- Not part of this model: preview/preview.ts, campaigns/campaign-debug.ts, firebase-service.ts, lifecycle/, doctor.ts, retry-initialize.ts, middleware/api-key-auth.ts, wellknown/, config.ts and scripts/.

## Findings

| source | as written | input that shows it | evidently intended | confidence | as-written member | corrected member |
|---|---|---|---|---|---|---|
| functions/src/installs/installs.ts:440-461 | `searchParams.get('_tracebackid')` returns `null` when the nested link has no `_tracebackid`. `null` passes both the `=== undefined` and `=== ''` tests, so `collection.doc(null)` is called, throws, and the handler answers 500 | app link `https://x.page.link/?link=https%3A%2F%2Fexample.com%2Fp` that matches no stored clipboard | PASTEBOARD_NOT_FOUND ("could not find _tracebackid in url") and a 200 no-match answer | not executed | Search.SearchByClipboardContentAsWritten | Search.SearchByClipboardContent |
| functions/src/installs/installs.ts:457-461 | the `_tracebackid` taken from the user's link is passed unchecked to `collection.doc`, which reads it as a slash-separated path and throws for `a/b` (two segments name a collection) or `a//b`, so the handler answers 500 | app link whose nested link is `https://example.com/p?_tracebackid=a/b`, with no stored clipboard matching | PASTEBOARD_NOT_FOUND ("neither by using dark launch _tracebackid") and a 200 no-match answer | not executed | Search.SearchByClipboardContentAsWritten | Search.SearchByTracebackId |
