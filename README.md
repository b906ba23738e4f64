# FocusForge core, modelled in Dafny

FocusForge has three parts:

- A browser extension that samples the active tab every five minutes. Each sample is classified as productive or unproductive and posted to a server as 180 seconds of time.
- An Express/MongoDB backend that stores one record per user and day. Each record has a productive counter, an unproductive counter, a list of hourly elements and a category. The backend answers a set of read queries over these records.
- A React dashboard and popup that turn those answers into text, scores and heat-map shades.

The model covers the following parts of the system.

**Extension**
- The background worker's pure helpers:
  - URL admission;
  - text preparation;
  - the per-minute deduplication of the activity buffer.
- The screenshot retry loop.
- One tracking tick, as a function of the worker state and of what the outside world answers.
- The worker's listeners and timer state, as a class.
- The content script's page-text extraction.

**Backend**
- The three write actions (`updateTime`, `addProductiveTime`, `addUnproductiveTime`), as methods of a class holding the collection as a map.
- Every read action:
  - today's record;
  - the weekly, monthly and yearly totals;
  - the heatmap;
  - the 24 hourly buckets;
  - the weekly hours;
  - the per-category totals;
  - the streak.

**Dashboard and popup**
- Both `formatTime`s, both scores, the top-hours shading, the yearly colour class, the two peak-hour reductions and the carousel index arithmetic.

Each file is one module: `Options`, `Decimal`, `JsText`, `JsMath` (shared JavaScript semantics), `BackgroundText`, `Dedup`, `Screenshot`, `Sampler`, `Tracker`, `Content`, `Store`, `Rollups`, `HourlyView`, `CategoryView`, `StreakView`, `Popup`, `DashboardMetrics`, `TopHours`, `YearlyActivity`, `Insights` and `Carousel`.

Modelling choices:

- **Dates.** Dates are integer day numbers. A record is keyed by `(user, day)`.
- **Query answers are inputs.** A database query's answer is a parameter, and the predicate `Rollups.Answers` constrains it: every record of the user inside the window, each once, in any order unless the query sorts.
- **Ticks and listeners take answers as parameters.** The clock, the stored token, the idle state, the hostname that `new URL(tab.url)` parses (or its error), the content script's text, the captureScreenshot result, the classifier and the server's acknowledgements are fields of `Sampler.TickEnv`. The hostname is given, not derived from `tab.url`. That record is passed into the tick and into the listeners.
- **JavaScript arithmetic is written out:**
  - `Math.round(a / b)` is `JsMath.RoundDiv`, the nearest integer with halves rounded up.
  - A sign-of-dividend `%` is `JsMath.JsRem`.
  - `Math.floor` with a positive divisor is Dafny's `/`.

## Model

| member | source | states |
|---|---|---|
| BackgroundText.ValidUrlIsHttpOrHttps | Extension/src/background.js:54-61 | a URL is admitted exactly when it starts with `http://` or `https://`; the chrome:// and devtools:// exclusions never reject such a URL |
| BackgroundText.IsValidUrl | Extension/src/background.js:54-58 | an admitted URL starts with `http` |
| BackgroundText.TopicPrefix | Extension/src/background.js:160-166 | the site label: youtube first, then meet, then chess, otherwise none |
| BackgroundText.CutText | Extension/src/background.js:157 | after collapsing, trimming and cutting: at most 5000 characters, no two neighbouring white-space characters, no leading white space |
| BackgroundText.CutTextCollapsesRun | Extension/src/background.js:157 | two words around a white-space run, short enough not to be cut, come out collapsed and joined by exactly one ' ' |
| BackgroundText.DropNetworkPhrases | Extension/src/background.js:158-159 | the two phrase filters never lengthen the text and leave it unchanged when neither phrase occurs; when the network phrase occurs the text loses at least that phrase's length, and when only the connection phrase occurs it loses at least that one's |
| BackgroundText.DropNetworkPhrasesLeftmost | Extension/src/background.js:158-159 | the network filter is global: it drops the leftmost occurrence and goes on in the rest; without a connection phrase left the second filter changes nothing |
| BackgroundText.PreprocessText | Extension/src/background.js:156-168 | the result starts with the site label and is at most 5000 characters plus the label |
| BackgroundText.PreprocessWithoutPhrases | Extension/src/background.js:156-168 | without either phrase, the result is the label followed by the collapsed, trimmed, cut text, with no white-space runs |
| JsText.CollapseSpaces | Extension/src/background.js:157 | `replace(/\s+/g, ' ')`: no two neighbouring white-space characters, every white-space character is `' '`, empty exactly when the input is, and the ends keep their white-space status |
| JsText.CollapseKeepsNonSpaces | Extension/src/background.js:157 | collapsing keeps every non-white-space character, in order |
| JsText.CollapseNoSpaces | Extension/src/background.js:157 | text without white space is left as it is |
| JsText.CollapseRunOfSpaces | Extension/src/background.js:157 | a non-empty run made only of white space becomes one ' ' |
| JsText.CollapseAppend | Extension/src/background.js:157 | collapsing a concatenation is the concatenation of the collapses whenever the cut does not fall inside a run of white space |
| JsText.CollapseRun | Extension/src/background.js:157 | every maximal white-space run between two other characters becomes exactly one ' ' |
| JsText.Trim | Extension/src/background.js:157 | `trim`: neither end is white space, and the result is no longer than the input |
| JsText.TrimKeepsNonSpaces | Extension/src/background.js:157 | trim removes white space only |
| JsText.TrimIsInfix | Extension/src/content.js:31 | what trim returns is a contiguous piece of its input |
| JsText.TrimOfTrimmed | Extension/src/background.js:157 | text that neither starts nor ends with white space is its own trim |
| JsText.Prefix | Extension/src/background.js:157 | `substring(0, n)`: the first min(n, length) characters |
| JsText.RemoveAll | Extension/src/background.js:158-159 | the global case-insensitive replace by '' never lengthens the text, changes nothing when the phrase does not occur, and removes at least one whole phrase when it occurs |
| JsText.RemoveAllLeftmost | Extension/src/background.js:158-159 | the `g` flag: the leftmost case-insensitive occurrence is dropped and the removal goes on in the rest, so `RemoveAll(a + q + b, p) == a + RemoveAll(b, p)` |
| JsText.Join | Extension/src/content.js:19 | `join` of no parts is empty, of one part is that part, and of two or more parts is the join of all but the last, the separator, then the last part |
| Decimal.IntToString | Extension/src/popup/popup.jsx:10 | a template literal's integer text: a minus sign exactly for negatives, then the digits of the magnitude |
| Decimal.IntToStringRoundTrip | Extension/src/popup/popup.jsx:10-12 | the printed integer reads back to itself |
| Decimal.NatToStringInjective | Extension/src/popup/popup.jsx:10-12 | different numbers print differently |
| JsMath.RoundDiv | Dashboard/src/pages/Dashboard.jsx:117 | `Math.round(a / b)` is the integer r with r - 1/2 <= a/b < r + 1/2 |
| JsMath.RoundDivMonotone | Dashboard/src/pages/Dashboard.jsx:117 | rounding keeps the order of two exact quotients |
| JsMath.RoundDivAtLeast | Dashboard/src/pages/Dashboard.jsx:117 | the rounded quotient is at least k exactly when a/b >= k - 1/2 |
| JsMath.RoundDivExact | backend/controllers/productivity.js:182 | a whole quotient rounds to itself |
| JsMath.JsRem | Extension/src/popup/popup.jsx:8 | JavaScript's `%`: the remainder lies in [0, b) for a non-negative dividend and in (-b, 0] for a negative one |
| JsMath.FloorDivMonotone | Dashboard/src/components/dashboard/TopHours.jsx:13 | floor division keeps the order of two exact quotients |
| JsMath.Min | Dashboard/src/components/dashboard/TopHours.jsx:13 | `Math.min` is one of its arguments and at most both |
| Dedup.DedupKeyDeterminesBucket | Extension/src/background.js:173 | when activity types contain no '-', equal keys mean the same url, type and minute |
| Dedup.DedupKeyCollidesOnDashedType | Extension/src/background.js:173 | with a '-' in the type, two activities with different urls share one key |
| Dedup.DedupKeyShape | Extension/src/background.js:173 | the key is the url, '-', the type, '-', then the decimal digits of the minute |
| Dedup.StateOf | Extension/src/background.js:171-178 | the Map built over the buffer holds no more keys than the buffer has entries |
| Dedup.StateOfSummarizes | Extension/src/background.js:171-178 | the loop invariant: after any prefix, the Map lists each key once in first-insertion order, holds every key seen, and holds for each the earliest entry with the largest timestamp |
| Dedup.Values | Extension/src/background.js:179 | `Array.from(map.values())`: one value per key, in key order |
| Dedup.DedupNoLonger | Extension/src/background.js:170-180 | the result is never longer than the buffer |
| Dedup.Dedup | Extension/src/background.js:170-180 | the result is never longer than the buffer, and empty exactly when the buffer is |
| Dedup.DedupEntryKeys | Extension/src/background.js:170-180 | output entry j is filed under the j-th key in first-insertion order |
| Dedup.DedupFromInputOnePerKey | Extension/src/background.js:170-180 | every output entry comes from the buffer, and no two output entries share a key |
| Dedup.DedupKeepsLatest | Extension/src/background.js:174-177 | every key of the buffer is represented, by an entry at least as new as any other entry with that key |
| Dedup.DedupTiesKeepFirst | Extension/src/background.js:175 | among equal newest timestamps, the earliest such entry is kept |
| Dedup.Deduplicate | Extension/src/background.js:170-180 | the loop over a Map returns exactly `Dedup(buffer)` |
| Dedup.DedupSameKeyCollapses | Extension/src/background.js:173-177 | samples of one minute bucket collapse to a single entry |
| Dedup.DedupAppendKeeps | Extension/src/background.js:170-180 | a surviving entry stays in the output when an activity with another key is pushed |
| Dedup.DedupAsWritten | Extension/src/background.js:179 | as written, the function always throws (`duped` is undefined) |
| Dedup.DedupAsWrittenThrowsOnSingleEntry | Extension/src/background.js:171-179 | a one-entry buffer is returned unchanged by the intended code, while the written code throws |
| Screenshot.Backoff | Extension/src/background.js:147 | the waits after failed attempts 1..n are 2000, 4000, ... ms |
| Screenshot.RetryCapture | Extension/src/background.js:134-149 | 1 to 3 attempts; every attempt before the last failed; the image is present exactly when the last attempt captured; a failure is returned only after the third attempt; the waits are the backoff |
| Screenshot.CaptureScreenshot | Extension/src/background.js:112-154 | a lookup error or an invalid URL gives no attempt, no wait and the matching error; an activation error is returned without an attempt, after the one loading wait exactly when the tab was not complete; otherwise the retry loop runs after the loading and Meet delays |
| Sampler.FinalContent | Extension/src/background.js:215 | the first truthy value of content, title, url and hostname, else 'Unknown' |
| Sampler.ClassifyRequestShape | Extension/src/background.js:219-231 | the classify body carries at most 5000 characters of text, the screenshot or '' when there is none, and the tab's URL |
| Sampler.ActivityTypeOf | Extension/src/background.js:241 | the classifier's activity type when it is present and non-empty, else 'Studying' |
| Sampler.ScoreOf | Extension/src/background.js:245 | the score when it is present and non-zero, else 0.9 |
| Sampler.BuildRecord | Extension/src/background.js:238-247 | the pushed record: 180 s, productive exactly on the 'productive' label, the defaulted type and score, text a prefix of at most 2000 characters, the tab url, the tick's time |
| Sampler.Tick | Extension/src/background.js:191-272 | the clock moves only on a submitted tick, and then to now, past all three gates; a gated tick changes nothing; the buffer grows by at most one |
| Sampler.Classified | Extension/src/background.js:210-271 | after the gates a tick is submitted or fails; the clock moves to now exactly on submission and stays otherwise |
| Sampler.Submit | Extension/src/background.js:238-271 | the POSTs acknowledged are a prefix of the deduplicated buffer, all of it on success; success moves the clock to now and leaves `Retain(buffer + [r], now)`, failure keeps the clock and the pushed buffer |
| Sampler.Retain | Extension/src/background.js:267 | the cleanup keeps exactly the entries younger than one hour, and a buffer of such entries unchanged |
| Sampler.RetainAppend | Extension/src/background.js:267 | `filter` keeps the buffer's order: the cleanup of a concatenation is the concatenation of the cleanups |
| Sampler.Acknowledged | Extension/src/background.js:252-265 | the POST loop acknowledges the entries before the first refused one |
| Sampler.AcknowledgedIsPrefixBeforeFailure | Extension/src/background.js:252-265 | the acknowledged entries are exactly the prefix before the first refusal |
| Sampler.TickGatesChangeNothing | Extension/src/background.js:192-208 | inside the five-minute window, without a token, or when not active, the tick changes nothing and submits nothing |
| Sampler.TickClassifyFailureChangesNothing | Extension/src/background.js:210-271 | a URL parse error or a failed classification is caught and leaves buffer and clock unchanged |
| Sampler.TickSubmitsRecord | Extension/src/background.js:210-268 | past the gates, with a hostname and a classification, the tick pushes the built record and submits |
| Sampler.SubmitSucceeded | Extension/src/background.js:238-268 | when every deduplicated entry is acknowledged, the clock moves to now and the buffer becomes `Retain(buffer + [r], now)`, which is the old buffer's last-hour entries in their order followed by the new one |
| Sampler.SubmitFailureKeepsRecord | Extension/src/background.js:252-271 | a refused time update keeps the pushed entry buffered and leaves the clock unchanged |
| Sampler.SubmitRepostsSurvivors | Extension/src/background.js:249-267 | an entry that survived the cleanup and still wins its key is posted again by the next successful cycle |
| Sampler.SubmitAsWrittenNeverSubmits | Extension/src/background.js:249-271 | as written, a tick that reaches the submission posts nothing, grows the buffer by one and never advances the clock |
| Sampler.SubmitAsWritten | Extension/src/background.js:249-271 | as written, submission ends Submitted or Failed; a failure keeps the clock, buffers the pushed record and acknowledges nothing |
| Tracker.IdleResumeGuard | Extension/src/background.js:40 | the resume guard throws exactly when the extension is enabled, and is never true |
| Tracker.Tracker.constructor | Extension/src/background.js:3-8 | the worker starts with no interval, no timers, no tracked tab, not tracking, clock 0, empty buffer, enabled, while storage keeps the entry it already held |
| Tracker.Tracker.ClearTrackingInterval | Extension/src/background.js:46-52 | no interval runs afterwards; with none running nothing changes; nothing else changes |
| Tracker.Tracker.ProcessActivity | Extension/src/background.js:191-272 | the buffer, the clock and the posts are those of `Tick` on the old state; timers and flags are unchanged |
| Tracker.Tracker.SubmitRecord | Extension/src/background.js:238-268 | the buffer, the clock and the posts are those of `Submit` on the old state |
| Tracker.Tracker.StartTracking | Extension/src/background.js:182-281 | an invalid URL or a disabled extension changes nothing; else tracking is on, and when active one tick runs and exactly one new interval, with the next timer id, replaces the old one; when not active no interval runs and the timer id does not move |
| Tracker.Tracker.TimerFires | Extension/src/background.js:277 | a running interval ticks for the tab it was started with, leaving interval, timers, flags and storage as they were; without one nothing changes |
| Tracker.Tracker.CheckExtensionState | Extension/src/background.js:283-288 | enabled unless storage holds an explicit false; disabling stops the interval |
| Tracker.Tracker.OnInstalled | Extension/src/background.js:10-13 | storage holds isExtensionEnabled = true; the enabled flag, interval, timers, tracked tab, tracking flag, buffer and clock are unchanged |
| Tracker.Tracker.OnStartup | Extension/src/background.js:15-20 | empty buffer, clock 0, the enabled flag re-read from storage; when disabled no interval runs, when enabled the interval, the timers and the tracked tab are unchanged |
| Tracker.Tracker.OnStorageChanged | Extension/src/background.js:22-32 | only a local change of the flag matters; the flag becomes the new value's truthiness; disabling stops the interval, drops the timers and the tracked tab and empties the buffer; enabling restarts nothing; the clock and the tracking flag never change |
| Tracker.Tracker.OnIdleStateChanged | Extension/src/background.js:35-44 | idle or locked stops the interval and forgets the tracked tab; any other state changes nothing; storage and the enabled flag never change |
| Tracker.Tracker.OnTabActivated | Extension/src/background.js:290-301 | the interval is stopped; a trackable tab of an enabled extension that is active at the idle query gets one tick and exactly one new interval with the next timer id; otherwise no interval or timer runs, the timer id does not move, no tab is tracked and buffer and clock are unchanged; tracking turns on exactly for a trackable tab of an enabled extension; flags and storage are unchanged |
| Tracker.Tracker.OnTabUpdated | Extension/src/background.js:303-308 | only a completed load of the active, trackable tab starts tracking; then, when the system is active, the buffer and clock are those of one `Tick` and exactly one new interval runs for the tab under the next timer id, and otherwise no interval runs and buffer, clock and timer id are unchanged; anything else changes nothing |
| Content.NodeContributionEmpty | Extension/src/content.js:41-54 | a node adds nothing exactly when it is rejected or its text is blank |
| Content.WalkTextEmpty | Extension/src/content.js:52-55 | the walk yields nothing exactly when every node adds nothing |
| Content.HiddenNodesAddNothing | Extension/src/content.js:41-55 | hidden or blank nodes yield an empty walk |
| Content.AddNode | Extension/src/content.js:52-54 | one loop iteration adds exactly the node's contribution: its trimmed text and a space when accepted and non-blank, nothing otherwise |
| Content.Walk | Extension/src/content.js:35-60 | the tree-walker loop returns the trimmed accumulation, or the untrimmed partial text when the filter throws |
| Content.WalkResult | Extension/src/content.js:35-60 | a completed walk is trimmed at both ends; a walk cut short by a throw is a prefix of the whole walk's accumulated text |
| Content.WalkTextPrefix | Extension/src/content.js:52-55 | the text gathered over the first k nodes begins the text gathered over all of them |
| Content.Participants | Extension/src/content.js:16-18 | no more names than elements; a text is a name exactly when it is non-empty and some element's trimmed text |
| Content.ParticipantsAppend | Extension/src/content.js:16-18 | `map` and `filter` keep the elements' order: the names of a concatenation are the concatenation of the names |
| Content.MeetSource | Extension/src/content.js:12-20 | the title, followed by the participants suffix exactly when participant elements exist |
| Content.MeetTitle | Extension/src/content.js:14 | the Meet title is never empty |
| Content.MeetText | Extension/src/content.js:11-25 | the Meet path's text is never empty |
| Content.GeneralSource | Extension/src/content.js:28-66 | the first non-empty of innerText, the walk, document.title, hostname |
| Content.UncutText | Extension/src/content.js:10-70 | on Meet the text is never empty; elsewhere the phrase filters never make it longer than the general source |
| Content.PageText | Extension/src/content.js:72-75 | the result is at most 2000 characters |
| Content.ExtractPageContent | Extension/src/content.js:5-78 | the extraction returns exactly `PageText(page)` |
| Content.MeetTextNonEmpty | Extension/src/content.js:24 | on a Meet host the result is never empty |
| Content.MeetIgnoresGeneralPath | Extension/src/content.js:11-28 | on a Meet host only the title, document title and participants matter |
| Content.InnerTextFirst | Extension/src/content.js:30-32 | innerText is empty after trimming exactly when it is blank; otherwise the result is the cut, filtered, collapsed, trimmed innerText |
| Content.InnerText | Extension/src/content.js:30-32 | empty for empty innerText; otherwise no longer than innerText, with no white space at either end and no white-space runs |
| Content.InnerTextCollapsesRun | Extension/src/content.js:31 | an innerText of two words around a white-space run becomes the two collapsed words joined by exactly one ' ' |
| Content.TitleFallback | Extension/src/content.js:63-73 | with nothing else found, a short, phrase-free title is returned unchanged |
| Content.HostnameFallback | Extension/src/content.js:63-73 | the last resort is the filtered, cut hostname |
| Store.TimeUpdated | backend/controllers/productivity.js:45-58 | updateTime's update: the chosen counter grows by seconds, the other is unchanged, one element is appended with the seconds in the chosen field, and the category is set only when truthy |
| Store.ProductiveAdded | backend/controllers/productivity.js:10-14 | productiveTime grows by the seconds; unproductiveTime, the hourly list, the category, the user and the date are unchanged |
| Store.UnproductiveAdded | backend/controllers/productivity.js:27-31 | unproductiveTime grows by the seconds; productiveTime, the hourly list, the category, the user and the date are unchanged |
| Store.FreshIsEmpty | backend/models/Productivity.js:14-29 | an upserted record starts with zero counters, no hourly elements, no category, and is balanced |
| Store.Fresh | backend/models/Productivity.js:4-30 | the document an upsert creates belongs to the user and day and is balanced |
| Store.TimeUpdatedKeepsBalance | backend/controllers/productivity.js:45-54 | updateTime keeps the counters equal to the sums of the hourly elements |
| Store.ProductiveAddedBreaksBalance | backend/controllers/productivity.js:12 | a non-zero addProductiveTime unbalances a balanced record |
| Store.UnproductiveAddedBreaksBalance | backend/controllers/productivity.js:29 | a non-zero addUnproductiveTime unbalances a balanced record |
| Store.TodayTime | backend/controllers/productivity.js:71-84 | today's record, or zero defaults with category '' when there is none |
| Store.ProductivityStore.UpdateTime | backend/controllers/productivity.js:38-69 | the upsert replaces exactly today's record of the user with the updated one and keeps every record balanced |
| Store.ProductivityStore.AddProductiveTime | backend/controllers/productivity.js:4-19 | the upsert replaces exactly today's record with productiveTime increased |
| Store.ProductivityStore.AddUnproductiveTime | backend/controllers/productivity.js:21-36 | the upsert replaces exactly today's record with unproductiveTime increased |
| Store.UpsertCreatesFromDefaults | backend/controllers/productivity.js:60-64 | an upsert on a missing day creates exactly one record holding only this update |
| Rollups.AnswersArePermutations | backend/controllers/productivity.js:125-128 | two answers of the same query hold the same records |
| Rollups.SumByPermutation | backend/controllers/productivity.js:130-136 | a sum does not depend on the order of the records |
| Rollups.AccumulateSums | backend/controllers/productivity.js:130-136 | the reduce adds the two counters of every record to the seed |
| Rollups.RangeTime | backend/controllers/productivity.js:130-136 | the monthly and yearly reduce gives the sums of the two counters over the records it is given |
| Rollups.RangeTimeIgnoresOrder | backend/controllers/productivity.js:144-167 | the unsorted totals are the same for every answer of the query |
| Rollups.KeySumRemove | backend/controllers/productivity.js:130-136 | a sum over stored records may take any record out first |
| Rollups.Answers | backend/controllers/productivity.js:125-128 | an answer lists stored records of the window with distinct days and covers every stored day; an empty answer means the window holds no stored day |
| Rollups.AnswerSumIsWindowSum | backend/controllers/productivity.js:92-136 | in whatever order the database answers, the records add up to the sum over the user's stored days of the window |
| Rollups.MonthlyTimeIsWindowSum | backend/controllers/productivity.js:119-142 | the monthly totals are the counters summed over the user's stored days from today-30 on |
| Rollups.YearlyTimeIsWindowSum | backend/controllers/productivity.js:144-167 | the yearly totals are the counters summed over the user's stored days from today-365 on |
| Rollups.WeeklyFoldSums | backend/controllers/productivity.js:97-111 | the weekly reduce sums both counters and appends one breakdown item per record |
| Rollups.WeeklyTime | backend/controllers/productivity.js:97-111 | the weekly reduce gives both sums and one breakdown item per record, in the records' order |
| Rollups.WeeklyTimeMeaning | backend/controllers/productivity.js:86-117 | the weekly totals are the counters summed over the user's stored days from today-6 on; the breakdown lists exactly those days, each with its record's counters, in strictly increasing date order |
| Rollups.Heatmap | backend/controllers/productivity.js:180-183 | one cell per record with its date and the rounded number of productive hours |
| Rollups.HeatmapCounts | backend/controllers/productivity.js:182 | whole hours show exactly; under half an hour shows 0; from half an hour on shows at least 1 |
| Rollups.HeatmapMonotone | backend/controllers/productivity.js:182 | more productive time never shows fewer hours |
| Rollups.HeatmapOfYear | backend/controllers/productivity.js:169-189 | the cells' days are exactly the user's stored days from today-365 on, once each, in the order the database returns them, each with that day's rounded productive hours |
| Rollups.HeatmapAnswerMayBeUnsorted | backend/controllers/productivity.js:175-178 | the heatmap's query does not sort: a valid answer may list a later day first, and then the cells are not in date order |
| Rollups.WeeklyHours | backend/controllers/productivity.js:226-229 | one item per record with its date and hourly elements |
| Rollups.WeeklyHoursMeaning | backend/controllers/productivity.js:215-229 | at most seven days, all inside the window, with strictly increasing dates |
| HourlyView.HourlyData | backend/controllers/productivity.js:191-209 | 24 buckets; bucket h is hour h and holds the sum of every element of hour h over all records |
| HourlyView.PerHourTotalIsHourlyTotal | backend/controllers/productivity.js:203-206 | every element of a record lands in exactly one of the 24 hours |
| HourlyView.BucketsHoldEverything | backend/controllers/productivity.js:201-209 | the 24 buckets together hold every hourly element once |
| HourlyView.BalancedHourlyIsCounters | backend/controllers/productivity.js:45-54 | over balanced records, the hourly elements add up to the day counters |
| HourlyView.TodayAnswer | backend/controllers/productivity.js:196-199 | today's query answers today's record alone, or nothing exactly when there is none |
| HourlyView.HourlyViewMatchesToday | backend/controllers/productivity.js:191-209 | with balanced records, the buckets add up to the counters TodayTimeasync reports |
| CategoryView.CategoryTotals | backend/controllers/productivity.js:255 | the response lists each category once, and only categories some record carries |
| CategoryView.Categories | backend/controllers/productivity.js:237-255 | the loop's response is one element per truthy category, in first-seen order, holding that category's productive time |
| CategoryView.UnseenCategoryIsZero | backend/controllers/productivity.js:251 | a category not met yet has no time |
| CategoryView.CategoryOrderDistinct | backend/controllers/productivity.js:255 | each category is listed once |
| CategoryView.CategoryListedIffCarried | backend/controllers/productivity.js:249-253 | a category is listed exactly when some record carries it as a truthy category |
| CategoryView.CategoriesCoverCategorized | backend/controllers/productivity.js:248-255 | the listed totals add up to the productive time of the categorized records |
| CategoryView.CategoriesOfMonth | backend/controllers/productivity.js:237-255 | a category is listed exactly when one of the user's stored days from today-30 on carries it, and the listed totals add up to those days' categorized productive time |
| StreakView.StreakFrom | backend/controllers/productivity.js:277-287 | the streak is at most the number of records, and a non-zero streak starts with a productive record dated on the given day |
| StreakView.Streak | backend/controllers/productivity.js:272-289 | the loop returns `StreakFrom(entries, today)` |
| StreakView.StreakFromIsRun | backend/controllers/productivity.js:277-287 | the streak is a run of records, each dated today-k and productive, stopped by one that is not |
| StreakView.RunIsStreakFrom | backend/controllers/productivity.js:277-287 | such a stopped run has the streak's length |
| StreakView.StreakIsLongestRun | backend/controllers/productivity.js:272-287 | s is the streak exactly when it is the length of that stopped run |
| StreakView.StreakZeroUnlessTodayFirst | backend/controllers/productivity.js:282-285 | no records, or a newest record not dated today, give 0; a productive today gives at least 1 |
| StreakView.StopDateBound | backend/controllers/productivity.js:267-286 | in the date-descending answer, records after the stop are older than the run's next day |
| StreakView.RunIsStored | backend/controllers/productivity.js:267-287 | each day of the run is a stored productive day of the user |
| StreakView.RunStopsAtIdleDay | backend/controllers/productivity.js:283 | a record for the day before the run has no productive time |
| StreakView.AnswerNotAfterToday | backend/controllers/productivity.js:267-270 | without future records, no answer is dated after today |
| StreakView.AnswerHolds | backend/controllers/productivity.js:267-270 | a stored day inside the window is one of the answer's records |
| StreakView.DayBeforeRunIsIdle | backend/controllers/productivity.js:277-287 | the day before the run is not a productive stored day of the window |
| StreakView.StreakCountsProductiveDays | backend/controllers/productivity.js:261-293 | the streak counts the consecutive productive days ending today, and the day before them is not productive |
| Popup.Hours | Extension/src/popup/popup.jsx:7 | `Math.floor(seconds / 3600)`: the whole hours, 3600·h <= seconds < 3600·(h + 1) |
| Popup.Minutes | Extension/src/popup/popup.jsx:8 | for non-negative seconds, the whole minutes 0..59 of what is left after the hours; -60..0 for negative seconds |
| Popup.FormatTime | Extension/src/popup/popup.jsx:6-13 | the text ends in 'm' |
| Popup.FormatTimeParts | Extension/src/popup/popup.jsx:7-8 | hours are the whole hours and minutes the whole minutes left over (0..59) |
| Popup.FormatTimeForm | Extension/src/popup/popup.jsx:9-12 | "Hh Mm" with an 'h' exactly when there are whole hours, else "Mm" |
| Popup.SameTextSameParts | Extension/src/popup/popup.jsx:6-13 | equal texts come from equal hours and minutes |
| Popup.FormatTimeSameIffSameMinute | Extension/src/popup/popup.jsx:6-13 | two durations print alike exactly when they have the same whole minutes |
| Popup.ProductivityScore | Extension/src/popup/popup.jsx:147-149 | 0 when nothing is tracked |
| Popup.ProductivityScoreMeaning | Extension/src/popup/popup.jsx:147-149 | a rounded percentage 0..100 of productive time; 100 with only productive time; 0 without it |
| DashboardMetrics.Tenths | Dashboard/src/pages/Dashboard.jsx:112 | the one-decimal text has a point before its last digit |
| DashboardMetrics.TenthsRoundTrip | Dashboard/src/pages/Dashboard.jsx:112 | the one-decimal text reads back to its number of tenths |
| DashboardMetrics.HoursFixed | Dashboard/src/pages/Dashboard.jsx:112 | defined except at an exact halfway tenth |
| DashboardMetrics.HoursFixedIsNearest | Dashboard/src/pages/Dashboard.jsx:112 | otherwise it prints the tenth of an hour nearest to the seconds |
| DashboardMetrics.FormatTime | Dashboard/src/pages/Dashboard.jsx:109-113 | undefined only at an exact halfway tenth of an hour; below a minute the text ends in 's', below an hour in 'm', otherwise in 'h' |
| DashboardMetrics.FormatTimeBranches | Dashboard/src/pages/Dashboard.jsx:109-113 | seconds below 60, whole minutes 1..59 below an hour, otherwise the nearest tenths (at least 1.0) of an hour |
| DashboardMetrics.CalculateScore | Dashboard/src/pages/Dashboard.jsx:115-118 | the score is a percentage 0..100 |
| DashboardMetrics.CalculateScoreRange | Dashboard/src/pages/Dashboard.jsx:115-118 | 0..100; 0 without productive time; 100 exactly when productive >= 199 * (unproductive + 1) |
| DashboardMetrics.CalculateScoreReachesHundred | Dashboard/src/pages/Dashboard.jsx:115-118 | 100 is reachable despite the +1 |
| DashboardMetrics.CalculateScoreMonotone | Dashboard/src/pages/Dashboard.jsx:115-118 | more productive or less unproductive time never lowers the score |
| TopHours.FindHour | Dashboard/src/components/dashboard/TopHours.jsx:12 | `find` returns the first element of the hour, or nothing exactly when there is none |
| TopHours.Shade | Dashboard/src/components/dashboard/TopHours.jsx:13 | a shade is at most 4, and at least 1 for non-negative time |
| TopHours.ShadeProperties | Dashboard/src/components/dashboard/TopHours.jsx:13 | the shade is 1..4, non-decreasing, 1 below 15 minutes and 4 from 45 minutes |
| TopHours.GetIntensity | Dashboard/src/components/dashboard/TopHours.jsx:10-14 | as written: 0 without a day at that position or an element of the hour, else the shade of the first element |
| TopHours.HourShade | Dashboard/src/components/dashboard/TopHours.jsx:12-13 | corrected: the shade of the hour's total time, 0 when the hour has no element |
| TopHours.DayOn | Dashboard/src/components/dashboard/TopHours.jsx:8-11 | the answer dated that day, or nothing exactly when none is |
| TopHours.HourShadeAtLeastFirst | Dashboard/src/components/dashboard/TopHours.jsx:12-13 | counting every element never gives a lighter shade than the first element alone |
| TopHours.CellShade | Dashboard/src/components/dashboard/TopHours.jsx:8-14 | corrected: a cell is at most shade 4, and 0 when no answer is dated on its column's day |
| TopHours.CellShadeMeaning | Dashboard/src/components/dashboard/TopHours.jsx:8-14 | the corrected cell of column c looks up the day today-6+c |
| TopHours.CellShadeRange | Dashboard/src/components/dashboard/TopHours.jsx:13 | every corrected cell is a shade 0..4 |
| TopHours.FullWeekAligns | Dashboard/src/components/dashboard/TopHours.jsx:10-14 | with a record for every day, position and date agree |
| TopHours.FirstElementUndercounts | Dashboard/src/components/dashboard/TopHours.jsx:12 | five 180-s ticks shade 1 as written and 2 as intended |
| TopHours.ColumnsFollowPositionNotDate | Dashboard/src/components/dashboard/TopHours.jsx:8-38 | a lone record of today shows under '6 days ago' as written and under 'Today' as intended |
| YearlyActivity.ClassForValue | Dashboard/src/components/dashboard/YearlyActivity.jsx:27-30 | 'color-empty' exactly for a missing value |
| YearlyActivity.Scale | Dashboard/src/components/dashboard/YearlyActivity.jsx:29 | the scale is at most 4, and at least 1 for a non-negative count |
| YearlyActivity.ScaleProperties | Dashboard/src/components/dashboard/YearlyActivity.jsx:29 | the scale is 1..4, 1 for counts 0-1, 4 from 6, non-decreasing |
| YearlyActivity.ClassNamesScale | Dashboard/src/components/dashboard/YearlyActivity.jsx:29 | a present value's class is 'color-scale-' followed by its scale |
| Insights.GetTopHour | Dashboard/src/components/dashboard/ProductivityInsights.jsx:8-12 | null exactly for a missing or empty array |
| Insights.TopFrom | Dashboard/src/components/dashboard/ProductivityInsights.jsx:10 | the reduce's result holds at least the seed's productive time and at least every element's |
| Insights.TopFromIsEarliestMax | Dashboard/src/components/dashboard/ProductivityInsights.jsx:10 | the strict-greater reduce ends on the earliest maximal element |
| Insights.GetTopHourIsEarliestMax | Dashboard/src/components/dashboard/ProductivityInsights.jsx:10-11 | the hour belongs to an element with the greatest productive time, and every earlier element has strictly less |
| Insights.TopHourInsight | Dashboard/src/components/dashboard/ProductivityInsights.jsx:15 | the no-peak text exactly when there is no top hour or it is hour 0 |
| Insights.TodayInsight | Dashboard/src/components/dashboard/ProductivityInsights.jsx:16-18 | the praise text exactly when today's productive time exceeds the unproductive |
| Insights.PeakFromBounds | Dashboard/src/components/dashboard/InsightsAndInspiration.jsx:13-16 | the reduce's result is at least the seed and every element, and is the seed or the earliest element beating it |
| Insights.PeakFrom | Dashboard/src/components/dashboard/InsightsAndInspiration.jsx:13-16 | the reduce never ends below its seed's productive time |
| Insights.TopHour | Dashboard/src/components/dashboard/InsightsAndInspiration.jsx:13-16 | the peak holds at least 0 and at least every element's productive time |
| Insights.TopHourMeaning | Dashboard/src/components/dashboard/InsightsAndInspiration.jsx:13-16 | at least 0 and every element; the seed when no element is positive; otherwise the earliest maximal element |
| Insights.PeakText | Dashboard/src/components/dashboard/InsightsAndInspiration.jsx:34-36 | 'No peak hours yet.' without positive time; else the text names the peak hour (undefined only at a halfway tenth) |
| Insights.MissingListMeansNoPeak | Dashboard/src/components/dashboard/InsightsAndInspiration.jsx:13 | a missing nested list gives the seed and the no-peak text |
| Carousel.Next | Dashboard/src/components/dashboard/ScreenshotCarousel.jsx:10-12 | the next index lies in [0, n) |
| Carousel.Prev | Dashboard/src/components/dashboard/ScreenshotCarousel.jsx:14-16 | the previous index lies in [0, n) |
| Carousel.NextPrevInverse | Dashboard/src/components/dashboard/ScreenshotCarousel.jsx:10-16 | next and previous undo each other |
| Carousel.Steps | Dashboard/src/components/dashboard/ScreenshotCarousel.jsx:10-16 | the ends wrap around (n-1 to 0, 0 to n-1); every other step moves by one |

## Left out

Data and types:
- Text is modelled as sequences of Unicode scalar values. JavaScript strings are UTF-16, so lengths and `substring` cuts differ for characters outside the Basic Multilingual Plane.
- Dates are day numbers.
  - Local midnight, time zones, `Date.now()` and millisecond arithmetic are not modelled.
  - The heatmap's ISO date string becomes the day number.
  - The hour of `updateTime` is a parameter.
- Store.TodayTime: a stored record without a category is answered with category '', where the JSON would omit the field. Its contract states the counters and the hourly list, not the category.
- The counters' `|| 0` guards and `day.hourlyData || []` are no-ops in the model. The schema defaults every counter to 0 and the hourly list to [], so a stored record always has these fields. Non-numeric values in these fields are not modelled.
- Mongoose validation is not modelled. This covers the `min`/`max` on `hour` and the other update validators. `Hour` is a subtype 0..23 instead.
- The classifier's score is a `real`. Its 0.9 default is exact.

Floating point:
- Floating-point rounding of quotients is not modelled. `Math.round(p / (p + u) * 100)` and `Math.floor(p / 3600 * 4)` are modelled on exact rationals. The float result can differ only when the exact value sits within rounding error of a half or a whole step.
- DashboardMetrics.HoursFixed: `toFixed(1)` at an exact halfway tenth (seconds % 360 == 180) depends on the binary quotient. There the model gives None instead of a digit.
- Numbers of 1e21 and above, which JavaScript prints in exponent form, are not modelled.

Extension timing and events:
- The extension's await points are not interleaved. Each listener runs to completion. Two overlapping `startTracking` calls can leave a second interval running in the browser; the class does not model that.
- The 5-second content-script timeout, the 1.5-second extraction delay and the sleeps are not modelled. Only their order is modelled, as the returned `delays` of the screenshot loop.
- The tick takes captureScreenshot's result as an input rather than calling `Screenshot.CaptureScreenshot`. This keeps the tick a function.
- Message passing is not modelled. Neither are `chrome.tabs.sendMessage` and the `onMessage` listener of the content script.
- `isTracking` is set by `startTracking` and never reset by the source. The model keeps it the same way.
- Tracker.Tracker.OnStorageChanged: `newValue` is read as a boolean. Truthy non-boolean values stored under the key are not modelled.
- Tracker.Tracker.OnIdleStateChanged: the `'active'` branch never resumes tracking, because its guard throws when the extension is enabled (Tracker.IdleResumeGuard). The model changes nothing there. The uncaught TypeError itself is not modelled.

Content script:
- `document.body` being null is not modelled. If it were, reading innerText would throw before any fallback.
- Content.Walk: once the walker filter throws, the model keeps the text gathered before the throw. It does not model which DOM call threw.

Server behaviour the model does not track:
- The extension never sends a category, so `getCategories` only ever sees categories written by other clients.
- CategoryView.Categories: the per-category map is modelled as a map from strings to integers. In the source it is a plain object `{}`. A category named like an inherited property of Object.prototype behaves differently there. For "constructor", "toString", "valueOf" and the other inherited names, `categoryMap[c] || 0` is the inherited function, so `+` concatenates and the listed productiveTime is a string. For "__proto__" the assignment goes to the prototype setter and is dropped, so that category is never listed. The model sums integers and lists every truthy category. CategoryView.CategoryListedIffCarried, CategoryView.CategoriesCoverCategorized and CategoryView.CategoriesOfMonth hold only for categories that are not such names.
- `getCategories` lists keys as `Object.entries` does for string keys: in insertion order. Keys that look like array indices are listed first in JavaScript; the model does not reorder them.
- The "$gte start" queries of the weekly, monthly, yearly, heatmap and streak actions have no upper bound. Their windows therefore include any record dated after today.
  - `Answers` allows such records.
  - StreakView.StreakCountsProductiveDays assumes `NoFutureRecords`, which holds as long as the server clock never moves back.
- Rollups.HeatmapOfYear: the heatmap's query has no `sort`, so the model promises no order of the cells. Rollups.HeatmapAnswerMayBeUnsorted shows an answer that lists a later day first.
- The sampler reposts every surviving buffered entry on each successful cycle (Sampler.SubmitRepostsSurvivors). The server adds that time again, because `updateTime` increments rather than overwriting. The model shows the repost. It does not model the double counting in the store.

Dashboard and popup:
- DashboardMetrics.CalculateScore takes non-negative counters only. A negative total + 1 could be zero or negative in JavaScript and would give Infinity or NaN.
- The popup's weekly fetch checks `todayRes.ok` instead of `weekRes.ok` (Extension/src/popup/popup.jsx:89). The popup's fetching and rendering are not part of this model.
- The insights-and-inspiration card is not rendered by the dashboard page. Its input, the hourly-view array, has no `hourlyData` field, so `hourlyData?.hourlyData` is always undefined (Insights.MissingListMeansNoPeak). The card is modelled on its nested list anyway.
- The random choice of insight and quote is not modelled.
- The screenshot carousel is modelled as index arithmetic only. Its `currentIndex` state and the modal are not modelled.
- The dashboard's other widgets are not modelled (charts, goals, export, timelines, achievements), nor are authentication and the route wiring.

## Findings

| source | as written | input that shows it | evidently intended | confidence | as-written member | corrected member |
|---|---|---|---|---|---|---|
| Extension/src/background.js:179 | `return Array.from(duped.values())`, where `duped` is not defined. Every call throws a ReferenceError, the tick's catch swallows it, and nothing is ever posted. | any buffer, e.g. the single entry just pushed: the intended result is that entry, the written code throws | `Array.from(deduped.values())` | high (not executed) | Dedup.DedupAsWritten (Dedup.DedupAsWrittenThrowsOnSingleEntry, Sampler.SubmitAsWrittenNeverSubmits) | Dedup.Dedup / Dedup.Deduplicate (Dedup.DedupKeepsLatest, Dedup.DedupFromInputOnePerKey, Sampler.SubmitSucceeded) |
| Dashboard/src/components/dashboard/TopHours.jsx:12 | `hourly.find(h => h.hour === hour)` takes the first element of the hour. The server appends one 180-s element per tick. | five elements of 180 s in hour 9: shade 1 as written, 2 for fifteen minutes | the sum of all elements of the hour | medium (not executed) | TopHours.GetIntensity (TopHours.FirstElementUndercounts) | TopHours.HourShade (TopHours.HourShadeAtLeastFirst, TopHours.CellShadeRange) |
| Dashboard/src/components/dashboard/TopHours.jsx:11 | `weeklyHourlyData[dayIndex]` indexes the answer by position. /weekly-hours returns only the days that have a record. | a single record dated today: it shows under '6 days ago' and 'Today' is empty | column c shows the day today-6+c | medium (not executed) | TopHours.GetIntensity (TopHours.ColumnsFollowPositionNotDate) | TopHours.CellShade (TopHours.CellShadeMeaning, TopHours.FullWeekAligns) |
