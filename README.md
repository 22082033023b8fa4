# Live visitor tracker — a Dafny model

This project models the deterministic rules of `LiveVisitorTracker`, the
browser-side analytics tracker in `live_tracker.js`, and proves properties of
them. The tracker fingerprints the visitor and decides whether they are new.
It sends tracking payloads (visit, page load, link click, form submission,
scroll depth, time on page, navigation, focus, session heartbeat, exit,
return, sampled interactions) and keeps a capped local shadow copy of them.
It also picks the three numbers its live-count widget shows.

The model removes the browser. Clock readings, event arguments, the outcome
of the count request and storage failure are all inputs. Every tracking
payload passed to `sendTrackingData` or `navigator.sendBeacon` is appended to
the sequence `emitted`. The count request of `fetchAndUpdateLiveCount`
(:458-468) is not a tracking payload and is not appended; only its outcome
enters, as an input.

Modules, one per concern of the source:

- `VisitorId` (`visitor_id.dfy`): the rolling 32-bit hash of
  `generateVisitorId`, the base-36 rendering, and the identifier
  `visitor_<digits>`. The hash loop is an imperative method proved equal to
  the fold `Hash`. `Hash` is proved equal to the 32-bit truncation of the
  exact base-31 polynomial.
- `NewVisitor` (`new_visitor.dfy`): the `akshar_last_visit` marker rule.
  The marker is absent, empty, parsed, or malformed (`parseInt` gives NaN).
  A malformed marker counts as "not new" and is never rewritten.
- `Events` (`events.dfy`): one `Event` constructor per payload builder,
  with its `action` discriminator and its `|| default` fields. `isExternal`
  is the `startsWith(origin)` test.
- `ShadowLog` (`shadow_log.dfy`): the `akshar_visitor_data` log. Each store
  pushes one entry and keeps at most the newest 1000. A refused write changes
  nothing.
- `Milestones` (`milestones.dfy`): the scroll thresholds reached by a running
  maximum, the click and scroll samplers, and the projection of the payload
  sequence onto the four report streams (depth, time, click, scroll).
- `Reports` (`reports.dfy`): the closure variables of the listeners as one
  `Closure` value, and the predicate `Consistent`. It says that the closure
  agrees with what was sent:
  - the reported thresholds are exactly those up to the maximum depth, and
    were sent once each in ascending order;
  - the reported times were sent once each;
  - the click and scroll samples sent are exactly those due so far;
  - every payload carries the session id.

  One lemma per listener step shows that the step keeps `Consistent`. The
  scroll handler's `forEach` is modelled turn by turn (`ForEachReported`),
  with the set growing as it goes. It is proved equal to "the thresholds
  above the old maximum and at most the percent".
- `LiveCount` (`live_count.dfy`): the count selection of
  `fetchAndUpdateLiveCount`, with JavaScript truthiness.
- `Tracker` (`tracker.dfy`): the class `TrackerState`. Its fields are the
  tracker's state, the listeners' closure variables, local storage and the
  sent payloads. Its methods are the handlers and the helpers they call,
  each stating its whole new state. Each listener method (`OnClick`,
  `TrackScrollDepth`, `FireTimeMilestone`, `CountClick`, ...) and `Init`
  also keeps `ClosureAgrees()`: if the closure agreed with `emitted` before
  the call, it agrees after it. The helpers `SendTrackingData`,
  `ReportThreshold` and `ReportReachedThresholds` state only their effect;
  their callers prove the invariant.
- `Wrappers` (`wrappers.dfy`): `Option`.

The source's `constructor` calls `init()` without awaiting it. Here they are
two steps: `TrackerState.constructor` and then `TrackerState.Init`.

`trackScrollEvent` (:264-283) and `trackInteraction` (:838-854) only build
a payload and send it. They appear as the `ScrollDepth` and `Interaction`
constructors passed to `SendTrackingData`.

Exit reports sent by `navigator.sendBeacon` (:783-787) do not pass through
`sendTrackingData`, so they never reach the shadow log.

## Model

| member | source | states |
|---|---|---|
| VisitorId.ToInt32 | live_tracker.js:47 | `hash & hash` yields a signed 32-bit integer congruent to its operand modulo 2^32 |
| VisitorId.Int32Unique | live_tracker.js:47 | two signed 32-bit integers congruent modulo 2^32 are equal, so the truncation is unique |
| VisitorId.ToInt32Congruent | live_tracker.js:46-47 | the truncation depends only on its operand modulo 2^32 |
| VisitorId.ShiftLeft5 | live_tracker.js:46 | `hash << 5`: the operand is taken through ToInt32, shifted, and the result taken through ToInt32 again |
| VisitorId.HashStep | live_tracker.js:46-47 | one loop step as written: `((hash << 5) - hash) + char`, then `& hash` |
| VisitorId.HashStepIsMultiplyAdd | live_tracker.js:46-47 | one loop step `((hash << 5) - hash) + char`, then `& hash`, equals ToInt32(31 * hash + char) |
| VisitorId.Hash | live_tracker.js:43-48 | the hash after any prefix of the fingerprint is a signed 32-bit integer |
| VisitorId.HashIsTruncatedPolynomial | live_tracker.js:43-48 | the hash of the whole fingerprint is the 32-bit truncation of the untruncated base-31 polynomial of its code units |
| VisitorId.HashFingerprint | live_tracker.js:43-48 | the `for` loop over the code units returns exactly the hash of the fingerprint, a signed 32-bit integer |
| VisitorId.DigitValue | live_tracker.js:50 | a base-36 digit character has a value in 0..35 |
| VisitorId.DigitChar | live_tracker.js:50 | each value in 0..35 has a lower-case digit character that reads back as that value |
| VisitorId.Base36 | live_tracker.js:50 | `toString(36)` gives at least one digit from [0-9a-z], with a leading 0 only for zero |
| VisitorId.Base36RoundTrip | live_tracker.js:50 | reading the base-36 numeral back gives the number |
| VisitorId.Base36Injective | live_tracker.js:50 | distinct numbers have distinct numerals |
| VisitorId.Base36Length | live_tracker.js:50 | a number below 36^k takes at most k digits |
| VisitorId.VisitorIdOf | live_tracker.js:50 | `'visitor_' + Math.abs(hash).toString(36)` of the hash of the fingerprint |
| VisitorId.VisitorIdShape | live_tracker.js:50 | the id is `visitor_` and then 1 to 6 base-36 digits with no leading zero, which read back as the absolute value of the hash |
| VisitorId.GenerateVisitorId | live_tracker.js:26-51 | the id is a function of the fingerprint alone: the prefix, then digits that read back as the absolute hash |
| NewVisitor.IsNewVisitor | live_tracker.js:98 | `!lastVisit \|\| (now - parseInt(lastVisit)) > oneDay`: an absent or empty marker is new, a parsed one iff more than 86400000 ms old, a NaN one never |
| NewVisitor.MarkerAfter | live_tracker.js:93-104 | the marker becomes `now` exactly when the check finds a new visitor, and is left as it was otherwise |
| NewVisitor.SecondCheck | live_tracker.js:93-104 | after a check finds a new visitor at t, a check at t' finds one iff t' - t > 86400000, and otherwise leaves the marker at t |
| NewVisitor.MarkerNeverMovesBack | live_tracker.js:98-99 | once the marker parses it keeps parsing, and its time never decreases over later checks |
| NewVisitor.AtMostOneNewVisitPerDay | live_tracker.js:93-104 | whatever the clock readings, two checks that both find a new visitor are more than one day apart |
| NewVisitor.MalformedMarkerSticks | live_tracker.js:98 | a marker that `parseInt` reads as NaN is never rewritten, and no check from it finds a new visitor |
| Events.Event.Action | live_tracker.js:110-842 | the `action` string of each builder, at :110, :145, :196, :220, :268, :311, :353, :374, :740, :776, :798 and :842, with the `isExit` and `hasFocus` ternaries of :311 and :374 |
| Events.ActionIdentifiesVariant | live_tracker.js:110-842 | the `action` string (the `action:` lines :110, :145, :196, :220, :268, :311, :353, :374, :740, :776, :798, :842) determines the payload builder, and the branch of the `isExit` and `hasFocus` ternaries |
| Events.OrDefault | live_tracker.js:202 | `value || fallback` on a string is the value when non-empty and the fallback when empty, so never empty |
| Events.MakeCommon | live_tracker.js:119 | the referrer is `document.referrer` when that is non-empty and `direct` when it is empty; the ids are passed through |
| Events.IsExternal | live_tracker.js:203 | `!link.href.startsWith(window.location.origin)` |
| Events.InternalIffUnderOrigin | live_tracker.js:203 | a link is internal iff its href is the origin followed by some path |
| Events.LinkClickEvent | live_tracker.js:192-214 | a `link_click` payload carrying the common fields, the link's href and text, the link's target when non-empty and `_self` when empty, and external iff the href is not under the origin |
| Events.FormSubmissionEvent | live_tracker.js:216-238 | a `form_submission` payload whose form id is the form's id when non-empty and `unnamed` when empty; the common fields, action, method and class are copied |
| LiveCount.Truthy | live_tracker.js:477-481 | JavaScript truthiness of a reply field: `undefined`, `null`, `false`, `0` and `""` are falsy |
| LiveCount.Accepted | live_tracker.js:470-484 | the request did not throw, the status is OK, the body parsed, and `success` and `isCentralized` are both truthy |
| LiveCount.OrOne | live_tracker.js:479-481 | `value || 1` is truthy and equals the value when that is truthy |
| LiveCount.SelectCounts | live_tracker.js:454-498 | every outcome shows three truthy counts |
| LiveCount.RejectedShowsFallback | live_tracker.js:470-496 | a transport error, non-OK status, unparseable body or falsy flag shows 1, 1, 1 |
| LiveCount.AcceptedShowsServerCounts | live_tracker.js:477-484 | an accepted reply shows each truthy count as sent and 1 for each falsy one |
| LiveCount.NonFallbackMeansAccepted | live_tracker.js:477-491 | counts other than 1, 1, 1 are shown only for an accepted reply, and are its counts with falsy ones replaced by 1 |
| LiveCount.SuccessFalseShowsFallback | live_tracker.js:487-491 | a reply with `success: false` shows 1, 1, 1 whatever its other fields |
| ShadowLog.Capped | live_tracker.js:430-432 | `if (length > 1000) splice(0, length - 1000)` on the log |
| ShadowLog.StoreOne | live_tracker.js:415-441 | one store: push the entry and cap, or leave the log as it was when the write is refused |
| ShadowLog.CappedIsNewest | live_tracker.js:430-432 | the splice keeps the last min(length, 1000) entries, in order |
| ShadowLog.AppendKeepsNewest | live_tracker.js:427-432 | after a store the new entry is last, the log is the newest min(old + 1, 1000) entries of old plus the entry, and below the cap nothing is evicted |
| ShadowLog.Entries | live_tracker.js:422-425 | each payload becomes one entry, in order, stamped with the `storedAt` time; all the stores of one handler call share that call's one clock reading |
| ShadowLog.CappedAbsorbs | live_tracker.js:430-432 | capping, appending and capping again equals appending and capping once |
| ShadowLog.StoredIsCappedAppend | live_tracker.js:415-441 | storing payloads one at a time keeps exactly the newest 1000 entries of the whole history |
| ShadowLog.StoredConcat | live_tracker.js:415-441 | storing two batches one after the other equals storing their concatenation |
| ShadowLog.RefusedWritesChangeNothing | live_tracker.js:435-440 | when storage refuses the write, any number of stores leaves the log unchanged |
| ShadowLog.ThousandAndFiveSends | live_tracker.js:429-432 | 1005 stores into an empty log keep the newest 1000, so the oldest five are evicted |
| ShadowLog.StoredOne | live_tracker.js:415-441 | storing a one-payload batch is one store |
| ShadowLog.StoredSnoc | live_tracker.js:415-441 | storing one more payload after a batch is the batch's stores followed by one store |
| Milestones.ElementsCount | live_tracker.js:288 | a list has as many distinct values as entries exactly when no value repeats; this ties the `reportedTimes` set (and the `reportedThresholds` set of :243) to duplicate-free report lists |
| Milestones.Between | live_tracker.js:254-259 | its members are exactly the thresholds in (lo, hi], and there are no more of them than thresholds; that they keep the list's order is `BetweenKeepsOrder` |
| Milestones.BetweenKeepsOrder | live_tracker.js:242 | the part of an ascending list in a range is ascending |
| Milestones.BetweenSplit | live_tracker.js:250-259 | the thresholds in (a, c] are those in (a, b] followed by those in (b, c] |
| Milestones.ScrollThresholdsAscending | live_tracker.js:242 | the thresholds 25, 50, 75, 90, 100 are strictly ascending |
| Milestones.Reached | live_tracker.js:242-243 | the thresholds at or below a maximum depth, ascending |
| Milestones.ReachedGrows | live_tracker.js:250-259 | a rise of the maximum from m to p adds exactly the thresholds in (m, p]; any other percent adds none |
| Milestones.ScrollReportsAreReachedOnce | live_tracker.js:245-261 | over any series of percents, the thresholds reported are those at or below the final maximum, each once, ascending |
| Milestones.FullScrollReportsAllFive | live_tracker.js:242-259 | a series whose maximum reaches 100 reports all five thresholds, in order |
| Milestones.SampledStep | live_tracker.js:815-817 | one more click adds a report exactly when the new count is a multiple of 5 |
| Milestones.SampledClosedForm | live_tracker.js:814-828 | after n events a sampler every k has made n / k reports, with counts k, 2k, ... |
| Milestones.ClickSamplingExamples | live_tracker.js:815-817 | 23 clicks report 5, 10, 15 and 20; 25 clicks report five times |
| Milestones.StreamConcat | live_tracker.js:391-413 | the report streams of two payload sequences sent one after the other concatenate |
| Milestones.DepthEvents | live_tracker.js:264-283 | one `scroll_depth` payload per reported threshold, in order |
| Milestones.DepthEventsSnoc | live_tracker.js:254-258 | reporting one more threshold appends its payload |
| Milestones.DepthEventsStream | live_tracker.js:264-283 | depth payloads add their thresholds to the depth stream and nothing to the others |
| Reports.SameSessionMeaning | live_tracker.js:391-413 | every payload sent carries the page's session id |
| Reports.SameSessionConcat | live_tracker.js:391-413 | appending payloads of the session keeps every payload in the session |
| Reports.InitiallyConsistent | live_tracker.js:240-305 | the fresh closure (maximum 0, nothing reported, counters 0) agrees with an empty send history |
| Reports.ConsistentReports | live_tracker.js:240-305 | in a consistent state: depth reports are ascending and exactly the thresholds up to the maximum; time reports are distinct milestones; click and scroll samples are k, 2k, ... up to the counter; all carry the session id |
| Reports.QuietStreamIsEmpty | live_tracker.js:391-413 | payloads that report no milestone or sample add nothing to a report stream |
| Reports.QuietKeepsConsistent | live_tracker.js:391-413 | sending such payloads of the session, with the closure untouched, keeps a consistent state consistent |
| Reports.SampleReport | live_tracker.js:816-817 | a sampler sends one interaction carrying the count exactly when the count is a multiple of its period |
| Reports.SampleReportStreams | live_tracker.js:816-826 | a sampled report adds its count, if due, to its own stream only |
| Reports.ClickKeepsConsistent | live_tracker.js:814-819 | counting a click and sending its sample, if due, keeps a consistent state consistent |
| Reports.ScrollKeepsConsistent | live_tracker.js:822-828 | counting a scroll event and sending its sample, if due, keeps a consistent state consistent |
| Reports.FormInputIsQuiet | live_tracker.js:831-835 | a `form_input` report is neither a click nor a scroll sample |
| Reports.MilestoneReport | live_tracker.js:293-296 | a milestone timer sends nothing exactly when the milestone is already in the reported set |
| Reports.MilestoneReportStreams | live_tracker.js:293-296 | a new milestone adds itself to the time stream and nothing to the others |
| Reports.TimesAdvance | live_tracker.js:293-296 | a milestone timer keeps the reported set equal to the time stream with no repeats |
| Reports.TimeMilestoneKeepsConsistent | live_tracker.js:291-298 | firing a milestone timer keeps a consistent state consistent |
| Reports.ForEachReported | live_tracker.js:254-259 | the thresholds the `forEach` reports turn by turn: each one the percent reaches that is not in the set as it has grown so far |
| Reports.NewThresholds | live_tracker.js:250-259 | one handler run: nothing unless the percent is a new maximum, and then what the `forEach` reports; `NewThresholdsAreBetween` proves it equal to the thresholds in (old maximum, percent], which is what `TrackScrollDepth` ensures |
| Reports.ForEachStep | live_tracker.js:254-258 | one more `forEach` turn reports its threshold iff the percent reaches it and it is not in the set as grown so far |
| Reports.ForEachReportsBetween | live_tracker.js:254-259 | over ascending thresholds, when those reported are exactly those up to m, the `forEach` reports exactly those in (m, percent] |
| Reports.NewThresholdsAreBetween | live_tracker.js:250-259 | when the reported set agrees with the maximum, a handler run reports exactly the thresholds above the old maximum and at most the percent |
| Reports.ThresholdsAdvance | live_tracker.js:250-259 | after a handler run, the reported set is again the thresholds up to the new maximum |
| Reports.ScrollRun | live_tracker.js:250-259 | a new maximum makes the `forEach` report the thresholds in between; a percent at or below the maximum reports nothing and changes nothing |
| Reports.DepthAdvances | live_tracker.js:250-259 | a handler run keeps the depth stream equal to the thresholds reached by the new maximum |
| Reports.DepthKeepsConsistent | live_tracker.js:245-261 | a scroll handler run keeps a consistent state consistent |
| Reports.OnlyDepthChanges | live_tracker.js:264-283 | depth reports leave the time, click and scroll streams unchanged |
| Reports.DepthEventsSession | live_tracker.js:270 | every depth payload carries the session id |
| Tracker.RoundedSeconds | live_tracker.js:302 | `Math.round(ms / 1000)` is the whole second within half a second of ms |
| Tracker.FlooredSeconds | live_tracker.js:735 | `Math.floor(ms / 1000)` is the whole second at or below ms, less than a second away |
| Tracker.FormInputReport | live_tracker.js:831-835 | input sends a report iff the target is an INPUT or TEXTAREA, and then `form_input` with count 1 |
| Tracker.LoggedExit | live_tracker.js:783-787 | an exit payload reaches the shadow log only when there is no `sendBeacon` |
| Tracker.ForEachTurn | live_tracker.js:254-258 | one turn of the `forEach` extends the reported list, the set, the sent payloads and the log by its threshold iff it fires |
| Tracker.TrackerState.constructor | live_tracker.js:15-24 | the id comes from the fingerprint, the clock starts now, the closure is fresh and agrees with the empty send history |
| Tracker.TrackerState.CheckIfNewVisitor | live_tracker.js:93-104 | new iff the marker is absent, empty, or more than a day old; a new visitor's marker becomes now, otherwise storage is untouched |
| Tracker.TrackerState.StoreTrackingDataLocally | live_tracker.js:415-441 | the log becomes the stored log with the entry pushed and the oldest beyond 1000 dropped, written back only when storage accepts |
| Tracker.TrackerState.SendTrackingData | live_tracker.js:391-413 | store the shadow copy first, then append the payload to what was sent |
| Tracker.TrackerState.UpdateLiveCount | live_tracker.js:443-503 | the widget shows the counts selected from the request's outcome |
| Tracker.TrackerState.TrackVisit | live_tracker.js:106-139 | sends and stores a `track_visit` payload, and refreshes the count only when the send succeeded |
| Tracker.TrackerState.TrackPageLoad | live_tracker.js:141-167 | sends and stores a `page_load` payload |
| Tracker.TrackerState.Init | live_tracker.js:57-91 | the new-visitor flag and marker per the marker rule, then a visit and a page load sent in that order; the closure stays consistent |
| Tracker.TrackerState.OnClick | live_tracker.js:171-178 | a click outside any `<a>` sends and stores nothing; a click inside one sends and stores exactly that link's payload; the closure stays consistent |
| Tracker.TrackerState.TrackLinkClick | live_tracker.js:192-214 | sends and stores the link payload; the closure stays consistent |
| Tracker.TrackerState.TrackFormSubmission | live_tracker.js:216-238 | sends and stores the form payload; the closure stays consistent |
| Tracker.TrackerState.TrackNavigationEvent | live_tracker.js:349-368 | sends and stores a `navigation_event` payload; the closure stays consistent |
| Tracker.TrackerState.TrackPageFocusEvent | live_tracker.js:370-389 | sends `page_focus` or `page_blur` by `hasFocus`, and stores it; the closure stays consistent |
| Tracker.TrackerState.TrackSessionDuration | live_tracker.js:734-751 | sends and stores `update_session` with the whole seconds since construction |
| Tracker.TrackerState.TrackExit | live_tracker.js:770-792 | sends `track_exit` with the whole seconds since construction; it reaches the shadow log only without a beacon |
| Tracker.TrackerState.TrackReturn | live_tracker.js:794-808 | sends and stores `track_return`; the closure stays consistent |
| Tracker.TrackerState.TrackTimeEvent | live_tracker.js:307-326 | sends and stores a time payload whose action is `page_exit` for an exit and `time_on_page` otherwise |
| Tracker.TrackerState.FireTimeMilestone | live_tracker.js:291-298 | a milestone timer reports its milestone only if not reported before, and adds it to the set; the closure stays consistent |
| Tracker.TrackerState.TrackTimeOnPageExit | live_tracker.js:301-304 | the `beforeunload` listener always sends `page_exit` with the rounded seconds since setup, whatever milestones fired |
| Tracker.TrackerState.ReportThreshold | live_tracker.js:254-258 | one `forEach` callback adds and reports its threshold iff the percent reaches it and it is not yet reported |
| Tracker.TrackerState.ReportReachedThresholds | live_tracker.js:254-259 | the `forEach` loop leaves the set, the sent payloads and the log as its turn-by-turn definition says |
| Tracker.TrackerState.TrackScrollDepth | live_tracker.js:245-261 | the maximum becomes the larger of it and the percent; exactly the thresholds above the old maximum and at most the percent are added and reported, ascending; the invariant holds |
| Tracker.TrackerState.CountClick | live_tracker.js:814-819 | the click counter goes up by one and every fifth click is reported with its count; the closure stays consistent |
| Tracker.TrackerState.CountScroll | live_tracker.js:822-828 | the scroll counter goes up by one and every tenth scroll event is reported with its count; the closure stays consistent |
| Tracker.TrackerState.TrackFormInput | live_tracker.js:831-835 | input in an INPUT or TEXTAREA is reported as `form_input` with count 1, other input not at all |

## Left out

- DOM access is not modelled: listener wiring (`addEventListener`), `closest('a')`, reading the link, form and input target, the widget's `innerHTML` and anchor insertion, and `addCounterStyles`. These are presentation and browser API. Their results enter as arguments: the `Option<Link>` that `closest('a')` found, a `Form`, a tag name, a rounded percent.
- The network is not modelled: `fetch`, `sendBeacon` and `testCentralizedCounting`. A send is an append to `emitted`. Whether it threw is the input `delivered`, and the count request's outcome is the input `countResponse`. The count request names the undefined `this.googleSheetsUrl` (:458), so it is modelled only through that input.
- Timers (`setTimeout`, `setInterval`), `async`/`await`, event-loop order and listener dispatch are not modelled. Each timer or listener firing is one method call, in whatever order the caller chooses. `setupPeriodicUpdates` and `setupLiveCountUpdates` only schedule such calls. `updateLiveCountDisplay` (:500-503) calls `fetchAndUpdateLiveCount` directly, so it is the same count refresh as `updateLiveCount`, and `UpdateLiveCount` models both.
- Floating point is not modelled: the scroll percent `Math.round(scrollTop / documentHeight * 100)` is an integer input, including the division by a zero height, and `performance.now()` is left out. `Math.round` and `Math.floor` on times are modelled on integer milliseconds.
- `Math.random` session ids, `Date` and ISO-8601 timestamps, `Intl` timezones, and the canvas and navigator fingerprint collection are inputs: a session id string, `now` readings, and the fingerprint's code units. Each handler call takes one `now` reading, which every store of that call uses as its `storedAt`; the source reads `new Date()` once per store (:424), so a scroll run that reports several thresholds stamps them with the same time here.
- The counts in a count reply are whole numbers (`JsonValue.Number` holds an `int`). Fractional, NaN and infinite numbers in the reply are not modelled.
- Tracker.TrackerState.CheckIfNewVisitor and Tracker.TrackerState.Init: a storage exception on the marker is not modelled. In the source `checkIfNewVisitor` has no `try`, so a throwing `getItem` (:94) or `setItem` (:99) rejects `init`. Then no visit or page load is sent and no listener or timer is set up. The model assumes the marker can always be read and written; `storageWritable` covers only the shadow-log write (:435-440).
- Milestones.ScrollReports: the series lemmas `ScrollReportsAreReachedOnce` and `FullScrollReportsAllFive` are stated about this fold over a list of percents, not about a series of `TrackScrollDepth` calls. Each step of the fold is the delta that `TrackScrollDepth` ensures: the maximum becomes the larger one, and the thresholds in (old maximum, percent] are reported. No lemma chains the method calls themselves.
- Ambient payload fields are omitted: timestamps, URL, page title, user agent, language, screen size, timezone, load time, connection type. The `trim()` of the link text is left to the caller.
- `JSON.parse` and `JSON.stringify` of the stored log are not modelled; the log is a sequence of entries. A storage exception on the write is the constant `storageWritable`: false means the log never changes. A failing read, or a corrupt stored log, is not modelled.
- `Init` covers `init` up to the listener set-up; the listeners are the other methods. The constructor and `Init` are separate steps, where the source starts `init()` from the constructor without awaiting it.
- Tracker.TrackerState.TrackVisit: states no closure invariant of its own, because it is only called from `Init`, which states it.
- Tracker.TrackerState.TrackPageLoad: states no closure invariant of its own, for the same reason.
- Tracker.TrackerState.TrackTimeEvent: states no closure invariant, because a non-exit time payload only keeps the invariant under the milestone guard; `FireTimeMilestone` and `TrackTimeOnPageExit` state it for its two callers.
