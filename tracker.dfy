/**
 * The state of one `LiveVisitorTracker` over a page's lifetime and its event
 * handlers. The closures of the source (`maxScrollDepth`, the reported sets,
 * the interaction counters) become fields; local storage becomes `lastVisit`
 * and `shadowLog`; every payload handed to the network is appended to
 * `emitted`; the widget's numbers are `displayed`.
 */
module Tracker {
  import opened Wrappers
  import opened VisitorId
  import opened NewVisitor
  import opened Events
  import opened ShadowLog
  import opened Milestones
  import opened LiveCount
  import opened Reports

  /** `Math.round(ms / 1000)`: the nearest whole second, halves rounded up. */
  function RoundedSeconds(ms: int): (s: int)
    ensures 1000 * s - 500 <= ms < 1000 * s + 500
  {
    (ms + 500) / 1000
  }

  /** `Math.floor(ms / 1000)`. */
  function FlooredSeconds(ms: int): (s: int)
    ensures 1000 * s <= ms < 1000 * s + 1000
  {
    ms / 1000
  }

  const InputTag: string := "INPUT"
  const TextAreaTag: string := "TEXTAREA"

  /** The form-input payload of the input listener: only for an INPUT or TEXTAREA target. */
  function FormInputReport(sessionId: string, tagName: string): (sent: seq<Event>)
    ensures sent != [] <==> tagName == InputTag || tagName == TextAreaTag
    ensures sent != [] ==> sent == [Interaction(sessionId, FormInputInteraction, 1)]
  {
    if tagName == InputTag || tagName == TextAreaTag then [Interaction(sessionId, FormInputInteraction, 1)] else []
  }

  /** The exit payload goes through the shadow log only when there is no beacon. */
  function LoggedExit(beaconAvailable: bool, e: Event): seq<Event> {
    if beaconAvailable then [] else [e]
  }

  /**
   * One turn of the scroll handler's `forEach`, on the ghost record the loop
   * keeps (the thresholds reported so far and their payloads): a turn that
   * fires extends the record by its threshold, the reported set by the same
   * threshold, and both logs by its payload; one that does not leaves the
   * record as it is.
   */
  lemma ForEachTurn(ts: seq<int>, i: int, th0: set<int>, percent: int, common: Common, e0: seq<Event>,
                    log0: seq<Entry>, now: int, writable: bool, sent: seq<int>, es: seq<Event>)
    requires 0 <= i < |ts|
    requires sent == ForEachReported(ts[..i], th0, percent) && es == DepthEvents(common, sent)
    ensures var t, ev := ts[i], ScrollDepth(common, ts[i]);
      if percent >= t && t !in th0 + Elements(sent) then
        && sent + [t] == ForEachReported(ts[..i + 1], th0, percent)
        && es + [ev] == DepthEvents(common, sent + [t])
        && th0 + Elements(sent) + {t} == th0 + Elements(sent + [t])
        && e0 + es + [ev] == e0 + (es + [ev])
        && StoreOne(Stored(log0, es, now, writable), ev, now, writable) == Stored(log0, es + [ev], now, writable)
      else
        sent == ForEachReported(ts[..i + 1], th0, percent)
  {
    var t, ev := ts[i], ScrollDepth(common, ts[i]);
    ForEachStep(ts, i, th0, percent);
    if percent >= t && t !in th0 + Elements(sent) {
      ElementsAppend(sent, t);
      DepthEventsSnoc(e0, common, sent, t);
      StoredSnoc(log0, es, ev, now, writable);
      AppendAssociates(e0, es, [ev]);
    } else {
      assert sent + [] == sent;
    }
  }

  class TrackerState {
    /** `this.visitorId`, `this.sessionId` and `document.referrer || 'direct'`, which page-level payloads share. */
    const common: Common
    /** `this.startTime`, read in the constructor. */
    const startTime: int
    /** Whether local storage accepts the shadow-log write (a refused write is caught and ignored). */
    const storageWritable: bool
    /** Whether `navigator.sendBeacon` exists. */
    const beaconAvailable: bool

    var isNewVisitor: bool
    /** The `startTime` that `trackTimeOnPage` reads when it is set up. */
    var timeOnPageStart: int
    /** The stored `akshar_last_visit` marker. */
    var lastVisit: Marker
    /** The stored `akshar_visitor_data` log. */
    var shadowLog: seq<Entry>
    var maxScrollDepth: int
    var reportedThresholds: set<int>
    var reportedTimes: set<int>
    var interactionCount: nat
    var scrollCount: nat
    /** Every payload passed to the network, in order. */
    var emitted: seq<Event>
    /** The numbers the widget shows, once it has been updated. */
    var displayed: Option<Counts>

    /** The listeners' closure variables, as one value. */
    ghost function Listeners(): Closure
      reads this`maxScrollDepth, this`reportedThresholds, this`reportedTimes, this`interactionCount, this`scrollCount
    {
      Closure(maxScrollDepth, reportedThresholds, reportedTimes, interactionCount, scrollCount)
    }

    /** The reported thresholds are exactly those up to the maximum depth, and the reported times are milestones. */
    ghost predicate Valid()
      reads this`maxScrollDepth, this`reportedThresholds, this`reportedTimes
    {
      && ThresholdsAgree(maxScrollDepth, reportedThresholds)
      && reportedTimes <= TimeMilestones
    }

    /** The closure variables agree with the payloads sent so far, which all carry this page's session id. */
    ghost predicate ClosureAgrees()
      reads this`maxScrollDepth, this`reportedThresholds, this`reportedTimes, this`interactionCount,
            this`scrollCount, this`emitted
    {
      Consistent(common.sessionId, Listeners(), emitted)
    }

    constructor (fingerprint: seq<CodeUnit>, sessionId: string, documentReferrer: string, now: int,
                 storedMarker: Marker, storedLog: seq<Entry>, storageWritable: bool, beaconAvailable: bool)
      ensures Valid() && ClosureAgrees()
      ensures common == MakeCommon(VisitorIdOf(fingerprint), sessionId, documentReferrer)
      ensures startTime == now && timeOnPageStart == now && !isNewVisitor
      ensures this.storageWritable == storageWritable && this.beaconAvailable == beaconAvailable
      ensures lastVisit == storedMarker && shadowLog == storedLog
      ensures Listeners() == Initial
      ensures emitted == [] && displayed == None
    {
      var id := GenerateVisitorId(fingerprint);
      common := MakeCommon(id, sessionId, documentReferrer);
      startTime := now;
      this.storageWritable := storageWritable;
      this.beaconAvailable := beaconAvailable;
      isNewVisitor := false;
      timeOnPageStart := now;
      lastVisit := storedMarker;
      shadowLog := storedLog;
      maxScrollDepth := 0;
      reportedThresholds := {};
      reportedTimes := {};
      interactionCount := 0;
      scrollCount := 0;
      emitted := [];
      displayed := None;
      new;
      InitiallyConsistent(sessionId);
    }

    // -------------------------------------------------------------------------
    // Identity, storage and sending.

    /** `checkIfNewVisitor`: a read of the marker that rewrites it for a new visitor. */
    method CheckIfNewVisitor(now: int) returns (isNew: bool)
      modifies this`lastVisit
      ensures isNew == IsNewVisitor(old(lastVisit), now)
      ensures lastVisit == MarkerAfter(old(lastVisit), now)
    {
      match lastVisit {
        case Absent => isNew := true;
        case Empty => isNew := true;
        case Parsed(ms) => isNew := now - ms > OneDayMs;
        case Malformed => isNew := false;
      }
      if isNew {
        lastVisit := Parsed(now);
      }
    }

    /** `storeTrackingDataLocally`: read the log, push, drop the oldest beyond 1000, write back. */
    method StoreTrackingDataLocally(e: Event, now: int)
      modifies this`shadowLog
      ensures shadowLog == StoreOne(old(shadowLog), e, now, storageWritable)
    {
      var storedData := shadowLog;
      storedData := storedData + [Entry(e, now)];
      if |storedData| > MaxEntries {
        storedData := storedData[|storedData| - MaxEntries..];
      }
      if storageWritable {
        shadowLog := storedData;
      }
    }

    /** `sendTrackingData`: the shadow copy first, then the request, whose outcome cannot be read. */
    method SendTrackingData(e: Event, now: int)
      modifies this`shadowLog, this`emitted
      ensures shadowLog == StoreOne(old(shadowLog), e, now, storageWritable)
      ensures emitted == old(emitted) + [e]
    {
      StoreTrackingDataLocally(e, now);
      emitted := emitted + [e];
    }

    /** `updateLiveCount` / `fetchAndUpdateLiveCount`, with the request's outcome as input. */
    method UpdateLiveCount(response: Response)
      modifies this`displayed
      ensures displayed == Some(SelectCounts(response))
    {
      displayed := Some(SelectCounts(response));
    }

    /** `trackVisit`; `delivered` is whether the send returned true, that is, the request did not throw. */
    method TrackVisit(now: int, delivered: bool, countResponse: Response)
      modifies this`shadowLog, this`emitted, this`displayed
      ensures emitted == old(emitted) + [Visit(common, isNewVisitor)]
      ensures shadowLog == StoreOne(old(shadowLog), Visit(common, isNewVisitor), now, storageWritable)
      ensures displayed == if delivered then Some(SelectCounts(countResponse)) else old(displayed)
    {
      SendTrackingData(Visit(common, isNewVisitor), now);
      if delivered {
        UpdateLiveCount(countResponse);
      }
    }

    /** `trackPageLoad`. */
    method TrackPageLoad(now: int)
      modifies this`shadowLog, this`emitted
      ensures emitted == old(emitted) + [PageLoad(common, isNewVisitor)]
      ensures shadowLog == StoreOne(old(shadowLog), PageLoad(common, isNewVisitor), now, storageWritable)
    {
      SendTrackingData(PageLoad(common, isNewVisitor), now);
    }

    /**
     * The part of `init` before the listeners are set up: decide whether the
     * visitor is new, send the visit (refreshing the count when it was sent)
     * and then the page load; `setupTime` is when `trackTimeOnPage` starts
     * its clock.
     */
    method Init(now: int, visitDelivered: bool, countResponse: Response, setupTime: int)
      modifies this`lastVisit, this`isNewVisitor, this`shadowLog, this`emitted, this`displayed, this`timeOnPageStart
      ensures old(ClosureAgrees()) ==> ClosureAgrees()
      ensures isNewVisitor == IsNewVisitor(old(lastVisit), now)
      ensures lastVisit == MarkerAfter(old(lastVisit), now)
      ensures emitted == old(emitted) + [Visit(common, isNewVisitor), PageLoad(common, isNewVisitor)]
      ensures shadowLog == StoreOne(StoreOne(old(shadowLog), Visit(common, isNewVisitor), now, storageWritable),
                                    PageLoad(common, isNewVisitor), now, storageWritable)
      ensures displayed == if visitDelivered then Some(SelectCounts(countResponse)) else old(displayed)
      ensures timeOnPageStart == setupTime
    {
      ghost var c0, e0 := Listeners(), emitted;
      isNewVisitor := CheckIfNewVisitor(now);
      ghost var visit, load := Visit(common, isNewVisitor), PageLoad(common, isNewVisitor);
      TrackVisit(now, visitDelivered, countResponse);
      TrackPageLoad(now);
      timeOnPageStart := setupTime;
      assert Listeners() == c0;
      assert e0 + [visit] + [load] == e0 + [visit, load];
      QuietKeepsConsistent(common.sessionId, c0, e0, [visit, load], emitted);
    }

    // -------------------------------------------------------------------------
    // Payload handlers.

    /** `trackLinkClick`. */
    method TrackLinkClick(link: Link, origin: string, now: int)
      modifies this`shadowLog, this`emitted
      ensures old(ClosureAgrees()) ==> ClosureAgrees()
      ensures emitted == old(emitted) + [LinkClickEvent(common, link, origin)]
      ensures shadowLog == StoreOne(old(shadowLog), LinkClickEvent(common, link, origin), now, storageWritable)
    {
      ghost var c0, e0 := Listeners(), emitted;
      SendTrackingData(LinkClickEvent(common, link, origin), now);
      assert Listeners() == c0;
      QuietKeepsConsistent(common.sessionId, c0, e0, [LinkClickEvent(common, link, origin)], emitted);
    }

    /** The click listener of `setupComprehensiveTracking`: `link` is what `closest('a')` found, if anything. */
    method OnClick(link: Option<Link>, origin: string, now: int)
      modifies this`shadowLog, this`emitted
      ensures old(ClosureAgrees()) ==> ClosureAgrees()
      ensures link.None? ==> emitted == old(emitted) && shadowLog == old(shadowLog)
      ensures link.Some? ==> emitted == old(emitted) + [LinkClickEvent(common, link.value, origin)]
      ensures link.Some? ==> shadowLog == StoreOne(old(shadowLog), LinkClickEvent(common, link.value, origin), now, storageWritable)
    {
      if link.Some? {
        TrackLinkClick(link.value, origin, now);
      }
    }

    /** `trackFormSubmission`. */
    method TrackFormSubmission(form: Form, now: int)
      modifies this`shadowLog, this`emitted
      ensures old(ClosureAgrees()) ==> ClosureAgrees()
      ensures emitted == old(emitted) + [FormSubmissionEvent(common, form)]
      ensures shadowLog == StoreOne(old(shadowLog), FormSubmissionEvent(common, form), now, storageWritable)
    {
      ghost var c0, e0 := Listeners(), emitted;
      SendTrackingData(FormSubmissionEvent(common, form), now);
      assert Listeners() == c0;
      QuietKeepsConsistent(common.sessionId, c0, e0, [FormSubmissionEvent(common, form)], emitted);
    }

    /** `trackNavigationEvent`. */
    method TrackNavigationEvent(eventType: string, now: int)
      modifies this`shadowLog, this`emitted
      ensures old(ClosureAgrees()) ==> ClosureAgrees()
      ensures emitted == old(emitted) + [Navigation(common, eventType)]
      ensures shadowLog == StoreOne(old(shadowLog), Navigation(common, eventType), now, storageWritable)
    {
      ghost var c0, e0 := Listeners(), emitted;
      SendTrackingData(Navigation(common, eventType), now);
      assert Listeners() == c0;
      QuietKeepsConsistent(common.sessionId, c0, e0, [Navigation(common, eventType)], emitted);
    }

    /** `trackPageFocusEvent`: `page_focus` or `page_blur` by `hasFocus`. */
    method TrackPageFocusEvent(hasFocus: bool, now: int)
      modifies this`shadowLog, this`emitted
      ensures old(ClosureAgrees()) ==> ClosureAgrees()
      ensures emitted == old(emitted) + [FocusChange(common, hasFocus)]
      ensures emitted[|emitted| - 1].Action() == if hasFocus then "page_focus" else "page_blur"
      ensures shadowLog == StoreOne(old(shadowLog), FocusChange(common, hasFocus), now, storageWritable)
    {
      ghost var c0, e0 := Listeners(), emitted;
      SendTrackingData(FocusChange(common, hasFocus), now);
      assert Listeners() == c0;
      QuietKeepsConsistent(common.sessionId, c0, e0, [FocusChange(common, hasFocus)], emitted);
    }

    /** `trackSessionDuration`: whole seconds since the tracker was constructed. */
    method TrackSessionDuration(now: int)
      modifies this`shadowLog, this`emitted
      ensures old(ClosureAgrees()) ==> ClosureAgrees()
      ensures emitted == old(emitted) + [UpdateSession(common.sessionId, FlooredSeconds(now - startTime))]
      ensures shadowLog == StoreOne(old(shadowLog), UpdateSession(common.sessionId, FlooredSeconds(now - startTime)), now, storageWritable)
    {
      ghost var c0, e0 := Listeners(), emitted;
      SendTrackingData(UpdateSession(common.sessionId, FlooredSeconds(now - startTime)), now);
      assert Listeners() == c0;
      QuietKeepsConsistent(common.sessionId, c0, e0, [UpdateSession(common.sessionId, FlooredSeconds(now - startTime))], emitted);
    }

    /** `trackExit`: by beacon when there is one, bypassing the shadow log; otherwise the ordinary send. */
    method TrackExit(now: int)
      modifies this`shadowLog, this`emitted
      ensures old(ClosureAgrees()) ==> ClosureAgrees()
      ensures emitted == old(emitted) + [SessionExit(common.sessionId, FlooredSeconds(now - startTime))]
      ensures shadowLog == Stored(old(shadowLog), LoggedExit(beaconAvailable, SessionExit(common.sessionId, FlooredSeconds(now - startTime))), now, storageWritable)
    {
      ghost var c0, e0 := Listeners(), emitted;
      var e := SessionExit(common.sessionId, FlooredSeconds(now - startTime));
      if beaconAvailable {
        emitted := emitted + [e];
      } else {
        SendTrackingData(e, now);
        StoredOne(old(shadowLog), e, now, storageWritable);
      }
      assert Listeners() == c0;
      QuietKeepsConsistent(common.sessionId, c0, e0, [SessionExit(common.sessionId, FlooredSeconds(now - startTime))], emitted);
    }

    /** `trackReturn`. */
    method TrackReturn(now: int)
      modifies this`shadowLog, this`emitted
      ensures old(ClosureAgrees()) ==> ClosureAgrees()
      ensures emitted == old(emitted) + [SessionReturn(common.sessionId)]
      ensures shadowLog == StoreOne(old(shadowLog), SessionReturn(common.sessionId), now, storageWritable)
    {
      ghost var c0, e0 := Listeners(), emitted;
      SendTrackingData(SessionReturn(common.sessionId), now);
      assert Listeners() == c0;
      QuietKeepsConsistent(common.sessionId, c0, e0, [SessionReturn(common.sessionId)], emitted);
    }

    // -------------------------------------------------------------------------
    // Time on page.

    /** `trackTimeEvent`: `page_exit` for an exit, `time_on_page` otherwise. */
    method TrackTimeEvent(seconds: int, isExit: bool, now: int)
      modifies this`shadowLog, this`emitted
      ensures emitted == old(emitted) + [TimeEvent(common, seconds, isExit)]
      ensures emitted[|emitted| - 1].Action() == if isExit then "page_exit" else "time_on_page"
      ensures shadowLog == StoreOne(old(shadowLog), TimeEvent(common, seconds, isExit), now, storageWritable)
    {
      SendTrackingData(TimeEvent(common, seconds, isExit), now);
    }

    /** A milestone timer of `trackTimeOnPage`: report `seconds` unless it was reported before. */
    method FireTimeMilestone(seconds: int, now: int)
      requires Valid() && seconds in TimeThresholds
      modifies this`reportedTimes, this`shadowLog, this`emitted
      ensures Valid()
      ensures old(ClosureAgrees()) ==> ClosureAgrees()
      ensures reportedTimes == old(reportedTimes) + {seconds}
      ensures emitted == old(emitted) + MilestoneReport(common, old(reportedTimes), seconds)
      ensures shadowLog == Stored(old(shadowLog), MilestoneReport(common, old(reportedTimes), seconds), now, storageWritable)
    {
      ghost var c0, e0 := Listeners(), emitted;
      if seconds !in reportedTimes {
        reportedTimes := reportedTimes + {seconds};
        TrackTimeEvent(seconds, false, now);
        StoredOne(old(shadowLog), TimeEvent(common, seconds, false), now, storageWritable);
      } else {
        assert old(emitted) + [] == old(emitted);
      }
      TimeMilestoneKeepsConsistent(common.sessionId, c0, e0, common, seconds, Listeners(), emitted);
    }

    /** The `beforeunload` listener of `trackTimeOnPage`: the rounded seconds since it was set up, as an exit. */
    method TrackTimeOnPageExit(now: int)
      modifies this`shadowLog, this`emitted
      ensures old(ClosureAgrees()) ==> ClosureAgrees()
      ensures emitted == old(emitted) + [TimeEvent(common, RoundedSeconds(now - timeOnPageStart), true)]
      ensures shadowLog == StoreOne(old(shadowLog), TimeEvent(common, RoundedSeconds(now - timeOnPageStart), true), now, storageWritable)
    {
      ghost var c0, e0 := Listeners(), emitted;
      TrackTimeEvent(RoundedSeconds(now - timeOnPageStart), true, now);
      assert Listeners() == c0;
      QuietKeepsConsistent(common.sessionId, c0, e0, [TimeEvent(common, RoundedSeconds(now - timeOnPageStart), true)], emitted);
    }

    // -------------------------------------------------------------------------
    // Scroll depth.

    /** The `forEach` callback of the scroll handler: report one threshold if it is reached and not yet reported. */
    method ReportThreshold(threshold: int, percent: int, now: int)
      modifies this`reportedThresholds, this`shadowLog, this`emitted
      ensures var fires := percent >= threshold && threshold !in old(reportedThresholds);
        && reportedThresholds == (if fires then old(reportedThresholds) + {threshold} else old(reportedThresholds))
        && emitted == (if fires then old(emitted) + [ScrollDepth(common, threshold)] else old(emitted))
        && shadowLog == (if fires then StoreOne(old(shadowLog), ScrollDepth(common, threshold), now, storageWritable) else old(shadowLog))
    {
      if percent >= threshold && threshold !in reportedThresholds {
        reportedThresholds := reportedThresholds + {threshold};
        SendTrackingData(ScrollDepth(common, threshold), now);
      }
    }

    /**
     * The loop of the scroll handler over the thresholds `ts`: each one the
     * percent reaches that is not in the reported set when its turn comes is
     * added to it and reported, in the order of `ts`.
     */
    method ReportReachedThresholds(ts: seq<int>, percent: int, now: int)
      modifies this`reportedThresholds, this`shadowLog, this`emitted
      ensures reportedThresholds == old(reportedThresholds) + Elements(ForEachReported(ts, old(reportedThresholds), percent))
      ensures emitted == old(emitted) + DepthEvents(common, ForEachReported(ts, old(reportedThresholds), percent))
      ensures shadowLog == Stored(old(shadowLog), DepthEvents(common, ForEachReported(ts, old(reportedThresholds), percent)), now, storageWritable)
    {
      ghost var th0, e0, log0, sent, es := reportedThresholds, emitted, shadowLog, [], [];
      for i := 0 to |ts|
        invariant sent == ForEachReported(ts[..i], th0, percent)
        invariant es == DepthEvents(common, sent)
        invariant reportedThresholds == th0 + Elements(sent)
        invariant emitted == e0 + es
        invariant shadowLog == Stored(log0, es, now, storageWritable)
      {
        var t := ts[i];
        ForEachTurn(ts, i, th0, percent, common, e0, log0, now, storageWritable, sent, es);
        ghost var fires := percent >= t && t !in reportedThresholds;
        ReportThreshold(t, percent, now);
        if fires {
          sent, es := sent + [t], es + [ScrollDepth(common, t)];
        }
      }
      assert ts[..|ts|] == ts;
    }

    /**
     * The scroll handler of `trackScrollDepth`, given the rounded percent: a
     * new maximum reports, in ascending order, each threshold above the old
     * maximum that it reaches; anything else reports nothing.
     */
    method TrackScrollDepth(percent: int, now: int)
      requires Valid()
      modifies this`maxScrollDepth, this`reportedThresholds, this`shadowLog, this`emitted
      ensures Valid()
      ensures old(ClosureAgrees()) ==> ClosureAgrees()
      ensures maxScrollDepth == if percent > old(maxScrollDepth) then percent else old(maxScrollDepth)
      ensures reportedThresholds == old(reportedThresholds) + Elements(Between(ScrollThresholds, old(maxScrollDepth), percent))
      ensures emitted == old(emitted) + DepthEvents(common, Between(ScrollThresholds, old(maxScrollDepth), percent))
      ensures shadowLog == Stored(old(shadowLog), DepthEvents(common, Between(ScrollThresholds, old(maxScrollDepth), percent)), now, storageWritable)
    {
      ghost var m0, th0, c0, e0 := maxScrollDepth, reportedThresholds, Listeners(), emitted;
      if percent > maxScrollDepth {
        maxScrollDepth := percent;
        ReportReachedThresholds(ScrollThresholds, percent, now);
        assert Listeners() == c0.(maxDepth := percent, thresholds := reportedThresholds);
      } else {
        assert e0 + [] == e0;
      }
      ScrollRun(m0, th0, percent, common);
      DepthKeepsConsistent(common.sessionId, c0, e0, common, percent, Listeners(), emitted);
    }

    // -------------------------------------------------------------------------
    // Interaction sampling.

    /** The click counter of `trackUserInteractions`: every fifth click is reported with its count. */
    method CountClick(now: int)
      modifies this`interactionCount, this`shadowLog, this`emitted
      ensures old(ClosureAgrees()) ==> ClosureAgrees()
      ensures interactionCount == old(interactionCount) + 1
      ensures emitted == old(emitted) + SampleReport(common.sessionId, ClickInteraction, ClickSampleEvery, interactionCount)
      ensures shadowLog == Stored(old(shadowLog), SampleReport(common.sessionId, ClickInteraction, ClickSampleEvery, interactionCount), now, storageWritable)
    {
      ghost var c0, e0 := Listeners(), emitted;
      interactionCount := interactionCount + 1;
      if interactionCount % ClickSampleEvery == 0 {
        var e := Interaction(common.sessionId, ClickInteraction, interactionCount);
        SendTrackingData(e, now);
        StoredOne(old(shadowLog), e, now, storageWritable);
      } else {
        assert old(emitted) + [] == old(emitted);
      }
      ClickKeepsConsistent(common.sessionId, c0, e0, Listeners(), emitted);
    }

    /** The scroll counter of `trackUserInteractions`: every tenth scroll event is reported with its count. */
    method CountScroll(now: int)
      modifies this`scrollCount, this`shadowLog, this`emitted
      ensures old(ClosureAgrees()) ==> ClosureAgrees()
      ensures scrollCount == old(scrollCount) + 1
      ensures emitted == old(emitted) + SampleReport(common.sessionId, ScrollInteraction, ScrollSampleEvery, scrollCount)
      ensures shadowLog == Stored(old(shadowLog), SampleReport(common.sessionId, ScrollInteraction, ScrollSampleEvery, scrollCount), now, storageWritable)
    {
      ghost var c0, e0 := Listeners(), emitted;
      scrollCount := scrollCount + 1;
      if scrollCount % ScrollSampleEvery == 0 {
        var e := Interaction(common.sessionId, ScrollInteraction, scrollCount);
        SendTrackingData(e, now);
        StoredOne(old(shadowLog), e, now, storageWritable);
      } else {
        assert old(emitted) + [] == old(emitted);
      }
      ScrollKeepsConsistent(common.sessionId, c0, e0, Listeners(), emitted);
    }

    /** The input listener of `trackUserInteractions`: input in an INPUT or TEXTAREA is reported with count 1. */
    method TrackFormInput(tagName: string, now: int)
      modifies this`shadowLog, this`emitted
      ensures old(ClosureAgrees()) ==> ClosureAgrees()
      ensures emitted == old(emitted) + FormInputReport(common.sessionId, tagName)
      ensures shadowLog == Stored(old(shadowLog), FormInputReport(common.sessionId, tagName), now, storageWritable)
    {
      ghost var c0, e0 := Listeners(), emitted;
      if tagName == InputTag || tagName == TextAreaTag {
        var e := Interaction(common.sessionId, FormInputInteraction, 1);
        SendTrackingData(e, now);
        StoredOne(old(shadowLog), e, now, storageWritable);
      } else {
        assert old(emitted) + [] == old(emitted);
      }
      FormInputIsQuiet(common.sessionId);
      assert Listeners() == c0;
      QuietKeepsConsistent(common.sessionId, c0, e0, FormInputReport(common.sessionId, tagName), emitted);
    }
  }
}
