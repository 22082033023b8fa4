/**
 * The payloads sent so far read against the closure state of the listeners:
 * which reports the scroll, time and interaction listeners have made, and
 * that each step of a listener keeps the two in agreement.
 */
module Reports {
  import opened Events
  import opened Milestones

  /** The milestones of `trackTimeOnPage` as a set. */
  const TimeMilestones: set<int> := set t | t in TimeThresholds

  /**
   * The variables the listeners close over: `maxScrollDepth` and
   * `reportedThresholds` of `trackScrollDepth`, `reportedTimes` of
   * `trackTimeOnPage`, `interactionCount` and `scrollCount` of
   * `trackUserInteractions`.
   */
  datatype Closure = Closure(maxDepth: int, thresholds: set<int>, times: set<int>, clicks: nat, scrolls: nat)

  const Initial: Closure := Closure(0, {}, {}, 0, 0)

  // ---------------------------------------------------------------------------
  // Session ids.

  /** Every payload carries the page's session id. */
  predicate SameSession(es: seq<Event>, sessionId: string) {
    es == [] || (SameSession(es[..|es| - 1], sessionId) && es[|es| - 1].SessionId() == sessionId)
  }

  lemma {:induction false} SameSessionMeaning(es: seq<Event>, sessionId: string)
    ensures SameSession(es, sessionId) <==> forall i :: 0 <= i < |es| ==> es[i].SessionId() == sessionId
  {
    if es != [] {
      var init := es[..|es| - 1];
      SameSessionMeaning(init, sessionId);
      assert forall i :: 0 <= i < |init| ==> init[i] == es[i];
    }
  }

  lemma SameSessionSnoc(es: seq<Event>, e: Event, sessionId: string)
    requires SameSession(es, sessionId) && e.SessionId() == sessionId
    ensures SameSession(es + [e], sessionId)
  {
    assert (es + [e])[..|es|] == es;
  }

  lemma {:induction false} SameSessionConcat(es: seq<Event>, more: seq<Event>, sessionId: string)
    requires SameSession(es, sessionId)
    requires forall i :: 0 <= i < |more| ==> more[i].SessionId() == sessionId
    ensures SameSession(es + more, sessionId)
    decreases |more|
  {
    if more == [] {
      assert es + more == es;
    } else {
      var init, last := more[..|more| - 1], more[|more| - 1];
      SameSessionConcat(es, init, sessionId);
      assert es + more == (es + init) + [last];
      SameSessionSnoc(es + init, last, sessionId);
    }
  }

  // ---------------------------------------------------------------------------
  // What one payload adds to the report streams.

  /** A payload that adds to none of the report streams. */
  predicate Quiet(e: Event) {
    && Contribution(e, DepthStream) == [] && Contribution(e, TimeStream) == []
    && Contribution(e, ClickStream) == [] && Contribution(e, ScrollStream) == []
  }

  // ---------------------------------------------------------------------------
  // Agreement of the closure with what was sent, part by part.

  /** The reported thresholds are exactly the scroll thresholds up to the maximum depth. */
  predicate ThresholdsAgree(maxDepth: int, reported: set<int>) {
    0 <= maxDepth && reported == Elements(Reached(maxDepth))
  }

  /**
   * The reported thresholds are those at or below the running maximum, and
   * the depth reports sent are those same thresholds in ascending order.
   */
  predicate DepthAgrees(c: Closure, emitted: seq<Event>) {
    && ThresholdsAgree(c.maxDepth, c.thresholds)
    && StreamOf(emitted, DepthStream) == Reached(c.maxDepth)
  }

  /** The reported milestones are milestones, and are what was sent, each once. */
  predicate TimesAgree(c: Closure, emitted: seq<Event>) {
    && c.times <= TimeMilestones
    && c.times == Elements(StreamOf(emitted, TimeStream))
    && |c.times| == |StreamOf(emitted, TimeStream)|
  }

  /** The click samples sent are those due at counts up to the click counter. */
  predicate ClicksAgree(c: Closure, emitted: seq<Event>) {
    StreamOf(emitted, ClickStream) == Sampled(ClickSampleEvery, c.clicks)
  }

  /** The scroll samples sent are those due at counts up to the scroll counter. */
  predicate ScrollsAgree(c: Closure, emitted: seq<Event>) {
    StreamOf(emitted, ScrollStream) == Sampled(ScrollSampleEvery, c.scrolls)
  }

  /** The closure state agrees with the payloads sent so far, all of which carry the session id. */
  predicate Consistent(sessionId: string, c: Closure, emitted: seq<Event>) {
    && DepthAgrees(c, emitted) && TimesAgree(c, emitted)
    && ClicksAgree(c, emitted) && ScrollsAgree(c, emitted)
    && SameSession(emitted, sessionId)
  }

  lemma DepthFrame(c: Closure, c': Closure, s: seq<Event>, s': seq<Event>)
    requires DepthAgrees(c, s) && c'.maxDepth == c.maxDepth && c'.thresholds == c.thresholds
    requires StreamOf(s', DepthStream) == StreamOf(s, DepthStream)
    ensures DepthAgrees(c', s')
  {
  }

  lemma TimesFrame(c: Closure, c': Closure, s: seq<Event>, s': seq<Event>)
    requires TimesAgree(c, s) && c'.times == c.times
    requires StreamOf(s', TimeStream) == StreamOf(s, TimeStream)
    ensures TimesAgree(c', s')
  {
  }

  lemma ClicksFrame(c: Closure, c': Closure, s: seq<Event>, s': seq<Event>)
    requires ClicksAgree(c, s) && c'.clicks == c.clicks
    requires StreamOf(s', ClickStream) == StreamOf(s, ClickStream)
    ensures ClicksAgree(c', s')
  {
  }

  lemma ScrollsFrame(c: Closure, c': Closure, s: seq<Event>, s': seq<Event>)
    requires ScrollsAgree(c, s) && c'.scrolls == c.scrolls
    requires StreamOf(s', ScrollStream) == StreamOf(s, ScrollStream)
    ensures ScrollsAgree(c', s')
  {
  }

  lemma InitiallyConsistent(sessionId: string)
    ensures Consistent(sessionId, Initial, [])
  {
    BetweenEmpty(ScrollThresholds, 0, 0);
  }

  /** What is known about the sent reports in a consistent state. */
  lemma ConsistentReports(sessionId: string, c: Closure, emitted: seq<Event>)
    requires Consistent(sessionId, c, emitted)
    ensures StrictlyAscending(StreamOf(emitted, DepthStream))
    ensures forall t :: t in StreamOf(emitted, DepthStream) <==> t in ScrollThresholds && t <= c.maxDepth
    ensures forall t :: t in c.thresholds <==> t in ScrollThresholds && t <= c.maxDepth
    ensures Distinct(StreamOf(emitted, TimeStream))
    ensures forall t :: t in StreamOf(emitted, TimeStream) <==> t in c.times
    ensures forall t :: t in StreamOf(emitted, TimeStream) ==> t in TimeThresholds
    ensures |StreamOf(emitted, ClickStream)| == c.clicks / ClickSampleEvery
    ensures forall i :: 0 <= i < |StreamOf(emitted, ClickStream)| ==> StreamOf(emitted, ClickStream)[i] == ClickSampleEvery * (i + 1)
    ensures |StreamOf(emitted, ScrollStream)| == c.scrolls / ScrollSampleEvery
    ensures forall i :: 0 <= i < |StreamOf(emitted, ScrollStream)| ==> StreamOf(emitted, ScrollStream)[i] == ScrollSampleEvery * (i + 1)
    ensures forall i :: 0 <= i < |emitted| ==> emitted[i].SessionId() == sessionId
  {
    ElementsAreMembers(Reached(c.maxDepth));
    ElementsAreMembers(StreamOf(emitted, TimeStream));
    ElementsCount(StreamOf(emitted, TimeStream));
    SampledClosedForm(ClickSampleEvery, c.clicks);
    SampledClosedForm(ScrollSampleEvery, c.scrolls);
    SameSessionMeaning(emitted, sessionId);
  }

  // ---------------------------------------------------------------------------
  // Each listener step keeps the agreement.

  /** Payloads that report no milestone or sample add nothing to a report stream. */
  lemma {:induction false} QuietStreamIsEmpty(sent: seq<Event>, k: Stream)
    requires forall i :: 0 <= i < |sent| ==> Quiet(sent[i])
    ensures StreamOf(sent, k) == []
  {
    if sent != [] {
      var init, e := sent[..|sent| - 1], sent[|sent| - 1];
      assert Quiet(e);
      QuietStreamIsEmpty(init, k);
      assert StreamOf(sent, k) == [] + Contribution(e, k);
    }
  }

  /**
   * Sending payloads of this session that report no milestone or sample, with
   * the closure untouched, keeps a consistent state consistent.
   */
  lemma QuietKeepsConsistent(sessionId: string, c: Closure, emitted: seq<Event>, sent: seq<Event>, emitted': seq<Event>)
    requires forall i :: 0 <= i < |sent| ==> Quiet(sent[i]) && sent[i].SessionId() == sessionId
    requires emitted' == emitted + sent
    ensures Consistent(sessionId, c, emitted) ==> Consistent(sessionId, c, emitted')
  {
    if Consistent(sessionId, c, emitted) {
      QuietStreamIsEmpty(sent, DepthStream);
      QuietStreamIsEmpty(sent, TimeStream);
      QuietStreamIsEmpty(sent, ClickStream);
      QuietStreamIsEmpty(sent, ScrollStream);
      StreamConcat(emitted, sent, DepthStream);
      StreamConcat(emitted, sent, TimeStream);
      StreamConcat(emitted, sent, ClickStream);
      StreamConcat(emitted, sent, ScrollStream);
      assert StreamOf(emitted, DepthStream) + [] == StreamOf(emitted, DepthStream);
      assert StreamOf(emitted, TimeStream) + [] == StreamOf(emitted, TimeStream);
      assert StreamOf(emitted, ClickStream) + [] == StreamOf(emitted, ClickStream);
      assert StreamOf(emitted, ScrollStream) + [] == StreamOf(emitted, ScrollStream);
      DepthFrame(c, c, emitted, emitted');
      TimesFrame(c, c, emitted, emitted');
      ClicksFrame(c, c, emitted, emitted');
      ScrollsFrame(c, c, emitted, emitted');
      SameSessionConcat(emitted, sent, sessionId);
    }
  }

  /** The sampled interaction payload for the count just reached, if it is a multiple of `every`. */
  function SampleReport(sessionId: string, kind: string, every: nat, count: nat): (sent: seq<Event>)
    requires every > 0
    ensures sent != [] <==> count % every == 0
    ensures sent != [] ==> sent == [Interaction(sessionId, kind, count)]
  {
    if count % every == 0 then [Interaction(sessionId, kind, count)] else []
  }

  /** The report streams of a sampled interaction report: its count, if due, in its own stream. */
  lemma SampleReportStreams(sessionId: string, kind: string, every: nat, count: nat)
    requires every > 0
    requires kind == ClickInteraction || kind == ScrollInteraction
    ensures var sent := SampleReport(sessionId, kind, every, count);
      && StreamOf(sent, DepthStream) == [] && StreamOf(sent, TimeStream) == []
      && StreamOf(sent, ClickStream) == (if kind == ClickInteraction then SampleDue(every, count) else [])
      && StreamOf(sent, ScrollStream) == (if kind == ScrollInteraction then SampleDue(every, count) else [])
      && forall i :: 0 <= i < |sent| ==> sent[i].SessionId() == sessionId
  {
    if count % every == 0 {
      assert ClickInteraction != ScrollInteraction by { assert ClickInteraction[0] != ScrollInteraction[0]; }
      StreamOfOne(Interaction(sessionId, kind, count));
    }
  }

  lemma StreamOfOne(e: Event)
    ensures StreamOf([e], DepthStream) == Contribution(e, DepthStream)
    ensures StreamOf([e], TimeStream) == Contribution(e, TimeStream)
    ensures StreamOf([e], ClickStream) == Contribution(e, ClickStream)
    ensures StreamOf([e], ScrollStream) == Contribution(e, ScrollStream)
  {
    assert [e][..0] == [];
  }

  /** Counting one more click and sending its sample, if due, keeps a consistent state consistent. */
  lemma ClickKeepsConsistent(sessionId: string, c: Closure, emitted: seq<Event>, c': Closure, emitted': seq<Event>)
    requires c' == c.(clicks := c.clicks + 1)
    requires emitted' == emitted + SampleReport(sessionId, ClickInteraction, ClickSampleEvery, c.clicks + 1)
    ensures Consistent(sessionId, c, emitted) ==> Consistent(sessionId, c', emitted')
  {
    if Consistent(sessionId, c, emitted) {
      var sent := SampleReport(sessionId, ClickInteraction, ClickSampleEvery, c'.clicks);
      SampleReportStreams(sessionId, ClickInteraction, ClickSampleEvery, c'.clicks);
      StreamConcat(emitted, sent, DepthStream);
      StreamConcat(emitted, sent, TimeStream);
      StreamConcat(emitted, sent, ClickStream);
      StreamConcat(emitted, sent, ScrollStream);
      assert StreamOf(emitted, DepthStream) + [] == StreamOf(emitted, DepthStream);
      assert StreamOf(emitted, TimeStream) + [] == StreamOf(emitted, TimeStream);
      assert StreamOf(emitted, ScrollStream) + [] == StreamOf(emitted, ScrollStream);
      SampledStep(ClickSampleEvery, c.clicks);
      DepthFrame(c, c', emitted, emitted + sent);
      TimesFrame(c, c', emitted, emitted + sent);
      ScrollsFrame(c, c', emitted, emitted + sent);
      SameSessionConcat(emitted, sent, sessionId);
    }
  }

  /** Counting one more scroll event and sending its sample, if due, keeps a consistent state consistent. */
  lemma ScrollKeepsConsistent(sessionId: string, c: Closure, emitted: seq<Event>, c': Closure, emitted': seq<Event>)
    requires c' == c.(scrolls := c.scrolls + 1)
    requires emitted' == emitted + SampleReport(sessionId, ScrollInteraction, ScrollSampleEvery, c.scrolls + 1)
    ensures Consistent(sessionId, c, emitted) ==> Consistent(sessionId, c', emitted')
  {
    if Consistent(sessionId, c, emitted) {
      var sent := SampleReport(sessionId, ScrollInteraction, ScrollSampleEvery, c'.scrolls);
      SampleReportStreams(sessionId, ScrollInteraction, ScrollSampleEvery, c'.scrolls);
      StreamConcat(emitted, sent, DepthStream);
      StreamConcat(emitted, sent, TimeStream);
      StreamConcat(emitted, sent, ClickStream);
      StreamConcat(emitted, sent, ScrollStream);
      assert StreamOf(emitted, DepthStream) + [] == StreamOf(emitted, DepthStream);
      assert StreamOf(emitted, TimeStream) + [] == StreamOf(emitted, TimeStream);
      assert StreamOf(emitted, ClickStream) + [] == StreamOf(emitted, ClickStream);
      SampledStep(ScrollSampleEvery, c.scrolls);
      DepthFrame(c, c', emitted, emitted + sent);
      TimesFrame(c, c', emitted, emitted + sent);
      ClicksFrame(c, c', emitted, emitted + sent);
      SameSessionConcat(emitted, sent, sessionId);
    }
  }

  /** A form-input report is neither a click nor a scroll sample. */
  lemma FormInputIsQuiet(sessionId: string)
    ensures Quiet(Interaction(sessionId, FormInputInteraction, 1))
  {
    assert FormInputInteraction[0] != ClickInteraction[0];
    assert FormInputInteraction[0] != ScrollInteraction[0];
  }

  /** The payload a milestone timer sends: none when the milestone was reported before. */
  function MilestoneReport(common: Common, times: set<int>, seconds: int): (sent: seq<Event>)
    ensures sent == [] <==> seconds in times
  {
    if seconds in times then [] else [TimeEvent(common, seconds, false)]
  }

  /** The report streams of a milestone report: the milestone, if new, in the time stream. */
  lemma MilestoneReportStreams(common: Common, times: set<int>, seconds: int)
    ensures var sent := MilestoneReport(common, times, seconds);
      && StreamOf(sent, DepthStream) == [] && StreamOf(sent, ClickStream) == [] && StreamOf(sent, ScrollStream) == []
      && StreamOf(sent, TimeStream) == (if seconds in times then [] else [seconds])
      && forall i :: 0 <= i < |sent| ==> sent[i].SessionId() == common.sessionId
  {
    if seconds !in times {
      StreamOfOne(TimeEvent(common, seconds, false));
    }
  }

  /** A new milestone extends the time stream by itself and the reported set by itself. */
  lemma TimesAdvance(c: Closure, emitted: seq<Event>, common: Common, seconds: int)
    requires TimesAgree(c, emitted)
    requires seconds in TimeThresholds
    ensures TimesAgree(c.(times := c.times + {seconds}), emitted + MilestoneReport(common, c.times, seconds))
  {
    var before := StreamOf(emitted, TimeStream);
    var sent := MilestoneReport(common, c.times, seconds);
    MilestoneReportStreams(common, c.times, seconds);
    StreamConcat(emitted, sent, TimeStream);
    if seconds in c.times {
      assert c.times + {seconds} == c.times;
      assert before + [] == before;
    } else {
      ElementsAppend(before, seconds);
      assert |c.times + {seconds}| == |c.times| + 1;
    }
  }

  /** Firing a time milestone, guarded by the reported set, keeps a consistent state consistent. */
  lemma TimeMilestoneKeepsConsistent(sessionId: string, c: Closure, emitted: seq<Event>, common: Common, seconds: int,
                                     c': Closure, emitted': seq<Event>)
    requires seconds in TimeThresholds && common.sessionId == sessionId
    requires c' == c.(times := c.times + {seconds})
    requires emitted' == emitted + MilestoneReport(common, c.times, seconds)
    ensures Consistent(sessionId, c, emitted) ==> Consistent(sessionId, c', emitted')
  {
    if Consistent(sessionId, c, emitted) {
      var sent := MilestoneReport(common, c.times, seconds);
      MilestoneReportStreams(common, c.times, seconds);
      StreamConcat(emitted, sent, DepthStream);
      StreamConcat(emitted, sent, ClickStream);
      StreamConcat(emitted, sent, ScrollStream);
      assert StreamOf(emitted, DepthStream) + [] == StreamOf(emitted, DepthStream);
      assert StreamOf(emitted, ClickStream) + [] == StreamOf(emitted, ClickStream);
      assert StreamOf(emitted, ScrollStream) + [] == StreamOf(emitted, ScrollStream);
      TimesAdvance(c, emitted, common, seconds);
      DepthFrame(c, c', emitted, emitted + sent);
      ClicksFrame(c, c', emitted, emitted + sent);
      ScrollsFrame(c, c', emitted, emitted + sent);
      SameSessionConcat(emitted, sent, sessionId);
    }
  }

  /**
   * The thresholds the `forEach` over `ts` reports, in order, when it starts
   * from the reported set `reported`: each one the percent reaches that is not
   * in the set as it stands when its turn comes, the earlier turns' additions
   * included.
   */
  function ForEachReported(ts: seq<int>, reported: set<int>, percent: int): seq<int> {
    if ts == [] then []
    else
      var before := ForEachReported(ts[..|ts| - 1], reported, percent);
      var t := ts[|ts| - 1];
      before + (if percent >= t && t !in reported + Elements(before) then [t] else [])
  }

  /** One more turn of the `forEach`. */
  lemma ForEachStep(ts: seq<int>, i: int, reported: set<int>, percent: int)
    requires 0 <= i < |ts|
    ensures var before := ForEachReported(ts[..i], reported, percent);
      ForEachReported(ts[..i + 1], reported, percent)
      == before + (if percent >= ts[i] && ts[i] !in reported + Elements(before) then [ts[i]] else [])
  {
    assert ts[..i + 1][..i] == ts[..i];
  }

  /**
   * The thresholds one run of the scroll handler reports: none unless the
   * percent is a new maximum, and then those the `forEach` over the
   * thresholds reports.
   */
  function NewThresholds(maxDepth: int, reported: set<int>, percent: int): seq<int> {
    if percent > maxDepth then ForEachReported(ScrollThresholds, reported, percent) else []
  }

  /**
   * Over ascending thresholds, when the reported ones are exactly those up to
   * `m`, the `forEach` reports the thresholds in `(m, percent]`: a threshold
   * added in one turn is below every later one, so it never suppresses one.
   */
  lemma {:induction false} ForEachReportsBetween(ts: seq<int>, reported: set<int>, m: int, percent: int)
    requires StrictlyAscending(ts)
    requires forall x :: x in ts ==> (x in reported <==> x <= m)
    ensures ForEachReported(ts, reported, percent) == Between(ts, m, percent)
  {
    if ts != [] {
      var init, t := ts[..|ts| - 1], ts[|ts| - 1];
      assert ts == init + [t];
      assert forall x :: x in init ==> x in ts;
      assert StrictlyAscending(init);
      ForEachReportsBetween(init, reported, m, percent);
      var before := Between(init, m, percent);
      AscendingPrefixBelow(ts, |ts| - 1);
      ElementsAreMembers(before);
      assert t !in Elements(before);
      assert t in ts;
    }
  }

  /**
   * When the reported set agrees with the maximum depth, the handler reports
   * exactly the thresholds above the old maximum and at most the percent.
   */
  lemma NewThresholdsAreBetween(m: int, reported: set<int>, percent: int)
    requires ThresholdsAgree(m, reported)
    ensures NewThresholds(m, reported, percent) == Between(ScrollThresholds, m, percent)
  {
    ElementsAreMembers(Reached(m));
    if percent > m {
      ScrollThresholdsAscending();
      ForEachReportsBetween(ScrollThresholds, reported, m, percent);
    } else {
      ReachedGrows(m, percent);
    }
  }

  /**
   * A scroll handler run moves the maximum up to the percent, reaches exactly
   * the thresholds in between, and afterwards the reported set is again the
   * set of thresholds up to the maximum.
   */
  lemma ThresholdsAdvance(m: int, reported: set<int>, percent: int)
    requires ThresholdsAgree(m, reported)
    ensures var m' := if percent > m then percent else m;
      && Reached(m) + Between(ScrollThresholds, m, percent) == Reached(m')
      && ThresholdsAgree(m', reported + Elements(Between(ScrollThresholds, m, percent)))
  {
    var newlyReached := Between(ScrollThresholds, m, percent);
    var m' := if percent > m then percent else m;
    ReachedGrows(m, percent);
    assert Reached(m) + newlyReached == Reached(m') by {
      if percent <= m {
        assert Reached(m) + [] == Reached(m);
      }
    }
    ElementsConcat(Reached(m), newlyReached);
  }

  /**
   * One run of the scroll handler, when the reported set agrees with the
   * maximum: a new maximum makes the `forEach` report the thresholds in
   * between; any other percent reports none and changes nothing; and the
   * reported set afterwards agrees with the new maximum.
   */
  lemma ScrollRun(m: int, reported: set<int>, percent: int, common: Common)
    requires ThresholdsAgree(m, reported)
    ensures var newly := Between(ScrollThresholds, m, percent);
      && (percent > m ==> ForEachReported(ScrollThresholds, reported, percent) == newly)
      && (percent <= m ==> newly == [] && reported + Elements(newly) == reported && DepthEvents(common, newly) == [])
      && ThresholdsAgree(if percent > m then percent else m, reported + Elements(newly))
  {
    NewThresholdsAreBetween(m, reported, percent);
    ThresholdsAdvance(m, reported, percent);
    if percent <= m {
      assert reported + Elements([]) == reported;
    }
  }

  /** A scroll handler run moves the maximum up to the percent and reports the thresholds in between. */
  lemma DepthAdvances(c: Closure, emitted: seq<Event>, common: Common, percent: int, newThresholds: set<int>)
    requires DepthAgrees(c, emitted)
    requires newThresholds == c.thresholds + Elements(Between(ScrollThresholds, c.maxDepth, percent))
    ensures DepthAgrees(c.(maxDepth := if percent > c.maxDepth then percent else c.maxDepth, thresholds := newThresholds),
                        emitted + DepthEvents(common, Between(ScrollThresholds, c.maxDepth, percent)))
  {
    var newlyReached := Between(ScrollThresholds, c.maxDepth, percent);
    var sent := DepthEvents(common, newlyReached);
    ThresholdsAdvance(c.maxDepth, c.thresholds, percent);
    StreamConcat(emitted, sent, DepthStream);
    DepthEventsStream(common, newlyReached, DepthStream);
  }

  /**
   * One scroll handler run keeps the state consistent: the new maximum is the
   * larger of the old one and the percent, and the thresholds newly reported
   * are those above the old maximum and at most the percent.
   */
  lemma DepthKeepsConsistent(sessionId: string, c: Closure, emitted: seq<Event>, common: Common, percent: int,
                             c': Closure, emitted': seq<Event>)
    requires common.sessionId == sessionId
    requires c' == c.(maxDepth := if percent > c.maxDepth then percent else c.maxDepth,
                      thresholds := c.thresholds + Elements(Between(ScrollThresholds, c.maxDepth, percent)))
    requires emitted' == emitted + DepthEvents(common, Between(ScrollThresholds, c.maxDepth, percent))
    ensures Consistent(sessionId, c, emitted) ==> Consistent(sessionId, c', emitted')
  {
    if Consistent(sessionId, c, emitted) {
      var sent := DepthEvents(common, Between(ScrollThresholds, c.maxDepth, percent));
      DepthAdvances(c, emitted, common, percent, c'.thresholds);
      OnlyDepthChanges(emitted, common, Between(ScrollThresholds, c.maxDepth, percent));
      TimesFrame(c, c', emitted, emitted + sent);
      ClicksFrame(c, c', emitted, emitted + sent);
      ScrollsFrame(c, c', emitted, emitted + sent);
      DepthEventsSession(common, Between(ScrollThresholds, c.maxDepth, percent));
      SameSessionConcat(emitted, sent, sessionId);
    }
  }

  /** Depth reports leave the other streams as they were. */
  lemma OnlyDepthChanges(emitted: seq<Event>, common: Common, ts: seq<int>)
    ensures var t := emitted + DepthEvents(common, ts);
      && StreamOf(t, TimeStream) == StreamOf(emitted, TimeStream)
      && StreamOf(t, ClickStream) == StreamOf(emitted, ClickStream)
      && StreamOf(t, ScrollStream) == StreamOf(emitted, ScrollStream)
  {
    var sent := DepthEvents(common, ts);
    StreamConcat(emitted, sent, TimeStream);
    StreamConcat(emitted, sent, ClickStream);
    StreamConcat(emitted, sent, ScrollStream);
    DepthEventsStream(common, ts, TimeStream);
    DepthEventsStream(common, ts, ClickStream);
    DepthEventsStream(common, ts, ScrollStream);
    assert StreamOf(emitted, TimeStream) + [] == StreamOf(emitted, TimeStream);
    assert StreamOf(emitted, ClickStream) + [] == StreamOf(emitted, ClickStream);
    assert StreamOf(emitted, ScrollStream) + [] == StreamOf(emitted, ScrollStream);
  }

  lemma DepthEventsSession(common: Common, ts: seq<int>)
    ensures forall i :: 0 <= i < |DepthEvents(common, ts)| ==> DepthEvents(common, ts)[i].SessionId() == common.sessionId
  {
    var sent := DepthEvents(common, ts);
    forall i | 0 <= i < |sent|
      ensures sent[i].SessionId() == common.sessionId
    {
      assert sent[i] == ScrollDepth(common, ts[i]);
    }
  }
}
