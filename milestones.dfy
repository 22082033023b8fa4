/**
 * Threshold and sampling rules of the listeners: scroll-depth thresholds,
 * time-on-page milestones, 1-in-5 click and 1-in-10 scroll sampling, and the
 * streams of those reports that can be read off a sequence of sent payloads.
 */
module Milestones {
  import opened Events

  const ScrollThresholds: seq<int> := [25, 50, 75, 90, 100]
  const TimeThresholds: seq<int> := [10, 30, 60, 120, 300]
  const ClickSampleEvery: nat := 5
  const ScrollSampleEvery: nat := 10

  const ClickInteraction: string := "click"
  const ScrollInteraction: string := "scroll"
  const FormInputInteraction: string := "form_input"

  predicate StrictlyAscending(s: seq<int>) {
    forall i, j :: 0 <= i < j < |s| ==> s[i] < s[j]
  }

  predicate Distinct(s: seq<int>) {
    forall i, j :: 0 <= i < j < |s| ==> s[i] != s[j]
  }

  lemma DistinctSnoc(s: seq<int>, x: int)
    ensures Distinct(s + [x]) <==> Distinct(s) && x !in s
  {
    if Distinct(s) && x !in s {
      forall i, j | 0 <= i < j < |s + [x]|
        ensures (s + [x])[i] != (s + [x])[j]
      {
        if j == |s| {
          assert s[i] in s;
        }
      }
    }
    if Distinct(s + [x]) {
      assert forall i, j :: 0 <= i < j < |s| ==> s[i] == (s + [x])[i] && s[j] == (s + [x])[j];
      forall i | 0 <= i < |s|
        ensures s[i] != x
      {
        assert (s + [x])[i] == s[i] && (s + [x])[|s|] == x;
      }
    }
  }

  /** Regrouping a concatenation, proved pointwise once so that the list proofs below can cite it. */
  lemma AppendAssociates<T>(a: seq<T>, b: seq<T>, c: seq<T>)
    ensures a + (b + c) == (a + b) + c
  {
    assert |a + (b + c)| == |(a + b) + c|;
    forall i | 0 <= i < |a + (b + c)|
      ensures (a + (b + c))[i] == ((a + b) + c)[i]
    {
    }
  }

  /** The set of values in a list. */
  function Elements(s: seq<int>): set<int> {
    if s == [] then {} else Elements(s[..|s| - 1]) + {s[|s| - 1]}
  }

  lemma {:induction false} ElementsAreMembers(s: seq<int>)
    ensures forall x :: x in Elements(s) <==> x in s
  {
    if s != [] {
      var init := s[..|s| - 1];
      ElementsAreMembers(init);
      assert s == init + [s[|s| - 1]];
      assert forall x :: x in s <==> x in init || x == s[|s| - 1];
    }
  }

  lemma ElementsAppend(s: seq<int>, x: int)
    ensures Elements(s + [x]) == Elements(s) + {x}
  {
    assert (s + [x])[..|s|] == s;
  }

  lemma {:induction false} ElementsConcat(s: seq<int>, t: seq<int>)
    ensures Elements(s + t) == Elements(s) + Elements(t)
    decreases |t|
  {
    if t == [] {
      assert s + t == s;
    } else {
      var init, x := t[..|t| - 1], t[|t| - 1];
      ElementsConcat(s, init);
      assert s + t == (s + init) + [x];
      ElementsAppend(s + init, x);
    }
  }

  /** A list has as many distinct values as entries exactly when no value repeats. */
  lemma {:induction false} ElementsCount(s: seq<int>)
    ensures |Elements(s)| <= |s|
    ensures |Elements(s)| == |s| <==> Distinct(s)
  {
    if s != [] {
      var init, x := s[..|s| - 1], s[|s| - 1];
      assert s == init + [x];
      ElementsCount(init);
      ElementsAreMembers(init);
      DistinctSnoc(init, x);
      if x in Elements(init) {
        assert Elements(init) + {x} == Elements(init);
      } else {
        assert |Elements(init) + {x}| == |Elements(init)| + 1;
      }
    }
  }

  // ---------------------------------------------------------------------------
  // Thresholds crossed.

  /** The elements of `ts` in `(lo, hi]`, in the order of `ts`. */
  function Between(ts: seq<int>, lo: int, hi: int): (r: seq<int>)
    ensures forall x :: x in r <==> x in ts && lo < x <= hi
    ensures |r| <= |ts|
  {
    if ts == [] then []
    else Between(ts[..|ts| - 1], lo, hi) + (if lo < ts[|ts| - 1] <= hi then [ts[|ts| - 1]] else [])
  }

  lemma {:induction false} BetweenKeepsOrder(ts: seq<int>, lo: int, hi: int)
    requires StrictlyAscending(ts)
    ensures StrictlyAscending(Between(ts, lo, hi))
  {
    if ts != [] {
      var init, x := ts[..|ts| - 1], ts[|ts| - 1];
      assert StrictlyAscending(init);
      BetweenKeepsOrder(init, lo, hi);
      var b := Between(init, lo, hi);
      if lo < x <= hi {
        forall i | 0 <= i < |b|
          ensures b[i] < x
        {
          assert b[i] in b;
          var j :| 0 <= j < |init| && init[j] == b[i];
        }
      }
    }
  }

  lemma {:induction false} BetweenEmpty(ts: seq<int>, lo: int, hi: int)
    requires forall t :: t in ts ==> t <= lo || t > hi
    ensures Between(ts, lo, hi) == []
  {
    if ts != [] {
      var init, x := ts[..|ts| - 1], ts[|ts| - 1];
      assert ts == init + [x];
      forall t | t in init
        ensures t <= lo || t > hi
      {
        assert t in ts;
      }
      assert x in ts;
      BetweenEmpty(init, lo, hi);
      assert Between(ts, lo, hi) == Between(init, lo, hi) + [];
    }
  }

  /** When every element lies in the interval, nothing is dropped. */
  lemma {:induction false} BetweenAll(ts: seq<int>, lo: int, hi: int)
    requires forall t :: t in ts ==> lo < t <= hi
    ensures Between(ts, lo, hi) == ts
  {
    if ts != [] {
      var init, x := ts[..|ts| - 1], ts[|ts| - 1];
      assert ts == init + [x];
      forall t | t in init
        ensures lo < t <= hi
      {
        assert t in ts;
      }
      assert x in ts;
      BetweenAll(init, lo, hi);
      assert Between(ts, lo, hi) == Between(init, lo, hi) + [x];
    }
  }

  /** When every element is at most b, raising the upper bound past b changes nothing. */
  lemma {:induction false} BetweenAboveAllSame(ts: seq<int>, a: int, b: int, c: int)
    requires b <= c
    requires forall t :: t in ts ==> t <= b
    ensures Between(ts, a, b) == Between(ts, a, c)
  {
    if ts != [] {
      var init, x := ts[..|ts| - 1], ts[|ts| - 1];
      assert ts == init + [x];
      forall t | t in init
        ensures t <= b
      {
        assert t in ts;
      }
      assert x in ts;
      BetweenAboveAllSame(init, a, b, c);
      var tail := if a < x <= b then [x] else [];
      assert Between(ts, a, b) == Between(init, a, b) + tail;
      assert Between(ts, a, c) == Between(init, a, c) + tail;
    }
  }

  /** Over an ascending list, (a, b] followed by (b, c] is (a, c]. */
  lemma {:induction false} BetweenSplit(ts: seq<int>, a: int, b: int, c: int)
    requires a <= b <= c
    requires StrictlyAscending(ts)
    ensures Between(ts, a, b) + Between(ts, b, c) == Between(ts, a, c)
  {
    if ts != [] {
      var init, x := ts[..|ts| - 1], ts[|ts| - 1];
      assert StrictlyAscending(init);
      AscendingPrefixBelow(ts, |ts| - 1);
      var ab, bc, ac := Between(init, a, b), Between(init, b, c), Between(init, a, c);
      if x <= b {
        BetweenEmpty(init, b, c);
        BetweenAboveAllSame(init, a, b, c);
        var tail := if a < x then [x] else [];
        assert Between(ts, a, b) == ab + tail;
        assert Between(ts, b, c) == bc + [];
        assert Between(ts, a, c) == ac + tail;
        assert ab + tail + [] == ab + tail;
      } else {
        BetweenSplit(init, a, b, c);
        var tail := if x <= c then [x] else [];
        assert Between(ts, a, b) == ab + [] == ab;
        assert Between(ts, b, c) == bc + tail;
        assert Between(ts, a, c) == ac + tail;
        AppendAssociates(ab, bc, tail);
      }
    }
  }

  /** In an ascending list everything before position i is below the element at i. */
  lemma AscendingPrefixBelow(ts: seq<int>, i: int)
    requires StrictlyAscending(ts) && 0 <= i < |ts|
    ensures forall x :: x in ts[..i] ==> x < ts[i]
  {
    forall x | x in ts[..i]
      ensures x < ts[i]
    {
      var j :| 0 <= j < i && ts[..i][j] == x;
      assert ts[j] == x;
    }
  }

  lemma ScrollThresholdsAscending()
    ensures StrictlyAscending(ScrollThresholds)
  {
    var s := ScrollThresholds;
    assert s[0] < s[1] < s[2] < s[3] < s[4];
  }

  /** The scroll thresholds a running maximum of `maxDepth` has reached, ascending. */
  function Reached(maxDepth: int): (r: seq<int>)
    ensures forall t :: t in r <==> t in ScrollThresholds && t <= maxDepth
    ensures StrictlyAscending(r)
  {
    ScrollThresholdsAscending();
    BetweenKeepsOrder(ScrollThresholds, 0, maxDepth);
    Between(ScrollThresholds, 0, maxDepth)
  }

  /**
   * A rise of the maximum from m to p reports exactly the thresholds in (m, p],
   * ascending, after those already reached; a percent at or below the maximum
   * reports nothing.
   */
  lemma ReachedGrows(m: int, p: int)
    requires 0 <= m
    ensures m < p ==> Reached(m) + Between(ScrollThresholds, m, p) == Reached(p)
    ensures p <= m ==> Between(ScrollThresholds, m, p) == []
  {
    if m < p {
      BetweenSplit(ScrollThresholds, 0, m, p);
    } else {
      BetweenEmpty(ScrollThresholds, m, p);
    }
  }

  /**
   * Over any series of percents from a fresh page, the thresholds reported are
   * those at or below the final maximum, each once and in ascending order: a
   * series whose maximum reaches 100 reports all five.
   */
  function ScrollReports(maxDepth: int, percents: seq<int>): seq<int>
    decreases |percents|
  {
    if percents == [] then []
    else
      var p := percents[0];
      Between(ScrollThresholds, maxDepth, p) + ScrollReports(if p > maxDepth then p else maxDepth, percents[1..])
  }

  function MaxOf(m: int, percents: seq<int>): (r: int)
    ensures r >= m
    decreases |percents|
  {
    if percents == [] then m else MaxOf(if percents[0] > m then percents[0] else m, percents[1..])
  }

  lemma {:induction false} ScrollReportsAreReachedOnce(m: int, percents: seq<int>)
    requires 0 <= m
    ensures Reached(m) + ScrollReports(m, percents) == Reached(MaxOf(m, percents))
    decreases |percents|
  {
    if percents == [] {
      assert Reached(m) + [] == Reached(m);
    } else {
      var p, rest := percents[0], percents[1..];
      var m' := if p > m then p else m;
      var now, later := Between(ScrollThresholds, m, p), ScrollReports(m', rest);
      assert ScrollReports(m, percents) == now + later;
      assert MaxOf(m, percents) == MaxOf(m', rest);
      ScrollReportsAreReachedOnce(m', rest);
      ReachedGrows(m, p);
      assert Reached(m) + now == Reached(m') by {
        if p <= m {
          assert now == [];
        }
      }
      assert Reached(m) + (now + later) == (Reached(m) + now) + later;
    }
  }

  lemma FullScrollReportsAllFive(percents: seq<int>)
    requires MaxOf(0, percents) >= 100
    ensures ScrollReports(0, percents) == ScrollThresholds
  {
    ScrollReportsAreReachedOnce(0, percents);
    assert Reached(0) == [] by { BetweenEmpty(ScrollThresholds, 0, 0); }
    assert Reached(MaxOf(0, percents)) == ScrollThresholds by {
      BetweenAll(ScrollThresholds, 0, 100);
      BetweenAboveAllSame(ScrollThresholds, 0, 100, MaxOf(0, percents));
    }
  }

  // ---------------------------------------------------------------------------
  // Sampling.

  /** The counts reported by a counter that reports on every `every`-th increment, after n increments. */
  function Sampled(every: nat, n: nat): seq<int>
    requires every > 0
  {
    if n == 0 then [] else Sampled(every, n - 1) + SampleDue(every, n)
  }

  /** The report made at count n: the count itself when it is a multiple of `every`. */
  function SampleDue(every: nat, n: nat): seq<int>
    requires every > 0
  {
    if n % every == 0 then [n] else []
  }

  /** One more increment adds its count exactly when it is a multiple of `every`. */
  lemma SampledStep(every: nat, n: nat)
    requires every > 0
    ensures Sampled(every, n + 1) == Sampled(every, n) + SampleDue(every, n + 1)
  {
  }

  lemma DivStep(n: nat, k: nat)
    requires n > 0 && k > 0
    ensures n % k == 0 ==> (n - 1) / k == n / k - 1
    ensures n % k != 0 ==> (n - 1) / k == n / k
  {
    var q, r := n / k, n % k;
    assert n == k * q + r;
    if r == 0 {
      assert n - 1 == k * (q - 1) + (k - 1);
      DivUnique(n - 1, k, q - 1, k - 1);
    } else {
      assert n - 1 == k * q + (r - 1);
      DivUnique(n - 1, k, q, r - 1);
    }
  }

  lemma DivUnique(n: int, k: int, q: int, r: int)
    requires k > 0 && 0 <= r < k && n == k * q + r
    ensures n / k == q
  {
    var q', r' := n / k, n % k;
    assert k * (q' - q) == r - r';
    MulSign(k, q' - q);
  }

  lemma MulSign(k: int, d: int)
    requires k > 0
    ensures d >= 1 ==> k * d >= k
    ensures d <= -1 ==> k * d <= -k
  {
  }

  /** After n increments exactly n / every reports were made, with counts every, 2 * every, .... */
  lemma {:induction false} SampledClosedForm(every: nat, n: nat)
    requires every > 0
    ensures |Sampled(every, n)| == n / every
    ensures forall i :: 0 <= i < |Sampled(every, n)| ==> Sampled(every, n)[i] == every * (i + 1)
  {
    if n > 0 {
      SampledClosedForm(every, n - 1);
      DivStep(n, every);
      if n % every == 0 {
        assert n == every * (n / every);
      }
    }
  }

  /** 23 clicks report at 5, 10, 15 and 20; 25 clicks report five times. */
  lemma ClickSamplingExamples()
    ensures Sampled(ClickSampleEvery, 23) == [5, 10, 15, 20]
    ensures |Sampled(ClickSampleEvery, 25)| == 5
  {
    SampledClosedForm(ClickSampleEvery, 23);
    SampledClosedForm(ClickSampleEvery, 25);
  }

  // ---------------------------------------------------------------------------
  // The report streams inside a sequence of sent payloads.

  datatype Stream = DepthStream | TimeStream | ClickStream | ScrollStream

  /** What one payload adds to a stream. */
  function Contribution(e: Event, k: Stream): seq<int> {
    match k
    case DepthStream => if e.ScrollDepth? then [e.scrollPercent] else []
    case TimeStream => if e.TimeEvent? && !e.isExit then [e.timeSpent] else []
    case ClickStream =>
      if e.Interaction? && e.interactionType == ClickInteraction then [e.interactionCount] else []
    case ScrollStream =>
      if e.Interaction? && e.interactionType == ScrollInteraction then [e.interactionCount] else []
  }

  function StreamOf(s: seq<Event>, k: Stream): seq<int> {
    if s == [] then [] else StreamOf(s[..|s| - 1], k) + Contribution(s[|s| - 1], k)
  }

  lemma {:induction false} StreamConcat(s: seq<Event>, t: seq<Event>, k: Stream)
    ensures StreamOf(s + t, k) == StreamOf(s, k) + StreamOf(t, k)
    decreases |t|
  {
    if t == [] {
      assert s + t == s;
      assert StreamOf(s, k) + [] == StreamOf(s, k);
    } else {
      var init, e := t[..|t| - 1], t[|t| - 1];
      assert t == init + [e];
      AppendAssociates(s, init, [e]);
      StreamAppend(s + init, e, k);
      StreamAppend(init, e, k);
      StreamConcat(s, init, k);
      AppendAssociates(StreamOf(s, k), StreamOf(init, k), Contribution(e, k));
    }
  }

  lemma StreamAppend(s: seq<Event>, e: Event, k: Stream)
    ensures StreamOf(s + [e], k) == StreamOf(s, k) + Contribution(e, k)
  {
    assert (s + [e])[..|s|] == s;
  }

  /** The depth reports for the thresholds `ts`, one payload each. */
  function DepthEvents(common: Common, ts: seq<int>): (es: seq<Event>)
    ensures |es| == |ts|
    ensures forall i :: 0 <= i < |ts| ==> es[i] == ScrollDepth(common, ts[i])
  {
    if ts == [] then [] else DepthEvents(common, ts[..|ts| - 1]) + [ScrollDepth(common, ts[|ts| - 1])]
  }

  /** Reporting one more threshold appends its payload after those already sent. */
  lemma DepthEventsSnoc(sent: seq<Event>, common: Common, ts: seq<int>, t: int)
    ensures DepthEvents(common, ts + [t]) == DepthEvents(common, ts) + [ScrollDepth(common, t)]
    ensures sent + DepthEvents(common, ts + [t]) == sent + DepthEvents(common, ts) + [ScrollDepth(common, t)]
  {
    assert (ts + [t])[..|ts|] == ts;
    assert sent + (DepthEvents(common, ts) + [ScrollDepth(common, t)]) == sent + DepthEvents(common, ts) + [ScrollDepth(common, t)];
  }

  lemma DepthContribution(common: Common, x: int, k: Stream)
    ensures Contribution(ScrollDepth(common, x), k) == if k == DepthStream then [x] else []
  {
  }

  lemma {:induction false} DepthEventsStream(common: Common, ts: seq<int>, k: Stream)
    ensures StreamOf(DepthEvents(common, ts), k) == if k == DepthStream then ts else []
  {
    if ts != [] {
      var init, x := ts[..|ts| - 1], ts[|ts| - 1];
      var e := ScrollDepth(common, x);
      assert DepthEvents(common, ts) == DepthEvents(common, init) + [e];
      DepthEventsStream(common, init, k);
      StreamAppend(DepthEvents(common, init), e, k);
      DepthContribution(common, x, k);
      if k == DepthStream {
        assert init + [x] == ts;
      } else {
        assert StreamOf(DepthEvents(common, ts), k) == [] + [];
      }
    }
  }
}
