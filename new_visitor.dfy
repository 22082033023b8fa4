/**
 * The new-visitor rule: a visitor is new when local storage holds no usable
 * "last visit" marker, or the marker is more than a day old; a new visitor's
 * marker is overwritten with the current time, otherwise storage is left alone.
 */
module NewVisitor {

  /**
   * What `localStorage.getItem('akshar_last_visit')` can hold: nothing, the
   * empty string (falsy, like nothing), a string `parseInt` reads as a number
   * of milliseconds, or a string it reads as NaN.
   */
  datatype Marker = Absent | Empty | Parsed(ms: int) | Malformed

  const OneDayMs: int := 24 * 60 * 60 * 1000

  /**
   * `!lastVisit || (now - parseInt(lastVisit)) > oneDay`. A malformed marker
   * makes the difference NaN, and every comparison with NaN is false.
   */
  predicate IsNewVisitor(lastVisit: Marker, now: int) {
    match lastVisit
    case Absent => true
    case Empty => true
    case Parsed(ms) => now - ms > OneDayMs
    case Malformed => false
  }

  /** The stored marker after one check at time `now`. */
  function MarkerAfter(lastVisit: Marker, now: int): Marker {
    if IsNewVisitor(lastVisit, now) then Parsed(now) else lastVisit
  }

  /** The marker before the k-th of a series of checks at the given times. */
  function MarkerAt(initial: Marker, times: seq<int>, k: nat): Marker
    requires k <= |times|
  {
    if k == 0 then initial else MarkerAfter(MarkerAt(initial, times, k - 1), times[k - 1])
  }

  /** The result of the k-th check of the series. */
  predicate NewAt(initial: Marker, times: seq<int>, k: nat)
    requires k < |times|
  {
    IsNewVisitor(MarkerAt(initial, times, k), times[k])
  }

  /** A check made within a day of a check that found a new visitor finds a returning one. */
  lemma SecondCheck(m: Marker, t: int, t': int)
    requires IsNewVisitor(m, t)
    ensures IsNewVisitor(MarkerAfter(m, t), t') <==> t' - t > OneDayMs
    ensures !IsNewVisitor(MarkerAfter(m, t), t') ==> MarkerAfter(MarkerAfter(m, t), t') == Parsed(t)
  {
  }

  /** Once a marker parses, it keeps parsing and its time never goes down. */
  lemma {:induction false} MarkerNeverMovesBack(initial: Marker, times: seq<int>, i: nat, j: nat)
    requires i <= j <= |times|
    requires MarkerAt(initial, times, i).Parsed?
    ensures MarkerAt(initial, times, j).Parsed?
    ensures MarkerAt(initial, times, j).ms >= MarkerAt(initial, times, i).ms
    decreases j - i
  {
    if i < j {
      MarkerNeverMovesBack(initial, times, i, j - 1);
    }
  }

  /**
   * Whatever the order of the clock readings, two checks of one series that
   * both find a new visitor are more than a day apart.
   */
  lemma AtMostOneNewVisitPerDay(initial: Marker, times: seq<int>, i: nat, j: nat)
    requires i < j < |times|
    requires NewAt(initial, times, i) && NewAt(initial, times, j)
    ensures times[j] - times[i] > OneDayMs
  {
    assert MarkerAt(initial, times, i + 1) == Parsed(times[i]);
    MarkerNeverMovesBack(initial, times, i + 1, j);
  }

  /** A malformed marker is never replaced, so no later check finds a new visitor. */
  lemma {:induction false} MalformedMarkerSticks(times: seq<int>, k: nat)
    requires k <= |times|
    ensures MarkerAt(Malformed, times, k) == Malformed
    ensures k < |times| ==> !NewAt(Malformed, times, k)
  {
    if k > 0 {
      MalformedMarkerSticks(times, k - 1);
    }
  }
}
