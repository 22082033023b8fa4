/**
 * Which three numbers the live-count widget shows after a count request:
 * the server's `liveCount`, `totalVisitors` and `newVisitorsToday` when the
 * request succeeded and the reply says `success` and `isCentralized`, each
 * replaced by 1 when falsy; otherwise 1, 1 and 1.
 */
module LiveCount {

  /** A JSON field as JavaScript sees it after `response.json()`; numbers are integral here. */
  datatype JsonValue = Undefined | Null | Bool(b: bool) | Number(n: int) | Text(s: string) | Structured

  /** JavaScript truthiness: `undefined`, `null`, `false`, `0` and `""` are falsy. */
  predicate Truthy(v: JsonValue) {
    match v
    case Undefined => false
    case Null => false
    case Bool(b) => b
    case Number(n) => n != 0
    case Text(s) => s != []
    case Structured => true
  }

  /** The parsed body: either not a JSON object, or the five fields the tracker reads. */
  datatype Body =
    | Unparseable
    | Reply(success: JsonValue, isCentralized: JsonValue,
            liveCount: JsonValue, totalVisitors: JsonValue, newVisitorsToday: JsonValue)

  /** The outcome of the count request. */
  datatype Response = TransportError | HttpResponse(ok: bool, body: Body)

  datatype Counts = Counts(live: JsonValue, total: JsonValue, newToday: JsonValue)

  /** `displayLiveCount(1, 1, 1)`: "just you". */
  const Fallback: Counts := Counts(Number(1), Number(1), Number(1))

  /** The request got through, the body parsed and both flags are truthy. */
  predicate Accepted(r: Response) {
    r.HttpResponse? && r.ok && r.body.Reply? && Truthy(r.body.success) && Truthy(r.body.isCentralized)
  }

  /** `value || 1`. */
  function OrOne(v: JsonValue): (r: JsonValue)
    ensures Truthy(r)
    ensures Truthy(v) ==> r == v
  {
    if Truthy(v) then v else Number(1)
  }

  /** The counts `fetchAndUpdateLiveCount` passes to `displayLiveCount`. */
  function SelectCounts(r: Response): (c: Counts)
    ensures Truthy(c.live) && Truthy(c.total) && Truthy(c.newToday)
  {
    match r
    case TransportError => Fallback
    case HttpResponse(ok, body) =>
      if !ok then Fallback
      else match body
        case Unparseable => Fallback
        case Reply(success, isCentralized, live, total, newToday) =>
          if Truthy(success) && Truthy(isCentralized)
          then Counts(OrOne(live), OrOne(total), OrOne(newToday))
          else Fallback
  }

  /**
   * Every outcome other than an accepted reply shows 1, 1, 1: a transport
   * error, a non-OK status, an unparseable body, or a falsy flag.
   */
  lemma RejectedShowsFallback(r: Response)
    requires !Accepted(r)
    ensures SelectCounts(r) == Fallback
  {
  }

  /**
   * An accepted reply shows each of its counts that is truthy exactly as sent,
   * and 1 for each that is missing, null, zero or empty.
   */
  lemma AcceptedShowsServerCounts(r: Response)
    requires Accepted(r)
    ensures Truthy(r.body.liveCount) ==> SelectCounts(r).live == r.body.liveCount
    ensures Truthy(r.body.totalVisitors) ==> SelectCounts(r).total == r.body.totalVisitors
    ensures Truthy(r.body.newVisitorsToday) ==> SelectCounts(r).newToday == r.body.newVisitorsToday
    ensures !Truthy(r.body.liveCount) ==> SelectCounts(r).live == Number(1)
    ensures !Truthy(r.body.totalVisitors) ==> SelectCounts(r).total == Number(1)
    ensures !Truthy(r.body.newVisitorsToday) ==> SelectCounts(r).newToday == Number(1)
  {
  }

  /** The widget shows something other than 1, 1, 1 only for an accepted reply. */
  lemma NonFallbackMeansAccepted(r: Response)
    requires SelectCounts(r) != Fallback
    ensures Accepted(r)
    ensures SelectCounts(r) == Counts(OrOne(r.body.liveCount), OrOne(r.body.totalVisitors), OrOne(r.body.newVisitorsToday))
  {
  }

  /** `{success: false}` shows 1, 1, 1. */
  lemma SuccessFalseShowsFallback(live: JsonValue, total: JsonValue, newToday: JsonValue, centralized: JsonValue)
    ensures SelectCounts(HttpResponse(true, Reply(Bool(false), centralized, live, total, newToday))) == Fallback
  {
  }
}
