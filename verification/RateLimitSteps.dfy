/** The atomic steps of the per-IP sliding window rate limiter. Times and durations are in nanoseconds. */
module RateLimitSteps {
  import opened Options

  type IP = string

  /** The request times kept for each IP, oldest first. */
  type Table = map<IP, seq<int>>

  datatype Config = Config(limit: int, window: int, maxIPs: int)

  datatype Answer = Answer(allowed: bool, remaining: int, reset: int, retryAfter: int)

  /** One atomic step: a request and the IP it evicted, if any, or one tick of the cleanup loop. */
  datatype Event = Request(ip: IP, now: int, answer: Answer, evicted: Option<IP>)
                 | Sweep(now: int)

  // ---------------------------------------------------------------------------
  // Steps
  // ---------------------------------------------------------------------------

  function Stored(t: Table, ip: IP): seq<int> {
    if ip in t then t[ip] else []
  }

  /** Drops times from the front as long as they are before `start`. */
  function Trim(l: seq<int>, start: int): seq<int> {
    if l != [] && l[0] < start then Trim(l[1..], start) else l
  }

  /** The limit is reached by an empty list, whose front the source then takes: a nil dereference. */
  predicate Panics(cfg: Config, t: Table, ip: IP, now: int) {
    var recent := Trim(Stored(t, ip), now - cfg.window);
    |recent| >= cfg.limit && recent == []
  }

  function AnswerFor(cfg: Config, recent: seq<int>, now: int): Answer
    requires cfg.limit >= 1 || recent != []
  {
    if |recent| >= cfg.limit then Answer(false, 0, now + cfg.window, cfg.window - (now - recent[0]))
    else Answer(true, cfg.limit - (|recent| + 1), now + cfg.window, 0)
  }

  function NonEmpty(t: Table): Table {
    map ip | ip in t && t[ip] != [] :: t[ip]
  }

  /** ip's oldest time is minimal in the table. */
  predicate Oldest(t: Table, ip: IP)
    requires forall k | k in t :: t[k] != []
  {
    ip in t && forall k | k in t :: t[ip][0] <= t[k][0]
  }

  /**
   Over capacity, empty lists and one IP with a minimal oldest time are dropped; which one, among
   several, is the map's choice. The empty string cannot be dropped: it also means "none found".
   */
  ghost predicate EvictStep(cfg: Config, t: Table, evicted: Option<IP>, after: Table) {
    if cfg.maxIPs > 0 && |t| > cfg.maxIPs then
      var full := NonEmpty(t);
      if evicted == None then after == full && (full == map[] || Oldest(full, ""))
      else evicted.value != "" && Oldest(full, evicted.value) && after == full - {evicted.value}
    else evicted == None && after == t
  }

  /** A step that comes to an end: a request that panics makes none. */
  ghost predicate Step(cfg: Config, t: Table, e: Event, after: Table) {
    match e
    case Request(ip, now, answer, evicted) =>
      var recent := Trim(Stored(t, ip), now - cfg.window);
      && !Panics(cfg, t, ip, now)
      && answer == AnswerFor(cfg, recent, now)
      && if answer.allowed then EvictStep(cfg, t[ip := recent + [now]], evicted, after)
         else evicted == None && after == t[ip := recent]
    case Sweep(now) =>
      after == map ip | ip in t && t[ip] != [] && t[ip][0] >= now - 2 * cfg.window :: t[ip]
  }

  /** Where nothing is stored for an IP, as at its first request, it panics exactly when the limit is below 1. */
  lemma PanicsExactly(cfg: Config, t: Table, ip: IP, now: int)
    requires Stored(t, ip) == []
    ensures Panics(cfg, t, ip, now) <==> cfg.limit < 1
  {}

  ghost predicate AllEmpty(t: Table) {
    forall ip | ip in t :: t[ip] == []
  }

  /**
   With a limit of at least 1 no request ever panics. Below 1 every request does, for good: a panic leaves
   an empty list behind, and neither that nor cleanup ever lets a time into the table.
   */
  lemma PanicsAlwaysOrNever(cfg: Config, t: Table, ip: IP, now: int)
    ensures cfg.limit >= 1 ==> !Panics(cfg, t, ip, now)
    ensures cfg.limit < 1 && AllEmpty(t) ==> Panics(cfg, t, ip, now) && AllEmpty(t[ip := []])
    ensures AllEmpty(t) ==> forall after | Step(cfg, t, Sweep(now), after) :: AllEmpty(after)
  {}
}
