/**
  The expiry rule for one listed item: read its TTL annotation, choose the
  instant the TTL counts from, and compare against the current time.
  Instants and durations are integers of nanoseconds.
 */
module Expiry {
  import opened Wrappers

  const AnnotationTtl: string := "k8s-ttl-controller.twin.sh/ttl"
  const AnnotationRefreshedAt: string := "k8s-ttl-controller.twin.sh/refreshed-at"

  const Second: int := 1_000_000_000
  const Minute: int := 60 * Second
  const Hour: int := 60 * Minute
  const Day: int := 24 * Hour

  /** A listed object, as far as the reconciler reads it. */
  datatype Item = Item(
    namespace: string,
    name: string,
    kind: string,
    creationTimestamp: int,
    annotations: map<string, string>)

  /**
    The two parsers the reconciler borrows: the human-friendly duration parser
    ("5m", "3d", "1d2h") and the RFC 3339 timestamp parser. Both are partial,
    answering None for text they reject.
   */
  datatype Parsers = Parsers(duration: string -> Option<int>, rfc3339: string -> Option<int>)

  /** The clock reading and the parsers one pass decides with. */
  datatype Env = Env(now: int, parsers: Parsers)

  /** The refreshed-at annotation, when present and well-formed RFC 3339. */
  function RefreshTime(item: Item, rfc3339: string -> Option<int>): Option<int>
  {
    if AnnotationRefreshedAt in item.annotations then rfc3339(item.annotations[AnnotationRefreshedAt])
    else None
  }

  /**
    The instant the TTL counts from: the refreshed-at annotation when it is
    present and parses as RFC 3339, and otherwise (absent or malformed) the
    creation timestamp. A malformed refreshed-at value is only logged, never fatal.
   */
  function StartTime(item: Item, rfc3339: string -> Option<int>): (start: int)
    ensures RefreshTime(item, rfc3339).Some? ==> start == RefreshTime(item, rfc3339).value
    ensures RefreshTime(item, rfc3339).None? ==> start == item.creationTimestamp
  {
    if AnnotationRefreshedAt in item.annotations then
      match rfc3339(item.annotations[AnnotationRefreshedAt])
      case Some(t) => t
      case None => item.creationTimestamp
    else
      item.creationTimestamp
  }

  /** What the reconciler concludes about one item. */
  datatype Verdict =
    | NotAnnotated                         // no TTL annotation: left alone
    | InvalidTtl(ttl: string)              // the TTL does not parse: logged and left alone
    | Expired(ttl: string, overshoot: int) // due for deletion, `overshoot` past its deadline
    | NotExpired(ttl: string, remaining: int) // within its TTL, `remaining` before its deadline

  /** The TTL annotation of `item` parses to `ttl`. */
  predicate HasTtl(item: Item, parsers: Parsers, ttl: int)
  {
    AnnotationTtl in item.annotations && parsers.duration(item.annotations[AnnotationTtl]) == Some(ttl)
  }

  function Evaluate(item: Item, env: Env): (v: Verdict)
    ensures v.NotAnnotated? <==> AnnotationTtl !in item.annotations
    ensures v.InvalidTtl? <==>
              AnnotationTtl in item.annotations && env.parsers.duration(item.annotations[AnnotationTtl]).None?
    ensures !v.NotAnnotated? ==> v.ttl == item.annotations[AnnotationTtl]
    ensures v.Expired? ==> v.overshoot > 0
    ensures v.NotExpired? ==> v.remaining >= 0
  {
    if AnnotationTtl !in item.annotations then NotAnnotated
    else
      var ttl := item.annotations[AnnotationTtl];
      match env.parsers.duration(ttl)
      case None => InvalidTtl(ttl)
      case Some(d) =>
        var deadline := StartTime(item, env.parsers.rfc3339) + d;
        if env.now > deadline then Expired(ttl, env.now - deadline) else NotExpired(ttl, deadline - env.now)
  }

  /**
    The deletion rule: an item is expired exactly when its TTL annotation
    parses and the current time is strictly after start time plus TTL; the
    overshoot is how far past that deadline the clock is, and otherwise the
    time remaining is how far before it.
   */
  lemma ExpiredIff(item: Item, env: Env, ttl: int)
    requires HasTtl(item, env.parsers, ttl)
    ensures Evaluate(item, env).Expired? <==> env.now > StartTime(item, env.parsers.rfc3339) + ttl
    ensures Evaluate(item, env).Expired? ==>
              Evaluate(item, env).overshoot == env.now - (StartTime(item, env.parsers.rfc3339) + ttl)
    ensures !Evaluate(item, env).Expired? ==>
              Evaluate(item, env) ==
                NotExpired(item.annotations[AnnotationTtl], StartTime(item, env.parsers.rfc3339) + ttl - env.now)
  {
  }

  /** Only an item whose TTL annotation parses can ever be expired. */
  lemma ExpiredNeedsValidTtl(item: Item, env: Env)
    requires Evaluate(item, env).Expired?
    ensures exists ttl :: HasTtl(item, env.parsers, ttl)
  {
    var ttl := env.parsers.duration(item.annotations[AnnotationTtl]).value;
    assert HasTtl(item, env.parsers, ttl);
  }

  /** Once expired, an item stays expired as the clock advances. */
  lemma ExpiryIsStable(item: Item, env: Env, later: int)
    requires Evaluate(item, env).Expired? && later >= env.now
    ensures Evaluate(item, Env(later, env.parsers)).Expired?
  {
  }

  /**
    A parseable refreshed-at annotation takes precedence: an item whose
    refreshed-at is later than its creation is judged from the refresh, so it
    can be unexpired although creation plus TTL has passed.
   */
  lemma RefreshPostponesExpiry(item: Item, env: Env, ttl: int, refreshed: int)
    requires HasTtl(item, env.parsers, ttl)
    requires AnnotationRefreshedAt in item.annotations
    requires env.parsers.rfc3339(item.annotations[AnnotationRefreshedAt]) == Some(refreshed)
    requires item.creationTimestamp + ttl < env.now <= refreshed + ttl
    ensures Evaluate(item, env) == NotExpired(item.annotations[AnnotationTtl], refreshed + ttl - env.now)
  {
  }

  /** A pod created an hour ago with TTL "5m" is expired, 55 minutes past its deadline. */
  lemma FiveMinuteTtlHourOldPodExpired(env: Env, pod: Item)
    requires env.parsers.duration("5m") == Some(5 * Minute)
    requires pod.annotations == map[AnnotationTtl := "5m"]
    requires pod.creationTimestamp == env.now - Hour
    ensures Evaluate(pod, env) == Expired("5m", 55 * Minute)
  {
    assert AnnotationRefreshedAt !in pod.annotations;
  }

  /** A pod created an hour ago with TTL "3d" is not expired. */
  lemma ThreeDayTtlHourOldPodNotExpired(env: Env, pod: Item)
    requires env.parsers.duration("3d") == Some(3 * Day)
    requires pod.annotations == map[AnnotationTtl := "3d"]
    requires pod.creationTimestamp == env.now - Hour
    ensures Evaluate(pod, env) == NotExpired("3d", 3 * Day - Hour)
  {
    assert AnnotationRefreshedAt !in pod.annotations;
  }

  /**
    The countdown the source reports for an item that has not expired counts
    from the creation timestamp, although the verdict counts from the start
    time, which a refreshed-at annotation moves.
   */
  function LoggedCountdown(item: Item, ttl: int, now: int): int
  {
    item.creationTimestamp + ttl - now
  }

  /**
    A pod created two hours ago, refreshed a minute ago, with TTL "1h": it is
    not expired and has 59 minutes left, yet the countdown as written is
    negative, one hour past.
   */
  lemma CountdownIgnoresRefresh(env: Env, pod: Item)
    requires env.parsers.duration("1h") == Some(Hour)
    requires pod.annotations == map[AnnotationTtl := "1h", AnnotationRefreshedAt := "2026-01-01T00:00:00Z"]
    requires env.parsers.rfc3339("2026-01-01T00:00:00Z") == Some(env.now - Minute)
    requires pod.creationTimestamp == env.now - 2 * Hour
    ensures Evaluate(pod, env) == NotExpired("1h", 59 * Minute)
    ensures LoggedCountdown(pod, Hour, env.now) == -Hour
  {
    assert pod.annotations[AnnotationTtl] == "1h";
    assert pod.annotations[AnnotationRefreshedAt] == "2026-01-01T00:00:00Z";
  }
}
