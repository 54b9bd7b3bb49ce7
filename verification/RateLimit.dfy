/** The per-address rate limiter of the authentication endpoints. Time is in milliseconds. */
module RateLimit {

  const AUTH_RATE_LIMIT: nat := 10
  const AUTH_RATE_WINDOW: nat := 60_000
  const CLEANUP_THRESHOLD: nat := 10_000

  datatype Bucket = Bucket(count: nat, windowStart: nat)

  type Buckets = map<string, Bucket>

  predicate Stale(b: Bucket, now: nat)
    requires b.windowStart <= now
  {
    now - b.windowStart >= AUTH_RATE_WINDOW
  }

  /** Windows never start in the future: the clock is monotone. */
  ghost predicate Past(bs: Buckets, now: nat) {
    forall ip <- bs :: bs[ip].windowStart <= now
  }

  function Evict(bs: Buckets, now: nat): Buckets
    requires Past(bs, now)
  {
    map ip | ip in bs && !Stale(bs[ip], now) :: bs[ip]
  }

  /** The window in force for an address at time `now`, before the request is counted. */
  function Current(bs: Buckets, ip: string, now: nat): Bucket
    requires Past(bs, now)
  {
    if ip in bs && !Stale(bs[ip], now) then bs[ip] else Bucket(0, now)
  }

  function Counted(b: Bucket): Bucket {
    if b.count >= AUTH_RATE_LIMIT then b else b.(count := b.count + 1)
  }

  /** One request without any eviction. */
  function Plain(bs: Buckets, ip: string, now: nat): (Buckets, bool)
    requires Past(bs, now)
  {
    var b := Current(bs, ip, now);
    (bs[ip := Counted(b)], b.count < AUTH_RATE_LIMIT)
  }

  /** One request as the server handles it: stale entries go first when there are too many. */
  function Check(bs: Buckets, ip: string, now: nat): (Buckets, bool)
    requires Past(bs, now)
  {
    Plain(if |bs| > CLEANUP_THRESHOLD then Evict(bs, now) else bs, ip, now)
  }

  /** The window of an address began less than 60 seconds ago. */
  predicate Open(bs: Buckets, ip: string, now: nat) {
    ip in bs && now < bs[ip].windowStart + 60_000
  }

  /** The request passes unless its window is open with 10 requests in it. */
  ghost predicate Answered(before: Buckets, after: Buckets, ip: string, now: nat, allowed: bool) {
    && (allowed <==> !(Open(before, ip, now) && before[ip].count >= 10))
    && ip in after && after[ip] ==
      if !Open(before, ip, now) then Bucket(1, now)
      else if allowed then Bucket(before[ip].count + 1, before[ip].windowStart)
      else before[ip]
  }

  /** Other addresses are left alone, but with more than 10,000 entries the expired ones go. */
  ghost predicate OthersKept(before: Buckets, after: Buckets, ip: string, now: nat) {
    forall q :: q != ip ==>
      && (q in after <==> q in before && (|before| > 10_000 ==> Open(before, q, now)))
      && (q in after ==> after[q] == before[q])
  }

  lemma CheckMeans(bs: Buckets, ip: string, now: nat)
    requires Past(bs, now)
    ensures Answered(bs, Check(bs, ip, now).0, ip, now, Check(bs, ip, now).1)
    ensures OthersKept(bs, Check(bs, ip, now).0, ip, now) && Past(Check(bs, ip, now).0, now)
  {
  }

  lemma LastUpdateCounts(bs: Buckets, ip: string, first: Bucket, second: Bucket)
    ensures bs[ip := first][ip := second] == bs[ip := second]
  {
  }

  /** `check_auth_rate_limit`: one call under the write lock. */
  class Limiter {
    var buckets: Buckets

    constructor ()
      ensures buckets == map[]
    {
      buckets := map[];
    }

    method CheckAuthRateLimit(ip: string, now: nat) returns (allowed: bool)
      requires Past(buckets, now)
      modifies this
      ensures (buckets, allowed) == Check(old(buckets), ip, now)
      ensures Answered(old(buckets), buckets, ip, now, allowed) && OthersKept(old(buckets), buckets, ip, now)
      ensures Past(buckets, now)
    {
      CheckMeans(buckets, ip, now);
      hide Answered, OthersKept;
      if |buckets| > CLEANUP_THRESHOLD {
        buckets := map key | key in buckets && !Stale(buckets[key], now) :: buckets[key];
        assert buckets == Evict(old(buckets), now);
      }
      ghost var kept := buckets;
      hide Evict;
      if ip !in buckets {
        buckets := buckets[ip := Bucket(0, now)];
      }
      var bucket := buckets[ip];
      if Stale(bucket, now) {
        bucket := Bucket(0, now);
        buckets := buckets[ip := bucket];
      }
      assert bucket == Current(kept, ip, now) && buckets == kept[ip := bucket];
      hide Past, Current, Stale;
      if bucket.count >= AUTH_RATE_LIMIT {
        return false;
      }
      LastUpdateCounts(kept, ip, bucket, Counted(bucket));
      buckets := buckets[ip := bucket.(count := bucket.count + 1)];
      allowed := true;
    }
  }

  // ---------------------------------------------------------------- runs

  datatype Request = Request(ip: string, now: nat)

  /** The clock never goes back. */
  ghost predicate Monotone(rs: seq<Request>) {
    forall i, j :: 0 <= i <= j < |rs| ==> rs[i].now <= rs[j].now
  }

  ghost function LastTime(rs: seq<Request>): nat {
    if rs == [] then 0 else rs[|rs| - 1].now
  }

  /** Buckets after a run, and the answer to each request. */
  ghost function Run(rs: seq<Request>, evicting: bool): (r: (Buckets, seq<bool>))
    requires Monotone(rs)
    ensures |r.1| == |rs| && Past(r.0, LastTime(rs))
    decreases |rs|
  {
    if rs == [] then (map[], [])
    else
      var req := rs[|rs| - 1];
      var (bs, answers) := Run(rs[..|rs| - 1], evicting);
      var (after, allowed) := if evicting then Check(bs, req.ip, req.now) else Plain(bs, req.ip, req.now);
      (after, answers + [allowed])
  }

  // ---------------------------------------------------------------- eviction is not observable

  /** Every address finds the same window, now and at any later time. */
  ghost predicate SameWindows(left: Buckets, right: Buckets, now: nat) {
    && Past(left, now) && Past(right, now)
    && forall ip, t :: t >= now ==> Current(left, ip, t) == Current(right, ip, t)
  }

  lemma EvictionKeepsWindows(bs: Buckets, now: nat)
    requires Past(bs, now)
    ensures SameWindows(Evict(bs, now), bs, now)
  {
  }

  lemma PlainKeepsSameWindows(left: Buckets, right: Buckets, since: nat, ip: string, now: nat)
    requires SameWindows(left, right, since) && since <= now
    ensures Plain(left, ip, now).1 == Plain(right, ip, now).1
    ensures SameWindows(Plain(left, ip, now).0, Plain(right, ip, now).0, now)
  {
    assert Current(left, ip, now) == Current(right, ip, now);
    var left', right' := Plain(left, ip, now).0, Plain(right, ip, now).0;
    forall q, t | t >= now
      ensures Current(left', q, t) == Current(right', q, t)
    {
      assert Current(left, q, t) == Current(right, q, t);
    }
  }

  lemma CheckKeepsSameWindows(left: Buckets, right: Buckets, since: nat, ip: string, now: nat)
    requires SameWindows(left, right, since) && since <= now
    ensures Check(left, ip, now).1 == Plain(right, ip, now).1
    ensures SameWindows(Check(left, ip, now).0, Plain(right, ip, now).0, now)
  {
    hide Current, Plain;
    if |left| > CLEANUP_THRESHOLD {
      EvictionKeepsWindows(left, now);
      assert forall q, t :: t >= now ==> Current(Evict(left, now), q, t) == Current(right, q, t);
      PlainKeepsSameWindows(Evict(left, now), right, now, ip, now);
    } else {
      PlainKeepsSameWindows(left, right, since, ip, now);
    }
  }

  /** In every run the evicting limiter gives exactly the answers of one that never evicts. */
  lemma {:induction false} EvictionIsInvisible(rs: seq<Request>)
    requires Monotone(rs)
    ensures Run(rs, true).1 == Run(rs, false).1
    ensures SameWindows(Run(rs, true).0, Run(rs, false).0, LastTime(rs))
    decreases |rs|
  {
    hide Check, Plain, SameWindows;
    if rs == [] {
      NoWindows();
    } else {
      var req, front := rs[|rs| - 1], rs[..|rs| - 1];
      EvictionIsInvisible(front);
      CheckKeepsSameWindows(Run(front, true).0, Run(front, false).0, LastTime(front), req.ip, req.now);
    }
  }

  lemma NoWindows()
    ensures SameWindows(map[], map[], 0)
  {
  }

  // ---------------------------------------------------------------- how much is let through

  /** Requests of one address allowed at times in [from, until). */
  ghost function Allowed(rs: seq<Request>, answers: seq<bool>, ip: string, from: int, until: int): nat
    requires |rs| == |answers|
    decreases |rs|
  {
    if rs == [] then 0
    else
      var last := rs[|rs| - 1];
      Allowed(rs[..|rs| - 1], answers[..|rs| - 1], ip, from, until)
        + if answers[|rs| - 1] && last.ip == ip && from <= last.now < until then 1 else 0
  }

  lemma {:induction false} AllowedSplits(rs: seq<Request>, answers: seq<bool>, ip: string, from: int, mid: int,
                                         until: int)
    requires |rs| == |answers| && from <= mid <= until
    ensures Allowed(rs, answers, ip, from, until)
      == Allowed(rs, answers, ip, from, mid) + Allowed(rs, answers, ip, mid, until)
    decreases |rs|
  {
    if rs != [] {
      AllowedSplits(rs[..|rs| - 1], answers[..|rs| - 1], ip, from, mid, until);
    }
  }

  ghost function InWindow(rs: seq<Request>, answers: seq<bool>, ip: string, from: int): nat
    requires |rs| == |answers|
  {
    Allowed(rs, answers, ip, from, from + AUTH_RATE_WINDOW)
  }

  ghost function SinceAfter(rs: seq<Request>, answers: seq<bool>, ip: string, start: int, delay: nat, until: int): nat
    requires |rs| == |answers|
  {
    Allowed(rs, answers, ip, start + delay, until)
  }

  const MOST_PER_WINDOW: nat := 2 * AUTH_RATE_LIMIT - 1

  /** What the bucket of an address says about the past: its count bounds what was let through
      since the window began, one of which was let through right at the beginning; all of it
      lies inside the window; and the stretch before it is bounded too. */
  ghost predicate Accounted(rs: seq<Request>, answers: seq<bool>, bs: Buckets, ip: string)
    requires |rs| == |answers|
  {
    if ip !in bs then forall from: int, until: int :: Allowed(rs, answers, ip, from, until) == 0
    else
      var Bucket(count, start) := bs[ip];
      && 1 <= count <= AUTH_RATE_LIMIT
      && (forall until: int :: Allowed(rs, answers, ip, start, until) <= count)
      && (forall until: int :: SinceAfter(rs, answers, ip, start, 1, until) <= count - 1)
      && (forall until: int :: SinceAfter(rs, answers, ip, start, AUTH_RATE_WINDOW, until) == 0)
      && (forall from: int :: from > start - AUTH_RATE_WINDOW ==>
        Allowed(rs, answers, ip, from, start) <= AUTH_RATE_LIMIT - 1)
      && (forall from: int :: InWindow(rs, answers, ip, from) <= MOST_PER_WINDOW)
  }

  lemma {:induction false} NarrowerIsLess(rs: seq<Request>, answers: seq<bool>, ip: string, from: int, from': int,
                                          until: int)
    requires |rs| == |answers| && from <= from'
    ensures Allowed(rs, answers, ip, from', until) <= Allowed(rs, answers, ip, from, until)
    decreases |rs|
  {
    if rs != [] {
      NarrowerIsLess(rs[..|rs| - 1], answers[..|rs| - 1], ip, from, from', until);
    }
  }

  lemma OneMore(rs: seq<Request>, answers: seq<bool>, req: Request, ok: bool, ip: string, from: int, until: int)
    requires |rs| == |answers|
    ensures Allowed(rs + [req], answers + [ok], ip, from, until)
         == Allowed(rs, answers, ip, from, until) + if ok && req.ip == ip && from <= req.now < until then 1 else 0
  {
    assert (rs + [req])[..|rs|] == rs && (answers + [ok])[..|rs|] == answers;
  }

  /** A request that is let through in the window in force. */
  lemma CountedInWindow(rs: seq<Request>, answers: seq<bool>, bs: Buckets, ip: string, now: nat)
    requires |rs| == |answers| && Accounted(rs, answers, bs, ip) && Past(bs, now)
    requires ip in bs && !Stale(bs[ip], now) && bs[ip].count < AUTH_RATE_LIMIT
    ensures Accounted(rs + [Request(ip, now)], answers + [true], bs[ip := Counted(bs[ip])], ip)
  {
    hide Allowed;
    var Bucket(count, start) := bs[ip];
    var rs', answers' := rs + [Request(ip, now)], answers + [true];
    forall from: int, until: int
      ensures Allowed(rs', answers', ip, from, until)
        == Allowed(rs, answers, ip, from, until) + if from <= now < until then 1 else 0
    {
      OneMore(rs, answers, Request(ip, now), true, ip, from, until);
    }
    forall delay: nat, until: int
      ensures SinceAfter(rs', answers', ip, start, delay, until)
           == SinceAfter(rs, answers, ip, start, delay, until) + if start + delay <= now < until then 1 else 0
    {
    }
    forall from: int
      ensures InWindow(rs', answers', ip, from) <= MOST_PER_WINDOW
    {
      var until := from + AUTH_RATE_WINDOW;
      assert InWindow(rs, answers, ip, from) <= MOST_PER_WINDOW;
      if from <= now < until {
        if from >= start {
          NarrowerIsLess(rs, answers, ip, start, from, until);
        } else {
          AllowedSplits(rs, answers, ip, from, start, until);
        }
      }
    }
  }

  /** A request that opens a window, the first one or after the last has run out. */
  lemma CountedInNewWindow(rs: seq<Request>, answers: seq<bool>, bs: Buckets, ip: string, now: nat)
    requires |rs| == |answers| && Accounted(rs, answers, bs, ip) && Past(bs, now)
    requires ip in bs ==> Stale(bs[ip], now)
    requires Monotone(rs) && LastTime(rs) <= now
    ensures Accounted(rs + [Request(ip, now)], answers + [true], bs[ip := Bucket(1, now)], ip)
  {
    hide Allowed;
    var rs', answers' := rs + [Request(ip, now)], answers + [true];
    forall from: int, until: int
      ensures Allowed(rs', answers', ip, from, until)
        == Allowed(rs, answers, ip, from, until) + if from <= now < until then 1 else 0
    {
      OneMore(rs, answers, Request(ip, now), true, ip, from, until);
    }
    forall from: int, until: int | from >= now
      ensures Allowed(rs, answers, ip, from, until) == 0
    {
      if ip in bs {
        assert SinceAfter(rs, answers, ip, bs[ip].windowStart, AUTH_RATE_WINDOW, until) == 0;
        NarrowerIsLess(rs, answers, ip, bs[ip].windowStart + AUTH_RATE_WINDOW, from, until);
      }
    }
    forall from: int, until: int | from > now - AUTH_RATE_WINDOW
      ensures Allowed(rs, answers, ip, from, until) <= AUTH_RATE_LIMIT - 1
    {
      if ip in bs {
        assert SinceAfter(rs, answers, ip, bs[ip].windowStart, 1, until) <= bs[ip].count - 1;
        NarrowerIsLess(rs, answers, ip, bs[ip].windowStart + 1, from, until);
      }
    }
    forall from: int
      ensures InWindow(rs', answers', ip, from) <= MOST_PER_WINDOW
    {
      assert ip in bs ==> InWindow(rs, answers, ip, from) <= MOST_PER_WINDOW;
    }
  }

  /** A request that is refused, or of another address, changes nothing. */
  lemma NotCounted(rs: seq<Request>, answers: seq<bool>, bs: Buckets, bs': Buckets, ip: string, req: Request, ok: bool)
    requires |rs| == |answers| && Accounted(rs, answers, bs, ip)
    requires ok ==> req.ip != ip
    requires if ip in bs then ip in bs' && bs'[ip] == bs[ip] else ip !in bs'
    ensures Accounted(rs + [req], answers + [ok], bs', ip)
  {
    hide Allowed;
    var rs', answers' := rs + [req], answers + [ok];
    forall from: int, until: int
      ensures Allowed(rs', answers', ip, from, until) == Allowed(rs, answers, ip, from, until)
    {
      OneMore(rs, answers, req, ok, ip, from, until);
    }
    forall start: int, delay: nat, until: int
      ensures SinceAfter(rs', answers', ip, start, delay, until) == SinceAfter(rs, answers, ip, start, delay, until)
    {
    }
    forall from: int
      ensures InWindow(rs', answers', ip, from) == InWindow(rs, answers, ip, from)
    {
    }
  }

  lemma {:induction false} RunIsAccounted(rs: seq<Request>, ip: string)
    requires Monotone(rs)
    ensures Accounted(rs, Run(rs, false).1, Run(rs, false).0, ip)
    decreases |rs|
  {
    hide Accounted;
    if rs == [] {
      NothingAccounted(ip);
    } else {
      var req, front := rs[|rs| - 1], rs[..|rs| - 1];
      RunIsAccounted(front, ip);
      var (bs, answers) := Run(front, false);
      var (bs', ok) := Plain(bs, req.ip, req.now);
      assert rs == front + [req];
      if req.ip != ip || !ok {
        if req.ip == ip { assert bs'[ip] == bs[ip]; }
        NotCounted(front, answers, bs, bs', ip, req, ok);
      } else if ip in bs && !Stale(bs[ip], req.now) {
        CountedInWindow(front, answers, bs, ip, req.now);
      } else {
        CountedInNewWindow(front, answers, bs, ip, req.now);
      }
    }
  }

  lemma NothingAccounted(ip: string)
    ensures Accounted([], [], map[], ip)
  {
  }

  /** Over any run, no half-open interval of one window length, a minute, lets more than 19 requests of an
      address through. */
  lemma AtMostNineteen(rs: seq<Request>, ip: string, from: int)
    requires Monotone(rs)
    ensures Allowed(rs, Run(rs, true).1, ip, from, from + 60_000) <= 19
  {
    EvictionIsInvisible(rs);
    RunIsAccounted(rs, ip);
    var answers := Run(rs, false).1;
    assert InWindow(rs, answers, ip, from) == Allowed(rs, answers, ip, from, from + AUTH_RATE_WINDOW);
    if ip !in Run(rs, false).0 {
      assert Allowed(rs, answers, ip, from, from + AUTH_RATE_WINDOW) == 0;
    }
  }

  // ---------------------------------------------------------------- the bound is reached

  /** One request opens a window, nine more come just before it closes, ten just after. */
  function BurstTime(k: nat): nat {
    if k == 0 then 0 else if k < 10 then AUTH_RATE_WINDOW - 1 else AUTH_RATE_WINDOW
  }

  ghost function Burst(ip: string, n: nat): (rs: seq<Request>)
    ensures |rs| == n && Monotone(rs)
    ensures n > 0 ==> rs[..n - 1] == Burst(ip, n - 1) && rs[n - 1] == Request(ip, BurstTime(n - 1))
  {
    seq(n, k requires 0 <= k => Request(ip, BurstTime(k)))
  }

  function BurstBucket(n: nat): Bucket {
    if n <= 10 then Bucket(n, 0) else Bucket(n - 10, AUTH_RATE_WINDOW)
  }

  lemma BurstStep(ip: string, n: nat)
    requires 1 < n <= 20
    ensures var bs := map[ip := BurstBucket(n - 1)];
      Past(bs, BurstTime(n - 1)) && Check(bs, ip, BurstTime(n - 1)) == (map[ip := BurstBucket(n)], true)
  {
    var bs := map[ip := BurstBucket(n - 1)];
    assert |bs| == 1;
    assert bs[ip := BurstBucket(n)] == map[ip := BurstBucket(n)];
  }

  lemma {:induction false} BurstIsAllowed(ip: string, n: nat)
    requires 0 < n <= 20
    ensures Run(Burst(ip, n), true).0 == map[ip := BurstBucket(n)]
    ensures var answers := Run(Burst(ip, n), true).1;
      Allowed(Burst(ip, n), answers, ip, AUTH_RATE_WINDOW - 1, 2 * AUTH_RATE_WINDOW - 1) == n - 1
    decreases n
  {
    var rs := Burst(ip, n - 1);
    var req := Request(ip, BurstTime(n - 1));
    assert Burst(ip, n) == rs + [req];
    if n > 1 {
      BurstIsAllowed(ip, n - 1);
      BurstStep(ip, n);
    } else {
      var none: Buckets := map[];
      assert |none| == 0 && Check(none, ip, 0) == (none[ip := Bucket(1, 0)], true);
      assert none[ip := Bucket(1, 0)] == map[ip := Bucket(1, 0)];
    }
    hide Check, BurstBucket;
    OneMore(rs, Run(rs, true).1, req, true, ip, AUTH_RATE_WINDOW - 1, 2 * AUTH_RATE_WINDOW - 1);
  }

  /** So the bound is exact: nineteen requests within less than one window length do get through. */
  lemma NineteenIsReached(ip: string) returns (rs: seq<Request>, from: nat)
    ensures Monotone(rs)
    ensures Allowed(rs, Run(rs, true).1, ip, from, from + 60_000) == 19
  {
    rs, from := Burst(ip, 20), AUTH_RATE_WINDOW - 1;
    BurstIsAllowed(ip, 20);
  }
}
