/** The per-IP token bucket of ratelimit.go, with times in nanoseconds and reals for the floats. */
module RateLimit {
  type Ip = string

  datatype Bucket = Bucket(tokens: real, lastRefill: int, lastSeen: int)

  /** The state of a limiter; `limit` and `window` never change. */
  datatype Limiter = Limiter(limit: nat, window: nat, buckets: map<Ip, Bucket>, lastGC: int)

  predicate Configured(r: Limiter) {
    r.limit >= 1 && r.window >= 1
  }

  /** Tokens earned in `d` nanoseconds. */
  function Earned(r: Limiter, d: int): real
    requires Configured(r)
  {
    d as real * (r.limit as real / r.window as real)
  }

  function Min(a: real, b: real): real {
    if a > b then b else a
  }

  function Collected(b: map<Ip, Bucket>, now: int, window: nat): map<Ip, Bucket> {
    map ip | ip in b && now - b[ip].lastSeen <= window * 2 :: b[ip]
  }

  /** The state after the garbage collection that may open a call. */
  function Swept(r: Limiter, now: int): Limiter {
    if now - r.lastGC >= r.window / 2 then r.(buckets := Collected(r.buckets, now, r.window), lastGC := now) else r
  }

  function Refilled(r: Limiter, b: Bucket, now: int): real
    requires Configured(r)
  {
    Min(b.tokens + Earned(r, now - b.lastRefill), r.limit as real)
  }

  function Admits(r: Limiter, ip: Ip, now: int): bool
    requires Configured(r)
  {
    var s := Swept(r, now);
    ip !in s.buckets || Refilled(s, s.buckets[ip], now) >= 1.0
  }

  /** The state after one call. The first request of a new bucket is let through without being charged. */
  function After(r: Limiter, ip: Ip, now: int): (r': Limiter)
    requires Configured(r)
    ensures r'.limit == r.limit && r'.window == r.window
  {
    var s := Swept(r, now);
    var tokens := if ip !in s.buckets then s.limit as real
                  else if Admits(r, ip, now) then Refilled(s, s.buckets[ip], now) - 1.0
                  else Refilled(s, s.buckets[ip], now);
    s.(buckets := s.buckets[ip := Bucket(tokens, now, now)])
  }

  // ---- the Go type ----

  class RateLimiter {
    const limit: nat
    const window: nat
    var buckets: map<Ip, Bucket>
    var lastGC: int

    function Value(): Limiter
      reads this
    {
      Limiter(limit, window, buckets, lastGC)
    }

    constructor (l: nat, w: nat, zeroTime: int)
      ensures Value() == Limiter(l, w, map[], zeroTime)
    {
      limit, window, buckets, lastGC := l, w, map[], zeroTime;
    }

    /** Removes the buckets that have been idle for more than two windows. */
    method Gc(now: int)
      modifies this
      ensures Value() == old(Value()).(buckets := Collected(old(buckets), now, window), lastGC := now)
    {
      var todo := buckets.Keys;
      while todo != {}
        invariant todo <= buckets.Keys <= old(buckets).Keys
        invariant forall ip | ip in buckets :: buckets[ip] == old(buckets)[ip]
        invariant forall ip | ip in old(buckets) && ip !in todo ::
          ip in buckets <==> now - old(buckets)[ip].lastSeen <= window * 2
        decreases |todo|
      {
        var ip :| ip in todo;
        if now - buckets[ip].lastSeen > window * 2 {
          buckets := buckets - {ip};
        }
        todo := todo - {ip};
      }
      lastGC := now;
    }

    method Allow(ip: Ip, now: int) returns (ok: bool)
      requires Configured(Value())
      modifies this
      ensures ok == Admits(old(Value()), ip, now)
      ensures Value() == After(old(Value()), ip, now)
    {
      if now - lastGC >= window / 2 {
        Gc(now);
      }
      assert Value() == Swept(old(Value()), now);
      if ip !in buckets {
        buckets := buckets[ip := Bucket(limit as real, now, now)];
        return true;
      }
      var b := buckets[ip];
      var tokens := b.tokens + (now - b.lastRefill) as real * (limit as real / window as real);
      if tokens > limit as real {
        tokens := limit as real;
      }
      if tokens < 1.0 {
        buckets := buckets[ip := Bucket(tokens, now, now)];
        return false;
      }
      buckets := buckets[ip := Bucket(tokens - 1.0, now, now)];
      return true;
    }
  }

  // ---- runs ----

  datatype Request = Request(ip: Ip, time: int)

  /** Requests in the order the mutex lets them in, none before time `from`. */
  predicate InOrder(reqs: seq<Request>, from: int) {
    reqs != [] ==> from <= reqs[0].time && InOrder(reqs[1..], reqs[0].time)
  }

  function Final(r: Limiter, reqs: seq<Request>): (r': Limiter)
    requires Configured(r)
    ensures Configured(r')
    decreases |reqs|
  {
    if reqs == [] then r else Final(After(r, reqs[0].ip, reqs[0].time), reqs[1..])
  }

  /** How many requests of `ip` between `start` and `end` are admitted. */
  function Admitted(r: Limiter, reqs: seq<Request>, ip: Ip, start: int, end: int): (n: nat)
    requires Configured(r)
    decreases |reqs|
  {
    if reqs == [] then 0
    else
      (if reqs[0].ip == ip && start <= reqs[0].time <= end && Admits(r, ip, reqs[0].time) then 1 else 0)
      + Admitted(After(r, reqs[0].ip, reqs[0].time), reqs[1..], ip, start, end)
  }

  /** Every bucket was filled when it was last seen, at or before time c, and holds between 0 and `limit` tokens. */
  predicate Consistent(r: Limiter, c: int) {
    && Configured(r)
    && forall ip | ip in r.buckets ::
         && 0.0 <= r.buckets[ip].tokens <= r.limit as real
         && r.buckets[ip].lastRefill == r.buckets[ip].lastSeen <= c
  }

  lemma EarnedSum(r: Limiter, a: int, b: int)
    requires Configured(r)
    ensures Earned(r, a) + Earned(r, b) == Earned(r, a + b)
  {
    var rate := r.limit as real / r.window as real;
    assert a as real + b as real == (a + b) as real;
    assert a as real * rate + b as real * rate == (a as real + b as real) * rate;
  }

  lemma EarnedPositive(r: Limiter, a: int)
    requires Configured(r) && a >= 0
    ensures Earned(r, a) >= 0.0
  {
    assert r.limit as real / r.window as real >= 0.0;
  }

  lemma EarnedWindow(r: Limiter)
    requires Configured(r)
    ensures Earned(r, r.window) == r.limit as real
  {
  }

  lemma EarnedSame(r: Limiter, s: Limiter, d: int)
    requires Configured(r) && s.limit == r.limit && s.window == r.window
    ensures Earned(s, d) == Earned(r, d)
  {
  }

  lemma AfterConsistent(r: Limiter, ip: Ip, now: int, c: int)
    requires Consistent(r, c) && c <= now
    ensures Consistent(After(r, ip, now), now)
  {
    hide Earned;
    var s := Swept(r, now);
    if ip in s.buckets {
      EarnedPositive(s, now - s.buckets[ip].lastRefill);
    }
  }

  // ---- how many requests get through in an interval ----

  /**
   * The account kept for one IP from time `start` on: `count` requests admitted so far, of which `extra`
   * (0 or 1) may come without charge. A live bucket bounds what can still come; a bucket that was
   * collected has been idle long enough to pay for the uncharged first request of its successor.
   */
  predicate Ledger(r: Limiter, ip: Ip, start: int, c: int, count: nat, extra: nat)
    requires Configured(r)
  {
    if ip in r.buckets then
      var b := r.buckets[ip];
      if b.lastRefill >= start then
        count as real + b.tokens <= r.limit as real + extra as real + Earned(r, b.lastRefill - start)
      else extra == 1 && count == 0
    else
      || (extra == 1 && count == 0)
      || count as real <= Earned(r, c - start) + extra as real - r.limit as real
  }

  /** Collecting a bucket, or letting time pass, keeps the account in order. */
  lemma SweptLedger(r: Limiter, ip: Ip, start: int, c: int, now: int, count: nat, extra: nat)
    requires Consistent(r, c) && c <= now && Ledger(r, ip, start, c, count, extra)
    ensures Ledger(Swept(r, now), ip, start, now, count, extra)
  {
    hide Earned;
    var s := Swept(r, now);
    if ip !in r.buckets {
      EarnedSame(r, s, now - start);
      EarnedSum(r, c - start, now - c);
      EarnedPositive(r, now - c);
    } else if ip in s.buckets {
      EarnedSame(r, s, r.buckets[ip].lastRefill - start);
    } else {
      var u := r.buckets[ip].lastRefill;
      if u >= start {
        EarnedSame(r, s, now - start);
        EarnedWindow(r);
        EarnedSum(r, u - start, r.window);
        EarnedSum(r, u - start + r.window, r.window);
        EarnedSum(r, u - start + r.window + r.window, now - u - 2 * r.window);
        EarnedPositive(r, now - u - 2 * r.window);
        assert u - start + r.window + r.window + (now - u - 2 * r.window) == now - start;
      }
    }
  }

  function Counted(r: Limiter, q: Request, ip: Ip, start: int): nat
    requires Configured(r)
  {
    if q.ip == ip && start <= q.time && Admits(r, ip, q.time) then 1 else 0
  }

  lemma LedgerStep(r: Limiter, q: Request, ip: Ip, start: int, c: int, count: nat, extra: nat)
    requires Consistent(r, c) && c <= q.time && (q.time < start ==> count == 0 && extra == 1)
    requires Ledger(r, ip, start, c, count, extra)
    ensures Ledger(After(r, q.ip, q.time), ip, start, q.time, count + Counted(r, q, ip, start), extra)
  {
    hide Earned;
    var s, r' := Swept(r, q.time), After(r, q.ip, q.time);
    SweptLedger(r, ip, start, c, q.time, count, extra);
    if q.ip != ip {
      SameAccount(s, r', ip, start, q.time, extra);
    } else if q.time >= start {
      EarnedSame(s, r', q.time - start);
      EarnedPositive(s, q.time - start);
      if ip in s.buckets {
        var u := s.buckets[ip].lastRefill;
        EarnedPositive(s, q.time - u);
        EarnedSum(s, u - start, q.time - u);
        assert u - start + (q.time - u) == q.time - start;
      }
    }
  }

  lemma SameAccount(s: Limiter, r': Limiter, ip: Ip, start: int, now: int, extra: nat)
    requires Configured(s) && r'.limit == s.limit && r'.window == s.window
    requires ip in s.buckets <==> ip in r'.buckets
    requires ip in s.buckets ==> s.buckets[ip] == r'.buckets[ip]
    ensures forall count: nat :: Ledger(s, ip, start, now, count, extra) <==> Ledger(r', ip, start, now, count, extra)
  {
    hide Earned;
    EarnedSame(s, r', now - start);
    if ip in s.buckets {
      EarnedSame(s, r', s.buckets[ip].lastRefill - start);
    }
  }

  lemma LedgerTotal(r: Limiter, ip: Ip, start: int, c: int, end: int, count: nat, extra: nat)
    requires Consistent(r, c) && Ledger(r, ip, start, c, count, extra) && start <= end && (c <= end || count == 0)
    ensures count as real <= r.limit as real + extra as real + Earned(r, end - start)
  {
    hide Earned;
    EarnedPositive(r, end - start);
    if count > 0 {
      if ip in r.buckets {
        var u := r.buckets[ip].lastRefill;
        EarnedSum(r, u - start, end - u);
        EarnedPositive(r, end - u);
        assert u - start + (end - u) == end - start;
      } else {
        EarnedSum(r, c - start, end - c);
        EarnedPositive(r, end - c);
        assert c - start + (end - c) == end - start;
      }
    }
  }

  lemma {:induction false} NoneAfter(r: Limiter, reqs: seq<Request>, ip: Ip, start: int, end: int, c: int)
    requires Configured(r) && InOrder(reqs, c) && c > end
    ensures Admitted(r, reqs, ip, start, end) == 0
    decreases |reqs|
  {
    if reqs != [] {
      NoneAfter(After(r, reqs[0].ip, reqs[0].time), reqs[1..], ip, start, end, reqs[0].time);
    }
  }

  lemma {:induction false} LedgerRun(
    r: Limiter, reqs: seq<Request>, ip: Ip, start: int, end: int, c: int, count: nat, extra: nat)
    requires Consistent(r, c) && InOrder(reqs, c) && start <= end && Ledger(r, ip, start, c, count, extra)
    requires (c > end ==> count == 0) && (c < start ==> count == 0 && extra == 1)
    ensures (count + Admitted(r, reqs, ip, start, end)) as real
      <= r.limit as real + extra as real + Earned(r, end - start)
    decreases |reqs|
  {
    hide Earned, Ledger, After, Admits;
    if reqs == [] {
      LedgerTotal(r, ip, start, c, end, count, extra);
    } else if reqs[0].time > end {
      NoneAfter(After(r, reqs[0].ip, reqs[0].time), reqs[1..], ip, start, end, reqs[0].time);
      LedgerTotal(r, ip, start, c, end, count, extra);
    } else {
      var q, r' := reqs[0], After(r, reqs[0].ip, reqs[0].time);
      LedgerStep(r, q, ip, start, c, count, extra);
      AfterConsistent(r, q.ip, q.time, c);
      EarnedSame(r, r', end - start);
      LedgerRun(r', reqs[1..], ip, start, end, q.time, count + Counted(r, q, ip, start), extra);
    }
  }

  /** An IP not heard of before, or in any other state, has nothing on its account yet. */
  lemma EmptyLedger(r: Limiter, ip: Ip, start: int, c: int)
    requires Consistent(r, c)
    ensures Ledger(r, ip, start, c, 0, 1)
  {
    hide Earned;
    if ip in r.buckets && r.buckets[ip].lastRefill >= start {
      EarnedPositive(r, r.buckets[ip].lastRefill - start);
    }
  }

  /**
   * Rate bound: from any consistent state, over any run and across garbage collections, one IP is let
   * through at most limit + 1 + limit * T / window times in an interval of length T.
   */
  lemma RateBound(r: Limiter, reqs: seq<Request>, ip: Ip, start: int, end: int, c: int)
    requires Consistent(r, c) && InOrder(reqs, c) && start <= end
    ensures Admitted(r, reqs, ip, start, end) as real <= r.limit as real + 1.0 + Earned(r, end - start)
  {
    hide Earned, Ledger, Admitted, Consistent, InOrder;
    EmptyLedger(r, ip, start, c);
    LedgerRun(r, reqs, ip, start, end, c, 0, 1);
  }

  // ---- the bound is reached ----

  function Repeated(q: Request, n: nat): (reqs: seq<Request>)
    ensures |reqs| == n
  {
    if n == 0 then [] else [q] + Repeated(q, n - 1)
  }

  /** A bucket just filled at the instant of the requests lets exactly its whole tokens through. */
  lemma {:induction false} BucketDrains(r: Limiter, q: Request, k: nat, n: nat)
    requires Configured(r) && q.ip in r.buckets && r.buckets[q.ip] == Bucket(k as real, q.time, q.time) && k <= r.limit
    ensures Admitted(r, Repeated(q, n), q.ip, q.time, q.time) == if n <= k then n else k
    decreases n
  {
    if n > 0 {
      var reqs := Repeated(q, n);
      assert reqs[0] == q && reqs[1..] == Repeated(q, n - 1);
      NothingEarned(Swept(r, q.time));
      BucketDrains(After(r, q.ip, q.time), q, if k > 0 then k - 1 else 0, n - 1);
    }
  }

  lemma NothingEarned(r: Limiter)
    requires Configured(r)
    ensures Earned(r, 0) == 0.0
  {
  }

  /**
   * The bound is tight: an IP whose bucket is missing, or is collected by this very call, gets limit + 1
   * requests through at one instant and no more, since the request that creates the bucket is not charged.
   */
  lemma FreshBurst(r: Limiter, q: Request, n: nat)
    requires Configured(r) && q.ip !in Swept(r, q.time).buckets && n > r.limit
    ensures Admitted(r, Repeated(q, n), q.ip, q.time, q.time) == r.limit + 1
  {
    hide Earned, After, Admits, Swept;
    var reqs := Repeated(q, n);
    assert reqs[0] == q && reqs[1..] == Repeated(q, n - 1);
    NewBucket(r, q);
    BucketDrains(After(r, q.ip, q.time), q, r.limit, n - 1);
  }

  lemma NewBucket(r: Limiter, q: Request)
    requires Configured(r) && q.ip !in Swept(r, q.time).buckets
    ensures Admits(r, q.ip, q.time)
    ensures var b := After(r, q.ip, q.time).buckets; q.ip in b && b[q.ip] == Bucket(r.limit as real, q.time, q.time)
  {
  }

  // ---- when the documented bound holds ----

  /** What the type's comment promises of a run that begins with q: limit tokens, and what is refilled since. */
  predicate AsDocumented(r: Limiter, q: Request, rest: seq<Request>, end: int)
    requires Configured(r)
  {
    Admitted(r, [q] + rest, q.ip, q.time, end) as real <= r.limit as real + Earned(r, end - q.time)
  }

  lemma FirstCharged(r: Limiter, q: Request, rest: seq<Request>, end: int, c: int)
    requires Consistent(r, c) && c <= q.time <= end && InOrder([q] + rest, c)
    requires q.ip in Swept(r, q.time).buckets
    ensures AsDocumented(r, q, rest, end)
  {
    hide Earned;
    var r' := After(r, q.ip, q.time);
    assert ([q] + rest)[0] == q && ([q] + rest)[1..] == rest;
    NothingEarned(r');
    AfterConsistent(r, q.ip, q.time, c);
    EarnedSame(r, r', end - q.time);
    assert Ledger(r', q.ip, q.time, q.time, Counted(r, q, q.ip, q.time), 0);
    LedgerRun(r', rest, q.ip, q.time, end, q.time, Counted(r, q, q.ip, q.time), 0);
  }

  lemma {:induction false} RepeatedInOrder(q: Request, n: nat)
    ensures InOrder(Repeated(q, n), q.time)
  {
    if n > 0 {
      RepeatedInOrder(q, n - 1);
      assert Repeated(q, n)[1..] == Repeated(q, n - 1);
    }
  }

  /**
   * The documented bound, without the extra one, holds for every run that begins with a request of this IP
   * if and only if that request finds a bucket, that is, exactly when the branch that charges nothing is not taken.
   */
  lemma DocumentedBoundExactlyWhen(r: Limiter, q: Request, c: int)
    requires Consistent(r, c) && c <= q.time
    ensures (forall rest, end | InOrder([q] + rest, c) && q.time <= end :: AsDocumented(r, q, rest, end))
      <==> q.ip in Swept(r, q.time).buckets
  {
    if q.ip in Swept(r, q.time).buckets {
      forall rest, end | InOrder([q] + rest, c) && q.time <= end
        ensures AsDocumented(r, q, rest, end)
      {
        FirstCharged(r, q, rest, end, c);
      }
    } else {
      var rest := Repeated(q, r.limit);
      assert [q] + rest == Repeated(q, r.limit + 1);
      FreshBurst(r, q, r.limit + 1);
      RepeatedInOrder(q, r.limit + 1);
      FirstLater([q] + rest, q.time, c);
      NothingEarned(r);
      assert !AsDocumented(r, q, rest, q.time);
    }
  }

  lemma FirstLater(reqs: seq<Request>, from: int, c: int)
    requires InOrder(reqs, from) && c <= from
    ensures InOrder(reqs, c)
  {
  }

  // ---- a client that keeps its distance is never refused ----

  /**
   * Consecutive requests of `ip` are at least window / limit apart, counting from an earlier one if
   * there is a bucket.
   */
  predicate Spaced(r: Limiter, reqs: seq<Request>, ip: Ip)
    requires Configured(r)
    decreases |reqs|
  {
    reqs != [] ==>
      && (reqs[0].ip == ip && ip in r.buckets ==> (reqs[0].time - r.buckets[ip].lastRefill) * r.limit >= r.window)
      && Spaced(After(r, reqs[0].ip, reqs[0].time), reqs[1..], ip)
  }

  predicate AllAdmitted(r: Limiter, reqs: seq<Request>, ip: Ip)
    requires Configured(r)
    decreases |reqs|
  {
    reqs != [] ==>
      && (reqs[0].ip == ip ==> Admits(r, ip, reqs[0].time))
      && AllAdmitted(After(r, reqs[0].ip, reqs[0].time), reqs[1..], ip)
  }

  lemma OneTokenEarned(r: Limiter, d: int)
    requires Configured(r) && d * r.limit >= r.window
    ensures Earned(r, d) >= 1.0
  {
    var l, w := r.limit as real, r.window as real;
    assert (d * r.limit) as real == d as real * l;
    assert d as real * (l / w) == (d as real * l) / w;
    RatioAtLeastOne(d as real * l, w);
  }

  lemma RatioAtLeastOne(a: real, b: real)
    requires a >= b > 0.0
    ensures a / b >= 1.0
  {
  }

  lemma {:induction false} NeverRefused(r: Limiter, reqs: seq<Request>, ip: Ip, c: int)
    requires Consistent(r, c) && InOrder(reqs, c) && Spaced(r, reqs, ip)
    ensures AllAdmitted(r, reqs, ip)
    decreases |reqs|
  {
    hide Earned;
    if reqs != [] {
      var q := reqs[0];
      if q.ip == ip && ip in Swept(r, q.time).buckets {
        OneTokenEarned(r, q.time - r.buckets[ip].lastRefill);
        EarnedSame(r, Swept(r, q.time), q.time - r.buckets[ip].lastRefill);
      }
      AfterConsistent(r, q.ip, q.time, c);
      NeverRefused(After(r, q.ip, q.time), reqs[1..], ip, q.time);
    }
  }

  // ---- a request is refused only when the budget has been used up ----

  /** Requests in order, none before `from` and none after `to`. */
  predicate Within(reqs: seq<Request>, from: int, to: int) {
    InOrder(reqs, from) && forall k | 0 <= k < |reqs| :: reqs[k].time <= to
  }

  /** What one more request adds to the count. */
  function Counts(r: Limiter, q: Request, ip: Ip, start: int, end: int): nat
    requires Configured(r)
  {
    if q.ip == ip && start <= q.time <= end && Admits(r, ip, q.time) then 1 else 0
  }

  lemma {:induction false} FinalAppend(r: Limiter, reqs: seq<Request>, q: Request)
    requires Configured(r)
    ensures Final(r, reqs + [q]) == After(Final(r, reqs), q.ip, q.time)
    ensures forall ip, start, end ::
      Admitted(r, reqs + [q], ip, start, end)
        == Admitted(r, reqs, ip, start, end) + Counts(Final(r, reqs), q, ip, start, end)
    decreases |reqs|
  {
    hide Admits, After;
    var all := reqs + [q];
    if reqs == [] {
      assert all[0] == q && all[1..] == [];
    } else {
      assert all[0] == reqs[0] && all[1..] == reqs[1..] + [q];
      FinalAppend(After(r, reqs[0].ip, reqs[0].time), reqs[1..], q);
    }
  }

  lemma {:induction false} FinalConsistent(r: Limiter, reqs: seq<Request>, c: int, to: int)
    requires Consistent(r, c) && Within(reqs, c, to) && c <= to
    ensures Consistent(Final(r, reqs), to) && Final(r, reqs).limit == r.limit && Final(r, reqs).window == r.window
    decreases |reqs|
  {
    hide After;
    if reqs == [] {
      LaterConsistent(r, c, to);
    } else {
      AfterConsistent(r, reqs[0].ip, reqs[0].time, c);
      FinalConsistent(After(r, reqs[0].ip, reqs[0].time), reqs[1..], reqs[0].time, to);
    }
  }

  lemma LaterConsistent(r: Limiter, c: int, to: int)
    requires Consistent(r, c) && c <= to
    ensures Consistent(r, to)
  {
  }

  /** With the requests admitted since `start`, the tokens left account for a full bucket and all that was earned. */
  predicate Spent(r: Limiter, b: Bucket, start: int, count: nat)
    requires Configured(r)
  {
    start <= b.lastRefill && count as real + b.tokens >= r.limit as real + Earned(r, b.lastRefill - start)
  }

  lemma SpentStep(r: Limiter, ip: Ip, now: int, start: int, count: nat)
    requires Consistent(r, now) && ip in Swept(r, now).buckets && Spent(r, r.buckets[ip], start, count)
    ensures var b := After(r, ip, now).buckets[ip];
      || (Admits(r, ip, now) && b == Bucket(r.limit as real - 1.0, now, now))
      || Spent(r, b, start, count + if Admits(r, ip, now) then 1 else 0)
  {
    hide Earned;
    var b := r.buckets[ip];
    EarnedSame(r, Swept(r, now), now - b.lastRefill);
    EarnedSum(r, b.lastRefill - start, now - b.lastRefill);
    assert b.lastRefill - start + (now - b.lastRefill) == now - start;
  }

  /** Since some moment the bucket has not been full, and each token gone was given to a request. */
  lemma {:induction false} SpentRun(r: Limiter, reqs: seq<Request>, ip: Ip, c: int, to: int) returns (start: int)
    requires Consistent(r, c) && c <= to && Within(reqs, c, to) && ip !in r.buckets
    ensures ip in Final(r, reqs).buckets ==>
      Spent(r, Final(r, reqs).buckets[ip], start, Admitted(r, reqs, ip, start, to))
    decreases |reqs|
  {
    hide Earned, After, Admits, Spent, Swept;
    start := c;
    if reqs != [] {
      var init, q := reqs[..|reqs| - 1], reqs[|reqs| - 1];
      assert reqs == init + [q];
      InOrderInit(init, q, c);
      var before := Final(r, init);
      var earlier := SpentRun(r, init, ip, c, q.time);
      FinalConsistent(r, init, c, q.time);
      FinalAppend(r, init, q);
      SameUntil(r, init, ip, earlier, q.time, to);
      start := SpentNext(r, before, init, q, ip, earlier, to);
    }
  }

  lemma {:induction false} InOrderInit(init: seq<Request>, q: Request, c: int)
    requires InOrder(init + [q], c)
    ensures Within(init, c, q.time) && c <= q.time
    decreases |init|
  {
    var all := init + [q];
    if init != [] {
      assert all[0] == init[0] && all[1..] == init[1..] + [q];
      InOrderInit(init[1..], q, init[0].time);
      forall k | 0 <= k < |init|
        ensures init[k].time <= q.time
      {
        if k > 0 {
          assert init[k] == init[1..][k - 1];
        }
      }
    }
  }

  /** Counting past the last request finds no more. */
  lemma {:induction false} SameUntil(r: Limiter, reqs: seq<Request>, ip: Ip, start: int, to: int, later: int)
    requires Configured(r) && (forall k | 0 <= k < |reqs| :: reqs[k].time <= to) && to <= later
    ensures Admitted(r, reqs, ip, start, to) == Admitted(r, reqs, ip, start, later)
    decreases |reqs|
  {
    hide Admits, After;
    if reqs != [] {
      assert reqs[0].time <= to;
      SameUntil(After(r, reqs[0].ip, reqs[0].time), reqs[1..], ip, start, to, later);
    }
  }

  lemma SpentNext(r: Limiter, before: Limiter, init: seq<Request>, q: Request, ip: Ip, earlier: int, to: int)
    returns (start: int)
    requires Configured(r) && before == Final(r, init) && Consistent(before, q.time) && q.time <= to
    requires before.limit == r.limit && before.window == r.window
    requires ip in before.buckets ==> Spent(r, before.buckets[ip], earlier, Admitted(r, init, ip, earlier, to))
    requires Final(r, init + [q]) == After(before, q.ip, q.time)
    requires forall i, s, e ::
      Admitted(r, init + [q], i, s, e) == Admitted(r, init, i, s, e) + Counts(before, q, i, s, e)
    ensures ip in Final(r, init + [q]).buckets ==>
      Spent(r, Final(r, init + [q]).buckets[ip], start, Admitted(r, init + [q], ip, start, to))
  {
    hide Earned, Admitted, Final;
    start := earlier;
    NothingEarned(r);
    if q.ip == ip {
      if ip !in Swept(before, q.time).buckets {
        start := q.time;
        NewBucket(before, q);
      } else {
        var count := Admitted(r, init, ip, earlier, to);
        SpentSame(r, before, before.buckets[ip], earlier, count);
        SpentStep(before, ip, q.time, earlier, count);
        var b := After(before, ip, q.time).buckets[ip];
        if Admits(before, ip, q.time) && b == Bucket(r.limit as real - 1.0, q.time, q.time) {
          start := q.time;
        } else {
          SpentSame(r, before, b, earlier, count + if Admits(before, ip, q.time) then 1 else 0);
        }
      }
    }
  }

  lemma SpentSame(r: Limiter, s: Limiter, b: Bucket, start: int, count: nat)
    requires Configured(r) && s.limit == r.limit && s.window == r.window
    ensures Spent(r, b, start, count) <==> Spent(s, b, start, count)
  {
    EarnedSame(r, s, b.lastRefill - start);
  }

  /**
   * On any run in which an IP starts without a bucket, a request of it is refused only if since some moment all of
   * the limit but less than one token, and all that was refilled since, went to admitted requests of that IP.
   */
  lemma RefusedOnlyWhenSpent(r: Limiter, reqs: seq<Request>, q: Request, c: int)
    requires Consistent(r, c) && InOrder(reqs + [q], c) && q.ip !in r.buckets
    requires !Admits(Final(r, reqs), q.ip, q.time)
    ensures exists start ::
      && start <= q.time
      && Admitted(r, reqs, q.ip, start, q.time) as real > r.limit as real - 1.0 + Earned(r, q.time - start)
  {
    InOrderInit(reqs, q, c);
    var start := SpentRun(r, reqs, q.ip, c, q.time);
    FinalConsistent(r, reqs, c, q.time);
    var s := Final(r, reqs);
    hide Earned, Final, Admitted;
    var u := s.buckets[q.ip].lastRefill;
    EarnedSame(r, Swept(s, q.time), q.time - u);
    EarnedSum(r, u - start, q.time - u);
    assert u - start + (q.time - u) == q.time - start;
    assert start <= q.time && Admitted(r, reqs, q.ip, start, q.time) as real
      > r.limit as real - 1.0 + Earned(r, q.time - start);
  }

  // ---- the map holds only recently seen addresses ----

  /** No bucket has been idle for more than two windows at the last collection. */
  predicate Tidy(r: Limiter, c: int) {
    r.lastGC <= c && forall ip | ip in r.buckets :: r.lastGC - r.buckets[ip].lastSeen <= 2 * r.window
  }

  lemma AfterTidy(r: Limiter, ip: Ip, now: int, c: int)
    requires Configured(r) && Tidy(r, c) && c <= now
    ensures var r' := After(r, ip, now);
      Tidy(r', now) && forall i | i in r'.buckets :: 2 * (now - r'.buckets[i].lastSeen) <= 5 * r.window
  {
    hide Earned, Refilled;
  }

  lemma {:induction false} RecentlySeen(r: Limiter, reqs: seq<Request>, c: int)
    requires Configured(r) && Tidy(r, c) && InOrder(reqs, c) && reqs != []
    ensures var r', now := Final(r, reqs), reqs[|reqs| - 1].time;
      forall i | i in r'.buckets :: 2 * (now - r'.buckets[i].lastSeen) <= 5 * r.window
    decreases |reqs|
  {
    hide After, Tidy;
    var q, rest := reqs[0], reqs[1..];
    AfterTidy(r, q.ip, q.time, c);
    assert Final(r, reqs) == Final(After(r, q.ip, q.time), rest);
    if rest != [] {
      RecentlySeen(After(r, q.ip, q.time), rest, q.time);
    }
  }

  /** A new limiter meets the conditions of the three theorems above. */
  lemma NewLimiter(limit: nat, window: nat, zeroTime: int)
    requires limit >= 1 && window >= 1
    ensures var r := Limiter(limit, window, map[], zeroTime); Consistent(r, zeroTime) && Tidy(r, zeroTime)
  {
  }

  /**
   * A call leaves the buckets of other addresses alone, except that it forgets exactly those idle for more than two
   * windows, and only when half a window has passed since the last collection.
   */
  lemma ForgottenExactlyWhen(r: Limiter, ip: Ip, now: int, other: Ip)
    requires Configured(r) && other != ip && other in r.buckets
    ensures var left := After(r, ip, now).buckets;
      if now - r.lastGC >= r.window / 2 && now - r.buckets[other].lastSeen > 2 * r.window then other !in left
      else other in left && left[other] == r.buckets[other]
  {
    hide Earned, Refilled;
  }
}
