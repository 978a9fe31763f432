/** The enrollment rate limiter (workload/ratelimit.go), in exact arithmetic. Times are in seconds. */
module RateLimit {
  import opened Common

  // ---------------------------------------------------------------- buckets

  datatype Bucket = Bucket(tokens: real, last: Option<real>)

  const EMPTY_BUCKET := Bucket(0.0, None)

  /** The tokens that flow in over a time. */
  function Flow(rate: real, time: real): real {
    time * rate
  }

  /** The bucket topped up to `now`; an unused one starts full. */
  function Refill(b: Bucket, now: real, rate: real, burst: real): Bucket {
    if b.last.None? then Bucket(burst, Some(now))
    else if now > b.last.value then
      var t := b.tokens + Flow(rate, now - b.last.value);
      Bucket(if t < burst then t else burst, Some(now))
    else b
  }

  function Spend(b: Bucket): Bucket {
    b.(tokens := b.tokens - 1.0)
  }

  /** A sustained rate and a burst, per client and overall, and the whole seconds a refused client is
      told to wait. */
  datatype Budget = Budget(clientRate: real, clientBurst: real, globalRate: real, globalBurst: real, retryAfter: int)

  datatype Limiter = Limiter(budget: Budget, buckets: seq<Bucket>, global: Bucket)

  /** Both buckets are topped up; a token is taken from each only if both have one. */
  function Allow(l: Limiter, index: nat, now: real): (Limiter, bool)
    requires index < |l.buckets|
  {
    var c := Refill(l.buckets[index], now, l.budget.clientRate, l.budget.clientBurst);
    var g := Refill(l.global, now, l.budget.globalRate, l.budget.globalBurst);
    if c.tokens >= 1.0 && g.tokens >= 1.0
    then (l.(buckets := l.buckets[index := Spend(c)], global := Spend(g)), true)
    else (l.(buckets := l.buckets[index := c], global := g), false)
  }

  // ---------------------------------------------------------------- the limiter

  const BUCKETS := 1024

  datatype EnrollLimit = EnrollLimit(clientBurst: int, clientPerMin: int, globalBurst: int, globalPerMin: int)

  const DEFAULT_LIMIT := EnrollLimit(20, 20, 200, 200)

  function OrDefault(x: int, d: int): int {
    if x <= 0 then d else x
  }

  /** 60 / perMin rounded up. */
  function SecondsPerToken(perMin: int): (k: int)
    requires perMin > 0
    ensures k > 0 && (k - 1) * perMin < 60 <= k * perMin
  {
    (60 + perMin - 1) / perMin
  }

  /** Whatever is not positive is taken from the default budget. */
  function Settled(el: EnrollLimit): (s: EnrollLimit)
    ensures s.clientBurst == if el.clientBurst > 0 then el.clientBurst else 20
    ensures s.clientPerMin == if el.clientPerMin > 0 then el.clientPerMin else 20
    ensures s.globalBurst == if el.globalBurst > 0 then el.globalBurst else 200
    ensures s.globalPerMin == if el.globalPerMin > 0 then el.globalPerMin else 200
  {
    EnrollLimit(OrDefault(el.clientBurst, DEFAULT_LIMIT.clientBurst), OrDefault(el.clientPerMin, DEFAULT_LIMIT.clientPerMin),
                OrDefault(el.globalBurst, DEFAULT_LIMIT.globalBurst), OrDefault(el.globalPerMin, DEFAULT_LIMIT.globalPerMin))
  }

  function BudgetOf(el: EnrollLimit): (b: Budget)
    ensures b.clientRate > 0.0 && b.clientBurst >= 1.0 && b.globalRate > 0.0 && b.globalBurst >= 1.0
    ensures b.clientBurst == Settled(el).clientBurst as real && b.clientRate * 60.0 == Settled(el).clientPerMin as real
    ensures b.globalBurst == Settled(el).globalBurst as real && b.globalRate * 60.0 == Settled(el).globalPerMin as real
  {
    var s := Settled(el);
    Budget(s.clientPerMin as real / 60.0, s.clientBurst as real, s.globalPerMin as real / 60.0, s.globalBurst as real,
           SecondsPerToken(if s.clientPerMin < s.globalPerMin then s.clientPerMin else s.globalPerMin))
  }

  function NewLimiter(el: EnrollLimit): Limiter {
    Limiter(BudgetOf(el), seq(BUCKETS, _ => EMPTY_BUCKET), EMPTY_BUCKET)
  }

  class EnrollLimiter {
    const buckets: array<Bucket>
    var global: Bucket
    var budget: Budget

    ghost predicate Valid()
      reads this
    {
      buckets.Length == BUCKETS
    }

    ghost function View(): Limiter
      reads this, buckets
    {
      Limiter(budget, buckets[..], global)
    }

    constructor (el: EnrollLimit)
      ensures Valid() && fresh(buckets) && View() == NewLimiter(el)
    {
      buckets := new Bucket[BUCKETS](_ => EMPTY_BUCKET);
      global := EMPTY_BUCKET;
      budget := BudgetOf(el);
    }

    /** Replaces the budget and empties every bucket. */
    method SetLimit(el: EnrollLimit)
      requires Valid()
      modifies this, buckets
      ensures Valid() && View() == NewLimiter(el)
    {
      budget := BudgetOf(el);
      for i := 0 to buckets.Length
        invariant Valid() && budget == BudgetOf(el)
        invariant forall k :: 0 <= k < i ==> buckets[k] == EMPTY_BUCKET
      {
        buckets[i] := EMPTY_BUCKET;
      }
      global := EMPTY_BUCKET;
      assert buckets[..] == seq(BUCKETS, _ => EMPTY_BUCKET);
    }

    /** `index` is the bucket the client's name hashes to. */
    method AllowClient(index: nat, now: real) returns (ok: bool)
      requires Valid() && index < BUCKETS
      modifies this`global, buckets
      ensures Valid() && (View(), ok) == Allow(old(View()), index, now)
    {
      buckets[index] := Refill(buckets[index], now, budget.clientRate, budget.clientBurst);
      var okClient := buckets[index].tokens >= 1.0;
      global := Refill(global, now, budget.globalRate, budget.globalBurst);
      var okGlobal := global.tokens >= 1.0;
      if !okClient || !okGlobal {
        return false;
      }
      buckets[index] := Spend(buckets[index]);
      global := Spend(global);
      assert buckets[..] == Allow(old(View()), index, now).0.buckets;
      return true;
    }
  }

  // ---------------------------------------------------------------- runs

  datatype Call = Call(index: nat, now: real)

  ghost predicate Wellformed(calls: seq<Call>) {
    && (forall i :: 0 <= i < |calls| ==> calls[i].index < BUCKETS)
    && (forall i, j :: 0 <= i <= j < |calls| ==> calls[i].now <= calls[j].now)
  }

  function Served(el: EnrollLimit, calls: seq<Call>): (l: Limiter)
    requires forall i :: 0 <= i < |calls| ==> calls[i].index < BUCKETS
    ensures |l.buckets| == BUCKETS && l.budget == BudgetOf(el)
  {
    if calls == [] then NewLimiter(el)
    else Allow(Served(el, calls[..|calls| - 1]), calls[|calls| - 1].index, calls[|calls| - 1].now).0
  }

  predicate Accepted(el: EnrollLimit, calls: seq<Call>, i: nat)
    requires i < |calls| && forall k :: 0 <= k < |calls| ==> calls[k].index < BUCKETS
  {
    Allow(Served(el, calls[..i]), calls[i].index, calls[i].now).1
  }

  /** Either everyone together, or the clients of one bucket. */
  datatype Group = Everyone | ClientsOf(index: nat)

  predicate Concerns(g: Group, c: Call) {
    g.Everyone? || g.index == c.index
  }

  function BucketOf(l: Limiter, g: Group): Bucket
    requires g.ClientsOf? ==> g.index < |l.buckets|
  {
    if g.Everyone? then l.global else l.buckets[g.index]
  }

  function RateOf(b: Budget, g: Group): real { if g.Everyone? then b.globalRate else b.clientRate }

  function BurstOf(b: Budget, g: Group): real { if g.Everyone? then b.globalBurst else b.clientBurst }

  /** How many calls of a group were accepted among calls n to |calls| - 1. */
  function Count(el: EnrollLimit, calls: seq<Call>, n: nat, g: Group): nat
    requires forall k :: 0 <= k < |calls| ==> calls[k].index < BUCKETS
  {
    if |calls| <= n then 0
    else
      var last := |calls| - 1;
      Count(el, calls[..last], n, g) + if Accepted(el, calls, last) && Concerns(g, calls[last]) then 1 else 0
  }

  lemma FlowAdds(rate: real, a: real, b: real)
    ensures Flow(rate, a) + Flow(rate, b) == Flow(rate, a + b)
  {
  }

  lemma FlowGrows(rate: real, a: real, b: real)
    requires rate >= 0.0 && a <= b
    ensures Flow(rate, a) <= Flow(rate, b)
  {
  }

  lemma FlowGrowsStrictly(rate: real, a: real, b: real)
    requires rate > 0.0 && a < b
    ensures Flow(rate, a) < Flow(rate, b)
  {
  }

  /** The credit a group has used since `start` and still holds never exceeds its burst plus what has
      flowed in; `now` is the latest clock reading. */
  ghost predicate Bounded(b: Bucket, rate: real, burst: real, count: nat, start: real, now: real) {
    && start <= now
    && (b.last.Some? ==> 0.0 <= b.tokens <= burst && b.last.value <= now)
    && (count == 0 || (b.last.Some? && start <= b.last.value
                       && count as real + b.tokens <= burst + Flow(rate, b.last.value - start)))
  }

  lemma RefillBounded(b: Bucket, rate: real, burst: real, count: nat, start: real, before: real, now: real)
    requires rate > 0.0 && burst >= 1.0 && before <= now && Bounded(b, rate, burst, count, start, before)
    ensures var r := Refill(b, now, rate, burst);
            && 0.0 <= r.tokens <= burst && r.last == Some(now)
            && count as real + r.tokens <= burst + Flow(rate, now - start)
  {
    FlowGrows(rate, 0.0, now - start);
    if b.last.Some? {
      var t := b.last.value;
      FlowGrows(rate, 0.0, now - t);
      FlowAdds(rate, t - start, now - t);
      assert (t - start) + (now - t) == now - start;
    }
  }

  /** What one call does to a bucket it concerns. */
  function Touched(b: Bucket, now: real, rate: real, burst: real, accepted: bool): Bucket {
    if accepted then Spend(Refill(b, now, rate, burst)) else Refill(b, now, rate, burst)
  }

  lemma CallBounded(b: Bucket, rate: real, burst: real, count: nat, start: real, before: real, now: real, accepted: bool)
    requires rate > 0.0 && burst >= 1.0 && before <= now && Bounded(b, rate, burst, count, start, before)
    requires accepted ==> Refill(b, now, rate, burst).tokens >= 1.0
    ensures Bounded(Touched(b, now, rate, burst, accepted), rate, burst, count + if accepted then 1 else 0, start, now)
  {
    RefillBounded(b, rate, burst, count, start, before, now);
  }

  lemma SpentIsBounded(b: Bucket, rate: real, burst: real, count: nat, start: real, now: real)
    requires rate > 0.0 && burst >= 1.0 && Bounded(b, rate, burst, count, start, now)
    ensures count as real <= burst + Flow(rate, now - start)
  {
    FlowGrows(rate, 0.0, now - start);
    if b.last.Some? {
      FlowGrows(rate, b.last.value - start, now - start);
    }
  }

  lemma {:induction false} BucketAfterCall(el: EnrollLimit, calls: seq<Call>, g: Group)
    requires Wellformed(calls) && calls != [] && (g.ClientsOf? ==> g.index < BUCKETS)
    ensures var m := |calls| - 1;
            var b, budget := BucketOf(Served(el, calls[..m]), g), BudgetOf(el);
            var accepted := Accepted(el, calls, m);
            BucketOf(Served(el, calls), g) ==
            if Concerns(g, calls[m]) then Touched(b, calls[m].now, RateOf(budget, g), BurstOf(budget, g), accepted) else b
    ensures var m := |calls| - 1;
            Accepted(el, calls, m) && Concerns(g, calls[m]) ==>
              Refill(BucketOf(Served(el, calls[..m]), g), calls[m].now, RateOf(BudgetOf(el), g), BurstOf(BudgetOf(el), g)).tokens >= 1.0
  {
  }

  ghost predicate CreditFits(el: EnrollLimit, calls: seq<Call>, g: Group, count: nat, start: real, now: real)
    requires Wellformed(calls) && (g.ClientsOf? ==> g.index < BUCKETS)
  {
    Bounded(BucketOf(Served(el, calls), g), RateOf(BudgetOf(el), g), BurstOf(BudgetOf(el), g), count, start, now)
  }

  /** The last call of a run keeps its group's credit within bounds. */
  lemma {:induction false} LastCallBounded(el: EnrollLimit, calls: seq<Call>, g: Group, count: nat, start: real, now: real)
    requires Wellformed(calls) && calls != [] && (g.ClientsOf? ==> g.index < BUCKETS) && now == calls[|calls| - 1].now
    requires CreditFits(el, calls[..|calls| - 1], g, count, start, now)
    ensures var spent := Accepted(el, calls, |calls| - 1) && Concerns(g, calls[|calls| - 1]);
            CreditFits(el, calls, g, count + if spent then 1 else 0, start, now)
  {
    var m := |calls| - 1;
    BucketAfterCall(el, calls, g);
    if Concerns(g, calls[m]) {
      CallBounded(BucketOf(Served(el, calls[..m]), g), RateOf(BudgetOf(el), g), BurstOf(BudgetOf(el), g),
                  count, start, now, now, Accepted(el, calls, m));
    }
  }

  lemma {:induction false} CreditLater(el: EnrollLimit, calls: seq<Call>, g: Group, count: nat,
                                       start: real, at: real, now: real)
    requires Wellformed(calls) && (g.ClientsOf? ==> g.index < BUCKETS) && at <= now
    requires CreditFits(el, calls, g, count, start, at)
    ensures CreditFits(el, calls, g, count, start, now)
  {
  }

  lemma {:induction false} CreditUnused(el: EnrollLimit, calls: seq<Call>, g: Group, count: nat,
                                        at: real, start: real, now: real)
    requires Wellformed(calls) && (g.ClientsOf? ==> g.index < BUCKETS) && at <= now && start <= now
    requires CreditFits(el, calls, g, count, at, at)
    ensures CreditFits(el, calls, g, 0, start, now)
  {
  }

  lemma {:induction false} StretchGrows(el: EnrollLimit, calls: seq<Call>, n: nat, g: Group, start: real, at: real)
    requires Wellformed(calls) && n < |calls| && (g.ClientsOf? ==> g.index < BUCKETS) && at == calls[|calls| - 1].now
    requires var before := calls[..|calls| - 1]; CreditFits(el, before, g, Count(el, before, n, g), start, at)
    ensures CreditFits(el, calls, g, Count(el, calls, n, g), start, at)
  {
    LastCallBounded(el, calls, g, Count(el, calls[..|calls| - 1], n, g), start, at);
  }

  /** What a stretch of calls has used is bounded; an empty stretch has used nothing. */
  lemma {:induction false} CreditBounded(el: EnrollLimit, calls: seq<Call>, n: nat, g: Group, start: real, now: real)
    requires Wellformed(calls) && n <= |calls| && (g.ClientsOf? ==> g.index < BUCKETS)
    requires start <= now && (calls != [] ==> calls[|calls| - 1].now <= now) && (n < |calls| ==> start <= calls[n].now)
    ensures CreditFits(el, calls, g, Count(el, calls, n, g), start, now)
    decreases |calls|, |calls| - n
  {
    if calls == [] {
    } else if n < |calls| {
      var before, at := calls[..|calls| - 1], calls[|calls| - 1].now;
      assert start <= calls[n].now <= at;
      CreditBounded(el, before, n, g, start, at);
      StretchGrows(el, calls, n, g, start, at);
      CreditLater(el, calls, g, Count(el, calls, n, g), start, at, now);
    } else {
      var m, at := |calls| - 1, calls[|calls| - 1].now;
      CreditBounded(el, calls[..m], m, g, at, at);
      StretchGrows(el, calls, m, g, at, at);
      CreditUnused(el, calls, g, Count(el, calls, m, g), at, start, now);
    }
  }

  /** The token-bucket bound: in any stretch of a run, calls n to the last, whatever came before, no
      more calls are accepted than the burst plus the rate times the time the stretch takes; overall,
      and for the clients of any one bucket. */
  lemma AcceptedCallsAreBounded(el: EnrollLimit, calls: seq<Call>, n: nat, g: Group)
    requires Wellformed(calls) && n < |calls| && (g.ClientsOf? ==> g.index < BUCKETS)
    ensures var b := BudgetOf(el);
            Count(el, calls, n, g) as real <= BurstOf(b, g) + Flow(RateOf(b, g), calls[|calls| - 1].now - calls[n].now)
  {
    var start, now := calls[n].now, calls[|calls| - 1].now;
    CreditBounded(el, calls, n, g, start, now);
    var b := BudgetOf(el);
    SpentIsBounded(BucketOf(Served(el, calls), g), RateOf(b, g), BurstOf(b, g), Count(el, calls, n, g), start, now);
  }

  /** Waiting the advertised whole seconds brings a token to a bucket of either rate. */
  lemma WaitBringsToken(perMin: int, slowest: int, rate: real)
    requires 0 < slowest <= perMin && rate * 60.0 == perMin as real
    ensures Flow(rate, SecondsPerToken(slowest) as real) >= 1.0
  {
    var k := SecondsPerToken(slowest);
    assert k * slowest <= k * perMin;
    assert (k * perMin) as real == (k as real) * (perMin as real);
    assert (k as real) * rate * 60.0 == (k * perMin) as real;
  }

  lemma RefilledAfterWait(b: Bucket, rate: real, burst: real, wait: real, now: real)
    requires b.last.Some? && 0.0 <= b.tokens && b.last.value + wait <= now && wait > 0.0
    requires rate > 0.0 && burst >= 1.0 && Flow(rate, wait) >= 1.0
    ensures Refill(b, now, rate, burst).tokens >= 1.0
  {
    FlowGrows(rate, wait, now - b.last.value);
  }

  /** The Retry-After value keeps its promise: after any call of any run, refused or not, a client that
      waits that long or longer is let through, unless somebody else called in between. */
  lemma {:induction false} RetryAfterIsEnough(el: EnrollLimit, calls: seq<Call>, c: Call, now: real)
    requires Wellformed(calls + [c]) && c.now + BudgetOf(el).retryAfter as real <= now
    ensures Allow(Served(el, calls + [c]), c.index, now).1
  {
    var all, b, s := calls + [c], BudgetOf(el), Settled(el);
    var wait := b.retryAfter as real;
    var l := Served(el, all);
    var slowest := if s.clientPerMin < s.globalPerMin then s.clientPerMin else s.globalPerMin;
    WaitBringsToken(s.clientPerMin, slowest, b.clientRate);
    WaitBringsToken(s.globalPerMin, slowest, b.globalRate);
    assert all[|calls|] == c && all[..|calls|] == calls;
    CreditBounded(el, all, |all|, Everyone, c.now, c.now);
    CreditBounded(el, all, |all|, ClientsOf(c.index), c.now, c.now);
    RefilledAfterWait(l.global, b.globalRate, b.globalBurst, wait, now);
    RefilledAfterWait(l.buckets[c.index], b.clientRate, b.clientBurst, wait, now);
  }
}
