/** What the rate limiter guarantees about the nonce table when nonces are handed out through the
    enrollment handlers (workload/enroll.go, workload/ratelimit.go, workload/workload.go). */
module NonceBound {
  import opened Common
  import opened RateLimit
  import opened Enrollment

  /** Every call of either handler in order, the nonce table, and which accepted call each nonce ever
      handed out answers. */
  datatype Desk = Desk(clock: real, calls: seq<Call>, table: Table, owner: map<string, nat>)

  datatype Step =
    | Arrive(index: nat, now: real)
    | Hand(call: nat, n: string, now: real)
    | Use(n: string, now: real)

  const OPENING := Desk(0.0, [], map[], map[])

  predicate Indexed(calls: seq<Call>) {
    forall i :: 0 <= i < |calls| ==> calls[i].index < BUCKETS
  }

  /** The limiter's answer to every call so far. */
  function Verdicts(el: EnrollLimit, calls: seq<Call>): (v: seq<bool>)
    requires Indexed(calls)
    ensures |v| == |calls|
  {
    if calls == [] then []
    else Verdicts(el, calls[..|calls| - 1]) + [Accepted(el, calls, |calls| - 1)]
  }

  /** A handler is let through by the limiter at one moment and asks for its nonce at most `delay`
      later; it asks once, and the nonce is fresh. */
  predicate MayHand(el: EnrollLimit, delay: real, w: Desk, k: nat, n: string, now: real)
    requires Indexed(w.calls)
  {
    && k < |w.calls| && Verdicts(el, w.calls)[k] && now <= w.calls[k].now + delay
    && n !in w.owner && k !in w.owner.Values
  }

  function Next(el: EnrollLimit, delay: real, w: Desk, step: Step): (w': Desk)
    requires Indexed(w.calls)
    ensures Indexed(w'.calls)
  {
    if step.now < w.clock then w else
    var w := w.(clock := step.now);
    match step
    case Arrive(index, now) => if index < BUCKETS then w.(calls := w.calls + [Call(index, now)]) else w
    case Hand(k, n, now) =>
      if MayHand(el, delay, w, k, n, now)
      then w.(table := IssueNonce(w.table, n, now).0, owner := w.owner[n := k]) else w
    case Use(n, now) => w.(table := ConsumeNonce(w.table, n, now).0)
  }

  function RunAll(el: EnrollLimit, delay: real, run: seq<Step>): (w: Desk)
    ensures Indexed(w.calls)
  {
    if run == [] then OPENING else Next(el, delay, RunAll(el, delay, run[..|run| - 1]), run[|run| - 1])
  }

  /** The burst, and what the global rate lets in over a nonce's lifetime and the handlers' delay. */
  function TableBound(el: EnrollLimit, delay: real): real {
    BudgetOf(el).globalBurst + Flow(BudgetOf(el).globalRate, NONCE_TTL + delay)
  }

  // ---------------------------------------------------------------- counting accepted calls

  function CountTrue(v: seq<bool>, n: nat): nat {
    if |v| <= n then 0 else CountTrue(v[..|v| - 1], n) + if v[|v| - 1] then 1 else 0
  }

  ghost function TrueFrom(v: seq<bool>, n: nat): set<nat> {
    set k: nat | n <= k < |v| && v[k]
  }

  lemma {:induction false} CountIsCardinality(v: seq<bool>, n: nat)
    ensures |TrueFrom(v, n)| == CountTrue(v, n)
    decreases |v|
  {
    if |v| <= n {
      assert TrueFrom(v, n) == {};
    } else {
      var m := |v| - 1;
      CountIsCardinality(v[..m], n);
      assert TrueFrom(v, n) == TrueFrom(v[..m], n) + if v[m] then {m} else {};
    }
  }

  lemma {:induction false} VerdictsCount(el: EnrollLimit, calls: seq<Call>, n: nat)
    requires Indexed(calls)
    ensures CountTrue(Verdicts(el, calls), n) == Count(el, calls, n, Everyone)
    decreases |calls|
  {
    if |calls| > n {
      var m := |calls| - 1;
      VerdictsCount(el, calls[..m], n);
      assert Verdicts(el, calls)[..m] == Verdicts(el, calls[..m]);
    }
  }

  lemma VerdictsStay(el: EnrollLimit, calls: seq<Call>, c: Call)
    requires Indexed(calls) && c.index < BUCKETS
    ensures Verdicts(el, calls + [c])[..|calls|] == Verdicts(el, calls)
  {
  }

  /** The limiter's promise, as far as the table depends on it. */
  ghost predicate Limited(burst: real, rate: real, v: seq<bool>, calls: seq<Call>)
    requires |v| == |calls|
  {
    forall m :: 0 <= m < |calls| ==>
      CountTrue(v, m) as real <= burst + Flow(rate, calls[|calls| - 1].now - calls[m].now)
  }

  lemma LimiterLimits(el: EnrollLimit, calls: seq<Call>)
    requires Wellformed(calls)
    ensures Limited(BudgetOf(el).globalBurst, BudgetOf(el).globalRate, Verdicts(el, calls), calls)
  {
    forall m | 0 <= m < |calls|
      ensures CountTrue(Verdicts(el, calls), m) as real
           <= BudgetOf(el).globalBurst + Flow(BudgetOf(el).globalRate, calls[|calls| - 1].now - calls[m].now)
    {
      AcceptedCallsAreBounded(el, calls, m, Everyone);
      VerdictsCount(el, calls, m);
    }
  }

  /** The first call after a moment. */
  function FirstAfter(calls: seq<Call>, t: real): (n: nat)
    requires forall i, j :: 0 <= i <= j < |calls| ==> calls[i].now <= calls[j].now
    ensures n <= |calls| && (n < |calls| ==> t < calls[n].now)
    ensures forall k :: 0 <= k < |calls| && t < calls[k].now ==> n <= k
  {
    if calls == [] then 0
    else
      var m := |calls| - 1;
      if calls[m].now <= t then |calls|
      else
        assert forall k :: 0 <= k < m ==> calls[k] == calls[..m][k];
        FirstAfter(calls[..m], t)
  }

  lemma {:induction false} InjectiveImage(keys: set<string>, owner: map<string, nat>, image: set<nat>)
    requires keys <= owner.Keys && forall n :: n in keys ==> owner[n] in image
    requires forall a, b :: a in keys && b in keys && owner[a] == owner[b] ==> a == b
    ensures |keys| <= |image|
    decreases |keys|
  {
    if keys != {} {
      var a :| a in keys;
      InjectiveImage(keys - {a}, owner, image - {owner[a]});
    }
  }

  // ---------------------------------------------------------------- the bound

  /** Every nonce answers an accepted call of its own, and outlives it by no more than the delay and
      a nonce's lifetime. */
  ghost predicate Owned(delay: real, v: seq<bool>, calls: seq<Call>, table: Table, owner: map<string, nat>)
    requires |v| == |calls|
  {
    && (forall n :: n in owner ==> owner[n] < |calls| && v[owner[n]])
    && (forall a, b :: a in owner && b in owner && owner[a] == owner[b] ==> a == b)
    && (forall n :: n in table ==> n in owner && table[n] <= calls[owner[n]].now + delay + NONCE_TTL)
  }

  /** A table without expired nonces is within the bound. */
  lemma FreshTableIsBounded(burst: real, rate: real, delay: real, v: seq<bool>, calls: seq<Call>, table: Table,
                            owner: map<string, nat>, now: real)
    requires |v| == |calls| && Wellformed(calls) && Limited(burst, rate, v, calls) && Owned(delay, v, calls, table, owner)
    requires delay >= 0.0 && burst > 0.0 && rate > 0.0
    requires (calls != [] ==> calls[|calls| - 1].now <= now) && forall n :: n in table ==> now < table[n]
    ensures |table| as real < burst + Flow(rate, NONCE_TTL + delay)
  {
    var window := NONCE_TTL + delay;
    var first := FirstAfter(calls, now - window);
    forall n | n in table
      ensures owner[n] in TrueFrom(v, first)
    {
      assert now - window < calls[owner[n]].now;
    }
    InjectiveImage(table.Keys, owner, TrueFrom(v, first));
    CountIsCardinality(v, first);
    FlowGrows(rate, 0.0, window);
    if first < |calls| {
      FlowGrowsStrictly(rate, calls[|calls| - 1].now - calls[first].now, window);
    }
  }

  ghost predicate Kept(el: EnrollLimit, delay: real, w: Desk) {
    && Wellformed(w.calls) && (w.calls != [] ==> w.calls[|w.calls| - 1].now <= w.clock)
    && Owned(delay, Verdicts(el, w.calls), w.calls, w.table, w.owner)
    && |w.table| as real < TableBound(el, delay)
  }

  lemma ArriveKept(el: EnrollLimit, delay: real, w: Desk, c: Call)
    requires Kept(el, delay, w) && c.index < BUCKETS && c.now == w.clock
    ensures Kept(el, delay, w.(calls := w.calls + [c]))
  {
    VerdictsStay(el, w.calls, c);
    OwnedLater(delay, Verdicts(el, w.calls), Verdicts(el, w.calls + [c]), w.calls, c, w.table, w.owner);
  }

  lemma OwnedLater(delay: real, v: seq<bool>, v': seq<bool>, calls: seq<Call>, c: Call, table: Table, owner: map<string, nat>)
    requires |v| == |calls| && |v'| == |calls| + 1 && v'[..|calls|] == v && Owned(delay, v, calls, table, owner)
    ensures Owned(delay, v', calls + [c], table, owner)
  {
  }

  lemma HandKept(el: EnrollLimit, delay: real, w: Desk, k: nat, n: string)
    requires Kept(el, delay, w) && delay >= 0.0 && MayHand(el, delay, w, k, n, w.clock)
    ensures Kept(el, delay, w.(table := IssueNonce(w.table, n, w.clock).0, owner := w.owner[n := k]))
  {
    var b, v := BudgetOf(el), Verdicts(el, w.calls);
    var t := IssueNonce(w.table, n, w.clock).0;
    HandOwned(delay, v, w.calls, w.table, w.owner, k, n, w.clock);
    LimiterLimits(el, w.calls);
    FreshTableIsBounded(b.globalBurst, b.globalRate, delay, v, w.calls, t, w.owner[n := k], w.clock);
  }

  lemma HandOwned(delay: real, v: seq<bool>, calls: seq<Call>, table: Table, owner: map<string, nat>, k: nat, n: string, now: real)
    requires |v| == |calls| && Owned(delay, v, calls, table, owner)
    requires k < |calls| && v[k] && now <= calls[k].now + delay && n !in owner && k !in owner.Values
    ensures Owned(delay, v, calls, IssueNonce(table, n, now).0, owner[n := k])
    ensures forall x :: x in IssueNonce(table, n, now).0 ==> now < IssueNonce(table, n, now).0[x]
  {
  }

  lemma UseKept(el: EnrollLimit, delay: real, w: Desk, n: string)
    requires Kept(el, delay, w)
    ensures Kept(el, delay, w.(table := ConsumeNonce(w.table, n, w.clock).0))
  {
  }

  lemma LaterKept(el: EnrollLimit, delay: real, w: Desk, now: real)
    requires Kept(el, delay, w) && w.clock <= now
    ensures Kept(el, delay, w.(clock := now))
  {
  }

  lemma StepKept(el: EnrollLimit, delay: real, w: Desk, step: Step)
    requires Kept(el, delay, w) && delay >= 0.0
    ensures Kept(el, delay, Next(el, delay, w, step))
  {
    if step.now >= w.clock {
      var v := w.(clock := step.now);
      LaterKept(el, delay, w, step.now);
      match step
      case Arrive(index, now) =>
        if index < BUCKETS {
          ArriveKept(el, delay, v, Call(index, now));
        }
      case Hand(k, n, now) =>
        if MayHand(el, delay, v, k, n, now) {
          HandKept(el, delay, v, k, n);
        }
      case Use(n, now) =>
        UseKept(el, delay, v, n);
    }
  }

  lemma {:induction false} RunsKeep(el: EnrollLimit, delay: real, run: seq<Step>)
    requires delay >= 0.0
    ensures Kept(el, delay, RunAll(el, delay, run))
  {
    if run == [] {
      FlowGrows(BudgetOf(el).globalRate, 0.0, NONCE_TTL + delay);
    } else {
      RunsKeep(el, delay, run[..|run| - 1]);
      StepKept(el, delay, RunAll(el, delay, run[..|run| - 1]), run[|run| - 1]);
    }
  }

  /** On every run through the handlers, for every budget, the nonce table holds fewer nonces than the
      burst plus the rate over a nonce's lifetime and the handlers' delay. */
  lemma {:induction false} OutstandingNoncesAreBounded(el: EnrollLimit, delay: real, run: seq<Step>)
    requires delay >= 0.0
    ensures |RunAll(el, delay, run).table| as real < TableBound(el, delay)
  {
    RunsKeep(el, delay, run);
  }

  /** As long as a handler asks within 17 minutes of being let through, the default budget leaves room
      for every nonce that is asked for. */
  lemma {:induction false} DefaultBudgetNeverFillsTheTable(delay: real, run: seq<Step>, n: string, now: real)
    requires 0.0 <= delay <= 1020.0 && RunAll(DEFAULT_LIMIT, delay, run).clock <= now
    ensures IssueNonce(RunAll(DEFAULT_LIMIT, delay, run).table, n, now).1
  {
    RunsKeep(DEFAULT_LIMIT, delay, run);
    DefaultBound(delay);
    SweepShrinks(RunAll(DEFAULT_LIMIT, delay, run).table, now);
  }

  lemma DefaultBound(delay: real)
    requires 0.0 <= delay <= 1020.0
    ensures TableBound(DEFAULT_LIMIT, delay) < 4096.0
  {
  }

  lemma SweepShrinks(t: Table, now: real)
    ensures |Sweep(t, now)| <= |t|
  {
    var s := Sweep(t, now);
    assert s.Keys <= t.Keys;
    assert t.Keys == s.Keys + (t.Keys - s.Keys);
  }

  // ---------------------------------------------------------------- the maximum

  /** The most nonces that can be outstanding when a handler asks at once: the burst and two minutes'
      worth of the rate, less one, or a full table. */
  function MostNonces(el: EnrollLimit): (k: int)
    ensures 2 <= k <= MAX_OUTSTANDING
  {
    var limit := Settled(el).globalBurst + 2 * Settled(el).globalPerMin - 1;
    if limit < MAX_OUTSTANDING then limit else MAX_OUTSTANDING
  }

  /** Call j of a busy run: the burst at once, then one call whenever a token has flowed in, the
      buckets taking turns. */
  function BusyCall(gap: real, burst: int, j: nat): Call {
    Call(j % BUCKETS, if j < burst then 0.0 else Flow(gap, (j + 1 - burst) as real))
  }

  function BusyCalls(gap: real, burst: int, n: nat): (calls: seq<Call>)
    ensures |calls| == n && forall j :: 0 <= j < n ==> calls[j] == BusyCall(gap, burst, j)
  {
    seq(n, j requires 0 <= j => BusyCall(gap, burst, j))
  }

  function Name(j: nat): (s: string)
    ensures |s| == j
  {
    seq(j, _ => 'n')
  }

  function BusyRun(gap: real, burst: int, n: nat): seq<Step> {
    if n == 0 then []
    else
      var c := BusyCall(gap, burst, n - 1);
      BusyRun(gap, burst, n - 1) + [Arrive(c.index, c.now)] + [Hand(n - 1, Name(n - 1), c.now)]
  }

  function BusyTable(gap: real, burst: int, n: nat): (t: Table)
    ensures forall s :: s in t ==> |s| < n
    ensures |t| == n
  {
    if n == 0 then map[]
    else BusyTable(gap, burst, n - 1)[Name(n - 1) := BusyCall(gap, burst, n - 1).now + NONCE_TTL]
  }

  function BusyOwners(n: nat): (o: map<string, nat>)
    ensures forall s :: s in o ==> |s| < n && o[s] < n
  {
    if n == 0 then map[] else BusyOwners(n - 1)[Name(n - 1) := n - 1]
  }

  /** One token takes this long to flow in, and the client bursts are enough for n calls in turn. */
  predicate Paced(b: Budget, gap: real, burst: int, n: int) {
    && gap > 0.0 && Flow(b.globalRate, gap) == 1.0 && b.globalBurst == burst as real && burst >= 1
    && b.clientRate > 0.0 && b.clientBurst == b.clientBurst.Floor as real && n <= BUCKETS * b.clientBurst.Floor
  }

  function BusyBucket(gap: real, burst: int, n: nat): Bucket {
    if n == 0 then EMPTY_BUCKET
    else Bucket(if n < burst then (burst - n) as real else 0.0, Some(BusyCall(gap, burst, n - 1).now))
  }

  lemma BusyRefill(b: Budget, gap: real, burst: int, n: nat)
    requires Paced(b, gap, burst, n)
    ensures Refill(BusyBucket(gap, burst, n), BusyCall(gap, burst, n).now, b.globalRate, b.globalBurst).tokens >= 1.0
    ensures Spend(Refill(BusyBucket(gap, burst, n), BusyCall(gap, burst, n).now, b.globalRate, b.globalBurst))
         == BusyBucket(gap, burst, n + 1)
  {
    if n >= burst {
      var before, now := BusyCall(gap, burst, n - 1).now, BusyCall(gap, burst, n).now;
      assert now == before + gap;
    }
  }

  /** How many of the first n calls fell to bucket k. */
  function Turns(k: nat, n: nat): nat {
    if n == 0 then 0 else Turns(k, n - 1) + if (n - 1) % BUCKETS == k then 1 else 0
  }

  lemma OneTurn(k: nat, n: nat, t: nat)
    requires k < BUCKETS && BUCKETS * (t - 1) + k < n <= BUCKETS * t + k
    ensures n % BUCKETS == k <==> n == BUCKETS * t + k
  {
  }

  lemma {:induction false} TurnsInTurn(k: nat, n: nat)
    requires k < BUCKETS
    ensures var t := Turns(k, n); BUCKETS * (t - 1) + k < n <= BUCKETS * t + k
  {
    if n > 0 {
      TurnsInTurn(k, n - 1);
      OneTurn(k, n - 1, Turns(k, n - 1));
    }
  }

  lemma TurnsLeft(n: nat, whole: int)
    requires n + 1 <= BUCKETS * whole
    ensures Turns(n % BUCKETS, n) + 1 <= whole
  {
    var turns := Turns(n % BUCKETS, n);
    TurnsInTurn(n % BUCKETS, n);
    OneTurn(n % BUCKETS, n, turns);
  }

  /** A bucket whose tokens have been spent so many times still has the rest of its burst. */
  predicate HasRest(b: Bucket, burst: real, spent: nat) {
    b.last.Some? ==> b.tokens >= burst - spent as real
  }

  lemma RefillHasRest(b: Bucket, now: real, rate: real, burst: real, spent: nat)
    requires HasRest(b, burst, spent) && rate > 0.0
    ensures var r := Refill(b, now, rate, burst);
            r.last.Some? && r.tokens >= burst - spent as real && HasRest(Spend(r), burst, spent + 1)
  {
    if b.last.Some? && now > b.last.value {
      FlowGrows(rate, 0.0, now - b.last.value);
    }
  }

  /** The bucket whose turn it is has a token left. */
  lemma TurnHasToken(b: Bucket, now: real, rate: real, burst: real, n: nat)
    requires HasRest(b, burst, Turns(n % BUCKETS, n)) && rate > 0.0
    requires burst == burst.Floor as real && n + 1 <= BUCKETS * burst.Floor
    ensures Refill(b, now, rate, burst).tokens >= 1.0
  {
    var turns := Turns(n % BUCKETS, n);
    TurnsLeft(n, burst.Floor);
    RefillHasRest(b, now, rate, burst, turns);
  }

  lemma CallsSnoc(gap: real, burst: int, n: nat)
    ensures var calls := BusyCalls(gap, burst, n + 1);
            calls == BusyCalls(gap, burst, n) + [BusyCall(gap, burst, n)] && calls[..n] == BusyCalls(gap, burst, n)
  {
  }

  /** The limiter's state after n calls of the busy run, all of them let through. */
  ghost predicate BusyState(l: Limiter, b: Budget, gap: real, burst: int, n: nat)
    requires |l.buckets| == BUCKETS
  {
    && l.budget == b && l.global == BusyBucket(gap, burst, n)
    && forall k :: 0 <= k < BUCKETS ==> HasRest(l.buckets[k], b.clientBurst, Turns(k, n))
  }

  lemma BusyAllowed(l: Limiter, b: Budget, gap: real, burst: int, n: nat)
    requires |l.buckets| == BUCKETS && BusyState(l, b, gap, burst, n)
    requires Paced(b, gap, burst, n + 1)
    ensures var c := BusyCall(gap, burst, n);
            var (l', ok) := Allow(l, c.index, c.now);
            ok && |l'.buckets| == BUCKETS && BusyState(l', b, gap, burst, n + 1)
  {
    var c := BusyCall(gap, burst, n);
    BusyRefill(b, gap, burst, n);
    TurnHasToken(l.buckets[c.index], c.now, b.clientRate, b.clientBurst, n);
    RefillHasRest(l.buckets[c.index], c.now, b.clientRate, b.clientBurst, Turns(c.index, n));
    var l' := Allow(l, c.index, c.now).0;
    forall k | 0 <= k < BUCKETS
      ensures HasRest(l'.buckets[k], b.clientBurst, Turns(k, n + 1))
    {
    }
  }

  lemma {:induction false} BusyServed(el: EnrollLimit, gap: real, burst: int, n: nat)
    requires Paced(BudgetOf(el), gap, burst, n)
    ensures BusyState(Served(el, BusyCalls(gap, burst, n)), BudgetOf(el), gap, burst, n)
  {
    if n > 0 {
      BusyServed(el, gap, burst, n - 1);
      CallsSnoc(gap, burst, n - 1);
      BusyAllowed(Served(el, BusyCalls(gap, burst, n - 1)), BudgetOf(el), gap, burst, n - 1);
    }
  }

  lemma BusyAccepted(el: EnrollLimit, gap: real, burst: int, n: nat)
    requires Paced(BudgetOf(el), gap, burst, n + 1)
    ensures Accepted(el, BusyCalls(gap, burst, n + 1), n)
  {
    BusyServed(el, gap, burst, n);
    CallsSnoc(gap, burst, n);
    BusyAllowed(Served(el, BusyCalls(gap, burst, n)), BudgetOf(el), gap, burst, n);
  }

  lemma {:induction false} BusyVerdict(el: EnrollLimit, gap: real, burst: int, n: nat)
    requires Paced(BudgetOf(el), gap, burst, n + 1)
    ensures Verdicts(el, BusyCalls(gap, burst, n + 1))[n]
  {
    BusyAccepted(el, gap, burst, n);
  }

  lemma {:induction false} BusyTableIsFresh(gap: real, burst: int, n: nat, now: real)
    requires gap > 0.0 && now < NONCE_TTL
    ensures Sweep(BusyTable(gap, burst, n), now) == BusyTable(gap, burst, n)
  {
    if n > 0 {
      BusyTableIsFresh(gap, burst, n - 1, now);
      var t, before := BusyTable(gap, burst, n), BusyTable(gap, burst, n - 1);
      forall s | s in t
        ensures now < t[s]
      {
        if s != Name(n - 1) {
          assert s in Sweep(before, now);
        }
      }
    }
  }

  lemma BusyClock(gap: real, burst: int, n: nat, j: nat)
    requires gap > 0.0 && j <= n
    ensures 0.0 <= BusyCall(gap, burst, j).now <= BusyCall(gap, burst, n).now
  {
  }

  function BusyDesk(gap: real, burst: int, n: nat): (w: Desk)
    ensures Indexed(w.calls)
  {
    Desk(if n == 0 then 0.0 else BusyCall(gap, burst, n - 1).now, BusyCalls(gap, burst, n),
         BusyTable(gap, burst, n), BusyOwners(n))
  }

  lemma BusyArrives(el: EnrollLimit, gap: real, burst: int, m: nat)
    requires gap > 0.0
    ensures var c := BusyCall(gap, burst, m);
            Next(el, 0.0, BusyDesk(gap, burst, m), Arrive(c.index, c.now)) == Arrived(gap, burst, m)
  {
    BusyClock(gap, burst, m, if m == 0 then 0 else m - 1);
    CallsSnoc(gap, burst, m);
  }

  lemma HandStep(el: EnrollLimit, w: Desk, w': Desk, k: nat, n: string)
    requires Indexed(w.calls) && k < |w.calls| && Verdicts(el, w.calls)[k] && w.calls[k].now == w.clock
    requires n !in w.owner && k !in w.owner.Values && Sweep(w.table, w.clock) == w.table && |w.table| < MAX_OUTSTANDING
    requires w' == w.(table := w.table[n := w.clock + NONCE_TTL], owner := w.owner[n := k])
    ensures Next(el, 0.0, w, Hand(k, n, w.clock)) == w'
  {
    assert MayHand(el, 0.0, w, k, n, w.clock);
  }

  /** The desk between the arrival of call m and its answer. */
  function Arrived(gap: real, burst: int, m: nat): Desk {
    BusyDesk(gap, burst, m).(clock := BusyCall(gap, burst, m).now, calls := BusyCalls(gap, burst, m + 1))
  }

  lemma BusyReady(el: EnrollLimit, gap: real, burst: int, m: nat)
    requires Paced(BudgetOf(el), gap, burst, m + 1) && m < MAX_OUTSTANDING && BusyCall(gap, burst, m).now < NONCE_TTL
    ensures var w := Arrived(gap, burst, m);
            && Indexed(w.calls) && Verdicts(el, w.calls)[m] && w.calls[m].now == w.clock
            && Name(m) !in w.owner && m !in w.owner.Values && Sweep(w.table, w.clock) == w.table && |w.table| == m
  {
    BusyVerdict(el, gap, burst, m);
    BusyTableIsFresh(gap, burst, m, BusyCall(gap, burst, m).now);
  }

  lemma DeskSnoc(gap: real, burst: int, m: nat)
    ensures var w := Arrived(gap, burst, m);
            BusyDesk(gap, burst, m + 1)
            == w.(table := w.table[Name(m) := w.clock + NONCE_TTL], owner := w.owner[Name(m) := m])
  {
  }

  lemma BusyAnswered(el: EnrollLimit, gap: real, burst: int, m: nat, w: Desk, w': Desk)
    requires Paced(BudgetOf(el), gap, burst, m + 1) && m < MAX_OUTSTANDING && BusyCall(gap, burst, m).now < NONCE_TTL
    requires w == Arrived(gap, burst, m) && w' == BusyDesk(gap, burst, m + 1)
    ensures Indexed(w.calls) && Next(el, 0.0, w, Hand(m, Name(m), w.clock)) == w'
  {
    BusyReady(el, gap, burst, m);
    DeskSnoc(gap, burst, m);
    HandStep(el, w, w', m, Name(m));
  }

  lemma RunTwo(el: EnrollLimit, delay: real, run: seq<Step>, a: Step, b: Step, w: Desk, w': Desk)
    requires Indexed(w.calls) && Next(el, delay, RunAll(el, delay, run), a) == w && Next(el, delay, w, b) == w'
    ensures RunAll(el, delay, run + [a] + [b]) == w'
  {
    assert (run + [a])[..|run|] == run;
    assert (run + [a] + [b])[..|run| + 1] == run + [a];
  }

  /** After n calls, each answered at once, the desk holds n nonces. */
  lemma {:induction false} BusyRunFills(el: EnrollLimit, gap: real, burst: int, n: nat, w: Desk)
    requires Paced(BudgetOf(el), gap, burst, n) && n <= MAX_OUTSTANDING && w == BusyDesk(gap, burst, n)
    requires n > 0 ==> BusyCall(gap, burst, n - 1).now < NONCE_TTL
    ensures RunAll(el, 0.0, BusyRun(gap, burst, n)) == w
  {
    if n > 0 {
      var m, c := n - 1, BusyCall(gap, burst, n - 1);
      BusyClock(gap, burst, m, if m == 0 then 0 else m - 1);
      BusyRunFills(el, gap, burst, m, BusyDesk(gap, burst, m));
      BusyArrives(el, gap, burst, m);
      BusyAnswered(el, gap, burst, m, Arrived(gap, burst, m), w);
      RunTwo(el, 0.0, BusyRun(gap, burst, m), Arrive(c.index, c.now), Hand(m, Name(m), c.now), Arrived(gap, burst, m), w);
    }
  }

  lemma GapOf(perMin: int) returns (gap: real)
    requires perMin > 0
    ensures gap > 0.0 && Flow(perMin as real / 60.0, gap) == 1.0
    ensures Flow(gap, (2 * perMin - 1) as real) < NONCE_TTL
  {
    var p := perMin as real;
    gap := 60.0 / p;
    assert gap * p == 60.0;
    assert (2.0 * p - 1.0) * gap == 2.0 * (gap * p) - gap;
  }

  lemma IssueWithinCap(t: Table, n: string, now: real)
    requires |t| <= MAX_OUTSTANDING
    ensures |IssueNonce(t, n, now).0| <= MAX_OUTSTANDING
  {
    SweepShrinks(t, now);
  }

  lemma {:induction false} TableWithinCap(el: EnrollLimit, delay: real, run: seq<Step>)
    ensures |RunAll(el, delay, run).table| <= MAX_OUTSTANDING
  {
    if run != [] {
      TableWithinCap(el, delay, run[..|run| - 1]);
      var w, step := RunAll(el, delay, run[..|run| - 1]), run[|run| - 1];
      if step.Hand? {
        IssueWithinCap(w.table, step.n, step.now);
      }
    }
  }

  lemma {:induction false} AtMostMostNonces(el: EnrollLimit, run: seq<Step>)
    ensures |RunAll(el, 0.0, run).table| <= MostNonces(el)
  {
    TableWithinCap(el, 0.0, run);
    OutstandingNoncesAreBounded(el, 0.0, run);
    assert TableBound(el, 0.0) == (Settled(el).globalBurst + 2 * Settled(el).globalPerMin) as real;
  }

  lemma {:induction false} BusyRunFor(el: EnrollLimit, n: nat) returns (busy: seq<Step>)
    requires 0 < n <= MAX_OUTSTANDING && n <= BUCKETS * Settled(el).clientBurst
    requires n < Settled(el).globalBurst + 2 * Settled(el).globalPerMin
    ensures |RunAll(el, 0.0, busy).table| == n
  {
    var burst, perMin := Settled(el).globalBurst, Settled(el).globalPerMin;
    var gap := GapOf(perMin);
    BusyClock(gap, burst, burst + 2 * perMin - 2, n - 1);
    BusyRunFills(el, gap, burst, n, BusyDesk(gap, burst, n));
    busy := BusyRun(gap, burst, n);
  }

  /** The exact maximum, for every budget whose client bursts add up to as many, as any client burst of
      four or more does: no run has more nonces outstanding, and some run has as many. */
  lemma {:induction false} MostNoncesIsReached(el: EnrollLimit) returns (busy: seq<Step>)
    requires MostNonces(el) <= BUCKETS * Settled(el).clientBurst
    ensures forall run :: |RunAll(el, 0.0, run).table| <= MostNonces(el)
    ensures |RunAll(el, 0.0, busy).table| == MostNonces(el)
  {
    forall run
      ensures |RunAll(el, 0.0, run).table| <= MostNonces(el)
    {
      AtMostMostNonces(el, run);
    }
    busy := BusyRunFor(el, MostNonces(el));
  }

  /** Under the default budget that is 599, not the 400 of the doc comment, which leaves out the burst. */
  lemma DefaultMostNonces() returns (busy: seq<Step>)
    ensures forall run :: |RunAll(DEFAULT_LIMIT, 0.0, run).table| <= 599
    ensures |RunAll(DEFAULT_LIMIT, 0.0, busy).table| == 599
  {
    busy := MostNoncesIsReached(DEFAULT_LIMIT);
  }
}
