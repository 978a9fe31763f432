/** Request-bound proofs and the two-generation replay cache behind them (internal/pop). Times are
    whole nanoseconds; a clock reading is never Go's zero time, which stands for "not rotated yet". */
module Replay {
  import opened Common
  import opened SigCtx

  // ---------------------------------------------------------------- the cache

  const SECOND := 1_000_000_000
  const DEFAULT_MAX_AGE := 30 * SECOND
  const DEFAULT_SKEW := 5 * SECOND
  const DEFAULT_CACHE_ENTRIES := 65536
  const MAX_JTI := 128

  datatype Cache = Cache(window: int, max: int, rotated: Option<int>, cur: set<string>, prev: set<string>)

  datatype Spent = Fresh | Replayed | CacheFull

  function NewCache(window: int, max: int): (c: Cache)
    ensures c.window > 0 && c.max > 0 && c.cur == {} && c.prev == {} && c.rotated.None?
  {
    Cache(if window <= 0 then DEFAULT_MAX_AGE + DEFAULT_SKEW else window,
          if max <= 0 then DEFAULT_CACHE_ENTRIES else max, None, {}, {})
  }

  function Rotate(c: Cache, now: int): Cache {
    if c.rotated.None? then c.(rotated := Some(now))
    else if now - c.rotated.value < c.window then c
    else if now - c.rotated.value >= 2 * c.window then c.(cur := {}, prev := {}, rotated := Some(now))
    else c.(cur := {}, prev := c.cur, rotated := Some(now))
  }

  function Use(c: Cache, jti: string, now: int): (Cache, Spent) {
    var r := Rotate(c, now);
    if jti in r.cur || jti in r.prev then (r, Replayed)
    else if |r.cur| + |r.prev| >= r.max then (r, CacheFull)
    else (r.(cur := r.cur + {jti}), Fresh)
  }

  class ReplayCache {
    const window: int
    const max: int
    var rotated: Option<int>
    var cur: set<string>
    var prev: set<string>

    function View(): Cache
      reads this
    {
      Cache(window, max, rotated, cur, prev)
    }

    constructor (window: int, max: int)
      ensures View() == NewCache(window, max)
    {
      this.window := if window <= 0 then DEFAULT_MAX_AGE + DEFAULT_SKEW else window;
      this.max := if max <= 0 then DEFAULT_CACHE_ENTRIES else max;
      rotated, cur, prev := None, {}, {};
    }

    method RotateAt(now: int)
      modifies this
      ensures View() == Rotate(old(View()), now)
    {
      if rotated.None? {
        rotated := Some(now);
        return;
      }
      var elapsed := now - rotated.value;
      if elapsed < window {
        return;
      }
      if elapsed >= 2 * window {
        prev := {};
      } else {
        prev := cur;
      }
      cur := {};
      rotated := Some(now);
    }

    /** Records jti as spent, or reports why it cannot be. */
    method Spend(jti: string, now: int) returns (r: Spent)
      modifies this
      ensures (View(), r) == Use(old(View()), jti, now)
    {
      RotateAt(now);
      if jti in cur {
        return Replayed;
      }
      if jti in prev {
        return Replayed;
      }
      if |cur| + |prev| >= max {
        return CacheFull;
      }
      cur := cur + {jti};
      return Fresh;
    }
  }

  // ---------------------------------------------------------------- against a timestamped log

  /** When each jti was last accepted. Nothing is ever dropped from it: this is what an unbounded
      cache would remember. */
  type Log = map<string, int>

  /** How the two generations stand for the log at a given clock reading. */
  ghost predicate Stands(c: Cache, log: Log, clock: int) {
    && c.window > 0 && c.max > 0
    && c.cur !! c.prev && |c.cur| + |c.prev| <= c.max
    && (c.rotated.None? ==> log == map[] && c.cur == {} && c.prev == {})
    && (c.rotated.Some? ==>
          var r, w := c.rotated.value, c.window;
          && r <= clock
          && (forall j :: j in c.cur ==> j in log && r <= log[j] < r + w)
          && (forall j :: j in c.prev ==> j in log && r - 2 * w < log[j] < r)
          && (forall j :: j in log ==> log[j] <= clock && (j in c.cur || j in c.prev || log[j] + w < r)))
  }

  /** The greatest age at which an accepted jti may still be refused: two ticks short of three windows. */
  function LongestLife(window: int): int {
    3 * window - 2
  }

  function Record(log: Log, jti: string, now: int, s: Spent): Log {
    if s.Fresh? then log[jti := now] else log
  }

  lemma RotateStands(c: Cache, log: Log, clock: int, now: int)
    requires Stands(c, log, clock) && clock <= now
    ensures var c' := Rotate(c, now);
            Stands(c', log, now) && c'.rotated.Some? && c'.rotated.value <= now < c'.rotated.value + c.window
            && c'.window == c.window && c'.max == c.max
  {
  }

  lemma StandsLater(c: Cache, log: Log, clock: int, later: int)
    requires Stands(c, log, clock) && clock <= later
    ensures Stands(c, log, later)
  {
  }

  lemma InsertStands(c: Cache, log: Log, jti: string, now: int)
    requires Stands(c, log, now) && c.rotated.Some? && c.rotated.value <= now < c.rotated.value + c.window
    requires jti !in c.cur && jti !in c.prev && |c.cur| + |c.prev| < c.max
    ensures Stands(c.(cur := c.cur + {jti}), log[jti := now], now)
  {
  }

  lemma UseKeepsStanding(c: Cache, log: Log, clock: int, jti: string, now: int)
    requires Stands(c, log, clock) && clock <= now
    ensures var (c', s) := Use(c, jti, now);
            Stands(c', Record(log, jti, now, s), now) && c'.window == c.window && c'.max == c.max
  {
    RotateStands(c, log, clock, now);
    if Use(c, jti, now).1.Fresh? {
      InsertStands(Rotate(c, now), log, jti, now);
    }
  }

  /** One call reports every jti accepted within the last window, never one older than the longest
      life, and refuses for lack of room only when that many jtis are no older than that. */
  lemma UseAnswersLikeLog(c: Cache, log: Log, clock: int, jti: string, now: int)
    requires Stands(c, log, clock) && clock <= now
    ensures var s := Use(c, jti, now).1;
            && (jti in log && now <= log[jti] + c.window ==> s.Replayed?)
            && (s.Replayed? ==> jti in log && now <= log[jti] + LongestLife(c.window))
            && (s.CacheFull? ==> |set j | j in log && now <= log[j] + LongestLife(c.window)| >= c.max)
  {
    RotateStands(c, log, clock, now);
    var r := Rotate(c, now);
    if Use(c, jti, now).1.CacheFull? {
      var live := set j | j in log && now <= log[j] + LongestLife(c.window);
      assert r.cur + r.prev <= live;
      CardinalityMonotone(r.cur + r.prev, live);
      assert |r.cur + r.prev| == |r.cur| + |r.prev|;
    }
  }

  lemma {:induction false} CardinalityMonotone<T>(a: set<T>, b: set<T>)
    requires a <= b
    ensures |a| <= |b|
  {
    assert a + (b - a) == b;
    assert a !! (b - a);
  }

  datatype Call = Call(jti: string, now: int)

  ghost predicate Timely(calls: seq<Call>) {
    forall i, j :: 0 <= i <= j < |calls| ==> calls[i].now <= calls[j].now
  }

  function Serve(window: int, max: int, calls: seq<Call>): (Cache, Log) {
    if calls == [] then (NewCache(window, max), map[])
    else
      var (c, log) := Serve(window, max, calls[..|calls| - 1]);
      var call := calls[|calls| - 1];
      var (c', s) := Use(c, call.jti, call.now);
      (c', Record(log, call.jti, call.now, s))
  }

  lemma {:induction false} ServeStands(window: int, max: int, calls: seq<Call>, clock: int)
    requires Timely(calls) && (calls != [] ==> calls[|calls| - 1].now <= clock)
    ensures var (c, log) := Serve(window, max, calls);
            Stands(c, log, clock) && c.window == NewCache(window, max).window && c.max == NewCache(window, max).max
  {
    if calls != [] {
      var call := calls[|calls| - 1];
      ServeStands(window, max, calls[..|calls| - 1], call.now);
      var (c, log) := Serve(window, max, calls[..|calls| - 1]);
      UseKeepsStanding(c, log, call.now, call.jti, call.now);
    }
  }

  /** Over every run with a non-decreasing clock, the two generations answer like the timestamped
      log, up to the laziness of rotation: certain within one window, silent after the longest life,
      disjoint and within the cap throughout. */
  lemma CacheRefinesLog(window: int, max: int, calls: seq<Call>, jti: string, now: int)
    requires Timely(calls + [Call(jti, now)])
    ensures var (c, log) := Serve(window, max, calls);
            var (c', s) := Use(c, jti, now);
            && c'.cur !! c'.prev && |c'.cur| + |c'.prev| <= c'.max
            && (jti in log && now <= log[jti] + c.window ==> s.Replayed?)
            && (s.Replayed? ==> jti in log && now <= log[jti] + LongestLife(c.window))
            && (s.CacheFull? ==> |set j | j in log && now <= log[j] + LongestLife(c.window)| >= c.max)
  {
    var all := calls + [Call(jti, now)];
    assert forall i, j :: 0 <= i <= j < |calls| ==> calls[i] == all[i] && calls[j] == all[j];
    assert calls != [] ==> all[|calls| - 1].now <= all[|calls|].now;
    ServeStands(window, max, calls, now);
    var (c, log) := Serve(window, max, calls);
    UseKeepsStanding(c, log, now, jti, now);
    UseAnswersLikeLog(c, log, now, jti, now);
  }

  /** The bound of three windows is the true one, and the "at most two" of the doc comment is not:
      for every window there is a run in which a jti is still refused at age 3 * window - 2. */
  lemma ThreeWindowsIsTight(w: int)
    requires w > 2
    ensures var calls := [Call("a", 0), Call("b", 2 * w - 1)];
            var (c, log) := Serve(w, 2, calls);
            && Timely(calls + [Call("a", 3 * w - 2)])
            && "a" in log && log["a"] == 0 && Use(c, "a", 3 * w - 2).1.Replayed? && 3 * w - 2 > 2 * w
  {
    var calls := [Call("a", 0), Call("b", 2 * w - 1)];
    assert calls[..1] == [Call("a", 0)] && [Call("a", 0)][..0] == [];
    assert Serve(w, 2, []) == (NewCache(w, 2), map[]);
    assert Serve(w, 2, calls[..1]) == (Cache(w, 2, Some(0), {"a"}, {}), map["a" := 0]);
    assert Serve(w, 2, calls).0 == Cache(w, 2, Some(2 * w - 1), {"b"}, {"a"});
  }

  // ---------------------------------------------------------------- how long an entry lives

  /** No two calls in a row are further apart than the gap. */
  ghost predicate Steady(calls: seq<Call>, gap: int) {
    Timely(calls) && forall i :: 0 < i < |calls| ==> calls[i].now <= calls[i - 1].now + gap
  }

  /** The greatest age of a refused jti where calls come at least every `gap`. */
  function LifeAt(window: int, gap: int): int {
    if gap < window then 2 * window - 2 + gap else LongestLife(window)
  }

  /** After a call at `last`: the generations are current, and the older one began no earlier than one
      window and one gap before the last rotation. */
  ghost predicate Paced(c: Cache, log: Log, last: int, gap: int) {
    c.rotated.Some? && c.rotated.value <= last < c.rotated.value + c.window
    && forall j :: j in c.prev ==> j in log && log[j] >= c.rotated.value - (c.window - 1 + gap)
  }

  lemma UseKeepsPace(c: Cache, log: Log, last: int, jti: string, now: int, gap: int)
    requires Stands(c, log, last) && last <= now && (c.rotated.Some? ==> Paced(c, log, last, gap) && now <= last + gap)
    ensures var (c', s) := Use(c, jti, now);
            && Paced(c', Record(log, jti, now, s), now, gap)
            && (s.Replayed? && gap > 0 ==> jti in log && now <= log[jti] + LifeAt(c.window, gap))
  {
    RotateStands(c, log, last, now);
  }

  lemma {:induction false} ServeIsPaced(window: int, max: int, calls: seq<Call>, gap: int)
    requires Steady(calls, gap) && calls != []
    ensures var (c, log) := Serve(window, max, calls); Paced(c, log, calls[|calls| - 1].now, gap)
  {
    var before, call := calls[..|calls| - 1], calls[|calls| - 1];
    var (c, log) := Serve(window, max, before);
    if before == [] {
      UseKeepsPace(c, log, call.now, call.jti, call.now, gap);
    } else {
      var last := before[|before| - 1].now;
      assert before[|before| - 1] == calls[|calls| - 2];
      ServeIsPaced(window, max, before, gap);
      ServeStands(window, max, before, last);
      UseKeepsPace(c, log, last, call.jti, call.now, gap);
    }
  }

  /** Steady traffic forgets sooner: with calls at most `gap` apart, no jti is refused at a greater age
      than two windows and the gap, less two ticks. */
  lemma SteadyCallsForgetSooner(window: int, max: int, calls: seq<Call>, jti: string, now: int, gap: int)
    requires gap > 0 && Steady(calls + [Call(jti, now)], gap)
    ensures var (c, log) := Serve(window, max, calls);
            Use(c, jti, now).1.Replayed? ==> jti in log && now <= log[jti] + LifeAt(c.window, gap)
  {
    var all := calls + [Call(jti, now)];
    if calls != [] {
      var last := calls[|calls| - 1].now;
      assert forall i :: 0 <= i < |calls| ==> calls[i] == all[i];
      assert all[|calls|].now <= all[|calls| - 1].now + gap && all[|calls| - 1].now <= all[|calls|].now;
      assert Steady(calls, gap);
      ServeIsPaced(window, max, calls, gap);
      ServeStands(window, max, calls, last);
      var (c, log) := Serve(window, max, calls);
      UseKeepsPace(c, log, last, jti, now, gap);
    }
  }

  /** A call on every tick but for one pause, which ends with the first rotation. */
  function PausedCall(w: int, pause: int, i: nat): Call {
    Call(if i == 0 then "a" else "b", if i < w then i else i - 1 + pause)
  }

  function PausedRun(w: int, pause: int, n: nat): (calls: seq<Call>)
    ensures |calls| == n && forall i :: 0 <= i < n ==> calls[i] == PausedCall(w, pause, i)
  {
    seq(n, i requires 0 <= i => PausedCall(w, pause, i))
  }

  /** Where the first jti stands after n calls of the paused run. */
  ghost predicate FirstKept(c: Cache, log: Log, w: int, pause: int, n: nat) {
    && c.window == w && "a" in log && log["a"] == 0
    && (n <= w ==> c.rotated == Some(0) && "a" in c.cur)
    && (n > w ==> c.rotated == Some(w - 1 + pause) && "a" in c.prev)
  }

  lemma PausedStep(c: Cache, log: Log, w: int, pause: int, n: nat)
    requires 0 < pause <= w && 0 < n < 2 * w - 1 && FirstKept(c, log, w, pause, n)
    ensures var call := PausedCall(w, pause, n);
            var (c', s) := Use(c, call.jti, call.now);
            FirstKept(c', Record(log, call.jti, call.now, s), w, pause, n + 1)
  {
  }

  lemma {:induction false} PausedRunKeepsFirst(w: int, pause: int, n: nat)
    requires 0 < pause <= w && 0 < n < 2 * w
    ensures var (c, log) := Serve(w, 2, PausedRun(w, pause, n)); FirstKept(c, log, w, pause, n)
  {
    var calls := PausedRun(w, pause, n);
    assert calls[..n - 1] == PausedRun(w, pause, n - 1);
    if n > 1 {
      PausedRunKeepsFirst(w, pause, n - 1);
      var (c, log) := Serve(w, 2, PausedRun(w, pause, n - 1));
      PausedStep(c, log, w, pause, n - 1);
    } else {
      assert Serve(w, 2, calls[..0]) == (NewCache(w, 2), map[]);
    }
  }

  lemma PausedRunIsSteady(w: int, pause: int, gap: int, calls: seq<Call>)
    requires 0 < pause <= w && pause <= gap && forall i :: 0 <= i < |calls| ==> calls[i].now == PausedCall(w, pause, i).now
    ensures Steady(calls, gap)
  {
  }

  lemma StillRefused(c: Cache, jti: string, now: int)
    requires c.rotated.Some? && c.window > 0
    requires var r := c.rotated.value; (jti in c.cur && r <= now < r + 2 * c.window) || (jti in c.prev && r <= now < r + c.window)
    ensures Use(c, jti, now).1.Replayed?
  {
  }

  lemma FirstStillRefused(c: Cache, log: Log, w: int, gap: int, pause: int)
    requires w > 0 && gap > 0 && pause == (if gap < w then gap else w) && FirstKept(c, log, w, pause, 2 * w - 1)
    ensures Use(c, "a", LifeAt(w, gap)).1.Replayed?
  {
    StillRefused(c, "a", LifeAt(w, gap));
  }

  /** And some run refuses a jti at exactly that age, for every window and every gap. */
  lemma LifeIsReached(w: int, gap: int) returns (calls: seq<Call>)
    requires w > 0 && gap > 0
    ensures Steady(calls + [Call("a", LifeAt(w, gap))], gap)
    ensures var (c, log) := Serve(w, 2, calls);
            c.window == w && "a" in log && log["a"] == 0 && Use(c, "a", LifeAt(w, gap)).1.Replayed?
  {
    var pause := if gap < w then gap else w;
    calls := PausedRun(w, pause, 2 * w - 1);
    PausedRunKeepsFirst(w, pause, 2 * w - 1);
    PausedRunIsSteady(w, pause, gap, calls + [Call("a", LifeAt(w, gap))]);
    var (c, log) := Serve(w, 2, calls);
    FirstStillRefused(c, log, w, gap, pause);
  }

  /** On every steady run, nothing is refused at an age of more than two windows. */
  ghost predicate TwoWindowsAtMost(w: int, gap: int) {
    forall max, calls, jti, now :: Steady(calls + [Call(jti, now)], gap) ==> NotRefusedLate(w, max, calls, jti, now)
  }

  ghost predicate NotRefusedLate(w: int, max: int, calls: seq<Call>, jti: string, now: int) {
    var (c, log) := Serve(w, max, calls);
    Use(c, jti, now).1.Replayed? ==> jti in log && now <= log[jti] + 2 * w
  }

  /** The doc comment's "at most two windows" holds exactly for traffic with gaps of up to two ticks. */
  lemma TwoWindowsExactly(w: int, gap: int)
    requires w > 2 && gap > 0
    ensures TwoWindowsAtMost(w, gap) <==> gap <= 2
  {
    if gap <= 2 {
      forall max, calls, jti, now | Steady(calls + [Call(jti, now)], gap)
        ensures NotRefusedLate(w, max, calls, jti, now)
      {
        SteadyCallsForgetSooner(w, max, calls, jti, now, gap);
        ServeWindow(w, max, calls);
      }
    } else {
      var calls := LifeIsReached(w, gap);
      assert !NotRefusedLate(w, 2, calls, "a", LifeAt(w, gap));
    }
  }

  lemma {:induction false} ServeWindow(w: int, max: int, calls: seq<Call>)
    requires w > 0
    ensures Serve(w, max, calls).0.window == w
  {
    if calls != [] {
      ServeWindow(w, max, calls[..|calls| - 1]);
    }
  }

  // ---------------------------------------------------------------- checking a proof

  /** The digest form of a token or a body; `Text` is a claim that is nobody's digest. */
  datatype Hash = Of(data: string) | Text(value: string)

  /** What a proof commits to; iat is in whole seconds. */
  datatype Binding = Binding(ath: Hash, bh: Hash, htm: string, htu: string, iat: int, jti: string)

  /** The signed bytes as they arrived: either they decode to claims or they do not. */
  datatype Payload = Claims(b: Binding) | NotClaims(bytes: seq<nat>)

  datatype Header = Missing | Unparsable(bytes: seq<nat>) | Proof(payload: Payload, sig: Signature<Payload>)

  datatype Request = Request(httpMethod: string, target: string, body: string, token: string)

  datatype Presentation = Presentation(pub: PublicKey, header: Header, req: Request, now: int)

  datatype Refusal =
    | NoProof | NoToken | MalformedProof | InvalidSignature | BadPayload
    | OtherMethod | OtherTarget | OtherToken | OtherBody | Stale | UnusableJti | Spent(why: Spent)

  /** A verifier's label and freshness window, as its options leave them. */
  datatype Policy = Policy(ctx: string, maxAge: int, skew: int, entries: int)

  ghost predicate Configured(v: Policy) {
    v.maxAge > 0 && v.skew >= 0
  }

  /** Everything `Check` decides before it touches the replay cache, in the source's order. */
  function Examine(v: Policy, p: Presentation): Result<string, Refusal> {
    if p.header.Missing? then Err(NoProof)
    else if p.req.token == "" then Err(NoToken)
    else if p.header.Unparsable? then Err(MalformedProof)
    else if !Verify(v.ctx, p.pub, p.header.payload, p.header.sig) then Err(InvalidSignature)
    else if p.header.payload.NotClaims? then Err(BadPayload)
    else
      var b := p.header.payload.b;
      if b.htm != p.req.httpMethod then Err(OtherMethod)
      else if b.htu != p.req.target then Err(OtherTarget)
      else if b.ath != Of(p.req.token) then Err(OtherToken)
      else if b.bh != Of(p.req.body) then Err(OtherBody)
      else if b.iat == 0 then Err(Stale)
      else if b.iat * SECOND > p.now + v.skew then Err(Stale)
      else if p.now - b.iat * SECOND > v.maxAge then Err(Stale)
      else if |b.jti| == 0 || |b.jti| > MAX_JTI then Err(UnusableJti)
      else Ok(b.jti)
  }

  /** A proof as it should be: signed under this label by this key, over this method, target, token and
      body, made no longer ago than the window allows nor further ahead than the skew, with a usable jti. */
  ghost predicate GoodProof(v: Policy, p: Presentation) {
    && p.header.Proof? && p.header.payload.Claims? && p.pub.Key?
    && p.header.sig == Sig(v.ctx, p.pub.id, p.header.payload)
    && var b := p.header.payload.b;
       && p.req.token != "" && b.ath == Of(p.req.token) && b.bh == Of(p.req.body)
       && b.htm == p.req.httpMethod && b.htu == p.req.target
       && b.iat != 0 && p.now - v.maxAge <= b.iat * SECOND <= p.now + v.skew
       && 0 < |b.jti| <= MAX_JTI
  }

  lemma ExamineExactly(v: Policy, p: Presentation)
    ensures Examine(v, p).Ok? <==> GoodProof(v, p)
    ensures Examine(v, p).Ok? ==> Examine(v, p).value == p.header.payload.b.jti
  {
  }

  function Check(v: Policy, c: Cache, p: Presentation): (Cache, Option<Refusal>) {
    var e := Examine(v, p);
    if e.Err? then (c, Some(e.error))
    else
      var (c', s) := Use(c, e.value, p.now);
      (c', if s.Fresh? then None else Some(Spent(s)))
  }

  class ProofVerifier {
    const policy: Policy
    const cache: ReplayCache

    constructor (policy: Policy)
      ensures this.policy == policy && fresh(cache)
      ensures cache.View() == NewCache(policy.maxAge + policy.skew, policy.entries)
    {
      this.policy := policy;
      cache := new ReplayCache(policy.maxAge + policy.skew, policy.entries);
    }

    /** The cache is touched only by a proof that has passed everything else. */
    method CheckProof(p: Presentation) returns (r: Option<Refusal>)
      modifies cache
      ensures (cache.View(), r) == Check(policy, old(cache.View()), p)
    {
      var e := Examine(policy, p);
      if e.Err? {
        return Some(e.error);
      }
      var s := cache.Spend(e.value, p.now);
      return if s.Fresh? then None else Some(Spent(s));
    }
  }

  // ---------------------------------------------------------------- runs of checks

  ghost predicate InOrder(run: seq<Presentation>) {
    forall i, j :: 0 <= i <= j < |run| ==> run[i].now <= run[j].now
  }

  /** The cache after a run of presentations, and when each jti was last accepted. */
  function CheckAll(v: Policy, run: seq<Presentation>): (Cache, Log) {
    if run == [] then (NewCache(v.maxAge + v.skew, v.entries), map[])
    else
      var (c, log) := CheckAll(v, run[..|run| - 1]);
      var p := run[|run| - 1];
      var (c', r) := Check(v, c, p);
      (c', if r.None? then log[Examine(v, p).value := p.now] else log)
  }

  predicate Passes(v: Policy, run: seq<Presentation>, i: nat)
    requires i < |run|
  {
    Check(v, CheckAll(v, run[..i]).0, run[i]).1.None?
  }

  lemma {:induction false} CheckAllStands(v: Policy, run: seq<Presentation>, clock: int)
    requires Configured(v) && InOrder(run) && (run != [] ==> run[|run| - 1].now <= clock)
    ensures var (c, log) := CheckAll(v, run); Stands(c, log, clock) && c.window == v.maxAge + v.skew
  {
    if run != [] {
      var p := run[|run| - 1];
      CheckAllStands(v, run[..|run| - 1], p.now);
      var (c, log) := CheckAll(v, run[..|run| - 1]);
      var e := Examine(v, p);
      if e.Ok? {
        UseKeepsStanding(c, log, p.now, e.value, p.now);
      }
      var (c', log') := CheckAll(v, run);
      StandsLater(c', log', p.now, clock);
    }
  }

  lemma {:induction false} AcceptanceIsRemembered(v: Policy, run: seq<Presentation>, i: nat)
    requires Configured(v) && InOrder(run) && i < |run| && Passes(v, run, i)
    ensures var log := CheckAll(v, run).1;
            var h := run[i].header;
            h.Proof? && h.payload.Claims? && h.payload.b.jti in log && run[i].now <= log[h.payload.b.jti]
  {
    var last := |run| - 1;
    if i < last {
      assert run[..last][..i] == run[..i];
      AcceptanceIsRemembered(v, run[..last], i);
    }
  }

  /** At most once, on every run with a non-decreasing clock and whoever presents what: if two
      presentations with the same jti both pass, the second carries a later iat. So one signed
      payload passes once; and what passes is bound to its own method, target, token and body. */
  lemma AtMostOnce(v: Policy, run: seq<Presentation>, i: nat, j: nat)
    requires Configured(v) && InOrder(run) && i < j < |run| && Passes(v, run, i) && Passes(v, run, j)
    ensures run[i].header.Proof? && run[i].header.payload.Claims? && run[j].header.Proof? && run[j].header.payload.Claims?
    ensures var a, b := run[i].header.payload.b, run[j].header.payload.b;
            a.jti == b.jti ==> a.iat < b.iat && run[i].now + v.maxAge + v.skew < run[j].now
    ensures var b := run[j].header.payload.b;
            run[j].header.sig == Sig(v.ctx, run[j].pub.id, run[j].header.payload)
            && Request(b.htm, b.htu, run[j].req.body, run[j].req.token) == run[j].req
            && b.ath == Of(run[j].req.token) && b.bh == Of(run[j].req.body)
  {
    assert run[..j][..i] == run[..i];
    AcceptanceIsRemembered(v, run[..j], i);
    CheckAllStands(v, run[..j], run[j].now);
    var (c, log) := CheckAll(v, run[..j]);
    UseAnswersLikeLog(c, log, run[j].now, run[j].header.payload.b.jti, run[j].now);
  }

  /** Nothing but good proofs passes. */
  lemma OnlyGoodProofsPass(v: Policy, run: seq<Presentation>, j: nat)
    requires j < |run| && Passes(v, run, j)
    ensures GoodProof(v, run[j])
  {
    ExamineExactly(v, run[j]);
  }

  /** The log behind a run's cache is of the proofs that passed: when the last one with that jti did. */
  lemma {:induction false} LogIsOfPasses(v: Policy, run: seq<Presentation>, jti: string)
    ensures var log := CheckAll(v, run).1;
            jti in log ==> exists i :: 0 <= i < |run| && Passes(v, run, i) && GoodProof(v, run[i])
                                       && run[i].header.payload.b.jti == jti && run[i].now == log[jti]
  {
    if run != [] {
      var before, last := run[..|run| - 1], |run| - 1;
      LogIsOfPasses(v, before, jti);
      ExamineExactly(v, run[last]);
      var log := CheckAll(v, before).1;
      if jti in log {
        var i :| 0 <= i < |before| && Passes(v, before, i) && GoodProof(v, before[i])
                 && before[i].header.payload.b.jti == jti && before[i].now == log[jti];
        assert before[..i] == run[..i];
        assert Passes(v, run, i);
      }
      if Passes(v, run, last) {
        assert run[last].header.payload.b.jti == Examine(v, run[last]).value;
      }
    }
  }

  /** Honest traffic is let through: a well-formed, fresh proof whose jti was not accepted in the
      longest life of an entry passes unless the cache is at its cap. */
  lemma HonestProofPasses(v: Policy, run: seq<Presentation>, j: nat)
    requires Configured(v) && InOrder(run) && j < |run| && GoodProof(v, run[j])
    requires var (c, log) := CheckAll(v, run[..j]);
             var jti := run[j].header.payload.b.jti;
             && (jti in log ==> run[j].now > log[jti] + LongestLife(v.maxAge + v.skew))
             && |set k | k in log && run[j].now <= log[k] + LongestLife(v.maxAge + v.skew)| < c.max
    ensures Passes(v, run, j)
  {
    ExamineExactly(v, run[j]);
    CheckAllStands(v, run[..j], run[j].now);
    var (c, log) := CheckAll(v, run[..j]);
    UseAnswersLikeLog(c, log, run[j].now, run[j].header.payload.b.jti, run[j].now);
  }
}
