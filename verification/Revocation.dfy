/** The kill-switch: replicas answering from snapshots of one shared source
    (revoke/cached.go, revoke/revoke.go). Times are integers on one clock. */
module Revocation {
  import opened Common

  // ---------------------------------------------------------------- one replica

  /** The identities a request is checked under, in the order the stage asks. */
  datatype Subject = Subject(principal: Option<string>, agent: Option<(string, string)>)

  function IdsOf(s: Subject): seq<string> {
    (if s.principal.Some? then [s.principal.value] else [])
    + (if s.agent.None? then []
       else [s.agent.value.0] + if s.agent.value.1 != "" then [s.agent.value.1] else [])
  }

  /** A revocation of this id concerns the subject: it is its principal, its agent, or the blueprint the
      agent was made from, if there is one. */
  predicate Concerns(s: Subject, id: string) {
    || s.principal == Some(id)
    || (s.agent.Some? && (s.agent.value.0 == id || (s.agent.value.1 == id && id != "")))
  }

  /** A non-positive bound switches the freshness check off. */
  predicate Fresh(maxStale: int, lastOK: int, now: int) {
    maxStale <= 0 || now - lastOK <= maxStale
  }

  datatype StageError = StaleSnapshot | Revoked(id: string)

  const DEFAULT_MAX_STALENESS := 60

  class CachedStore {
    const maxStale: int
    var snapshot: set<string>
    var lastOK: int
    var fails: nat

    constructor (maxStale: int, ids: seq<string>, now: int)
      ensures this.maxStale == maxStale && lastOK == now && fails == 0
      ensures snapshot == set id | id in ids
    {
      this.maxStale := maxStale;
      snapshot, lastOK, fails := (set id | id in ids), now, 0;
    }

    /** Installs a successful listing with its stamp; a failed one changes nothing a check reads. */
    method Refresh(listing: Result<seq<string>, string>, now: int) returns (ok: bool)
      modifies this
      ensures ok == listing.Ok?
      ensures ok ==> snapshot == (set id | id in listing.value) && lastOK == now && fails == 0
      ensures !ok ==> snapshot == old(snapshot) && lastOK == old(lastOK) && fails == old(fails) + 1
    {
      if listing.Err? {
        fails := fails + 1;
        return false;
      }
      var m: set<string> := {};
      for i := 0 to |listing.value|
        invariant m == set id | id in listing.value[..i]
        invariant unchanged(this)
      {
        m := m + {listing.value[i]};
      }
      assert listing.value[..|listing.value|] == listing.value;
      snapshot, lastOK, fails := m, now, 0;
      return true;
    }

    /** Freshness first, then principal, agent and blueprint: passes exactly if the snapshot is fresh
        and lists none of them. */
    method Stage(s: Subject, now: int) returns (e: Option<StageError>)
      ensures e.None? <==> (maxStale > 0 ==> now - lastOK <= maxStale) && forall id :: Concerns(s, id) ==> id !in snapshot
      ensures e == Some(StaleSnapshot) <==> maxStale > 0 && now - lastOK > maxStale
      ensures e.Some? && e.value.Revoked? ==> Concerns(s, e.value.id) && e.value.id in snapshot
      ensures e.Some? && e.value.Revoked? && s.principal.Some? && s.principal.value in snapshot ==> Some(e.value.id) == s.principal
    {
      if maxStale > 0 && now - lastOK > maxStale {
        return Some(StaleSnapshot);
      }
      if s.principal.Some? && s.principal.value in snapshot {
        return Some(Revoked(s.principal.value));
      }
      if s.agent.Some? {
        var (id, blueprint) := s.agent.value;
        if id in snapshot {
          return Some(Revoked(id));
        }
        if blueprint != "" && blueprint in snapshot {
          return Some(Revoked(blueprint));
        }
      }
      return None;
    }
  }

  /** Starting fails with the first listing; otherwise the store holds that listing, and the default
      staleness bound applies where there is a background refresh and no bound was asked for. */
  method NewCachedStore(refresh: int, maxStale: Option<int>, listing: Result<seq<string>, string>, now: int)
    returns (r: Result<CachedStore, string>)
    ensures r.Ok? <==> listing.Ok?
    ensures r.Err? ==> r.error == listing.error
    ensures r.Ok? ==> && fresh(r.value) && r.value.snapshot == (set id | id in listing.value)
                      && r.value.lastOK == now && r.value.fails == 0
    ensures r.Ok? ==> r.value.maxStale == match maxStale
                                          case Some(d) => d
                                          case None => if refresh > 0 then DEFAULT_MAX_STALENESS else 0
  {
    if listing.Err? {
      return Err(listing.error);
    }
    var bound := if maxStale.Some? then maxStale.value else if refresh > 0 then DEFAULT_MAX_STALENESS else 0;
    var c := new CachedStore(bound, listing.value, now);
    return Ok(c);
  }

  // ---------------------------------------------------------------- many replicas, one source

  /** A refresh reads the source, then reads the clock, then installs both. */
  datatype Refreshing = Idle | Listed(ids: set<string>, readAt: int) | Stamped(ids: set<string>, readAt: int, stamp: int)

  /** `readAt` is when the installed snapshot was read from the source; the code keeps only lastOK. */
  datatype Replica = Replica(serving: bool, snapshot: set<string>, lastOK: int, readAt: int, refreshing: Refreshing)

  /** A request inside the stage of one replica: judged fresh at some clock reading, then looking up
      one id after the other. */
  datatype Request = Request(replica: nat, judgedAt: int, subject: Subject, ids: seq<string>, next: nat, denied: bool)

  /** The source maps each revoked id to the moment from which it has been there without a break. */
  datatype System = System(clock: int, source: map<string, int>, replicas: map<nat, Replica>, requests: map<nat, Request>)

  datatype Step =
    | Tick(time: int)
    | RevokeIds(ids: set<string>)
    | RestoreIds(ids: set<string>)
    | BeginRefresh(r: nat)
    | FailRefresh(r: nat)
    | StampRefresh(r: nat)
    | InstallRefresh(r: nat)
    | Judge(q: nat, r: nat, subject: Subject, reading: int)
    | Lookup(q: nat)

  const EMPTY := System(0, map[], map[], map[])

  /** The staleness bound of every replica, and a bound on the delay from reading the source to
      reading the clock. */
  datatype Bounds = Bounds(maxStale: int, listDelay: int)

  /** A step that is not enabled does not happen, and a refresh whose listing fails changes nothing a
      check reads. A clock reading used to judge freshness may be old by
      the time it is compared. */
  function Next(b: Bounds, s: System, step: Step): System {
    match step
    case Tick(t) => if t >= s.clock then s.(clock := t) else s
    case RevokeIds(ids) =>
      s.(source := map id | id in s.source.Keys + ids :: if id in s.source then s.source[id] else s.clock)
    case RestoreIds(ids) => s.(source := s.source - ids)
    case BeginRefresh(r) =>
      var listed := Listed(s.source.Keys, s.clock);
      if r !in s.replicas then s.(replicas := s.replicas[r := Replica(false, {}, 0, 0, listed)])
      else if s.replicas[r].refreshing.Idle? then s.(replicas := s.replicas[r := s.replicas[r].(refreshing := listed)])
      else s
    case FailRefresh(_) => s
    case StampRefresh(r) =>
      if r in s.replicas && s.replicas[r].refreshing.Listed? && s.clock <= s.replicas[r].refreshing.readAt + b.listDelay
      then
        var f := s.replicas[r].refreshing;
        s.(replicas := s.replicas[r := s.replicas[r].(refreshing := Stamped(f.ids, f.readAt, s.clock))])
      else s
    case InstallRefresh(r) =>
      if r in s.replicas && s.replicas[r].refreshing.Stamped? then
        var f := s.replicas[r].refreshing;
        s.(replicas := s.replicas[r := Replica(true, f.ids, f.stamp, f.readAt, Idle)])
      else s
    case Judge(q, r, subject, reading) =>
      if q !in s.requests && r in s.replicas && s.replicas[r].serving && reading <= s.clock
         && Fresh(b.maxStale, s.replicas[r].lastOK, reading)
      then s.(requests := s.requests[q := Request(r, reading, subject, IdsOf(subject), 0, false)]) else s
    case Lookup(q) =>
      if q in s.requests && !s.requests[q].denied && s.requests[q].next < |s.requests[q].ids|
         && s.requests[q].replica in s.replicas
      then
        var req := s.requests[q];
        if req.ids[req.next] in s.replicas[req.replica].snapshot then s.(requests := s.requests[q := req.(denied := true)])
        else s.(requests := s.requests[q := req.(next := req.next + 1)])
      else s
  }

  function RunAll(b: Bounds, run: seq<Step>): System {
    if run == [] then EMPTY else Next(b, RunAll(b, run[..|run| - 1]), run[|run| - 1])
  }

  /** The stage let the request through. */
  predicate Passed(req: Request) {
    !req.denied && req.next == |req.ids|
  }

  // ---------------------------------------------------------------- what every run keeps

  /** Everything that was in the source before the reading, and still is, is in the reading. */
  ghost predicate Covers(source: map<string, int>, ids: set<string>, readAt: int) {
    forall id :: id in source && source[id] < readAt ==> id in ids
  }

  ghost predicate ReplicaKept(b: Bounds, s: System, r: Replica) {
    && (r.serving ==> Covers(s.source, r.snapshot, r.readAt) && r.lastOK <= r.readAt + b.listDelay)
    && match r.refreshing
       case Idle => true
       case Listed(ids, readAt) => Covers(s.source, ids, readAt) && readAt <= s.clock && (r.serving ==> r.readAt <= readAt)
       case Stamped(ids, readAt, stamp) =>
         Covers(s.source, ids, readAt) && readAt <= s.clock && (r.serving ==> r.readAt <= readAt) && stamp <= readAt + b.listDelay
  }

  /** Ids already found clear cannot have been revoked long before the request was judged fresh. */
  ghost predicate RequestKept(b: Bounds, s: System, q: Request) {
    && q.judgedAt <= s.clock && q.next <= |q.ids| && q.ids == IdsOf(q.subject)
    && q.replica in s.replicas && s.replicas[q.replica].serving
    && q.judgedAt <= s.replicas[q.replica].readAt + b.listDelay + b.maxStale
    && forall k :: 0 <= k < q.next && q.ids[k] in s.source ==> q.judgedAt <= s.source[q.ids[k]] + b.listDelay + b.maxStale
  }

  ghost predicate Kept(b: Bounds, s: System) {
    && (forall id :: id in s.source ==> s.source[id] <= s.clock)
    && (forall r :: r in s.replicas ==> ReplicaKept(b, s, s.replicas[r]))
    && (forall r :: r in s.replicas && s.replicas[r].serving ==> s.replicas[r].readAt <= s.clock)
    && (forall q :: q in s.requests ==> RequestKept(b, s, s.requests[q]))
  }

  lemma SourceStep(b: Bounds, s: System, step: Step)
    requires Kept(b, s) && b.maxStale > 0 && b.listDelay >= 0
    requires step.Tick? || step.RevokeIds? || step.RestoreIds?
    ensures Kept(b, Next(b, s, step))
  {
  }

  lemma ReplaceReplica(b: Bounds, s: System, r: nat, rep: Replica)
    requires Kept(b, s) && ReplicaKept(b, s, rep) && (rep.serving ==> rep.readAt <= s.clock)
    requires r in s.replicas && s.replicas[r].serving ==> rep.serving && s.replicas[r].readAt <= rep.readAt
    ensures Kept(b, s.(replicas := s.replicas[r := rep]))
  {
  }

  lemma RefreshStep(b: Bounds, s: System, step: Step)
    requires Kept(b, s) && b.listDelay >= 0
    requires step.BeginRefresh? || step.FailRefresh? || step.StampRefresh? || step.InstallRefresh?
    ensures Kept(b, Next(b, s, step))
  {
    var s' := Next(b, s, step);
    if step.r in s.replicas {
      assert ReplicaKept(b, s, s.replicas[step.r]);
    }
    if step.r in s'.replicas {
      ReplaceReplica(b, s, step.r, s'.replicas[step.r]);
      assert s' == s.(replicas := s.replicas[step.r := s'.replicas[step.r]]);
    }
  }

  lemma ReplaceRequest(b: Bounds, s: System, q: nat, req: Request)
    requires Kept(b, s) && RequestKept(b, s, req)
    ensures Kept(b, s.(requests := s.requests[q := req]))
  {
  }

  lemma JudgedKept(b: Bounds, s: System, r: nat, subject: Subject, reading: int)
    requires Kept(b, s) && b.maxStale > 0 && reading <= s.clock
    requires r in s.replicas && s.replicas[r].serving && Fresh(b.maxStale, s.replicas[r].lastOK, reading)
    ensures RequestKept(b, s, Request(r, reading, subject, IdsOf(subject), 0, false))
  {
    assert ReplicaKept(b, s, s.replicas[r]);
  }

  lemma LookedUpKept(b: Bounds, s: System, q: nat)
    requires Kept(b, s) && b.maxStale > 0 && b.listDelay >= 0 && q in s.requests
    ensures var s' := Next(b, s, Lookup(q)); q in s'.requests && RequestKept(b, s, s'.requests[q])
  {
    assert RequestKept(b, s, s.requests[q]);
    assert ReplicaKept(b, s, s.replicas[s.requests[q].replica]);
  }

  lemma RequestStep(b: Bounds, s: System, step: Step)
    requires Kept(b, s) && b.maxStale > 0 && b.listDelay >= 0
    requires step.Judge? || step.Lookup?
    ensures Kept(b, Next(b, s, step))
  {
    var s' := Next(b, s, step);
    if s' != s {
      if step.Judge? {
        JudgedKept(b, s, step.r, step.subject, step.reading);
      } else {
        LookedUpKept(b, s, step.q);
      }
      ReplaceRequest(b, s, step.q, s'.requests[step.q]);
    }
  }

  lemma {:induction false} RunsKeep(b: Bounds, run: seq<Step>)
    requires b.maxStale > 0 && b.listDelay >= 0
    ensures Kept(b, RunAll(b, run))
  {
    if run != [] {
      RunsKeep(b, run[..|run| - 1]);
      var s, step := RunAll(b, run[..|run| - 1]), run[|run| - 1];
      if step.Tick? || step.RevokeIds? || step.RestoreIds? {
        SourceStep(b, s, step);
      } else if step.Judge? || step.Lookup? {
        RequestStep(b, s, step);
      } else {
        RefreshStep(b, s, step);
      }
    }
  }

  /** A request in the stage is one that somebody asked to judge, with that subject and that clock
      reading, at a replica then serving a snapshot fresh by that reading. */
  lemma {:induction false} RequestsAreAsked(b: Bounds, run: seq<Step>, q: nat)
    requires q in RunAll(b, run).requests
    ensures var req := RunAll(b, run).requests[q]; Judge(q, req.replica, req.subject, req.judgedAt) in run
  {
    var before, step := run[..|run| - 1], run[|run| - 1];
    assert run == before + [step];
    if q in RunAll(b, before).requests {
      RequestsAreAsked(b, before, q);
    }
  }

  lemma IdsConcern(s: Subject, id: string)
    ensures id in IdsOf(s) <==> Concerns(s, id)
  {
  }

  /** Bounded revocation lag, on every run of any number of replicas with failing refreshes: if a
      request was let through and its principal, its agent or its blueprint is in the source, where it
      has been since t, then the request was judged no later than t + listDelay + maxStale. */
  lemma BoundedLag(b: Bounds, run: seq<Step>, q: nat, id: string)
    requires b.maxStale > 0 && b.listDelay >= 0
    requires var s := RunAll(b, run);
             q in s.requests && Passed(s.requests[q]) && Concerns(s.requests[q].subject, id) && id in s.source
    ensures var s := RunAll(b, run);
            s.requests[q].judgedAt <= s.source[id] + b.listDelay + b.maxStale
  {
    RunsKeep(b, run);
    var s := RunAll(b, run);
    assert RequestKept(b, s, s.requests[q]);
    IdsConcern(s.requests[q].subject, id);
    var k :| 0 <= k < |s.requests[q].ids| && s.requests[q].ids[k] == id;
  }

  /** Step k put the id into the source, where it was not before, and no restore has taken it out since. */
  ghost predicate EnteredAt(b: Bounds, run: seq<Step>, id: string, k: nat) {
    RevokedSince(run, id, k) && id !in RunAll(b, run[..k]).source
  }

  lemma SourceAfter(b: Bounds, s: System, step: Step, id: string, s': System)
    requires s' == Next(b, s, step) && id in s'.source
    ensures id in s.source ==> s'.source[id] == s.source[id] && (step.RestoreIds? ==> id !in step.ids)
    ensures id !in s.source ==> step.RevokeIds? && id in step.ids && s'.source[id] == s.clock
  {
  }

  lemma StillEntered(b: Bounds, run: seq<Step>, id: string, k: nat)
    requires run != [] && EnteredAt(b, run[..|run| - 1], id, k)
    requires run[|run| - 1].RestoreIds? ==> id !in run[|run| - 1].ids
    ensures EnteredAt(b, run, id, k) && run[..|run| - 1][..k] == run[..k]
  {
    var before := run[..|run| - 1];
    assert before[..k] == run[..k] && forall l :: k <= l < |before| ==> run[l] == before[l];
  }

  /** And the moment the source keeps is the one of that step. */
  lemma {:induction false} SourceSince(b: Bounds, run: seq<Step>, id: string) returns (k: nat)
    requires id in RunAll(b, run).source
    ensures EnteredAt(b, run, id, k) && RunAll(b, run).source[id] == RunAll(b, run[..k]).clock
  {
    var before, step := run[..|run| - 1], run[|run| - 1];
    SourceAfter(b, RunAll(b, before), step, id, RunAll(b, run));
    if id in RunAll(b, before).source {
      k := SourceSince(b, before, id);
      StillEntered(b, run, id, k);
    } else {
      k := |run| - 1;
    }
  }

  /** Step k revoked the id, and no restore has taken it out since. */
  predicate RevokedSince(run: seq<Step>, id: string, k: nat) {
    && k < |run| && run[k].RevokeIds? && id in run[k].ids
    && forall l :: k < l < |run| && run[l].RestoreIds? ==> id !in run[l].ids
  }

  lemma {:induction false} StillRevoked(b: Bounds, run: seq<Step>, id: string, k: nat)
    requires RevokedSince(run, id, k)
    ensures id in RunAll(b, run).source
  {
    var before := run[..|run| - 1];
    if k < |before| {
      assert before[k] == run[k] && forall l :: k < l < |before| ==> before[l] == run[l];
      StillRevoked(b, before, id, k);
    }
  }

  /** What the source holds is what was revoked and not restored since. */
  lemma {:induction false} SourceIsAsked(b: Bounds, run: seq<Step>, id: string)
    ensures id in RunAll(b, run).source <==> exists k :: 0 <= k < |run| && RevokedSince(run, id, k)
  {
    if id in RunAll(b, run).source {
      var k := SourceSince(b, run, id);
      assert RevokedSince(run, id, k);
    }
    if k :| 0 <= k < |run| && RevokedSince(run, id, k) {
      StillRevoked(b, run, id, k);
    }
  }

  function Follow(b: Bounds, s: System, steps: seq<Step>): System
    decreases |steps|
  {
    if steps == [] then s else Follow(b, Next(b, s, steps[0]), steps[1..])
  }

  lemma {:induction false} FollowIsRun(b: Bounds, run: seq<Step>, steps: seq<Step>)
    ensures Follow(b, RunAll(b, run), steps) == RunAll(b, run + steps)
    decreases |steps|
  {
    if steps == [] {
      assert run + steps == run;
    } else {
      var run' := run + [steps[0]];
      assert run'[..|run|] == run;
      FollowIsRun(b, run', steps[1..]);
      assert run + steps == run' + steps[1..];
    }
  }

  /** The bound needs the freshness check: with it switched off, some run lets a request through any
      amount of time after its principal was revoked. */
  lemma NoBoundWithoutFreshness(b: Bounds, lag: int) returns (run: seq<Step>)
    requires b.maxStale <= 0 && b.listDelay >= 0 && lag >= 0
    ensures var s := RunAll(b, run);
            && 0 in s.requests && Passed(s.requests[0]) && s.requests[0].subject == Subject(Some("p"), None)
            && "p" in s.source && s.requests[0].judgedAt == s.source["p"] + lag
  {
    var who := Subject(Some("p"), None);
    var start := [BeginRefresh(0), StampRefresh(0), InstallRefresh(0)];
    var serving := System(0, map[], map[0 := Replica(true, {}, 0, 0, Idle)], map[]);
    assert Follow(b, EMPTY, start) == serving by {
      var s1 := System(0, map[], map[0 := Replica(false, {}, 0, 0, Listed({}, 0))], map[]);
      var s2 := System(0, map[], map[0 := Replica(false, {}, 0, 0, Stamped({}, 0, 0))], map[]);
      assert EMPTY.source.Keys == {};
      assert EMPTY.replicas[0 := s1.replicas[0]] == s1.replicas;
      assert Next(b, EMPTY, BeginRefresh(0)) == s1;
      assert Next(b, s1, StampRefresh(0)) == s2;
      assert Next(b, s2, InstallRefresh(0)) == serving;
      assert Follow(b, s2, [InstallRefresh(0)]) == serving;
      assert start[1..] == [StampRefresh(0), InstallRefresh(0)] && start[1..][1..] == [InstallRefresh(0)];
    }
    FollowIsRun(b, [], start);
    assert [] + start == start;
    var r1 := RevokedLater(b, serving, lag, who);
    FollowIsRun(b, start, r1);
    run := start + r1;
  }

  lemma RevokedLater(b: Bounds, serving: System, lag: int, who: Subject) returns (steps: seq<Step>)
    requires b.maxStale <= 0 && lag >= 0 && who == Subject(Some("p"), None)
    requires serving == System(0, map[], map[0 := Replica(true, {}, 0, 0, Idle)], map[])
    ensures var s := Follow(b, serving, steps);
            && 0 in s.requests && Passed(s.requests[0]) && s.requests[0].subject == Subject(Some("p"), None)
            && "p" in s.source && s.requests[0].judgedAt == s.source["p"] + lag
  {
    steps := [RevokeIds({"p"}), Tick(lag), Judge(0, 0, who, lag), Lookup(0)];
    var s1 := serving.(source := map["p" := 0]);
    var s2 := s1.(clock := lag);
    var s3 := s2.(requests := map[0 := Request(0, lag, who, ["p"], 0, false)]);
    var s4 := s2.(requests := map[0 := Request(0, lag, who, ["p"], 1, false)]);
    assert Next(b, serving, steps[0]) == s1;
    assert Next(b, s1, steps[1]) == s2;
    assert IdsOf(who) == ["p"];
    assert s2.requests[0 := s3.requests[0]] == s3.requests;
    assert Next(b, s2, steps[2]) == s3;
    assert Next(b, s3, steps[3]) == s4;
    assert Follow(b, s3, [Lookup(0)]) == s4;
    assert steps[1..][1..][1..] == [Lookup(0)];
    assert Follow(b, s2, steps[1..][1..]) == s4;
    assert Follow(b, s1, steps[1..]) == s4;
  }

  function Lookups(q: nat, n: nat): (steps: seq<Step>)
    ensures |steps| == n
  {
    if n == 0 then [] else [Lookup(q)] + Lookups(q, n - 1)
  }

  lemma {:induction false} LookupsPass(b: Bounds, s: System, q: nat, n: nat)
    requires q in s.requests && s.requests[q].replica in s.replicas && !s.requests[q].denied
    requires var req := s.requests[q];
             && n == |req.ids| - req.next && req.next <= |req.ids|
             && forall k :: 0 <= k < |req.ids| ==> req.ids[k] !in s.replicas[req.replica].snapshot
    ensures var s' := Follow(b, s, Lookups(q, n));
            q in s'.requests && Passed(s'.requests[q]) && s'.requests[q].subject == s.requests[q].subject
    decreases n
  {
    if n > 0 {
      var steps := Lookups(q, n);
      assert steps[0] == Lookup(q) && steps[1..] == Lookups(q, n - 1);
      var s' := Next(b, s, Lookup(q));
      LookupsPass(b, s', q, n - 1);
    }
  }

  /** And nobody is kept out for nothing: from any reachable state, a new request at a serving replica
      whose snapshot lists nothing that concerns its subject, and is fresh enough at the reading or need
      not be, is let through once its ids have been looked up. */
  lemma UnrevokedRequestPasses(b: Bounds, run: seq<Step>, q: nat, r: nat, subject: Subject, reading: int)
    requires var s := RunAll(b, run);
             && q !in s.requests && r in s.replicas && s.replicas[r].serving && reading <= s.clock
             && (b.maxStale > 0 ==> reading - s.replicas[r].lastOK <= b.maxStale)
             && forall id :: Concerns(subject, id) ==> id !in s.replicas[r].snapshot
    ensures var s' := RunAll(b, run + ([Judge(q, r, subject, reading)] + Lookups(q, |IdsOf(subject)|)));
            q in s'.requests && Passed(s'.requests[q]) && s'.requests[q].subject == subject
  {
    var s, step := RunAll(b, run), Judge(q, r, subject, reading);
    var steps := [step] + Lookups(q, |IdsOf(subject)|);
    forall k | 0 <= k < |IdsOf(subject)|
      ensures IdsOf(subject)[k] !in s.replicas[r].snapshot
    {
      IdsConcern(subject, IdsOf(subject)[k]);
    }
    assert steps[0] == step && steps[1..] == Lookups(q, |IdsOf(subject)|);
    LookupsPass(b, Next(b, s, step), q, |IdsOf(subject)|);
    FollowIsRun(b, run, steps);
  }
}
