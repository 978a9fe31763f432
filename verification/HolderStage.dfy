/** The capability stage of the gateway (delegation/capability.go): an offline capability and a
    holder's proof bound to the very request. Capabilities are judged in whole seconds, proofs in
    nanoseconds. */
module HolderStage {
  import opened Common
  import opened SigCtx
  import opened Grants
  import Capability
  import Chain
  import Pipeline
  import Replay

  /** What the capability header holds. */
  datatype Raw = Absent | Undecodable | Decoded(c: Capability.Capability)

  /** A request as the stage sees it: its proof headers, whether it carries a body nobody buffered,
      the request a proof must be bound to, and the two clock readings the stage makes. */
  datatype Call = Call(
    principal: Option<string>, http: bool, raw: Raw, unbufferedBody: bool, proofs: seq<Replay.Header>,
    req: Replay.Request, target: string, now: int, clock: int)

  datatype Config = Config(root: PublicKey, requireChain: bool, limit: int, policy: Replay.Policy)

  datatype StageError =
    | NoPrincipal | NoRequest | CapabilityRequired | BadCapability | TooDeep | CapabilityRefused | UncoveredBody
    | NotOneProof(found: nat) | ProofRefused(why: Replay.Refusal) | ServerNotGranted

  /** Acting directly leaves the scope alone; otherwise the scope is the effective grant's. */
  datatype Outcome = Direct | Under(scope: Pipeline.Scope)

  // ---------------------------------------------------------------- one request

  ghost predicate CapabilityHolds(cfg: Config, p: Call) {
    p.raw.Decoded? && |p.raw.c.blocks| <= Chain.MAX_DEPTH && Capability.Accepted(p.raw.c, cfg.root, p.now, cfg.limit)
  }

  /** The request gets as far as its proof. */
  ghost predicate ReachesProof(cfg: Config, p: Call) {
    p.principal.Some? && p.http && CapabilityHolds(cfg, p) && !p.unbufferedBody && |p.proofs| == 1
  }

  function Effective(p: Call): Grant
    requires p.raw.Decoded? && p.raw.c.blocks != []
  {
    p.raw.c.blocks[|p.raw.c.blocks| - 1].grant
  }

  /** The proof is checked against the capability's last key. */
  function Presented(p: Call): Replay.Presentation
    requires p.raw.Decoded? && p.raw.c.blocks != [] && |p.proofs| == 1
  {
    Replay.Presentation(p.raw.c.blocks[|p.raw.c.blocks| - 1].next, p.proofs[0], p.req, p.clock)
  }

  ghost function CacheAfter(cfg: Config, cache: Replay.Cache, p: Call): Replay.Cache {
    if ReachesProof(cfg, p) then Replay.Check(cfg.policy, cache, Presented(p)).0 else cache
  }

  /** The request passes under its capability. */
  ghost predicate PassesUnder(cfg: Config, cache: Replay.Cache, p: Call) {
    && ReachesProof(cfg, p) && Replay.Check(cfg.policy, cache, Presented(p)).1.None?
    && Pipeline.ServerGranted(Effective(p), p.target)
  }

  class CapabilityStage {
    const root: PublicKey
    const requireChain: bool
    const limit: int
    const verifier: Replay.ProofVerifier

    function Settings(): Config {
      Config(root, requireChain, limit, verifier.policy)
    }

    constructor (cfg: Config)
      ensures Settings() == cfg && fresh(verifier) && fresh(verifier.cache)
      ensures verifier.cache.View() == Replay.NewCache(cfg.policy.maxAge + cfg.policy.skew, cfg.policy.entries)
    {
      root, requireChain, limit := cfg.root, cfg.requireChain, cfg.limit;
      verifier := new Replay.ProofVerifier(cfg.policy);
    }

    /** Lets a request through under its capability, or directly where none is presented and none
        required; a proof is spent only by a request that got that far. */
    method Handle(p: Call) returns (r: Result<Outcome, StageError>)
      modifies verifier.cache
      ensures verifier.cache.View() == CacheAfter(Settings(), old(verifier.cache.View()), p)
      ensures r.Ok? && r.value.Under? <==> PassesUnder(Settings(), old(verifier.cache.View()), p)
      ensures r.Ok? && r.value.Under? ==> r.value.scope == Pipeline.Scope(Effective(p).tools, Effective(p).budget)
      ensures r == Ok(Direct) <==> p.principal.Some? && p.http && p.raw.Absent? && !requireChain
      ensures r.Err? && (r.error.ProofRefused? || r.error.ServerNotGranted?) <==>
                ReachesProof(Settings(), p) && !PassesUnder(Settings(), old(verifier.cache.View()), p)
      ensures r.Err? && r.error.ProofRefused? ==>
                Replay.Check(verifier.policy, old(verifier.cache.View()), Presented(p)).1 == Some(r.error.why)
    {
      if p.principal.None? {
        return Err(NoPrincipal);
      }
      if !p.http {
        return Err(NoRequest);
      }
      if p.raw.Absent? {
        if requireChain {
          return Err(CapabilityRequired);
        }
        return Ok(Direct);
      }
      if p.raw.Undecodable? {
        return Err(BadCapability);
      }
      var c := p.raw.c;
      if |c.blocks| > Chain.MAX_DEPTH {
        return Err(TooDeep);
      }
      var grant := Capability.VerifyCapability(c, root, p.now, limit);
      if grant.Err? {
        return Err(CapabilityRefused);
      }
      if p.unbufferedBody {
        return Err(UncoveredBody);
      }
      if |p.proofs| != 1 {
        return Err(NotOneProof(|p.proofs|));
      }
      var refusal := verifier.CheckProof(Presented(p));
      if refusal.Some? {
        return Err(ProofRefused(refusal.value));
      }
      var covered := Pipeline.CheckServer(grant.value, p.target);
      if !covered {
        return Err(ServerNotGranted);
      }
      return Ok(Under(Pipeline.Scope(grant.value.tools, grant.value.budget)));
    }
  }

  // ---------------------------------------------------------------- runs

  ghost function CacheOf(cfg: Config, run: seq<Call>): Replay.Cache {
    if run == [] then Replay.NewCache(cfg.policy.maxAge + cfg.policy.skew, cfg.policy.entries)
    else CacheAfter(cfg, CacheOf(cfg, run[..|run| - 1]), run[|run| - 1])
  }

  /** Request i of a run passes under its capability. */
  ghost predicate Passes(cfg: Config, run: seq<Call>, i: nat)
    requires i < |run|
  {
    PassesUnder(cfg, CacheOf(cfg, run[..i]), run[i])
  }

  ghost predicate InOrder(run: seq<Call>) {
    forall i, j :: 0 <= i <= j < |run| ==> run[i].clock <= run[j].clock
  }

  /** The proofs that reached the verifier, in order. */
  ghost function Reached(cfg: Config, run: seq<Call>): seq<Replay.Presentation> {
    if run == [] then []
    else
      var before, p := Reached(cfg, run[..|run| - 1]), run[|run| - 1];
      if ReachesProof(cfg, p) then before + [Presented(p)] else before
  }

  lemma {:induction false} CacheIsVerifiers(cfg: Config, run: seq<Call>)
    ensures CacheOf(cfg, run) == Replay.CheckAll(cfg.policy, Reached(cfg, run)).0
  {
    if run != [] {
      var before := run[..|run| - 1];
      CacheIsVerifiers(cfg, before);
      if ReachesProof(cfg, run[|run| - 1]) {
        var all := Reached(cfg, run);
        assert all[..|all| - 1] == Reached(cfg, before);
      }
    }
  }

  lemma {:induction false} ReachedGrows(cfg: Config, run: seq<Call>, n: nat)
    requires n <= |run|
    ensures Reached(cfg, run[..n]) <= Reached(cfg, run)
  {
    if n == |run| {
      assert run[..n] == run;
    } else {
      ReachedGrows(cfg, run[..|run| - 1], n);
      assert run[..|run| - 1][..n] == run[..n];
    }
  }

  lemma {:induction false} ReachedInOrder(cfg: Config, run: seq<Call>, clock: int)
    requires InOrder(run) && (run != [] ==> run[|run| - 1].clock <= clock)
    ensures Replay.InOrder(Reached(cfg, run))
    ensures forall k :: 0 <= k < |Reached(cfg, run)| ==> Reached(cfg, run)[k].now <= clock
  {
    if run != [] {
      ReachedInOrder(cfg, run[..|run| - 1], run[|run| - 1].clock);
    }
  }

  /** A request that passes is a proof that passes, at its place among those that reached the verifier. */
  lemma PassIsPass(cfg: Config, run: seq<Call>, i: nat)
    requires i < |run| && Passes(cfg, run, i)
    ensures var all, k := Reached(cfg, run), |Reached(cfg, run[..i])|;
            && k < |all| && all[k] == Presented(run[i]) && Replay.Passes(cfg.policy, all, k)
            && k < |Reached(cfg, run[..i + 1])|
  {
    var k := |Reached(cfg, run[..i])|;
    assert run[..i + 1][..i] == run[..i];
    ReachedGrows(cfg, run, i + 1);
    ReachedGrows(cfg, run, i);
    assert Reached(cfg, run)[..k] == Reached(cfg, run[..i]);
    CacheIsVerifiers(cfg, run[..i]);
  }

  /** What a proof that passed was made over. */
  function PayloadOf(p: Call): Option<Replay.Payload> {
    if |p.proofs| == 1 && p.proofs[0].Proof? then Some(p.proofs[0].payload) else None
  }

  /** Every signed payload lets at most one request of a run through, whatever the requests, the
      capabilities and whoever sends them. */
  lemma OneRequestPerProof(cfg: Config, run: seq<Call>, i: nat, j: nat)
    requires Replay.Configured(cfg.policy) && InOrder(run) && i < j < |run| && Passes(cfg, run, i) && Passes(cfg, run, j)
    ensures PayloadOf(run[i]).Some? && PayloadOf(run[j]).Some? && PayloadOf(run[i]) != PayloadOf(run[j])
  {
    PassIsPass(cfg, run, i);
    PassIsPass(cfg, run, j);
    ReachedInOrder(cfg, run, run[|run| - 1].clock);
    ReachedGrows(cfg, run[..j], i + 1);
    assert run[..j][..i + 1] == run[..i + 1];
    Replay.AtMostOnce(cfg.policy, Reached(cfg, run), |Reached(cfg, run[..i])|, |Reached(cfg, run[..j])|);
  }

  /** The holder of a capability a run returned gets through with it: unexpired, within the ceiling, for
      a server its grant names, with one good proof by the holder's key over this request, whose jti no
      proof that passed within the longest life of a cache entry has had, and below the cache's cap. */
  lemma {:induction false} HonestHolderPasses(cfg: Config, rootKey: nat, ops: seq<Capability.Op>, i: nat, run: seq<Call>, j: nat)
    requires cfg.root == Key(rootKey) && Replay.Configured(cfg.policy) && InOrder(run) && j < |run|
    requires i < |Capability.Issued(rootKey, ops)| && run[j].raw == Decoded(Capability.Issued(rootKey, ops)[i])
    requires var p, c := run[j], run[j].raw.c;
             && p.principal.Some? && p.http && !p.unbufferedBody && |p.proofs| == 1
             && |c.blocks| <= cfg.limit && Capability.Unexpired(c.blocks, p.now)
             && Replay.GoodProof(cfg.policy, Replay.Presentation(Key(Capability.Holder(c)), p.proofs[0], p.req, p.clock))
    requires run[j].raw.c.blocks != [] ==>
               var servers := Effective(run[j]).servers; servers == [] || (run[j].target != "" && run[j].target in servers)
    requires var (cache, log) := Replay.CheckAll(cfg.policy, Reached(cfg, run[..j]));
             var life, jti := Replay.LongestLife(cfg.policy.maxAge + cfg.policy.skew), run[j].proofs[0].payload.b.jti;
             && (jti in log ==> run[j].clock > log[jti] + life)
             && |set k | k in log && run[j].clock <= log[k] + life| < cache.max
    ensures Passes(cfg, run, j)
  {
    var p, before := run[j], Reached(cfg, run[..j]);
    Capability.IssuedAreWellMade(rootKey, ops);
    assert Capability.SignedAt(p.raw.c.blocks, Key(rootKey), |p.raw.c.blocks| - 1);
    assert ReachesProof(cfg, p);
    CacheIsVerifiers(cfg, run[..j]);
    ReachedInOrder(cfg, run[..j], p.clock);
    var all := before + [Presented(p)];
    assert all[..|before|] == before;
    Replay.HonestProofPasses(cfg.policy, all, |before|);
  }

  // ---------------------------------------------------------------- who can get through

  /** The payloads that holders signed for requests of their own. */
  type Spoken = set<(nat, Replay.Payload)>

  /** What someone who saw every capability and every proof go by, and holds the secrets in `stolen`,
      can put into a proof header. */
  ghost predicate ProofAvailable(spoken: Spoken, stolen: set<nat>, h: Replay.Header) {
    h.Proof? && h.sig.Sig? ==> h.sig.signer in stolen || (h.sig.signer, h.sig.msg) in spoken
  }

  ghost predicate Sendable(p: Call, issued: seq<Capability.Capability>, spoken: Spoken, stolen: set<nat>) {
    && (p.raw.Decoded? ==> Capability.Assembled(p.raw.c, issued, stolen))
    && forall i :: 0 <= i < |p.proofs| ==> ProofAvailable(spoken, stolen, p.proofs[i])
  }

  /** The proof of a request that passes carries the last key's signature over this very request. */
  lemma PassingProof(cfg: Config, cache: Replay.Cache, p: Call)
    requires PassesUnder(cfg, cache, p)
    ensures PayloadOf(p).Some? && PayloadOf(p).value.Claims?
    ensures var c, payload := p.raw.c, PayloadOf(p).value;
            && c.blocks != [] && c.blocks[|c.blocks| - 1].next.Key?
            && p.proofs[0].sig == Sig(cfg.policy.ctx, Capability.Holder(c), payload)
            && Replay.Request(payload.b.htm, payload.b.htu, p.req.body, p.req.token) == p.req
            && payload.b.ath == Replay.Of(p.req.token) && payload.b.bh == Replay.Of(p.req.body)
  {
  }

  /** A capability that verifies and whose last holder kept their secret is one the run returned. */
  lemma UnstolenIsReturned(c: Capability.Capability, rootKey: nat, ops: seq<Capability.Op>, stolen: set<nat>,
                           now: int, limit: int)
    requires Capability.Assembled(c, Capability.Issued(rootKey, ops), stolen)
    requires Capability.Accepted(c, Key(rootKey), now, limit)
    requires Capability.Holder(c) !in stolen
    ensures Capability.Returned(c, rootKey, ops)
  {
    var last := c.blocks[|c.blocks| - 1];
    assert c.seal == Sig(CAPABILITY_SEAL, last.next.id, Capability.SealMsg(Key(rootKey), |c.blocks|, last.sig));
    assert Capability.Holder(c) == last.next.id;
    var i := Capability.KnownSeal(c, rootKey, ops);
  }

  /** The holder whose proof a request carries, and what they signed. */
  function TagOf(p: Call): (nat, Replay.Payload) {
    (if p.raw.Decoded? then Capability.Holder(p.raw.c) else 0,
     if PayloadOf(p).Some? then PayloadOf(p).value else Replay.NotClaims([]))
  }

  lemma {:induction false} GrantWasGivenOut(cfg: Config, rootKey: nat, ops: seq<Capability.Op>, stolen: set<nat>,
                                            cache: Replay.Cache, p: Call)
    returns (i: nat)
    requires cfg.root == Key(rootKey) && rootKey !in stolen && PassesUnder(cfg, cache, p)
    requires Capability.Assembled(p.raw.c, Capability.Issued(rootKey, ops), stolen)
    ensures i < |Capability.Issued(rootKey, ops)|
    ensures var r := Capability.Issued(rootKey, ops)[i];
            Capability.ComesFrom(p.raw.c, r, stolen) && Attenuates(p.raw.c.blocks[|r.blocks| - 1].grant, Effective(p))
  {
    i := Capability.Unforgeable(p.raw.c, rootKey, ops, stolen, p.now, cfg.limit);
  }

  /** Signed by this holder, over exactly this request. */
  ghost predicate SignedFor(p: Call, spoken: Spoken) {
    && TagOf(p) in spoken && TagOf(p).1.Claims?
    && var b := TagOf(p).1.b;
       && Replay.Request(b.htm, b.htu, p.req.body, p.req.token) == p.req
       && b.ath == Replay.Of(p.req.token) && b.bh == Replay.Of(p.req.body)
  }

  lemma {:induction false} HolderSigned(cfg: Config, rootKey: nat, ops: seq<Capability.Op>, spoken: Spoken, stolen: set<nat>,
                                        cache: Replay.Cache, p: Call)
    requires cfg.root == Key(rootKey) && PassesUnder(cfg, cache, p)
    requires Sendable(p, Capability.Issued(rootKey, ops), spoken, stolen) && Capability.Holder(p.raw.c) !in stolen
    ensures Capability.Returned(p.raw.c, rootKey, ops) && SignedFor(p, spoken)
  {
    PassingProof(cfg, cache, p);
    UnstolenIsReturned(p.raw.c, rootKey, ops, stolen, p.now, cfg.limit);
    assert ProofAvailable(spoken, stolen, p.proofs[0]);
  }

  /** Nobody gets through without a holder. Whatever is put together from the capabilities a run
      returned, the proofs their holders made and any stolen secrets: a request that passes under a
      capability is within a grant the run gave out and goes to a server it names; and unless the
      capability's last holder is one whose secret was stolen, the capability is one the run returned
      and that holder signed for exactly this method, target, token and body. */
  lemma {:induction false} NothingPassesWithoutHolder(cfg: Config, rootKey: nat, ops: seq<Capability.Op>, spoken: Spoken,
                                                      stolen: set<nat>, run: seq<Call>, j: nat) returns (i: nat)
    requires cfg.root == Key(rootKey) && rootKey !in stolen && j < |run| && Passes(cfg, run, j)
    requires Sendable(run[j], Capability.Issued(rootKey, ops), spoken, stolen)
    ensures i < |Capability.Issued(rootKey, ops)| && Pipeline.ServerGranted(Effective(run[j]), run[j].target)
    ensures var c, r := run[j].raw.c, Capability.Issued(rootKey, ops)[i];
            Capability.ComesFrom(c, r, stolen) && Attenuates(c.blocks[|r.blocks| - 1].grant, Effective(run[j]))
    ensures var c := run[j].raw.c;
            Capability.Holder(c) in stolen || (Capability.Returned(c, rootKey, ops) && SignedFor(run[j], spoken))
  {
    var cache := CacheOf(cfg, run[..j]);
    i := GrantWasGivenOut(cfg, rootKey, ops, stolen, cache, run[j]);
    if Capability.Holder(run[j].raw.c) !in stolen {
      HolderSigned(cfg, rootKey, ops, spoken, stolen, cache, run[j]);
    }
  }

  /** The requests of a run that pass on the strength of holders who kept their secrets. */
  ghost function Honest(cfg: Config, stolen: set<nat>, run: seq<Call>): set<nat> {
    set j: nat | j < |run| && Passes(cfg, run, j) && Capability.Holder(run[j].raw.c) !in stolen
  }

  lemma {:induction false} InjectionBound(passed: set<nat>, tag: map<nat, (nat, Replay.Payload)>, into: Spoken)
    requires passed <= tag.Keys && forall j :: j in passed ==> tag[j] in into
    requires forall i, j :: i in passed && j in passed && tag[i] == tag[j] ==> i == j
    ensures |passed| <= |into|
    decreases |passed|
  {
    if passed != {} {
      var j :| j in passed;
      InjectionBound(passed - {j}, tag, into - {tag[j]});
    }
  }

  lemma TagsDiffer(cfg: Config, run: seq<Call>, i: nat, j: nat)
    requires Replay.Configured(cfg.policy) && InOrder(run) && i < |run| && j < |run|
    requires Passes(cfg, run, i) && Passes(cfg, run, j) && TagOf(run[i]) == TagOf(run[j])
    ensures i == j
  {
    if i < j {
      OneRequestPerProof(cfg, run, i, j);
    } else if j < i {
      OneRequestPerProof(cfg, run, j, i);
    }
  }

  /** So over a whole run no more requests pass on the strength of such holders than they signed
      proofs, however often capabilities and proofs are copied, re-sent or taken apart. */
  lemma PassesAreSigned(cfg: Config, rootKey: nat, ops: seq<Capability.Op>, spoken: Spoken, stolen: set<nat>, run: seq<Call>)
    requires Replay.Configured(cfg.policy) && InOrder(run) && cfg.root == Key(rootKey)
    requires forall j :: 0 <= j < |run| ==> Sendable(run[j], Capability.Issued(rootKey, ops), spoken, stolen)
    ensures |Honest(cfg, stolen, run)| <= |set s | s in spoken && s.0 !in stolen|
  {
    var theirs := set s | s in spoken && s.0 !in stolen;
    var passed := Honest(cfg, stolen, run);
    var tag := map j | j in passed :: TagOf(run[j]);
    forall j | j in passed
      ensures tag[j] in theirs
    {
      HolderSigned(cfg, rootKey, ops, spoken, stolen, CacheOf(cfg, run[..j]), run[j]);
    }
    forall i, j | i in passed && j in passed && tag[i] == tag[j]
      ensures i == j
    {
      TagsDiffer(cfg, run, i, j);
    }
    InjectionBound(passed, tag, theirs);
  }
}
