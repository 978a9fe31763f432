/** One request through the gateway: the delegation stage, the policy stage, minting, and the
    resource server's scope check (delegation/stage.go, policy/stage.go, sts/stage.go, sts/sts.go,
    verify/scope.go). */
module Pipeline {
  import opened Common
  import opened SigCtx
  import opened Grants
  import Chain

  datatype Scope = Scope(tools: seq<string>, budget: Option<Budget>)

  datatype Action = Action(rpcMethod: string, tool: string)

  const METHOD_NONE := "(none)"

  datatype Effect = Allow | Deny | Review

  /** What a decision point or an approver comes back with. */
  datatype Answer = Answered(effect: Effect) | Failed

  datatype Passport = Passport(principal: string, agent: Option<string>, audience: string, scope: Scope,
                               delegation: Option<seq<Chain.Hop>>)

  /** The request fields the stages read and write. */
  datatype Request = Request(server: string, target: Option<string>, principal: Option<string>,
                             actions: seq<Action>, agent: Option<string>, scope: Scope,
                             delegation: Option<seq<Chain.Hop>>, decision: Option<Effect>)

  datatype StageError =
    | NoPrincipal | BadEncoding | ChainRequired | ChainRefused(why: Chain.ChainError) | OtherInstance | ServerNotGranted
    | ToolNotGranted | DecisionFailed | NoApprover | ApprovalFailed | NotAllowed | NoAudience

  /** The server a request is headed for. */
  function TargetOf(r: Request): string {
    if r.target.Some? then r.target.value else r.server
  }

  // ---------------------------------------------------------------- delegation

  predicate ServerGranted(g: Grant, target: string) {
    g.servers == [] || (target != "" && target in g.servers)
  }

  method CheckServer(g: Grant, target: string) returns (ok: bool)
    ensures ok == ServerGranted(g, target)
  {
    if |g.servers| == 0 {
      return true;
    }
    if target == "" {
      return false;
    }
    for i := 0 to |g.servers|
      invariant target !in g.servers[..i]
    {
      if g.servers[i] == target {
        return true;
      }
    }
    assert g.servers[..|g.servers|] == g.servers;
    return false;
  }

  /** How the delegation stage is configured, and what the transport handed it. */
  datatype DelegationInput = DelegationInput(
    keys: Chain.Registry, requireChain: bool, limit: int, now: int, presented: Result<Option<seq<Chain.Hop>>, ()>)

  /** The stage lets a request through: acting directly where that is allowed, or under a chain that
      verifies, ends at the authenticated instance and covers the target server. */
  ghost predicate Delegable(r: Request, d: DelegationInput) {
    && r.principal.Some? && d.presented.Ok?
    && match d.presented.value
       case None => !d.requireChain
       case Some(c) =>
         && Chain.Accepted(c, d.keys, r.principal.value, d.now, d.limit)
         && (r.agent.Some? ==> r.agent.value == c[|c| - 1].delegate)
         && ServerGranted(c[|c| - 1].grant, TargetOf(r))
  }

  /** What the stage leaves on a request it lets through. */
  function Delegated(r: Request, c: Option<seq<Chain.Hop>>): Request
    requires c.Some? ==> c.value != []
  {
    if c.None? then r else
    var last := c.value[|c.value| - 1];
    r.(scope := Scope(last.grant.tools, last.grant.budget), delegation := c,
       agent := if r.agent.Some? then r.agent else Some(last.delegate))
  }

  // ---------------------------------------------------------------- policy

  predicate Granted(tools: seq<string>, tool: string) {
    tools == [] || tool in tools
  }

  /** The elements the stage decides: one per message, or one for a request that carries none. */
  function Decided(actions: seq<Action>): (d: seq<Action>)
    ensures d != [] && forall a :: a in d && a.tool != "" ==> a in actions
  {
    if actions == [] then [Action(METHOD_NONE, "")] else actions
  }

  /** The decision that stands for one element after a review, or why there is none. */
  function Settle(pdp: Answer, approver: Option<Answer>): Result<Effect, StageError> {
    if pdp.Failed? then Err(DecisionFailed)
    else if !pdp.effect.Review? then Ok(pdp.effect)
    else if approver.None? then Err(NoApprover)
    else if approver.value.Failed? then Err(ApprovalFailed)
    else Ok(approver.value.effect)
  }

  /** What the decision point and the approver are asked about one element. */
  datatype Question = Question(principal: Option<string>, agent: Option<string>, server: string,
                               rpcMethod: string, tool: string, delegation: Option<seq<Chain.Hop>>, delegated: Scope)

  function Asked(r: Request, a: Action): Question {
    Question(r.principal, r.agent, r.server, a.rpcMethod, a.tool, r.delegation, r.scope)
  }

  /** The decision point and the approver answer element by element, as they like. */
  datatype PolicyInput = PolicyInput(pdp: (nat, Question) -> Answer, approver: Option<(nat, Question) -> Answer>)

  function AnswerFor(p: PolicyInput, i: nat, q: Question): Result<Effect, StageError> {
    Settle(p.pdp(i, q), if p.approver.Some? then Some((p.approver.value)(i, q)) else None)
  }

  /** The decision point allowed it, or asked for a review and an approver allowed it. */
  predicate Consented(p: PolicyInput, i: nat, q: Question) {
    || p.pdp(i, q) == Answered(Allow)
    || (p.pdp(i, q) == Answered(Review) && p.approver.Some? && (p.approver.value)(i, q) == Answered(Allow))
  }

  predicate ElementAllowed(r: Request, a: Action, p: PolicyInput, i: nat) {
    (a.tool != "" ==> Granted(r.scope.tools, a.tool)) && Consented(p, i, Asked(r, a))
  }

  /** Why an element is refused: the delegated scope comes before any decision. */
  function ElementFault(r: Request, a: Action, p: PolicyInput, i: nat): (f: Option<StageError>)
    ensures f.None? <==> ElementAllowed(r, a, p, i)
  {
    if a.tool != "" && !Granted(r.scope.tools, a.tool) then Some(ToolNotGranted)
    else match AnswerFor(p, i, Asked(r, a))
         case Err(e) => Some(e)
         case Ok(effect) => if effect.Allow? then None else Some(NotAllowed)
  }

  ghost predicate Permitted(r: Request, p: PolicyInput) {
    && r.principal.Some?
    && forall i :: 0 <= i < |Decided(r.actions)| ==> ElementAllowed(r, Decided(r.actions)[i], p, i)
  }

  /** The tools named by the actions, in order of first mention. */
  function Distinct(actions: seq<Action>): (tools: seq<string>)
    ensures forall t :: t in tools <==> t != "" && exists i :: 0 <= i < |actions| && actions[i].tool == t
    ensures forall i, j :: 0 <= i < j < |tools| ==> tools[i] != tools[j]
  {
    if actions == [] then []
    else
      var before := Distinct(actions[..|actions| - 1]);
      var t := actions[|actions| - 1].tool;
      if t != "" && t !in before then before + [t] else before
  }

  /** The granted scope: the tools asked for, with the delegated budget, or the delegated scope as
      it is where no tool was named. */
  function Narrowed(r: Request): Scope {
    var tools := Distinct(r.actions);
    if tools != [] then Scope(tools, r.scope.budget) else r.scope
  }

  // ---------------------------------------------------------------- minting and enforcement

  function Mint(r: Request): (p: Result<Passport, StageError>)
    ensures p.Ok? <==> r.principal.Some? && r.principal.value != "" && TargetOf(r) != ""
    ensures p.Ok? ==> && Some(p.value.principal) == r.principal && p.value.agent == r.agent && p.value.audience == TargetOf(r)
                      && p.value.scope == r.scope && p.value.delegation == r.delegation
  {
    if r.principal.None? || r.principal.value == "" then Err(NoPrincipal)
    else if TargetOf(r) == "" then Err(NoAudience)
    else Ok(Passport(r.principal.value, r.agent, TargetOf(r), r.scope, r.delegation))
  }

  predicate Allows(p: Passport, tool: string) {
    p.scope.tools == [] || tool in p.scope.tools
  }

  // ---------------------------------------------------------------- the stages on a request in flight

  class InFlight {
    const server: string
    const target: Option<string>
    const actions: seq<Action>
    var principal: Option<string>
    var agent: Option<string>
    var scope: Scope
    var delegation: Option<seq<Chain.Hop>>
    var decision: Option<Effect>

    function View(): Request
      reads this
    {
      Request(server, target, principal, actions, agent, scope, delegation, decision)
    }

    constructor (r: Request)
      ensures View() == r
    {
      server, target, actions := r.server, r.target, r.actions;
      principal, agent, scope, delegation, decision := r.principal, r.agent, r.scope, r.delegation, r.decision;
    }

    /** Refuses without touching the request, or narrows it to the chain's effective grant. */
    method DelegationStage(d: DelegationInput) returns (e: Option<StageError>)
      modifies this
      ensures e.None? <==> Delegable(old(View()), d)
      ensures View() == if e.None? then Delegated(old(View()), d.presented.value) else old(View())
    {
      if principal.None? {
        return Some(NoPrincipal);
      }
      if d.presented.Err? {
        return Some(BadEncoding);
      }
      if d.presented.value.None? {
        if d.requireChain {
          return Some(ChainRequired);
        }
        return None;
      }
      var c := d.presented.value.value;
      var r := Chain.VerifyChain(c, d.keys, principal.value, d.now, d.limit);
      if r.Err? {
        return Some(ChainRefused(r.error));
      }
      var (grant, acting) := r.value;
      if agent.Some? && agent.value != acting {
        return Some(OtherInstance);
      }
      var ok := CheckServer(grant, if target.Some? then target.value else server);
      if !ok {
        return Some(ServerNotGranted);
      }
      scope := Scope(grant.tools, grant.budget);
      delegation := Some(c);
      if agent.None? {
        agent := Some(acting);
      }
      return None;
    }

    /** Decides every element; on success the scope is narrowed to the tools asked for, otherwise it
        and everything but the recorded decision stay as they were. */
    method PolicyStage(p: PolicyInput) returns (e: Option<StageError>)
      modifies this`scope, this`decision
      ensures e.None? <==> Permitted(old(View()), p)
      ensures e.None? ==> scope == Narrowed(old(View())) && decision == Some(Allow)
      ensures e.Some? ==> scope == old(scope)
      ensures e.Some? && old(principal).Some? ==>
                exists i :: 0 <= i < |Decided(actions)| && ElementFault(old(View()), Decided(actions)[i], p, i) == e
                            && forall k :: 0 <= k < i ==> ElementAllowed(old(View()), Decided(actions)[k], p, k)
      ensures e == Some(ToolNotGranted) ==> decision == Some(Deny)
    {
      if principal.None? {
        return Some(NoPrincipal);
      }
      var delegated := scope;
      ghost var was := View();
      var decide := actions;
      if |decide| == 0 {
        decide := [Action(METHOD_NONE, "")];
      }
      assert decide == Decided(actions);
      for i := 0 to |decide|
        invariant forall k :: 0 <= k < i ==> ElementAllowed(was, decide[k], p, k)
        invariant scope == delegated && (i > 0 ==> decision == Some(Allow))
      {
        var act := decide[i];
        if act.tool != "" && !Granted(delegated.tools, act.tool) {
          decision := Some(Deny);
          assert ElementFault(was, Decided(actions)[i], p, i) == Some(ToolNotGranted);
          return Some(ToolNotGranted);
        }
        var settled := AnswerFor(p, i, Question(principal, agent, server, act.rpcMethod, act.tool, delegation, delegated));
        if settled.Err? {
          assert ElementFault(was, Decided(actions)[i], p, i) == Some(settled.error);
          return Some(settled.error);
        }
        decision := Some(settled.value);
        if !settled.value.Allow? {
          assert ElementFault(was, Decided(actions)[i], p, i) == Some(NotAllowed);
          return Some(NotAllowed);
        }
      }
      var requested := DistinctTools(actions);
      if |requested| > 0 {
        scope := Scope(requested, delegated.budget);
      }
      return None;
    }
  }

  method DistinctTools(actions: seq<Action>) returns (out: seq<string>)
    ensures out == Distinct(actions)
  {
    out := [];
    for i := 0 to |actions|
      invariant out == Distinct(actions[..i])
    {
      assert actions[..i + 1][..i] == actions[..i];
      if actions[i].tool != "" && actions[i].tool !in out {
        out := out + [actions[i].tool];
      }
    }
    assert actions[..|actions|] == actions;
  }

  // ---------------------------------------------------------------- end to end

  /** A request that went through all three stages, and the passport it came out with. */
  ghost predicate Minted(r: Request, d: DelegationInput, p: PolicyInput, pass: Passport) {
    && Delegable(r, d)
    && Permitted(Delegated(r, d.presented.value), p)
    && var r' := Delegated(r, d.presented.value);
       Mint(r'.(scope := Narrowed(r'), decision := Some(Allow))) == Ok(pass)
  }

  lemma ScopeWithinGrant(r: Request, p: PolicyInput, tool: string)
    requires Permitted(r, p) && (Narrowed(r).tools == [] || tool in Narrowed(r).tools)
    ensures Granted(r.scope.tools, tool)
  {
    if Distinct(r.actions) != [] {
      var i :| 0 <= i < |r.actions| && r.actions[i].tool == tool;
      assert Decided(r.actions)[i] == r.actions[i];
      assert ElementAllowed(r, Decided(r.actions)[i], p, i);
    }
  }

  /** End-to-end attenuation. Whatever a resource server lets happen on the strength of a passport
      minted under a chain (a tool it allows, at the passport's audience, within its budget, at the
      time of the request), every single hop of that chain permits; and the passport names the
      principal the chain starts from and the agent it ends at. */
  lemma EndToEndAttenuation(r: Request, d: DelegationInput, p: PolicyInput, pass: Passport, deed: Deed, i: nat)
    requires Minted(r, d, p, pass) && d.presented.value.Some? && i < |d.presented.value.value|
    requires Allows(pass, deed.tool) && deed.server == pass.audience && deed.at == d.now
    requires BudgetCovers(pass.scope.budget, deed.unit, deed.amount)
    ensures var c := d.presented.value.value;
            && Permits(c[i].grant, deed) && BudgetWithin(c[i].grant.budget, pass.scope.budget)
            && pass.principal == Chain.Party(c, 0) && pass.agent == Some(Chain.Party(c, |c|))
            && pass.delegation == Some(c)
  {
    var c := d.presented.value.value;
    var last := c[|c| - 1];
    var r' := Delegated(r, d.presented.value);
    ScopeWithinGrant(r', p, deed.tool);
    assert Chain.HopHolds(c, d.keys, r.principal.value, d.now, 0);
    assert Chain.HopHolds(c, d.keys, r.principal.value, d.now, |c| - 1);
    assert Permits(last.grant, deed);
    forall k | 0 <= k < |c|
      ensures Chain.NarrowsAt(c, k)
    {
      assert Chain.HopHolds(c, d.keys, r.principal.value, d.now, k);
    }
    Chain.AuthorityOnlyNarrows(c, i, |c| - 1);
  }

  /** The minted scope is exact: where the request names tools, the passport allows those tools and
      no others, whether or not a chain was presented. */
  lemma PassportAllowsExactlyTheRequested(r: Request, d: DelegationInput, p: PolicyInput, pass: Passport, tool: string)
    requires Minted(r, d, p, pass) && exists a :: a in r.actions && a.tool != ""
    ensures Allows(pass, tool) <==> tool != "" && exists a :: a in r.actions && a.tool == tool
  {
    var a :| a in r.actions && a.tool != "";
    assert a.tool in Distinct(r.actions);
    if Allows(pass, tool) {
      var k :| 0 <= k < |r.actions| && r.actions[k].tool == tool;
      assert r.actions[k] in r.actions;
    }
  }

  /** Leaving the chain out gains nothing where a chain is required: what is minted then was minted
      under an accepted one. Where it is not required, the passport of a request that names no tool
      is as wide as the request's own scope. */
  lemma RequiredChainCannotBeOmitted(r: Request, d: DelegationInput, p: PolicyInput, pass: Passport)
    requires Minted(r, d, p, pass)
    ensures d.requireChain ==> d.presented.value.Some?
                               && Chain.Accepted(d.presented.value.value, d.keys, pass.principal, d.now, d.limit)
    ensures d.presented.value.None? && (forall a :: a in r.actions ==> a.tool == "") ==> pass.scope == r.scope
  {
    if Distinct(r.actions) != [] {
      assert Distinct(r.actions)[0] in Distinct(r.actions);
    }
  }

  // ---------------------------------------------------------------- when a passport is minted

  /** Every action names a granted tool or none and was consented to, as it stands; a request without
      any was consented to once, under its own name. */
  ghost predicate AllConsented(r: Request, p: PolicyInput, agent: Option<string>,
                               delegation: Option<seq<Chain.Hop>>, scope: Scope) {
    && (forall i :: 0 <= i < |r.actions| ==>
          var a := r.actions[i];
          && (a.tool == "" || scope.tools == [] || a.tool in scope.tools)
          && Consented(p, i, Question(r.principal, agent, r.server, a.rpcMethod, a.tool, delegation, scope)))
    && (r.actions == [] ==> Consented(p, 0, Question(r.principal, agent, r.server, "(none)", "", delegation, scope)))
  }

  /** What it takes, read off the inputs alone. */
  ghost predicate Earned(r: Request, d: DelegationInput, p: PolicyInput) {
    var target := if r.target.Some? then r.target.value else r.server;
    && r.principal.Some? && r.principal.value != "" && target != "" && d.presented.Ok?
    && match d.presented.value
       case None => !d.requireChain && AllConsented(r, p, r.agent, r.delegation, r.scope)
       case Some(c) =>
         && Chain.Accepted(c, d.keys, r.principal.value, d.now, d.limit)
         && var last := c[|c| - 1];
            && (r.agent.None? || r.agent.value == last.delegate)
            && (last.grant.servers == [] || target in last.grant.servers)
            && AllConsented(r, p, Some(last.delegate), Some(c), Scope(last.grant.tools, last.grant.budget))
  }

  lemma PermittedExactly(r: Request, p: PolicyInput, r0: Request)
    requires r.principal == r0.principal && r.server == r0.server && r.actions == r0.actions && r.principal.Some?
    ensures Permitted(r, p) <==> AllConsented(r0, p, r.agent, r.delegation, r.scope)
  {
    if Permitted(r, p) {
      if r.actions == [] {
        assert ElementAllowed(r, Decided(r.actions)[0], p, 0);
      }
      forall i | 0 <= i < |r.actions|
        ensures ElementAllowed(r, r.actions[i], p, i)
      {
        assert ElementAllowed(r, Decided(r.actions)[i], p, i);
      }
    }
  }

  /** A passport is minted exactly for the requests that earn one: nobody gets one without the consent
      of the decision point, or of an approver it asked for, to every single action, and nobody who has
      all of it is turned away. */
  lemma MintedExactly(r: Request, d: DelegationInput, p: PolicyInput)
    ensures (exists pass :: Minted(r, d, p, pass)) <==> Earned(r, d, p)
  {
    if r.principal.Some? && d.presented.Ok? && (d.presented.value.Some? ==> d.presented.value.value != []) {
      var r' := Delegated(r, d.presented.value);
      PermittedExactly(r', p, r);
      var m := Mint(r'.(scope := Narrowed(r'), decision := Some(Allow)));
      if Earned(r, d, p) {
        assert Delegable(r, d);
        assert Minted(r, d, p, m.value);
      }
    }
  }

  /** And it carries what it was earned for: the principal, the server the request is sent to, the
      chain and its last delegate where there is one, and the whole delegated budget; and where no
      action names a tool, the delegated tools. */
  lemma PassportCarries(r: Request, d: DelegationInput, p: PolicyInput, pass: Passport)
    requires Minted(r, d, p, pass)
    ensures Some(pass.principal) == r.principal
    ensures pass.audience == if r.target.Some? then r.target.value else r.server
    ensures match d.presented.value
            case None => pass.agent == r.agent && pass.delegation == r.delegation && pass.scope.budget == r.scope.budget
            case Some(c) =>
              && c != [] && pass.agent == Some(c[|c| - 1].delegate) && pass.delegation == Some(c)
              && pass.scope.budget == c[|c| - 1].grant.budget
    ensures (forall a :: a in r.actions ==> a.tool == "") ==>
              pass.scope.tools == match d.presented.value
                                  case None => r.scope.tools
                                  case Some(c) => if c == [] then [] else c[|c| - 1].grant.tools
  {
    if Distinct(r.actions) != [] {
      assert Distinct(r.actions)[0] in Distinct(r.actions);
    }
  }
}
