/** Signed, attenuating delegation chains (delegation/delegation.go, limits.go, verify.go). */
module Chain {
  import opened Common
  import opened SigCtx
  import opened Grants

  const MAX_DEPTH := 16

  /** The signing input of a hop; it carries the previous hop's signature. */
  datatype HopMsg = HopMsg(delegator: string, delegate: string, grant: Canonical, prev: Option<Signature<HopMsg>>)

  datatype Hop = Hop(delegator: string, delegate: string, grant: Grant, sig: Signature<HopMsg>)

  /** Principals and agents are separate namespaces. */
  datatype Registry = Registry(principals: map<string, PublicKey>, agents: map<string, PublicKey>)

  datatype ChainError =
    | EmptyChain | TooDeep | Cycle(hop: nat) | NotThePrincipal | BrokenContinuity(hop: nat)
    | UnregisteredKey(hop: nat) | InvalidSignature(hop: nat) | WidensScope(hop: nat) | HopExpired(hop: nat)

  // ---------------------------------------------------------------- building

  function NewRoot(principalKey: nat, principal: string, delegate: string, g: Grant): Result<seq<Hop>, ChainError> {
    if principal == delegate then Err(Cycle(0))
    else Ok([Hop(principal, delegate, g,
                 Sig(DELEGATION_HOP, principalKey, HopMsg(principal, delegate, Canon(g), None)))])
  }

  /** The parties of a chain: the root delegator, then every delegate. */
  function Party(c: seq<Hop>, i: nat): string
    requires c != [] && i <= |c|
  {
    if i == 0 then c[0].delegator else c[i - 1].delegate
  }

  predicate Appears(c: seq<Hop>, id: string)
    requires c != []
  {
    id == c[0].delegator || exists i :: 0 <= i < |c| && c[i].delegate == id
  }

  function Extend(c: seq<Hop>, holderKey: nat, delegate: string, g: Grant): Result<seq<Hop>, ChainError> {
    if c == [] then Err(EmptyChain)
    else if |c| + 1 > MAX_DEPTH then Err(TooDeep)
    else if Appears(c, delegate) then Err(Cycle(|c|))
    else
      var last := c[|c| - 1];
      Ok(c + [Hop(last.delegate, delegate, g,
                  Sig(DELEGATION_HOP, holderKey, HopMsg(last.delegate, delegate, Canon(g), Some(last.sig))))])
  }

  // ---------------------------------------------------------------- what an accepted chain is

  predicate NoSelfDelegation(c: seq<Hop>) {
    forall i :: 0 <= i < |c| ==> c[i].delegator != c[i].delegate
  }

  predicate PartiesDistinct(c: seq<Hop>)
    requires c != []
  {
    forall i, j :: 0 <= i < j <= |c| ==> Party(c, i) != Party(c, j)
  }

  /** What any number of WithMaxDepth options leave: the least of the ceiling and the positive
      requests, so an option can only tighten, and one out of range changes nothing. */
  function Limit(requests: seq<int>): (n: int)
    ensures 0 < n <= MAX_DEPTH
    ensures forall r :: r in requests && r > 0 ==> n <= r
    ensures n == MAX_DEPTH || n in requests
  {
    if requests == [] then MAX_DEPTH
    else
      var n, r := Limit(requests[..|requests| - 1]), requests[|requests| - 1];
      assert requests == requests[..|requests| - 1] + [r];
      if 0 < r < n then r else n
  }

  predicate WellShaped(c: seq<Hop>, limit: int) {
    c != [] && |c| <= limit && NoSelfDelegation(c) && PartiesDistinct(c)
  }

  function SigBefore(c: seq<Hop>, i: nat): Option<Signature<HopMsg>>
    requires i <= |c|
  {
    if i == 0 then None else Some(c[i - 1].sig)
  }

  function SignerOf(keys: Registry, c: seq<Hop>, i: nat): Option<PublicKey>
    requires i < |c|
  {
    var ns := if i == 0 then keys.principals else keys.agents;
    if c[i].delegator in ns then Some(ns[c[i].delegator]) else None
  }

  predicate Continuous(c: seq<Hop>, principal: string, i: nat)
    requires i < |c|
  {
    c[i].delegator == if i == 0 then principal else c[i - 1].delegate
  }

  predicate SignedAt(c: seq<Hop>, keys: Registry, i: nat)
    requires i < |c|
  {
    var k := SignerOf(keys, c, i);
    && k.Some?
    && Verify(DELEGATION_HOP, k.value, HopMsg(c[i].delegator, c[i].delegate, Canon(c[i].grant), SigBefore(c, i)), c[i].sig)
  }

  predicate NarrowsAt(c: seq<Hop>, i: nat)
    requires i < |c|
  {
    i > 0 ==> Attenuates(c[i - 1].grant, c[i].grant)
  }

  predicate HopHolds(c: seq<Hop>, keys: Registry, principal: string, now: int, i: nat)
    requires i < |c|
  {
    Continuous(c, principal, i) && SignedAt(c, keys, i) && NarrowsAt(c, i) && !Expired(c[i].grant, now)
  }

  ghost predicate Accepted(c: seq<Hop>, keys: Registry, principal: string, now: int, limit: int) {
    WellShaped(c, limit) && forall i :: 0 <= i < |c| ==> HopHolds(c, keys, principal, now, i)
  }

  // ---------------------------------------------------------------- verification

  method CheckShape(c: seq<Hop>, limit: int) returns (e: Option<ChainError>)
    ensures e.None? <==> WellShaped(c, limit)
    ensures e == Some(EmptyChain) <==> c == []
    ensures e == Some(TooDeep) <==> c != [] && |c| > limit
    ensures e.Some? && e.value.Cycle? ==>
              var i := e.value.hop;
              && i < |c| && (forall k, l :: 0 <= k < l <= i ==> Party(c, k) != Party(c, l))
              && (c[i].delegator == c[i].delegate || exists k :: 0 <= k <= i && Party(c, k) == c[i].delegate)
  {
    if |c| == 0 {
      return Some(EmptyChain);
    }
    if |c| > limit {
      return Some(TooDeep);
    }
    var seen := {c[0].delegator};
    assert Party(c, 0) == c[0].delegator;
    for i := 0 to |c|
      invariant forall x :: x in seen <==> exists k :: 0 <= k <= i && Party(c, k) == x
      invariant forall k, l :: 0 <= k < l <= i ==> Party(c, k) != Party(c, l)
      invariant forall k :: 0 <= k < i ==> c[k].delegator != c[k].delegate
    {
      assert c[i].delegate == Party(c, i + 1);
      if c[i].delegator == c[i].delegate {
        return Some(Cycle(i));
      }
      if c[i].delegate in seen {
        var k :| 0 <= k <= i && Party(c, k) == c[i].delegate;
        assert Party(c, k) == Party(c, i + 1);
        return Some(Cycle(i));
      }
      seen := seen + {c[i].delegate};
    }
    return None;
  }

  /** What is wrong with a hop, checked in the source's order. */
  function HopFault(c: seq<Hop>, keys: Registry, principal: string, now: int, i: nat): (f: Option<ChainError>)
    requires i < |c|
    ensures f.None? <==> HopHolds(c, keys, principal, now, i)
  {
    if !Continuous(c, principal, i) then Some(if i == 0 then NotThePrincipal else BrokenContinuity(i))
    else if SignerOf(keys, c, i).None? then Some(UnregisteredKey(i))
    else if !SignedAt(c, keys, i) then Some(InvalidSignature(i))
    else if !NarrowsAt(c, i) then Some(WidensScope(i))
    else if Expired(c[i].grant, now) then Some(HopExpired(i))
    else None
  }

  /** Returns the last grant and the last delegate exactly when the chain is acceptable; otherwise
      reports its shape or the fault of the first hop that does not hold. */
  method VerifyChain(c: seq<Hop>, keys: Registry, principal: string, now: int, limit: int)
    returns (r: Result<(Grant, string), ChainError>)
    ensures r.Ok? <==> Accepted(c, keys, principal, now, limit)
    ensures r.Ok? ==> r.value == (c[|c| - 1].grant, c[|c| - 1].delegate)
    ensures r.Err? && WellShaped(c, limit) ==>
              exists i :: 0 <= i < |c| && HopFault(c, keys, principal, now, i) == Some(r.error)
                          && forall k :: 0 <= k < i ==> HopHolds(c, keys, principal, now, k)
  {
    var shape := CheckShape(c, limit);
    if shape.Some? {
      return Err(shape.value);
    }
    var prevSig: Option<Signature<HopMsg>> := None;
    var prevGrant := c[0].grant;
    for i := 0 to |c|
      invariant prevSig == SigBefore(c, i)
      invariant i > 0 ==> prevGrant == c[i - 1].grant
      invariant forall k :: 0 <= k < i ==> HopHolds(c, keys, principal, now, k)
    {
      var hop := c[i];
      if i == 0 {
        if hop.delegator != principal {
          assert HopFault(c, keys, principal, now, i) == Some(NotThePrincipal);
          return Err(NotThePrincipal);
        }
      } else if hop.delegator != c[i - 1].delegate {
        assert HopFault(c, keys, principal, now, i) == Some(BrokenContinuity(i));
        return Err(BrokenContinuity(i));
      }
      var key := SignerOf(keys, c, i);
      if key.None? {
        assert HopFault(c, keys, principal, now, i) == Some(UnregisteredKey(i));
        return Err(UnregisteredKey(i));
      }
      if !Verify(DELEGATION_HOP, key.value, HopMsg(hop.delegator, hop.delegate, Canon(hop.grant), prevSig), hop.sig) {
        assert HopFault(c, keys, principal, now, i) == Some(InvalidSignature(i));
        return Err(InvalidSignature(i));
      }
      if i > 0 {
        var w := CheckAttenuates(prevGrant, hop.grant);
        if w.Some? {
          assert HopFault(c, keys, principal, now, i) == Some(WidensScope(i));
          return Err(WidensScope(i));
        }
      }
      if hop.grant.notAfter.Some? && !(now < hop.grant.notAfter.value) {
        assert HopFault(c, keys, principal, now, i) == Some(HopExpired(i));
        return Err(HopExpired(i));
      }
      prevSig := Some(hop.sig);
      prevGrant := hop.grant;
    }
    return Ok((c[|c| - 1].grant, c[|c| - 1].delegate));
  }

  // ---------------------------------------------------------------- results

  /** The effective grant of an accepted chain confers nothing any hop did not. */
  lemma {:induction false} AuthorityOnlyNarrows(c: seq<Hop>, i: nat, j: nat)
    requires i <= j < |c| && forall k :: 0 <= k < |c| ==> NarrowsAt(c, k)
    ensures Attenuates(c[i].grant, c[j].grant)
    decreases j - i
  {
    if i < j {
      AuthorityOnlyNarrows(c, i, j - 1);
      assert NarrowsAt(c, j);
      AttenuatesTransitive(c[i].grant, c[j - 1].grant, c[j].grant);
    }
  }

  /** An accepted chain is a path of pairwise distinct parties from the principal to the acting
      agent, at most sixteen hops long, and whatever its effective grant permits every hop permits. */
  lemma AcceptedChainIsAPath(c: seq<Hop>, keys: Registry, principal: string, now: int, requests: seq<int>, d: Deed, i: nat)
    requires Accepted(c, keys, principal, now, Limit(requests)) && i < |c|
    ensures |c| <= MAX_DEPTH && PartiesDistinct(c) && Party(c, 0) == principal
    ensures c[i].delegator == Party(c, i) && c[i].delegate == Party(c, i + 1)
    ensures Permits(c[|c| - 1].grant, d) ==> Permits(c[i].grant, d)
  {
    assert HopHolds(c, keys, principal, now, 0);
    assert HopHolds(c, keys, principal, now, i);
    forall k | 0 <= k < |c|
      ensures NarrowsAt(c, k)
    {
      assert HopHolds(c, keys, principal, now, k);
    }
    AuthorityOnlyNarrows(c, i, |c| - 1);
    AttenuationIsContainment(c[i].grant, c[|c| - 1].grant);
  }

  /** Every hop of an accepted chain was signed by the party that delegates in it, over its own parties,
      grant and predecessor: the first by the key registered for the principal as a principal, every
      other by the key registered for its delegator as an agent. */
  lemma AcceptedHopsAreSigned(c: seq<Hop>, keys: Registry, principal: string, now: int, limit: int, i: nat)
    requires Accepted(c, keys, principal, now, limit) && i < |c|
    ensures c[i].sig.Sig? && c[i].sig.ctx == "sanad/delegation-hop/v1" && !Expired(c[i].grant, now)
    ensures c[i].sig.msg == HopMsg(c[i].delegator, c[i].delegate, Canon(c[i].grant), if i == 0 then None else Some(c[i - 1].sig))
    ensures i == 0 ==> principal in keys.principals && keys.principals[principal] == Key(c[0].sig.signer)
    ensures i > 0 ==> c[i].delegator in keys.agents && keys.agents[c[i].delegator] == Key(c[i].sig.signer)
  {
    assert HopHolds(c, keys, principal, now, i);
  }

  /** The final signature commits to the whole chain. Two chains accepted by whatever registries, at
      whatever times, that end in the same signature have the same hops up to canonical grants. */
  lemma {:induction false} FinalSignatureCommits(a: seq<Hop>, b: seq<Hop>, ka: Registry, kb: Registry)
    requires forall i :: 0 <= i < |a| ==> SignedAt(a, ka, i)
    requires forall i :: 0 <= i < |b| ==> SignedAt(b, kb, i)
    requires SigBefore(a, |a|) == SigBefore(b, |b|)
    ensures |a| == |b|
    ensures forall i :: 0 <= i < |a| ==>
              && a[i].delegator == b[i].delegator && a[i].delegate == b[i].delegate && a[i].sig == b[i].sig
              && Canon(a[i].grant) == Canon(b[i].grant)
  {
    if a != [] && b != [] {
      var a', b' := a[..|a| - 1], b[..|b| - 1];
      assert SignedAt(a, ka, |a| - 1) && SignedAt(b, kb, |b| - 1);
      SignedPrefix(a, ka, |a| - 1);
      SignedPrefix(b, kb, |b| - 1);
      FinalSignatureCommits(a', b', ka, kb);
      forall i | 0 <= i < |a|
        ensures a[i].delegator == b[i].delegator && a[i].delegate == b[i].delegate && a[i].sig == b[i].sig
                && Canon(a[i].grant) == Canon(b[i].grant)
      {
        if i < |a| - 1 {
          assert a[i] == a'[i] && b[i] == b'[i];
        }
      }
    }
  }

  lemma SignedPrefix(c: seq<Hop>, keys: Registry, n: nat)
    requires n <= |c| && forall i :: 0 <= i < |c| ==> SignedAt(c, keys, i)
    ensures forall i :: 0 <= i < n ==> SignedAt(c[..n], keys, i)
  {
    forall i | 0 <= i < n
      ensures SignedAt(c[..n], keys, i)
    {
      assert SignedAt(c, keys, i);
    }
  }

  /** The signature of a chain's last hop binds every expiry in it that is not at the epoch: whatever
      chain is accepted on that signature, such a grant has not expired. */
  lemma AcceptedExpiriesAreKept(a: seq<Hop>, b: seq<Hop>, ka: Registry, kb: Registry, principal: string,
                                now: int, limit: int, i: nat)
    requires Accepted(a, ka, principal, now, limit) && (forall k :: 0 <= k < |b| ==> SignedAt(b, kb, k))
    requires SigBefore(a, |a|) == SigBefore(b, |b|) && i < |b| && !EpochBound(b[i].grant)
    ensures !Expired(b[i].grant, now)
  {
    forall k | 0 <= k < |a|
      ensures SignedAt(a, ka, k)
    {
      assert HopHolds(a, ka, principal, now, k);
    }
    FinalSignatureCommits(a, b, ka, kb);
    assert HopHolds(a, ka, principal, now, i);
  }

  /** A root hop with another grant put under its signature is accepted as a chain. */
  ghost predicate AcceptedWith(h: Hop, g: Grant, keys: Registry, principal: string, now: int, limit: int) {
    Accepted([h.(grant := g)], keys, principal, now, limit)
  }

  /** Whatever grant is put under the signature of a root hop, the chain is accepted only before the
      grant it was made for expires. */
  ghost predicate RootExpiryIsKept(h: Hop, g: Grant, keys: Registry, principal: string, limit: int) {
    forall g', now :: AcceptedWith(h, g', keys, principal, now, limit) ==> !Expired(g, now)
  }

  /** For every grant: that holds exactly if the grant's expiry is not at the epoch. */
  lemma RootExpiryIsKeptExactly(key: nat, principal: string, delegate: string, g: Grant, keys: Registry, limit: int)
    requires principal != delegate && principal in keys.principals && keys.principals[principal] == Key(key) && limit >= 1
    ensures var r := NewRoot(key, principal, delegate, g);
            r.Ok? && |r.value| == 1 && (RootExpiryIsKept(r.value[0], g, keys, principal, limit) <==> !EpochBound(g))
  {
    var h := NewRoot(key, principal, delegate, g).value[0];
    if EpochBound(g) {
      var free := g.(notAfter := None);
      assert HopHolds([h.(grant := free)], keys, principal, 0, 0);
      assert AcceptedWith(h, free, keys, principal, 0, limit);
    } else {
      forall g', now | AcceptedWith(h, g', keys, principal, now, limit)
        ensures !Expired(g, now)
      {
        assert HopHolds([h.(grant := g')], keys, principal, now, 0);
      }
    }
  }

  // ---------------------------------------------------------------- chains made by the builders

  datatype Link = Link(holderKey: nat, delegate: string, grant: Grant)

  /** NewRoot followed by any number of Extends. */
  function Build(principal: string, links: seq<Link>): Result<seq<Hop>, ChainError> {
    if links == [] then Err(EmptyChain)
    else
      var l := links[|links| - 1];
      if |links| == 1 then NewRoot(l.holderKey, principal, l.delegate, l.grant)
      else
        var r := Build(principal, links[..|links| - 1]);
        if r.Err? then r else Extend(r.value, l.holderKey, l.delegate, l.grant)
  }

  predicate RegisteredAt(keys: Registry, principal: string, links: seq<Link>, i: nat)
    requires i < |links|
  {
    if i == 0 then principal in keys.principals && keys.principals[principal] == Key(links[0].holderKey)
    else links[i - 1].delegate in keys.agents && keys.agents[links[i - 1].delegate] == Key(links[i].holderKey)
  }

  /** Every holder's key is the one registered for it: the principal's, then each delegate's. */
  ghost predicate Registered(keys: Registry, principal: string, links: seq<Link>) {
    forall i :: 0 <= i < |links| ==> RegisteredAt(keys, principal, links, i)
  }

  predicate HopOfLink(c: seq<Hop>, links: seq<Link>, keys: Registry, principal: string, i: nat)
    requires i < |c| == |links|
  {
    && c[i].grant == links[i].grant && c[i].delegate == links[i].delegate
    && Continuous(c, principal, i) && SignedAt(c, keys, i)
  }

  lemma ExtendKeepsShape(p: seq<Hop>, holderKey: nat, delegate: string, g: Grant)
    requires WellShaped(p, MAX_DEPTH) && Extend(p, holderKey, delegate, g).Ok?
    ensures WellShaped(Extend(p, holderKey, delegate, g).value, MAX_DEPTH)
  {
    var c := Extend(p, holderKey, delegate, g).value;
    forall i | 0 <= i < |c|
      ensures Party(c, i) == Party(p, i) && Party(c, i) != delegate && c[i].delegator != c[i].delegate
    {
      if i > 0 {
        assert p[i - 1].delegate != delegate;
      }
      if i == |p| {
        assert p[i - 1].delegate != delegate;
      }
    }
    forall i, j | 0 <= i < j <= |c|
      ensures Party(c, i) != Party(c, j)
    {
      if j < |c| {
        assert Party(c, i) == Party(p, i) && Party(c, j) == Party(p, j);
      }
    }
  }

  lemma {:induction false} BuiltHops(principal: string, links: seq<Link>, keys: Registry)
    requires Build(principal, links).Ok? && Registered(keys, principal, links)
    ensures var c := Build(principal, links).value;
            && |c| == |links| && WellShaped(c, MAX_DEPTH)
            && forall i :: 0 <= i < |c| ==> HopOfLink(c, links, keys, principal, i)
  {
    var n := |links| - 1;
    assert RegisteredAt(keys, principal, links, n);
    if n > 0 {
      var links' := links[..n];
      forall i | 0 <= i < n
        ensures RegisteredAt(keys, principal, links', i)
      {
        assert RegisteredAt(keys, principal, links, i);
      }
      BuiltHops(principal, links', keys);
      var p, c := Build(principal, links').value, Build(principal, links).value;
      ExtendKeepsShape(p, links[n].holderKey, links[n].delegate, links[n].grant);
      assert HopOfLink(p, links', keys, principal, n - 1);
      forall i | 0 <= i < n
        ensures HopOfLink(c, links, keys, principal, i)
      {
        assert HopOfLink(p, links', keys, principal, i);
      }
      assert HopOfLink(c, links, keys, principal, n);
    }
  }

  /** The party at each place of the chain these links would make: the principal, then the delegates. */
  function PartyOf(principal: string, links: seq<Link>, i: nat): string
    requires i <= |links|
  {
    if i == 0 then principal else links[i - 1].delegate
  }

  ghost predicate PartiesDiffer(principal: string, links: seq<Link>) {
    forall i, j :: 0 <= i < j <= |links| ==> PartyOf(principal, links, i) != PartyOf(principal, links, j)
  }

  lemma DifferSnoc(principal: string, links: seq<Link>)
    requires links != []
    ensures var n, before := |links| - 1, links[..|links| - 1];
            PartiesDiffer(principal, links) <==>
              PartiesDiffer(principal, before) && forall i :: 0 <= i <= n ==> PartyOf(principal, links, i) != links[n].delegate
  {
    var n, before := |links| - 1, links[..|links| - 1];
    assert forall i :: 0 <= i <= n ==> PartyOf(principal, links, i) == PartyOf(principal, before, i);
    assert PartyOf(principal, links, |links|) == links[n].delegate;
  }

  /** When the builders give a chain: from one link up to the ceiling, with no party twice; and its
      parties are then those of the links. */
  lemma {:induction false} BuildsExactly(principal: string, links: seq<Link>)
    ensures Build(principal, links).Ok? <==> 0 < |links| <= MAX_DEPTH && PartiesDiffer(principal, links)
    ensures Build(principal, links).Ok? ==>
              var c := Build(principal, links).value;
              && |c| == |links|
              && forall i :: 0 <= i <= |c| ==> Party(c, i) == PartyOf(principal, links, i)
  {
    if |links| == 1 {
      assert PartyOf(principal, links, 0) == principal && PartyOf(principal, links, 1) == links[0].delegate;
    } else if links != [] {
      var n, before := |links| - 1, links[..|links| - 1];
      BuildsExactly(principal, before);
      DifferSnoc(principal, links);
      var r := Build(principal, before);
      if r.Ok? {
        AppearsExactly(r.value, principal, before, links[n].delegate);
        assert forall i :: 0 <= i <= n ==> PartyOf(principal, links, i) == PartyOf(principal, before, i);
      }
    }
  }

  lemma AppearsExactly(c: seq<Hop>, principal: string, links: seq<Link>, id: string)
    requires c != [] && |c| == |links| && forall i :: 0 <= i <= |c| ==> Party(c, i) == PartyOf(principal, links, i)
    ensures Appears(c, id) <==> exists i :: 0 <= i <= |links| && PartyOf(principal, links, i) == id
  {
    assert PartyOf(principal, links, 0) == Party(c, 0);
    forall i | 0 <= i < |c|
      ensures c[i].delegate == PartyOf(principal, links, i + 1)
    {
      assert Party(c, i + 1) == c[i].delegate;
    }
  }

  /** A chain the builders made, with registered keys, verifies exactly when its grants narrow hop
      by hop, none has expired and it is within the ceiling; building enforces everything else. */
  lemma BuiltChainVerifies(principal: string, links: seq<Link>, keys: Registry, now: int, limit: int)
    requires Build(principal, links).Ok? && Registered(keys, principal, links) && limit <= MAX_DEPTH
    ensures Accepted(Build(principal, links).value, keys, principal, now, limit)
            <==> |links| <= limit
                 && (forall i :: 0 <= i < |links| ==> !Expired(links[i].grant, now))
                 && (forall i :: 0 < i < |links| ==> Attenuates(links[i - 1].grant, links[i].grant))
  {
    var c := Build(principal, links).value;
    BuiltHops(principal, links, keys);
    forall i | 0 <= i < |c|
      ensures c[i].grant == links[i].grant && Continuous(c, principal, i) && SignedAt(c, keys, i)
    {
      assert HopOfLink(c, links, keys, principal, i);
    }
    if Accepted(c, keys, principal, now, limit) {
      forall i | 0 <= i < |links|
        ensures !Expired(links[i].grant, now) && NarrowsAt(c, i)
      {
        assert HopHolds(c, keys, principal, now, i);
      }
      forall i | 0 < i < |links|
        ensures Attenuates(links[i - 1].grant, links[i].grant)
      {
        assert NarrowsAt(c, i) && c[i].grant == links[i].grant && c[i - 1].grant == links[i - 1].grant;
      }
    } else {
      assert |links| <= limit ==> exists i :: 0 <= i < |c| && !HopHolds(c, keys, principal, now, i);
    }
  }
}
