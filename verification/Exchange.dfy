/** The online token exchange with ancestry-based revocation (delegation/exchange.go). Times are
    whole seconds and every token carries an expiry, as every issued one does. */
module Exchange {
  import opened Common
  import opened SigCtx
  import opened Grants

  datatype TokenMsg = TokenMsg(id: string, parentId: string, principal: string, subject: string, kid: string,
                               grant: Canonical, issuedAt: int, notAfter: int)

  datatype Token = Token(id: string, parentId: string, principal: string, subject: string, grant: Grant,
                         issuedAt: int, notAfter: int, kid: string, sig: Signature<TokenMsg>) {
    function Msg(): TokenMsg {
      TokenMsg(id, parentId, principal, subject, kid, Canon(grant), issuedAt, notAfter)
    }
  }

  datatype ExchangeError = BadSignature | TokenExpired | TokenRevoked(id: string) | Widens

  // ---------------------------------------------------------------- the ancestry walk

  datatype WalkEnd = Clean | RevokedAt(id: string) | Looped

  /** Follows parents from id until there is none, a revoked one, or one seen before. */
  function Walk(parent: map<string, string>, revoked: set<string>, id: string, seen: set<string>): WalkEnd
    decreases parent.Keys - seen
  {
    if id == "" then Clean
    else if id in seen then Looped
    else if id in revoked then RevokedAt(id)
    else if id !in parent then Clean
    else Walk(parent, revoked, parent[id], seen + {id})
  }

  /** The source treats a loop in the parent map as the end of the walk. */
  function VerifyError(key: nat, parent: map<string, string>, revoked: set<string>, t: Token, now: int): Option<ExchangeError> {
    if !Verify(EXCHANGE_TOKEN, Key(key), t.Msg(), t.sig) then Some(BadSignature)
    else if now >= t.notAfter then Some(TokenExpired)
    else match Walk(parent, revoked, t.id, {})
         case RevokedAt(id) => Some(TokenRevoked(id))
         case _ => None
  }

  function Signed(key: nat, t: Token): Token {
    t.(sig := Sig(EXCHANGE_TOKEN, key, t.Msg()))
  }

  function Issue(key: nat, kid: string, ttl: int, id: string, parentId: string, principal: string, subject: string,
                 g: Grant, now: int): Token {
    Signed(key, Token(id, parentId, principal, subject, g, now, now + ttl, kid, Junk([])))
  }

  class ExchangeAuthority {
    const key: nat
    const kid: string
    const ttl: int
    var parent: map<string, string>
    var revoked: set<string>

    constructor (key: nat, kid: string, ttl: int)
      ensures this.key == key && this.kid == kid && this.ttl == (if ttl <= 0 then 3600 else ttl)
      ensures parent == map[] && revoked == {}
    {
      this.key, this.kid, this.ttl := key, kid, if ttl <= 0 then 3600 else ttl;
      parent, revoked := map[], {};
    }

    /** Issues a token under a fresh id and records its parent. */
    method IssueToken(id: string, parentId: string, principal: string, subject: string, g: Grant, now: int)
      returns (t: Token)
      modifies this`parent
      ensures t == Issue(key, kid, ttl, id, parentId, principal, subject, g, now)
      ensures parent == old(parent)[id := parentId]
    {
      t := Token(id, parentId, principal, subject, g, now, now + ttl, kid, Junk([]));
      t := t.(sig := Sig(EXCHANGE_TOKEN, key, t.Msg()));
      parent := parent[id := parentId];
    }

    method VerifyToken(t: Token, now: int) returns (e: Option<ExchangeError>)
      ensures e == VerifyError(key, parent, revoked, t, now)
    {
      if !Verify(EXCHANGE_TOKEN, Key(key), t.Msg(), t.sig) {
        return Some(BadSignature);
      }
      if !(now < t.notAfter) {
        return Some(TokenExpired);
      }
      var seen: set<string> := {};
      var id := t.id;
      while id != ""
        invariant Walk(parent, revoked, t.id, {}) == Walk(parent, revoked, id, seen)
        decreases if id == "" then 0 else if id !in parent then 1 else 2, parent.Keys - seen
      {
        if id in seen {
          break;
        }
        if id in revoked {
          return Some(TokenRevoked(id));
        }
        seen := seen + {id};
        id := if id in parent then parent[id] else "";
      }
      return None;
    }

    /** Verifies the parent and the narrowing, then issues the child; a refusal records nothing. */
    method ExchangeToken(p: Token, subject: string, narrower: Grant, verifiedAt: int, freshId: string, issuedAt: int)
      returns (r: Result<Token, ExchangeError>)
      modifies this`parent
      ensures var e := VerifyError(key, old(parent), revoked, p, verifiedAt);
              && (r.Ok? <==> e.None? && Attenuates(p.grant, narrower))
              && (e.Some? ==> r == Err(e.value)) && (e.None? && r.Err? ==> r == Err(Widens))
              && (r.Ok? ==> r.value == Issue(key, kid, ttl, freshId, p.id, p.principal, subject, narrower, issuedAt))
              && parent == if r.Ok? then old(parent)[freshId := p.id] else old(parent)
    {
      var e := VerifyToken(p, verifiedAt);
      if e.Some? {
        return Err(e.value);
      }
      var w := CheckAttenuates(p.grant, narrower);
      if w.Some? {
        return Err(Widens);
      }
      var t := IssueToken(freshId, p.id, p.principal, subject, narrower, issuedAt);
      return Ok(t);
    }

    method Revoke(id: string)
      modifies this`revoked
      ensures revoked == old(revoked) + {id}
    {
      revoked := revoked + {id};
    }
  }

  method NewExchange(priv: PrivateKey, kid: string, ttl: int) returns (r: Result<ExchangeAuthority, KeyError>)
    ensures r.Ok? <==> priv.Secret?
    ensures r.Ok? ==> && fresh(r.value) && r.value.key == priv.id && r.value.kid == kid
                      && r.value.ttl == (if ttl <= 0 then 3600 else ttl) && r.value.parent == map[] && r.value.revoked == {}
  {
    if priv.WrongSize? {
      return Err(InvalidSigningKey);
    }
    var a := new ExchangeAuthority(priv.id, kid, ttl);
    return Ok(a);
  }

  // ---------------------------------------------------------------- runs

  datatype Authority = Authority(key: nat, kid: string, ttl: int)

  /** An exchange that has verified its parent and not yet issued its child. */
  datatype Pending = Pending(presented: Token, subject: string, grant: Grant)

  datatype World = World(parent: map<string, string>, revoked: set<string>, issued: seq<Token>, pending: seq<Pending>)

  /** An exchange is two steps, since the authority's lock is not held between verifying the parent
      and recording the child: a revocation may fall in between. */
  datatype Event =
    | IssueRoot(id: string, principal: string, subject: string, g: Grant, now: int)
    | Begin(presented: Token, subject: string, g: Grant, now: int)
    | Finish(which: nat, id: string, now: int)
    | RevokeId(id: string)

  const NOTHING := World(map[], {}, [], [])

  predicate MadeBy(issued: seq<Token>, s: Signature<TokenMsg>) {
    exists i :: 0 <= i < |issued| && issued[i].sig == s
  }

  /** Random ids are fresh, and nobody presents a signature of the authority's key that the authority
      did not make. */
  function Do(a: Authority, w: World, e: Event): World {
    match e
    case IssueRoot(id, principal, subject, g, now) =>
      if id == "" || id in w.parent then w
      else w.(parent := w.parent[id := ""],
              issued := w.issued + [Issue(a.key, a.kid, a.ttl, id, "", principal, subject, g, now)])
    case Begin(presented, subject, g, now) =>
      if MadeBy(w.issued, presented.sig) && VerifyError(a.key, w.parent, w.revoked, presented, now).None?
         && Attenuates(presented.grant, g)
      then w.(pending := w.pending + [Pending(presented, subject, g)]) else w
    case Finish(which, id, now) =>
      if which >= |w.pending| || id == "" || id in w.parent then w
      else
        var p := w.pending[which];
        w.(parent := w.parent[id := p.presented.id],
           issued := w.issued + [Issue(a.key, a.kid, a.ttl, id, p.presented.id, p.presented.principal, p.subject, p.grant, now)])
    case RevokeId(id) => w.(revoked := w.revoked + {id})
  }

  function DoAll(a: Authority, run: seq<Event>): World {
    if run == [] then NOTHING else Do(a, DoAll(a, run[..|run| - 1]), run[|run| - 1])
  }

  /** The child's grant narrows a reading of the parent's that signs like it. */
  ghost predicate Derived(p: Grant, c: Grant) {
    exists g :: Canon(g) == Canon(p) && Attenuates(g, c)
  }

  ghost predicate Recorded(key: nat, parent: map<string, string>, t: Token) {
    t.id != "" && t.id in parent && parent[t.id] == t.parentId && t.sig == Sig(EXCHANGE_TOKEN, key, t.Msg())
  }

  ghost predicate ChildOf(c: Token, p: Token) {
    c.parentId == p.id && c.principal == p.principal && Derived(p.grant, c.grant)
  }

  /** A token is a root or the child of one issued before it. */
  ghost predicate Rooted(issued: seq<Token>, n: nat, t: Token)
    requires n <= |issued|
  {
    t.parentId == "" || exists j :: 0 <= j < n && ChildOf(t, issued[j])
  }

  ghost predicate Backed(issued: seq<Token>, p: Pending) {
    && Attenuates(p.presented.grant, p.grant)
    && exists j :: 0 <= j < |issued| && SignsLike(issued[j], p.presented)
  }

  predicate SignsLike(t: Token, u: Token) {
    t.id == u.id && t.principal == u.principal && Canon(t.grant) == Canon(u.grant)
  }

  /** The issued tokens form a forest in order of issue, and the parent map is its map of edges. */
  ghost predicate Forest(a: Authority, w: World) {
    && (forall i :: 0 <= i < |w.issued| ==> Recorded(a.key, w.parent, w.issued[i]))
    && (forall i :: 0 <= i < |w.issued| ==> Rooted(w.issued, i, w.issued[i]))
    && (forall i, j :: 0 <= i < j < |w.issued| ==> w.issued[i].id != w.issued[j].id)
    && (forall p :: p in w.pending ==> Backed(w.issued, p))
  }

  lemma AddRecorded(key: nat, parent: map<string, string>, issued: seq<Token>, t: Token)
    requires forall i :: 0 <= i < |issued| ==> Recorded(key, parent, issued[i])
    requires t.id != "" && t.id !in parent && t.sig == Sig(EXCHANGE_TOKEN, key, t.Msg())
    ensures var all := issued + [t];
            && (forall i :: 0 <= i < |all| ==> Recorded(key, parent[t.id := t.parentId], all[i]))
            && (forall i :: 0 <= i < |issued| ==> issued[i].id != t.id)
  {
    var all := issued + [t];
    forall i | 0 <= i < |all|
      ensures Recorded(key, parent[t.id := t.parentId], all[i])
      ensures i < |issued| ==> issued[i].id != t.id
    {
      if i < |issued| {
        assert Recorded(key, parent, issued[i]);
      }
    }
  }

  lemma AddRooted(issued: seq<Token>, t: Token)
    requires forall i :: 0 <= i < |issued| ==> Rooted(issued, i, issued[i])
    requires Rooted(issued, |issued|, t)
    ensures var all := issued + [t]; forall i :: 0 <= i < |all| ==> Rooted(all, i, all[i])
  {
    var all := issued + [t];
    forall i | 0 <= i < |all|
      ensures Rooted(all, i, all[i])
    {
      StillRooted(issued, t, i, all[i]);
    }
  }

  lemma AddBacked(issued: seq<Token>, t: Token, p: Pending)
    requires Backed(issued, p)
    ensures Backed(issued + [t], p)
  {
    var j :| 0 <= j < |issued| && SignsLike(issued[j], p.presented);
    assert (issued + [t])[j] == issued[j];
  }

  lemma AddToken(a: Authority, w: World, t: Token)
    requires Forest(a, w) && t.id != "" && t.id !in w.parent && t.sig == Sig(EXCHANGE_TOKEN, a.key, t.Msg())
    requires Rooted(w.issued, |w.issued|, t)
    ensures Forest(a, w.(parent := w.parent[t.id := t.parentId], issued := w.issued + [t]))
  {
    AddRecorded(a.key, w.parent, w.issued, t);
    AddRooted(w.issued, t);
    forall p | p in w.pending
      ensures Backed(w.issued + [t], p)
    {
      AddBacked(w.issued, t, p);
    }
  }

  lemma StillRooted(issued: seq<Token>, t: Token, n: nat, u: Token)
    requires n <= |issued| && Rooted(issued, n, u)
    ensures Rooted(issued + [t], n, u)
  {
    if u.parentId != "" {
      var j :| 0 <= j < n && ChildOf(u, issued[j]);
      assert (issued + [t])[j] == issued[j];
    }
  }

  lemma AddPending(a: Authority, w: World, p: Pending)
    requires Forest(a, w) && MadeBy(w.issued, p.presented.sig) && Attenuates(p.presented.grant, p.grant)
    requires Verify(EXCHANGE_TOKEN, Key(a.key), p.presented.Msg(), p.presented.sig)
    ensures Forest(a, w.(pending := w.pending + [p]))
  {
  }

  lemma FinishIsRooted(w: World, p: Pending, t: Token)
    requires Backed(w.issued, p) && t.parentId == p.presented.id && t.principal == p.presented.principal && t.grant == p.grant
    ensures Rooted(w.issued, |w.issued|, t)
  {
  }

  lemma StepKeepsForest(a: Authority, w: World, e: Event)
    requires Forest(a, w)
    ensures Forest(a, Do(a, w, e))
  {
    match e
    case IssueRoot(id, principal, subject, g, now) =>
      if id != "" && id !in w.parent {
        AddToken(a, w, Issue(a.key, a.kid, a.ttl, id, "", principal, subject, g, now));
      }
    case Begin(presented, subject, g, now) =>
      if Do(a, w, e) != w {
        AddPending(a, w, Pending(presented, subject, g));
      }
    case Finish(which, id, now) =>
      if which < |w.pending| && id != "" && id !in w.parent {
        var p := w.pending[which];
        var t := Issue(a.key, a.kid, a.ttl, id, p.presented.id, p.presented.principal, p.subject, p.grant, now);
        FinishIsRooted(w, p, t);
        AddToken(a, w, t);
      }
    case RevokeId(id) =>
  }

  lemma {:induction false} RunsKeepForest(a: Authority, run: seq<Event>)
    ensures Forest(a, DoAll(a, run))
  {
    if run != [] {
      RunsKeepForest(a, run[..|run| - 1]);
      StepKeepsForest(a, DoAll(a, run[..|run| - 1]), run[|run| - 1]);
    }
  }

  // ---------------------------------------------------------------- ancestry

  /** The index of the token with this id among the first n. */
  function Find(issued: seq<Token>, id: string, n: nat): (r: Option<nat>)
    requires n <= |issued|
    ensures r.Some? ==> r.value < n && issued[r.value].id == id
    ensures r.None? ==> forall i :: 0 <= i < n ==> issued[i].id != id
  {
    if n == 0 then None else if issued[n - 1].id == id then Some(n - 1) else Find(issued, id, n - 1)
  }

  /** A token and its ancestors, youngest first. */
  function Lineage(issued: seq<Token>, i: nat): (l: seq<nat>)
    requires i < |issued|
    ensures forall k :: k in l ==> k <= i
    decreases i
  {
    var p := Find(issued, issued[i].parentId, i);
    if p.None? then [i] else [i] + Lineage(issued, p.value)
  }

  lemma LineageOfChild(issued: seq<Token>, i: nat, j: nat)
    requires i < |issued| && Find(issued, issued[i].parentId, i) == Some(j)
    ensures forall k :: k in Lineage(issued, i) <==> k == i || k in Lineage(issued, j)
    ensures j in Lineage(issued, j)
  {
  }

  ghost predicate LineageRevoked(w: World, i: nat)
    requires i < |w.issued|
  {
    exists k :: k in Lineage(w.issued, i) && w.issued[k].id in w.revoked
  }

  /** On a forest the walk never meets an id twice, and it stops at a revoked id exactly if the token
      or an ancestor is revoked. */
  lemma {:induction false} WalkFollowsLineage(a: Authority, w: World, i: nat, seen: set<string>)
    requires Forest(a, w) && i < |w.issued| && forall k :: 0 <= k <= i ==> w.issued[k].id !in seen
    ensures var end := Walk(w.parent, w.revoked, w.issued[i].id, seen);
            !end.Looped? && (end.RevokedAt? <==> LineageRevoked(w, i))
    decreases i
  {
    var t := w.issued[i];
    assert Recorded(a.key, w.parent, t) && Rooted(w.issued, i, t);
    assert i in Lineage(w.issued, i);
    var p := Find(w.issued, t.parentId, i);
    if t.id in w.revoked {
    } else if p.None? {
      assert t.parentId == "";
      assert Lineage(w.issued, i) == [i];
    } else {
      var j := p.value;
      assert Recorded(a.key, w.parent, w.issued[j]);
      WalkFollowsLineage(a, w, j, seen + {t.id});
      LineageOfChild(w.issued, i, j);
    }
  }

  /** The cascade is exact. After any run, however revocations interleave with exchanges, a token
      that signs like an issued, unexpired one is refused if and only if that token or one of its
      ancestors was revoked; the loop guard of the walk never fires. */
  lemma {:induction false} CascadeIsExact(a: Authority, run: seq<Event>, t: Token, now: int, i: nat)
    requires i < |DoAll(a, run).issued| && DoAll(a, run).issued[i].sig == t.sig
    requires Verify(EXCHANGE_TOKEN, Key(a.key), t.Msg(), t.sig) && now < DoAll(a, run).issued[i].notAfter
    ensures var w := DoAll(a, run);
            && (VerifyError(a.key, w.parent, w.revoked, t, now).Some? <==> LineageRevoked(w, i))
            && !Walk(w.parent, w.revoked, t.id, {}).Looped?
  {
    var w := DoAll(a, run);
    RunsKeepForest(a, run);
    assert Recorded(a.key, w.parent, w.issued[i]);
    assert t.Msg() == w.issued[i].Msg();
    WalkFollowsLineage(a, w, i, {});
  }

  /** Where a token comes from: an event that issued it under this id at this moment, for the authority's
      lifetime; a root with the principal, subject and grant asked for. */
  ghost predicate IssuedBy(a: Authority, e: Event, t: Token) {
    && (e.IssueRoot? || e.Finish?) && e.id == t.id && e.now == t.issuedAt && t.notAfter == e.now + a.ttl && t.kid == a.kid
    && (e.IssueRoot? ==> t.parentId == "" && t.principal == e.principal && t.subject == e.subject && t.grant == e.g)
  }

  lemma {:induction false} TokensAreAsked(a: Authority, run: seq<Event>, i: nat)
    requires i < |DoAll(a, run).issued|
    ensures exists k :: 0 <= k < |run| && IssuedBy(a, run[k], DoAll(a, run).issued[i])
  {
    var before := run[..|run| - 1];
    var w := DoAll(a, before);
    if i < |w.issued| {
      TokensAreAsked(a, before, i);
      var k :| 0 <= k < |before| && IssuedBy(a, before[k], w.issued[i]);
      assert run[k] == before[k] && DoAll(a, run).issued[i] == w.issued[i];
    } else {
      assert IssuedBy(a, run[|run| - 1], DoAll(a, run).issued[i]);
    }
  }

  /** Revoked is exactly what somebody asked to revoke. */
  lemma {:induction false} RevokedAreAsked(a: Authority, run: seq<Event>, id: string)
    ensures id in DoAll(a, run).revoked <==> RevokeId(id) in run
  {
    if run != [] {
      RevokedAreAsked(a, run[..|run| - 1], id);
      assert run == run[..|run| - 1] + [run[|run| - 1]];
    }
  }

  /** The two tokens agree in every field a signature covers, the grants up to their signing input. */
  ghost predicate SameSigned(t: Token, u: Token) {
    && t.id == u.id && t.parentId == u.parentId && t.principal == u.principal && t.subject == u.subject && t.kid == u.kid
    && t.issuedAt == u.issuedAt && t.notAfter == u.notAfter && Canon(t.grant) == Canon(u.grant)
  }

  /** Verification is exact. After any run, whoever presents a token with the signature of an issued one,
      at any time, it is refused if and only if something in it was changed, or a lifetime has passed
      since it was issued, or it or one of its ancestors was revoked. */
  lemma {:induction false} VerificationIsExact(a: Authority, run: seq<Event>, t: Token, now: int, i: nat)
    requires i < |DoAll(a, run).issued| && DoAll(a, run).issued[i].sig == t.sig
    ensures var w := DoAll(a, run);
            VerifyError(a.key, w.parent, w.revoked, t, now).Some? <==>
              || !SameSigned(t, w.issued[i])
              || now >= w.issued[i].issuedAt + a.ttl
              || exists j :: j in Lineage(w.issued, i) && RevokeId(w.issued[j].id) in run
  {
    var w := DoAll(a, run);
    RunsKeepForest(a, run);
    assert Recorded(a.key, w.parent, w.issued[i]);
    TokensAreAsked(a, run, i);
    if SameSigned(t, w.issued[i]) && now < w.issued[i].notAfter {
      CascadeIsExact(a, run, t, now, i);
    }
    forall j | j in Lineage(w.issued, i)
      ensures w.issued[j].id in w.revoked <==> RevokeId(w.issued[j].id) in run
    {
      RevokedAreAsked(a, run, w.issued[j].id);
    }
  }

  /** Nothing is ever un-revoked, and an issued token stays where it is. */
  lemma {:induction false} HistoryOnlyGrows(a: Authority, run: seq<Event>, n: nat)
    requires n <= |run|
    ensures var w, w' := DoAll(a, run[..n]), DoAll(a, run); w.issued <= w'.issued && w.revoked <= w'.revoked
  {
    if n == |run| {
      assert run[..n] == run;
    } else {
      assert run[..|run| - 1][..n] == run[..n];
      HistoryOnlyGrows(a, run[..|run| - 1], n);
    }
  }

  // ---------------------------------------------------------------- grants along a lineage

  /** Everything the attenuation rule compares except the expiry. */
  predicate Confined(p: Grant, c: Grant) {
    Within(p.tools, c.tools) && Within(p.servers, c.servers) && BudgetWithin(p.budget, c.budget)
  }

  lemma SameMultisetWithin(p: seq<string>, p': seq<string>, q: seq<string>)
    requires multiset(p) == multiset(p') && Within(p, q)
    ensures Within(p', q)
  {
    SameMembers(p, p', "");
    forall x | x in q && p' != []
      ensures x in p'
    {
      SameMembers(p, p', x);
    }
  }

  lemma DerivedIsConfined(p: Grant, c: Grant)
    requires Derived(p, c)
    ensures Confined(p, c)
    ensures !EpochBound(p) ==> Attenuates(p, c)
  {
    var g :| Canon(g) == Canon(p) && Attenuates(g, c);
    SameMultisetWithin(g.tools, p.tools, c.tools);
    SameMultisetWithin(g.servers, p.servers, c.servers);
  }

  lemma {:induction false} ParentIsParent(a: Authority, w: World, i: nat, j: nat)
    requires Forest(a, w) && i < |w.issued| && j < |w.issued| && w.issued[i].parentId == w.issued[j].id
    ensures ChildOf(w.issued[i], w.issued[j])
  {
    assert Recorded(a.key, w.parent, w.issued[j]) && Rooted(w.issued, i, w.issued[i]);
    var k :| 0 <= k < i && ChildOf(w.issued[i], w.issued[k]);
    assert k == j;
  }

  ghost predicate NoEpochAbove(issued: seq<Token>, i: nat)
    requires i < |issued|
  {
    forall j :: j in Lineage(issued, i) && j != i ==> !EpochBound(issued[j].grant)
  }

  lemma {:induction false} GrantWithinForest(a: Authority, w: World, i: nat, k: nat)
    requires Forest(a, w) && i < |w.issued| && k in Lineage(w.issued, i)
    ensures var s := w.issued;
            && Confined(s[k].grant, s[i].grant) && s[k].principal == s[i].principal
            && (NoEpochAbove(s, i) ==> Attenuates(s[k].grant, s[i].grant))
    decreases i
  {
    var s := w.issued;
    if k != i {
      var j := Find(s, s[i].parentId, i).value;
      ParentIsParent(a, w, i, j);
      LineageOfChild(s, i, j);
      GrantWithinForest(a, w, j, k);
      DerivedIsConfined(s[j].grant, s[i].grant);
      if NoEpochAbove(s, i) {
        assert NoEpochAbove(s, j);
        AttenuatesTransitive(s[k].grant, s[j].grant, s[i].grant);
      }
    }
  }

  /** A token's tools, servers and budget lie within every ancestor's, and its principal is theirs;
      its whole grant does, expiry included, if no ancestor is bounded at the Unix epoch. */
  lemma {:induction false} GrantWithinLineage(a: Authority, run: seq<Event>, i: nat, k: nat)
    requires i < |DoAll(a, run).issued| && k in Lineage(DoAll(a, run).issued, i)
    ensures var s := DoAll(a, run).issued;
            && Confined(s[k].grant, s[i].grant) && s[k].principal == s[i].principal
            && (NoEpochAbove(s, i) ==> Attenuates(s[k].grant, s[i].grant))
  {
    RunsKeepForest(a, run);
    GrantWithinForest(a, DoAll(a, run), i, k);
  }

  /** With any ancestor bounded at the epoch the expiry part fails: the same signature covers the
      token without its expiry, and a child that narrows that reading need not expire. */
  lemma EpochAncestorLosesExpiry(a: Authority, g: Grant, now: int)
    requires a.ttl > 0 && EpochBound(g)
    ensures var t := Issue(a.key, a.kid, a.ttl, "r", "", "p", "s", g, now);
            var free := g.(notAfter := None);
            var w := DoAll(a, [IssueRoot("r", "p", "s", g, now), Begin(t.(grant := free), "s", free, now), Finish(0, "c", now)]);
            && |w.issued| == 2 && Lineage(w.issued, 1) == [1, 0] && w.issued[1].parentId == w.issued[0].id
            && w.issued[0].grant == g && !Attenuates(g, w.issued[1].grant)
  {
    var t := Issue(a.key, a.kid, a.ttl, "r", "", "p", "s", g, now);
    var t' := t.(grant := g.(notAfter := None));
    var e0, e1, e2 := IssueRoot("r", "p", "s", g, now), Begin(t', "s", t'.grant, now), Finish(0, "c", now);
    var w1 := Do(a, NOTHING, e0);
    assert w1 == World(map["r" := ""], {}, [t], []);
    assert t'.Msg() == t.Msg() && MadeBy(w1.issued, t'.sig) by { assert w1.issued[0].sig == t'.sig; }
    assert Walk(w1.parent, w1.revoked, "r", {}) == Clean by {
      assert Walk(w1.parent, w1.revoked, "", {"r"}) == Clean;
    }
    var w2 := Do(a, w1, e1);
    assert w2.pending == [Pending(t', "s", t'.grant)];
    var run := [e0, e1, e2];
    assert run[..2] == [e0, e1] && [e0, e1][..1] == [e0] && [e0][..0] == [];
    assert DoAll(a, []) == NOTHING;
    assert DoAll(a, [e0]) == w1;
    assert DoAll(a, [e0, e1]) == w2;
    var w3 := Do(a, w2, e2);
    assert DoAll(a, run) == w3 && |w3.issued| == 2 && w3.issued[1].parentId == "r";
    assert Find(w3.issued, "r", 1) == Some(0) && Find(w3.issued, "", 0) == None;
    assert Lineage(w3.issued, 0) == [0];
  }

  /** In this run every token issued under one with grant g is within g. */
  ghost predicate ChildrenNarrow(a: Authority, run: seq<Event>, g: Grant) {
    var s := DoAll(a, run).issued;
    forall i, j :: 0 <= i < |s| && 0 <= j < |s| && s[i].parentId == s[j].id && s[j].grant == g ==> Attenuates(g, s[i].grant)
  }

  /** Exactly which grants keep their expiry: on all runs everything issued under a grant is within
      the whole of it, if and only if that grant is not bounded at the epoch. */
  lemma ChildrenNarrowExactly(a: Authority, g: Grant)
    requires a.ttl > 0
    ensures (forall run :: ChildrenNarrow(a, run, g)) <==> !EpochBound(g)
  {
    if EpochBound(g) {
      EpochAncestorLosesExpiry(a, g, 0);
      var t := Issue(a.key, a.kid, a.ttl, "r", "", "p", "s", g, 0);
      var free := g.(notAfter := None);
      assert !ChildrenNarrow(a, [IssueRoot("r", "p", "s", g, 0), Begin(t.(grant := free), "s", free, 0), Finish(0, "c", 0)], g);
    } else {
      forall run
        ensures ChildrenNarrow(a, run, g)
      {
        RunsKeepForest(a, run);
        var s := DoAll(a, run).issued;
        forall i, j | 0 <= i < |s| && 0 <= j < |s| && s[i].parentId == s[j].id && s[j].grant == g
          ensures Attenuates(g, s[i].grant)
        {
          ParentIsParent(a, DoAll(a, run), i, j);
          DerivedIsConfined(g, s[i].grant);
        }
      }
    }
  }
}
