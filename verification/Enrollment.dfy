/** Enrollment nonces and bootstrap tokens (workload/workload.go, workload/enroll.go). Times are in
    seconds; nonces are fresh; an evidence MAC is a term over its key, the nonce and the public key. */
module Enrollment {
  import opened Common
  import opened SigCtx

  // ---------------------------------------------------------------- nonces

  const NONCE_TTL := 120.0
  const MAX_OUTSTANDING := 4096

  /** Outstanding nonces and their expiries. */
  type Table = map<string, real>

  function Sweep(t: Table, now: real): Table {
    map n | n in t && now < t[n] :: t[n]
  }

  /** Expired nonces are dropped first; a full table refuses. */
  function IssueNonce(t: Table, n: string, now: real): (Table, bool) {
    var s := Sweep(t, now);
    if |s| >= MAX_OUTSTANDING then (s, false) else (s[n := now + NONCE_TTL], true)
  }

  datatype Consumed = Unknown | Expired | Good

  /** A nonce is spent by being looked up, whatever comes of it. */
  function ConsumeNonce(t: Table, n: string, now: real): (Table, Consumed) {
    if n !in t then (t, Unknown) else (t - {n}, if now < t[n] then Good else Expired)
  }

  class NonceTable {
    var nonces: Table

    constructor ()
      ensures nonces == map[]
    {
      nonces := map[];
    }

    method Nonce(n: string, now: real) returns (ok: bool)
      modifies this
      ensures (nonces, ok) == IssueNonce(old(nonces), n, now)
    {
      var todo := nonces.Keys;
      while todo != {}
        invariant todo <= old(nonces).Keys
        invariant nonces == map k | k in old(nonces) && (k in todo || now < old(nonces)[k]) :: old(nonces)[k]
        decreases |todo|
      {
        var k :| k in todo;
        if !(now < nonces[k]) {
          nonces := nonces - {k};
        }
        todo := todo - {k};
      }
      assert nonces == Sweep(old(nonces), now);
      if |nonces| >= MAX_OUTSTANDING {
        return false;
      }
      nonces := nonces[n := now + NONCE_TTL];
      return true;
    }

    method Consume(n: string, now: real) returns (r: Consumed)
      modifies this
      ensures (nonces, r) == ConsumeNonce(old(nonces), n, now)
    {
      if n !in nonces {
        return Unknown;
      }
      var exp := nonces[n];
      nonces := nonces - {n};
      if !(now < exp) {
        return Expired;
      }
      return Good;
    }
  }

  // ---------------------------------------------------------------- bootstrap tokens

  const MAX_AGENT_ID := 128
  const DEFAULT_USES := 1
  const DEFAULT_TOKEN_TTL := 900.0

  predicate Alphanumeric(c: char) {
    'a' <= c <= 'z' || 'A' <= c <= 'Z' || '0' <= c <= '9'
  }

  predicate ValidAgentId(id: string) {
    && 0 < |id| <= MAX_AGENT_ID
    && forall i :: 0 <= i < |id| ==>
         Alphanumeric(id[i]) || (i > 0 && (id[i] == '.' || id[i] == '_' || id[i] == '-'))
  }

  datatype TokenGrant = TokenGrant(agentId: string, left: int, uses: int, notAfter: real)

  /** The key HMAC-SHA256 makes of a token (RFC 2104, section 2): one of up to a block's length is
      filled up with zero bytes, a longer one is hashed. */
  datatype MacKey = Padded(bytes: string) | Hashed(token: string)

  const BLOCK := 64

  function DropZeros(s: string): string {
    if s != "" && s[|s| - 1] == '\0' then DropZeros(s[..|s| - 1]) else s
  }

  function KeyOf(token: string): MacKey {
    if |token| <= BLOCK then Padded(DropZeros(token)) else Hashed(token)
  }

  /** Two tokens that differ in trailing zero bytes only make one key. */
  lemma ZeroPaddedTokensCollide(token: string)
    requires |token| < BLOCK
    ensures KeyOf(token + "\0") == KeyOf(token)
  {
    assert (token + "\0")[..|token|] == token;
  }

  datatype Evidence = Mac(key: MacKey, nonce: string, pub: PublicKey) | Noise(bytes: seq<nat>)

  datatype AttestError = Rejected | TokenExpired | TokenSpent

  function RegisterGrant(tokens: map<string, TokenGrant>, token: string, agentId: string, uses: int, ttl: real, now: real)
    : Option<map<string, TokenGrant>>
  {
    if token == "" || !ValidAgentId(agentId) then None
    else
      var u := if uses <= 0 then DEFAULT_USES else uses;
      Some(tokens[token := TokenGrant(agentId, u, u, now + if ttl <= 0.0 then DEFAULT_TOKEN_TTL else ttl)])
  }

  predicate Live(tokens: map<string, TokenGrant>, token: string) {
    token in tokens && tokens[token].agentId != ""
  }

  /** The evidence over this nonce and key was made with this registered token, or with one that
      makes the same key. */
  predicate Matches(tokens: map<string, TokenGrant>, token: string, e: Evidence, nonce: string, pub: PublicKey) {
    && pub.Key? && nonce != "" && Live(tokens, token)
    && e == Mac(KeyOf(token), nonce, pub)
  }

  predicate SomeMatch(tokens: map<string, TokenGrant>, e: Evidence, nonce: string, pub: PublicKey) {
    exists token :: token in tokens && Matches(tokens, token, e, nonce, pub)
  }

  /** A matching token is checked, and one use of it spent. */
  function Charge(tokens: map<string, TokenGrant>, token: string, now: real)
    : (map<string, TokenGrant>, Result<string, AttestError>)
    requires token in tokens
  {
    var g := tokens[token];
    if !(now < g.notAfter) then (tokens, Err(TokenExpired))
    else if g.left <= 0 then (tokens, Err(TokenSpent))
    else (tokens[token := g.(left := g.left - 1)], Ok(g.agentId))
  }

  /** Whatever evidence comes in, and whenever: the answer and what is charged are the same for every
      token it matches, so the order in which tokens are tried cannot be told. */
  ghost predicate OrderNeverMatters(tokens: map<string, TokenGrant>) {
    forall e, nonce, pub, now, t, u ::
      Matches(tokens, t, e, nonce, pub) && Matches(tokens, u, e, nonce, pub) ==> Charge(tokens, t, now) == Charge(tokens, u, now)
  }

  /** Neither token has a use left, and they expire together. */
  predicate SpentAlike(g: TokenGrant, h: TokenGrant) {
    g.left <= 0 && h.left <= 0 && g.notAfter == h.notAfter
  }

  /** Any two registered tokens that make one key are spent alike. */
  ghost predicate CollisionsSpent(tokens: map<string, TokenGrant>) {
    forall t, u :: Live(tokens, t) && Live(tokens, u) && t != u && KeyOf(t) == KeyOf(u) ==> SpentAlike(tokens[t], tokens[u])
  }

  /** Two tokens that are not spent alike answer differently at some moment. */
  lemma AnswersDiffer(tokens: map<string, TokenGrant>, t: string, u: string) returns (now: real)
    requires t in tokens && u in tokens && t != u && !SpentAlike(tokens[t], tokens[u])
    ensures Charge(tokens, t, now) != Charge(tokens, u, now)
  {
    var g, h := tokens[t], tokens[u];
    if g.left > 0 {
      now := g.notAfter - 1.0;
      assert Charge(tokens, t, now).0[t].left == g.left - 1;
      assert Charge(tokens, u, now).0[t] == g;
    } else if h.left > 0 {
      now := h.notAfter - 1.0;
      assert Charge(tokens, u, now).0[u].left == h.left - 1;
      assert Charge(tokens, t, now).0[u] == h;
    } else {
      now := if g.notAfter < h.notAfter then g.notAfter else h.notAfter;
    }
  }

  /** When the order of the trial is irrelevant: exactly when no two registered tokens make one key,
      except spent ones that expire together. */
  lemma TrialOrderIsIrrelevant(tokens: map<string, TokenGrant>)
    ensures OrderNeverMatters(tokens) <==> CollisionsSpent(tokens)
  {
    if !CollisionsSpent(tokens) {
      var t, u :| Live(tokens, t) && Live(tokens, u) && t != u && KeyOf(t) == KeyOf(u) && !SpentAlike(tokens[t], tokens[u]);
      var e := Mac(KeyOf(t), "n", Key(0));
      assert Matches(tokens, t, e, "n", Key(0)) && Matches(tokens, u, e, "n", Key(0));
      var now := AnswersDiffer(tokens, t, u);
    }
  }

  /** And it does matter: register a token for one agent, and the token with a zero byte after it for
      another. Evidence made with either, over any nonce and key, then yields the one agent's id or the
      other's, as the trial happens to go. */
  lemma EitherAgentMayAnswer(token: string, agent: string, other: string, nonce: string, pub: PublicKey, now: real)
    requires 0 < |token| < BLOCK && ValidAgentId(agent) && ValidAgentId(other) && nonce != "" && pub.Key?
    ensures var first := RegisterGrant(map[], token, agent, 1, 1.0, now);
            && first.Some?
            && var both := RegisterGrant(first.value, token + "\0", other, 1, 1.0, now);
               && both.Some?
               && var tokens, e := both.value, Mac(KeyOf(token), nonce, pub);
                  && Matches(tokens, token, e, nonce, pub) && Charge(tokens, token, now).1 == Ok(agent)
                  && Matches(tokens, token + "\0", e, nonce, pub) && Charge(tokens, token + "\0", now).1 == Ok(other)
  {
    ZeroPaddedTokensCollide(token);
    assert |token + "\0"| != |token|;
  }

  class TokenAttestor {
    var tokens: map<string, TokenGrant>

    constructor ()
      ensures tokens == map[]
    {
      tokens := map[];
    }

    method Register(token: string, agentId: string, uses: int, ttl: real, now: real) returns (ok: bool)
      modifies this
      ensures var r := RegisterGrant(old(tokens), token, agentId, uses, ttl, now);
              ok == r.Some? && tokens == if ok then r.value else old(tokens)
    {
      if token == "" || !ValidAgentId(agentId) {
        return false;
      }
      var u := if uses <= 0 then DEFAULT_USES else uses;
      var t := if ttl <= 0.0 then DEFAULT_TOKEN_TTL else ttl;
      tokens := tokens[token := TokenGrant(agentId, u, u, now + t)];
      return true;
    }

    /** Tries every registered token in no particular order and charges the first that matches;
        `TrialOrderIsIrrelevant` says when it makes no difference which. */
    method AttestEvidence(e: Evidence, nonce: string, pub: PublicKey, now: real) returns (r: Result<string, AttestError>)
      modifies this
      ensures !SomeMatch(old(tokens), e, nonce, pub) ==> r == Err(Rejected) && tokens == old(tokens)
      ensures SomeMatch(old(tokens), e, nonce, pub) ==>
                exists token :: Matches(old(tokens), token, e, nonce, pub) && (tokens, r) == Charge(old(tokens), token, now)
    {
      if !pub.Key? || |nonce| == 0 {
        return Err(Rejected);
      }
      var todo := tokens.Keys;
      while todo != {}
        invariant todo <= tokens.Keys && tokens == old(tokens)
        invariant forall token :: token in tokens && Matches(tokens, token, e, nonce, pub) ==> token in todo
        decreases |todo|
      {
        var token :| token in todo;
        todo := todo - {token};
        var g := tokens[token];
        if g.agentId == "" || e != Mac(KeyOf(token), nonce, pub) {
          continue;
        }
        assert Matches(old(tokens), token, e, nonce, pub);
        if !(now < g.notAfter) {
          return Err(TokenExpired);
        }
        if g.left <= 0 {
          return Err(TokenSpent);
        }
        tokens := tokens[token := g.(left := g.left - 1)];
        return Ok(g.agentId);
      }
      return Err(Rejected);
    }
  }

  // ---------------------------------------------------------------- runs

  /** A registration of a bootstrap token; registering a token again starts a new one. */
  datatype Registration = Registration(token: string, grant: TokenGrant)

  /** An enrollment that has spent its nonce and goes, once, to the attestor. */
  datatype Attempt = Attempt(evidence: Evidence, nonce: string, pub: PublicKey, at: real, attested: bool)

  datatype Credential = Credential(registration: nat, attempt: nat, agentId: string, pub: PublicKey, at: real)

  datatype World = World(clock: real, table: Table, born: map<string, real>, attempts: seq<Attempt>,
                         registrations: seq<Registration>, current: map<string, nat>, credentials: seq<Credential>)

  datatype Event =
    | NewNonce(n: string, now: real)
    | RegisterToken(token: string, agentId: string, uses: int, ttl: real, now: real)
    | Present(evidence: Evidence, nonce: string, pub: PublicKey, now: real)
    | AttestAttempt(which: nat, token: string, now: real)

  const START := World(0.0, map[], map[], [], [], map[], [])

  /** The attestor's token map. */
  function Tokens(w: World): map<string, TokenGrant>
    requires forall t :: t in w.current ==> w.current[t] < |w.registrations|
  {
    map t | t in w.current :: w.registrations[w.current[t]].grant
  }

  predicate Indexed(w: World) {
    forall t :: t in w.current ==> w.current[t] < |w.registrations|
  }

  /** Spending the nonce and attesting are separate steps of Issue; between them other enrollments,
      registrations and expiries happen. An attestation names the matching token that the attestor's
      trial came upon first, any of them. The clock does not run backwards. */
  function Do(w: World, e: Event): (w': World)
    requires Indexed(w)
    ensures Indexed(w')
  {
    if e.now < w.clock then w else
    var w := w.(clock := e.now);
    match e
    case NewNonce(n, now) =>
      if n in w.born then w
      else
        var (t, ok) := IssueNonce(w.table, n, now);
        w.(table := t, born := if ok then w.born[n := now] else w.born)
    case RegisterToken(token, agentId, uses, ttl, now) =>
      var r := RegisterGrant(map[], token, agentId, uses, ttl, now);
      if r.None? then w
      else w.(registrations := w.registrations + [Registration(token, r.value[token])],
              current := w.current[token := |w.registrations|])
    case Present(evidence, nonce, pub, now) =>
      if !pub.Key? then w
      else
        var (t, c) := ConsumeNonce(w.table, nonce, now);
        w.(table := t,
           attempts := if c.Good? then w.attempts + [Attempt(evidence, nonce, pub, now, false)] else w.attempts)
    case AttestAttempt(which, token, now) =>
      if which >= |w.attempts| || w.attempts[which].attested then w
      else
        var a := w.attempts[which];
        var attempts := w.attempts[which := a.(attested := true)];
        if !SomeMatch(Tokens(w), a.evidence, a.nonce, a.pub) then w.(attempts := attempts)
        else if !Matches(Tokens(w), token, a.evidence, a.nonce, a.pub) then w
        else
          var (tokens, r) := Charge(Tokens(w), token, now);
          if r.Err? then w.(attempts := attempts)
          else
            var i := w.current[token];
            w.(attempts := attempts,
               registrations := w.registrations[i := w.registrations[i].(grant := tokens[token])],
               credentials := if ValidAgentId(r.value) then w.credentials + [Credential(i, which, r.value, a.pub, now)]
                              else w.credentials)
  }

  function DoAll(run: seq<Event>): (w: World)
    ensures Indexed(w)
  {
    if run == [] then START else Do(DoAll(run[..|run| - 1]), run[|run| - 1])
  }

  /** How many credentials were issued under a registration. */
  function IssuedUnder(credentials: seq<Credential>, r: nat): nat {
    if credentials == [] then 0
    else
      var last := |credentials| - 1;
      IssuedUnder(credentials[..last], r) + if credentials[last].registration == r then 1 else 0
  }

  /** Outstanding nonces expire one lifetime after they were issued. */
  ghost predicate NoncesKept(clock: real, table: Table, born: map<string, real>) {
    && (forall n :: n in table ==> n in born && table[n] == born[n] + NONCE_TTL)
    && (forall n :: n in born ==> born[n] <= clock)
  }

  /** A nonce that goes to the attestor was spent inside its window and is no longer outstanding. */
  ghost predicate AttemptKept(table: Table, born: map<string, real>, a: Attempt) {
    a.nonce !in table && a.nonce in born && born[a.nonce] <= a.at < born[a.nonce] + NONCE_TTL
  }

  ghost predicate RegistrationKept(g: TokenGrant, credentials: seq<Credential>, r: nat) {
    0 <= g.left && g.uses == g.left + IssuedUnder(credentials, r) && ValidAgentId(g.agentId)
  }

  ghost predicate CredentialKept(registrations: seq<Registration>, attempts: seq<Attempt>, c: Credential) {
    && c.registration < |registrations| && c.attempt < |attempts|
    && var reg, a := registrations[c.registration], attempts[c.attempt];
       && a.attested && c.at < reg.grant.notAfter && c.agentId == reg.grant.agentId
       && c.pub == a.pub && a.evidence == Mac(KeyOf(reg.token), a.nonce, c.pub)
  }

  ghost predicate Kept(w: World) {
    && Indexed(w)
    && NoncesKept(w.clock, w.table, w.born)
    && (forall i :: 0 <= i < |w.attempts| ==> AttemptKept(w.table, w.born, w.attempts[i]))
    && (forall i, j :: 0 <= i < j < |w.attempts| ==> w.attempts[i].nonce != w.attempts[j].nonce)
    && (forall r :: 0 <= r < |w.registrations| ==> RegistrationKept(w.registrations[r].grant, w.credentials, r))
    && (forall t :: t in w.current ==> w.registrations[w.current[t]].token == t)
    && (forall i :: 0 <= i < |w.credentials| ==> CredentialKept(w.registrations, w.attempts, w.credentials[i]))
    && (forall i, j :: 0 <= i < j < |w.credentials| ==> w.credentials[i].attempt != w.credentials[j].attempt)
  }

  lemma NewNonceKept(w: World, n: string)
    requires Kept(w) && n !in w.born
    ensures var (t, ok) := IssueNonce(w.table, n, w.clock);
            Kept(w.(table := t, born := if ok then w.born[n := w.clock] else w.born))
  {
  }

  lemma {:induction false} NothingIssuedYet(w: World, r: nat, n: nat)
    requires Kept(w) && r >= |w.registrations| && n <= |w.credentials|
    ensures IssuedUnder(w.credentials[..n], r) == 0
  {
    if n > 0 {
      NothingIssuedYet(w, r, n - 1);
      assert CredentialKept(w.registrations, w.attempts, w.credentials[n - 1]);
      assert w.credentials[..n][..n - 1] == w.credentials[..n - 1];
    }
  }

  lemma RegisterKept(w: World, token: string, g: TokenGrant)
    requires Kept(w) && ValidAgentId(g.agentId) && g.left == g.uses && 0 <= g.left
    ensures Kept(w.(registrations := w.registrations + [Registration(token, g)], current := w.current[token := |w.registrations|]))
  {
    var registrations := w.registrations + [Registration(token, g)];
    NothingIssuedYet(w, |w.registrations|, |w.credentials|);
    assert w.credentials[..|w.credentials|] == w.credentials;
    forall i | 0 <= i < |w.credentials|
      ensures CredentialKept(registrations, w.attempts, w.credentials[i])
    {
      assert CredentialKept(w.registrations, w.attempts, w.credentials[i]);
    }
  }

  /** The nonce is spent; if it was good, one more attempt goes to the attestor. */
  lemma PresentKept(w: World, evidence: Evidence, nonce: string, pub: PublicKey, good: bool)
    requires Kept(w) && nonce in w.table && (good ==> w.clock < w.table[nonce])
    ensures Kept(w.(table := w.table - {nonce},
                    attempts := if good then w.attempts + [Attempt(evidence, nonce, pub, w.clock, false)] else w.attempts))
  {
  }

  /** An attempt goes to the attestor once. */
  lemma AttestedKept(w: World, which: nat)
    requires Kept(w) && which < |w.attempts|
    ensures Kept(w.(attempts := w.attempts[which := w.attempts[which].(attested := true)]))
  {
  }

  /** One use is spent and one credential issued. */
  lemma IssueKept(w: World, r: nat, c: Credential)
    requires Kept(w) && r < |w.registrations| && c.registration == r && 0 < w.registrations[r].grant.left
    requires CredentialKept(w.registrations, w.attempts, c)
    requires forall i :: 0 <= i < |w.credentials| ==> w.credentials[i].attempt != c.attempt
    ensures var g := w.registrations[r].grant;
            Kept(w.(registrations := w.registrations[r := w.registrations[r].(grant := g.(left := g.left - 1))],
                    credentials := w.credentials + [c]))
  {
  }

  /** A matching token belongs to a registration. */
  lemma MatchIsRegistered(w: World, a: Attempt, token: string)
    requires Kept(w) && Matches(Tokens(w), token, a.evidence, a.nonce, a.pub)
    ensures token in w.current
    ensures var reg := w.registrations[w.current[token]];
            && a.evidence == Mac(KeyOf(reg.token), a.nonce, a.pub)
            && Tokens(w)[token] == reg.grant && ValidAgentId(reg.grant.agentId)
  {
    assert RegistrationKept(w.registrations[w.current[token]].grant, w.credentials, w.current[token]);
  }

  /** One use of registration i spent, and one credential issued for the attempt. */
  function Credited(w: World, which: nat, i: nat): World
    requires which < |w.attempts| && i < |w.registrations|
  {
    var a, g := w.attempts[which], w.registrations[i].grant;
    w.(attempts := w.attempts[which := a.(attested := true)],
       registrations := w.registrations[i := w.registrations[i].(grant := g.(left := g.left - 1))],
       credentials := w.credentials + [Credential(i, which, g.agentId, a.pub, w.clock)])
  }

  /** The world after an attempt was attested: refused, or credited. */
  function Attested(w: World, which: nat, token: string): World
    requires Indexed(w) && which < |w.attempts|
  {
    var a := w.attempts[which];
    var v := w.(attempts := w.attempts[which := a.(attested := true)]);
    if !SomeMatch(Tokens(w), a.evidence, a.nonce, a.pub) then v
    else if !Matches(Tokens(w), token, a.evidence, a.nonce, a.pub) then w
    else if Charge(Tokens(w), token, w.clock).1.Err? then v
    else Credited(w, which, w.current[token])
  }

  lemma AttestStep(w: World, which: nat, token: string)
    requires Kept(w) && which < |w.attempts| && !w.attempts[which].attested
    ensures Do(w, AttestAttempt(which, token, w.clock)) == Attested(w, which, token)
  {
    var a := w.attempts[which];
    if Matches(Tokens(w), token, a.evidence, a.nonce, a.pub) {
      MatchIsRegistered(w, a, token);
    }
  }

  /** The attempt has no credential before it is attested. */
  lemma NoCredentialYet(w: World, which: nat)
    requires Kept(w) && which < |w.attempts| && !w.attempts[which].attested
    ensures forall k :: 0 <= k < |w.credentials| ==> w.credentials[k].attempt != which
  {
    forall k | 0 <= k < |w.credentials|
      ensures w.credentials[k].attempt != which
    {
      assert CredentialKept(w.registrations, w.attempts, w.credentials[k]);
    }
  }

  lemma CreditedKept(w: World, which: nat, token: string, i: nat)
    requires Kept(w) && which < |w.attempts| && !w.attempts[which].attested && token in w.current && i == w.current[token]
    requires var a := w.attempts[which]; Matches(Tokens(w), token, a.evidence, a.nonce, a.pub)
    requires Charge(Tokens(w), token, w.clock).1.Ok?
    ensures Kept(Credited(w, which, i))
  {
    var a := w.attempts[which];
    AttestedKept(w, which);
    MatchIsRegistered(w, a, token);
    NoCredentialYet(w, which);
    IssueKept(w.(attempts := w.attempts[which := a.(attested := true)]), i,
              Credential(i, which, w.registrations[i].grant.agentId, a.pub, w.clock));
  }

  lemma AttestedWorldKept(w: World, which: nat, token: string)
    requires Kept(w) && which < |w.attempts| && !w.attempts[which].attested
    ensures Kept(Attested(w, which, token))
  {
    var a := w.attempts[which];
    AttestedKept(w, which);
    if Matches(Tokens(w), token, a.evidence, a.nonce, a.pub) && Charge(Tokens(w), token, w.clock).1.Ok? {
      CreditedKept(w, which, token, w.current[token]);
    }
  }

  lemma AttestKept(w: World, which: nat, token: string)
    requires Kept(w)
    ensures Kept(Do(w, AttestAttempt(which, token, w.clock)))
  {
    if which < |w.attempts| && !w.attempts[which].attested {
      AttestStep(w, which, token);
      AttestedWorldKept(w, which, token);
    }
  }

  lemma StepKept(w: World, e: Event)
    requires Kept(w)
    ensures Kept(Do(w, e))
  {
    if e.now >= w.clock {
      var v := w.(clock := e.now);
      assert Kept(v);
      match e
      case NewNonce(n, now) =>
        if n !in v.born {
          NewNonceKept(v, n);
        }
      case RegisterToken(token, agentId, uses, ttl, now) =>
        var r := RegisterGrant(map[], token, agentId, uses, ttl, now);
        if r.Some? {
          RegisterKept(v, token, r.value[token]);
        }
      case Present(evidence, nonce, pub, now) =>
        if pub.Key? && nonce in v.table {
          PresentKept(v, evidence, nonce, pub, now < v.table[nonce]);
        }
      case AttestAttempt(which, token, now) =>
        AttestKept(v, which, token);
    }
  }

  lemma {:induction false} RunsKeep(run: seq<Event>)
    ensures Kept(DoAll(run))
  {
    if run != [] {
      RunsKeep(run[..|run| - 1]);
      StepKept(DoAll(run[..|run| - 1]), run[|run| - 1]);
    }
  }

  /** Every nonce goes to the attestor at most once, and only if it was spent inside its window; the
      attestor may be called later. */
  lemma NonceReachesAttestorOnce(run: seq<Event>, i: nat, j: nat)
    requires i <= j < |DoAll(run).attempts|
    ensures var w := DoAll(run);
            && (w.attempts[i].nonce == w.attempts[j].nonce ==> i == j)
            && var n := w.attempts[i].nonce;
               n in w.born && w.born[n] <= w.attempts[i].at < w.born[n] + NONCE_TTL
  {
    RunsKeep(run);
    var w := DoAll(run);
    assert AttemptKept(w.table, w.born, w.attempts[i]);
  }

  /** Budgets add up: for every registration, the uses it was given are the uses left plus the
      credentials issued under it. */
  lemma UsesAreAccountedFor(run: seq<Event>, r: nat)
    requires r < |DoAll(run).registrations|
    ensures var w := DoAll(run);
            var g := w.registrations[r].grant;
            0 <= g.left && g.uses == g.left + IssuedUnder(w.credentials, r)
  {
    RunsKeep(run);
    var w := DoAll(run);
    assert RegistrationKept(w.registrations[r].grant, w.credentials, r);
  }

  /** Every credential was attested before its registration expired, under that registration's agent
      id, by evidence made with its token over the nonce of an enrollment of its own and over the very
      key it binds. */
  lemma CredentialsAreEarned(run: seq<Event>, i: nat, j: nat)
    requires i <= j < |DoAll(run).credentials|
    ensures var w := DoAll(run);
            var c := w.credentials[i];
            && c.registration < |w.registrations| && c.attempt < |w.attempts|
            && (c.attempt == w.credentials[j].attempt ==> i == j)
            && var reg, a := w.registrations[c.registration], w.attempts[c.attempt];
               c.at < reg.grant.notAfter && c.agentId == reg.grant.agentId && a.evidence == Mac(KeyOf(reg.token), a.nonce, c.pub)
  {
    RunsKeep(run);
    var w := DoAll(run);
    assert CredentialKept(w.registrations, w.attempts, w.credentials[i]);
  }

  /** Where a registration comes from: somebody registered this token for this agent, and it has the
      uses and the lifetime they asked for, or the defaults of one use and fifteen minutes. */
  ghost predicate RegisteredBy(e: Event, reg: Registration) {
    && e.RegisterToken? && e.token == reg.token && e.agentId == reg.grant.agentId
    && reg.grant.uses == (if e.uses > 0 then e.uses else 1)
    && reg.grant.notAfter == e.now + (if e.ttl > 0.0 then e.ttl else 900.0)
  }

  lemma {:induction false} RegistrationsAreAsked(run: seq<Event>, r: nat) returns (k: nat)
    requires r < |DoAll(run).registrations|
    ensures k < |run| && RegisteredBy(run[k], DoAll(run).registrations[r])
  {
    var before, e := run[..|run| - 1], run[|run| - 1];
    var w := DoAll(before);
    if r < |w.registrations| {
      k := RegistrationsAreAsked(before, r);
      RegistrationStays(w, e, r);
      assert before[k] == run[k];
    } else {
      k := |run| - 1;
      RegistrationIsNew(w, e, r);
    }
  }

  lemma RegistrationIsNew(w: World, e: Event, r: nat)
    requires Indexed(w) && |w.registrations| <= r < |Do(w, e).registrations|
    ensures RegisteredBy(e, Do(w, e).registrations[r])
  {
  }

  /** No step changes a registration but for the uses it has left. */
  lemma RegistrationStays(w: World, e: Event, r: nat)
    requires Indexed(w) && r < |w.registrations|
    ensures var w' := Do(w, e);
            && r < |w'.registrations|
            && var reg, reg' := w.registrations[r], w'.registrations[r];
               reg'.token == reg.token && reg'.grant.agentId == reg.grant.agentId
               && reg'.grant.uses == reg.grant.uses && reg'.grant.notAfter == reg.grant.notAfter
  {
  }

  lemma RunSnoc(run: seq<Event>, e: Event)
    ensures DoAll(run + [e]) == Do(DoAll(run), e)
  {
    assert (run + [e])[..|run|] == run;
  }

  /** The attestation of an honest attempt, once its nonce has been spent in time. */
  lemma HonestAttestation(w: World, token: string, which: nat, now: real)
    requires Kept(w) && w.clock <= now && which < |w.attempts| && !w.attempts[which].attested && token in w.current
    requires var a, reg := w.attempts[which], w.registrations[w.current[token]];
             && a.pub.Key? && a.nonce != "" && a.evidence == Mac(KeyOf(token), a.nonce, a.pub)
             && now < reg.grant.notAfter && reg.grant.left > 0
    ensures var c := Do(w, AttestAttempt(which, token, now)).credentials;
            && |c| == |w.credentials| + 1
            && c[|w.credentials|] == Credential(w.current[token], which, w.registrations[w.current[token]].grant.agentId,
                                                w.attempts[which].pub, now)
  {
    var a := w.attempts[which];
    assert RegistrationKept(w.registrations[w.current[token]].grant, w.credentials, w.current[token]);
    assert Matches(Tokens(w), token, a.evidence, a.nonce, a.pub);
  }

  /** An honest workload gets its credential. From any reachable state with room for a nonce: a token is
      registered, a fresh nonce asked for, and evidence with that token over the nonce and a key
      presented less than two minutes later; if the attestor then comes upon that token before it
      expires, there is one credential more, for that agent and that key. */
  lemma {:induction false} HonestWorkloadEnrolls(run: seq<Event>, token: string, agentId: string, uses: int, ttl: real,
                                                 nonce: string, key: nat, asked: real, presented: real, attested: real)
    requires token != "" && ValidAgentId(agentId) && nonce != "" && nonce !in DoAll(run).born
    requires |Sweep(DoAll(run).table, asked)| < MAX_OUTSTANDING
    requires DoAll(run).clock <= asked <= presented <= attested && presented < asked + 120.0
    requires attested < asked + if ttl > 0.0 then ttl else 900.0
    ensures var w := DoAll(run);
            var done := DoAll(run + [RegisterToken(token, agentId, uses, ttl, asked)] + [NewNonce(nonce, asked)]
                              + [Present(Mac(KeyOf(token), nonce, Key(key)), nonce, Key(key), presented)]
                              + [AttestAttempt(|w.attempts|, token, attested)]);
            && |done.credentials| == |w.credentials| + 1
            && done.credentials[|w.credentials|].agentId == agentId
            && done.credentials[|w.credentials|].pub == Key(key) && done.credentials[|w.credentials|].at == attested
  {
    var e1, e2 := RegisterToken(token, agentId, uses, ttl, asked), NewNonce(nonce, asked);
    var e3 := Present(Mac(KeyOf(token), nonce, Key(key)), nonce, Key(key), presented);
    var e4 := AttestAttempt(|DoAll(run).attempts|, token, attested);
    RunSnoc(run, e1);
    RunSnoc(run + [e1], e2);
    RunSnoc(run + [e1] + [e2], e3);
    RunSnoc(run + [e1] + [e2] + [e3], e4);
    var w1, w2, w3 := DoAll(run + [e1]), DoAll(run + [e1] + [e2]), DoAll(run + [e1] + [e2] + [e3]);
    HonestPresentation(DoAll(run), w1, w2, w3, token, agentId, uses, ttl, nonce, key, asked, presented);
    RunsKeep(run + [e1] + [e2] + [e3]);
    HonestAttestation(w3, token, |DoAll(run).attempts|, attested);
  }

  lemma RegisterStep(w: World, token: string, agentId: string, uses: int, ttl: real, now: real)
    requires Indexed(w) && token != "" && ValidAgentId(agentId) && w.clock <= now
    ensures var u := if uses <= 0 then 1 else uses;
            Do(w, RegisterToken(token, agentId, uses, ttl, now))
            == w.(clock := now,
                  registrations := w.registrations
                    + [Registration(token, TokenGrant(agentId, u, u, now + if ttl <= 0.0 then 900.0 else ttl))],
                  current := w.current[token := |w.registrations|])
  {
  }

  lemma NonceStep(w: World, nonce: string, now: real)
    requires Indexed(w) && nonce !in w.born && |Sweep(w.table, now)| < MAX_OUTSTANDING && w.clock <= now
    ensures Do(w, NewNonce(nonce, now))
         == w.(clock := now, table := Sweep(w.table, now)[nonce := now + 120.0], born := w.born[nonce := now])
  {
  }

  lemma PresentStep(w: World, evidence: Evidence, nonce: string, key: nat, now: real)
    requires Indexed(w) && nonce in w.table && w.clock <= now < w.table[nonce]
    ensures Do(w, Present(evidence, nonce, Key(key), now))
         == w.(clock := now, table := w.table - {nonce},
               attempts := w.attempts + [Attempt(evidence, nonce, Key(key), now, false)])
  {
  }

  lemma HonestPresentation(w: World, w1: World, w2: World, w3: World, token: string, agentId: string, uses: int, ttl: real,
                           nonce: string, key: nat, asked: real, presented: real)
    requires Indexed(w) && Indexed(w1) && Indexed(w2) && token != "" && ValidAgentId(agentId) && nonce != "" && nonce !in w.born
    requires |Sweep(w.table, asked)| < MAX_OUTSTANDING && w.clock <= asked <= presented < asked + 120.0
    requires w1 == Do(w, RegisterToken(token, agentId, uses, ttl, asked)) && w2 == Do(w1, NewNonce(nonce, asked))
    requires w3 == Do(w2, Present(Mac(KeyOf(token), nonce, Key(key)), nonce, Key(key), presented))
    ensures w3.credentials == w.credentials && w3.clock == presented
    ensures w3.attempts == w.attempts + [Attempt(Mac(KeyOf(token), nonce, Key(key)), nonce, Key(key), presented, false)]
    ensures token in w3.current && w3.current[token] < |w3.registrations|
    ensures var g := w3.registrations[w3.current[token]].grant;
            g.agentId == agentId && g.left > 0 && g.notAfter == asked + if ttl > 0.0 then ttl else 900.0
  {
    RegisterStep(w, token, agentId, uses, ttl, asked);
    NonceStep(w1, nonce, asked);
    PresentStep(w2, Mac(KeyOf(token), nonce, Key(key)), nonce, key, presented);
  }
}
