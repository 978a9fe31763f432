/** Checkpoints and the witness that co-signs them (audit/witness.go). */
module Witness {
  import opened Common
  import opened Digests
  import opened HashLengths
  import opened Merkle
  import opened SigCtx

  datatype CheckpointMsg = CheckpointMsg(size: int, root: Bytes, kid: string)

  datatype Checkpoint = Checkpoint(size: int, root: Bytes, kid: string, sig: Signature<CheckpointMsg>) {
    function Msg(): CheckpointMsg { CheckpointMsg(size, root, kid) }
  }

  datatype Cosignature = Cosignature(kid: string, size: int, sig: Signature<CheckpointMsg>)

  datatype WitnessError = BadOperatorSignature | SizeWentBackwards | NotConsistent

  predicate VerifyCheckpoint(pub: PublicKey, cp: Checkpoint) {
    Verify(AUDIT_CHECKPOINT, pub, cp.Msg(), cp.sig)
  }

  predicate VerifyWitness(pub: PublicKey, cp: Checkpoint, ws: Cosignature) {
    ws.size == cp.size && Verify(AUDIT_WITNESS, pub, cp.Msg(), ws.sig)
  }

  // ---------------------------------------------------------------- the state machine

  /** The last checkpoint the witness co-signed, as far as it remembers it. */
  datatype State = State(lastSize: int, lastRoot: Bytes)

  const INITIAL := State(0, [])

  datatype Attempt = Attempt(cp: Checkpoint, consistency: seq<Bytes>)

  function Judge(operator: PublicKey, s: State, a: Attempt): (r: Result<State, WitnessError>)
    ensures r.Ok? ==> r.value == State(a.cp.size, a.cp.root)
  {
    if !VerifyCheckpoint(operator, a.cp) then Err(BadOperatorSignature)
    else if s.lastSize > 0 && a.cp.size < s.lastSize then Err(SizeWentBackwards)
    else if s.lastSize > 0
            && !ConsistencyAccepted(s.lastSize, a.cp.size, a.consistency, s.lastRoot, a.cp.root) then Err(NotConsistent)
    else Ok(State(a.cp.size, a.cp.root))
  }

  class CheckpointWitness {
    const priv: nat
    const kid: string
    const operatorPub: PublicKey
    var lastSize: int
    var lastRoot: Bytes

    function View(): State
      reads this
    {
      State(lastSize, lastRoot)
    }

    constructor (priv: nat, kid: string, operatorPub: PublicKey)
      ensures View() == INITIAL
      ensures this.priv == priv && this.kid == kid && this.operatorPub == operatorPub
    {
      this.priv, this.kid, this.operatorPub := priv, kid, operatorPub;
      lastSize, lastRoot := 0, [];
    }

    /** Co-signs exactly the checkpoints `Judge` admits and remembers the last of them; a refusal
        leaves the witness as it was. */
    method Cosign(cp: Checkpoint, consistency: seq<Bytes>) returns (r: Result<Cosignature, WitnessError>)
      modifies this
      ensures var j := Judge(operatorPub, old(View()), Attempt(cp, consistency));
              && (r.Ok? <==> j.Ok?)
              && (j.Ok? ==> View() == j.value && VerifyWitness(Key(priv), cp, r.value) && r.value.kid == kid)
              && (j.Err? ==> View() == old(View()) && r == Err(j.error))
    {
      if !VerifyCheckpoint(operatorPub, cp) {
        return Err(BadOperatorSignature);
      }
      if lastSize > 0 {
        if cp.size < lastSize {
          return Err(SizeWentBackwards);
        }
        var ok := VerifyConsistency(lastSize, cp.size, consistency, lastRoot, cp.root);
        if !ok {
          return Err(NotConsistent);
        }
      }
      lastSize := cp.size;
      lastRoot := cp.root;
      return Ok(Cosignature(kid, cp.size, Sig(AUDIT_WITNESS, priv, cp.Msg())));
    }
  }

  method NewWitness(priv: PrivateKey, kid: string, operatorPub: PublicKey)
    returns (r: Result<CheckpointWitness, KeyError>)
    ensures r.Ok? <==> priv.Secret?
    ensures r.Ok? ==> && fresh(r.value) && r.value.View() == INITIAL && r.value.priv == priv.id
                      && r.value.kid == kid && r.value.operatorPub == operatorPub
  {
    if priv.WrongSize? {
      return Err(InvalidSigningKey);
    }
    var w := new CheckpointWitness(priv.id, kid, operatorPub);
    return Ok(w);
  }

  // ---------------------------------------------------------------- whole runs

  /** The witness's memory after a run of attempts, and the attempts it co-signed, in order. */
  function After(operator: PublicKey, run: seq<Attempt>): (State, seq<Attempt>) {
    if run == [] then (INITIAL, [])
    else
      var (s, h) := After(operator, run[..|run| - 1]);
      var a := run[|run| - 1];
      var j := Judge(operator, s, a);
      if j.Ok? then (j.value, h + [a]) else (s, h)
  }

  function Cosigned(operator: PublicKey, run: seq<Attempt>): seq<Attempt> {
    After(operator, run).1
  }

  /** The later checkpoint was accepted as an extension of the earlier one. */
  predicate Extends(a: Attempt, b: Attempt) {
    a.cp.size > 0 ==>
      && a.cp.size <= b.cp.size
      && ConsistencyAccepted(a.cp.size, b.cp.size, b.consistency, a.cp.root, b.cp.root)
  }

  lemma {:induction false} HistoryIsLinked(operator: PublicKey, run: seq<Attempt>)
    ensures var (s, h) := After(operator, run);
            && (forall i :: 0 <= i < |h| - 1 ==> Extends(h[i], h[i + 1]))
            && s == (if h == [] then INITIAL else State(h[|h| - 1].cp.size, h[|h| - 1].cp.root))
            && (forall i :: 0 <= i < |h| ==> VerifyCheckpoint(operator, h[i].cp))
  {
    if run != [] {
      HistoryIsLinked(operator, run[..|run| - 1]);
      var (s, h) := After(operator, run[..|run| - 1]);
      var a := run[|run| - 1];
      if Judge(operator, s, a).Ok? {
        var h' := h + [a];
        forall i | 0 <= i < |h'| - 1
          ensures Extends(h'[i], h'[i + 1])
        {
          if i < |h| - 1 {
            assert Extends(h[i], h[i + 1]);
          }
        }
      }
    }
  }

  /** The checkpoint is the root of the prefix of b of its size. */
  predicate OnLog(cp: Checkpoint, b: seq<Bytes>) {
    0 <= cp.size <= |b| && cp.root == Root(b[..cp.size])
  }

  /** The step from the first to the second was proved from a starting hash of the right length. */
  predicate WellStepped(a: Attempt, b: Attempt) {
    WellStarted(a.cp.size, b.cp.size, b.consistency, a.cp.root)
  }

  /** One step back along the history of a log. */
  lemma StepBack(a: Attempt, b: Attempt, log: seq<Bytes>)
    requires Extends(a, b) && 0 < a.cp.size && OnLog(b.cp, log)
    ensures OnLog(a.cp, log) <==> WellStepped(a, b)
  {
    var c := log[..b.cp.size];
    ConsistencyExact(c, a.cp.size, b.consistency, a.cp.root);
    assert c[..a.cp.size] == log[..a.cp.size];
  }

  lemma {:induction false} StepsBack(h: seq<Attempt>, log: seq<Bytes>, i: nat, j: nat)
    requires i <= j < |h| && 0 < h[i].cp.size && OnLog(h[j].cp, log)
    requires forall k :: 0 <= k < |h| - 1 ==> Extends(h[k], h[k + 1])
    requires forall k :: i <= k < j ==> WellStepped(h[k], h[k + 1])
    ensures OnLog(h[i].cp, log)
    decreases j - i
  {
    if i < j {
      assert Extends(h[i], h[i + 1]) && WellStepped(h[i], h[i + 1]);
      StepsBack(h, log, i + 1, j);
      StepBack(h[i], h[i + 1], log);
    }
  }

  /** Fork freedom over whole runs, with its exact condition. Let a co-signed checkpoint be the root
      of some log b. From any earlier co-signed checkpoint of positive size on, all of them are roots
      of prefixes of that same b exactly when each step between them was proved from a starting hash
      of 32 bytes, which the witness does not check and whoever relays the proof can. */
  lemma ForkFreedom(operator: PublicKey, run: seq<Attempt>, b: seq<Bytes>, i: nat, j: nat)
    requires var h := Cosigned(operator, run);
             i <= j < |h| && 0 < h[i].cp.size && h[j].cp.size == |b| && h[j].cp.root == Root(b)
    ensures var h := Cosigned(operator, run);
            (forall k :: i <= k <= j ==> OnLog(h[k].cp, b))
            <==> (forall k :: i <= k < j ==> WellStepped(h[k], h[k + 1]))
  {
    var h := Cosigned(operator, run);
    HistoryIsLinked(operator, run);
    assert b[..|b|] == b;
    if forall k :: i <= k < j ==> WellStepped(h[k], h[k + 1]) {
      forall k | i <= k <= j
        ensures OnLog(h[k].cp, b)
      {
        NoEquivocation(operator, run, i, k);
        StepsBack(h, b, k, j);
      }
    }
    if forall k :: i <= k <= j ==> OnLog(h[k].cp, b) {
      forall k | i <= k < j
        ensures WellStepped(h[k], h[k + 1])
      {
        NoEquivocation(operator, run, i, k);
        assert Extends(h[k], h[k + 1]) && OnLog(h[k].cp, b) && OnLog(h[k + 1].cp, b);
        StepBack(h[k], h[k + 1], b);
      }
    }
  }

  /** The condition is not idle: for every log, every size inside it and every length up to 64 bytes
      other than 32, an operator's two checkpoints are co-signed one after the other of which the
      second is the log's and the first belongs to no prefix of it. */
  lemma IllSteppedRun(operator: nat, kid: string, b: seq<Bytes>, m: int, length: nat) returns (run: seq<Attempt>)
    requires 0 < m < |b| && length <= 2 * HASH_SIZE && length != HASH_SIZE
    ensures Cosigned(Key(operator), run) == run && |run| == 2
    ensures run[0].cp.size == m && !OnLog(run[0].cp, b)
    ensures run[1].cp.size == |b| && OnLog(run[1].cp, b)
    ensures |StartHash(m, run[1].consistency, run[0].cp.root)| == length
  {
    var proof, oldRoot := Recutting(b, m, length);
    ConsistencyExact(b, m, proof, oldRoot);
    var first := Attempt(SignedAt(operator, kid, m, oldRoot), []);
    var second := Attempt(SignedAt(operator, kid, |b|, Root(b)), proof);
    run := [first, second];
    assert b[..|b|] == b;
    var one := [first];
    assert run[..1] == one && one[..0] == [];
    assert Judge(Key(operator), INITIAL, first) == Ok(State(m, oldRoot));
    assert After(Key(operator), one[..0]) == (INITIAL, []);
    assert After(Key(operator), one) == (State(m, oldRoot), [] + one);
  }

  function SignedAt(operator: nat, kid: string, size: int, root: Bytes): Checkpoint {
    Checkpoint(size, root, kid, Sig(AUDIT_CHECKPOINT, operator, CheckpointMsg(size, root, kid)))
  }

  /** No equivocation, whatever the roots commit to: in one run, two co-signed checkpoints of the
      same positive size carry the same root, and sizes never shrink. */
  lemma {:induction false} NoEquivocation(operator: PublicKey, run: seq<Attempt>, i: nat, j: nat)
    requires var h := Cosigned(operator, run); i <= j < |h| && 0 < h[i].cp.size
    ensures var h := Cosigned(operator, run);
            h[i].cp.size <= h[j].cp.size && (h[i].cp.size == h[j].cp.size ==> h[i].cp.root == h[j].cp.root)
    decreases j - i
  {
    if i < j {
      HistoryIsLinked(operator, run);
      var h := Cosigned(operator, run);
      assert Extends(h[i], h[i + 1]);
      NoEquivocation(operator, run, i + 1, j);
    }
  }

  /** The operator's own signature is no corroboration and a co-signature no commitment, whoever's key
      both are checked under. */
  lemma SignaturesDoNotCross(pub: PublicKey, pub': PublicKey, cp: Checkpoint, cp': Checkpoint, kid: string)
    requires VerifyCheckpoint(pub, cp)
    ensures !VerifyWitness(pub', cp', Cosignature(kid, cp'.size, cp.sig))
    ensures forall ws :: VerifyWitness(pub', cp, ws) ==> !VerifyCheckpoint(pub, cp'.(sig := ws.sig))
  {
    assert AUDIT_CHECKPOINT != AUDIT_WITNESS;
  }

  /** A signature of either kind is over one size, one root and one key id. */
  lemma SignatureIsOfOneCheckpoint(pub: PublicKey, cp: Checkpoint, cp': Checkpoint, ws: Cosignature)
    ensures VerifyCheckpoint(pub, cp) && VerifyCheckpoint(pub, cp') && cp.sig == cp'.sig ==> cp == cp'
    ensures VerifyWitness(pub, cp, ws) && VerifyWitness(pub, cp', ws) ==>
              cp.size == cp'.size && cp.root == cp'.root && cp.kid == cp'.kid
  {
  }
}
