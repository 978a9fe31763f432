/** The hash-chained audit log and the Merkle log kept in step with it
    (audit/chainlog.go, audit/transparency.go). */
module AuditLog {
  import opened Common
  import opened Digests
  import opened Merkle
  import opened SigCtx
  import opened Witness

  datatype Decision = Decision(effect: string, reason: string)

  /** Nil and empty bytes compare equal in the source and are both [] here. */
  datatype Entry = Entry(
    at: int, action: string, reason: string, server: string, principal: string,
    agent: string, passportId: string, delegation: seq<string>,
    decision: Option<Decision>, drift: Option<Drift>,
    prevHash: Bytes, hash: Bytes)

  /** What the chain hash covers: everything but the two hash fields, with a missing decision
      read as an empty one. */
  function ContentOf(e: Entry): Content {
    var d := if e.decision.Some? then e.decision.value else Decision("", "");
    Content(e.at, e.action, e.reason, e.server, e.principal, e.agent, e.passportId, e.delegation,
            d.effect, d.reason, e.drift)
  }

  function ContentHash(prev: Bytes, e: Entry): Bytes {
    Sha256(Chained(prev, ContentOf(e)))
  }

  // ---------------------------------------------------------------- the hash chain

  /** The hash of the most recent entry. */
  function Tail(entries: seq<Entry>): Bytes {
    if entries == [] then [] else entries[|entries| - 1].hash
  }

  predicate LinkedAt(entries: seq<Entry>, i: nat)
    requires i < |entries|
  {
    var prev := Tail(entries[..i]);
    entries[i].prevHash == prev && entries[i].hash == ContentHash(prev, entries[i])
  }

  ghost predicate Intact(entries: seq<Entry>) {
    forall i :: 0 <= i < |entries| ==> LinkedAt(entries, i)
  }

  lemma IntactUpTo(entries: seq<Entry>, n: nat)
    requires n <= |entries| && forall k :: 0 <= k < n ==> LinkedAt(entries, k)
    ensures Intact(entries[..n])
  {
    forall i | 0 <= i < n
      ensures LinkedAt(entries[..n], i)
    {
      assert LinkedAt(entries, i);
      assert entries[..n][..i] == entries[..i];
    }
  }

  lemma IntactSnoc(entries: seq<Entry>, e: Entry)
    requires Intact(entries)
    requires e.prevHash == Tail(entries) && e.hash == ContentHash(Tail(entries), e)
    ensures Intact(entries + [e])
  {
    var all := entries + [e];
    forall i | 0 <= i < |all|
      ensures LinkedAt(all, i)
    {
      if i < |entries| {
        assert LinkedAt(entries, i);
        assert all[..i] == entries[..i];
      } else {
        assert all[..i] == entries;
      }
    }
  }

  datatype ChainFault = Broken(index: nat) | Tampered(index: nat)

  /** The first entry that breaks the chain, and whether by its link or by its content. */
  ghost predicate FirstFault(entries: seq<Entry>, f: ChainFault) {
    && f.index < |entries| && Intact(entries[..f.index]) && !LinkedAt(entries, f.index)
    && (f.Broken? <==> entries[f.index].prevHash != Tail(entries[..f.index]))
  }

  /** Finds nothing exactly in an intact chain, and otherwise names the first entry that breaks it. */
  method VerifyChain(entries: seq<Entry>) returns (fault: Option<ChainFault>)
    ensures fault.None? <==> Intact(entries)
    ensures fault.Some? ==> FirstFault(entries, fault.value)
  {
    var prev: Bytes := [];
    for i := 0 to |entries|
      invariant prev == Tail(entries[..i])
      invariant forall k :: 0 <= k < i ==> LinkedAt(entries, k)
    {
      var e := entries[i];
      if e.prevHash != prev {
        assert !LinkedAt(entries, i);
        IntactUpTo(entries, i);
        return Some(Broken(i));
      }
      if e.hash != ContentHash(prev, e) {
        assert !LinkedAt(entries, i);
        IntactUpTo(entries, i);
        return Some(Tampered(i));
      }
      prev := e.hash;
    }
    return None;
  }

  /** Two entries record the same: every field but the two hashes, a missing decision being one with
      nothing in it. */
  ghost predicate SameRecord(e: Entry, f: Entry) {
    && e.at == f.at && e.action == f.action && e.reason == f.reason && e.server == f.server
    && e.principal == f.principal && e.agent == f.agent && e.passportId == f.passportId
    && e.delegation == f.delegation && e.drift == f.drift
    && (if e.decision.Some? then e.decision.value.effect else "") == (if f.decision.Some? then f.decision.value.effect else "")
    && (if e.decision.Some? then e.decision.value.reason else "") == (if f.decision.Some? then f.decision.value.reason else "")
  }

  /** The hash of an entry commits to the link before it and to every field it records. */
  lemma HashBindsRecord(prev: Bytes, e: Entry, prev': Bytes, e': Entry)
    ensures ContentHash(prev, e) == ContentHash(prev', e') <==> prev == prev' && SameRecord(e, e')
  {
    if ContentHash(prev, e) == ContentHash(prev', e') {
      Sha256Injective(Chained(prev, ContentOf(e)), Chained(prev', ContentOf(e')));
    }
  }

  /** The last hash commits to the whole chain: two intact chains that end in the same hash have
      the same length and, entry by entry, record the same under the same hashes. */
  lemma {:induction false} ChainAgreement(a: seq<Entry>, b: seq<Entry>)
    requires Intact(a) && Intact(b) && Tail(a) == Tail(b)
    ensures |a| == |b|
    ensures forall i :: 0 <= i < |a| ==>
              SameRecord(a[i], b[i]) && a[i].hash == b[i].hash && a[i].prevHash == b[i].prevHash
  {
    if a != [] {
      assert LinkedAt(a, |a| - 1);
    }
    if b != [] {
      assert LinkedAt(b, |b| - 1);
    }
    if a != [] && b != [] {
      var a', b' := a[..|a| - 1], b[..|b| - 1];
      IntactUpTo(a, |a| - 1);
      IntactUpTo(b, |b| - 1);
      HashBindsRecord(Tail(a'), a[|a| - 1], Tail(b'), b[|b| - 1]);
      ChainAgreement(a', b');
      forall i | 0 <= i < |a|
        ensures SameRecord(a[i], b[i]) && a[i].hash == b[i].hash && a[i].prevHash == b[i].prevHash
      {
        if i < |a| - 1 {
          assert a[i] == a'[i] && b[i] == b'[i];
        }
      }
    }
  }

  lemma LinkedWithin(entries: seq<Entry>, n: nat, k: nat)
    requires k < n <= |entries| && Intact(entries[..n])
    ensures LinkedAt(entries, k)
  {
    assert LinkedAt(entries[..n], k);
    assert entries[..n][..k] == entries[..k];
  }

  lemma OneFirstFault(entries: seq<Entry>, i: nat, f: ChainFault)
    requires i < |entries| && Intact(entries[..i]) && !LinkedAt(entries, i)
    ensures FirstFault(entries, f) <==> f.index == i && (f.Broken? <==> entries[i].prevHash != Tail(entries[..i]))
  {
    if FirstFault(entries, f) {
      if f.index < i {
        LinkedWithin(entries, i, f.index);
      } else if i < f.index {
        LinkedWithin(entries, f.index, i);
      }
    }
  }

  /** An edit of anything an entry records is found, and found where it was made: with the hashes left
      as they were, the first fault is a tampered entry at that index. */
  lemma EditIsFound(entries: seq<Entry>, i: nat, e: Entry, f: ChainFault)
    requires Intact(entries) && i < |entries|
    requires e.prevHash == entries[i].prevHash && e.hash == entries[i].hash && !SameRecord(e, entries[i])
    ensures !Intact(entries[i := e]) && (FirstFault(entries[i := e], f) <==> f == Tampered(i))
  {
    var edited := entries[i := e];
    assert LinkedAt(entries, i);
    assert edited[..i] == entries[..i];
    IntactUpTo(entries, i);
    HashBindsRecord(Tail(entries[..i]), e, Tail(entries[..i]), entries[i]);
    assert !LinkedAt(edited, i);
    OneFirstFault(edited, i, f);
  }

  /** And with the edited entry's own hash made to fit, the entry after it no longer links. */
  lemma RehashedEditIsFound(entries: seq<Entry>, i: nat, e: Entry, f: ChainFault)
    requires Intact(entries) && i + 1 < |entries| && !SameRecord(e, entries[i])
    requires e.prevHash == entries[i].prevHash && e.hash == ContentHash(e.prevHash, e)
    ensures !Intact(entries[i := e]) && (FirstFault(entries[i := e], f) <==> f == Broken(i + 1))
  {
    var edited := entries[i := e];
    assert LinkedAt(entries, i) && LinkedAt(entries, i + 1);
    assert edited[..i] == entries[..i];
    HashBindsRecord(Tail(entries[..i]), e, Tail(entries[..i]), entries[i]);
    forall k | 0 <= k <= i
      ensures LinkedAt(edited, k)
    {
      assert LinkedAt(entries, k);
      assert edited[..k] == entries[..k];
    }
    IntactUpTo(edited, i + 1);
    assert Tail(edited[..i + 1]) == e.hash && Tail(entries[..i + 1]) == entries[i].hash;
    assert !LinkedAt(edited, i + 1);
    OneFirstFault(edited, i + 1, f);
  }

  class HashChainLog {
    var entries: seq<Entry>
    var last: Bytes

    ghost predicate Valid()
      reads this
    {
      Intact(entries) && last == Tail(entries)
    }

    constructor ()
      ensures Valid() && entries == []
    {
      entries, last := [], [];
    }

    /** Chains e onto the log and returns it exactly as stored. */
    method Commit(e: Entry) returns (stored: Entry)
      requires Valid()
      modifies this
      ensures Valid()
      ensures entries == old(entries) + [stored] && last == stored.hash
      ensures stored == e.(prevHash := old(last), hash := ContentHash(old(last), e))
    {
      stored := e.(prevHash := last);
      stored := stored.(hash := ContentHash(last, stored));
      IntactSnoc(entries, stored);
      entries := entries + [stored];
      last := stored.hash;
    }
  }

  // ---------------------------------------------------------------- the Merkle log

  /** Leaf i is the hash of entry i. */
  ghost predicate InStep(leaves: seq<Bytes>, entries: seq<Entry>) {
    |leaves| <= |entries| && forall i :: 0 <= i < |leaves| ==> entries[i].hash == leaves[i]
  }

  class TransparencyLog {
    const chain: HashChainLog
    const signer: nat
    const kid: string
    var leaves: seq<Bytes>

    ghost predicate Valid()
      reads this, chain
    {
      chain.Valid() && |leaves| == |chain.entries| && InStep(leaves, chain.entries)
    }

    constructor (signer: nat, kid: string)
      ensures Valid() && fresh(chain) && leaves == [] && this.signer == signer && this.kid == kid
    {
      chain := new HashChainLog();
      this.signer, this.kid := signer, kid;
      leaves := [];
    }

    /** One critical section: the chain and the leaves grow together, by the same commitment. */
    method Append(e: Entry)
      requires Valid()
      modifies this, chain
      ensures Valid()
      ensures var h := ContentHash(old(chain.last), e);
              && chain.entries == old(chain.entries) + [e.(prevHash := old(chain.last), hash := h)]
              && leaves == old(leaves) + [h]
    {
      var stored := chain.Commit(e);
      leaves := leaves + [stored.hash];
    }

    /** A checkpoint is signed by the operator and commits to the log as it stands. */
    method SignCheckpoint() returns (cp: Checkpoint)
      requires Valid()
      ensures VerifyCheckpoint(Key(signer), cp)
      ensures cp.size == |chain.entries| && cp.root == Root(leaves) && cp.kid == kid
    {
      var snapshot := leaves;
      var unsigned := Checkpoint(|snapshot|, Root(snapshot), kid, Junk([]));
      cp := unsigned.(sig := Sig(AUDIT_CHECKPOINT, signer, unsigned.Msg()));
    }

    /** The returned leaf and path verify against the current root, and the leaf is the hash of
        the entry at that index; there is no answer only where there is no such entry. */
    method ProveInclusion(index: int) returns (r: Option<(Bytes, seq<Bytes>)>)
      requires Valid()
      ensures r.Some? <==> 0 <= index < |chain.entries|
      ensures r.Some? ==> VerifyInclusion(r.value.0, index, |leaves|, r.value.1, Root(leaves))
                          && chain.entries[index].hash == r.value.0
    {
      var snapshot := leaves;
      if index < 0 || index >= |snapshot| {
        return None;
      }
      InclusionExact(snapshot, snapshot[index], index, InclusionProof(snapshot, index).value);
      return Some((snapshot[index], InclusionProof(snapshot, index).value));
    }

    /** The returned proof connects the root of the first oldSize entries to the current root. */
    method ProveConsistency(oldSize: int) returns (r: Option<seq<Bytes>>)
      requires Valid()
      ensures r.Some? <==> 0 <= oldSize <= |chain.entries|
      ensures r.Some? ==>
                ConsistencyAccepted(oldSize, |leaves|, r.value, Root(leaves[..oldSize]), Root(leaves))
    {
      var snapshot := leaves;
      r := ConsistencyProof(snapshot, oldSize);
      if r.Some? {
        ConsistencyExact(snapshot, oldSize, r.value, Root(snapshot[..oldSize]));
      }
    }
  }

  method NewTransparencyLog(signer: PrivateKey, kid: string) returns (r: Result<TransparencyLog, KeyError>)
    ensures r.Ok? <==> signer.Secret?
    ensures r.Ok? ==> && fresh(r.value) && fresh(r.value.chain) && r.value.Valid() && r.value.leaves == []
                      && r.value.signer == signer.id && r.value.kid == kid
  {
    if signer.WrongSize? {
      return Err(InvalidSigningKey);
    }
    var l := new TransparencyLog(signer.id, kid);
    return Ok(l);
  }

  // ---------------------------------------------------------------- interleavings

  /** Where the holder of the log's lock stands. */
  datatype Holder = Nobody | Entered(e: Entry) | Committed(stored: Entry)

  datatype LogState = LogState(entries: seq<Entry>, last: Bytes, leaves: seq<Bytes>, holder: Holder)

  /** The atomic steps of concurrent appends: taking the lock, committing to the chain, adding
      the leaf and releasing the lock. */
  datatype LogStep = Enter(e: Entry) | CommitEntry | AddLeaf

  const EMPTY := LogState([], [], [], Nobody)

  /** A step that the lock or the program order forbids does not happen. */
  function Perform(s: LogState, step: LogStep): LogState {
    match step
    case Enter(e) => if s.holder.Nobody? then s.(holder := Entered(e)) else s
    case CommitEntry =>
      if !s.holder.Entered? then s else
      var linked := s.holder.e.(prevHash := s.last);
      var stored := linked.(hash := ContentHash(s.last, linked));
      s.(entries := s.entries + [stored], last := stored.hash, holder := Committed(stored))
    case AddLeaf =>
      if s.holder.Committed?
      then s.(leaves := s.leaves + [s.holder.stored.hash], holder := Nobody) else s
  }

  function PerformAll(run: seq<LogStep>): LogState {
    if run == [] then EMPTY else Perform(PerformAll(run[..|run| - 1]), run[|run| - 1])
  }

  /** In every reachable state the chain is intact and leaf i is the hash of entry i; the leaves
      lag by exactly the entry a lock holder has committed and not yet added. */
  lemma {:induction false} EveryInterleavingInStep(run: seq<LogStep>)
    ensures var s := PerformAll(run);
            && Intact(s.entries) && s.last == Tail(s.entries) && InStep(s.leaves, s.entries)
            && |s.entries| == |s.leaves| + (if s.holder.Committed? then 1 else 0)
            && (s.holder.Committed? ==> s.entries[|s.leaves|] == s.holder.stored)
  {
    if run != [] {
      EveryInterleavingInStep(run[..|run| - 1]);
      var s, step := PerformAll(run[..|run| - 1]), run[|run| - 1];
      if step.CommitEntry? && s.holder.Entered? {
        var s' := Perform(s, step);
        IntactSnoc(s.entries, s'.holder.stored);
      }
    }
  }

  lemma {:induction false} LogOnlyGrows(run: seq<LogStep>, n: nat)
    requires n <= |run|
    ensures PerformAll(run[..n]).leaves <= PerformAll(run).leaves
    ensures PerformAll(run[..n]).entries <= PerformAll(run).entries
  {
    if n == |run| {
      assert run[..n] == run;
    } else {
      LogOnlyGrows(run[..|run| - 1], n);
      assert run[..|run| - 1][..n] == run[..n];
    }
  }

  /** One root, one log: whenever in whatever interleavings two checkpoints are cut, if they carry the
      same root then they are of the same size and their logs record the same, entry by entry. */
  lemma {:induction false} OneRootOneLog(run: seq<LogStep>, run': seq<LogStep>)
    requires Root(PerformAll(run).leaves) == Root(PerformAll(run').leaves)
    ensures var s, s' := PerformAll(run), PerformAll(run');
            && |s.leaves| == |s'.leaves| <= |s.entries| && |s.leaves| <= |s'.entries|
            && forall i :: 0 <= i < |s.leaves| ==> SameRecord(s.entries[i], s'.entries[i])
  {
    var s, s' := PerformAll(run), PerformAll(run');
    RootBinds(s.leaves, s'.leaves);
    EveryInterleavingInStep(run);
    EveryInterleavingInStep(run');
    var n := |s.leaves|;
    var a, b := s.entries[..n], s'.entries[..n];
    IntactUpTo(s.entries, n);
    IntactUpTo(s'.entries, n);
    ChainAgreement(a, b);
    forall i | 0 <= i < n
      ensures SameRecord(s.entries[i], s'.entries[i])
    {
      assert a[i] == s.entries[i] && b[i] == s'.entries[i];
    }
  }

  /** The whole audit trail in one statement. Take any interleaving of appends, a checkpoint cut at
      an earlier moment and one cut at a later moment. The log's consistency proof between them is
      accepted, a witness that remembers the earlier one co-signs the later one, and any leaf that
      verifies against the earlier root is the hash of the entry the later log holds at that index. */
  lemma CheckpointsAreHonoured(run: seq<LogStep>, n: nat, signer: nat, cp: Checkpoint,
                               leaf: Bytes, index: int, path: seq<Bytes>)
    requires n <= |run|
    requires cp.size == |PerformAll(run).leaves| && cp.root == Root(PerformAll(run).leaves)
    requires VerifyCheckpoint(Key(signer), cp)
    ensures var earlier, later := PerformAll(run[..n]), PerformAll(run);
            var m := |earlier.leaves|;
            var proof := ConsistencyProof(later.leaves, m);
            && proof.Some?
            && ConsistencyAccepted(m, |later.leaves|, proof.value, Root(earlier.leaves), Root(later.leaves))
            && Judge(Key(signer), State(m, Root(earlier.leaves)), Attempt(cp, proof.value)).Ok?
            && (VerifyInclusion(leaf, index, m, path, Root(earlier.leaves))
                ==> 0 <= index < |later.entries| && later.entries[index].hash == leaf)
  {
    var earlier, later := PerformAll(run[..n]), PerformAll(run);
    var m := |earlier.leaves|;
    LogOnlyGrows(run, n);
    EveryInterleavingInStep(run);
    assert later.leaves[..m] == earlier.leaves;
    ConsistencyExact(later.leaves, m, ConsistencyProof(later.leaves, m).value, Root(earlier.leaves));
    InclusionExact(earlier.leaves, leaf, index, path);
  }
}
