/** Offline, sealed capabilities (delegation/capability.go): minting, attenuation by the holder,
    verification against one root key, and what an adversary can assemble. */
module Capability {
  import opened Common
  import opened SigCtx
  import opened Grants
  import Chain

  /** The two signing inputs. A block commits to its place, a seal to the length. */
  datatype CapMsg =
    | BlockMsg(root: PublicKey, index: nat, prev: Option<Signature<CapMsg>>, grant: Canonical, next: PublicKey)
    | SealMsg(root: PublicKey, blocks: nat, last: Signature<CapMsg>)

  datatype Block = Block(grant: Grant, next: PublicKey, sig: Signature<CapMsg>)

  datatype Capability = Capability(blocks: seq<Block>, seal: Signature<CapMsg>)

  datatype CapError =
    | EmptyCapability | TooDeep | WrongHolder | Widens
    | InvalidNextKey(block: nat) | InvalidSignature(block: nat) | WidensScope(block: nat) | BlockExpired(block: nat)
    | InvalidSeal

  // ---------------------------------------------------------------- issuing

  function Sealed(nextKey: nat, root: PublicKey, blocks: seq<Block>): Capability
    requires blocks != []
  {
    Capability(blocks, Sig(CAPABILITY_SEAL, nextKey, SealMsg(root, |blocks|, blocks[|blocks| - 1].sig)))
  }

  function NewCapability(rootKey: nat, g: Grant, nextKey: nat): Capability {
    var sig := Sig(CAPABILITY_BLOCK, rootKey, BlockMsg(Key(rootKey), 0, None, Canon(g), Key(nextKey)));
    Sealed(nextKey, Key(rootKey), [Block(g, Key(nextKey), sig)])
  }

  function Attenuate(c: Capability, root: PublicKey, holder: nat, g: Grant, nextKey: nat): Result<Capability, CapError> {
    if c.blocks == [] then Err(EmptyCapability)
    else if |c.blocks| + 1 > Chain.MAX_DEPTH then Err(TooDeep)
    else
      var last := c.blocks[|c.blocks| - 1];
      if last.next != Key(holder) then Err(WrongHolder)
      else if !Attenuates(last.grant, g) then Err(Widens)
      else
        var sig := Sig(CAPABILITY_BLOCK, holder,
                       BlockMsg(root, |c.blocks|, Some(last.sig), Canon(g), Key(nextKey)));
        Ok(Sealed(nextKey, root, c.blocks + [Block(g, Key(nextKey), sig)]))
  }

  // ---------------------------------------------------------------- verifying

  function SigBefore(b: seq<Block>, i: nat): Option<Signature<CapMsg>>
    requires i <= |b|
  {
    if i == 0 then None else Some(b[i - 1].sig)
  }

  function SignerAt(b: seq<Block>, root: PublicKey, i: nat): PublicKey
    requires i <= |b|
  {
    if i == 0 then root else b[i - 1].next
  }

  predicate SignedAt(b: seq<Block>, root: PublicKey, i: nat)
    requires i < |b|
  {
    && b[i].next.Key?
    && Verify(CAPABILITY_BLOCK, SignerAt(b, root, i), BlockMsg(root, i, SigBefore(b, i), Canon(b[i].grant), b[i].next), b[i].sig)
  }

  predicate NarrowsAt(b: seq<Block>, i: nat)
    requires i < |b|
  {
    i > 0 ==> Attenuates(b[i - 1].grant, b[i].grant)
  }

  ghost predicate Signed(b: seq<Block>, root: PublicKey) {
    forall i :: 0 <= i < |b| ==> SignedAt(b, root, i)
  }

  ghost predicate Narrowing(b: seq<Block>) {
    forall i :: 0 <= i < |b| ==> NarrowsAt(b, i)
  }

  ghost predicate Unexpired(b: seq<Block>, now: int) {
    forall i :: 0 <= i < |b| ==> !Expired(b[i].grant, now)
  }

  predicate SealHolds(c: Capability, root: PublicKey)
    requires c.blocks != []
  {
    var last := c.blocks[|c.blocks| - 1];
    Verify(CAPABILITY_SEAL, last.next, SealMsg(root, |c.blocks|, last.sig), c.seal)
  }

  ghost predicate Accepted(c: Capability, root: PublicKey, now: int, limit: int) {
    && 0 < |c.blocks| <= limit
    && Signed(c.blocks, root) && Narrowing(c.blocks) && Unexpired(c.blocks, now)
    && SealHolds(c, root)
  }

  predicate BlockHolds(b: seq<Block>, root: PublicKey, now: int, i: nat)
    requires i < |b|
  {
    SignedAt(b, root, i) && NarrowsAt(b, i) && !Expired(b[i].grant, now)
  }

  /** What is wrong with a block, checked in the source's order. */
  function BlockFault(b: seq<Block>, root: PublicKey, now: int, i: nat): (f: Option<CapError>)
    requires i < |b|
    ensures f.None? <==> BlockHolds(b, root, now, i)
  {
    if !b[i].next.Key? then Some(InvalidNextKey(i))
    else if !SignedAt(b, root, i) then Some(InvalidSignature(i))
    else if !NarrowsAt(b, i) then Some(WidensScope(i))
    else if Expired(b[i].grant, now) then Some(BlockExpired(i))
    else None
  }

  /** Returns the most narrowed grant exactly when the capability is whole, well signed, narrowing
      and unexpired; otherwise the fault of the first block that does not hold, or of the seal. */
  method VerifyCapability(c: Capability, root: PublicKey, now: int, limit: int) returns (r: Result<Grant, CapError>)
    ensures r.Ok? <==> Accepted(c, root, now, limit)
    ensures r.Ok? ==> r.value == c.blocks[|c.blocks| - 1].grant
    ensures r == Err(InvalidSeal) <==>
              && 0 < |c.blocks| <= limit && (forall i :: 0 <= i < |c.blocks| ==> BlockHolds(c.blocks, root, now, i))
              && !SealHolds(c, root)
    ensures r.Err? && 0 < |c.blocks| <= limit && r.error != InvalidSeal ==>
              exists i :: 0 <= i < |c.blocks| && BlockFault(c.blocks, root, now, i) == Some(r.error)
                          && forall k :: 0 <= k < i ==> BlockHolds(c.blocks, root, now, k)
  {
    if |c.blocks| == 0 {
      return Err(EmptyCapability);
    }
    if |c.blocks| > limit {
      return Err(TooDeep);
    }
    AcceptedByBlocks(c, root, now, limit);
    var signer := root;
    var prevSig: Option<Signature<CapMsg>> := None;
    var prevGrant := c.blocks[0].grant;
    for i := 0 to |c.blocks|
      invariant signer == SignerAt(c.blocks, root, i)
      invariant prevSig == SigBefore(c.blocks, i)
      invariant i > 0 ==> prevGrant == c.blocks[i - 1].grant
      invariant forall k :: 0 <= k < i ==> BlockHolds(c.blocks, root, now, k)
    {
      var b := c.blocks[i];
      if !b.next.Key? {
        assert BlockFault(c.blocks, root, now, i) == Some(InvalidNextKey(i));
        return Err(InvalidNextKey(i));
      }
      if !Verify(CAPABILITY_BLOCK, signer, BlockMsg(root, i, prevSig, Canon(b.grant), b.next), b.sig) {
        assert BlockFault(c.blocks, root, now, i) == Some(InvalidSignature(i));
        return Err(InvalidSignature(i));
      }
      if i > 0 {
        var w := CheckAttenuates(prevGrant, b.grant);
        if w.Some? {
          assert BlockFault(c.blocks, root, now, i) == Some(WidensScope(i));
          return Err(WidensScope(i));
        }
      }
      if b.grant.notAfter.Some? && !(now < b.grant.notAfter.value) {
        assert BlockFault(c.blocks, root, now, i) == Some(BlockExpired(i));
        return Err(BlockExpired(i));
      }
      signer := b.next;
      prevSig := Some(b.sig);
      prevGrant := b.grant;
    }
    if !Verify(CAPABILITY_SEAL, signer, SealMsg(root, |c.blocks|, prevSig.value), c.seal) {
      return Err(InvalidSeal);
    }
    return Ok(c.blocks[|c.blocks| - 1].grant);
  }

  lemma AcceptedByBlocks(c: Capability, root: PublicKey, now: int, limit: int)
    requires 0 < |c.blocks| <= limit
    ensures Accepted(c, root, now, limit)
            <==> (forall i :: 0 <= i < |c.blocks| ==> BlockHolds(c.blocks, root, now, i)) && SealHolds(c, root)
  {
    if forall i :: 0 <= i < |c.blocks| ==> BlockHolds(c.blocks, root, now, i) {
      forall i | 0 <= i < |c.blocks|
        ensures SignedAt(c.blocks, root, i) && NarrowsAt(c.blocks, i) && !Expired(c.blocks[i].grant, now)
      {
        assert BlockHolds(c.blocks, root, now, i);
      }
    }
  }

  // ---------------------------------------------------------------- blocks that sign alike

  /** Equal up to what a signature covers of a grant. */
  ghost predicate SameBlocks(a: seq<Block>, b: seq<Block>) {
    && |a| == |b|
    && forall i :: 0 <= i < |a| ==>
         a[i].next == b[i].next && a[i].sig == b[i].sig && Canon(a[i].grant) == Canon(b[i].grant)
  }

  lemma SignedPrefix(b: seq<Block>, root: PublicKey, n: nat)
    requires n <= |b| && Signed(b, root)
    ensures Signed(b[..n], root)
  {
    forall i | 0 <= i < n
      ensures SignedAt(b[..n], root, i)
    {
      assert SignedAt(b, root, i);
    }
  }

  /** The last block's signature commits to every block before it and to its own position. */
  lemma {:induction false} LastSignatureCommits(a: seq<Block>, b: seq<Block>, root: PublicKey)
    requires Signed(a, root) && Signed(b, root) && SigBefore(a, |a|) == SigBefore(b, |b|)
    ensures SameBlocks(a, b)
  {
    if a != [] && b != [] {
      var a', b' := a[..|a| - 1], b[..|b| - 1];
      assert SignedAt(a, root, |a| - 1) && SignedAt(b, root, |b| - 1);
      SignedPrefix(a, root, |a| - 1);
      SignedPrefix(b, root, |b| - 1);
      LastSignatureCommits(a', b', root);
      forall i | 0 <= i < |a|
        ensures a[i].next == b[i].next && a[i].sig == b[i].sig && Canon(a[i].grant) == Canon(b[i].grant)
      {
        if i < |a| - 1 {
          assert a[i] == a'[i] && b[i] == b'[i];
        }
      }
    }
  }

  lemma SameBlocksSigned(a: seq<Block>, b: seq<Block>, root: PublicKey)
    requires SameBlocks(a, b) && Signed(b, root)
    ensures Signed(a, root)
  {
    forall i | 0 <= i < |a|
      ensures SignedAt(a, root, i)
    {
      assert SignedAt(b, root, i);
    }
  }

  // ---------------------------------------------------------------- runs

  /** Minting under the root, or narrowing a capability the run returned earlier. */
  datatype Op = Mint(g: Grant, nextKey: nat) | Narrow(which: nat, g: Grant, nextKey: nat)

  function Holder(c: Capability): nat {
    if c.blocks == [] then 0
    else var k := c.blocks[|c.blocks| - 1].next; if k.Key? then k.id else 0
  }

  /** The capabilities a run returned, in order. */
  function Issued(rootKey: nat, ops: seq<Op>): seq<Capability> {
    if ops == [] then []
    else
      var before := Issued(rootKey, ops[..|ops| - 1]);
      match ops[|ops| - 1]
      case Mint(g, k) => before + [NewCapability(rootKey, g, k)]
      case Narrow(w, g, k) =>
        if w >= |before| then before
        else
          var r := Attenuate(before[w], Key(rootKey), Holder(before[w]), g, k);
          if r.Ok? then before + [r.value] else before
  }

  ghost predicate WellMade(c: Capability, root: PublicKey) {
    && 0 < |c.blocks| <= Chain.MAX_DEPTH && Signed(c.blocks, root) && Narrowing(c.blocks) && SealHolds(c, root)
  }

  lemma AttenuateIsWellMade(c: Capability, root: PublicKey, holder: nat, g: Grant, k: nat)
    requires WellMade(c, root) && Attenuate(c, root, holder, g, k).Ok?
    ensures WellMade(Attenuate(c, root, holder, g, k).value, root)
  {
    var b := Attenuate(c, root, holder, g, k).value.blocks;
    forall i | 0 <= i < |b|
      ensures SignedAt(b, root, i) && NarrowsAt(b, i)
    {
      if i < |c.blocks| {
        assert SignedAt(c.blocks, root, i) && NarrowsAt(c.blocks, i);
      }
    }
  }

  lemma {:induction false} IssuedAreWellMade(rootKey: nat, ops: seq<Op>)
    ensures forall i :: 0 <= i < |Issued(rootKey, ops)| ==> WellMade(Issued(rootKey, ops)[i], Key(rootKey))
  {
    if ops != [] {
      IssuedAreWellMade(rootKey, ops[..|ops| - 1]);
      var before := Issued(rootKey, ops[..|ops| - 1]);
      match ops[|ops| - 1] {
        case Mint(g, k) =>
          var c := NewCapability(rootKey, g, k);
          assert SignedAt(c.blocks, Key(rootKey), 0);
        case Narrow(w, g, k) =>
          if w < |before| && Attenuate(before[w], Key(rootKey), Holder(before[w]), g, k).Ok? {
            AttenuateIsWellMade(before[w], Key(rootKey), Holder(before[w]), g, k);
          }
      }
    }
  }

  /** What a holder can make of a capability. Of any that a run returned, the one who holds its secret,
      and nobody else, can hand on exactly what its last grant contains, as long as there is room for a
      block; what they hand on is that capability with one block more, and it verifies as long as the
      capability has not expired nor the new grant has. */
  lemma {:induction false} HolderCanNarrow(c: Capability, rootKey: nat, holder: nat, g: Grant, nextKey: nat, now: int)
    requires WellMade(c, Key(rootKey))
    ensures var r, last := Attenuate(c, Key(rootKey), holder, g, nextKey), c.blocks[|c.blocks| - 1].grant;
            && (r.Ok? <==> holder == Holder(c) && |c.blocks| < Chain.MAX_DEPTH && forall d :: Permits(g, d) ==> Permits(last, d))
            && (r.Ok? ==>
                  && |r.value.blocks| == |c.blocks| + 1 && r.value.blocks[..|c.blocks|] == c.blocks
                  && r.value.blocks[|c.blocks|].grant == g && Holder(r.value) == nextKey
                  && (Accepted(r.value, Key(rootKey), now, Chain.MAX_DEPTH) <==> Unexpired(c.blocks, now) && !Expired(g, now)))
  {
    var r, last := Attenuate(c, Key(rootKey), holder, g, nextKey), c.blocks[|c.blocks| - 1].grant;
    assert SignedAt(c.blocks, Key(rootKey), |c.blocks| - 1);
    AttenuationIsContainment(last, g);
    if r.Ok? {
      AttenuateIsWellMade(c, Key(rootKey), holder, g, nextKey);
      var b := r.value.blocks;
      assert forall i :: 0 <= i < |c.blocks| ==> b[i] == c.blocks[i];
    }
  }

  /** The root mints any grant for any first holder, and it verifies until the grant expires. */
  lemma MintedVerifies(rootKey: nat, g: Grant, nextKey: nat, now: int)
    ensures var c := NewCapability(rootKey, g, nextKey);
            && |c.blocks| == 1 && c.blocks[0].grant == g && Holder(c) == nextKey
            && (Accepted(c, Key(rootKey), now, Chain.MAX_DEPTH) <==> !Expired(g, now))
  {
    var c := NewCapability(rootKey, g, nextKey);
    assert SignedAt(c.blocks, Key(rootKey), 0) && NarrowsAt(c.blocks, 0);
  }

  // ---------------------------------------------------------------- what an adversary can present

  /** A run makes two signatures per capability: the last block's and the seal. */
  ghost predicate MadeBy(issued: seq<Capability>, s: Signature<CapMsg>) {
    exists i :: 0 <= i < |issued| && issued[i].blocks != []
                && (s == issued[i].seal || s == issued[i].blocks[|issued[i].blocks| - 1].sig)
  }

  /** What someone who saw the whole run and holds the secrets in `stolen` can put in a signature. */
  ghost predicate Available(issued: seq<Capability>, stolen: set<nat>, s: Signature<CapMsg>) {
    MadeBy(issued, s) || s.Junk? || s.signer in stolen
  }

  ghost predicate Assembled(c: Capability, issued: seq<Capability>, stolen: set<nat>) {
    && Available(issued, stolen, c.seal)
    && forall i :: 0 <= i < |c.blocks| ==> Available(issued, stolen, c.blocks[i].sig)
  }

  lemma LabelsDiffer()
    ensures CAPABILITY_BLOCK != CAPABILITY_SEAL
  {
  }

  /** Blocks ending in a block signature of the run are the blocks of a capability it returned. */
  lemma KnownBlocks(b: seq<Block>, rootKey: nat, ops: seq<Op>) returns (i: nat)
    requires b != [] && Signed(b, Key(rootKey)) && MadeBy(Issued(rootKey, ops), b[|b| - 1].sig)
    ensures i < |Issued(rootKey, ops)| && SameBlocks(b, Issued(rootKey, ops)[i].blocks)
  {
    var issued := Issued(rootKey, ops);
    var s := b[|b| - 1].sig;
    i :| 0 <= i < |issued| && issued[i].blocks != []
         && (s == issued[i].seal || s == issued[i].blocks[|issued[i].blocks| - 1].sig);
    IssuedAreWellMade(rootKey, ops);
    assert SignedAt(b, Key(rootKey), |b| - 1);
    LabelsDiffer();
    LastSignatureCommits(b, issued[i].blocks, Key(rootKey));
  }

  /** A seal of the run fits only blocks of the capability it was made for. */
  lemma KnownSeal(c: Capability, rootKey: nat, ops: seq<Op>) returns (i: nat)
    requires c.blocks != [] && Signed(c.blocks, Key(rootKey)) && SealHolds(c, Key(rootKey))
    requires MadeBy(Issued(rootKey, ops), c.seal)
    ensures i < |Issued(rootKey, ops)|
    ensures SameBlocks(c.blocks, Issued(rootKey, ops)[i].blocks) && c.seal == Issued(rootKey, ops)[i].seal
  {
    var issued := Issued(rootKey, ops);
    i :| 0 <= i < |issued| && issued[i].blocks != []
         && (c.seal == issued[i].seal || c.seal == issued[i].blocks[|issued[i].blocks| - 1].sig);
    IssuedAreWellMade(rootKey, ops);
    assert SignedAt(issued[i].blocks, Key(rootKey), |issued[i].blocks| - 1);
    LabelsDiffer();
    LastSignatureCommits(c.blocks, issued[i].blocks, Key(rootKey));
  }

  lemma {:induction false} NarrowsOver(b: seq<Block>, i: nat, j: nat)
    requires Narrowing(b) && i <= j < |b|
    ensures Attenuates(b[i].grant, b[j].grant)
    decreases j - i
  {
    if i < j {
      NarrowsOver(b, i, j - 1);
      assert NarrowsAt(b, j);
      AttenuatesTransitive(b[i].grant, b[j - 1].grant, b[j].grant);
    }
  }

  /** Where an accepted capability comes from: its first blocks are those of an issued one, and either
      it is that one with its seal, or that one's holder secret was stolen. */
  ghost predicate ComesFrom(c: Capability, r: Capability, stolen: set<nat>) {
    && 0 < |r.blocks| <= |c.blocks| && SameBlocks(c.blocks[..|r.blocks|], r.blocks)
    && ((|r.blocks| == |c.blocks| && c.seal == r.seal) || Holder(r) in stolen)
  }

  lemma WholeOrigin(c: Capability, rootKey: nat, ops: seq<Op>, stolen: set<nat>) returns (i: nat)
    requires c.blocks != [] && Signed(c.blocks, Key(rootKey)) && SealHolds(c, Key(rootKey))
    requires Available(Issued(rootKey, ops), stolen, c.seal)
    requires MadeBy(Issued(rootKey, ops), c.blocks[|c.blocks| - 1].sig)
    ensures i < |Issued(rootKey, ops)| && ComesFrom(c, Issued(rootKey, ops)[i], stolen)
  {
    if MadeBy(Issued(rootKey, ops), c.seal) {
      i := KnownSeal(c, rootKey, ops);
    } else {
      i := KnownBlocks(c.blocks, rootKey, ops);
    }
    assert c.blocks[..|c.blocks|] == c.blocks;
  }

  lemma StolenOrigin(c: Capability, rootKey: nat, ops: seq<Op>, stolen: set<nat>, n: nat) returns (i: nat)
    requires rootKey !in stolen && n < |c.blocks| && Signed(c.blocks, Key(rootKey))
    requires Available(Issued(rootKey, ops), stolen, c.blocks[n].sig) && !MadeBy(Issued(rootKey, ops), c.blocks[n].sig)
    requires n > 0 ==> MadeBy(Issued(rootKey, ops), c.blocks[n - 1].sig)
    ensures i < |Issued(rootKey, ops)| && ComesFrom(c, Issued(rootKey, ops)[i], stolen)
  {
    assert SignedAt(c.blocks, Key(rootKey), n);
    assert n > 0 && Key(c.blocks[n].sig.signer) == c.blocks[n - 1].next;
    SignedPrefix(c.blocks, Key(rootKey), n);
    assert c.blocks[..n][n - 1] == c.blocks[n - 1];
    i := KnownBlocks(c.blocks[..n], rootKey, ops);
  }

  /** Looks for the first block, from n on, that the run did not sign. */
  lemma {:induction false} Origin(c: Capability, rootKey: nat, ops: seq<Op>, stolen: set<nat>, n: nat) returns (i: nat)
    requires rootKey !in stolen && c.blocks != [] && n <= |c.blocks|
    requires Signed(c.blocks, Key(rootKey)) && SealHolds(c, Key(rootKey))
    requires Assembled(c, Issued(rootKey, ops), stolen)
    requires n > 0 ==> MadeBy(Issued(rootKey, ops), c.blocks[n - 1].sig)
    ensures i < |Issued(rootKey, ops)| && ComesFrom(c, Issued(rootKey, ops)[i], stolen)
    decreases |c.blocks| - n
  {
    if n == |c.blocks| {
      i := WholeOrigin(c, rootKey, ops, stolen);
    } else if MadeBy(Issued(rootKey, ops), c.blocks[n].sig) {
      i := Origin(c, rootKey, ops, stolen, n + 1);
    } else {
      i := StolenOrigin(c, rootKey, ops, stolen, n);
    }
  }

  lemma {:induction false} ExtensionNarrows(c: Capability, r: Capability, stolen: set<nat>)
    requires ComesFrom(c, r, stolen) && Narrowing(c.blocks)
    ensures Attenuates(c.blocks[|r.blocks| - 1].grant, c.blocks[|c.blocks| - 1].grant)
  {
    NarrowsOver(c.blocks, |r.blocks| - 1, |c.blocks| - 1);
  }

  /** Unforgeability. Whatever someone assembles from the signatures of a run and any stolen holder
      secrets, a capability that verifies under the root is either one the run returned, whole and
      with its own seal, or it extends, block for block, one whose holder secret was stolen; and its
      grant is within that one's. No prefix, graft or re-indexing of anything else verifies. */
  lemma {:induction false} Unforgeable(c: Capability, rootKey: nat, ops: seq<Op>, stolen: set<nat>, now: int, limit: int)
    returns (i: nat)
    requires rootKey !in stolen && Assembled(c, Issued(rootKey, ops), stolen)
    requires Accepted(c, Key(rootKey), now, limit)
    ensures i < |Issued(rootKey, ops)|
    ensures var r := Issued(rootKey, ops)[i];
            ComesFrom(c, r, stolen) && Attenuates(c.blocks[|r.blocks| - 1].grant, c.blocks[|c.blocks| - 1].grant)
  {
    i := Origin(c, rootKey, ops, stolen, 0);
    ExtensionNarrows(c, Issued(rootKey, ops)[i], stolen);
  }

  // ---------------------------------------------------------------- exactness

  /** The expiry part of narrowing, read off the presented grants. */
  ghost predicate ExpiriesNarrow(b: seq<Block>) {
    forall i :: 0 < i < |b| ==> ExpiryWithin(b[i - 1].grant.notAfter, b[i].grant.notAfter)
  }

  lemma SameCanonWithin(p: seq<string>, q: seq<string>, p': seq<string>, q': seq<string>)
    requires multiset(p) == multiset(p') && multiset(q) == multiset(q') && Within(p, q)
    ensures Within(p', q')
  {
    SameMembers(p, p', "");
    SameMembers(q, q', "");
    forall x | x in q' && p' != []
      ensures x in p'
    {
      SameMembers(q, q', x);
      SameMembers(p, p', x);
    }
  }

  lemma SameBlocksNarrow(a: seq<Block>, b: seq<Block>)
    requires SameBlocks(a, b) && Narrowing(b) && ExpiriesNarrow(a)
    ensures Narrowing(a)
  {
    forall i | 0 < i < |a|
      ensures NarrowsAt(a, i)
    {
      assert NarrowsAt(b, i);
      SameCanonWithin(b[i - 1].grant.tools, b[i].grant.tools, a[i - 1].grant.tools, a[i].grant.tools);
      SameCanonWithin(b[i - 1].grant.servers, b[i].grant.servers, a[i - 1].grant.servers, a[i].grant.servers);
      assert ExpiryWithin(a[i - 1].grant.notAfter, a[i].grant.notAfter);
    }
  }

  lemma IssuedVerifies(c: Capability, rootKey: nat, ops: seq<Op>, i: nat, now: int, limit: int)
    requires i < |Issued(rootKey, ops)| && |c.blocks| <= limit
    requires SameBlocks(c.blocks, Issued(rootKey, ops)[i].blocks) && c.seal == Issued(rootKey, ops)[i].seal
    requires Unexpired(c.blocks, now) && ExpiriesNarrow(c.blocks)
    ensures Accepted(c, Key(rootKey), now, limit)
  {
    IssuedAreWellMade(rootKey, ops);
    SameBlocksSigned(c.blocks, Issued(rootKey, ops)[i].blocks, Key(rootKey));
    SameBlocksNarrow(c.blocks, Issued(rootKey, ops)[i].blocks);
  }

  lemma NarrowingExpiries(b: seq<Block>)
    requires Narrowing(b)
    ensures ExpiriesNarrow(b)
  {
    forall i | 0 < i < |b|
      ensures ExpiryWithin(b[i - 1].grant.notAfter, b[i].grant.notAfter)
    {
      assert NarrowsAt(b, i);
    }
  }

  /** c is, up to what grants sign, a capability the run returned. */
  ghost predicate Returned(c: Capability, rootKey: nat, ops: seq<Op>) {
    exists i :: 0 <= i < |Issued(rootKey, ops)|
                && SameBlocks(c.blocks, Issued(rootKey, ops)[i].blocks) && c.seal == Issued(rootKey, ops)[i].seal
  }

  /** Exactness: among everything assembled from a run's own signatures, what verifies is exactly
      what the run returned, up to what grants sign, unexpired and with expiries that still narrow. */
  lemma VerifiesExactlyTheIssued(c: Capability, rootKey: nat, ops: seq<Op>, now: int, limit: int)
    requires Assembled(c, Issued(rootKey, ops), {})
    ensures Accepted(c, Key(rootKey), now, limit) <==>
            |c.blocks| <= limit && Unexpired(c.blocks, now) && ExpiriesNarrow(c.blocks) && Returned(c, rootKey, ops)
  {
    if Accepted(c, Key(rootKey), now, limit) {
      var i := Unforgeable(c, rootKey, ops, {}, now, limit);
      assert c.blocks[..|c.blocks|] == c.blocks;
      NarrowingExpiries(c.blocks);
    } else if |c.blocks| <= limit && Unexpired(c.blocks, now) && ExpiriesNarrow(c.blocks) && Returned(c, rootKey, ops) {
      var i :| 0 <= i < |Issued(rootKey, ops)|
               && SameBlocks(c.blocks, Issued(rootKey, ops)[i].blocks) && c.seal == Issued(rootKey, ops)[i].seal;
      IssuedVerifies(c, rootKey, ops, i, now, limit);
    }
  }

  predicate NoEpoch(b: seq<Block>) {
    forall i :: 0 <= i < |b| ==> !EpochBound(b[i].grant)
  }

  lemma SameExpiries(a: seq<Block>, b: seq<Block>)
    requires SameBlocks(a, b) && NoEpoch(a) && NoEpoch(b) && ExpiriesNarrow(b)
    ensures ExpiriesNarrow(a)
  {
  }

  /** Where nobody uses an expiry at the Unix epoch, the expiry clause says nothing: what verifies is
      exactly what the run returned and has not expired. */
  lemma VerifiesExactlyTheUnexpired(c: Capability, rootKey: nat, ops: seq<Op>, now: int, limit: int)
    requires Assembled(c, Issued(rootKey, ops), {})
    requires NoEpoch(c.blocks) && forall n :: 0 <= n < |Issued(rootKey, ops)| ==> NoEpoch(Issued(rootKey, ops)[n].blocks)
    ensures Accepted(c, Key(rootKey), now, limit) <==>
            |c.blocks| <= limit && Unexpired(c.blocks, now) && Returned(c, rootKey, ops)
  {
    VerifiesExactlyTheIssued(c, rootKey, ops, now, limit);
    if Returned(c, rootKey, ops) {
      var issued := Issued(rootKey, ops);
      var n :| 0 <= n < |issued| && SameBlocks(c.blocks, issued[n].blocks) && c.seal == issued[n].seal;
      IssuedAreWellMade(rootKey, ops);
      NarrowingExpiries(issued[n].blocks);
      SameExpiries(c.blocks, issued[n].blocks);
    }
  }

  /** Whatever is accepted on the signatures made for this grant is accepted before the grant expires. */
  ghost predicate ExpiryIsKept(rootKey: nat, nextKey: nat, g: Grant) {
    forall c, now, limit ::
      Assembled(c, Issued(rootKey, [Mint(g, nextKey)]), {}) && Accepted(c, Key(rootKey), now, limit) ==> !Expired(g, now)
  }

  lemma OneIssued(rootKey: nat, nextKey: nat, g: Grant)
    ensures Issued(rootKey, [Mint(g, nextKey)]) == [NewCapability(rootKey, g, nextKey)]
  {
    var ops := [Mint(g, nextKey)];
    assert ops[..0] == [] && Issued(rootKey, []) == [];
  }

  /** With an expiry at the epoch it does not: the same signatures over the grant without expiry verify
      at any time. */
  lemma EpochReadsAsUnbounded(rootKey: nat, nextKey: nat, g: Grant, now: int) returns (c: Capability)
    requires EpochBound(g)
    ensures Assembled(c, Issued(rootKey, [Mint(g, nextKey)]), {}) && Accepted(c, Key(rootKey), now, Chain.MAX_DEPTH)
    ensures |c.blocks| == 1 && c.blocks[0].grant == g.(notAfter := None)
  {
    OneIssued(rootKey, nextKey, g);
    var r := NewCapability(rootKey, g, nextKey);
    c := r.(blocks := [r.blocks[0].(grant := g.(notAfter := None))]);
    var issued := [r];
    assert issued[0] == r;
    assert MadeBy(issued, r.seal) && MadeBy(issued, r.blocks[0].sig);
    assert SignedAt(c.blocks, Key(rootKey), 0);
  }

  /** For every grant: its expiry is kept by everything its signatures verify, if and only if it is not
      at the epoch. */
  lemma ExpiryIsKeptExactly(rootKey: nat, nextKey: nat, g: Grant)
    ensures ExpiryIsKept(rootKey, nextKey, g) <==> !EpochBound(g)
  {
    if EpochBound(g) {
      var c := EpochReadsAsUnbounded(rootKey, nextKey, g, 0);
    } else {
      forall c, now, limit | Assembled(c, Issued(rootKey, [Mint(g, nextKey)]), {}) && Accepted(c, Key(rootKey), now, limit)
        ensures !Expired(g, now)
      {
        VerifiesExactlyTheIssued(c, rootKey, [Mint(g, nextKey)], now, limit);
        OneIssued(rootKey, nextKey, g);
        assert Canon(c.blocks[0].grant) == Canon(g) && !Expired(c.blocks[0].grant, now);
      }
    }
  }

  // ---------------------------------------------------------------- the recipient of a narrowed token

  /** Fresh keys: no two capabilities of the run have the same holder, and none is held by the root. */
  ghost predicate FreshKeys(rootKey: nat, issued: seq<Capability>) {
    && (forall i :: 0 <= i < |issued| ==> Holder(issued[i]) != rootKey)
    && (forall i, j :: 0 <= i < j < |issued| ==> Holder(issued[i]) != Holder(issued[j]))
  }

  lemma OneHolder(rootKey: nat, issued: seq<Capability>, i: nat, j: nat)
    requires FreshKeys(rootKey, issued) && i < |issued| && j < |issued| && Holder(issued[i]) == Holder(issued[j])
    ensures i == j
  {
  }

  lemma WholeIsReturned(c: Capability, rootKey: nat, ops: seq<Op>, stolen: set<nat>, i: nat)
    requires i < |Issued(rootKey, ops)| && ComesFrom(c, Issued(rootKey, ops)[i], stolen)
    requires Holder(Issued(rootKey, ops)[i]) !in stolen
    ensures Returned(c, rootKey, ops)
  {
    assert c.blocks[..|c.blocks|] == c.blocks;
  }

  /** Someone handed one capability and its secret, who has seen every other token go by, can present
      only tokens the run returned as they are, or further narrowings of the one they hold. */
  lemma {:induction false} RecipientCannotWiden(c: Capability, rootKey: nat, ops: seq<Op>, held: nat, now: int, limit: int)
    requires held < |Issued(rootKey, ops)| && FreshKeys(rootKey, Issued(rootKey, ops))
    requires Assembled(c, Issued(rootKey, ops), {Holder(Issued(rootKey, ops)[held])})
    requires Accepted(c, Key(rootKey), now, limit)
    ensures Returned(c, rootKey, ops) ||
            var r := Issued(rootKey, ops)[held];
            && 0 < |r.blocks| <= |c.blocks| && SameBlocks(c.blocks[..|r.blocks|], r.blocks)
            && Attenuates(c.blocks[|r.blocks| - 1].grant, c.blocks[|c.blocks| - 1].grant)
  {
    var issued := Issued(rootKey, ops);
    var i := Unforgeable(c, rootKey, ops, {Holder(issued[held])}, now, limit);
    if Holder(issued[i]) == Holder(issued[held]) {
      OneHolder(rootKey, issued, i, held);
    } else {
      WholeIsReturned(c, rootKey, ops, {Holder(issued[held])}, i);
    }
  }

  /** A seal is void for every proper prefix. */
  lemma TruncationIsRefused(c: Capability, root: PublicKey, now: int, limit: int, n: nat, now': int, limit': int)
    requires Accepted(c, root, now, limit) && n < |c.blocks|
    ensures !Accepted(Capability(c.blocks[..n], c.seal), root, now', limit')
  {
  }
}
