/** The Merkle tree of audit/merkle.go (RFC 6962): the recursive prover, the recursive
    inclusion verifier and the bit-shifting consistency verifier. */
module Merkle {
  import opened Common
  import opened Digests

  // ---------------------------------------------------------------- powers of two

  predicate IsPow2(k: int) {
    k == 1 || (k > 1 && k % 2 == 0 && IsPow2(k / 2))
  }

  /** The first of k, 2k, 4k, ... whose double reaches n. */
  function Doubled(k: int, n: int): (r: int)
    requires 0 < k < n
    ensures 0 < r < n <= 2 * r
    decreases n - k
  {
    if 2 * k >= n then k else Doubled(2 * k, n)
  }

  /** The largest power of two strictly below n, and 0 where there is none. */
  function Lp2(n: int): (k: int)
    ensures n >= 2 ==> 0 < k < n <= 2 * k
    ensures n < 2 ==> k == 0
  {
    if n < 2 then 0 else Doubled(1, n)
  }

  lemma {:induction false} DoubledIsPow2(k: int, n: int)
    requires 0 < k < n && IsPow2(k)
    ensures IsPow2(Doubled(k, n))
    decreases n - k
  {
    if 2 * k < n {
      DoubledIsPow2(2 * k, n);
    }
  }

  lemma Lp2IsPow2(n: int)
    requires n >= 2
    ensures IsPow2(Lp2(n))
  {
    DoubledIsPow2(1, n);
  }

  lemma {:induction false} Pow2Gap(a: int, b: int)
    requires IsPow2(a) && IsPow2(b) && a < b
    ensures 2 * a <= b
  {
    if a != 1 {
      Pow2Gap(a / 2, b / 2);
    }
  }

  lemma Lp2Unique(k: int, n: int)
    requires IsPow2(k) && k < n <= 2 * k
    ensures k == Lp2(n)
  {
    Lp2IsPow2(n);
    if k < Lp2(n) {
      Pow2Gap(k, Lp2(n));
    } else if k > Lp2(n) {
      Pow2Gap(Lp2(n), k);
    }
  }

  method ComputeLp2(n: int) returns (k: int)
    ensures k == Lp2(n)
  {
    k := 1;
    while k < n
      invariant IsPow2(k)
      invariant k == 1 || k / 2 < n
    {
      k := 2 * k;
    }
    k := k / 2;
    if n >= 2 {
      Lp2Unique(k, n);
    }
  }

  // ---------------------------------------------------------------- the tree

  function LeafHash(data: Bytes): (h: Bytes)
    ensures |h| == HASH_SIZE
  {
    Sha256(After0(data))
  }

  /** Nothing in the hash marks where the left part ends. */
  function NodeHash(left: Bytes, right: Bytes): (h: Bytes)
    ensures |h| == HASH_SIZE
  {
    Sha256(After1(left + right))
  }

  lemma LeafInjective(a: Bytes, b: Bytes)
    ensures LeafHash(a) == LeafHash(b) <==> a == b
  {
    if LeafHash(a) == LeafHash(b) {
      Sha256Injective(After0(a), After0(b));
    }
  }

  /** A node hash determines its two parts put together. */
  lemma NodeJoins(l: Bytes, r: Bytes, l': Bytes, r': Bytes)
    ensures NodeHash(l, r) == NodeHash(l', r') <==> l + r == l' + r'
  {
    if NodeHash(l, r) == NodeHash(l', r') {
      Sha256Injective(After1(l + r), After1(l' + r'));
    }
  }

  /** And the two parts one by one, where the length of either is known. */
  lemma NodeInjective(l: Bytes, r: Bytes, l': Bytes, r': Bytes)
    requires |l| == |l'| || |r| == |r'|
    ensures NodeHash(l, r) == NodeHash(l', r') <==> l == l' && r == r'
  {
    NodeJoins(l, r, l', r');
    if l + r == l' + r' {
      assert l == (l + r)[..|l|] && r == (l + r)[|l|..];
      assert l' == (l' + r')[..|l'|] && r' == (l' + r')[|l'|..];
    }
  }

  /** The Merkle Tree Hash of a list of leaf data. */
  function Root(d: seq<Bytes>): (h: Bytes)
    ensures |h| == HASH_SIZE
  {
    if |d| == 0 then Sha256(Nothing)
    else if |d| == 1 then LeafHash(d[0])
    else var k := Lp2(|d|); NodeHash(Root(d[..k]), Root(d[k..]))
  }

  lemma RootSplits(d: seq<Bytes>, k: int)
    requires IsPow2(k) && k < |d| <= 2 * k
    ensures Root(d) == NodeHash(Root(d[..k]), Root(d[k..])) && |d[k..]| == |d| - k
  {
    Lp2Unique(k, |d|);
  }

  /** A prefix that reaches past the left subtree splits where the whole list splits. */
  lemma RootOfPrefix(d: seq<Bytes>, m: int)
    requires |d| >= 2 && Lp2(|d|) < m <= |d|
    ensures var k := Lp2(|d|); Root(d[..m]) == NodeHash(Root(d[..k]), Root(d[k..][..m - k]))
  {
    var k := Lp2(|d|);
    Lp2IsPow2(|d|);
    Lp2Unique(k, m);
    assert d[..m][..k] == d[..k];
    assert d[..m][k..] == d[k..][..m - k];
  }

  lemma LeafIsNoNode(leaf: Bytes, left: Bytes, right: Bytes)
    ensures LeafHash(leaf) != NodeHash(left, right)
  {
    if LeafHash(leaf) == NodeHash(left, right) {
      Sha256Injective(After0(leaf), After1(left + right));
    }
  }

  lemma NothingIsNoTree(data: Bytes, left: Bytes, right: Bytes)
    ensures Sha256(Nothing) != LeafHash(data) && Sha256(Nothing) != NodeHash(left, right)
  {
    if Sha256(Nothing) == LeafHash(data) {
      Sha256Injective(Nothing, After0(data));
    }
    if Sha256(Nothing) == NodeHash(left, right) {
      Sha256Injective(Nothing, After1(left + right));
    }
  }

  /** The root of a tree of two or more leaves is neither that of an empty one nor of a single leaf. */
  lemma NodeRoot(d: seq<Bytes>, data: Bytes)
    requires |d| >= 2
    ensures Root(d) != Sha256(Nothing) && Root(d) != LeafHash(data)
  {
    var k := Lp2(|d|);
    NothingIsNoTree(data, Root(d[..k]), Root(d[k..]));
    LeafIsNoNode(data, Root(d[..k]), Root(d[k..]));
  }

  /** A root commits to its log: whatever their sizes, two logs with one root are one log. */
  lemma {:induction false} RootBinds(a: seq<Bytes>, b: seq<Bytes>)
    requires Root(a) == Root(b)
    ensures a == b
    decreases |a|
  {
    if |a| >= 2 && |b| >= 2 {
      RootBindsHalves(a, b);
    } else if |a| >= 2 {
      NodeRoot(a, if |b| == 1 then b[0] else []);
    } else if |b| >= 2 {
      NodeRoot(b, if |a| == 1 then a[0] else []);
    } else {
      NothingIsNoTree(if |a| == 1 then a[0] else if |b| == 1 then b[0] else [], [], []);
      if |a| == 1 && |b| == 1 {
        LeafInjective(a[0], b[0]);
      }
    }
  }

  lemma {:induction false} RootBindsHalves(a: seq<Bytes>, b: seq<Bytes>)
    requires |a| >= 2 && |b| >= 2 && Root(a) == Root(b)
    ensures a == b
    decreases |a|, 0
  {
    var j, k := Lp2(|a|), Lp2(|b|);
    NodeInjective(Root(a[..j]), Root(a[j..]), Root(b[..k]), Root(b[k..]));
    RootBinds(a[..j], b[..k]);
    RootBinds(a[j..], b[k..]);
    assert a == a[..j] + a[j..] && b == b[..k] + b[k..];
  }

  // ---------------------------------------------------------------- inclusion

  lemma SnocInjective<T>(a: seq<T>, x: T, b: seq<T>, y: T)
    ensures a + [x] == b + [y] <==> a == b && x == y
  {
    if a + [x] == b + [y] {
      assert a == (a + [x])[..|a|] == (b + [y])[..|b|] == b;
      assert x == (a + [x])[|a|] == (b + [y])[|b|] == y;
    }
  }

  function InclusionPath(m: int, d: seq<Bytes>): seq<Bytes>
    requires 0 <= m < |d|
    decreases |d|
  {
    if |d| == 1 then [] else
    var k := Lp2(|d|);
    if m < k then InclusionPath(m, d[..k]) + [Root(d[k..])]
    else InclusionPath(m - k, d[k..]) + [Root(d[..k])]
  }

  function InclusionProof(d: seq<Bytes>, index: int): Option<seq<Bytes>> {
    if index < 0 || index >= |d| then None else Some(InclusionPath(index, d))
  }

  function RootFromInclusion(leafHash: Bytes, index: int, size: int, proof: seq<Bytes>): (r: Option<Bytes>)
    ensures r.Some? && |leafHash| == HASH_SIZE ==> |r.value| == HASH_SIZE
    decreases size
  {
    if size <= 0 || index < 0 || index >= size then None
    else if size == 1 then (if |proof| == 0 then Some(leafHash) else None)
    else if |proof| == 0 then None
    else
      var k := Lp2(size);
      var last := proof[|proof| - 1];
      var rest := proof[..|proof| - 1];
      if index < k then
        match RootFromInclusion(leafHash, index, k, rest)
        case None => None
        case Some(left) => Some(NodeHash(left, last))
      else
        match RootFromInclusion(leafHash, index - k, size - k, rest)
        case None => None
        case Some(right) => Some(NodeHash(last, right))
  }

  predicate VerifyInclusion(leaf: Bytes, index: int, size: int, proof: seq<Bytes>, root: Bytes) {
    RootFromInclusion(LeafHash(leaf), index, size, proof) == Some(root)
  }

  /** The recomputed hash is the genuine one exactly for the genuine leaf and path. */
  ghost predicate PathFits(got: Option<Bytes>, root: Bytes, proof: seq<Bytes>, path: seq<Bytes>, same: bool) {
    got == Some(root) <==> proof == path && same
  }

  lemma PathFitsAbove(got: Option<Bytes>, root: Bytes, proof: seq<Bytes>, path: seq<Bytes>, same: bool,
                      last: Bytes, sibling: Bytes)
    requires PathFits(got, root, proof, path, same) && |root| == HASH_SIZE && (got.Some? ==> |got.value| == HASH_SIZE)
    ensures got.Some? ==>
              var proof', path' := proof + [last], path + [sibling];
              && PathFits(Some(NodeHash(got.value, last)), NodeHash(root, sibling), proof', path', same)
              && PathFits(Some(NodeHash(last, got.value)), NodeHash(sibling, root), proof', path', same)
    ensures got.None? ==> !(proof + [last] == path + [sibling] && same)
  {
    SnocInjective(proof, last, path, sibling);
    if got.Some? {
      NodeInjective(got.value, last, root, sibling);
      NodeInjective(last, got.value, sibling, root);
    }
  }

  lemma {:induction false} PathExact(d: seq<Bytes>, leaf: Bytes, index: int, proof: seq<Bytes>)
    requires 0 <= index < |d|
    ensures RootFromInclusion(LeafHash(leaf), index, |d|, proof) == Some(Root(d))
            <==> proof == InclusionPath(index, d) && leaf == d[index]
    decreases |d|
  {
    if |d| == 1 {
      LeafInjective(leaf, d[0]);
    } else if proof != [] {
      var k, last, rest := Lp2(|d|), proof[|proof| - 1], proof[..|proof| - 1];
      assert proof == rest + [last];
      if index < k {
        var sub := d[..k];
        PathExact(sub, leaf, index, rest);
        PathFitsAbove(RootFromInclusion(LeafHash(leaf), index, k, rest), Root(sub), rest, InclusionPath(index, sub),
                      leaf == d[index], last, Root(d[k..]));
      } else {
        var sub := d[k..];
        PathExact(sub, leaf, index - k, rest);
        PathFitsAbove(RootFromInclusion(LeafHash(leaf), index - k, |sub|, rest), Root(sub), rest,
                      InclusionPath(index - k, sub), leaf == d[index], last, Root(d[..k]));
      }
    }
  }

  /** An inclusion proof against a genuine root is accepted exactly when it is the prover's own
      path and the leaf is the one stored at that index: proofs exist, and they pin the leaf. */
  lemma {:induction false} InclusionExact(d: seq<Bytes>, leaf: Bytes, index: int, proof: seq<Bytes>)
    ensures VerifyInclusion(leaf, index, |d|, proof, Root(d))
            <==> InclusionProof(d, index) == Some(proof) && leaf == d[index]
  {
    if 0 <= index < |d| {
      PathExact(d, leaf, index, proof);
    }
  }

  // ---------------------------------------------------------------- consistency, the prover

  function Subproof(m: int, d: seq<Bytes>, b: bool): seq<Bytes>
    requires 0 < m <= |d|
    decreases |d|
  {
    if m == |d| then (if b then [] else [Root(d)])
    else
      var k := Lp2(|d|);
      if m <= k then Subproof(m, d[..k], b) + [Root(d[k..])]
      else Subproof(m - k, d[k..], false) + [Root(d[..k])]
  }

  function ConsistencyProof(d: seq<Bytes>, oldSize: int): Option<seq<Bytes>> {
    if oldSize < 0 || oldSize > |d| then None
    else if oldSize == 0 || oldSize == |d| then Some([])
    else Some(Subproof(oldSize, d, true))
  }

  /** The hash the prover starts from: the largest complete subtree that ends at leaf m. */
  function Seed(m: int, d: seq<Bytes>): (seed: Bytes)
    requires 0 < m <= |d|
    ensures |seed| == HASH_SIZE
    decreases |d|
  {
    if m == |d| then Root(d)
    else
      var k := Lp2(|d|);
      if m <= k then Seed(m, d[..k]) else Seed(m - k, d[k..])
  }

  /** The siblings met on the way from that subtree up to the root. */
  function Siblings(m: int, d: seq<Bytes>): seq<Bytes>
    requires 0 < m <= |d|
    decreases |d|
  {
    if m == |d| then []
    else
      var k := Lp2(|d|);
      if m <= k then Siblings(m, d[..k]) + [Root(d[k..])] else Siblings(m - k, d[k..]) + [Root(d[..k])]
  }

  lemma SplitRight(m: int, d: seq<Bytes>)
    requires 0 < Lp2(|d|) < m < |d|
    ensures var k := Lp2(|d|); var sub := d[k..];
            && |sub| == |d| - k && Root(d) == NodeHash(Root(d[..k]), Root(sub))
            && Seed(m, d) == Seed(m - k, sub) && Siblings(m, d) == Siblings(m - k, sub) + [Root(d[..k])]
  {
  }

  lemma {:induction false} SubproofUnflagged(m: int, d: seq<Bytes>)
    requires 0 < m <= |d|
    ensures Subproof(m, d, false) == [Seed(m, d)] + Siblings(m, d)
    decreases |d|
  {
    if m < |d| {
      var k := Lp2(|d|);
      if m <= k {
        SubproofUnflagged(m, d[..k]);
      } else {
        SubproofUnflagged(m - k, d[k..]);
      }
    }
  }

  /** The prover's list is the starting hash and its siblings, except that the starting hash is
      left out where it is the old root itself. */
  lemma {:induction false} SubproofFlagged(m: int, d: seq<Bytes>)
    requires 0 < m <= |d|
    ensures IsPow2(m) ==> Subproof(m, d, true) == Siblings(m, d) && Seed(m, d) == Root(d[..m])
    ensures m < |d| && !IsPow2(m) ==> Subproof(m, d, true) == [Seed(m, d)] + Siblings(m, d)
    decreases |d|
  {
    assert d[..|d|] == d;
    if m < |d| {
      var k := Lp2(|d|);
      Lp2IsPow2(|d|);
      if m <= k {
        SubproofFlagged(m, d[..k]);
        assert d[..k][..m] == d[..m];
      } else {
        SubproofUnflagged(m - k, d[k..]);
        if IsPow2(m) {
          Pow2Gap(k, m);
        }
      }
    }
  }

  // ---------------------------------------------------------------- consistency, the reference verifier

  /** An old and a new root, as far as a proof has recomputed them. */
  type Roots = Option<(Bytes, Bytes)>

  /** The subtree holds the whole old log, so its right sibling only joins the new root. */
  function JoinRight(r: Roots, sibling: Bytes): Roots {
    if r.None? then None else Some((r.value.0, NodeHash(r.value.1, sibling)))
  }

  /** The left sibling lies inside both logs. */
  function JoinLeft(r: Roots, sibling: Bytes): Roots {
    if r.None? then None else Some((NodeHash(sibling, r.value.0), NodeHash(sibling, r.value.1)))
  }

  /** What a consistency proof recomputes, read from the root down: the old and the new root that
      follow from a starting hash and a list of siblings, or nothing if the list does not fit. */
  function Recompute(m: int, n: int, seed: Bytes, proof: seq<Bytes>): (r: Roots)
    requires 0 < m <= n
    ensures r.Some? && (m < n || |seed| == HASH_SIZE) ==> |r.value.1| == HASH_SIZE
    decreases n
  {
    if m == n then (if proof == [] then Some((seed, seed)) else None)
    else if proof == [] then None
    else
      var k := Lp2(n);
      var last := proof[|proof| - 1];
      var rest := proof[..|proof| - 1];
      if m <= k then JoinRight(Recompute(m, k, seed, rest), last)
      else JoinLeft(Recompute(m - k, n - k, seed, rest), last)
  }

  lemma RecomputeRight(m: int, n: int, seed: Bytes, proof: seq<Bytes>)
    requires 0 < m < n && Lp2(n) < m && proof != []
    ensures Recompute(m, n, seed, proof)
         == JoinLeft(Recompute(m - Lp2(n), n - Lp2(n), seed, proof[..|proof| - 1]), proof[|proof| - 1])
  {
  }

  /** The reference reading of a consistency check. */
  predicate ConsistencyAccepted(m: int, n: int, proof: seq<Bytes>, oldRoot: Bytes, newRoot: Bytes) {
    if m < 0 || n < 0 || m > n then false
    else if m == n then proof == [] && oldRoot == newRoot
    else if m == 0 then proof == []
    else if IsPow2(m) then Recompute(m, n, oldRoot, proof) == Some((oldRoot, newRoot))
    else proof != [] && Recompute(m, n, proof[0], proof[1..]) == Some((oldRoot, newRoot))
  }

  /** Whatever starting hash and sibling list are tried and give the genuine new root: they are the
      prover's exactly when the starting hash has the length of a hash, and exactly then the old
      root that comes out is that of the prefix. */
  ghost predicate Exact(r: Roots, root: Bytes, oldRoot: Bytes, seed: Bytes, proof: seq<Bytes>,
                        proverSeed: Bytes, siblings: seq<Bytes>) {
    var genuine := r.Some? && r.value.1 == root;
    && (genuine && |seed| == HASH_SIZE <==> seed == proverSeed && proof == siblings)
    && (genuine ==> (r.value.0 == oldRoot <==> |seed| == HASH_SIZE))
    && (genuine ==> |seed| <= 2 * HASH_SIZE)
  }

  ghost predicate ExactAt(m: int, d: seq<Bytes>, seed: Bytes, proof: seq<Bytes>)
    requires 0 < m <= |d|
  {
    Exact(Recompute(m, |d|, seed, proof), Root(d), Root(d[..m]), seed, proof, Seed(m, d), Siblings(m, d))
  }

  /** The first sibling, which always stands to the right: here nothing but the length of the
      starting hash says where it ends. */
  lemma FirstIsExact(seed: Bytes, rest: seq<Bytes>, last: Bytes, left: Bytes, right: Bytes)
    requires |left| == |right| == HASH_SIZE
    ensures var r := if rest == [] then Some((seed, NodeHash(seed, last))) else None;
            Exact(r, NodeHash(left, right), left, seed, rest + [last], left, [right])
  {
    SnocInjective(rest, last, [], right);
    assert [right] == [] + [right];
    NodeJoins(seed, last, left, right);
    if |seed| == HASH_SIZE {
      NodeInjective(seed, last, left, right);
    }
  }

  lemma JoinRightExact(r: Roots, root: Bytes, oldRoot: Bytes, seed: Bytes, proof: seq<Bytes>,
                       proverSeed: Bytes, siblings: seq<Bytes>, last: Bytes, right: Bytes)
    requires Exact(r, root, oldRoot, seed, proof, proverSeed, siblings)
    requires |root| == HASH_SIZE && (r.Some? ==> |r.value.1| == HASH_SIZE)
    ensures Exact(JoinRight(r, last), NodeHash(root, right), oldRoot, seed, proof + [last], proverSeed, siblings + [right])
  {
    SnocInjective(proof, last, siblings, right);
    if r.Some? {
      NodeInjective(r.value.1, last, root, right);
    }
  }

  lemma JoinLeftExact(r: Roots, root: Bytes, oldRoot: Bytes, seed: Bytes, proof: seq<Bytes>,
                      proverSeed: Bytes, siblings: seq<Bytes>, last: Bytes, left: Bytes)
    requires Exact(r, root, oldRoot, seed, proof, proverSeed, siblings)
    requires |root| == HASH_SIZE && (r.Some? ==> |r.value.1| == HASH_SIZE)
    ensures Exact(JoinLeft(r, last), NodeHash(left, root), NodeHash(left, oldRoot), seed, proof + [last],
                  proverSeed, siblings + [left])
  {
    SnocInjective(proof, last, siblings, left);
    if r.Some? {
      NodeInjective(last, r.value.1, left, root);
      if last == left {
        NodeInjective(last, r.value.0, left, oldRoot);
      }
    }
  }

  lemma ExactAtFirst(m: int, d: seq<Bytes>, seed: Bytes, rest: seq<Bytes>, last: Bytes)
    requires 0 < m < |d| && m == Lp2(|d|)
    ensures ExactAt(m, d, seed, rest + [last])
  {
    assert (rest + [last])[..|rest|] == rest;
    assert Siblings(m, d) == [Root(d[m..])] && Seed(m, d) == Root(d[..m]);
    FirstIsExact(seed, rest, last, Root(d[..m]), Root(d[m..]));
  }

  lemma ExactAtLeft(m: int, d: seq<Bytes>, seed: Bytes, rest: seq<Bytes>, last: Bytes)
    requires 0 < m < Lp2(|d|) && |d| >= 2
    requires ExactAt(m, d[..Lp2(|d|)], seed, rest)
    ensures ExactAt(m, d, seed, rest + [last])
  {
    var k := Lp2(|d|);
    var sub := d[..k];
    assert (rest + [last])[..|rest|] == rest;
    assert sub[..m] == d[..m];
    JoinRightExact(Recompute(m, k, seed, rest), Root(sub), Root(d[..m]), seed, rest, Seed(m, sub), Siblings(m, sub),
                   last, Root(d[k..]));
  }

  lemma ExactAtRight(m: int, d: seq<Bytes>, k: int, seed: Bytes, rest: seq<Bytes>, last: Bytes)
    requires 0 < k == Lp2(|d|) < m < |d| && ExactAt(m - k, d[k..], seed, rest)
    ensures ExactAt(m, d, seed, rest + [last])
  {
    var m', sub, left := m - k, d[k..], Root(d[..k]);
    var r' := Recompute(m', |sub|, seed, rest);
    JoinLeftExact(r', Root(sub), Root(sub[..m']), seed, rest, Seed(m', sub), Siblings(m', sub), last, left);
    assert Root(d[..m]) == NodeHash(left, Root(sub[..m'])) by {
      RootOfPrefix(d, m);
    }
    assert Recompute(m, |d|, seed, rest + [last]) == JoinLeft(r', last) by {
      assert (rest + [last])[..|rest|] == rest;
    }
  }

  lemma {:induction false} RecomputeExact(m: int, d: seq<Bytes>, seed: Bytes, proof: seq<Bytes>)
    requires 0 < m <= |d|
    ensures ExactAt(m, d, seed, proof)
    decreases |d|
  {
    if m == |d| {
      assert d[..m] == d;
    } else if proof != [] {
      var k, last, rest := Lp2(|d|), proof[|proof| - 1], proof[..|proof| - 1];
      assert proof == rest + [last];
      if m < k {
        RecomputeExact(m, d[..k], seed, rest);
        ExactAtLeft(m, d, seed, rest, last);
      } else if m == k {
        ExactAtFirst(m, d, seed, rest, last);
      } else {
        RecomputeExact(m - k, d[k..], seed, rest);
        ExactAtRight(m, d, k, seed, rest, last);
      }
    }
  }

  /** The hash the verifier starts from. */
  function StartHash(m: int, proof: seq<Bytes>, oldRoot: Bytes): Bytes {
    if IsPow2(m) || proof == [] then oldRoot else proof[0]
  }

  /** What the verifier does not check and its caller can: a starting hash as long as a hash. */
  predicate WellStarted(m: int, n: int, proof: seq<Bytes>, oldRoot: Bytes) {
    0 < m < n ==> |StartHash(m, proof, oldRoot)| == HASH_SIZE
  }

  lemma ConsistencyExactInside(d: seq<Bytes>, m: int, proof: seq<Bytes>, oldRoot: Bytes)
    requires 0 < m < |d|
    ensures var accepted := ConsistencyAccepted(m, |d|, proof, oldRoot, Root(d));
            var length := |StartHash(m, proof, oldRoot)|;
            && (accepted && length == HASH_SIZE <==> proof == Subproof(m, d, true) && oldRoot == Root(d[..m]))
            && (accepted ==> length <= 2 * HASH_SIZE && (oldRoot == Root(d[..m]) <==> length == HASH_SIZE))
  {
    SubproofFlagged(m, d);
    if IsPow2(m) {
      RecomputeExact(m, d, oldRoot, proof);
    } else if proof != [] {
      RecomputeExact(m, d, proof[0], proof[1..]);
      assert [proof[0]] + proof[1..] == proof;
    }
  }

  /** Against a genuine new root, a consistency proof for a non-empty old log is accepted from a
      starting hash of the right length exactly when it is the list the recursive prover emits and
      the old root is the root of the prefix. From a starting hash of any other length whatever is
      accepted has a wrong old root, so the length decides. */
  lemma {:induction false} ConsistencyExact(d: seq<Bytes>, m: int, proof: seq<Bytes>, oldRoot: Bytes)
    ensures ConsistencyAccepted(m, |d|, proof, oldRoot, Root(d)) && WellStarted(m, |d|, proof, oldRoot)
            <==> ConsistencyProof(d, m) == Some(proof) && (oldRoot == Root(d[..m]) || (m == 0 && |d| > 0))
    ensures ConsistencyAccepted(m, |d|, proof, oldRoot, Root(d)) && m > 0
            ==> (oldRoot == Root(d[..m]) <==> WellStarted(m, |d|, proof, oldRoot))
  {
    if 0 < m < |d| {
      ConsistencyExactInside(d, m, proof, oldRoot);
    } else if m == |d| {
      assert d[..m] == d;
    }
  }

  // ---------------------------------------------------------------- consistency, the loop

  /** Whether the climb uses up a proof element at this level: a left sibling, or a right one. */
  predicate Consumes(node: int, last: int) {
    node % 2 == 1 || node < last
  }

  /** A left sibling joins both roots, a right sibling only the new one. */
  function Joined(node: int, fr: Bytes, sr: Bytes, sibling: Bytes): (Bytes, Bytes) {
    if node % 2 == 1 then (NodeHash(sibling, fr), NodeHash(sibling, sr)) else (fr, NodeHash(sr, sibling))
  }

  /** What the verifier's loops do from a given position on: climb from the leaves to the root,
      consuming the proof from the front. */
  function Climb(node: int, last: int, fr: Bytes, sr: Bytes, proof: seq<Bytes>): Roots
    requires 0 <= node <= last
    decreases last
  {
    if last == 0 then (if proof == [] then Some((fr, sr)) else None)
    else if !Consumes(node, last) then Climb(node / 2, last / 2, fr, sr, proof)
    else if proof == [] then None
    else
      var (fr', sr') := Joined(node, fr, sr, proof[0]);
      Climb(node / 2, last / 2, fr', sr', proof[1..])
  }

  /** The climb after the trailing ones of `node` have been shifted out. */
  function Start(node: int, last: int, seed: Bytes, proof: seq<Bytes>): Roots
    requires 0 <= node <= last
    decreases last
  {
    if node % 2 == 1 then Start(node / 2, last / 2, seed, proof)
    else Climb(node, last, seed, seed, proof)
  }

  lemma ClimbConsumes(node: int, last: int, fr: Bytes, sr: Bytes, p: Bytes, rest: seq<Bytes>)
    requires 0 <= node <= last && last > 0 && Consumes(node, last)
    ensures var (fr', sr') := Joined(node, fr, sr, p);
            Climb(node, last, fr, sr, [p] + rest) == Climb(node / 2, last / 2, fr', sr', rest)
  {
  }

  /** Below a left turn at the top the climb is that of the complete left subtree; the last
      element joins at the root. */
  lemma {:induction false} ClimbLeft(node: int, last: int, k: int, fr: Bytes, sr: Bytes, proof: seq<Bytes>)
    requires IsPow2(k) && 0 <= node < k <= last < 2 * k
    ensures Climb(node, last, fr, sr, proof) ==
            if proof == [] then None
            else JoinRight(Climb(node, k - 1, fr, sr, proof[..|proof| - 1]), proof[|proof| - 1])
    decreases k
  {
    if k > 1 && proof != [] {
      var p, rest := proof[0], proof[1..];
      assert proof == [p] + rest;
      var (fr', sr') := Joined(node, fr, sr, p);
      ClimbConsumes(node, last, fr, sr, p, rest);
      assert (k - 1) / 2 == k / 2 - 1 && node / 2 < k / 2 <= last / 2;
      ClimbLeft(node / 2, last / 2, k / 2, fr', sr', rest);
      if rest != [] {
        assert proof[..|proof| - 1] == [p] + rest[..|rest| - 1];
        ClimbConsumes(node, k - 1, fr, sr, p, rest[..|rest| - 1]);
      }
    }
  }

  lemma RightHalves(node: int, last: int, k: int)
    requires IsPow2(k) && 1 < k <= node <= last < 2 * k
    ensures IsPow2(k / 2) && k / 2 <= node / 2 <= last / 2 < 2 * (k / 2)
    ensures (node - k) / 2 == node / 2 - k / 2 && (node - k) % 2 == node % 2 && (last - k) / 2 == last / 2 - k / 2
  {
  }

  /** The claim of `ClimbRight`, at one position. */
  ghost predicate RightTurn(node: int, last: int, k: int, fr: Bytes, sr: Bytes, proof: seq<Bytes>)
    requires 0 <= k <= node <= last
  {
    Climb(node, last, fr, sr, proof) ==
    if proof == [] then None
    else JoinLeft(Climb(node - k, last - k, fr, sr, proof[..|proof| - 1]), proof[|proof| - 1])
  }

  lemma ClimbRightConsumes(node: int, last: int, k: int, fr: Bytes, sr: Bytes, p: Bytes, rest: seq<Bytes>)
    requires IsPow2(k) && 1 < k <= node <= last < 2 * k && Consumes(node, last)
    requires var (fr', sr') := Joined(node, fr, sr, p); RightTurn(node / 2, last / 2, k / 2, fr', sr', rest)
    ensures RightTurn(node, last, k, fr, sr, [p] + rest)
  {
    RightHalves(node, last, k);
    ClimbConsumes(node, last, fr, sr, p, rest);
    if rest != [] {
      assert ([p] + rest)[..|rest|] == [p] + rest[..|rest| - 1];
      ClimbConsumes(node - k, last - k, fr, sr, p, rest[..|rest| - 1]);
    } else {
      assert ([p] + rest)[..|rest|] == [];
    }
  }

  lemma ClimbRightSkips(node: int, last: int, k: int, fr: Bytes, sr: Bytes, proof: seq<Bytes>)
    requires IsPow2(k) && 1 < k <= node <= last < 2 * k && !Consumes(node, last)
    requires RightTurn(node / 2, last / 2, k / 2, fr, sr, proof)
    ensures RightTurn(node, last, k, fr, sr, proof)
  {
    RightHalves(node, last, k);
  }

  /** Below a right turn the climb is that of the right subtree; the last element is the complete
      left subtree, which joins both roots. */
  lemma {:induction false} ClimbRight(node: int, last: int, k: int, fr: Bytes, sr: Bytes, proof: seq<Bytes>)
    requires IsPow2(k) && k <= node <= last < 2 * k
    ensures RightTurn(node, last, k, fr, sr, proof)
    decreases k
  {
    if k > 1 {
      RightHalves(node, last, k);
      if !Consumes(node, last) {
        ClimbRight(node / 2, last / 2, k / 2, fr, sr, proof);
        ClimbRightSkips(node, last, k, fr, sr, proof);
      } else if proof != [] {
        var (fr', sr') := Joined(node, fr, sr, proof[0]);
        ClimbRight(node / 2, last / 2, k / 2, fr', sr', proof[1..]);
        ClimbRightConsumes(node, last, k, fr, sr, proof[0], proof[1..]);
        assert proof == [proof[0]] + proof[1..];
      }
    }
  }

  lemma {:induction false} StartLeft(node: int, last: int, k: int, seed: Bytes, proof: seq<Bytes>)
    requires IsPow2(k) && 0 <= node < k <= last < 2 * k
    ensures Start(node, last, seed, proof) ==
            if proof == [] then None
            else JoinRight(Start(node, k - 1, seed, proof[..|proof| - 1]), proof[|proof| - 1])
    decreases k
  {
    if node % 2 == 1 {
      assert (k - 1) / 2 == k / 2 - 1;
      StartLeft(node / 2, last / 2, k / 2, seed, proof);
    } else {
      ClimbLeft(node, last, k, seed, seed, proof);
    }
  }

  lemma {:induction false} StartRight(node: int, last: int, k: int, seed: Bytes, proof: seq<Bytes>)
    requires IsPow2(k) && k <= node < last < 2 * k
    ensures Start(node, last, seed, proof) ==
            if proof == [] then None
            else JoinLeft(Start(node - k, last - k, seed, proof[..|proof| - 1]), proof[|proof| - 1])
    decreases k
  {
    assert (node - k) / 2 == node / 2 - k / 2 && (node - k) % 2 == node % 2;
    assert (last - k) / 2 == last / 2 - k / 2;
    if node % 2 == 1 {
      StartRight(node / 2, last / 2, k / 2, seed, proof);
    } else {
      ClimbRight(node, last, k, seed, seed, proof);
    }
  }

  lemma {:induction false} StartComplete(n: int, seed: Bytes, proof: seq<Bytes>)
    requires IsPow2(n)
    ensures Start(n - 1, n - 1, seed, proof) == if proof == [] then Some((seed, seed)) else None
    decreases n
  {
    if n > 1 {
      assert (n - 1) / 2 == n / 2 - 1;
      StartComplete(n / 2, seed, proof);
    }
  }

  lemma StartRightAgrees(m: int, n: int, seed: Bytes, proof: seq<Bytes>)
    requires 0 < m < n && Lp2(n) < m
    requires proof != [] ==> var k := Lp2(n); var rest := proof[..|proof| - 1];
                             Start(m - k - 1, n - k - 1, seed, rest) == Recompute(m - k, n - k, seed, rest)
    ensures Start(m - 1, n - 1, seed, proof) == Recompute(m, n, seed, proof)
  {
    var k := Lp2(n);
    Lp2IsPow2(n);
    StartRight(m - 1, n - 1, k, seed, proof);
    assert (m - 1) - k == m - k - 1 && (n - 1) - k == n - k - 1;
    if proof != [] {
      RecomputeRight(m, n, seed, proof);
    }
  }

  /** The bit-shifting climb, leaves to root, computes what the recursion does, root to leaves. */
  lemma {:induction false} StartIsRecompute(m: int, n: int, seed: Bytes, proof: seq<Bytes>)
    requires 0 < m <= n && (m < n || IsPow2(n))
    ensures Start(m - 1, n - 1, seed, proof) == Recompute(m, n, seed, proof)
    decreases n
  {
    var k := Lp2(n);
    if m == n {
      StartComplete(n, seed, proof);
    } else if m <= k {
      Lp2IsPow2(n);
      StartLeft(m - 1, n - 1, k, seed, proof);
      if proof != [] {
        StartIsRecompute(m, k, seed, proof[..|proof| - 1]);
      }
    } else {
      if proof != [] {
        StartIsRecompute(m - k, n - k, seed, proof[..|proof| - 1]);
      }
      StartRightAgrees(m, n, seed, proof);
    }
  }

  /** The two loops from the starting hash up: they consume the whole proof or fail. */
  method ClimbProof(startNode: int, startLast: int, seedOld: Bytes, seedNew: Bytes, proof: seq<Bytes>) returns (r: Roots)
    requires 0 <= startNode <= startLast
    ensures r == Climb(startNode, startLast, seedOld, seedNew, proof)
  {
    var node, last, fr, sr, p := startNode, startLast, seedOld, seedNew, 0;
    while node > 0
      invariant 0 <= node <= last && 0 <= p <= |proof|
      invariant Climb(node, last, fr, sr, proof[p..]) == Climb(startNode, startLast, seedOld, seedNew, proof)
    {
      if node % 2 == 1 {
        if p >= |proof| {
          return None;
        }
        fr := NodeHash(proof[p], fr);
        sr := NodeHash(proof[p], sr);
        p := p + 1;
      } else if node < last {
        if p >= |proof| {
          return None;
        }
        sr := NodeHash(sr, proof[p]);
        p := p + 1;
      }
      node, last := node / 2, last / 2;
    }

    while last > 0
      invariant node == 0 <= last && 0 <= p <= |proof|
      invariant Climb(node, last, fr, sr, proof[p..]) == Climb(startNode, startLast, seedOld, seedNew, proof)
    {
      if p >= |proof| {
        return None;
      }
      sr := NodeHash(sr, proof[p]);
      p := p + 1;
      last := last / 2;
    }
    return if p == |proof| then Some((fr, sr)) else None;
  }

  /** The verifier of section 2.1.2 of RFC 6962, as the source runs it. It decides the reference
      reading for every input, so `ConsistencyExact` speaks about this loop. */
  method VerifyConsistency(oldSize: int, newSize: int, proof: seq<Bytes>, oldRoot: Bytes, newRoot: Bytes)
    returns (ok: bool)
    ensures ok == ConsistencyAccepted(oldSize, newSize, proof, oldRoot, newRoot)
  {
    if oldSize < 0 || newSize < 0 || oldSize > newSize {
      return false;
    }
    if oldSize == newSize {
      return |proof| == 0 && oldRoot == newRoot;
    }
    if oldSize == 0 {
      return |proof| == 0;
    }

    // The hash the climb starts from and the siblings it will consume.
    ghost var seed := StartHash(oldSize, proof, oldRoot);
    ghost var siblings := if IsPow2(oldSize) || proof == [] then proof else proof[1..];
    ghost var target := Recompute(oldSize, newSize, seed, siblings);
    StartIsRecompute(oldSize, newSize, seed, siblings);

    var node, last := oldSize - 1, newSize - 1;
    while node % 2 == 1
      invariant 0 <= node < last
      invariant IsPow2(node + 1) == IsPow2(oldSize)
      invariant Start(node, last, seed, siblings) == target
      decreases node
    {
      assert (node + 1) / 2 == node / 2 + 1;
      node, last := node / 2, last / 2;
    }

    var p := 0;
    var fr, sr;
    if node > 0 {
      if p >= |proof| {
        return false;
      }
      fr, sr := proof[p], proof[p];
      p := p + 1;
    } else {
      fr, sr := oldRoot, oldRoot;
    }
    assert proof[p..] == siblings;

    var roots := ClimbProof(node, last, fr, sr, proof[p..]);
    return roots == Some((oldRoot, newRoot));
  }
}
