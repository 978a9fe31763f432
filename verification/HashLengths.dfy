/** What follows from hashing two strings without their lengths (audit/merkle.go:21-27): for which
    lengths of the starting hash a consistency proof can be trusted, and for which a leaf proved
    against the old root is where the new log has it. */
module HashLengths {
  import opened Common
  import opened Digests
  import opened Merkle

  // ---------------------------------------------------------------- old roots

  /** With starting hashes of this length, every accepted old root is the root of the prefix. */
  ghost predicate SoundAtLength(d: seq<Bytes>, m: int, length: nat) {
    forall proof, oldRoot ::
      ConsistencyAccepted(m, |d|, proof, oldRoot, Root(d)) && |StartHash(m, proof, oldRoot)| == length
      ==> oldRoot == Root(d[..m])
  }

  /** A starting hash and its first sibling, cut after another number of bytes. */
  function Recut(seed: Bytes, siblings: seq<Bytes>, length: nat): (Bytes, seq<Bytes>)
    requires siblings != [] && length <= |seed| + |siblings[0]|
  {
    var both := seed + siblings[0];
    (both[..length], [both[length..]] + siblings[1..])
  }

  lemma RecutSnoc(seed: Bytes, siblings: seq<Bytes>, last: Bytes, length: nat)
    requires siblings != [] && length <= |seed| + |siblings[0]|
    ensures var (seed', siblings') := Recut(seed, siblings, length);
            Recut(seed, siblings + [last], length) == (seed', siblings' + [last])
  {
    assert (siblings + [last])[1..] == siblings[1..] + [last];
    var head := [(seed + siblings[0])[length..]];
    assert head + (siblings[1..] + [last]) == head + siblings[1..] + [last];
  }

  /** The cut list gives the same new root as the list did. */
  ghost predicate RecutFits(m: int, n: int, seed: Bytes, siblings: seq<Bytes>, root: Bytes, length: nat)
    requires 0 < m < n
  {
    && siblings != [] && length <= |seed| + |siblings[0]| == 2 * HASH_SIZE
    && var (seed', proof) := Recut(seed, siblings, length);
       var r := Recompute(m, n, seed', proof);
       r.Some? && r.value.1 == root
  }

  lemma RecutFirst(m: int, n: int, left: Bytes, right: Bytes, length: nat)
    requires 0 < m < n && m == Lp2(n) && length <= |left| + |right| == 2 * HASH_SIZE
    ensures RecutFits(m, n, left, [right], NodeHash(left, right), length)
  {
    var (seed, proof) := Recut(left, [right], length);
    assert proof == [(left + right)[length..]];
    assert proof[..0] == [];
    assert seed + proof[0] == left + right;
    NodeJoins(seed, proof[0], left, right);
  }

  lemma RecutLeft(m: int, n: int, seed: Bytes, siblings: seq<Bytes>, root: Bytes, last: Bytes, length: nat)
    requires 0 < m < Lp2(n) < n && RecutFits(m, Lp2(n), seed, siblings, root, length)
    ensures RecutFits(m, n, seed, siblings + [last], NodeHash(root, last), length)
  {
    RecutSnoc(seed, siblings, last, length);
    var (seed', proof) := Recut(seed, siblings, length);
    assert (proof + [last])[..|proof|] == proof;
  }

  lemma RecutRight(m: int, n: int, seed: Bytes, siblings: seq<Bytes>, root: Bytes, last: Bytes, length: nat)
    requires 0 < Lp2(n) < m < n && RecutFits(m - Lp2(n), n - Lp2(n), seed, siblings, root, length)
    ensures RecutFits(m, n, seed, siblings + [last], NodeHash(last, root), length)
  {
    RecutSnoc(seed, siblings, last, length);
    var (seed', proof) := Recut(seed, siblings, length);
    assert (proof + [last])[..|proof|] == proof;
    RecomputeRight(m, n, seed', proof + [last]);
  }

  lemma {:induction false} RecutRecomputes(m: int, d: seq<Bytes>, length: nat)
    requires 0 < m < |d| && length <= 2 * HASH_SIZE
    ensures RecutFits(m, |d|, Seed(m, d), Siblings(m, d), Root(d), length)
    decreases |d|
  {
    var k := Lp2(|d|);
    if m == k {
      assert Siblings(m, d) == [Root(d[k..])];
      RecutFirst(m, |d|, Root(d[..k]), Root(d[k..]), length);
    } else if m < k {
      var sub := d[..k];
      RecutRecomputes(m, sub, length);
      RecutLeft(m, |d|, Seed(m, sub), Siblings(m, sub), Root(sub), Root(d[k..]), length);
    } else {
      var sub := d[k..];
      RecutRecomputes(m - k, sub, length);
      RecutRight(m, |d|, Seed(m - k, sub), Siblings(m - k, sub), Root(sub), Root(d[..k]), length);
    }
  }

  ghost predicate IsRecut(seed: Bytes, proof: seq<Bytes>, seed0: Bytes, siblings: seq<Bytes>) {
    siblings != [] && |seed| <= |seed0| + |siblings[0]| && Recut(seed0, siblings, |seed|) == (seed, proof)
  }

  lemma FirstIsRecut(seed: Bytes, last: Bytes, left: Bytes, right: Bytes)
    requires NodeHash(seed, last) == NodeHash(left, right)
    ensures IsRecut(seed, [last], left, [right])
  {
    NodeJoins(seed, last, left, right);
    assert |seed| + |last| == |left| + |right|;
    assert seed == (left + right)[..|seed|] && last == (left + right)[|seed|..];
    assert [last] + [right][1..] == [last];
  }

  lemma RightIsGenuine(m: int, d: seq<Bytes>, seed: Bytes, rest: seq<Bytes>, last: Bytes)
    requires 0 < Lp2(|d|) < m < |d|
    requires var r := Recompute(m, |d|, seed, rest + [last]); r.Some? && r.value.1 == Root(d)
    ensures var k := Lp2(|d|); var r' := Recompute(m - k, |d| - k, seed, rest);
            && r'.Some? && r'.value.1 == Root(d[k..]) && last == Root(d[..k])
            && Recompute(m, |d|, seed, rest + [last]).value.0 == NodeHash(last, r'.value.0)
  {
    var k := Lp2(|d|);
    assert (rest + [last])[..|rest|] == rest;
    RecomputeRight(m, |d|, seed, rest + [last]);
    NodeInjective(last, Recompute(m - k, |d| - k, seed, rest).value.1, Root(d[..k]), Root(d[k..]));
  }

  lemma LeftIsGenuine(m: int, d: seq<Bytes>, seed: Bytes, rest: seq<Bytes>, last: Bytes)
    requires 0 < m < Lp2(|d|)
    requires var r := Recompute(m, |d|, seed, rest + [last]); r.Some? && r.value.1 == Root(d)
    ensures var k := Lp2(|d|); var r' := Recompute(m, k, seed, rest);
            && r'.Some? && r'.value.1 == Root(d[..k]) && last == Root(d[k..])
            && Recompute(m, |d|, seed, rest + [last]).value.0 == r'.value.0
  {
    var k := Lp2(|d|);
    assert (rest + [last])[..|rest|] == rest;
    NodeInjective(Recompute(m, k, seed, rest).value.1, last, Root(d[..k]), Root(d[k..]));
  }

  lemma RightIsRecut(m: int, d: seq<Bytes>, seed: Bytes, rest: seq<Bytes>)
    requires 0 < Lp2(|d|) < m < |d|
    requires var k := Lp2(|d|); IsRecut(seed, rest, Seed(m - k, d[k..]), Siblings(m - k, d[k..]))
    ensures IsRecut(seed, rest + [Root(d[..Lp2(|d|)])], Seed(m, d), Siblings(m, d))
  {
    var k := Lp2(|d|);
    SplitRight(m, d);
    RecutSnoc(Seed(m - k, d[k..]), Siblings(m - k, d[k..]), Root(d[..k]), |seed|);
  }

  lemma {:induction false} GenuineIsRecut(m: int, d: seq<Bytes>, seed: Bytes, proof: seq<Bytes>)
    requires 0 < m < |d|
    requires var r := Recompute(m, |d|, seed, proof); r.Some? && r.value.1 == Root(d)
    ensures IsRecut(seed, proof, Seed(m, d), Siblings(m, d))
    decreases |d|
  {
    var k, last, rest := Lp2(|d|), proof[|proof| - 1], proof[..|proof| - 1];
    assert proof == rest + [last];
    if m == k {
      assert rest == [] && Siblings(m, d) == [Root(d[k..])];
      FirstIsRecut(seed, last, Root(d[..k]), Root(d[k..]));
    } else if m < k {
      var sub := d[..k];
      LeftIsGenuine(m, d, seed, rest, last);
      GenuineIsRecut(m, sub, seed, rest);
      RecutSnoc(Seed(m, sub), Siblings(m, sub), last, |seed|);
    } else {
      RightIsGenuine(m, d, seed, rest, last);
      GenuineIsRecut(m - k, d[k..], seed, rest);
      RightIsRecut(m, d, seed, rest);
    }
  }

  /** Everything that recomputes the genuine new root is the prover's list, or that list with its
      first two strings cut elsewhere. */
  lemma GenuineExactlyTheRecuts(m: int, d: seq<Bytes>, seed: Bytes, proof: seq<Bytes>)
    requires 0 < m < |d|
    ensures var r, q := Recompute(m, |d|, seed, proof), Siblings(m, d);
            q != [] && |q[0]| == HASH_SIZE
            && (r.Some? && r.value.1 == Root(d)
                <==> IsRecut(seed, proof, Seed(m, d), q))
  {
    RecutRecomputes(m, d, 0);
    var r := Recompute(m, |d|, seed, proof);
    if r.Some? && r.value.1 == Root(d) {
      GenuineIsRecut(m, d, seed, proof);
    } else if IsRecut(seed, proof, Seed(m, d), Siblings(m, d)) {
      RecutRecomputes(m, d, |seed|);
    }
  }

  /** A power of two never has a left sibling to join, so the old root is the starting hash. */
  lemma {:induction false} Pow2KeepsStart(m: int, n: int, seed: Bytes, proof: seq<Bytes>)
    requires 0 < m <= n && IsPow2(m)
    ensures var r := Recompute(m, n, seed, proof); r.Some? ==> r.value.0 == seed
    decreases n
  {
    if m < n && proof != [] {
      var k := Lp2(n);
      Lp2IsPow2(n);
      if m > k {
        Pow2Gap(k, m);
      } else {
        Pow2KeepsStart(m, k, seed, proof[..|proof| - 1]);
      }
    }
  }

  lemma Recutting(d: seq<Bytes>, m: int, length: nat) returns (proof: seq<Bytes>, oldRoot: Bytes)
    requires 0 < m < |d| && length <= 2 * HASH_SIZE
    ensures ConsistencyAccepted(m, |d|, proof, oldRoot, Root(d)) && |StartHash(m, proof, oldRoot)| == length
  {
    RecutRecomputes(m, d, length);
    var (seed, siblings) := Recut(Seed(m, d), Siblings(m, d), length);
    if IsPow2(m) {
      Pow2KeepsStart(m, |d|, seed, siblings);
      proof, oldRoot := siblings, seed;
    } else {
      proof, oldRoot := [seed] + siblings, Recompute(m, |d|, seed, siblings).value.0;
      assert proof[1..] == siblings;
    }
  }

  /** Which lengths a caller may let through. For every log and every size inside it: 32 bytes, or
      more than 64, from where nothing is accepted; every other length has an accepted proof with
      an old root that belongs to no prefix. */
  lemma OldRootsAreSoundExactly(d: seq<Bytes>, m: int, length: nat)
    requires 0 < m < |d|
    ensures SoundAtLength(d, m, length) <==> length == HASH_SIZE || length > 2 * HASH_SIZE
  {
    forall proof, oldRoot | ConsistencyAccepted(m, |d|, proof, oldRoot, Root(d))
      ensures |StartHash(m, proof, oldRoot)| <= 2 * HASH_SIZE
      ensures oldRoot == Root(d[..m]) <==> |StartHash(m, proof, oldRoot)| == HASH_SIZE
    {
      ConsistencyExactInside(d, m, proof, oldRoot);
    }
    if length != HASH_SIZE && length <= 2 * HASH_SIZE {
      var proof, oldRoot := Recutting(d, m, length);
    }
  }

  /** The smallest case: a 31-byte old root and a 33-byte sibling. */
  lemma ShortOldRoot(x: Bytes, y: Bytes)
    ensures var h, b := LeafHash(x), [x, y];
            && ConsistencyAccepted(1, 2, [h[31..] + LeafHash(y)], h[..31], Root(b))
            && h[..31] != Root(b[..1])
  {
    var h, b := LeafHash(x), [x, y];
    var proof := [h[31..] + LeafHash(y)];
    assert b[..1] == [x] && b[1..] == [y] && proof[..0] == [];
    assert h[..31] + proof[0] == h + LeafHash(y);
    NodeJoins(h[..31], proof[0], h, LeafHash(y));
  }

  // ---------------------------------------------------------------- leaves

  lemma InclusionIsHash(leaf: Bytes, index: int, size: int, path: seq<Bytes>)
    ensures var r := RootFromInclusion(LeafHash(leaf), index, size, path);
            r.Some? ==> exists p :: r.value == Sha256(p)
  {
    var r := RootFromInclusion(LeafHash(leaf), index, size, path);
    if r.Some? && size == 1 {
      assert r.value == Sha256(After0(leaf));
    } else if r.Some? {
      var k, last, rest := Lp2(size), path[|path| - 1], path[..|path| - 1];
      if index < k {
        var left := RootFromInclusion(LeafHash(leaf), index, k, rest).value;
        assert r.value == Sha256(After1(left + last));
      } else {
        var right := RootFromInclusion(LeafHash(leaf), index - k, size - k, rest).value;
        assert r.value == Sha256(After1(last + right));
      }
    }
  }

  lemma RootIsHash(d: seq<Bytes>)
    ensures exists p :: Root(d) == Sha256(p)
  {
    if |d| == 0 {
      assert Root(d) == Sha256(Nothing);
    } else if |d| == 1 {
      assert Root(d) == Sha256(After0(d[0]));
    } else {
      var k := Lp2(|d|);
      assert Root(d) == Sha256(After1(Root(d[..k]) + Root(d[k..])));
    }
  }

  lemma Pow2Splits(n: int)
    requires IsPow2(n) && n > 1
    ensures Lp2(n) == n / 2 && IsPow2(n / 2) && n - n / 2 == n / 2
  {
    Lp2Unique(n / 2, n);
  }

  /** A path through a complete tree reaches no root of a deeper one. */
  lemma {:induction false} TooShallow(leaf: Bytes, index: int, size: int, path: seq<Bytes>, d: seq<Bytes>)
    requires IsPow2(size) && IsPow2(|d|) && size < |d|
    ensures RootFromInclusion(LeafHash(leaf), index, size, path) != Some(Root(d))
    decreases size
  {
    Pow2Splits(|d|);
    var h := |d| / 2;
    if size == 1 {
      LeafIsNoNode(leaf, Root(d[..h]), Root(d[h..]));
    } else if 0 <= index < size && path != [] {
      Pow2Splits(size);
      var k, last, rest := size / 2, path[|path| - 1], path[..|path| - 1];
      var index' := if index < k then index else index - k;
      var r := RootFromInclusion(LeafHash(leaf), index', k, rest);
      TooShallow(leaf, index', k, rest, d[..h]);
      TooShallow(leaf, index', k, rest, d[h..]);
      if r.Some? && index < k {
        NodeInjective(r.value, last, Root(d[..h]), Root(d[h..]));
      } else if r.Some? {
        NodeInjective(last, r.value, Root(d[..h]), Root(d[h..]));
      }
    }
  }

  /** A hash sits inside two others put together only where one of them begins. */
  lemma NoHashAcross(x: Bytes, right: Preimage, left: Preimage, other: Preimage, seed: Bytes)
    requires x + Sha256(right) == Sha256(left) + seed
    requires |seed| < 2 * HASH_SIZE && forall i :: 0 <= i < |seed| && i < HASH_SIZE ==> seed[i] == Sha256(other)[i]
    ensures |seed| == HASH_SIZE || (seed == [] && Sha256(right) == Sha256(left))
  {
    var c := |seed|;
    assert |x| == c;
    assert Of(right, 0) == (x + Sha256(right))[c] == (Sha256(left) + seed)[c];
    if c == 0 {
      assert x + Sha256(right) == Sha256(right) && Sha256(left) + seed == Sha256(left);
    }
  }

  /** Only a power of two leaves the old root to the caller's choice; any other is a hash. */
  lemma {:induction false} OtherwiseHashed(m: int, n: int, seed: Bytes, proof: seq<Bytes>)
    requires 0 < m < n && !IsPow2(m)
    ensures var r := Recompute(m, n, seed, proof); r.Some? ==> |r.value.0| == HASH_SIZE
    decreases n
  {
    if proof != [] {
      var k := Lp2(n);
      Lp2IsPow2(n);
      if m < k {
        OtherwiseHashed(m, k, seed, proof[..|proof| - 1]);
      }
    }
  }

  lemma {:induction false} SeedIsHash(m: int, d: seq<Bytes>)
    requires 0 < m <= |d|
    ensures exists p :: Seed(m, d) == Sha256(p)
    decreases |d|
  {
    if m == |d| {
      RootIsHash(d);
    } else if m <= Lp2(|d|) {
      SeedIsHash(m, d[..Lp2(|d|)]);
    } else {
      SeedIsHash(m - Lp2(|d|), d[Lp2(|d|)..]);
    }
  }

  /** A path into the part after a complete tree, where the starting hash is the caller's: it would
      end in a hash that overlaps the tree's root and the starting hash, and no hash does. */
  lemma NoPathAcross(left: seq<Bytes>, d: seq<Bytes>, seed: Bytes, proof: seq<Bytes>, leaf: Bytes, index: int,
                     size: int, path: seq<Bytes>, x: Bytes)
    requires IsPow2(|left|) && IsPow2(size) && size < |left| && size < |d|
    requires |seed| != HASH_SIZE && |seed| != 2 * HASH_SIZE
    requires var r := Recompute(size, |d|, seed, proof); r.Some? && r.value.1 == Root(d)
    ensures var right := RootFromInclusion(LeafHash(leaf), index, size, path);
            right.Some? ==> NodeHash(x, right.value) != NodeHash(Root(left), seed)
  {
    var r := RootFromInclusion(LeafHash(leaf), index, size, path);
    if r.Some? && NodeHash(x, r.value) == NodeHash(Root(left), seed) {
      InclusionIsHash(leaf, index, size, path);
      RootIsHash(left);
      SeedIsHash(size, d);
      var p :| r.value == Sha256(p);
      var q :| Root(left) == Sha256(q);
      var o :| Seed(size, d) == Sha256(o);
      NodeJoins(x, r.value, Root(left), seed);
      StartBytes(size, d, seed, proof);
      NoHashAcross(x, p, q, o, seed);
      TooShallow(leaf, index, size, path, left);
    }
  }

  lemma StartBytes(m: int, d: seq<Bytes>, seed: Bytes, proof: seq<Bytes>)
    requires 0 < m < |d|
    requires var r := Recompute(m, |d|, seed, proof); r.Some? && r.value.1 == Root(d)
    ensures |seed| <= 2 * HASH_SIZE
    ensures forall i :: 0 <= i < |seed| && i < HASH_SIZE ==> seed[i] == Seed(m, d)[i]
  {
    GenuineExactlyTheRecuts(m, d, seed, proof);
  }

  /** One level of a path: below it on the left, or on the right. */
  lemma PathSplits(leaf: Bytes, index: int, size: int, path: seq<Bytes>, k: int, root: Bytes)
    requires size >= 2 && k == Lp2(size) && RootFromInclusion(LeafHash(leaf), index, size, path) == Some(root)
    ensures path != [] && 0 <= index < size
    ensures var x, up := path[|path| - 1], path[..|path| - 1];
            && (index < k ==> JoinsTo(RootFromInclusion(LeafHash(leaf), index, k, up), x, false, root))
            && (index >= k ==> JoinsTo(RootFromInclusion(LeafHash(leaf), index - k, size - k, up), x, true, root))
  {
  }

  predicate JoinsTo(sub: Option<Bytes>, x: Bytes, before: bool, root: Bytes) {
    sub.Some? && |sub.value| == HASH_SIZE && root == if before then NodeHash(x, sub.value) else NodeHash(sub.value, x)
  }

  lemma CarriesIntoLeft(d: seq<Bytes>, fr: Bytes, leaf: Bytes, index: int, up: seq<Bytes>, x: Bytes)
    requires 0 <= index < |d|
    requires JoinsTo(RootFromInclusion(LeafHash(leaf), index, |d|, up), x, false, NodeHash(Root(d), fr))
    ensures leaf == d[index]
  {
    NodeInjective(RootFromInclusion(LeafHash(leaf), index, |d|, up).value, x, Root(d), fr);
    PathExact(d, leaf, index, up);
  }

  lemma RightAligns(m: int, n: int, left: Bytes, seed: Bytes, rest: seq<Bytes>, x: Bytes, sub: Option<Bytes>)
    requires 0 < m < n && !IsPow2(m)
    requires var r := Recompute(m, n, seed, rest); r.Some? && JoinsTo(sub, x, true, NodeHash(left, r.value.0))
    ensures Some(Recompute(m, n, seed, rest).value.0) == sub
  {
    OtherwiseHashed(m, n, seed, rest);
    NodeInjective(x, sub.value, left, Recompute(m, n, seed, rest).value.0);
  }

  /** Below the complete tree of `left`, in the rest of the log. */
  lemma {:induction false} CarriesIntoRight(m: int, left: seq<Bytes>, d: seq<Bytes>, seed: Bytes, rest: seq<Bytes>,
                                            leaf: Bytes, index: int, up: seq<Bytes>, x: Bytes)
    requires 0 < m < |d| && |seed| != HASH_SIZE && |seed| != 2 * HASH_SIZE
    requires IsPow2(|left|) && m < |left|
    requires var r := Recompute(m, |d|, seed, rest);
             && r.Some? && r.value.1 == Root(d)
             && JoinsTo(RootFromInclusion(LeafHash(leaf), index, m, up), x, true, NodeHash(Root(left), r.value.0))
    ensures 0 <= index < m && leaf == d[index]
    decreases |d| + |left|, 0
  {
    if IsPow2(m) {
      Pow2KeepsStart(m, |d|, seed, rest);
      NoPathAcross(left, d, seed, rest, leaf, index, m, up, x);
    } else {
      RightAligns(m, |d|, Root(left), seed, rest, x, RootFromInclusion(LeafHash(leaf), index, m, up));
      CarriesAt(m, d, seed, rest, leaf, index, up);
    }
  }

  /** A genuine new root for the right half and a path into one of the halves, the two joining to
      the same old root. */
  ghost predicate MeetAbove(m: int, left: seq<Bytes>, d: seq<Bytes>, seed: Bytes, rest: seq<Bytes>,
                            leaf: Bytes, index: int, up: seq<Bytes>, x: Bytes)
    requires 0 < m < |d|
  {
    var r := Recompute(m, |d|, seed, rest);
    && r.Some? && r.value.1 == Root(d)
    && var root := NodeHash(Root(left), r.value.0);
       if index < |left| then JoinsTo(RootFromInclusion(LeafHash(leaf), index, |left|, up), x, false, root)
       else JoinsTo(RootFromInclusion(LeafHash(leaf), index - |left|, m, up), x, true, root)
  }

  lemma TurnRight(m: int, d: seq<Bytes>, seed: Bytes, rest: seq<Bytes>, last: Bytes,
                  leaf: Bytes, index: int, path: seq<Bytes>)
    requires 0 < Lp2(|d|) < m < |d|
    requires var r := Recompute(m, |d|, seed, rest + [last]);
             && r.Some? && r.value.1 == Root(d)
             && RootFromInclusion(LeafHash(leaf), index, m, path) == Some(r.value.0)
    ensures path != [] && 0 <= index < m
    ensures var k := Lp2(|d|);
            MeetAbove(m - k, d[..k], d[k..], seed, rest, leaf, index, path[..|path| - 1], path[|path| - 1])
  {
    var k := Lp2(|d|);
    Lp2IsPow2(|d|);
    Lp2Unique(k, m);
    RightIsGenuine(m, d, seed, rest, last);
    PathSplits(leaf, index, m, path, k, Recompute(m, |d|, seed, rest + [last]).value.0);
  }

  lemma {:induction false} CarriesBelow(m: int, left: seq<Bytes>, d: seq<Bytes>, seed: Bytes, rest: seq<Bytes>,
                                        leaf: Bytes, index: int, up: seq<Bytes>, x: Bytes)
    requires 0 < m < |d| && |seed| != HASH_SIZE && |seed| != 2 * HASH_SIZE
    requires IsPow2(|left|) && m < |left| && 0 <= index
    requires MeetAbove(m, left, d, seed, rest, leaf, index, up, x)
    ensures index < |left| + m && leaf == (left + d)[index]
    decreases |d| + |left|, 1
  {
    if index < |left| {
      CarriesIntoLeft(left, Recompute(m, |d|, seed, rest).value.0, leaf, index, up, x);
    } else {
      CarriesIntoRight(m, left, d, seed, rest, leaf, index - |left|, up, x);
    }
  }

  lemma {:induction false} CarriesAt(m: int, d: seq<Bytes>, seed: Bytes, proof: seq<Bytes>,
                                     leaf: Bytes, index: int, path: seq<Bytes>)
    requires 0 < m < |d| && (IsPow2(m) || |seed| != 2 * HASH_SIZE)
    requires var r := Recompute(m, |d|, seed, proof);
             && r.Some? && r.value.1 == Root(d)
             && RootFromInclusion(LeafHash(leaf), index, m, path) == Some(r.value.0)
    ensures 0 <= index < m && leaf == d[index]
    decreases |d|, 2
  {
    if |seed| == HASH_SIZE {
      RecomputeExact(m, d, seed, proof);
      PathExact(d[..m], leaf, index, path);
    } else if IsPow2(m) {
      Pow2KeepsStart(m, |d|, seed, proof);
    } else {
      var k, last, rest := Lp2(|d|), proof[|proof| - 1], proof[..|proof| - 1];
      assert proof == rest + [last];
      Lp2IsPow2(|d|);
      if m < k {
        LeftIsGenuine(m, d, seed, rest, last);
        CarriesAt(m, d[..k], seed, rest, leaf, index, path);
      } else {
        TurnRight(m, d, seed, rest, last, leaf, index, path);
        assert d[..k] + d[k..] == d;
        CarriesBelow(m - k, d[..k], d[k..], seed, rest, leaf, index, path[..|path| - 1], path[|path| - 1]);
      }
    }
  }

  /** A leaf proved against an old root sits at the same index of every log that old root is
      consistent with, unless the starting hash is two hashes long. */
  lemma InclusionCarriesForward(d: seq<Bytes>, m: int, oldRoot: Bytes, consistency: seq<Bytes>,
                                leaf: Bytes, index: int, path: seq<Bytes>)
    requires m > 0 && ConsistencyAccepted(m, |d|, consistency, oldRoot, Root(d))
    requires VerifyInclusion(leaf, index, m, path, oldRoot)
    requires m < |d| ==> IsPow2(m) || |StartHash(m, consistency, oldRoot)| != 2 * HASH_SIZE
    ensures 0 <= index < m <= |d| && leaf == d[index]
  {
    if m == |d| {
      PathExact(d, leaf, index, path);
    } else if IsPow2(m) {
      CarriesAt(m, d, oldRoot, consistency, leaf, index, path);
    } else {
      CarriesAt(m, d, consistency[0], consistency[1..], leaf, index, path);
    }
  }

  ghost predicate CarriesForward(d: seq<Bytes>, m: int, length: nat) {
    forall oldRoot, consistency, leaf, index, path ::
      && ConsistencyAccepted(m, |d|, consistency, oldRoot, Root(d)) && |StartHash(m, consistency, oldRoot)| == length
      && VerifyInclusion(leaf, index, m, path, oldRoot)
      ==> 0 <= index < m <= |d| && leaf == d[index]
  }

  // ---------------------------------------------------------------- the remaining length

  /** The number of leaves below the starting hash. */
  function LowBit(m: int): (q: int)
    requires m > 0
    ensures 0 < q <= m && IsPow2(q) && (q == m <==> IsPow2(m))
  {
    if m % 2 == 1 then 1 else 2 * LowBit(m / 2)
  }

  lemma {:induction false} LowBitBelow(m: int, k: int)
    requires IsPow2(k) && k < m < 2 * k
    ensures LowBit(m - k) == LowBit(m) && m + LowBit(m) <= 2 * k
  {
    if m % 2 == 0 {
      LowBitBelow(m / 2, k / 2);
    }
  }

  /** A start of two hashes' length from which these two roots follow, and a path from this leaf to
      the old one. */
  datatype Shift = Shift(seed: Bytes, proof: seq<Bytes>, path: seq<Bytes>, oldRoot: Bytes)

  ghost predicate Shifted(m: int, n: int, root: Bytes, leaf: Bytes, index: int, s: Shift)
    requires 0 < m < n
  {
    && |s.seed| == 2 * HASH_SIZE && Recompute(m, n, s.seed, s.proof) == Some((s.oldRoot, root))
    && RootFromInclusion(LeafHash(leaf), index, m, s.path) == Some(s.oldRoot)
  }

  lemma TwoRootsRecompute(q: int, left: Bytes, right: Bytes)
    requires IsPow2(q)
    ensures Recompute(q, 2 * q, left + right, [[]]) == Some((left + right, NodeHash(left, right)))
  {
    var first: seq<Bytes> := [[]];
    Lp2Unique(q, 2 * q);
    assert first[..0] == [];
    assert left + right + [] == left + right;
    NodeJoins(left + right, [], left, right);
  }

  lemma PathOverTwo(k: int, m: int, a: Bytes, b: Bytes, c: seq<Bytes>, up: seq<Bytes>)
    requires IsPow2(k) && 0 < m - k < k && |c| == m - k && up == InclusionPath(0, c)
    ensures RootFromInclusion(LeafHash(c[0]), k, m, up + [a + b]) == Some(NodeHash(a, b + Root(c)))
  {
    Lp2Unique(k, m);
    PathExact(c, c[0], 0, up);
    var path := up + [a + b];
    assert path[..|up|] == up;
    assert a + b + Root(c) == a + (b + Root(c));
    NodeJoins(a + b, Root(c), a, b + Root(c));
  }

  lemma RecomputeAbove(m: int, n: int, k: int, a: Bytes, seed: Bytes, proof: seq<Bytes>)
    requires IsPow2(k) && k < m < n <= 2 * k
    ensures Recompute(m, n, seed, proof + [a]) == JoinLeft(Recompute(m - k, n - k, seed, proof), a)
  {
    Lp2Unique(k, n);
    RecomputeRight(m, n, seed, proof + [a]);
    assert (proof + [a])[..|proof|] == proof;
  }

  lemma PathAbove(m: int, k: int, a: Bytes, root: Bytes, leaf: Bytes, index: int, path: seq<Bytes>)
    requires IsPow2(k) && k < m <= 2 * k && k <= index < m
    requires RootFromInclusion(LeafHash(leaf), index - k, m - k, path) == Some(root)
    ensures RootFromInclusion(LeafHash(leaf), index, m, path + [a]) == Some(NodeHash(a, root))
  {
    Lp2Unique(k, m);
    assert (path + [a])[..|path|] == path;
  }

  /** The starting hash taken to be two complete trees side by side: the second one's leaves then
      pass for the first one's. */
  lemma ShiftedFirst(m: int, n: int, k: int, root: Bytes, a: Bytes, b: Bytes, c: seq<Bytes>) returns (s: Shift)
    requires IsPow2(k) && IsPow2(m - k) && m - k < k && n == 2 * m - k
    requires |a| == |b| == HASH_SIZE && |c| == m - k && root == NodeHash(a, NodeHash(b, Root(c)))
    ensures Shifted(m, n, root, c[0], k, s)
  {
    Pow2Gap(m - k, k);
    var seed := b + Root(c);
    s := Shift(seed, [[]] + [a], InclusionPath(0, c) + [a + b], NodeHash(a, seed));
    TwoRootsRecompute(m - k, b, Root(c));
    RecomputeAbove(m, n, k, a, seed, [[]]);
    PathOverTwo(k, m, a, b, c, InclusionPath(0, c));
  }

  function Above(a: Bytes, s: Shift): Shift {
    Shift(s.seed, s.proof + [a], s.path + [a], NodeHash(a, s.oldRoot))
  }

  lemma ShiftedAbove(m: int, n: int, k: int, a: Bytes, root: Bytes, leaf: Bytes, index: int, s: Shift)
    requires IsPow2(k) && k < m < n <= 2 * k && k <= index < m && Shifted(m - k, n - k, root, leaf, index - k, s)
    ensures Shifted(m, n, NodeHash(a, root), leaf, index, Above(a, s))
  {
    RecomputeAbove(m, n, k, a, s.seed, s.proof);
    PathAbove(m, k, a, s.oldRoot, leaf, index, s.path);
  }

  lemma SplitBelow(m: int)
    requires m > 0 && !IsPow2(m)
    ensures var k := Lp2(m);
            IsPow2(k) && k < m < 2 * k && LowBit(m - k) == LowBit(m) && m + LowBit(m) <= 2 * k
  {
    Lp2IsPow2(m);
    assert m != 2 * Lp2(m);
    LowBitBelow(m, Lp2(m));
  }

  lemma RootOfThree(d: seq<Bytes>, k: int, m: int)
    requires IsPow2(k) && IsPow2(m - k) && k < m && |d| == 2 * m - k <= 2 * k
    ensures Root(d) == NodeHash(Root(d[..k]), NodeHash(Root(d[k..m]), Root(d[m..])))
  {
    var sub := d[k..];
    RootSplits(d, k);
    RootSplits(sub, m - k);
    assert sub[..m - k] == d[k..m] && sub[m - k..] == d[m..];
  }

  lemma ShiftingFirst(m: int, n: int, k: int, d: seq<Bytes>) returns (s: Shift)
    requires IsPow2(k) && IsPow2(m - k) && m - k < k && n == |d| == 2 * m - k
    ensures Shifted(m, n, Root(d), d[m], k, s)
  {
    Pow2Gap(m - k, k);
    RootOfThree(d, k, m);
    s := ShiftedFirst(m, n, k, Root(d), Root(d[..k]), Root(d[k..m]), d[m..]);
  }

  lemma ShiftingAbove(m: int, n: int, k: int, d: seq<Bytes>, leaf: Bytes, index: int, s: Shift)
    requires IsPow2(k) && k < m < n == |d| <= 2 * k && k <= index < m
    requires Shifted(m - k, n - k, Root(d[k..]), leaf, index - k, s)
    ensures Shifted(m, n, Root(d), leaf, index, Above(Root(d[..k]), s))
  {
    RootSplits(d, k);
    ShiftedAbove(m, n, k, Root(d[..k]), Root(d[k..]), leaf, index, s);
  }

  predicate ShiftsLeaf(m: int, n: int, index: int, d: seq<Bytes>, leaf: Bytes) {
    0 < m < |d| == n && !IsPow2(m) && LowBit(m) == n - m == m - index && d[m] == leaf
  }

  lemma ShiftsBelow(m: int, n: int, index: int, d: seq<Bytes>, leaf: Bytes, k: int)
    requires ShiftsLeaf(m, n, index, d, leaf) && k == Lp2(m)
    ensures IsPow2(k) && k < m < n <= 2 * k && k <= index
    ensures IsPow2(m - k) ==> n == 2 * m - k && index == k
    ensures !IsPow2(m - k) ==> ShiftsLeaf(m - k, n - k, index - k, d[k..], leaf)
  {
    SplitBelow(m);
  }

  lemma {:induction false} Shifting(m: int, n: int, index: int, d: seq<Bytes>, leaf: Bytes) returns (s: Shift)
    requires ShiftsLeaf(m, n, index, d, leaf)
    ensures Shifted(m, n, Root(d), leaf, index, s)
    decreases m
  {
    var k := Lp2(m);
    ShiftsBelow(m, n, index, d, leaf, k);
    if IsPow2(m - k) {
      s := ShiftingFirst(m, n, k, d);
    } else {
      s := Shifting(m - k, n - k, index - k, d[k..], leaf);
      ShiftingAbove(m, n, k, d, leaf, index, s);
      s := Above(Root(d[..k]), s);
    }
  }

  lemma LeavesAreShifted(m: int) returns (d: seq<Bytes>)
    requires m > 0 && !IsPow2(m)
    ensures |d| > m && !CarriesForward(d, m, 2 * HASH_SIZE)
  {
    var q := LowBit(m);
    d := seq(m + q, i requires 0 <= i => [Lit(i)]);
    var s := Shifting(m, m + q, m - q, d, d[m]);
    var consistency := [s.seed] + s.proof;
    assert consistency[1..] == s.proof;
    assert ConsistencyAccepted(m, |d|, consistency, s.oldRoot, Root(d));
    assert VerifyInclusion(d[m], m - q, m, s.path, s.oldRoot);
    assert d[m][0] != d[m - q][0];
  }

  /** Which lengths let a leaf be carried forward to every longer log: all of them from a power of
      two, and otherwise all but 64 bytes. */
  lemma LeavesCarryForwardExactly(m: int, length: nat)
    requires m > 0
    ensures (forall d: seq<Bytes> :: |d| > m ==> CarriesForward(d, m, length))
            <==> IsPow2(m) || length != 2 * HASH_SIZE
  {
    if IsPow2(m) || length != 2 * HASH_SIZE {
      forall d: seq<Bytes>, oldRoot, consistency, leaf, index, path
        | && |d| > m && ConsistencyAccepted(m, |d|, consistency, oldRoot, Root(d))
          && |StartHash(m, consistency, oldRoot)| == length && VerifyInclusion(leaf, index, m, path, oldRoot)
        ensures 0 <= index < m <= |d| && leaf == d[index]
      {
        InclusionCarriesForward(d, m, oldRoot, consistency, leaf, index, path);
      }
    } else {
      var d := LeavesAreShifted(m);
    }
  }
}
