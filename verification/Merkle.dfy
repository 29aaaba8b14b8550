/** The RFC 6962 Merkle tree of `services/api/internal/merkle/merkle.go`: tree head (section 2.1),
    audit path (section 2.1.1) and the inclusion verifier. Sizes are natural numbers; Go's 64-bit
    `int` behaves the same for trees of at most 2^62 leaves (Words.SplitLoopStopsIff). */
module Merkle {
  import opened Hashing
  import opened Bits

  function LeafInput(leaf: Bytes): Bytes { [0] + leaf }

  function NodeInput(left: Bytes, right: Bytes): Bytes { [1] + left + right }

  function LeafHash(sha: Sha, leaf: Bytes): Digest { sha(LeafInput(leaf)) }

  function NodeHash(sha: Sha, left: Bytes, right: Bytes): Digest { sha(NodeInput(left, right)) }

  /** The split point of RFC 6962: the largest power of two strictly below n. */
  function Split(n: nat): (k: nat)
    requires n >= 2
    ensures 0 < k < n <= 2 * k
  {
    LenBounds(n - 1);
    Pow2(Len(n - 1) - 1)
  }

  method LargestPowerOfTwoLessThan(n: nat) returns (k: nat)
    requires n >= 2
    ensures k == Split(n)
  {
    k := 1;
    ghost var e := 0;
    while k < n
      invariant k == Pow2(e)
      invariant e > 0 ==> Pow2(e - 1) < n
      decreases n - k
    {
      k := 2 * k;
      e := e + 1;
    }
    SplitIs(n, e - 1);
    k := k / 2;
  }

  /** The defining property of the split point determines it. */
  lemma SplitIs(n: nat, e: nat)
    requires n >= 2 && Pow2(e) < n <= Pow2(e + 1)
    ensures Split(n) == Pow2(e)
  {
    LenMonotonic(Pow2(e), n - 1);
    LenPow2(e);
    LenBounds(n - 1);
    if Len(n - 1) > e + 1 {
      Pow2Monotonic(e + 1, Len(n - 1) - 1);
    }
  }

  /** Pairing up the leaves halves the split point. */
  lemma SplitHalves(n: nat)
    requires n > 2
    ensures Split(n) == 2 * Split((n + 1) / 2)
  {
    assert (n - 1) / 2 == (n + 1) / 2 - 1;
    assert Len(n - 1) == 1 + Len((n - 1) / 2);
    assert Len((n - 1) / 2) >= 1;
  }

  function Root(sha: Sha, leaves: seq<Bytes>): Digest
    decreases |leaves|
  {
    if |leaves| == 0 then sha([])
    else if |leaves| == 1 then LeafHash(sha, leaves[0])
    else
      var k := Split(|leaves|);
      NodeHash(sha, Root(sha, leaves[..k]), Root(sha, leaves[k..]))
  }

  function InclusionProof(sha: Sha, leaves: seq<Bytes>, m: nat): seq<Bytes>
    requires m < |leaves|
    decreases |leaves|
  {
    if |leaves| <= 1 then []
    else
      var k := Split(|leaves|);
      if m < k then InclusionProof(sha, leaves[..k], m) + [Root(sha, leaves[k..])]
      else InclusionProof(sha, leaves[k..], m - k) + [Root(sha, leaves[..k])]
  }

  function VerifyInclusion(sha: Sha, leafHash: Bytes, m: int, treeSize: int, proof: seq<Bytes>, root: Bytes): bool {
    if m < 0 || m >= treeSize then false
    else ComputeRoot(sha, leafHash, m, treeSize, proof) == Some(root)
  }

  function ComputeRoot(sha: Sha, leafHash: Bytes, m: nat, n: nat, proof: seq<Bytes>): Option<Bytes>
    requires m < n
    decreases n
  {
    if |leafHash| != DIGEST_SIZE || !AllDigests(proof) then None
    else if n == 1 then if |proof| != 0 then None else Some(leafHash)
    else if |proof| == 0 then None
    else
      var sibling, rest := proof[|proof| - 1], proof[..|proof| - 1];
      var k := Split(n);
      if m < k then
        match ComputeRoot(sha, leafHash, m, k, rest)
        case None => None
        case Some(left) => Some(NodeHash(sha, left, sibling))
      else
        match ComputeRoot(sha, leafHash, m - k, n - k, rest)
        case None => None
        case Some(right) => Some(NodeHash(sha, sibling, right))
  }

  lemma {:induction false} InclusionProofDigests(sha: Sha, leaves: seq<Bytes>, m: nat)
    requires m < |leaves|
    ensures AllDigests(InclusionProof(sha, leaves, m))
    decreases |leaves|
  {
    hide Split, Root;
    if |leaves| > 1 {
      var k := Split(|leaves|);
      if m < k {
        InclusionProofDigests(sha, leaves[..k], m);
      } else {
        InclusionProofDigests(sha, leaves[k..], m - k);
      }
    }
  }

  /** Computing the root from a genuine audit path gives the genuine root. */
  lemma {:induction false} ComputeRootOfProof(sha: Sha, leaves: seq<Bytes>, m: nat)
    requires m < |leaves|
    ensures ComputeRoot(sha, LeafHash(sha, leaves[m]), m, |leaves|, InclusionProof(sha, leaves, m))
         == Some(Root(sha, leaves))
    decreases |leaves|
  {
    hide Split, NodeHash, NodeInput;
    InclusionProofDigests(sha, leaves, m);
    if |leaves| > 1 {
      var k := Split(|leaves|);
      var left, right := leaves[..k], leaves[k..];
      if m < k {
        ComputeRootOfProof(sha, left, m);
        assert left[m] == leaves[m];
        ProofTop(InclusionProof(sha, left, m), Root(sha, right));
      } else {
        ComputeRootOfProof(sha, right, m - k);
        assert right[m - k] == leaves[m];
        ProofTop(InclusionProof(sha, right, m - k), Root(sha, left));
      }
    }
  }

  lemma ProofTop(rest: seq<Bytes>, top: Bytes)
    ensures (rest + [top])[|rest|] == top && (rest + [top])[..|rest|] == rest
  {
  }

  /** With both children 32 bytes wide, a node's input determines its children. */
  lemma NodeInputInjective(l1: Bytes, r1: Bytes, l2: Bytes, r2: Bytes)
    requires |l1| == |l2|
    requires NodeInput(l1, r1) == NodeInput(l2, r2)
    ensures l1 == l2 && r1 == r2
  {
    var x, y := NodeInput(l1, r1), NodeInput(l2, r2);
    assert l1 == x[1..1 + |l1|] && l2 == y[1..1 + |l2|];
    assert r1 == x[1 + |l1|..] && r2 == y[1 + |l2|..];
  }

  /** Two different nodes with the same hash collide; equal nodes have equal children. */
  lemma NodeClash(sha: Sha, l1: Bytes, r1: Bytes, l2: Bytes, r2: Bytes)
    requires |l1| == |l2|
    requires NodeHash(sha, l1, r1) == NodeHash(sha, l2, r2)
    ensures (l1 == l2 && r1 == r2) || IsCollision(sha, Clash(NodeInput(l1, r1), NodeInput(l2, r2)))
  {
    if NodeInput(l1, r1) == NodeInput(l2, r2) {
      NodeInputInjective(l1, r1, l2, r2);
    }
  }

  /** Where the path computed from (leafHash, proof) first departs, from the root down, from the
      genuine tree: the inputs of the two nodes that should have differed in their hash. */
  function InclusionClash(sha: Sha, leaves: seq<Bytes>, leafHash: Bytes, m: nat, proof: seq<Bytes>): Option<Clash>
    requires m < |leaves|
    decreases |leaves|
  {
    if |leaves| <= 1 || |proof| == 0 then None
    else
      var n, k := |leaves|, Split(|leaves|);
      var sibling, rest := proof[|proof| - 1], proof[..|proof| - 1];
      var left, right := Root(sha, leaves[..k]), Root(sha, leaves[k..]);
      if m < k then
        match ComputeRoot(sha, leafHash, m, k, rest)
        case None => None
        case Some(h) =>
          if h == left && sibling == right then InclusionClash(sha, leaves[..k], leafHash, m, rest)
          else Some(Clash(NodeInput(h, sibling), NodeInput(left, right)))
      else
        match ComputeRoot(sha, leafHash, m - k, n - k, rest)
        case None => None
        case Some(h) =>
          if sibling == left && h == right then InclusionClash(sha, leaves[k..], leafHash, m - k, rest)
          else Some(Clash(NodeInput(sibling, h), NodeInput(left, right)))
  }

  lemma {:induction false} ComputeRootWidth(sha: Sha, leafHash: Bytes, m: nat, n: nat, proof: seq<Bytes>)
    requires m < n
    ensures var r := ComputeRoot(sha, leafHash, m, n, proof);
            r.Some? ==> |r.value| == DIGEST_SIZE
  {
  }

  /** What InclusionClash reports: a collision, or that the arguments are the genuine ones. */
  ghost predicate InclusionVerdict(sha: Sha, leaves: seq<Bytes>, leafHash: Bytes, m: nat, proof: seq<Bytes>)
    requires m < |leaves|
  {
    match InclusionClash(sha, leaves, leafHash, m, proof)
    case Some(c) => IsCollision(sha, c)
    case None => leafHash == LeafHash(sha, leaves[m]) && proof == InclusionProof(sha, leaves, m)
  }

  /** One level of the descent: the top node either splits as the genuine one does or clashes with it. */
  lemma InclusionClashStep(sha: Sha, left: seq<Bytes>, right: seq<Bytes>, side: seq<Bytes>,
                           leafHash: Bytes, m: nat, rest: seq<Bytes>, sibling: Bytes, goesLeft: bool)
    requires side == (if goesLeft then left else right) && m < |side| && |sibling| == DIGEST_SIZE
    requires ComputeRoot(sha, leafHash, m, |side|, rest).Some?
    requires var h := ComputeRoot(sha, leafHash, m, |side|, rest).value;
             NodeHash(sha, Root(sha, left), Root(sha, right))
             == if goesLeft then NodeHash(sha, h, sibling) else NodeHash(sha, sibling, h)
    ensures var h := ComputeRoot(sha, leafHash, m, |side|, rest).value;
            var l, r := if goesLeft then h else sibling, if goesLeft then sibling else h;
            (l == Root(sha, left) && r == Root(sha, right))
            || IsCollision(sha, Clash(NodeInput(l, r), NodeInput(Root(sha, left), Root(sha, right))))
  {
    ComputeRootWidth(sha, leafHash, m, |side|, rest);
    var h := ComputeRoot(sha, leafHash, m, |side|, rest).value;
    if goesLeft {
      NodeClash(sha, h, sibling, Root(sha, left), Root(sha, right));
    } else {
      NodeClash(sha, sibling, h, Root(sha, left), Root(sha, right));
    }
  }

  lemma {:induction false} InclusionClashSound(
      sha: Sha, leaves: seq<Bytes>, leafHash: Bytes, m: nat, proof: seq<Bytes>)
    requires m < |leaves|
    requires ComputeRoot(sha, leafHash, m, |leaves|, proof) == Some(Root(sha, leaves))
    ensures InclusionVerdict(sha, leaves, leafHash, m, proof)
    decreases |leaves|
  {
    hide Split, NodeHash, NodeInput;
    if |leaves| > 1 {
      var n, k := |leaves|, Split(|leaves|);
      var sibling, rest := proof[|proof| - 1], proof[..|proof| - 1];
      var left, right := leaves[..k], leaves[k..];
      assert proof == rest + [sibling] && |sibling| == DIGEST_SIZE;
      if m < k {
        InclusionClashStep(sha, left, right, left, leafHash, m, rest, sibling, true);
        if ComputeRoot(sha, leafHash, m, k, rest) == Some(Root(sha, left)) {
          InclusionClashSound(sha, left, leafHash, m, rest);
          assert left[m] == leaves[m];
        }
      } else {
        InclusionClashStep(sha, left, right, right, leafHash, m - k, rest, sibling, false);
        if ComputeRoot(sha, leafHash, m - k, n - k, rest) == Some(Root(sha, right)) {
          InclusionClashSound(sha, right, leafHash, m - k, rest);
          assert right[m - k] == leaves[m];
        }
      }
    }
  }

  /** Inclusion is exact: against the genuine root, the verifier accepts the genuine leaf hash with
      the genuine audit path, and whatever else it accepts comes with a SHA-256 collision that
      InclusionClash computes from the accepted arguments. */
  lemma {:induction false} InclusionExact(sha: Sha, leaves: seq<Bytes>, leafHash: Bytes, m: nat, proof: seq<Bytes>)
    requires m < |leaves|
    ensures leafHash == LeafHash(sha, leaves[m]) && proof == InclusionProof(sha, leaves, m)
            ==> VerifyInclusion(sha, leafHash, m, |leaves|, proof, Root(sha, leaves))
    ensures VerifyInclusion(sha, leafHash, m, |leaves|, proof, Root(sha, leaves))
            ==> InclusionVerdict(sha, leaves, leafHash, m, proof)
  {
    ComputeRootOfProof(sha, leaves, m);
    if VerifyInclusion(sha, leafHash, m, |leaves|, proof, Root(sha, leaves)) {
      InclusionClashSound(sha, leaves, leafHash, m, proof);
    }
  }

  /** The bytes hashed at the top of the tree. */
  function RootInput(sha: Sha, leaves: seq<Bytes>): Bytes {
    if |leaves| == 0 then []
    else if |leaves| == 1 then LeafInput(leaves[0])
    else NodeInput(Root(sha, leaves[..Split(|leaves|)]), Root(sha, leaves[Split(|leaves|)..]))
  }

  /** Where two leaf lists of any lengths first hash different bytes, from the root down. */
  function LeavesClash(sha: Sha, a: seq<Bytes>, b: seq<Bytes>): Option<Clash>
    decreases |a|
  {
    if RootInput(sha, a) != RootInput(sha, b) then Some(Clash(RootInput(sha, a), RootInput(sha, b)))
    else if |a| <= 1 || |b| <= 1 then None
    else
      var j, k := Split(|a|), Split(|b|);
      if LeavesClash(sha, a[..j], b[..k]).Some? then LeavesClash(sha, a[..j], b[..k])
      else LeavesClash(sha, a[j..], b[k..])
  }

  /** A root commits to its leaf list and to its length: equal roots mean equal lists, or else
      LeavesClash computes a collision. */
  lemma {:induction false} RootBinding(sha: Sha, a: seq<Bytes>, b: seq<Bytes>)
    requires Root(sha, a) == Root(sha, b)
    ensures match LeavesClash(sha, a, b)
            case Some(c) => IsCollision(sha, c)
            case None => a == b
    decreases |a|
  {
    hide Root, RootInput, Split, NodeHash, NodeInput, LeafHash, LeafInput;
    RootIsHash(sha, a);
    RootIsHash(sha, b);
    if RootInput(sha, a) == RootInput(sha, b) {
      SameTop(sha, a, b);
      if |a| > 1 {
        var j, k := Split(|a|), Split(|b|);
        RootBinding(sha, a[..j], b[..k]);
        RootBinding(sha, a[j..], b[k..]);
        assert a == a[..j] + a[j..] && b == b[..k] + b[k..];
      }
    }
  }

  lemma RootIsHash(sha: Sha, leaves: seq<Bytes>)
    ensures Root(sha, leaves) == sha(RootInput(sha, leaves))
  {
    hide Split;
  }

  lemma LeafHashBytes(sha: Sha, leaf: Bytes)
    ensures LeafHash(sha, leaf) == sha([0] + leaf)
  {
  }

  lemma InputKind(sha: Sha, leaves: seq<Bytes>)
    ensures var input := RootInput(sha, leaves);
            if |leaves| == 0 then input == [] else |input| > 0 && input[0] == if |leaves| == 1 then 0 else 1
  {
    hide Split, Root;
  }

  /** No bytes, the bytes of a leaf and those of a node differ, and equal bytes have equal parts. */
  lemma SameTop(sha: Sha, a: seq<Bytes>, b: seq<Bytes>)
    requires RootInput(sha, a) == RootInput(sha, b)
    ensures |a| <= 1 || |b| <= 1 ==> a == b
    ensures |a| > 1 && |b| > 1 ==>
              && Root(sha, a[..Split(|a|)]) == Root(sha, b[..Split(|b|)])
              && Root(sha, a[Split(|a|)..]) == Root(sha, b[Split(|b|)..])
  {
    hide Split, Root;
    InputKind(sha, a);
    InputKind(sha, b);
    if |a| > 1 && |b| > 1 {
      var j, k := Split(|a|), Split(|b|);
      NodeInputInjective(Root(sha, a[..j]), Root(sha, a[j..]), Root(sha, b[..k]), Root(sha, b[k..]));
    } else if |a| == 1 && |b| == 1 {
      assert LeafInput(a[0])[1..] == a[0] && LeafInput(b[0])[1..] == b[0];
    }
  }

  lemma RootUnfolds(sha: Sha, a: seq<Bytes>)
    requires |a| > 1
    ensures var k := Split(|a|);
            Root(sha, a) == NodeHash(sha, Root(sha, a[..k]), Root(sha, a[k..]))
  {
    hide Split, NodeHash, LeafHash;
  }

  lemma RootOfLeaf(sha: Sha, leaf: Bytes)
    ensures Root(sha, [leaf]) == LeafHash(sha, leaf)
  {
  }

  lemma LeafBinding(sha: Sha, x: Bytes, y: Bytes)
    requires LeafHash(sha, x) == LeafHash(sha, y)
    ensures x == y || IsCollision(sha, Clash(LeafInput(x), LeafInput(y)))
  {
    assert LeafInput(x)[1..] == x && LeafInput(y)[1..] == y;
  }

  // ----- The tree level by level -----

  /** One level up: neighbours are hashed together behind a byte 1, and an odd last one is carried. */
  function Pairs(sha: Sha, level: seq<Bytes>): (up: seq<Bytes>)
    ensures |up| == (|level| + 1) / 2
  {
    if |level| < 2 then level else [sha([1] + level[0] + level[1])] + Pairs(sha, level[2..])
  }

  function TopOf(sha: Sha, level: seq<Bytes>): Bytes
    requires |level| > 0
    decreases |level|
  {
    if |level| == 1 then level[0] else TopOf(sha, Pairs(sha, level))
  }

  /** The lowest level: each leaf hashed behind a byte 0. */
  function Bottom(sha: Sha, leaves: seq<Bytes>): (level: seq<Bytes>)
    ensures |level| == |leaves|
  {
    seq(|leaves|, i requires 0 <= i < |leaves| => sha([0] + leaves[i]))
  }

  /** The tree head split by split over a level, as Root splits its leaves. */
  function SplitTree(sha: Sha, level: seq<Bytes>): Bytes
    requires |level| > 0
    decreases |level|
  {
    if |level| == 1 then level[0]
    else NodeHash(sha, SplitTree(sha, level[..Split(|level|)]), SplitTree(sha, level[Split(|level|)..]))
  }

  lemma {:induction false} RootIsSplitTree(sha: Sha, leaves: seq<Bytes>)
    requires |leaves| > 0
    ensures Root(sha, leaves) == SplitTree(sha, Bottom(sha, leaves))
    decreases |leaves|
  {
    hide Split, NodeHash;
    if |leaves| > 1 {
      var k, level := Split(|leaves|), Bottom(sha, leaves);
      RootIsSplitTree(sha, leaves[..k]);
      RootIsSplitTree(sha, leaves[k..]);
      assert level[..k] == Bottom(sha, leaves[..k]) && level[k..] == Bottom(sha, leaves[k..]);
    }
  }

  lemma PairsUnfold(sha: Sha, level: seq<Bytes>)
    ensures Pairs(sha, level)
         == if |level| < 2 then level else [sha([1] + level[0] + level[1])] + Pairs(sha, level[2..])
  {
  }

  lemma OneBefore<T>(x: T, rest: seq<T>, j: nat)
    requires 0 < j <= |rest| + 1
    ensures ([x] + rest)[..j] == [x] + rest[..j - 1] && ([x] + rest)[j..] == rest[j - 1..]
  {
  }

  lemma TwoLess<T>(s: seq<T>, n: nat)
    requires 2 <= n <= |s|
    ensures s[..n][2..] == s[2..][..n - 2] && s[n..] == s[2..][n - 2..] && s[..n][0] == s[0] && s[..n][1] == s[1]
  {
  }

  lemma {:induction false} PairsOfParts(sha: Sha, level: seq<Bytes>, j: nat)
    requires 2 * j <= |level|
    ensures Pairs(sha, level)[..j] == Pairs(sha, level[..2 * j])
    ensures Pairs(sha, level)[j..] == Pairs(sha, level[2 * j..])
  {
    hide Pairs;
    if j == 0 {
      PairsUnfold(sha, []);
      assert level[..0] == [] && level[0..] == level;
    } else {
      PairsUnfold(sha, level);
      PairsUnfold(sha, level[..2 * j]);
      TwoLess(level, 2 * j);
      PairsOfParts(sha, level[2..], j - 1);
      OneBefore(sha([1] + level[0] + level[1]), Pairs(sha, level[2..]), j);
    }
  }

  /** Going one level up does not change the tree head. */
  lemma {:induction false} PairsKeepTree(sha: Sha, level: seq<Bytes>)
    requires |level| > 0
    ensures SplitTree(sha, level) == SplitTree(sha, Pairs(sha, level))
    decreases |level|
  {
    hide Split, Pairs, NodeHash;
    if |level| == 2 {
      PairOfTwo(sha, level);
    } else if |level| == 1 {
      PairOfOne(sha, level);
    } else {
      var k, j := Split(|level|), Split((|level| + 1) / 2);
      SplitHalves(|level|);
      PairsOfParts(sha, level, j);
      PairsKeepTree(sha, level[..k]);
      PairsKeepTree(sha, level[k..]);
    }
  }

  lemma PairOfOne(sha: Sha, level: seq<Bytes>)
    requires |level| == 1
    ensures Pairs(sha, level) == level
  {
  }

  lemma PairOfTwo(sha: Sha, level: seq<Bytes>)
    requires |level| == 2
    ensures SplitTree(sha, level) == sha([1] + level[0] + level[1]) && Pairs(sha, level) == [SplitTree(sha, level)]
  {
    assert Split(2) == 1;
    assert level[..1] == [level[0]] && level[1..] == [level[1]] && level[2..] == [];
    assert Pairs(sha, level[2..]) == [];
  }

  lemma {:induction false} TopIsSplitTree(sha: Sha, level: seq<Bytes>)
    requires |level| > 0
    ensures TopOf(sha, level) == SplitTree(sha, level)
    decreases |level|
  {
    hide Split, Pairs, NodeHash;
    if |level| > 1 {
      PairsKeepTree(sha, level);
      TopIsSplitTree(sha, Pairs(sha, level));
    }
  }

  /** The recursive tree head is the one built bottom-up from the leaf hashes, an independent form that
      knows no split point. */
  lemma RootByLevels(sha: Sha, leaves: seq<Bytes>)
    ensures Root(sha, leaves) == if |leaves| == 0 then sha([]) else TopOf(sha, Bottom(sha, leaves))
  {
    hide Split, SplitTree, NodeHash, LeafHash;
    if |leaves| > 0 {
      RootIsSplitTree(sha, leaves);
      TopIsSplitTree(sha, Bottom(sha, leaves));
    }
  }
}
