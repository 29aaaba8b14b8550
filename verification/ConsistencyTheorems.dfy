/** What the consistency verifier establishes: it accepts every genuine proof, it accepts nothing
    else without exhibiting a SHA-256 collision, and proofs stay logarithmically short. */
module ConsistencyTheorems {
  import opened Hashing
  import opened Bits
  import opened Merkle
  import opened Consistency
  import opened ConsistencyRefinement

  /** The split point of a tree is that of each of its prefixes that reach past it. */
  lemma SplitOfPrefix(m: nat, n: nat)
    requires n >= 2 && Split(n) < m <= n
    ensures Split(m) == Split(n)
  {
    var e := Len(n - 1) - 1;
    assert Split(n) == Pow2(e);
    SplitIs(m, e);
  }

  lemma RootOfPrefix(sha: Sha, leaves: seq<Bytes>, m: nat)
    requires |leaves| >= 2 && Split(|leaves|) < m <= |leaves|
    ensures var k := Split(|leaves|);
            Root(sha, leaves[..m]) == NodeHash(sha, Root(sha, leaves[..k]), Root(sha, leaves[k..][..m - k]))
  {
    var k := Split(|leaves|);
    SplitOfPrefix(m, |leaves|);
    assert leaves[..m][..k] == leaves[..k] && leaves[..m][k..] == leaves[k..][..m - k];
  }

  lemma {:induction false} SubproofDigests(sha: Sha, m: nat, leaves: seq<Bytes>, b: bool)
    requires 0 < m <= |leaves|
    ensures AllDigests(Subproof(sha, m, leaves, b))
    ensures m < |leaves| ==> |Subproof(sha, m, leaves, b)| > 0
    decreases |leaves|
  {
    hide Split, Root;
    if m < |leaves| {
      var k := Split(|leaves|);
      if m <= k {
        SubproofDigests(sha, m, leaves[..k], b);
      } else {
        SubproofDigests(sha, m - k, leaves[k..], false);
      }
    }
  }

  lemma ReplayUnfolds(sha: Sha, m: nat, n: nat, b: bool, rest: seq<Bytes>, top: Bytes, root1: Bytes)
    requires 0 < m < n
    ensures var k := Split(n);
            Replay(sha, m, n, b, rest + [top], root1)
            == Lift(if m <= k then Replay(sha, m, k, b, rest, root1)
                    else Replay(sha, m - k, n - k, false, rest, root1), sha, top, m > k)
  {
    ProofTop(rest, top);
  }

  lemma SubproofUnfolds(sha: Sha, m: nat, leaves: seq<Bytes>, b: bool)
    requires 0 < m < |leaves|
    ensures var k := Split(|leaves|);
            Subproof(sha, m, leaves, b)
            == if m <= k then Subproof(sha, m, leaves[..k], b) + [Root(sha, leaves[k..])]
               else Subproof(sha, m - k, leaves[k..], false) + [Root(sha, leaves[..k])]
  {
    hide Split, Root;
  }

  lemma ReplayOfWhole(sha: Sha, leaves: seq<Bytes>, b: bool, root1: Bytes)
    requires |leaves| > 0 && (b ==> root1 == Root(sha, leaves))
    ensures Replay(sha, |leaves|, |leaves|, b, Subproof(sha, |leaves|, leaves, b), root1)
         == Some(Roots(Root(sha, leaves), Root(sha, leaves)))
  {
    hide Root;
  }

  /** Replaying a genuine proof gives the genuine roots. */
  lemma {:induction false} ReplayOfSubproof(sha: Sha, m: nat, leaves: seq<Bytes>, b: bool, root1: Bytes)
    requires 0 < m <= |leaves| && (b ==> root1 == Root(sha, leaves[..m]))
    ensures Replay(sha, m, |leaves|, b, Subproof(sha, m, leaves, b), root1)
         == Some(Roots(Root(sha, leaves[..m]), Root(sha, leaves)))
    decreases |leaves|
  {
    hide NodeHash, Split, Root, Subproof, Replay;
    var n := |leaves|;
    if m == n {
      assert leaves[..m] == leaves;
      ReplayOfWhole(sha, leaves, b, root1);
    } else {
      var k := Split(n);
      var left, right := leaves[..k], leaves[k..];
      RootUnfolds(sha, leaves);
      SubproofUnfolds(sha, m, leaves, b);
      if m <= k {
        assert left[..m] == leaves[..m];
        ReplayOfSubproof(sha, m, left, b, root1);
        ReplayUnfolds(sha, m, n, b, Subproof(sha, m, left, b), Root(sha, right), root1);
      } else {
        ReplayOfSubproof(sha, m - k, right, false, root1);
        ReplayUnfolds(sha, m, n, b, Subproof(sha, m - k, right, false), Root(sha, left), root1);
        RootOfPrefix(sha, leaves, m);
      }
    }
  }

  /** Completeness: for every log and every earlier size, the loop-over-bits verifier accepts the
      recursive prover's proof with the two genuine roots. */
  lemma {:induction false} ConsistencyComplete(sha: Sha, leaves: seq<Bytes>, m: nat)
    requires 0 < m <= |leaves|
    ensures Accepts(sha, m, |leaves|, ConsistencyProof(sha, leaves, m),
                    Root(sha, leaves[..m]), Root(sha, leaves))
  {
    if m == |leaves| {
      assert leaves[..m] == leaves;
    } else {
      var root1 := Root(sha, leaves[..m]);
      SubproofDigests(sha, m, leaves, true);
      ReplayOfSubproof(sha, m, leaves, true, root1);
      RebuildIsReplay(sha, m, |leaves|, ConsistencyProof(sha, leaves, m), root1);
    }
  }

  // ----- Soundness -----

  /** Where the tree a proof rebuilds first departs, from the root down, from the genuine one. */
  function ReplayClash(sha: Sha, m: nat, leaves: seq<Bytes>, b: bool, proof: seq<Bytes>, root1: Bytes): Option<Clash>
    requires 0 < m <= |leaves|
    decreases |leaves|
  {
    if m == |leaves| || |proof| == 0 then None
    else
      var n, k := |leaves|, Split(|leaves|);
      var top, rest := proof[|proof| - 1], proof[..|proof| - 1];
      var left, right := Root(sha, leaves[..k]), Root(sha, leaves[k..]);
      if m <= k then
        match Replay(sha, m, k, b, rest, root1)
        case None => None
        case Some(p) =>
          if p.newer == left && top == right then ReplayClash(sha, m, leaves[..k], b, rest, root1)
          else Some(Clash(NodeInput(p.newer, top), NodeInput(left, right)))
      else
        match Replay(sha, m - k, n - k, false, rest, root1)
        case None => None
        case Some(p) =>
          if top == left && p.newer == right then ReplayClash(sha, m - k, leaves[k..], false, rest, root1)
          else Some(Clash(NodeInput(top, p.newer), NodeInput(left, right)))
  }

  /** What ReplayClash reports: a collision, or that the proof and the older root are genuine. */
  ghost predicate ReplayVerdict(sha: Sha, m: nat, leaves: seq<Bytes>, b: bool, proof: seq<Bytes>, root1: Bytes)
    requires 0 < m <= |leaves|
  {
    match ReplayClash(sha, m, leaves, b, proof, root1)
    case Some(c) => IsCollision(sha, c)
    case None =>
      && proof == Subproof(sha, m, leaves, b)
      && Replay(sha, m, |leaves|, b, proof, root1) == Some(Roots(Root(sha, leaves[..m]), Root(sha, leaves)))
  }

  lemma {:induction false} ReplayWidth(sha: Sha, m: nat, n: nat, b: bool, proof: seq<Bytes>, root1: Bytes)
    requires 0 < m <= n && AllDigests(proof) && |root1| == DIGEST_SIZE
    ensures var r := Replay(sha, m, n, b, proof, root1);
            r.Some? ==> |r.value.newer| == DIGEST_SIZE
  {
  }

  /** The verdict on the half that holds the boundary carries over to the whole tree. */
  lemma VerdictOnLeft(sha: Sha, m: nat, leaves: seq<Bytes>, b: bool, rest: seq<Bytes>, top: Bytes, root1: Bytes)
    requires |leaves| >= 2 && 0 < m <= Split(|leaves|)
    requires var left, right := leaves[..Split(|leaves|)], leaves[Split(|leaves|)..];
             match Replay(sha, m, |left|, b, rest, root1)
             case None => false
             case Some(p) =>
               if p.newer == Root(sha, left) && top == Root(sha, right) then ReplayVerdict(sha, m, left, b, rest, root1)
               else IsCollision(sha, Clash(NodeInput(p.newer, top), NodeInput(Root(sha, left), Root(sha, right))))
    ensures ReplayVerdict(sha, m, leaves, b, rest + [top], root1)
  {
    hide NodeHash, NodeInput, Split;
    var left := leaves[..Split(|leaves|)];
    assert left[..m] == leaves[..m];
    ProofTop(rest, top);
    ReplayUnfolds(sha, m, |leaves|, b, rest, top, root1);
  }

  lemma VerdictOnRight(sha: Sha, m: nat, leaves: seq<Bytes>, b: bool, rest: seq<Bytes>, top: Bytes, root1: Bytes)
    requires |leaves| >= 2 && Split(|leaves|) < m < |leaves|
    requires var k := Split(|leaves|);
             var left, right := leaves[..k], leaves[k..];
             match Replay(sha, m - k, |right|, false, rest, root1)
             case None => false
             case Some(p) =>
               if top == Root(sha, left) && p.newer == Root(sha, right)
               then ReplayVerdict(sha, m - k, right, false, rest, root1)
               else IsCollision(sha, Clash(NodeInput(top, p.newer), NodeInput(Root(sha, left), Root(sha, right))))
    ensures ReplayVerdict(sha, m, leaves, b, rest + [top], root1)
  {
    hide NodeHash, NodeInput, Split;
    RootOfPrefix(sha, leaves, m);
    ProofTop(rest, top);
    ReplayUnfolds(sha, m, |leaves|, b, rest, top, root1);
  }

  lemma VerdictWhereTheyMeet(sha: Sha, leaves: seq<Bytes>, b: bool, proof: seq<Bytes>, root1: Bytes)
    requires |leaves| > 0
    requires var r := Replay(sha, |leaves|, |leaves|, b, proof, root1);
             r.Some? && r.value.newer == Root(sha, leaves)
    ensures ReplayVerdict(sha, |leaves|, leaves, b, proof, root1)
  {
    hide Split, Root;
    assert leaves[..|leaves|] == leaves;
  }

  lemma ReplayEmpty(sha: Sha, m: nat, n: nat, b: bool, root1: Bytes)
    requires 0 < m < n
    ensures Replay(sha, m, n, b, [], root1) == None
  {
  }

  lemma {:induction false} ReplayClashSound(
      sha: Sha, m: nat, leaves: seq<Bytes>, b: bool, proof: seq<Bytes>, root1: Bytes)
    requires 0 < m <= |leaves| && AllDigests(proof) && |root1| == DIGEST_SIZE
    requires var r := Replay(sha, m, |leaves|, b, proof, root1);
             r.Some? && r.value.newer == Root(sha, leaves)
    ensures ReplayVerdict(sha, m, leaves, b, proof, root1)
    decreases |leaves|
  {
    hide ReplayVerdict, ReplayClash, Subproof, Split, Replay, NodeInput, NodeHash, Root;
    var n := |leaves|;
    if m == n {
      VerdictWhereTheyMeet(sha, leaves, b, proof, root1);
    } else {
      var k, left, right := Split(n), leaves[..Split(n)], leaves[Split(n)..];
      RootUnfolds(sha, leaves);
      ReplayEmpty(sha, m, n, b, root1);
      var top, rest := proof[|proof| - 1], proof[..|proof| - 1];
      assert proof == rest + [top] && |top| == DIGEST_SIZE;
      ReplayUnfolds(sha, m, n, b, rest, top, root1);
      if m <= k {
        ReplayWidth(sha, m, k, b, rest, root1);
        var p := Replay(sha, m, k, b, rest, root1).value;
        NodeClash(sha, p.newer, top, Root(sha, left), Root(sha, right));
        if p.newer == Root(sha, left) && top == Root(sha, right) {
          ReplayClashSound(sha, m, left, b, rest, root1);
        }
        VerdictOnLeft(sha, m, leaves, b, rest, top, root1);
      } else {
        ReplayWidth(sha, m - k, n - k, false, rest, root1);
        var p := Replay(sha, m - k, n - k, false, rest, root1).value;
        NodeClash(sha, top, p.newer, Root(sha, left), Root(sha, right));
        if top == Root(sha, left) && p.newer == Root(sha, right) {
          ReplayClashSound(sha, m - k, right, false, rest, root1);
        }
        VerdictOnRight(sha, m, leaves, b, rest, top, root1);
      }
    }
  }

  /** Consistency is exact: against the genuine newer root, the verifier accepts the genuine proof
      with the genuine older root, and whatever else it accepts comes with a SHA-256 collision that
      ReplayClash computes from the accepted arguments. */
  lemma ConsistencyExact(sha: Sha, m: nat, leaves: seq<Bytes>, proof: seq<Bytes>, root1: Bytes)
    requires 0 < m <= |leaves|
    ensures proof == ConsistencyProof(sha, leaves, m) && root1 == Root(sha, leaves[..m])
            ==> Accepts(sha, m, |leaves|, proof, root1, Root(sha, leaves))
    ensures Accepts(sha, m, |leaves|, proof, root1, Root(sha, leaves))
            ==> match ReplayClash(sha, m, leaves, true, proof, root1)
                case Some(c) => IsCollision(sha, c)
                case None => proof == ConsistencyProof(sha, leaves, m) && root1 == Root(sha, leaves[..m])
  {
    ConsistencyComplete(sha, leaves, m);
    if Accepts(sha, m, |leaves|, proof, root1, Root(sha, leaves)) {
      if m == |leaves| {
        assert leaves[..m] == leaves;
      } else {
        RebuildIsReplay(sha, m, |leaves|, proof, root1);
        ReplayClashSound(sha, m, leaves, true, proof, root1);
      }
    }
  }

  /** The collision hidden behind an accepted proof between two logs that are not a prefix and its
      extension. */
  function PrefixClash(sha: Sha, older: seq<Bytes>, newer: seq<Bytes>, proof: seq<Bytes>): Option<Clash>
    requires 0 < |older| <= |newer|
  {
    match ReplayClash(sha, |older|, newer, true, proof, Root(sha, older))
    case Some(c) => Some(c)
    case None => LeavesClash(sha, older, newer[..|older|])
  }

  /** Append-only: if a proof is accepted between the roots of two logs, the older log is a prefix of
      the newer one, or PrefixClash computes a SHA-256 collision. */
  lemma {:induction false} AcceptedMeansPrefix(sha: Sha, older: seq<Bytes>, newer: seq<Bytes>, proof: seq<Bytes>)
    requires 0 < |older| <= |newer|
    requires Accepts(sha, |older|, |newer|, proof, Root(sha, older), Root(sha, newer))
    ensures match PrefixClash(sha, older, newer, proof)
            case Some(c) => IsCollision(sha, c)
            case None => older <= newer
  {
    ConsistencyExact(sha, |older|, newer, proof, Root(sha, older));
    if ReplayClash(sha, |older|, newer, true, proof, Root(sha, older)).None? {
      RootBinding(sha, older, newer[..|older|]);
    }
  }

  // ----- Proof sizes -----

  /** An audit path has one hash per inner level and one per border level, at most ceil(log2 n). */
  lemma InclusionProofSize(sha: Sha, leaves: seq<Bytes>, m: nat)
    requires m < |leaves|
    ensures var (inner, border) := DecompInclProof(m, |leaves|);
            |InclusionProof(sha, leaves, m)| == inner + border <= Len(|leaves| - 1)
  {
    hide Climb, InclusionProof, Inner, InnerRight, BorderRight, Split, Len, Xor, OnesCount, Shr;
    var seed := Roots([], []);
    InclusionProofClimbs(sha, leaves, m, seed);
    ClimbIsBits(sha, m, |leaves|, seed, InclusionProof(sha, leaves, m));
    DecompositionBound(m, |leaves|);
  }

  lemma {:induction false} InclusionProofClimbs(sha: Sha, leaves: seq<Bytes>, m: nat, seed: Roots)
    requires m < |leaves|
    ensures Climb(sha, m, |leaves|, seed, InclusionProof(sha, leaves, m)).Some?
    decreases |leaves|
  {
    hide Split, Root, Climb, Fold;
    if |leaves| == 1 {
      ClimbLast(sha, seed, []);
    } else {
      var k := Split(|leaves|);
      var left, right := leaves[..k], leaves[k..];
      if m < k {
        InclusionProofClimbs(sha, left, m, seed);
        ClimbUnfolds(sha, m, |leaves|, seed, InclusionProof(sha, left, m), Root(sha, right));
      } else {
        InclusionProofClimbs(sha, right, m - k, seed);
        ClimbUnfolds(sha, m, |leaves|, seed, InclusionProof(sha, right, m - k), Root(sha, left));
      }
    }
  }

  lemma DecompositionBound(i: nat, n: nat)
    requires i < n
    ensures var (inner, border) := DecompInclProof(i, n);
            inner <= Len(n - 1) && inner + border <= Len(n - 1)
  {
    var inner := InnerProofSize(i, n);
    XorLenBound(i, n - 1);
    OnesCountBound(Shr(i, inner));
    LenShr(i, inner);
    LenMonotonic(i, n - 1);
  }

  lemma {:induction false} XorLenBound(a: nat, b: nat)
    requires a <= b
    ensures Len(Xor(a, b)) <= Len(b)
  {
    XorLen(a, b);
    if a < b {
      XorLenBound(a / 2, b / 2);
    }
  }

  /** A consistency proof has an optional seed, inner - shift inner hashes and the border hashes, at
      most ceil(log2 n) + 1, the bound of RFC 6962 section 2.1.2. */
  lemma ConsistencyProofSize(sha: Sha, leaves: seq<Bytes>, m: nat)
    requires 0 < m < |leaves|
    ensures var (inner, border), shift := DecompInclProof(m - 1, |leaves|), TrailingZeros(m);
            var start := if IsPowerOfTwo(m) then 0 else 1;
            |ConsistencyProof(sha, leaves, m)| == start + (inner - shift) + border <= Len(|leaves| - 1) + 1
  {
    hide Root, Replay, ConsistencyProof, TrailingZeros;
    ConsistencyComplete(sha, leaves, m);
    DecompositionBound(m - 1, |leaves|);
  }

  /** Len(n - 1) is ceil(log2 n): the least e with n <= 2^e. */
  lemma LenIsCeilLog(n: nat, e: nat)
    requires n > 0
    ensures n <= Pow2(e) <==> Len(n - 1) <= e
  {
    hide Len, Pow2;
    LenZero();
    if n > 1 {
      LenBounds(n - 1);
      if Len(n - 1) > e {
        Pow2Monotonic(e, Len(n - 1) - 1);
      } else {
        Pow2Monotonic(Len(n - 1), e);
      }
    }
  }

  lemma LenZero()
    ensures Len(0) == 0
  {
  }
}
