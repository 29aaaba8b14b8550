/** The loop-over-bits consistency verifier accepts exactly what a top-down replay of RFC 6962's
    SUBPROOF accepts.

    `Replay` inverts SUBPROOF one split at a time. The bridge to the bit form has three steps:
    peel the seed off the proof (`ReplayIsPath`), halve an even boundary (`PathHalves`) until the
    seed subtree is a single leaf, and climb from that leaf one level at a time (`ClimbIsBits`). */
module ConsistencyRefinement {
  import opened Hashing
  import opened Bits
  import opened Merkle
  import opened Consistency

  function Fold(sha: Sha, seed: Roots, h: Bytes, onLeft: bool): Roots {
    if onLeft then Roots(NodeHash(sha, h, seed.older), NodeHash(sha, h, seed.newer))
    else Roots(seed.older, NodeHash(sha, seed.newer, h))
  }

  /** SUBPROOF(m, D[n], b) run backwards: the roots of D[..m] and of D that the proof determines.
      With b, the subtree where m and n meet is root1 itself. */
  function Replay(sha: Sha, m: nat, n: nat, b: bool, proof: seq<Bytes>, root1: Bytes): Option<Roots>
    requires 0 < m <= n
    decreases n
  {
    if m == n then
      if b then if |proof| == 0 then Some(Roots(root1, root1)) else None
      else if |proof| == 1 then Some(Roots(proof[0], proof[0])) else None
    else if |proof| == 0 then None
    else
      var k, top, rest := Split(n), proof[|proof| - 1], proof[..|proof| - 1];
      var inner := if m <= k then Replay(sha, m, k, b, rest, root1)
                   else Replay(sha, m - k, n - k, false, rest, root1);
      match inner
      case None => None
      case Some(p) => Some(Fold(sha, p, top, m > k))
  }

  /** Replay once the root of the subtree where m and n meet is known. */
  function Path(sha: Sha, m: nat, n: nat, seed: Roots, path: seq<Bytes>): Option<Roots>
    requires 0 < m <= n
    decreases n
  {
    if m == n then if |path| == 0 then Some(seed) else None
    else if |path| == 0 then None
    else
      var k, top, rest := Split(n), path[|path| - 1], path[..|path| - 1];
      var inner := if m <= k then Path(sha, m, k, seed, rest) else Path(sha, m - k, n - k, seed, rest);
      match inner
      case None => None
      case Some(p) => Some(Fold(sha, p, top, m > k))
  }

  /** The path of the single leaf i in a tree of n leaves. */
  function Climb(sha: Sha, i: nat, n: nat, seed: Roots, path: seq<Bytes>): Option<Roots>
    requires i < n
    decreases n
  {
    if n == 1 then if |path| == 0 then Some(seed) else None
    else if |path| == 0 then None
    else
      var k, top, rest := Split(n), path[|path| - 1], path[..|path| - 1];
      var inner := if i < k then Climb(sha, i, k, seed, rest) else Climb(sha, i - k, n - k, seed, rest);
      match inner
      case None => None
      case Some(p) => Some(Fold(sha, p, top, i >= k))
  }

  /** The bit form of Climb, where last is the index of the last leaf. */
  function BitClimb(sha: Sha, i: nat, last: nat, seed: Roots, path: seq<Bytes>): Option<Roots> {
    var inner := Len(Xor(i, last));
    if |path| != inner + OnesCount(Shr(i, inner)) then None
    else Some(Roots(BorderRight(sha, InnerRight(sha, seed.older, path[..inner], i), path[inner..]),
                    BorderRight(sha, Inner(sha, seed.newer, path[..inner], i), path[inner..])))
  }

  /** The left half of a tree of n leaves is the left half of the tree of its pairs. */
  lemma SplitOfPairs(n: nat, pairs: nat)
    requires n > 2 && n <= 2 * pairs <= n + 1
    ensures Split(n) == 2 * Split(pairs)
  {
    SplitHalves(n);
  }

  function Lift(inner: Option<Roots>, sha: Sha, top: Bytes, onLeft: bool): Option<Roots> {
    match inner
    case None => None
    case Some(p) => Some(Fold(sha, p, top, onLeft))
  }

  lemma PathUnfolds(sha: Sha, m: nat, n: nat, seed: Roots, rest: seq<Bytes>, top: Bytes)
    requires 0 < m < n
    ensures var k := Split(n);
            Path(sha, m, n, seed, rest + [top])
            == Lift(if m <= k then Path(sha, m, k, seed, rest) else Path(sha, m - k, n - k, seed, rest),
                    sha, top, m > k)
  {
    ProofTop(rest, top);
  }

  lemma ClimbUnfolds(sha: Sha, i: nat, n: nat, seed: Roots, rest: seq<Bytes>, top: Bytes)
    requires i < n && n >= 2
    ensures var k := Split(n);
            Climb(sha, i, n, seed, rest + [top])
            == Lift(if i < k then Climb(sha, i, k, seed, rest) else Climb(sha, i - k, n - k, seed, rest),
                    sha, top, i >= k)
  {
    ProofTop(rest, top);
  }

  lemma PathEmpty(sha: Sha, m: nat, n: nat, seed: Roots)
    requires 0 < m <= n
    ensures Path(sha, m, n, seed, []) == if m == n then Some(seed) else None
  {
  }

  lemma PathMeets(sha: Sha, m: nat, seed: Roots, path: seq<Bytes>)
    requires 0 < m
    ensures Path(sha, m, m, seed, path) == if |path| == 0 then Some(seed) else None
  {
  }

  lemma ClimbEmpty(sha: Sha, i: nat, n: nat, seed: Roots)
    requires i < n
    ensures Climb(sha, i, n, seed, []) == if n == 1 then Some(seed) else None
  {
  }

  lemma ClimbLast(sha: Sha, seed: Roots, path: seq<Bytes>)
    ensures Climb(sha, 0, 1, seed, path) == if |path| == 0 then Some(seed) else None
  {
  }

  // ----- Climbing one level: the tree of pairs -----

  predicate IsLone(i: nat, n: nat) {
    i == n - 1 && i % 2 == 0
  }

  /** A last leaf without a sibling moves up unpaired. */
  lemma {:induction false} LoneLeafClimbs(sha: Sha, half: nat, seed: Roots, path: seq<Bytes>)
    requires half > 0
    ensures Climb(sha, 2 * half, 2 * half + 1, seed, path) == Climb(sha, half, half + 1, seed, path)
  {
    hide Climb, Fold, Split;
    var i, n, pairs := 2 * half, 2 * half + 1, half + 1;
    if |path| == 0 {
      ClimbEmpty(sha, i, n, seed);
      ClimbEmpty(sha, half, pairs, seed);
    } else {
      SplitOfPairs(n, pairs);
      var rest, top := path[..|path| - 1], path[|path| - 1];
      var k' := Split(pairs);
      assert path == rest + [top];
      ClimbUnfolds(sha, i, n, seed, rest, top);
      ClimbUnfolds(sha, half, pairs, seed, rest, top);
      if half > k' {
        LoneLeafClimbs(sha, half - k', seed, rest);
      }
    }
  }

  /** Any other leaf, i = 2 half + bit among n = 2 pairs - odd, first joins its sibling. */
  lemma {:induction false} PairedLeafClimbs(
      sha: Sha, half: nat, bit: nat, pairs: nat, odd: nat, seed: Roots, h: Bytes, path: seq<Bytes>)
    requires bit <= 1 && odd <= 1 && half < pairs && (half == pairs - 1 ==> odd == 0)
    ensures Climb(sha, 2 * half + bit, 2 * pairs - odd, seed, [h] + path)
         == Climb(sha, half, pairs, Fold(sha, seed, h, bit == 1), path)
    decreases pairs
  {
    hide Climb, Fold, Split;
    var i, n, joined := 2 * half + bit, 2 * pairs - odd, Fold(sha, seed, h, bit == 1);
    if pairs > 1 {
      SplitOfPairs(n, pairs);
    }
    if |path| == 0 {
      assert [h] + path == [] + [h];
      ClimbUnfolds(sha, i, n, seed, [], h);
      ClimbEmpty(sha, half, pairs, joined);
      if i < Split(n) {
        ClimbEmpty(sha, i, Split(n), seed);
      } else {
        ClimbEmpty(sha, i - Split(n), n - Split(n), seed);
      }
    } else {
      var rest, top := path[..|path| - 1], path[|path| - 1];
      assert path == rest + [top] && [h] + path == ([h] + rest) + [top];
      ClimbUnfolds(sha, i, n, seed, [h] + rest, top);
      if pairs == 1 {
        ClimbLast(sha, joined, path);
        ClimbLast(sha, seed, [h] + rest);
      } else {
        var k' := Split(pairs);
        ClimbUnfolds(sha, half, pairs, joined, rest, top);
        if half < k' {
          PairedLeafClimbs(sha, half, bit, k', 0, seed, h, rest);
        } else {
          PairedLeafClimbs(sha, half - k', bit, pairs - k', odd, seed, h, rest);
        }
      }
    }
  }

  lemma LastLeafBits(sha: Sha, seed: Roots, path: seq<Bytes>)
    ensures BitClimb(sha, 0, 0, seed, path) == if |path| == 0 then Some(seed) else None
  {
  }

  lemma LoneLeafBits(sha: Sha, i: nat, n: nat, seed: Roots, path: seq<Bytes>)
    requires n >= 2 && IsLone(i, n)
    ensures BitClimb(sha, i, n - 1, seed, path) == BitClimb(sha, i / 2, (n - 1) / 2, seed, path)
  {
    XorLen(i, n - 1);
    XorLen(i / 2, (n - 1) / 2);
  }

  lemma PairedLeafBits(sha: Sha, i: nat, n: nat, seed: Roots, h: Bytes, path: seq<Bytes>)
    requires i < n && n >= 2 && !IsLone(i, n)
    ensures BitClimb(sha, i, n - 1, seed, []) == None
    ensures BitClimb(sha, i, n - 1, seed, [h] + path)
         == BitClimb(sha, i / 2, (n - 1) / 2, Fold(sha, seed, h, i % 2 == 1), path)
  {
    XorLen(i, n - 1);
    var inner, whole := Len(Xor(i, n - 1)), [h] + path;
    assert whole[1..] == path;
    if i == n - 1 {
      XorLen(i / 2, (n - 1) / 2);
      assert whole[..0] == path[..0] == [] && whole[0..] == whole && path[0..] == path;
    } else if inner <= |whole| {
      assert whole[..inner][1..] == path[..inner - 1] && whole[inner..] == path[inner - 1..];
    }
  }

  lemma {:induction false} ClimbIsBits(sha: Sha, i: nat, n: nat, seed: Roots, path: seq<Bytes>)
    requires i < n
    ensures Climb(sha, i, n, seed, path) == BitClimb(sha, i, n - 1, seed, path)
    decreases n
  {
    hide Split, Fold, Climb, BitClimb;
    if n == 1 {
      ClimbLast(sha, seed, path);
      LastLeafBits(sha, seed, path);
    } else {
      var half, pairs := i / 2, (n + 1) / 2;
      assert pairs - 1 == (n - 1) / 2;
      if IsLone(i, n) {
        LoneLeafClimbs(sha, half, seed, path);
        LoneLeafBits(sha, i, n, seed, path);
        ClimbIsBits(sha, half, pairs, seed, path);
      } else if |path| == 0 {
        ClimbEmpty(sha, i, n, seed);
        PairedLeafBits(sha, i, n, seed, [], []);
      } else {
        var h, rest := path[0], path[1..];
        assert path == [h] + rest;
        PairedLeafClimbs(sha, half, i % 2, pairs, n % 2, seed, h, rest);
        PairedLeafBits(sha, i, n, seed, h, rest);
        ClimbIsBits(sha, half, pairs, Fold(sha, seed, h, i % 2 == 1), rest);
      }
    }
  }

  // ----- Halving an even boundary -----

  /** An even boundary 2 half among n = 2 pairs - odd leaves is the boundary half among the pairs. */
  lemma {:induction false} PathHalves(
      sha: Sha, half: nat, pairs: nat, odd: nat, seed: Roots, path: seq<Bytes>)
    requires 0 < half <= pairs && odd <= 1 && (half == pairs ==> odd == 0)
    ensures Path(sha, 2 * half, 2 * pairs - odd, seed, path) == Path(sha, half, pairs, seed, path)
    decreases pairs
  {
    hide Path, Fold, Split;
    var m, n := 2 * half, 2 * pairs - odd;
    if half == pairs {
      PathMeets(sha, m, seed, path);
      PathMeets(sha, half, seed, path);
    } else if |path| == 0 {
      PathEmpty(sha, m, n, seed);
      PathEmpty(sha, half, pairs, seed);
    } else {
      SplitOfPairs(n, pairs);
      var rest, top, k' := path[..|path| - 1], path[|path| - 1], Split(pairs);
      assert path == rest + [top];
      PathUnfolds(sha, m, n, seed, rest, top);
      PathUnfolds(sha, half, pairs, seed, rest, top);
      if half <= k' {
        PathHalves(sha, half, k', 0, seed, rest);
      } else {
        PathHalves(sha, half - k', pairs - k', odd, seed, rest);
      }
    }
  }

  lemma {:induction false} OddPathIsClimb(sha: Sha, m: nat, n: nat, seed: Roots, path: seq<Bytes>)
    requires m % 2 == 1 && (m < n || m == n == 1)
    ensures Path(sha, m, n, seed, path) == Climb(sha, m - 1, n, seed, path)
    decreases n
  {
    hide Path, Climb, Fold, Split;
    if n == 1 {
      PathMeets(sha, 1, seed, path);
      ClimbLast(sha, seed, path);
    } else if |path| == 0 {
      PathEmpty(sha, m, n, seed);
      ClimbEmpty(sha, m - 1, n, seed);
    } else {
      var k, rest, top := Split(n), path[..|path| - 1], path[|path| - 1];
      assert path == rest + [top];
      SplitEven(n);
      PathUnfolds(sha, m, n, seed, rest, top);
      ClimbUnfolds(sha, m - 1, n, seed, rest, top);
      if m <= k {
        OddPathIsClimb(sha, m, k, seed, rest);
      } else {
        OddPathIsClimb(sha, m - k, n - k, seed, rest);
      }
    }
  }

  lemma SplitEven(n: nat)
    requires n >= 2
    ensures n == 2 ==> Split(n) == 1
    ensures n > 2 ==> Split(n) % 2 == 0
  {
    if n > 2 {
      SplitHalves(n);
    }
  }

  /** The bit form with the seed already chosen. */
  function BitPath(sha: Sha, m: nat, n: nat, seed: Roots, path: seq<Bytes>): Option<Roots>
    requires 0 < m < n
  {
    var shift := TrailingZeros(m);
    BitClimb(sha, Shr(m - 1, shift), Shr(n - 1, shift), seed, path)
  }

  lemma BoundaryHalves(m: nat, n: nat, half: nat, pairs: nat)
    requires 0 < m < n && m == 2 * half && n <= 2 * pairs <= n + 1
    ensures half < pairs && TrailingZeros(m) == 1 + TrailingZeros(half)
    ensures Shr(m - 1, TrailingZeros(m)) == Shr(half - 1, TrailingZeros(half))
    ensures Shr(n - 1, TrailingZeros(m)) == Shr(pairs - 1, TrailingZeros(half))
  {
    assert (m - 1) / 2 == half - 1 && (n - 1) / 2 == pairs - 1;
  }

  lemma {:induction false} PathIsBits(sha: Sha, m: nat, n: nat, seed: Roots, path: seq<Bytes>)
    requires 0 < m < n
    ensures Path(sha, m, n, seed, path) == BitPath(sha, m, n, seed, path)
    decreases m
  {
    hide Path, Climb, BitClimb;
    if m % 2 == 1 {
      OddPathIsClimb(sha, m, n, seed, path);
      ClimbIsBits(sha, m - 1, n, seed, path);
    } else {
      var half, pairs := m / 2, (n + 1) / 2;
      BoundaryHalves(m, n, half, pairs);
      PathHalves(sha, half, pairs, n % 2, seed, path);
      PathIsBits(sha, half, pairs, seed, path);
    }
  }

  // ----- The seed -----

  lemma SplitIsPowerOfTwo(n: nat)
    requires n >= 2
    ensures IsPowerOfTwo(Split(n))
    ensures forall m :: Split(n) < m < n ==> !IsPowerOfTwo(m)
  {
    LenBounds(n - 1);
    var e := Len(n - 1) - 1;
    Pow2IsPowerOfTwo(e);
    forall m | Split(n) < m < n
      ensures !IsPowerOfTwo(m)
    {
      NotPowerOfTwo(e, m);
    }
  }

  /** The first element of a proof is the seed, unless SUBPROOF omits it: then m is a power of two
      and the seed is root1. */
  function SeededPath(sha: Sha, m: nat, n: nat, b: bool, proof: seq<Bytes>, root1: Bytes): Option<Roots>
    requires 0 < m <= n
  {
    if b && IsPowerOfTwo(m) then Path(sha, m, n, Roots(root1, root1), proof)
    else if |proof| == 0 then None
    else Path(sha, m, n, Roots(proof[0], proof[0]), proof[1..])
  }

  lemma {:induction false} ReplayIsPath(sha: Sha, m: nat, n: nat, b: bool, proof: seq<Bytes>, root1: Bytes)
    requires 0 < m <= n
    requires m == n && b ==> IsPowerOfTwo(m)
    ensures Replay(sha, m, n, b, proof, root1) == SeededPath(sha, m, n, b, proof, root1)
    decreases n
  {
    if m < n && |proof| > 0 {
      var k, rest := Split(n), proof[..|proof| - 1];
      SplitIsPowerOfTwo(n);
      if m <= k {
        ReplayIsPath(sha, m, k, b, rest, root1);
      } else {
        ReplayIsPath(sha, m - k, n - k, false, rest, root1);
      }
      if |rest| > 0 {
        assert rest[1..] == proof[1..][..|proof| - 2];
      }
    }
  }

  /** inner0 - shift levels remain above the seed, and the border is unchanged. */
  lemma {:induction false} ShiftedDecomposition(m: nat, n: nat)
    requires 0 < m < n
    ensures var shift, (inner, border) := TrailingZeros(m), DecompInclProof(m - 1, n);
            var i, last := Shr(m - 1, shift), Shr(n - 1, shift);
            Len(Xor(i, last)) == inner - shift && OnesCount(Shr(i, inner - shift)) == border
    decreases m
  {
    if m % 2 == 0 {
      var half, pairs := m / 2, (n + 1) / 2;
      hide Len, Xor, OnesCount, TrailingZeros;
      XorLen(m - 1, n - 1);
      BoundaryHalves(m, n, half, pairs);
      assert (m - 1) / 2 == half - 1 && (n - 1) / 2 == pairs - 1;
      ShiftBelowInner(half, pairs);
      ShiftedDecomposition(half, pairs);
    }
  }

  /** The bit form rebuilds what the replay rebuilds, on every input. */
  lemma RebuildIsReplay(sha: Sha, m: nat, n: nat, proof: seq<Bytes>, root1: Bytes)
    requires 0 < m < n && |proof| > 0
    ensures Rebuild(sha, m, n, proof, root1) == Replay(sha, m, n, true, proof, root1)
  {
    ReplayIsPath(sha, m, n, true, proof, root1);
    ShiftedDecomposition(m, n);
    ShiftBelowInner(m, n);
    if IsPowerOfTwo(m) {
      PathIsBits(sha, m, n, Roots(root1, root1), proof);
      assert proof[0..] == proof;
    } else {
      PathIsBits(sha, m, n, Roots(proof[0], proof[0]), proof[1..]);
    }
  }
}
