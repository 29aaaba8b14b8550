/** The consistency proofs of `services/api/internal/merkle/consistency.go`: the recursive prover
    (RFC 6962 section 2.1.2) and the verifier that rebuilds both roots with loops over bits. */
module Consistency {
  import opened Hashing
  import opened Bits
  import opened Merkle

  /** The two roots rebuilt from one proof. */
  datatype Roots = Roots(older: Bytes, newer: Bytes)

  function ConsistencyProof(sha: Sha, leaves: seq<Bytes>, m: int): seq<Bytes> {
    if m <= 0 || m > |leaves| then []
    else if m == |leaves| then []
    else Subproof(sha, m, leaves, true)
  }

  function Subproof(sha: Sha, m: nat, leaves: seq<Bytes>, b: bool): seq<Bytes>
    requires 0 < m <= |leaves|
    decreases |leaves|
  {
    if m == |leaves| then if b then [] else [Root(sha, leaves)]
    else
      var k := Split(|leaves|);
      if m <= k then Subproof(sha, m, leaves[..k], b) + [Root(sha, leaves[k..])]
      else Subproof(sha, m - k, leaves[k..], false) + [Root(sha, leaves[..k])]
  }

  function InnerProofSize(index: nat, size: nat): nat
    requires size > 0
  {
    Len(Xor(index, size - 1))
  }

  /** (inner, border) lengths of the path for index in a tree of the given size. */
  function DecompInclProof(index: nat, size: nat): (nat, nat)
    requires size > 0
  {
    var inner := InnerProofSize(index, size);
    (inner, OnesCount(Shr(index, inner)))
  }

  /** The value chainInner computes: at each level the index bit says on which side the sibling is. */
  function Inner(sha: Sha, seed: Bytes, proof: seq<Bytes>, index: nat): Bytes
    decreases |proof|
  {
    if |proof| == 0 then seed
    else
      var parent := if index % 2 == 0 then NodeHash(sha, seed, proof[0]) else NodeHash(sha, proof[0], seed);
      Inner(sha, parent, proof[1..], index / 2)
  }

  /** The value chainInnerRight computes: siblings on the right are skipped. */
  function InnerRight(sha: Sha, seed: Bytes, proof: seq<Bytes>, index: nat): Bytes
    decreases |proof|
  {
    if |proof| == 0 then seed
    else
      var parent := if index % 2 == 1 then NodeHash(sha, proof[0], seed) else seed;
      InnerRight(sha, parent, proof[1..], index / 2)
  }

  /** The value chainBorderRight computes. */
  function BorderRight(sha: Sha, seed: Bytes, proof: seq<Bytes>): Bytes
    decreases |proof|
  {
    if |proof| == 0 then seed else BorderRight(sha, NodeHash(sha, proof[0], seed), proof[1..])
  }

  method ChainInner(sha: Sha, seed: Bytes, proof: seq<Bytes>, index: nat) returns (r: Bytes)
    ensures r == Inner(sha, seed, proof, index)
  {
    r := seed;
    for i := 0 to |proof|
      invariant Inner(sha, r, proof[i..], Shr(index, i)) == Inner(sha, seed, proof, index)
    {
      ShrStep(index, i);
      assert proof[i..][1..] == proof[i + 1..];
      if Shr(index, i) % 2 == 0 {
        r := NodeHash(sha, r, proof[i]);
      } else {
        r := NodeHash(sha, proof[i], r);
      }
    }
  }

  method ChainInnerRight(sha: Sha, seed: Bytes, proof: seq<Bytes>, index: nat) returns (r: Bytes)
    ensures r == InnerRight(sha, seed, proof, index)
  {
    r := seed;
    for i := 0 to |proof|
      invariant InnerRight(sha, r, proof[i..], Shr(index, i)) == InnerRight(sha, seed, proof, index)
    {
      ShrStep(index, i);
      assert proof[i..][1..] == proof[i + 1..];
      if Shr(index, i) % 2 == 1 {
        r := NodeHash(sha, proof[i], r);
      }
    }
  }

  method ChainBorderRight(sha: Sha, seed: Bytes, proof: seq<Bytes>) returns (r: Bytes)
    ensures r == BorderRight(sha, seed, proof)
  {
    r := seed;
    for i := 0 to |proof|
      invariant BorderRight(sha, r, proof[i..]) == BorderRight(sha, seed, proof)
    {
      assert proof[i..][1..] == proof[i + 1..];
      r := NodeHash(sha, proof[i], r);
    }
  }

  /** The seed subtree lies strictly inside the inner part of the path. */
  lemma {:induction false} ShiftBelowInner(m: nat, n: nat)
    requires 0 < m < n
    ensures TrailingZeros(m) < InnerProofSize(m - 1, n)
  {
    XorLen(m - 1, n - 1);
    if m % 2 == 0 {
      assert (m - 1) / 2 == m / 2 - 1 && (n - 1) / 2 == (n + 1) / 2 - 1;
      ShiftBelowInner(m / 2, (n + 1) / 2);
    }
  }

  /** The roots the bit form rebuilds for m < n, or None when the proof has the wrong length. */
  function Rebuild(sha: Sha, m: nat, n: nat, proof: seq<Bytes>, root1: Bytes): Option<Roots>
    requires 0 < m < n && |proof| > 0
  {
    var (inner0, border) := DecompInclProof(m - 1, n);
    var shift := TrailingZeros(m);
    ShiftBelowInner(m, n);
    var inner := inner0 - shift;
    var omitted := m == Pow2(shift);
    var seed, start := if omitted then root1 else proof[0], if omitted then 0 else 1;
    if |proof| != start + inner + border then None
    else RebuildFrom(sha, seed, proof[start..], inner, Shr(m - 1, shift))
  }

  function RebuildFrom(sha: Sha, seed: Bytes, path: seq<Bytes>, inner: nat, mask: nat): Option<Roots>
    requires inner <= |path|
  {
    Some(Roots(BorderRight(sha, InnerRight(sha, seed, path[..inner], mask), path[inner..]),
               BorderRight(sha, Inner(sha, seed, path[..inner], mask), path[inner..])))
  }

  /** The verdict of VerifyConsistency. */
  predicate Accepts(sha: Sha, m: int, n: int, proof: seq<Bytes>, root1: Bytes, root2: Bytes) {
    && 0 < m <= n
    && |root1| == DIGEST_SIZE && |root2| == DIGEST_SIZE && AllDigests(proof)
    && if m == n then |proof| == 0 && root1 == root2
       else |proof| > 0 && Rebuild(sha, m, n, proof, root1) == Some(Roots(root1, root2))
  }

  method VerifyConsistency(sha: Sha, m: int, n: int, proof: seq<Bytes>, root1: Bytes, root2: Bytes)
    returns (ok: bool)
    ensures ok == Accepts(sha, m, n, proof, root1, root2)
  {
    hide Inner, InnerRight, BorderRight, Len, Xor, OnesCount, Shr, TrailingZeros;
    if m <= 0 || m > n {
      return false;
    }
    if |root1| != DIGEST_SIZE || |root2| != DIGEST_SIZE {
      return false;
    }
    for i := 0 to |proof|
      invariant forall j :: 0 <= j < i ==> |proof[j]| == DIGEST_SIZE
    {
      if |proof[i]| != DIGEST_SIZE {
        return false;
      }
    }
    if m == n {
      return |proof| == 0 && root1 == root2;
    }
    if |proof| == 0 {
      return false;
    }
    var (inner, border) := DecompInclProof(m - 1, n);
    var shift := TrailingZeros(m);
    ShiftBelowInner(m, n);
    inner := inner - shift;
    var seed, start := proof[0], 1;
    if m == Pow2(shift) {
      seed, start := root1, 0;
    }
    if |proof| != start + inner + border {
      return false;
    }
    var path := proof[start..];
    var mask := Shr(m - 1, shift);
    var hash1 := ChainInnerRight(sha, seed, path[..inner], mask);
    hash1 := ChainBorderRight(sha, hash1, path[inner..]);
    var hash2 := ChainInner(sha, seed, path[..inner], mask);
    hash2 := ChainBorderRight(sha, hash2, path[inner..]);
    ok := hash1 == root1 && hash2 == root2;
  }
}
