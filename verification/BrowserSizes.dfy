/** The tree sizes on which the browser's consistency check in `web/src/verify.ts` and the Go verifier of
    `services/api/internal/merkle/consistency.go` give the same verdict: exactly those of SizesAgree. */
module BrowserSizes {
  import opened Hashing
  import opened Bits
  import opened Merkle
  import opened Consistency
  import opened ConsistencyTheorems
  import opened Browser

  /** The sizes are judged before any bit is read, or all bits read lie below the sign bit, or both last
      indices have the sign bit of a 32-bit word and no higher one. */
  predicate SizesAgree(from: int, to: int) {
    from <= 0 || from >= to || to <= TWO_31 || (TWO_31 < from && to <= TWO_32)
  }

  // ----- A number as a high part and a low word -----

  lemma TwiceTheHigh(h: nat, e: nat)
    requires e > 0
    ensures h * Pow2(e) == 2 * (h * Pow2(e - 1))
  {
  }

  /** Halving halves the low word and lowers the high part by one place. */
  lemma HalfOfSplit(h: nat, x: nat, e: nat)
    requires e > 0 && x < Pow2(e)
    ensures var v := h * Pow2(e) + x;
            v / 2 == h * Pow2(e - 1) + x / 2 && v % 2 == x % 2 && x / 2 < Pow2(e - 1)
  {
    assert Pow2(e) == 2 * Pow2(e - 1);
    TwiceTheHigh(h, e);
  }

  lemma {:induction false} XorOfSplit(h: nat, x: nat, y: nat, e: nat)
    requires x < Pow2(e) && y < Pow2(e)
    ensures Xor(h * Pow2(e) + x, h * Pow2(e) + y) == Xor(x, y)
  {
    hide Xor;
    if e == 0 {
      XorSame(h * Pow2(e) + x);
      XorSame(0);
    } else {
      hide Pow2;
      HalfOfSplit(h, x, e);
      HalfOfSplit(h, y, e);
      XorOfSplit(h, x / 2, y / 2, e - 1);
      SameXor(h * Pow2(e) + x, h * Pow2(e) + y, x, y);
    }
  }

  lemma SameXor(a: nat, b: nat, x: nat, y: nat)
    requires a % 2 == x % 2 && b % 2 == y % 2 && Xor(a / 2, b / 2) == Xor(x / 2, y / 2)
    ensures Xor(a, b) == Xor(x, y)
  {
    hide Xor;
    XorUnfolds(a, b);
    XorUnfolds(x, y);
  }

  lemma XorUnfolds(a: nat, b: nat)
    ensures Xor(a, b) == 2 * Xor(a / 2, b / 2) + (if a % 2 == b % 2 then 0 else 1)
  {
  }

  lemma {:induction false} ShrOfXor(a: nat, b: nat, s: nat)
    ensures Shr(Xor(a, b), s) == Xor(Shr(a, s), Shr(b, s))
  {
    if s > 0 {
      XorUnfolds(a, b);
      assert Xor(a, b) / 2 == Xor(a / 2, b / 2);
      ShrOfXor(a / 2, b / 2, s - 1);
    }
  }

  lemma {:induction false} ShrOfSplit(h: nat, x: nat, e: nat)
    requires x < Pow2(e)
    ensures Shr(h * Pow2(e) + x, e) == h
  {
    if e > 0 {
      HalfOfSplit(h, x, e);
      hide Pow2;
      ShrOfSplit(h, x / 2, e - 1);
    }
  }

  lemma {:induction false} OnesOfSplit(h: nat, x: nat, e: nat)
    requires x < Pow2(e)
    ensures OnesCount(h * Pow2(e) + x) == OnesCount(h) + OnesCount(x)
  {
    if e > 0 {
      HalfOfSplit(h, x, e);
      hide Pow2, OnesCount;
      OnesOfSplit(h, x / 2, e - 1);
      OnesUnfolds(h * Pow2(e) + x);
      OnesUnfolds(x);
    }
  }

  lemma OnesUnfolds(x: nat)
    ensures OnesCount(x) == x % 2 + OnesCount(x / 2)
  {
  }

  lemma {:induction false} OnesOfShiftedSplit(h: nat, x: nat, e: nat, s: nat)
    requires x < Pow2(e) && s <= e
    ensures OnesCount(Shr(h * Pow2(e) + x, s)) == OnesCount(h) + OnesCount(Shr(x, s))
    decreases s
  {
    if s == 0 {
      OnesOfSplit(h, x, e);
    } else {
      HalfOfSplit(h, x, e);
      hide Pow2, OnesCount;
      OnesOfShiftedSplit(h, x / 2, e - 1, s - 1);
    }
  }

  lemma {:induction false} ZerosOfSplit(h: nat, x: nat, e: nat)
    requires 0 < x < Pow2(e)
    ensures TrailingZeros(h * Pow2(e) + x) == TrailingZeros(x)
  {
    HalfOfSplit(h, x, e);
    if x % 2 == 0 {
      hide Pow2;
      ZerosOfSplit(h, x / 2, e - 1);
    }
  }

  lemma {:induction false} ZerosBound(x: nat)
    requires x > 0
    ensures Pow2(TrailingZeros(x)) <= x
  {
    if x % 2 == 0 {
      ZerosBound(x / 2);
    }
  }

  lemma {:induction false} OnesPositive(x: nat)
    requires x > 0
    ensures OnesCount(x) > 0
  {
    if x % 2 == 0 {
      OnesPositive(x / 2);
    }
  }

  /** Bits below s and ones above it fit the word together. */
  lemma OnesAbove(x: nat, s: nat, e: nat)
    requires x < Pow2(e) && s <= e
    ensures s + OnesCount(Shr(x, s)) <= e
  {
    hide Pow2, Len, OnesCount, Shr;
    OnesCountBound(Shr(x, s));
    LenShr(x, s);
    LenBelow(x, e);
  }

  // ----- How many hashes each verifier wants -----

  /** Len(a ^ b) and the ones of a above it. */
  function PathLength(a: nat, b: nat): nat {
    Len(Xor(a, b)) + OnesCount(Shr(a, Len(Xor(a, b))))
  }

  function GoLength(m: nat, n: nat): int
    requires 0 < m < n
  {
    (if IsPowerOfTwo(m) then 0 else 1) + PathLength(m - 1, n - 1) - TrailingZeros(m)
  }

  function PathLength32(a: int, b: int): nat {
    Len32(Xor32(a, b)) + OnesCount(Ushr(a, Len32(Xor32(a, b))))
  }

  function BrowserLength(from: int, to: int): int
    requires ToUint32(from) != 0
  {
    (if Omitted32(from) then 0 else 1) + PathLength32(from - 1, to - 1) - TrailingZeros(ToUint32(from))
  }

  lemma AcceptedLengths(sha: Sha, from: int, to: int, proof: seq<Bytes>, root1: Bytes, root2: Bytes)
    requires 0 < from < to
    ensures Accepts(sha, from, to, proof, root1, root2) ==> |proof| == GoLength(from, to)
    ensures Accepts32(sha, from, to, proof, root1, root2) ==>
              ToUint32(from) != 0 && |proof| == BrowserLength(from, to)
  {
    hide Len, Xor, OnesCount, Shr, TrailingZeros, ToUint32, Xor32, Ushr, Len32, Inner, InnerRight, BorderRight, Pow2;
  }

  // ----- The low word -----

  /** The browser's path length never exceeds a word, and is one less below the sign bit. */
  lemma PathLength32Bound(a: int, b: int, e: nat)
    requires ToUint32(a) < Pow2(e) && 31 <= e <= 32
    ensures PathLength32(a, b) <= e
  {
    hide Len, Xor, OnesCount, Shr, Pow2, ToUint32;
    var s := Len32(Xor32(a, b));
    BorderFits(a, s, a, b);
    assert s % 32 == s;
    OnesAbove(ToUint32(a), s, e);
  }

  /** A size as a high part and a low word, and the last index below it. */
  lemma SizeSplit(m: nat)
    ensures m == m / TWO_32 * TWO_32 + ToUint32(m)
    ensures ToUint32(m) > 0 ==> ToUint32(m - 1) == ToUint32(m) - 1 && m - 1 == m / TWO_32 * TWO_32 + ToUint32(m - 1)
  {
  }

  /** The sizes of a proof agree but for the path length and the seed. */
  lemma ZerosOfSize(m: nat)
    requires ToUint32(m) > 0
    ensures TrailingZeros(m) == TrailingZeros(ToUint32(m))
  {
    hide Pow2, TrailingZeros, ToUint32;
    Pow2At30And31();
    SizeSplit(m);
    ZerosOfSplit(m / TWO_32, ToUint32(m), 32);
  }

  /** Above 2^32 no size with a low word is a power of two, and the browser never takes it for one. */
  lemma LargeIsNoPower(m: nat)
    requires m > TWO_32 && ToUint32(m) > 0
    ensures !IsPowerOfTwo(m) && !Omitted32(m)
  {
    hide Pow2, TrailingZeros;
    ZerosOfSize(m);
    ZerosBound(ToUint32(m));
  }

  /** From 2^31 on a power of two below 2^32 is 2^31, which 1 << 31 is not. */
  lemma SeedsAgree(m: nat)
    requires 0 < m < TWO_32
    ensures ToUint32(m) == m && (Omitted32(m) <==> IsPowerOfTwo(m) && m != TWO_31)
  {
    hide Pow2, TrailingZeros;
    Pow2At30And31();
    SmallWord(m);
    var t := TrailingZeros(m);
    ZerosBound(m);
    if t >= 32 {
      Pow2Monotonic(32, t);
    } else if t == 31 {
      TopShift();
    } else {
      SmallPowers(t);
      if m == TWO_31 {
        Pow2Monotonic(t, 30);
      }
    }
  }

  lemma TopShift()
    ensures Shl(1, 31) == -0x8000_0000
  {
    Pow2At30And31();
    hide Pow2;
  }

  // ----- Where the lengths differ -----

  /** Different high parts: Go follows the path past the 32nd bit. */
  lemma HighPartsDiffer(a: nat, b: nat)
    requires a / TWO_32 != b / TWO_32
    ensures PathLength(a, b) >= 33
  {
    hide Pow2, Xor, Len, Shr, OnesCount, ToUint32;
    Pow2At30And31();
    SizeSplit(a);
    SizeSplit(b);
    WordBound(a);
    WordBound(b);
    ShrOfSplit(a / TWO_32, ToUint32(a), 32);
    ShrOfSplit(b / TWO_32, ToUint32(b), 32);
    ShrOfXor(a, b, 32);
    var x := Xor(a / TWO_32, b / TWO_32);
    if x == 0 {
      XorZero(a / TWO_32, b / TWO_32);
    } else {
      LenShr(Xor(a, b), 32);
      LenOfPositive(x);
    }
  }

  lemma WordBound(x: int)
    ensures 0 <= ToUint32(x) < TWO_32
  {
  }

  lemma LenOfPositive(x: nat)
    requires x > 0
    ensures Len(x) > 0
  {
  }

  /** One high part, not zero: Go counts its ones and the browser does not. */
  lemma HighPartsShared(a: nat, b: nat)
    requires a / TWO_32 == b / TWO_32 > 0
    ensures PathLength(a, b) > PathLength32(a, b)
  {
    hide Pow2, Xor, Len, Shr, OnesCount, ToUint32, ToInt32;
    Pow2At30And31();
    var h, x, y := a / TWO_32, ToUint32(a), ToUint32(b);
    SizeSplit(a);
    SizeSplit(b);
    WordBound(a);
    WordBound(b);
    XorOfSplit(h, x, y, 32);
    XorBelow(x, y, 32);
    var d := Xor(x, y);
    LenBelow(d, 32);
    OnesOfShiftedSplit(h, x, 32, Len(d));
    OnesPositive(h);
    if d < TWO_31 {
      LenBelow(d, 31);
      SmallWord(d);
      assert Len(d) % 32 == Len(d);
    } else {
      SignBitSet(d);
      LenOfTop(d);
      PathLength32Bound(a, b, 32);
    }
  }

  /** A word with the sign bit is negative, so its bit length is read as 0. */
  lemma SignBitSet(d: nat)
    requires TWO_31 <= d < TWO_32
    ensures ToInt32(d) < 0
  {
  }

  lemma LenOfTop(d: nat)
    requires TWO_31 <= d < TWO_32
    ensures Len(d) == 32
  {
    hide Pow2, Len;
    Pow2At30And31();
    LenBounds(d);
    if Len(d) > 32 {
      Pow2Monotonic(32, Len(d) - 1);
    } else if Len(d) < 32 {
      Pow2Monotonic(Len(d), 31);
    }
  }

  /** The sign bit apart: Go's path has 32 hashes, and the browser sees no common prefix. */
  lemma SignBitsDiffer(a: nat, b: nat)
    requires a < TWO_31 <= b < TWO_32
    ensures Len(Xor(a, b)) == 32 && OnesCount(Shr(a, 32)) == 0 && PathLength(a, b) == 32
    ensures Len32(Xor32(a, b)) == 0 && Ushr(a, 0) == a && PathLength32(a, b) == OnesCount(a) <= 31
  {
    hide Pow2, Xor, Len, Shr, OnesCount, ToInt32;
    Pow2At30And31();
    SmallWord(a);
    SmallWord(b);
    var d := Xor(a, b);
    XorBelow(a, b, 32);
    TopBitOfXor(a, b);
    SignBitSet(d);
    LenOfTop(d);
    LenShr(a, 32);
    LenBelow(a, 31);
    LenZeroOnes(Shr(a, 32));
    OnesCountBound(a);
    ShiftByNone(a);
  }

  lemma LenZeroOnes(x: nat)
    requires Len(x) == 0
    ensures OnesCount(x) == 0
  {
  }

  lemma ShiftByNone(a: nat)
    requires a < TWO_32
    ensures Ushr(a, 0) == a
  {
  }

  lemma TopBitOfXor(a: nat, b: nat)
    requires a < TWO_31 <= b < TWO_32
    ensures Xor(a, b) >= TWO_31
  {
    hide Pow2, Xor, Len, Shr;
    Pow2At30And31();
    ShrOfSplit(0, a, 31);
    ShrOfSplit(1, b - TWO_31, 31);
    ShrOfXor(a, b, 31);
    if Xor(a, b) < TWO_31 {
      ShrOfSplit(0, Xor(a, b), 31);
      XorZero(0, 1);
    }
  }

  /** Outside SizesAgree the two verifiers want proofs of different lengths, but for an older size of
      2^31 within the word. */
  lemma LengthsDiffer(from: int, to: int)
    requires !SizesAgree(from, to) && ToUint32(from) != 0 && (from != TWO_31 || to > TWO_32)
    ensures GoLength(from, to) != BrowserLength(from, to)
  {
    hide Pow2, TrailingZeros, PathLength, PathLength32, ToUint32, Omitted32, IsPowerOfTwo;
    var m, n: nat := from, to;
    var a, b := m - 1, n - 1;
    ZerosOfSize(m);
    Pow2At30And31();
    if a / TWO_32 > 0 {
      WordBound(m);
      SizeSplit(m);
      LargeIsNoPower(m);
      if a / TWO_32 == b / TWO_32 {
        HighPartsShared(a, b);
      } else {
        HighPartsDiffer(a, b);
        WordBound(a);
        PathLength32Bound(a, b, 32);
      }
    } else if b / TWO_32 > 0 {
      HighPartsDiffer(a, b);
      SmallSize(m);
      PathLength32Bound(a, b, if a < TWO_31 then 31 else 32);
    } else {
      SignBitsDiffer(a, b);
      SeedsAgree(m);
    }
  }

  /** An older size within the word: its seed, and the word before it. */
  lemma SmallSize(m: nat)
    requires 0 < m <= TWO_32 && ToUint32(m) != 0
    ensures m < TWO_32 && ToUint32(m - 1) == m - 1 && (Omitted32(m) <==> IsPowerOfTwo(m) && m != TWO_31)
  {
    SeedsAgree(m);
  }

  // ----- Where the verdicts differ -----

  function EmptyLeaves(n: nat): (leaves: seq<Bytes>)
    ensures |leaves| == n
  {
    seq(n, i => [])
  }

  /** For all other sizes, but an older size of 2^31 within the word, the browser rejects every genuine
      proof, or loops for ever where the older size is a multiple of 2^32. */
  lemma GenuineRejected(sha: Sha, from: int, to: int, leaves: seq<Bytes>)
    requires !SizesAgree(from, to) && (from != TWO_31 || to > TWO_32) && |leaves| == to
    ensures var proof := ConsistencyProof(sha, leaves, from);
            var root1, root2 := Root(sha, leaves[..from]), Root(sha, leaves);
            Accepts(sha, from, to, proof, root1, root2) && !Accepts32(sha, from, to, proof, root1, root2)
  {
    hide Accepts, Accepts32, Root, ConsistencyProof, GoLength, BrowserLength, ToUint32;
    ConsistencyComplete(sha, leaves, from);
    var proof, root1, root2 := ConsistencyProof(sha, leaves, from), Root(sha, leaves[..from]), Root(sha, leaves);
    AcceptedLengths(sha, from, to, proof, root1, root2);
    if ToUint32(from) != 0 {
      LengthsDiffer(from, to);
    }
  }

  /** An older size of 2^31 and a newer one within the word: both want one hash. The browser takes it
      for the seed and accepts if it equals both roots; Go hashes it onto the older root. */
  lemma {:induction false} AtTheSignBit(sha: Sha, to: int, h: Digest, root1: Digest, root2: Digest)
    requires TWO_31 < to <= TWO_32
    ensures Accepts32(sha, TWO_31, to, [h], root1, root2) <==> h == root1 == root2
    ensures Accepts(sha, TWO_31, to, [h], root1, root2) <==> root2 == NodeHash(sha, root1, h)
  {
    hide Pow2, Len, Xor, OnesCount, Shr, TrailingZeros, NodeHash, ToUint32, ToInt32, Xor32, Ushr, Shl, Len32;
    TopSize(to);
    OneRightSibling(sha, root1, h);
    assert [h][1..] == [] && [h][0..] == [h] && [h][..1] == [h];
    assert SliceTo<Bytes>([], -31) == [] && SliceFrom<Bytes>([], -31) == [];
    assert BorderRight(sha, h, []) == h && BorderRight(sha, root1, []) == root1;
    var parent := NodeHash(sha, root1, h);
    assert BorderRight(sha, parent, []) == parent;
    assert InnerRight(sha, h, [], Ushr(TWO_31 - 1, 31)) == h && Inner(sha, h, [], Ushr(TWO_31 - 1, 31)) == h;
  }

  /** The numbers both verifiers read at 2^31. */
  lemma TopSize(to: int)
    requires TWO_31 < to <= TWO_32
    ensures ToUint32(TWO_31) == TWO_31 && TrailingZeros(TWO_31) == 31 && Pow2(31) == TWO_31 && !Omitted32(TWO_31)
    ensures Inner32(TWO_31, to) == -31 && Border32(TWO_31, to) == 31
    ensures DecompInclProof(TWO_31 - 1, to) == (32, 0) && Shr(TWO_31 - 1, 31) == 0
  {
    hide Pow2, Len, Xor, OnesCount, Shr, TrailingZeros, ToInt32, Xor32, Ushr, Shl;
    Pow2At30And31();
    Pow2IsPowerOfTwo(31);
    SmallWord(TWO_31);
    SeedsAgree(TWO_31);
    SignBitsDiffer(TWO_31 - 1, to - 1);
    OnesOfMask(31);
    ShrOfSplit(0, TWO_31 - 1, 31);
  }

  lemma {:induction false} OnesOfMask(e: nat)
    ensures OnesCount(Pow2(e) - 1) == e
  {
    if e > 0 {
      OnesOfMask(e - 1);
      assert (Pow2(e) - 1) / 2 == Pow2(e - 1) - 1 && (Pow2(e) - 1) % 2 == 1;
    }
  }

  /** Two words with the sign bit: their xor has none, and nothing else is lost. */
  lemma Rebuild32InTopHalf(sha: Sha, m: nat, n: nat, proof: seq<Bytes>, root1: Bytes)
    requires TWO_31 < m < n <= TWO_32 && |proof| > 0
    ensures ToUint32(m) == m && Rebuild32(sha, m, n, proof, root1) == Rebuild(sha, m, n, proof, root1)
  {
    hide Inner, InnerRight, BorderRight, Len, Xor, OnesCount, Shr, TrailingZeros, Pow2, Ushr, Shl, ToUint32, ToInt32;
    Pow2At30And31();
    SmallWord(m);
    SeedsAgree(m);
    TopHalfXor(m - 1, n - 1);
    ShiftBelowInner(m, n);
    SmallShift(m - 1, InnerProofSize(m - 1, n));
    SmallShift(m - 1, TrailingZeros(m));
    NoPowerInTopHalf(m);
    var inner, path := Inner32(m, n), proof[if Omitted32(m) then 0 else 1..];
    assert Border32(m, n) == DecompInclProof(m - 1, n).1 && inner == InnerProofSize(m - 1, n) - TrailingZeros(m);
    if inner <= |path| {
      SliceWithin(path, inner);
    }
  }

  lemma TopHalfXor(a: nat, b: nat)
    requires TWO_31 <= a < TWO_32 && TWO_31 <= b < TWO_32
    ensures Xor32(a, b) == Xor(a, b) && Len32(Xor32(a, b)) == Len(Xor(a, b)) <= 31
  {
    hide Pow2, Xor, Len, ToUint32, ToInt32;
    Pow2At30And31();
    SmallWord(a);
    SmallWord(b);
    XorOfSplit(1, a - TWO_31, b - TWO_31, 31);
    XorBelow(a - TWO_31, b - TWO_31, 31);
    SmallWord(Xor(a, b));
    LenBelow(Xor(a, b), 31);
  }

  lemma NoPowerInTopHalf(m: nat)
    requires TWO_31 < m < TWO_32
    ensures !IsPowerOfTwo(m) && m != Pow2(TrailingZeros(m))
  {
    hide Pow2, TrailingZeros;
    Pow2At30And31();
    var t := TrailingZeros(m);
    if t <= 31 {
      Pow2Monotonic(t, 31);
    } else {
      Pow2Monotonic(32, t);
    }
  }

  /** For sizes that agree the browser's verdict is the Go verdict, on every proof and all roots. */
  lemma AgreeOnSizes(sha: Sha, from: int, to: int, proof: seq<Bytes>, root1: Bytes, root2: Bytes)
    requires SizesAgree(from, to)
    ensures 0 < from < to ==> ToUint32(from) != 0
    ensures Accepts32(sha, from, to, proof, root1, root2) == Accepts(sha, from, to, proof, root1, root2)
  {
    hide Rebuild32, Rebuild, ToUint32;
    if 0 < from < to {
      SmallWord(from);
      if to <= TWO_31 {
        Accepts32IsAccepts(sha, from, to, proof, root1, root2);
      } else if |proof| > 0 {
        Rebuild32InTopHalf(sha, from, to, proof, root1);
      }
    }
  }

  /** Some proof on which the verdicts differ. */
  lemma DisagreeOnSizes(sha: Sha, from: int, to: int) returns (proof: seq<Bytes>, root1: Bytes, root2: Bytes)
    requires !SizesAgree(from, to)
    ensures Accepts(sha, from, to, proof, root1, root2) && !Accepts32(sha, from, to, proof, root1, root2)
  {
    hide Accepts, Accepts32, Root, ConsistencyProof, NodeHash;
    if from == TWO_31 && to <= TWO_32 {
      var zeros: Digest, ones: Digest := seq(DIGEST_SIZE, i => 0), seq(DIGEST_SIZE, i => 1);
      assert zeros[0] != ones[0];
      root1, root2, proof := zeros, NodeHash(sha, zeros, ones), [ones];
      AtTheSignBit(sha, to, ones, zeros, root2);
    } else {
      var leaves := EmptyLeaves(to);
      GenuineRejected(sha, from, to, leaves);
      proof, root1, root2 := ConsistencyProof(sha, leaves, from), Root(sha, leaves[..from]), Root(sha, leaves);
    }
  }

  /** SizesAgree is exact: for any hash function, the browser gives the Go verdict on every proof between
      two sizes if and only if it holds of them. */
  lemma {:induction false} SizesAgreeIff(sha: Sha, from: int, to: int)
    ensures SizesAgree(from, to) <==>
              forall proof, root1, root2 ::
                Accepts32(sha, from, to, proof, root1, root2) == Accepts(sha, from, to, proof, root1, root2)
  {
    hide Accepts, Accepts32;
    if SizesAgree(from, to) {
      forall proof, root1, root2
        ensures Accepts32(sha, from, to, proof, root1, root2) == Accepts(sha, from, to, proof, root1, root2)
      {
        AgreeOnSizes(sha, from, to, proof, root1, root2);
      }
    } else {
      var proof, root1, root2 := DisagreeOnSizes(sha, from, to);
    }
  }
}
