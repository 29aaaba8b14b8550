/** The browser verifiers of `web/src/verify.ts`: JavaScript numbers with 32-bit shifts and xors, and
    hashes as hexadecimal text. They give the Go verdicts for trees up to 2^30 leaves (inclusion) and
    2^31 leaves (consistency); beyond, some loops never stop, and `BrowserSizes` says where verdicts differ. */
module Browser {
  import opened Hashing
  import opened Bits
  import opened Words
  import opened Hex
  import opened Merkle
  import opened Consistency

  const TWO_31: nat := 0x8000_0000
  const TWO_30: nat := 0x4000_0000
  const TWO_32: nat := 0x1_0000_0000

  /** The result of a verifier that may throw on text it cannot decode, or loop for ever. */
  datatype Outcome = Verdict(ok: bool) | Throws | Hangs

  // ----- 32-bit operators -----

  function ToUint32(x: int): nat { x % TWO_32 }

  function ToInt32(x: int): int {
    if ToUint32(x) < TWO_31 then ToUint32(x) else ToUint32(x) - TWO_32
  }

  /** x << s. */
  function Shl(x: int, s: nat): int { ToInt32(ToUint32(x) * Pow2(s % 32)) }

  /** x >>> s. */
  function Ushr(x: int, s: nat): nat { Shr(ToUint32(x), s % 32) }

  /** x ^ y. */
  function Xor32(x: int, y: int): int { ToInt32(Xor(ToUint32(x), ToUint32(y))) }

  /** x & 1. */
  function LowBit(x: int): nat { ToUint32(x) % 2 }

  lemma Pow2At30And31()
    ensures Pow2(30) == TWO_30 && Pow2(31) == TWO_31 && Pow2(32) == TWO_32
  {
    assert Pow2(8) == 256;
    assert Pow2(16) == 65536;
    assert Pow2(24) == 0x100_0000;
  }

  lemma ToInt32IsWrap(x: int)
    ensures ToInt32(x) == Wrap(x, 32)
  {
    Pow2At30And31();
  }

  lemma SmallWord(x: int)
    requires 0 <= x < TWO_32
    ensures ToUint32(x) == x && LowBit(x) == x % 2 && (x < TWO_31 ==> ToInt32(x) == x)
  {
  }

  lemma SmallShift(x: int, s: nat)
    requires 0 <= x < TWO_32 && s < 32
    ensures Ushr(x, s) == Shr(x, s)
  {
    hide Shr, ToUint32;
    SmallWord(x);
    assert s % 32 == s;
  }

  /** Every result of >>> is an unsigned word. */
  lemma UshrIsWord(x: int, s: nat)
    ensures Ushr(x, s) < TWO_32
  {
    hide Shr;
    ShrShrinks(ToUint32(x), s % 32);
  }

  lemma {:induction false} XorBelow(a: nat, b: nat, e: nat)
    requires a < Pow2(e) && b < Pow2(e)
    ensures Xor(a, b) < Pow2(e)
  {
    if e > 0 && (a > 0 || b > 0) {
      XorBelow(a / 2, b / 2, e - 1);
    }
  }

  lemma Xor32IsXor(a: nat, b: nat)
    requires a < TWO_31 && b < TWO_31
    ensures Xor32(a, b) == Xor(a, b) < TWO_31
  {
    hide Pow2, Xor;
    Pow2At30And31();
    XorBelow(a, b, 31);
    SmallWord(a);
    SmallWord(b);
    SmallWord(Xor(a, b));
  }

  /** 1 << s, below the sign bit. */
  lemma SmallPowers(s: nat)
    requires s < 31
    ensures Shl(1, s) == Pow2(s) <= TWO_30
  {
    hide Pow2, ToUint32, ToInt32, LowBit;
    Pow2At30And31();
    Pow2Monotonic(s, 30);
    SmallWord(1);
    SmallWord(Pow2(s));
    assert s % 32 == s && 1 * Pow2(s) == Pow2(s);
  }

  // ----- The bit helpers -----

  /** x after t rounds of `x >>>= 1`. */
  function Halved(x: int, t: nat): int
    decreases t
  {
    if t == 0 then x else Halved(Ushr(x, 1), t - 1)
  }

  /** The loop of trailingZeros meets a one bit after some number of rounds. */
  ghost predicate ZerosLoopStops(x: int) {
    exists t: nat :: LowBit(Halved(x, t)) != 0
  }

  /** It does exactly when the low 32 bits are not all zero. */
  lemma ZerosLoopStopsIff(x: int)
    ensures ZerosLoopStops(x) <==> ToUint32(x) != 0
  {
    hide Halved, LowBit;
    if ToUint32(x) != 0 {
      MeetsOneBit(x);
    } else {
      forall t: nat
        ensures LowBit(Halved(x, t)) == 0
      {
        StaysZero(x, t);
      }
    }
  }

  lemma {:induction false} MeetsOneBit(x: int)
    requires ToUint32(x) != 0
    ensures LowBit(Halved(x, TrailingZeros(ToUint32(x)))) != 0
    decreases ToUint32(x)
  {
    hide Ushr, ToUint32;
    var y := ToUint32(x);
    if y % 2 == 0 {
      HalfOfWord(x);
      MeetsOneBit(Ushr(x, 1));
    }
  }

  lemma HalfOfWord(x: int)
    ensures Ushr(x, 1) == ToUint32(x) / 2 == ToUint32(Ushr(x, 1))
  {
    hide Shr;
    HalfShift(ToUint32(x));
    SmallWord(ToUint32(x) / 2);
  }

  lemma {:induction false} StaysZero(x: int, t: nat)
    requires ToUint32(x) == 0
    ensures LowBit(Halved(x, t)) == 0
    decreases t
  {
    hide Ushr;
    if t > 0 {
      HalfOfWord(x);
      StaysZero(Ushr(x, 1), t - 1);
    }
  }

  /** None when the loop never stops. */
  method TrailingZeros32(x: int) returns (n: Option<nat>)
    requires x >= 0
    ensures x == 0 ==> n == Some(0)
    ensures x > 0 ==> n == if ToUint32(x) == 0 then None else Some(TrailingZeros(ToUint32(x)))
    ensures x > 0 ==> (n.None? <==> !ZerosLoopStops(x))
  {
    hide ZerosLoopStops, Ushr, ToUint32;
    ZerosLoopStopsIff(x);
    if x == 0 {
      return Some(0);
    }
    if ToUint32(x) == 0 {
      return None;
    }
    var y, c := x, 0;
    while LowBit(y) == 0
      invariant ToUint32(y) > 0 && c + TrailingZeros(ToUint32(y)) == TrailingZeros(ToUint32(x))
      decreases ToUint32(y)
    {
      HalfOfWord(y);
      c := c + 1;
      y := Ushr(y, 1);
    }
    return Some(c);
  }

  lemma HalfShift(y: nat)
    ensures Shr(y, 1) == y / 2
  {
    assert Shr(y / 2, 0) == y / 2;
  }

  /** The bit length, and 0 for a negative word. */
  function Len32(x: int): nat { if x < 0 then 0 else Len(x) }

  method BitLen(x: int) returns (n: nat)
    ensures n == Len32(x)
  {
    n := 0;
    var y := x;
    while y > 0
      invariant n + Len32(y) == Len32(x)
      decreases y
    {
      n := n + 1;
      y := y / 2;
    }
  }

  method OnesCount32(x: int) returns (c: nat)
    requires 0 <= x < TWO_32
    ensures c == OnesCount(x)
  {
    c := 0;
    var y := x;
    while y > 0
      invariant 0 <= y < TWO_32 && c + OnesCount(y) == OnesCount(x)
      decreases y
    {
      hide ToUint32, Ushr, LowBit;
      SmallWord(y);
      SmallShift(y, 1);
      HalfShift(y);
      c := c + LowBit(y);
      y := Ushr(y, 1);
    }
  }

  /** k after t rounds of `k <<= 1`, starting from 1. */
  function Shifts(t: nat): int { if t == 0 then 1 else Shl(Shifts(t - 1), 1) }

  /** The guard `k < n` fails after some number of rounds. */
  ghost predicate SplitLoopStops32(n: int) {
    exists t: nat :: Shifts(t) >= n
  }

  lemma {:induction false} ShiftsAreDoubled(t: nat)
    ensures Shifts(t) == Doubled(32, t)
  {
    if t > 0 {
      ShiftsAreDoubled(t - 1);
      ShiftDoubles(Shifts(t - 1));
    }
  }

  lemma ShiftDoubles(x: int)
    ensures Shl(x, 1) == ToInt32(2 * x) == Wrap(2 * x, 32)
  {
    assert Pow2(1) == 2;
    assert (ToUint32(x) * 2) % TWO_32 == (2 * x) % TWO_32;
    hide Pow2;
    ToInt32IsWrap(2 * x);
  }

  /** The browser's split-point loop stops exactly for sizes up to 2^30. */
  lemma SplitLoopStops32Iff(n: int)
    ensures SplitLoopStops32(n) <==> n <= TWO_30
  {
    hide Shifts, Doubled, Pow2;
    Pow2At30And31();
    SplitLoopStopsIff(n, 32);
    if SplitLoopStops32(n) {
      var t: nat :| Shifts(t) >= n;
      ShiftsAreDoubled(t);
    }
    if SplitLoopStops(n, 32) {
      var t: nat :| Doubled(32, t) >= n;
      ShiftsAreDoubled(t);
    }
  }

  /** None when the loop never stops, which is exactly beyond 2^30. */
  method LargestPowerOfTwoLessThan32(n: int) returns (k: Option<nat>)
    requires 2 <= n
    ensures k == if n <= TWO_30 then Some(Split(n)) else None
    ensures k.None? <==> !SplitLoopStops32(n)
  {
    hide Pow2, Split, Ushr, ToUint32, SplitLoopStops32;
    SplitLoopStops32Iff(n);
    if n > TWO_30 {
      return None;
    }
    Pow2At30And31();
    var j := 1;
    ghost var e := 0;
    Pow2Zero();
    while j < n
      invariant j == Pow2(e) && e <= 30 && j <= TWO_30
      invariant e > 0 ==> Pow2(e - 1) < n
      decreases n - j
    {
      if e == 30 {
        assert false;
      }
      DoublePower(e);
      j := Shl(j, 1);
      e := e + 1;
    }
    DoublePower(e - 1);
    SplitIs(n, e - 1);
    SmallShift(j, 1);
    HalfShift(j);
    return Some(Ushr(j, 1));
  }

  lemma Pow2Zero()
    ensures Pow2(0) == 1
  {
  }

  lemma DoublePower(e: nat)
    requires e < 30
    ensures Pow2(e + 1) == 2 * Pow2(e) <= TWO_30 && Shl(Pow2(e), 1) == Pow2(e + 1)
  {
    hide Pow2, ToUint32, ToInt32, LowBit, Shl;
    Pow2At30And31();
    Pow2Monotonic(e + 1, 30);
    DoubleOf(e);
    ShiftDoubles(Pow2(e));
    SmallWord(Pow2(e + 1));
  }

  // ----- Hash chains -----

  method ChainInner32(sha: Sha, seed: Bytes, proof: seq<Bytes>, index: int) returns (acc: Bytes)
    requires 0 <= index < TWO_32 && |proof| <= 32
    ensures acc == Inner(sha, seed, proof, index)
  {
    acc := seed;
    for i := 0 to |proof|
      invariant Inner(sha, acc, proof[i..], Shr(index, i)) == Inner(sha, seed, proof, index)
    {
      hide Shr, Ushr, NodeHash;
      ShrStep(index, i);
      SmallShift(index, i);
      ShrShrinks(index, i);
      SmallWord(Shr(index, i));
      assert proof[i..][1..] == proof[i + 1..];
      if LowBit(Ushr(index, i)) == 0 {
        acc := NodeHash(sha, acc, proof[i]);
      } else {
        acc := NodeHash(sha, proof[i], acc);
      }
    }
  }

  method ChainInnerRight32(sha: Sha, seed: Bytes, proof: seq<Bytes>, index: int) returns (acc: Bytes)
    requires 0 <= index < TWO_32 && |proof| <= 32
    ensures acc == InnerRight(sha, seed, proof, index)
  {
    acc := seed;
    for i := 0 to |proof|
      invariant InnerRight(sha, acc, proof[i..], Shr(index, i)) == InnerRight(sha, seed, proof, index)
    {
      hide Shr, Ushr, NodeHash;
      ShrStep(index, i);
      SmallShift(index, i);
      ShrShrinks(index, i);
      SmallWord(Shr(index, i));
      assert proof[i..][1..] == proof[i + 1..];
      if LowBit(Ushr(index, i)) == 1 {
        acc := NodeHash(sha, proof[i], acc);
      }
    }
  }

  lemma {:induction false} ShrShrinks(x: nat, s: nat)
    ensures Shr(x, s) <= x
  {
    if s > 0 {
      ShrShrinks(x / 2, s - 1);
    }
  }

  // ----- The verifiers -----

  predicate AllHex(texts: seq<string>) {
    forall i :: 0 <= i < |texts| ==> IsHex(texts[i])
  }

  function FromAll(texts: seq<string>): (hashes: seq<Bytes>)
    requires AllHex(texts)
    ensures |hashes| == |texts|
  {
    seq(|texts|, i requires 0 <= i < |texts| => FromHex(texts[i]))
  }

  /** texts.map(hexToBytes), or None when some text does not decode. */
  method DecodeAll(texts: seq<string>) returns (hashes: Option<seq<Bytes>>)
    ensures hashes == if AllHex(texts) then Some(FromAll(texts)) else None
  {
    var r: seq<Bytes> := [];
    for i := 0 to |texts|
      invariant |r| == i && forall j :: 0 <= j < i ==> IsHex(texts[j]) && r[j] == FromHex(texts[j])
    {
      if !IsHex(texts[i]) {
        return None;
      }
      r := r + [FromHex(texts[i])];
    }
    assert r == FromAll(texts);
    return Some(r);
  }

  predicate AllOfLength64(texts: seq<string>) {
    forall i :: 0 <= i < |texts| ==> |texts[i]| == 64
  }

  lemma WidthsAgree(texts: seq<string>)
    requires AllHex(texts)
    ensures AllOfLength64(texts) <==> AllDigests(FromAll(texts))
  {
    var hashes := FromAll(texts);
    forall i | 0 <= i < |texts|
      ensures |texts[i]| == 64 <==> |hashes[i]| == DIGEST_SIZE
    {
      assert hashes[i] == FromHex(texts[i]);
    }
  }

  /** Text whose lowercase form is hexadecimal is itself hexadecimal. */
  lemma HexUpToCase(bytes: Bytes, s: string)
    requires ToHex(bytes) == Lower(s)
    ensures IsHex(s)
  {
    ToHexIsHex(bytes);
    forall i | 0 <= i < |s|
      ensures DigitValue(s[i]).Some?
    {
      assert DigitValue(ToHex(bytes)[i]).Some? && ToHex(bytes)[i] == LowerChar(s[i]);
    }
  }

  datatype Computed = Hash(value: Option<Bytes>) | NeverReturns

  /** The Go root or null; with a path to follow, sizes beyond 2^30 never get past their first split. */
  method ComputeRoot32(sha: Sha, leafHash: Bytes, m: int, n: int, path: seq<Bytes>) returns (r: Computed)
    requires 0 <= m < n && |leafHash| == DIGEST_SIZE && AllDigests(path)
    ensures r == if |path| > 0 && n > TWO_30 then NeverReturns else Hash(ComputeRoot(sha, leafHash, m, n, path))
    decreases n
  {
    hide Split, NodeHash, SplitLoopStops32;
    if n == 1 {
      return Hash(if |path| == 0 then Some(leafHash) else None);
    }
    if |path| == 0 {
      return Hash(None);
    }
    var sibling, rest := path[|path| - 1], path[..|path| - 1];
    var split := LargestPowerOfTwoLessThan32(n);
    if split.None? {
      return NeverReturns;
    }
    var k := split.value;
    if m < k {
      r := ComputeRoot32(sha, leafHash, m, k, rest);
      if r.Hash? && r.value.Some? {
        r := Hash(Some(NodeHash(sha, r.value.value, sibling)));
      }
    } else {
      r := ComputeRoot32(sha, leafHash, m - k, n - k, rest);
      if r.Hash? && r.value.Some? {
        r := Hash(Some(NodeHash(sha, sibling, r.value.value)));
      }
    }
  }

  /** The arguments on which verifyInclusion loops for ever: they pass every guard and decode, the path
      is not empty, and the tree has more than 2^30 leaves. */
  predicate InclusionHangs(leafHashHex: string, leafIndex: int, treeSize: int, auditPathHex: seq<string>) {
    && 0 <= leafIndex < treeSize && |leafHashHex| == 64 && AllOfLength64(auditPathHex)
    && IsHex(leafHashHex) && AllHex(auditPathHex) && |auditPathHex| > 0 && treeSize > TWO_30
  }

  /** For every size: it hangs exactly on InclusionHangs, else gives the Go verdict on hexadecimal
      arguments, and accepts nothing else. */
  method VerifyInclusion32(sha: Sha, leafHashHex: string, leafIndex: int, treeSize: int,
                           auditPathHex: seq<string>, rootHex: string) returns (out: Outcome)
    ensures out == Hangs <==> InclusionHangs(leafHashHex, leafIndex, treeSize, auditPathHex)
    ensures IsHex(leafHashHex) && AllHex(auditPathHex) && IsHex(rootHex) && out != Hangs ==>
              out == Verdict(VerifyInclusion(sha, FromHex(leafHashHex), leafIndex, treeSize,
                                             FromAll(auditPathHex), FromHex(rootHex)))
    ensures out == Verdict(true) ==> IsHex(leafHashHex) && AllHex(auditPathHex) && IsHex(rootHex)
    ensures out == Throws <==> 0 <= leafIndex < treeSize && |leafHashHex| == 64 && AllOfLength64(auditPathHex)
                               && !(IsHex(leafHashHex) && AllHex(auditPathHex))
  {
    if leafIndex < 0 || leafIndex >= treeSize {
      return Verdict(false);
    }
    if AllHex(auditPathHex) {
      WidthsAgree(auditPathHex);
    }
    if |leafHashHex| != 64 || !AllOfLength64(auditPathHex) {
      return Verdict(false);
    }
    if !IsHex(leafHashHex) {
      return Throws;
    }
    var path := DecodeAll(auditPathHex);
    if path.None? {
      return Throws;
    }
    var computed := ComputeRoot32(sha, FromHex(leafHashHex), leafIndex, treeSize, path.value);
    if computed.NeverReturns? {
      return Hangs;
    }
    var root := computed.value;
    out := Verdict(root.Some? && ToHex(root.value) == Lower(rootHex));
    if root.Some? {
      CompareRoots(root.value, rootHex);
    }
  }

  // ----- Consistency -----

  /** s.slice(0, end). */
  function SliceTo<T>(s: seq<T>, end: int): seq<T> {
    var e := if end < 0 then end + |s| else end;
    if e <= 0 then [] else if e >= |s| then s else s[..e]
  }

  /** s.slice(start). */
  function SliceFrom<T>(s: seq<T>, start: int): seq<T> {
    var b := if start < 0 then start + |s| else start;
    if b <= 0 then s else if b >= |s| then [] else s[b..]
  }

  /** The two parts always make up the list; a negative bound counts from its end, and bounds beyond an
      end stop there. */
  lemma SliceParts<T>(s: seq<T>, k: int)
    ensures SliceTo(s, k) + SliceFrom(s, k) == s
    ensures var from := if k < 0 then |s| + k else k;
            |SliceTo(s, k)| == if from < 0 then 0 else if from > |s| then |s| else from
  {
  }

  function Inner32(from: int, to: int): int
    requires ToUint32(from) != 0
  {
    Len32(Xor32(from - 1, to - 1)) - TrailingZeros(ToUint32(from))
  }

  function Border32(from: int, to: int): nat {
    OnesCount(Ushr(from - 1, Len32(Xor32(from - 1, to - 1))))
  }

  /** sizeFrom === 1 << shift. */
  predicate Omitted32(from: int)
    requires ToUint32(from) != 0
  {
    from == Shl(1, TrailingZeros(ToUint32(from)))
  }

  /** The roots the browser rebuilds, or None when the proof has the wrong length. */
  function Rebuild32(sha: Sha, from: int, to: int, proof: seq<Bytes>, root1: Bytes): Option<Roots>
    requires ToUint32(from) != 0 && |proof| > 0
  {
    var inner, start := Inner32(from, to), if Omitted32(from) then 0 else 1;
    if |proof| != start + inner + Border32(from, to) then None
    else
      var seed, path := if Omitted32(from) then root1 else proof[0], proof[start..];
      var mask := Ushr(from - 1, TrailingZeros(ToUint32(from)));
      Some(Roots(BorderRight(sha, InnerRight(sha, seed, SliceTo(path, inner), mask), SliceFrom(path, inner)),
                 BorderRight(sha, Inner(sha, seed, SliceTo(path, inner), mask), SliceFrom(path, inner))))
  }

  /** The browser's verdict on decoded arguments when its loops stop. */
  predicate Accepts32(sha: Sha, from: int, to: int, proof: seq<Bytes>, root1: Bytes, root2: Bytes) {
    && 0 < from <= to
    && |root1| == DIGEST_SIZE && |root2| == DIGEST_SIZE && AllDigests(proof)
    && if from == to then |proof| == 0 && root1 == root2
       else |proof| > 0 && ToUint32(from) != 0 && Rebuild32(sha, from, to, proof, root1) == Some(Roots(root1, root2))
  }

  /** Up to 2^31 leaves the 32-bit arithmetic rebuilds what Go rebuilds. */
  lemma Rebuild32IsRebuild(sha: Sha, m: nat, n: nat, proof: seq<Bytes>, root1: Bytes)
    requires 0 < m < n <= TWO_31 && |proof| > 0
    ensures ToUint32(m) == m && Rebuild32(sha, m, n, proof, root1) == Rebuild(sha, m, n, proof, root1)
  {
    hide Inner, InnerRight, BorderRight, Len, Xor, OnesCount, Shr, TrailingZeros, Pow2, Xor32, Ushr, Shl;
    SmallWord(m);
    Xor32IsXor(m - 1, n - 1);
    InnerAtMost31(m, n);
    SmallShift(m - 1, InnerProofSize(m - 1, n));
    ShiftBelowInner(m, n);
    SmallPowers(TrailingZeros(m));
    SmallShift(m - 1, TrailingZeros(m));
    var inner, path := Inner32(m, n), proof[if Omitted32(m) then 0 else 1..];
    assert Border32(m, n) == DecompInclProof(m - 1, n).1 && inner == InnerProofSize(m - 1, n) - TrailingZeros(m);
    if inner <= |path| {
      SliceWithin(path, inner);
    }
  }

  lemma SliceWithin<T>(s: seq<T>, k: nat)
    requires k <= |s|
    ensures SliceTo(s, k) == s[..k] && SliceFrom(s, k) == s[k..]
  {
  }

  /** So up to 2^31 leaves the verdicts are the same. `BrowserSizes.SizesAgreeIff` is exact. */
  lemma {:induction false} Accepts32IsAccepts(sha: Sha, from: int, to: int, proof: seq<Bytes>,
                                              root1: Bytes, root2: Bytes)
    requires to <= TWO_31
    ensures Accepts32(sha, from, to, proof, root1, root2) == Accepts(sha, from, to, proof, root1, root2)
  {
    hide Rebuild32, Rebuild, ToUint32;
    if 0 < from < to {
      SmallWord(from);
      if |proof| > 0 {
        Rebuild32IsRebuild(sha, from, to, proof, root1);
      }
    }
  }

  /** Beyond, a presented size counts only modulo 2^32: one hash that extends a one-leaf tree to two
      leaves is accepted as extending it to 2^32 + 2, where Go demands 33 hashes and rejects it. */
  lemma {:induction false} LargeSizeIsMisjudged(sha: Sha, root: Digest, h: Digest)
    ensures Accepts32(sha, 1, TWO_32 + 2, [h], root, NodeHash(sha, root, h))
    ensures !Accepts(sha, 1, TWO_32 + 2, [h], root, NodeHash(sha, root, h))
  {
    hide NodeHash;
    assert Accepts32(sha, 1, TWO_32 + 2, [h], root, NodeHash(sha, root, h)) by {
      BrowserReadsOne();
      hide Xor32, Shl, Ushr, ToUint32;
      assert [h][0..] == [h] && SliceTo([h], 1) == [h] && SliceFrom([h], 1) == [] && [h][1..] == [];
      OneRightSibling(sha, root, h);
    }
    assert !Accepts(sha, 1, TWO_32 + 2, [h], root, NodeHash(sha, root, h)) by {
      GoReadsThirtyThree();
      hide InnerProofSize, Shr, OnesCount;
    }
  }

  lemma OneRightSibling(sha: Sha, seed: Bytes, h: Bytes)
    ensures InnerRight(sha, seed, [h], 0) == seed && Inner(sha, seed, [h], 0) == NodeHash(sha, seed, h)
  {
    hide NodeHash;
    var parent := NodeHash(sha, seed, h);
    assert [h][1..] == [];
    assert Inner(sha, parent, [], 0) == parent && InnerRight(sha, seed, [], 0) == seed;
  }

  lemma BrowserReadsOne()
    ensures ToUint32(1) == 1 && Xor32(0, TWO_32 + 1) == 1 && Len(1) == 1 && TrailingZeros(1) == 0
    ensures Shl(1, 0) == 1 && Ushr(0, 1) == 0 && OnesCount(0) == 0 && Ushr(0, 0) == 0
  {
    assert ToUint32(TWO_32 + 1) == 1 && Xor(0, 1) == 1;
    assert Pow2(0) == 1;
  }

  lemma GoReadsThirtyThree()
    ensures InnerProofSize(0, TWO_32 + 2) == 33 && TrailingZeros(1) == 0
  {
    hide Xor, Len, Pow2;
    XorWithZero(TWO_32 + 1);
    Pow2At30And31();
    LenBounds(TWO_32 + 1);
    var l := Len(TWO_32 + 1);
    assert Pow2(33) == 2 * TWO_32 by {
      DoubleOf(32);
    }
    if l < 33 {
      Pow2Monotonic(l, 32);
    } else if l > 33 {
      Pow2Monotonic(33, l - 1);
    }
  }

  lemma DoubleOf(e: nat)
    ensures Pow2(e + 1) == 2 * Pow2(e)
  {
  }

  lemma {:induction false} XorWithZero(x: nat)
    ensures Xor(0, x) == x
  {
    if x > 0 {
      XorWithZero(x / 2);
    }
  }

  /** The arguments on which verifyConsistency loops for ever: they pass the guards before the bit
      helpers, and the older size is a multiple of 2^32. */
  predicate ConsistencyHangs(from: int, to: int, proofHex: seq<string>, rootFromHex: string, rootToHex: string) {
    && 0 < from < to && ToUint32(from) == 0 && |proofHex| > 0
    && |rootFromHex| == 64 && |rootToHex| == 64 && AllOfLength64(proofHex)
  }

  /** For every size: it hangs exactly on ConsistencyHangs, else decides Accepts32 on hexadecimal
      arguments, which is the Go verdict up to 2^31 leaves. Equal sizes are compared as text only, so
      only a proof between different sizes is certain to be hexadecimal when accepted. */
  method VerifyConsistency32(sha: Sha, sizeFrom: int, sizeTo: int, proofHex: seq<string>,
                             rootFromHex: string, rootToHex: string) returns (out: Outcome)
    ensures out == Hangs <==> ConsistencyHangs(sizeFrom, sizeTo, proofHex, rootFromHex, rootToHex)
    ensures AllHex(proofHex) && IsHex(rootFromHex) && IsHex(rootToHex) && out != Hangs ==>
              out == Verdict(Accepts32(sha, sizeFrom, sizeTo, FromAll(proofHex), FromHex(rootFromHex),
                                       FromHex(rootToHex)))
    ensures out == Verdict(true) && sizeFrom < sizeTo ==> AllHex(proofHex) && IsHex(rootFromHex) && IsHex(rootToHex)
  {
    hide Inner, InnerRight, BorderRight, OnesCount, TrailingZeros, IsHex, FromHex, Xor32, Ushr, Shl, Len32, ToUint32,
         ToHex, Lower, SliceTo, SliceFrom;
    if sizeFrom <= 0 || sizeFrom > sizeTo {
      return Verdict(false);
    }
    if AllHex(proofHex) {
      WidthsAgree(proofHex);
    }
    if |rootFromHex| != 64 || |rootToHex| != 64 {
      return Verdict(false);
    }
    if !AllOfLength64(proofHex) {
      return Verdict(false);
    }
    var rootFrom, rootTo := Lower(rootFromHex), Lower(rootToHex);
    if sizeFrom == sizeTo {
      if IsHex(rootFromHex) && IsHex(rootToHex) {
        FromHexRoundTrip(rootFromHex);
        SameHexSameBytes(FromHex(rootFromHex), rootToHex);
      }
      return Verdict(|proofHex| == 0 && rootFrom == rootTo);
    }
    if |proofHex| == 0 {
      return Verdict(false);
    }
    var inner0 := BitLen(Xor32(sizeFrom - 1, sizeTo - 1));
    UshrIsWord(sizeFrom - 1, inner0);
    var border := OnesCount32(Ushr(sizeFrom - 1, inner0));
    var zeros := TrailingZeros32(sizeFrom);
    if zeros.None? {
      return Hangs;
    }
    var shift := zeros.value;
    var inner: int := inner0;
    inner := inner - shift;

    var seed, start;
    if sizeFrom == Shl(1, shift) {
      if !IsHex(rootFromHex) {
        return Throws;
      }
      seed, start := FromHex(rootFromHex), 0;
    } else {
      if !IsHex(proofHex[0]) {
        return Throws;
      }
      seed, start := FromHex(proofHex[0]), 1;
    }
    if |proofHex| != start + inner + border {
      return Verdict(false);
    }
    var decoded := DecodeAll(proofHex[start..]);
    if decoded.None? {
      return Throws;
    }
    var proof := decoded.value;
    var mask := Ushr(sizeFrom - 1, shift);
    UshrIsWord(sizeFrom - 1, shift);
    BorderFits(sizeFrom - 1, inner0, sizeFrom - 1, sizeTo - 1);
    SliceFits(proof, inner, border);
    var innerProof, borderProof := SliceTo(proof, inner), SliceFrom(proof, inner);
    var hash1 := ChainInnerRight32(sha, seed, innerProof, mask);
    hash1 := ChainBorderRight(sha, hash1, borderProof);
    var hash2 := ChainInner32(sha, seed, innerProof, mask);
    hash2 := ChainBorderRight(sha, hash2, borderProof);
    out := Verdict(ToHex(hash1) == rootFrom && ToHex(hash2) == rootTo);
    WholeProofIsHex(proofHex, start, seed);
    CompareRoots(hash1, rootFromHex);
    CompareRoots(hash2, rootToHex);
  }

  /** Neither length exceeds 32. */
  lemma BorderFits(x: int, s: nat, a: int, b: int)
    requires s == Len32(Xor32(a, b))
    ensures OnesCount(Ushr(x, s)) <= 32 && s <= 31
  {
    hide Len, OnesCount, Xor, Shr, Pow2;
    UshrIsWord(x, s);
    OnesCountBound(Ushr(x, s));
    Pow2At30And31();
    LenBelow(Ushr(x, s), 32);
    if Xor32(a, b) >= 0 {
      LenBelow(Xor32(a, b), 31);
    }
  }

  lemma LenBelow(x: nat, e: nat)
    requires x < Pow2(e)
    ensures Len(x) <= e
  {
    assert x == 0 ==> Len(x) == 0;
    hide Pow2, Len;
    var l := Len(x);
    if x > 0 && l > e {
      LenBounds(x);
      Pow2Monotonic(e, l - 1);
    }
  }

  lemma SliceFits<T>(s: seq<T>, inner: int, border: nat)
    requires |s| == inner + border && inner <= 31 && border <= 32
    ensures |SliceTo(s, inner)| <= 32
  {
  }

  lemma CompareRoots(hash: Bytes, text: string)
    ensures ToHex(hash) == Lower(text) <==> IsHex(text) && FromHex(text) == hash
  {
    if ToHex(hash) == Lower(text) {
      HexUpToCase(hash, text);
    }
    if IsHex(text) {
      SameHexSameBytes(hash, text);
    }
  }

  /** The decoded tail, after the seed when the proof carries one. */
  lemma WholeProofIsHex(texts: seq<string>, start: nat, seed: Bytes)
    requires start <= 1 && start <= |texts| && AllHex(texts[start..])
    requires start == 1 ==> IsHex(texts[0]) && FromHex(texts[0]) == seed
    ensures AllHex(texts) && FromAll(texts)[start..] == FromAll(texts[start..])
    ensures start == 1 ==> FromAll(texts)[0] == seed
  {
    hide IsHex, FromHex;
    forall i | 0 <= i < |texts|
      ensures IsHex(texts[i])
    {
      if i >= start {
        assert texts[i] == texts[start..][i - start];
      }
    }
  }

  lemma InnerAtMost31(m: nat, n: nat)
    requires 0 < m < n <= TWO_31
    ensures InnerProofSize(m - 1, n) <= 31
  {
    hide Pow2, Xor, Len;
    Pow2At30And31();
    Xor32IsXor(m - 1, n - 1);
    var x := Xor(m - 1, n - 1);
    ShiftBelowInner(m, n);
    if InnerProofSize(m - 1, n) > 31 {
      LenPositive(x);
      LenBounds(x);
      Pow2Monotonic(31, Len(x) - 1);
    }
  }

  lemma LenPositive(x: nat)
    requires Len(x) > 0
    ensures x > 0
  {
  }
}
