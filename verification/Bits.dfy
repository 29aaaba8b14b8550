/** The bit operations of Go's `math/bits` and of the shift operators, on natural numbers. */
module Bits {

  function Pow2(e: nat): (r: nat)
    ensures r >= 1
  {
    if e == 0 then 1 else 2 * Pow2(e - 1)
  }

  /** bits.Len64: the number of bits needed to write x. */
  function Len(x: nat): nat {
    if x == 0 then 0 else 1 + Len(x / 2)
  }

  /** bits.OnesCount64. */
  function OnesCount(x: nat): nat {
    if x == 0 then 0 else x % 2 + OnesCount(x / 2)
  }

  /** bits.TrailingZeros64, for a positive argument. */
  function TrailingZeros(x: nat): nat
    requires x > 0
  {
    if x % 2 == 1 then 0 else 1 + TrailingZeros(x / 2)
  }

  function Xor(a: nat, b: nat): nat {
    if a == 0 && b == 0 then 0
    else 2 * Xor(a / 2, b / 2) + (if a % 2 == b % 2 then 0 else 1)
  }

  /** x >> s. */
  function Shr(x: nat, s: nat): nat {
    if s == 0 then x else Shr(x / 2, s - 1)
  }

  /** x is a power of two, tested as the verifiers test it. */
  predicate IsPowerOfTwo(x: nat) {
    x > 0 && x == Pow2(TrailingZeros(x))
  }

  lemma Pow2Monotonic(a: nat, b: nat)
    requires a <= b
    ensures Pow2(a) <= Pow2(b)
  {
  }

  lemma {:induction false} LenBounds(x: nat)
    requires x > 0
    ensures Pow2(Len(x) - 1) <= x < Pow2(Len(x))
  {
    if x > 1 {
      LenBounds(x / 2);
    }
  }

  lemma {:induction false} LenMonotonic(x: nat, y: nat)
    requires x <= y
    ensures Len(x) <= Len(y)
  {
    if x > 0 {
      LenMonotonic(x / 2, y / 2);
    }
  }

  lemma {:induction false} LenPow2(e: nat)
    ensures Len(Pow2(e)) == e + 1
  {
    if e > 0 {
      LenPow2(e - 1);
    }
  }

  lemma {:induction false} OnesCountBound(x: nat)
    ensures OnesCount(x) <= Len(x)
  {
    if x > 0 {
      OnesCountBound(x / 2);
    }
  }

  lemma {:induction false} LenShr(x: nat, s: nat)
    ensures Len(Shr(x, s)) == if Len(x) >= s then Len(x) - s else 0
  {
    if s > 0 {
      LenShr(x / 2, s - 1);
    }
  }

  lemma {:induction false} ShrZero(s: nat)
    ensures Shr(0, s) == 0
  {
    if s > 0 {
      ShrZero(s - 1);
    }
  }

  lemma {:induction false} ShrStep(x: nat, s: nat)
    ensures Shr(x, s + 1) == Shr(x, s) / 2
  {
    if s > 0 {
      ShrStep(x / 2, s - 1);
    }
  }

  /** The xor of two numbers has as many bits as the position where they start to differ. */
  lemma XorLen(a: nat, b: nat)
    ensures Len(Xor(a, b)) == if a == b then 0 else 1 + Len(Xor(a / 2, b / 2))
  {
    if a == b {
      XorSame(a);
    } else {
      var x, h := Xor(a, b), Xor(a / 2, b / 2);
      if x == 0 {
        XorZero(a, b);
      }
      assert x == 2 * h || x == 2 * h + 1;
      assert x / 2 == h;
    }
  }

  lemma {:induction false} XorSame(a: nat)
    ensures Xor(a, a) == 0
  {
    if a > 0 {
      XorSame(a / 2);
    }
  }

  lemma {:induction false} XorZero(a: nat, b: nat)
    requires Xor(a, b) == 0
    ensures a == b
  {
    if a != 0 || b != 0 {
      XorZero(a / 2, b / 2);
    }
  }

  /** A number strictly between 2^e and 2^(e+1) is not a power of two. */
  lemma NotPowerOfTwo(e: nat, m: nat)
    requires Pow2(e) < m < 2 * Pow2(e)
    ensures !IsPowerOfTwo(m)
  {
    if IsPowerOfTwo(m) {
      var t := TrailingZeros(m);
      if t <= e {
        Pow2Monotonic(t, e);
      } else {
        Pow2Monotonic(e + 1, t);
      }
    }
  }

  lemma {:induction false} Pow2IsPowerOfTwo(e: nat)
    ensures IsPowerOfTwo(Pow2(e)) && TrailingZeros(Pow2(e)) == e
  {
    if e > 0 {
      Pow2IsPowerOfTwo(e - 1);
    }
  }
}
