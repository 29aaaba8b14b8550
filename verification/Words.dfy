/** Two's-complement words of w bits, and how far the split-point loop `k <<= 1` reaches in them. */
module Words {
  import opened Bits

  /** x reduced to a signed w-bit word. */
  function Wrap(x: int, w: nat): int
    requires w > 0
  {
    var r := x % Pow2(w);
    if r < Pow2(w - 1) then r else r - Pow2(w)
  }

  /** The value of k after t rounds of `k <<= 1`, starting from 1, in w-bit words. */
  function Doubled(w: nat, t: nat): int
    requires w > 0
  {
    if t == 0 then 1 else Wrap(2 * Doubled(w, t - 1), w)
  }

  /** The loop guard `k < n` fails after some number of rounds. */
  ghost predicate SplitLoopStops(n: int, w: nat)
    requires w > 0
  {
    exists t: nat :: Doubled(w, t) >= n
  }

  /** Words that fit keep their value, half the range turns negative, and twice that is 0. */
  lemma WrapValues(x: int, w: nat)
    requires w >= 1
    ensures 0 <= x < Pow2(w - 1) ==> Wrap(x, w) == x
    ensures x == Pow2(w - 1) ==> Wrap(x, w) == -x
    ensures x == -1 * Pow2(w) ==> Wrap(x, w) == 0
  {
    assert Pow2(w) == 2 * Pow2(w - 1);
    if 0 <= x < Pow2(w) {
      ModOfSmall(x, Pow2(w));
    } else if x == -1 * Pow2(w) {
      ModOfSmall(0, Pow2(w));
    }
  }

  lemma {:induction false} DoubledValue(w: nat, t: nat)
    requires w >= 2
    ensures t < w - 1 ==> Doubled(w, t) == Pow2(t)
    ensures t == w - 1 ==> Doubled(w, t) == -1 * Pow2(w - 1)
    ensures t >= w ==> Doubled(w, t) == 0
  {
    hide Wrap;
    if t > 0 {
      DoubledValue(w, t - 1);
      assert Pow2(w) == 2 * Pow2(w - 1);
      WrapValues(2 * Doubled(w, t - 1), w);
      if t < w - 1 {
        Pow2Monotonic(t + 1, w - 1);
      }
    }
  }

  lemma ModOfSmall(x: int, d: int)
    requires 0 <= x < d
    ensures x % d == x && (x - d) % d == x
  {
    assert x - d == -1 * d + x;
  }

  /** The split-point loop stops exactly for sizes up to a quarter of the word's range: 2^30 for the
      browser's 32-bit shift, 2^62 for Go's 64-bit int. Beyond that k overflows to 0 and stays there. */
  lemma SplitLoopStopsIff(n: int, w: nat)
    requires w >= 2
    ensures SplitLoopStops(n, w) <==> n <= Pow2(w - 2)
  {
    if n <= Pow2(w - 2) {
      DoubledValue(w, w - 2);
      assert Doubled(w, w - 2) >= n;
    } else {
      forall t: nat
        ensures Doubled(w, t) < n
      {
        DoubledValue(w, t);
        if t <= w - 2 {
          Pow2Monotonic(t, w - 2);
        }
      }
    }
  }
}
