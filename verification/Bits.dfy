/** Non-negative integers read as bit strings, the way the code uses `bigint`. */
module Bits {

  /** `2^n`. */
  function Pow2(n: nat): (p: nat)
    ensures p > 0
  {
    if n == 0 then 1 else 2 * Pow2(n - 1)
  }

  /** `x >> k`. */
  function Shr(x: nat, k: nat): nat {
    if k == 0 then x else Shr(x / 2, k - 1)
  }

  /** `(x >> k) & 1`, as a truth value. */
  predicate Bit(x: nat, k: nat) {
    if k == 0 then x % 2 == 1 else Bit(x / 2, k - 1)
  }

  /** The low `n` bits, in two's complement where negative. */
  function LowPart(i: int, n: nat): (low: nat)
    ensures low < Pow2(n)
    ensures 0 <= i < Pow2(n) ==> low == i
    decreases n, if i < 0 then -i else i
  {
    if n == 0 then 0 else 2 * LowPart(i / 2, n - 1) + i % 2
  }

  /** `x | 2^k`. */
  function SetBit(x: nat, k: nat): nat {
    if k == 0 then x / 2 * 2 + 1 else 2 * SetBit(x / 2, k - 1) + x % 2
  }

  /** `x & ~2^k`; the code writes `x ^ 2^k` where the bit is known to be set. */
  function ClearBit(x: nat, k: nat): nat {
    if k == 0 then x / 2 * 2 else 2 * ClearBit(x / 2, k - 1) + x % 2
  }

  lemma {:induction false} BitShr(x: nat, s: nat, k: nat)
    ensures Bit(Shr(x, s), k) == Bit(x, s + k)
  {
    if s > 0 { BitShr(x / 2, s - 1, k); }
  }

  lemma {:induction false} ShrOne(x: nat, k: nat)
    ensures Shr(x, k) / 2 == Shr(x, k + 1)
  {
    if k > 0 { ShrOne(x / 2, k - 1); }
  }

  lemma Halves(a: nat, low: nat)
    requires low < 2
    ensures (2 * a + low) / 2 == a && (2 * a + low) % 2 == low
  {
  }

  lemma {:induction false} BitSetBit(x: nat, k: nat, j: nat)
    ensures Bit(SetBit(x, k), j) == (j == k || Bit(x, j))
  {
    if k > 0 { Halves(SetBit(x / 2, k - 1), x % 2); }
    if k > 0 && j > 0 {
      BitSetBit(x / 2, k - 1, j - 1);
    } else if j > 0 {
      assert SetBit(x, k) / 2 == x / 2;
    }
  }

  /** Bit `k` has the weight `2^k`. */
  lemma {:induction false} SetBitAdds(x: nat, k: nat)
    requires !Bit(x, k)
    ensures SetBit(x, k) == x + Pow2(k)
  {
    if k > 0 { SetBitAdds(x / 2, k - 1); }
  }

  /** The top bit of an `n + 1`-bit number tells whether it is `2^n` or more. */
  lemma {:induction false} TopBit(x: nat, n: nat)
    requires x < Pow2(n + 1)
    ensures Bit(x, n) <==> x >= Pow2(n)
  {
    if n > 0 { TopBit(x / 2, n - 1); }
  }

  lemma {:induction false} BitClearBit(x: nat, k: nat, j: nat)
    ensures Bit(ClearBit(x, k), j) == (j != k && Bit(x, j))
  {
    if k > 0 { Halves(ClearBit(x / 2, k - 1), x % 2); }
    if k > 0 && j > 0 {
      BitClearBit(x / 2, k - 1, j - 1);
    } else if j > 0 {
      assert ClearBit(x, k) / 2 == x / 2;
    }
  }

  lemma {:induction false} SetBitBound(x: nat, k: nat, n: nat)
    requires x < Pow2(n) && k < n
    ensures SetBit(x, k) < Pow2(n)
  {
    if k > 0 { SetBitBound(x / 2, k - 1, n - 1); }
  }

  lemma {:induction false} BitZero(k: nat)
    ensures !Bit(0, k)
  {
    if k > 0 { BitZero(k - 1); }
  }

  /** Bits at or above the width of a number are clear. */
  lemma {:induction false} BitAboveWidth(x: nat, n: nat, k: nat)
    requires x < Pow2(n) && n <= k
    ensures !Bit(x, k)
  {
    if n == 0 {
      BitZero(k);
    } else {
      BitAboveWidth(x / 2, n - 1, k - 1);
    }
  }

  /** Numbers below `2^n` with the same low `n` bits are equal. */
  lemma {:induction false} BitExtensional(x: nat, y: nat, n: nat)
    requires x < Pow2(n) && y < Pow2(n)
    requires forall k :: 0 <= k < n ==> Bit(x, k) == Bit(y, k)
    ensures x == y
  {
    if n > 0 {
      assert Bit(x, 0) == Bit(y, 0);
      forall k | 0 <= k < n - 1 ensures Bit(x / 2, k) == Bit(y / 2, k) {
        assert Bit(x, k + 1) == Bit(y, k + 1);
      }
      BitExtensional(x / 2, y / 2, n - 1);
    }
  }

  /** Any two numbers with the same bits are equal. */
  lemma {:induction false} BitsDetermine(x: nat, y: nat)
    requires forall k: nat :: Bit(x, k) == Bit(y, k)
    ensures x == y
  {
    if x == 0 && y == 0 { return; }
    assert Bit(x, 0) == Bit(y, 0);
    forall k: nat ensures Bit(x / 2, k) == Bit(y / 2, k) {
      assert Bit(x, k + 1) == Bit(y, k + 1);
    }
    BitsDetermine(x / 2, y / 2);
  }

  /** A sentinel `2^n` above an `n`-bit number leaves its low bits alone. */
  lemma {:induction false} BitBelowSentinel(x: nat, n: nat, k: nat)
    requires k < n
    ensures Bit(x + Pow2(n), k) == Bit(x, k)
  {
    if k > 0 {
      assert (x + Pow2(n)) / 2 == x / 2 + Pow2(n - 1);
      BitBelowSentinel(x / 2, n - 1, k - 1);
    }
  }

  /** Shifting a sentinelled number keeps the sentinel on top: the size tells the shift. */
  lemma {:induction false} ShrSentinelRange(x: nat, n: nat, s: nat)
    requires x < Pow2(n) && s <= n
    ensures Pow2(n - s) <= Shr(x + Pow2(n), s) < 2 * Pow2(n - s)
  {
    if s > 0 {
      assert (x + Pow2(n)) / 2 == x / 2 + Pow2(n - 1);
      ShrSentinelRange(x / 2, n - 1, s - 1);
    }
  }

  lemma {:induction false} Pow2Monotone(m: nat, n: nat)
    requires m < n
    ensures 2 * Pow2(m) <= Pow2(n)
  {
    if m + 1 < n { Pow2Monotone(m, n - 1); }
  }
}
