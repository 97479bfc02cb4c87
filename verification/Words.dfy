/** Unsigned 64-bit words, with the bitwise operators defined digit by digit on the value of the word.
    Every operator comes with the lemma that gives each bit of its result. */
module Words {

  const MODULUS: int := 0x1_0000_0000_0000_0000

  type Word = x: int | 0 <= x < 0x1_0000_0000_0000_0000

  function Pow2(n: nat): (r: nat)
    ensures r > 0
  {
    if n == 0 then 1 else 2 * Pow2(n - 1)
  }

  /** Bit `k` of `x`, counted from the least significant one. */
  predicate Bit(x: nat, k: nat) {
    if k == 0 then x % 2 == 1 else Bit(x / 2, k - 1)
  }

  function Digit(b: bool): nat {
    if b then 1 else 0
  }

  function And(x: nat, y: nat): (r: nat)
    ensures r <= x && r <= y
  {
    if x == 0 || y == 0 then 0 else 2 * And(x / 2, y / 2) + Digit(x % 2 == 1 && y % 2 == 1)
  }

  function Or(x: nat, y: nat): nat
    decreases x + y
  {
    if x == 0 then y else if y == 0 then x else 2 * Or(x / 2, y / 2) + Digit(x % 2 == 1 || y % 2 == 1)
  }

  function Not(x: Word): Word {
    MODULUS - 1 - x
  }

  function Shr(x: Word, s: nat): Word
    decreases s
  {
    if s == 0 then x else Shr(x / 2, s - 1)
  }

  function Shl(x: Word, s: nat): Word
    decreases s
  {
    if s == 0 then x else Shl((2 * x) % MODULUS, s - 1)
  }

  /** The source's `lowMask`: the `n` low bits set. */
  function LowMask(n: nat): Word
    requires n < 64
  {
    Pow2IsShl(n);
    (Shl(1, n) - 1) as Word
  }

  // ----- powers of two

  lemma {:induction false} Pow2Monotone(m: nat, n: nat)
    requires m <= n
    ensures Pow2(m) <= Pow2(n)
  {
    if m < n {
      Pow2Monotone(m, n - 1);
    }
  }

  lemma {:induction false} Pow2Sum(m: nat, n: nat)
    ensures Pow2(m + n) == Pow2(m) * Pow2(n)
  {
    if m > 0 {
      Pow2Sum(m - 1, n);
    }
  }

  lemma Pow2Is64()
    ensures Pow2(64) == MODULUS
  {
    assert Pow2(8) == 256 by {
      assert Pow2(4) == 16;
    }
    Pow2Sum(8, 8);
    assert Pow2(16) == 65536;
    Pow2Sum(16, 16);
    assert Pow2(32) == 0x1_0000_0000;
    Pow2Sum(32, 32);
  }

  lemma {:induction false} ShlIsTimes(x: Word, s: nat)
    requires x * Pow2(s) < MODULUS
    ensures Shl(x, s) == x * Pow2(s)
    decreases s
  {
    if s > 0 {
      Doubling(x, Pow2(s - 1));
      var y := 2 * x;
      assert y * Pow2(s - 1) < MODULUS;
      AtLeastOnce(y, Pow2(s - 1));
      assert y % MODULUS == y;
      ShlIsTimes(y, s - 1);
    }
  }

  lemma AtLeastOnce(y: nat, p: nat)
    requires p > 0
    ensures y <= y * p
  {
    MulMonotone(1, p, y);
  }

  lemma Doubling(x: int, p: int)
    ensures x * (2 * p) == (2 * x) * p
  {
  }

  lemma Pow2IsShl(n: nat)
    requires n < 64
    ensures Shl(1, n) == Pow2(n)
  {
    Pow2Is64();
    Pow2Monotone(n + 1, 64);
    ShlIsTimes(1, n);
  }

  lemma LowMaskValue(n: nat)
    requires n < 64
    ensures LowMask(n) == Pow2(n) - 1
  {
    Pow2IsShl(n);
  }

  // ----- the bits of each operator's result

  lemma BitAnd(x: nat, y: nat, k: nat)
    ensures Bit(And(x, y), k) == (Bit(x, k) && Bit(y, k))
  {
    if x == 0 || y == 0 {
      BitOfZero(k);
    } else if k > 0 {
      BitAnd(x / 2, y / 2, k - 1);
    }
  }

  lemma BitOr(x: nat, y: nat, k: nat)
    ensures Bit(Or(x, y), k) == (Bit(x, k) || Bit(y, k))
  {
    if x == 0 || y == 0 {
      BitOfZero(k);
    } else if k > 0 {
      BitOr(x / 2, y / 2, k - 1);
    }
  }

  lemma {:induction false} BitOfZero(k: nat)
    ensures !Bit(0, k)
  {
    if k > 0 {
      BitOfZero(k - 1);
    }
  }

  lemma {:induction false} BitComplement(x: nat, w: nat, k: nat)
    requires x < Pow2(w) && k < w
    ensures Bit(Pow2(w) - 1 - x, k) == !Bit(x, k)
  {
    assert (Pow2(w) - 1 - x) / 2 == Pow2(w - 1) - 1 - x / 2;
    if k > 0 {
      BitComplement(x / 2, w - 1, k - 1);
    }
  }

  lemma BitNot(x: Word, k: nat)
    requires k < 64
    ensures Bit(Not(x), k) == !Bit(x, k)
  {
    Pow2Is64();
    BitComplement(x, 64, k);
  }

  lemma {:induction false} BitShr(x: Word, s: nat, k: nat)
    ensures Bit(Shr(x, s), k) == Bit(x, k + s)
    decreases s
  {
    if s > 0 {
      BitShr(x / 2, s - 1, k);
    }
  }

  /** No bit at or above position `w` is set in a value below 2^w. */
  lemma {:induction false} HighBitsClear(x: nat, w: nat, k: nat)
    requires x < Pow2(w) && w <= k
    ensures !Bit(x, k)
  {
    if w == 0 {
      BitOfZero(k);
    } else {
      HighBitsClear(x / 2, w - 1, k - 1);
    }
  }

  lemma {:induction false} BitMod(x: nat, w: nat, k: nat)
    requires k < w
    ensures Bit(x % Pow2(w), k) == Bit(x, k)
  {
    ModHalf(x, w);
    if k > 0 {
      BitMod(x / 2, w - 1, k - 1);
    }
  }

  lemma ModHalf(x: nat, w: nat)
    requires w > 0
    ensures x % Pow2(w) % 2 == x % 2
    ensures x % Pow2(w) / 2 == (x / 2) % Pow2(w - 1)
  {
    var h := Pow2(w - 1);
    var a, m := x / (2 * h), x % (2 * h);
    assert x == a * (2 * h) + m;
    assert x == 2 * (a * h) + m;
    assert x % 2 == m % 2;
    assert x / 2 == a * h + m / 2;
    ModUnique(x / 2, h, a, m / 2);
  }

  lemma ModUnique(x: int, d: int, a: int, m: int)
    requires 0 <= m < d && x == a * d + m
    ensures x % d == m && x / d == a
  {
    var q, r := x / d, x % d;
    if q < a {
      MulMonotone(q + 1, a, d);
      assert false;
    } else if a < q {
      MulMonotone(a + 1, q, d);
      assert false;
    }
  }

  lemma MulMonotone(a: int, b: int, d: int)
    requires a <= b && 0 <= d
    ensures a * d <= b * d
  {
  }

  lemma {:induction false} BitShl(x: Word, s: nat, k: nat)
    requires k < 64
    ensures Bit(Shl(x, s), k) == (s <= k && Bit(x, k - s))
    decreases s
  {
    if s > 0 {
      var y := (2 * x) % MODULUS;
      BitShl(y, s - 1, k);
      Pow2Is64();
      if s - 1 <= k {
        BitMod(2 * x, 64, k - (s - 1));
      }
    }
  }

  lemma {:induction false} BitOnes(n: nat, k: nat)
    ensures Bit(Pow2(n) - 1, k) == (k < n)
  {
    if n == 0 {
      BitOfZero(k);
    } else if k > 0 {
      assert (Pow2(n) - 1) / 2 == Pow2(n - 1) - 1;
      BitOnes(n - 1, k - 1);
    }
  }

  lemma BitLowMask(n: nat, k: nat)
    requires n < 64
    ensures Bit(LowMask(n), k) == (k < n)
  {
    LowMaskValue(n);
    BitOnes(n, k);
  }

  // ----- a value is its bits

  lemma {:induction false} SameBits(x: nat, y: nat, w: nat)
    requires x < Pow2(w) && y < Pow2(w)
    requires forall k: nat :: k < w ==> Bit(x, k) == Bit(y, k)
    ensures x == y
  {
    if w > 0 {
      assert Bit(x, 0) == Bit(y, 0);
      forall k: nat | k < w - 1
        ensures Bit(x / 2, k) == Bit(y / 2, k)
      {
        assert Bit(x, k + 1) == Bit(y, k + 1);
      }
      SameBits(x / 2, y / 2, w - 1);
    }
  }

  lemma OrBound(x: nat, y: nat, w: nat)
    requires x < Pow2(w) && y < Pow2(w)
    ensures Or(x, y) < Pow2(w)
    decreases w
  {
    if w > 0 && x != 0 && y != 0 {
      OrBound(x / 2, y / 2, w - 1);
    }
  }

  function WordOr(x: Word, y: Word): (r: Word)
    ensures r == Or(x, y)
  {
    Pow2Is64();
    OrBound(x, y, 64);
    Or(x, y)
  }
}
