/** The 32-bit unsigned arithmetic of the program: shifts, `&` and `|`, defined bit by bit on
    natural numbers, and what they mean arithmetically. */
module Bits {

  const TWO32 := 0x1_0000_0000

  type uint32 = x: int | 0 <= x < 0x1_0000_0000

  function Pow2(k: nat): (p: nat)
    ensures p >= 1
  {
    if k == 0 then 1 else 2 * Pow2(k - 1)
  }

  lemma Pow2Values()
    ensures Pow2(4) == 16 && Pow2(5) == 32 && Pow2(6) == 64
    ensures Pow2(8) == 0x100 && Pow2(16) == 0x1_0000 && Pow2(24) == 0x100_0000
    ensures Pow2(31) == 0x8000_0000 && Pow2(32) == TWO32
  {
    assert Pow2(12) == 0x1000;
    assert Pow2(20) == 0x10_0000;
    assert Pow2(28) == 0x1000_0000;
  }

  lemma {:induction false} Pow2Sum(j: nat, k: nat)
    ensures Pow2(j + k) == Pow2(j) * Pow2(k)
  {
    if j > 0 {
      Pow2Sum(j - 1, k);
      assert Pow2(j + k) == 2 * (Pow2(j - 1) * Pow2(k)) == Pow2(j) * Pow2(k);
    }
  }

  function BitAnd(a: nat, b: nat): (r: nat)
    ensures r <= a && r <= b
  {
    if a == 0 || b == 0 then 0
    else 2 * BitAnd(a / 2, b / 2) + (if a % 2 == 1 && b % 2 == 1 then 1 else 0)
  }

  function BitOr(a: nat, b: nat): (r: nat)
    ensures r >= a && r >= b && r <= a + b
  {
    if a == 0 && b == 0 then 0
    else 2 * BitOr(a / 2, b / 2) + (if a % 2 == 1 || b % 2 == 1 then 1 else 0)
  }

  /** `a << k` on a 32-bit word: what leaves at the top is lost. */
  function Shl32(a: nat, k: nat): (r: uint32) {
    a * Pow2(k) % TWO32
  }

  lemma DivNat(a: nat, m: nat)
    requires m > 0
    ensures a / m >= 0
  {
  }

  /** `a >> k` */
  function Shr(a: nat, k: nat): (r: nat) {
    DivNat(a, Pow2(k));
    a / Pow2(k)
  }

  lemma ModTwice(a: nat, m: nat)
    requires m > 0
    ensures a % (2 * m) == 2 * ((a / 2) % m) + a % 2
  {
    var q, r := (a / 2) / m, (a / 2) % m;
    assert a / 2 == q * m + r;
    assert a == 2 * (a / 2) + a % 2;
    assert a == (2 * m) * q + (2 * r + a % 2);
    DivModUnique(a, 2 * m, q, 2 * r + a % 2);
  }

  lemma MultipleBound(m: nat, x: int)
    ensures x == 0 || m * x >= m || m * x <= 0 - m
  {
    if x >= 1 {
      assert m * x == m + m * (x - 1);
    } else if x <= -1 {
      assert m * x == 0 - m - m * (-x - 1);
    }
  }

  lemma DivModUnique(a: int, m: nat, q: int, r: int)
    requires m > 0 && a == m * q + r && 0 <= r < m
    ensures a / m == q && a % m == r
  {
    var q', r' := a / m, a % m;
    assert m * (q - q') == r' - r by {
      assert m * (q - q') == m * q - m * q';
    }
    MultipleBound(m, q - q');
  }

  /** The number made of the k low bits of `a`. */
  function LowBits(a: nat, k: nat): (r: nat)
    ensures r <= a
  {
    if k == 0 then 0 else 2 * LowBits(a / 2, k - 1) + a % 2
  }

  lemma {:induction false} LowBitsIsMod(a: nat, k: nat)
    ensures LowBits(a, k) == a % Pow2(k)
  {
    if k > 0 {
      LowBitsIsMod(a / 2, k - 1);
      ModTwice(a, Pow2(k - 1));
    }
  }

  lemma {:induction false} LowBitsAll(a: nat, k: nat)
    requires a < Pow2(k)
    ensures LowBits(a, k) == a
  {
    if k > 0 {
      LowBitsAll(a / 2, k - 1);
    }
  }

  lemma AndStep(a: nat, half: nat, bit: nat)
    requires bit < 2
    ensures BitAnd(a, 2 * half + bit) == 2 * BitAnd(a / 2, half) + (if a % 2 == 1 && bit == 1 then 1 else 0)
  {
    var b := 2 * half + bit;
    assert b / 2 == half && b % 2 == bit;
    if a == 0 {
      assert BitAnd(a, b) == 0 && BitAnd(0, half) == 0;
    } else if b == 0 {
      assert BitAnd(a, b) == 0 && BitAnd(a / 2, 0) == 0;
    }
  }

  lemma AndEven(a: nat, half: nat)
    ensures BitAnd(a, 2 * half) == 2 * BitAnd(a / 2, half)
  {
    hide BitAnd;
    AndStep(a, half, 0);
  }

  lemma AndOdd(a: nat, half: nat)
    ensures BitAnd(a, 2 * half + 1) == 2 * BitAnd(a / 2, half) + a % 2
  {
    hide BitAnd;
    AndStep(a, half, 1);
  }

  lemma {:induction false} AndLow(a: nat, k: nat)
    ensures BitAnd(a, Pow2(k) - 1) == LowBits(a, k)
  {
    hide BitAnd;
    if k == 0 {
      AndNothing(a);
    } else {
      AndLow(a / 2, k - 1);
      AndOdd(a, Pow2(k - 1) - 1);
    }
  }

  lemma AndNothing(a: nat)
    ensures BitAnd(a, 0) == 0
  {
  }

  /** Masking with the k low bits keeps the remainder modulo 2^k. */
  lemma AndLowMask(a: nat, k: nat)
    ensures BitAnd(a, Pow2(k) - 1) == a % Pow2(k)
  {
    AndLow(a, k);
    LowBitsIsMod(a, k);
  }

  lemma {:induction false} Pow2Monotone(j: nat, k: nat)
    requires j <= k
    ensures Pow2(j) <= Pow2(k)
    decreases k
  {
    if j < k {
      Pow2Monotone(j, k - 1);
    }
  }

  lemma {:induction false} AndHigh(a: nat, k: nat, n: nat)
    requires k <= n && a < Pow2(n) && Pow2(k) <= Pow2(n)
    ensures BitAnd(a, Pow2(n) - Pow2(k)) + LowBits(a, k) == a
    decreases k
  {
    hide BitAnd;
    if k == 0 {
      AndLow(a, n);
      LowBitsAll(a, n);
    } else {
      Pow2Monotone(k - 1, n - 1);
      AndHigh(a / 2, k - 1, n - 1);
      AndEven(a, Pow2(n - 1) - Pow2(k - 1));
    }
  }

  /** Masking with the bits k..n-1 of an n-bit number rounds it down to a multiple of 2^k. */
  lemma AndHighMask(a: nat, k: nat, n: nat)
    requires k <= n && a < Pow2(n)
    ensures Pow2(k) <= Pow2(n)
    ensures BitAnd(a, Pow2(n) - Pow2(k)) == a - a % Pow2(k)
  {
    Pow2Monotone(k, n);
    AndHigh(a, k, n);
    LowBitsIsMod(a, k);
  }

  /** Or-ing a multiple of 2^k with a number below 2^k adds them. */
  lemma {:induction false} OrDisjoint(high: nat, k: nat, low: nat)
    requires low < Pow2(k)
    ensures BitOr(high * Pow2(k), low) == high * Pow2(k) + low
  {
    if k == 0 {
      OrZero(high);
    } else {
      var a := high * Pow2(k);
      assert a == 2 * (high * Pow2(k - 1));
      assert a / 2 == high * Pow2(k - 1) && a % 2 == 0;
      OrDisjoint(high, k - 1, low / 2);
    }
  }

  /** Or-ing two n-bit numbers gives an n-bit number. */
  lemma {:induction false} OrBound(a: nat, b: nat, n: nat)
    requires a < Pow2(n) && b < Pow2(n)
    ensures BitOr(a, b) < Pow2(n)
  {
    if n > 0 {
      OrBound(a / 2, b / 2, n - 1);
    }
  }

  lemma OrZero(a: nat)
    ensures BitOr(a, 0) == a
  {
  }

  // ---------- one bit at a time ----------

  function Bit(a: nat, j: nat): (b: nat)
    ensures b < 2
  {
    if j == 0 then a % 2 else Bit(a / 2, j - 1)
  }

  lemma {:induction false} BitIsDigit(a: nat, j: nat)
    ensures Bit(a, j) == a / Pow2(j) % 2
  {
    if j > 0 {
      BitIsDigit(a / 2, j - 1);
      DivTwice(a, Pow2(j - 1));
    }
  }

  lemma DivTwice(a: nat, m: nat)
    requires m > 0
    ensures a / (2 * m) == a / 2 / m
  {
    var q, r := (a / 2) / m, (a / 2) % m;
    assert a / 2 == q * m + r;
    assert a == 2 * (a / 2) + a % 2;
    assert a == (2 * m) * q + (2 * r + a % 2);
    DivModUnique(a, 2 * m, q, 2 * r + a % 2);
  }

  /** A bit of the result is set exactly if it is set in both operands, or in one of them. */
  lemma {:induction false} BitOfAnd(a: nat, b: nat, j: nat)
    ensures Bit(BitAnd(a, b), j) == 1 <==> Bit(a, j) == 1 && Bit(b, j) == 1
    decreases j
  {
    hide BitAnd;
    AndHalves(a, b);
    if j > 0 {
      BitOfAnd(a / 2, b / 2, j - 1);
    }
  }

  lemma {:induction false} BitOfOr(a: nat, b: nat, j: nat)
    ensures Bit(BitOr(a, b), j) == 1 <==> Bit(a, j) == 1 || Bit(b, j) == 1
    decreases j
  {
    hide BitOr;
    OrHalves(a, b);
    if j > 0 {
      BitOfOr(a / 2, b / 2, j - 1);
    }
  }

  lemma AndHalves(a: nat, b: nat)
    ensures BitAnd(a, b) / 2 == BitAnd(a / 2, b / 2)
    ensures BitAnd(a, b) % 2 == if a % 2 == 1 && b % 2 == 1 then 1 else 0
  {
    if a == 0 || b == 0 {
      assert BitAnd(a, b) == 0 && BitAnd(a / 2, b / 2) == 0;
    }
  }

  lemma OrHalves(a: nat, b: nat)
    ensures BitOr(a, b) / 2 == BitOr(a / 2, b / 2)
    ensures BitOr(a, b) % 2 == if a % 2 == 1 || b % 2 == 1 then 1 else 0
  {
    if a == 0 && b == 0 {
      assert BitOr(a, b) == 0 && BitOr(a / 2, b / 2) == 0;
    }
  }
}
