/** Arithmetic readings of C's bit operators on non-negative integers. */
module Bits {

  type byte = x: int | 0 <= x < 256

  function Pow2(n: nat): (r: nat)
    ensures r > 0
  {
    if n == 0 then 1 else 2 * Pow2(n - 1)
  }

  /** C's `a & b`. */
  function BitAnd(a: nat, b: nat): nat {
    if a == 0 || b == 0 then 0
    else 2 * BitAnd(a / 2, b / 2) + (if a % 2 == 1 && b % 2 == 1 then 1 else 0)
  }

  /** C's `a | b`. */
  function BitOr(a: nat, b: nat): nat {
    if a == 0 && b == 0 then 0
    else 2 * BitOr(a / 2, b / 2) + (if a % 2 == 1 || b % 2 == 1 then 1 else 0)
  }

  /** C's `a ^ b`. */
  function BitXor(a: nat, b: nat): nat {
    if a == 0 && b == 0 then 0
    else 2 * BitXor(a / 2, b / 2) + (if a % 2 != b % 2 then 1 else 0)
  }

  /** Number of bits needed to write x; 0 for x == 0. */
  function BitLen(x: nat): nat {
    if x == 0 then 0 else 1 + BitLen(x / 2)
  }

  lemma {:induction false} Pow2Succ(k: nat)
    ensures Pow2(k + 1) == 2 * Pow2(k)
  {
  }

  lemma {:induction false} Pow2Octet()
    ensures Pow2(8) == 256
  {
  }

  lemma {:induction false} Pow2Add(a: nat, b: nat)
    ensures Pow2(a + b) == Pow2(a) * Pow2(b)
  {
    if a != 0 {
      Pow2Add(a - 1, b);
      assert 2 * (Pow2(a - 1) * Pow2(b)) == (2 * Pow2(a - 1)) * Pow2(b);
    }
  }

  lemma {:induction false} Pow2Mono(a: nat, b: nat)
    requires a <= b
    ensures Pow2(a) <= Pow2(b)
    decreases b
  {
    if a < b { Pow2Mono(a, b - 1); }
  }

  lemma DigitBound(r: nat, z: nat, m: nat, n: nat)
    requires r < n && z < m
    ensures r * m + z < m * n
  {
    assert (r + 1) * m <= n * m;
  }

  lemma Regroup(q: nat, r: nat, m: nat, n: nat, z: nat)
    ensures (q * n + r) * m + z == q * (m * n) + (r * m + z)
  {
  }

  lemma NoMultipleBetween(e: int, d: int)
    requires -d < e * d < d
    ensures e == 0
  {
  }

  /** Quotient and remainder are determined by their defining equation. */
  lemma DivUnique(x: int, d: int, q: int, r: int)
    requires d > 0 && 0 <= r < d && x == q * d + r
    ensures x / d == q && x % d == r
  {
    var e := x / d - q;
    assert e * d == r - x % d;
    assert -d < e * d < d;
    assert e == 0 by { NoMultipleBetween(e, d); }
  }

  /** A remainder modulo a product, digit by digit. */
  lemma ModProduct(x: nat, m: nat, n: nat)
    requires m > 0 && n > 0
    ensures x % (m * n) == x / m % n * m + x % m
  {
    var y := x / m;
    TwoDigits(x, y, y / n, y % n, x % m, m, n, m * n);
  }

  lemma TwoDigits(x: nat, y: nat, q: nat, r: nat, z: nat, m: nat, n: nat, p: nat)
    requires p == m * n && r < n && z < m && x == y * m + z && y == q * n + r
    ensures p > 0 && x % p == r * m + z
  {
    DigitBound(r, z, m, n);
    Regroup(q, r, m, n, z);
    DivUnique(x, p, q, r * m + z);
  }

  lemma AddMod(x: nat, y: nat, m: nat)
    requires m > 0
    ensures (x % m + y) % m == (x + y) % m
  {
    var r := x % m + y;
    DivUnique(x + y, m, x / m + r / m, r % m);
  }

  lemma SameRemainder(x: nat, y: nat, m: nat)
    requires m > 0 && x <= y
    ensures x % m == y % m <==> (y - x) % m == 0
  {
    var d := y - x;
    AddMod(x, d, m);
    AddMod(d, x, m);
    if d % m == 0 {
    } else if x % m == y % m {
      var e := y / m - x / m;
      assert d == e * m;
      DivUnique(d, m, e, 0);
      assert false;
    }
  }

  lemma Small(x: nat, m: nat)
    requires x < m
    ensures x % m == x
  {
  }

  lemma Doubled(a: nat, p: nat)
    ensures a * (2 * p) == 2 * (a * p)
  {
  }

  /** C's `x >> k`, one bit at a time. */
  function Shr(x: nat, k: nat): nat {
    if k == 0 then x else Shr(x / 2, k - 1)
  }

  /** The k low bits of x, one bit at a time. */
  function Low(x: nat, k: nat): nat {
    if k == 0 then 0 else 2 * Low(x / 2, k - 1) + x % 2
  }

  lemma {:induction false} ShrLowSplit(x: nat, k: nat)
    ensures x == Shr(x, k) * Pow2(k) + Low(x, k)
    ensures Low(x, k) < Pow2(k)
  {
    if k > 0 {
      ShrLowSplit(x / 2, k - 1);
      Doubled(Shr(x / 2, k - 1), Pow2(k - 1));
    }
  }

  /** Shifting right is division by 2^k and the low bits are the remainder. */
  lemma {:induction false} ShrLow(x: nat, k: nat)
    ensures Shr(x, k) == x / Pow2(k) && Low(x, k) == x % Pow2(k)
  {
    ShrLowSplit(x, k);
    DivUnique(x, Pow2(k), Shr(x, k), Low(x, k));
  }

  /** `x < 2^k` is the same as having at most k bits, and as `x >> k == 0`. */
  lemma {:induction false} BitLenBound(x: nat, k: nat)
    ensures BitLen(x) <= k <==> x < Pow2(k)
    ensures Shr(x, k) == 0 <==> x < Pow2(k)
  {
    if k > 0 && x > 0 {
      BitLenBound(x / 2, k - 1);
    } else if k > 0 {
      ShrLowSplit(x, k);
    }
  }

  lemma {:induction false} XorZero(a: nat, b: nat)
    ensures BitXor(a, b) == 0 <==> a == b
  {
    if a != 0 || b != 0 { XorZero(a / 2, b / 2); }
  }

  lemma {:induction false} OrZero(a: nat, b: nat)
    ensures BitOr(a, b) == 0 <==> a == 0 && b == 0
  {
    if a != 0 || b != 0 { OrZero(a / 2, b / 2); }
  }

  lemma {:induction false} XorShift(a: nat, b: nat, k: nat)
    ensures Shr(BitXor(a, b), k) == BitXor(Shr(a, k), Shr(b, k))
  {
    if k > 0 {
      XorShift(a / 2, b / 2, k - 1);
      assert BitXor(a, b) / 2 == BitXor(a / 2, b / 2);
    }
  }

  lemma {:induction false} OrShift(a: nat, b: nat, k: nat)
    ensures Shr(BitOr(a, b), k) == BitOr(Shr(a, k), Shr(b, k))
  {
    if k > 0 {
      OrShift(a / 2, b / 2, k - 1);
      assert BitOr(a, b) / 2 == BitOr(a / 2, b / 2);
    }
  }

  /** Or-ing into cleared low bits adds. */
  lemma {:induction false} OrDisjoint(a: nat, b: nat, k: nat)
    requires b < Pow2(k)
    ensures BitOr(a * Pow2(k), b) == a * Pow2(k) + b
    decreases k
  {
    if k == 0 {
      OrWithZero(a);
    } else {
      OrDisjoint(a, b / 2, k - 1);
      Doubled(a, Pow2(k - 1));
      OrHalves(a * Pow2(k - 1), b);
    }
  }

  lemma {:induction false} OrHalves(a: nat, b: nat)
    ensures BitOr(2 * a, b) == 2 * BitOr(a, b / 2) + b % 2
  {
  }

  lemma {:induction false} OrWithZero(a: nat)
    ensures BitOr(a, 0) == a
  {
    if a != 0 { OrWithZero(a / 2); }
  }

  /** Or-ing the top bit into a number of k + 1 bits sets it. */
  lemma {:induction false} OrTop(x: nat, k: nat)
    requires x < Pow2(k + 1)
    ensures BitOr(x, Pow2(k)) == if x < Pow2(k) then x + Pow2(k) else x
    decreases k
  {
    if k > 0 {
      OrTop(x / 2, k - 1);
      OrEven(x, Pow2(k - 1));
    } else {
      assert x == 0 || x == 1;
    }
  }

  lemma {:induction false} OrEven(a: nat, b: nat)
    ensures BitOr(a, 2 * b) == 2 * BitOr(a / 2, b) + a % 2
  {
    assert 2 * b / 2 == b && 2 * b % 2 == 0;
  }

  /** Masking with the k low bits keeps exactly those. */
  lemma {:induction false} AndLowMask(a: nat, k: nat)
    ensures BitAnd(a, Pow2(k) - 1) == Low(a, k)
  {
    if k > 0 {
      AndLowMask(a / 2, k - 1);
      assert (Pow2(k) - 1) / 2 == Pow2(k - 1) - 1;
      if a == 0 { assert Low(a / 2, k - 1) == 0; }
    }
  }

  lemma {:induction false} AndAllOnes(a: nat, n: nat)
    requires a < Pow2(n)
    ensures BitAnd(a, Pow2(n) - 1) == a
  {
    AndLowMask(a, n);
    ShrLowSplit(a, n);
    BitLenBound(a, n);
  }

  lemma {:induction false} AndEven(a: nat, m: nat)
    ensures BitAnd(a, 2 * m) == 2 * BitAnd(a / 2, m)
  {
    assert 2 * m / 2 == m && 2 * m % 2 == 0;
    if a != 0 && m != 0 { assert BitAnd(a, 2 * m) == 2 * BitAnd(a / 2, 2 * m / 2); }
  }

  /** Masking an n-bit value with all but its k low bits leaves it unchanged exactly when those bits are 0. */
  lemma {:induction false} AndHighMask(a: nat, n: nat, k: nat)
    requires a < Pow2(n) && k <= n
    ensures Pow2(n) >= Pow2(k)
    ensures BitAnd(a, Pow2(n) - Pow2(k)) == a <==> Low(a, k) == 0
  {
    Pow2Mono(k, n);
    if k == 0 {
      AndAllOnes(a, n);
    } else {
      AndHighMask(a / 2, n - 1, k - 1);
      AndEven(a, Pow2(n - 1) - Pow2(k - 1));
    }
  }
}
