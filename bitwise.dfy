/**
 * The C bitwise operators `&`, `|` and `~` on `unsigned int`, defined bit by
 * bit from the least significant bit up, with the facts the emulator's
 * masks rely on: `& (2^k - 1)` keeps the low k bits, `& 0xf0000000` keeps
 * the high bits, and `|` of two values whose set bits do not overlap is
 * their sum.
 */
module Bitwise {
  import opened Words

  /** `a & b` on the low n bits. */
  function AndBits(a: nat, b: nat, n: nat): (r: nat)
    ensures r < Pow2(n)
  {
    if n == 0 then 0
    else 2 * AndBits(a / 2, b / 2, n - 1) + (if a % 2 == 1 && b % 2 == 1 then 1 else 0)
  }

  /** `a | b` on the low n bits. */
  function OrBits(a: nat, b: nat, n: nat): (r: nat)
    ensures r < Pow2(n)
  {
    if n == 0 then 0
    else 2 * OrBits(a / 2, b / 2, n - 1) + (if a % 2 == 1 || b % 2 == 1 then 1 else 0)
  }

  function And(a: u32, b: u32): u32
  {
    Pow2Word();
    AndBits(a as nat, b as nat, 32) as u32
  }

  function Or(a: u32, b: u32): u32
  {
    Pow2Word();
    OrBits(a as nat, b as nat, 32) as u32
  }

  /** `~a`: every one of the 32 bits flipped. */
  function Not(a: u32): u32
  {
    0xFFFF_FFFF - a
  }

  /** Each result bit is set by `|` or by `&` or by neither: the two together count both operands. */
  lemma {:induction false} OrPlusAnd(a: nat, b: nat, n: nat)
    ensures OrBits(a, b, n) + AndBits(a, b, n) == a % Pow2(n) + b % Pow2(n)
  {
    if n > 0 {
      OrPlusAnd(a / 2, b / 2, n - 1);
      ModDouble(a, Pow2(n - 1));
      ModDouble(b, Pow2(n - 1));
    }
  }

  lemma {:induction false} AndZero(a: nat, n: nat)
    ensures AndBits(a, 0, n) == 0
  {
    if n > 0 {
      AndZero(a / 2, n - 1);
    }
  }

  /** Against a value below 2^k, `&` over n >= k bits sees only the low k bits. */
  lemma {:induction false} AndNarrow(a: nat, b: nat, k: nat, n: nat)
    requires k <= n && b < Pow2(k)
    ensures AndBits(a, b, n) == AndBits(a, b, k)
  {
    if k == 0 {
      AndZero(a, n);
    } else {
      DivBelow(b, 2, Pow2(k - 1));
      AndNarrow(a / 2, b / 2, k - 1, n - 1);
    }
  }

  /** `&` over k bits sees only the low k bits of its first operand. */
  lemma {:induction false} AndLowHalf(a: nat, b: nat, k: nat)
    ensures AndBits(a, b, k) == AndBits(a % Pow2(k), b, k)
  {
    if k > 0 {
      var m := a % Pow2(k);
      ModDouble(a, Pow2(k - 1));
      assert m / 2 == (a / 2) % Pow2(k - 1) && m % 2 == a % 2;
      AndLowHalf(a / 2, b / 2, k - 1);
    }
  }

  /** `x & (2^k - 1)` keeps the low k bits of x. */
  lemma {:induction false} AndLowMask(x: nat, k: nat, n: nat)
    requires k <= n
    ensures AndBits(x, Pow2(k) - 1, n) == x % Pow2(k)
  {
    if k == 0 {
      AndZero(x, n);
    } else {
      var m := Pow2(k) - 1;
      assert m % 2 == 1 && m / 2 == Pow2(k - 1) - 1;
      AndLowMask(x / 2, k - 1, n - 1);
      ModDouble(x, Pow2(k - 1));
    }
  }

  /** 2^n - 2^k: bits k..n-1 set. */
  function HighMask(n: nat, k: nat): nat
    requires k <= n
  {
    Pow2Monotone(k, n);
    Pow2(n) - Pow2(k)
  }

  /** `x & (2^n - 2^k)` keeps bits k..n-1 of x: x mod 2^n with the low k bits cleared. */
  lemma {:induction false} AndHighMask(x: nat, k: nat, n: nat)
    requires k <= n
    ensures AndBits(x, HighMask(n, k), n) == x % Pow2(n) - x % Pow2(k)
  {
    if k == 0 {
      AndLowMask(x, n, n);
    } else {
      HighMaskHalf(n, k);
      AndHighMask(x / 2, k - 1, n - 1);
      ModDouble(x, Pow2(n - 1));
      ModDouble(x, Pow2(k - 1));
    }
  }

  lemma HighMaskHalf(n: nat, k: nat)
    requires 0 < k <= n
    ensures HighMask(n, k) % 2 == 0 && HighMask(n, k) / 2 == HighMask(n - 1, k - 1)
  {
    assert Pow2(n) == 2 * Pow2(n - 1);
    assert Pow2(k) == 2 * Pow2(k - 1);
    assert HighMask(n, k) == 2 * HighMask(n - 1, k - 1);
  }

  /** No bit is set in both a value with k clear low bits and a value below 2^k. */
  lemma {:induction false} AndDisjoint(a: nat, b: nat, k: nat, n: nat)
    requires a % Pow2(k) == 0 && b < Pow2(k)
    ensures AndBits(a, b, n) == 0
  {
    if n > 0 {
      if k == 0 {
        AndZero(a, n);
      } else {
        ModDouble(a, Pow2(k - 1));
        DivBelow(b, 2, Pow2(k - 1));
        AndDisjoint(a / 2, b / 2, k - 1, n - 1);
      }
    }
  }

  /** `a | b` is a + b when the set bits of a lie at k and above and b is below 2^k. */
  lemma OrDisjoint(a: nat, b: nat, k: nat, n: nat)
    requires a % Pow2(k) == 0 && b < Pow2(k) && a < Pow2(n) && b < Pow2(n)
    ensures OrBits(a, b, n) == a + b
  {
    AndDisjoint(a, b, k, n);
    OrPlusAnd(a, b, n);
    DivModUnique(a, Pow2(n), 0, a);
    DivModUnique(b, Pow2(n), 0, b);
  }

  /** `a & b` never exceeds b: it only clears bits of b. */
  lemma {:induction false} AndAtMost(a: nat, b: nat, n: nat)
    ensures AndBits(a, b, n) <= b
  {
    if n > 0 {
      AndAtMost(a / 2, b / 2, n - 1);
    }
  }

  /** `a | 0` is a, on the low n bits. */
  lemma {:induction false} OrZero(a: nat, n: nat)
    ensures OrBits(a, 0, n) == a % Pow2(n)
  {
    if n > 0 {
      OrZero(a / 2, n - 1);
      ModDouble(a, Pow2(n - 1));
    }
  }

  /** `a | b` with b below 2^k leaves the bits of a from k up unchanged. */
  lemma {:induction false} OrKeepsHigh(a: nat, b: nat, k: nat, n: nat)
    requires k <= n && b < Pow2(k)
    ensures OrBits(a, b, n) / Pow2(k) == (a % Pow2(n)) / Pow2(k)
  {
    if k == 0 {
      OrZero(a, n);
    } else {
      var r := OrBits(a, b, n);
      DivBelow(b, 2, Pow2(k - 1));
      OrKeepsHigh(a / 2, b / 2, k - 1, n - 1);
      assert r / 2 == OrBits(a / 2, b / 2, n - 1);
      DivDiv(r, 2, Pow2(k - 1));
      ModDouble(a, Pow2(n - 1));
      assert (a % Pow2(n)) / 2 == (a / 2) % Pow2(n - 1);
      DivDiv(a % Pow2(n), 2, Pow2(k - 1));
    }
  }
}
