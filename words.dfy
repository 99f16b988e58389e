/**
 * Machine words as the C sources hold them: `unsigned int` (32 bits) and
 * `unsigned char` (8 bits), with the powers of two and the facts about
 * division and remainder that the decoding and memory proofs need.
 */
module Words {

  const WORD_MODULUS: int := 0x1_0000_0000

  /** `unsigned int`: C arithmetic on it wraps modulo 2^32. */
  newtype u32 = x: int | 0 <= x < 0x1_0000_0000

  /** `unsigned char`: one byte of memory. */
  newtype u8 = x: int | 0 <= x < 0x100

  function Pow2(k: nat): (r: nat)
    ensures r > 0
  {
    if k == 0 then 1 else 2 * Pow2(k - 1)
  }

  /** The low n bits of x, collected from bit 0 up. */
  function LowBits(x: nat, n: nat): nat
  {
    if n == 0 then 0 else 2 * LowBits(x / 2, n - 1) + x % 2
  }

  /** Bits hi..lo of w, counted from bit 0, the least significant one. */
  function Bits(w: u32, hi: nat, lo: nat): nat
    requires lo <= hi < 32
  {
    LowBits(ShiftRight(w, lo) as nat, hi - lo + 1)
  }

  /** The two's-complement value of a 32-bit pattern, as a C `(int)` cast reads it. */
  function Signed(w: u32): int
  {
    if w < 0x8000_0000 then w as int else w as int - WORD_MODULUS
  }

  /** Sum modulo 2^32, the result of `+` on two `unsigned int`s. */
  function Wrap(x: int): u32
  {
    (x % 0x1_0000_0000) as u32
  }

  /** `w << 1` on an `unsigned int`: bit 31 is shifted out and lost. */
  function Double(w: u32): u32
  {
    if w < 0x8000_0000 then (w as int * 2) as u32 else (w as int * 2 - WORD_MODULUS) as u32
  }

  /** `w << k` on an `unsigned int`, one position at a time. */
  function ShiftLeft(w: u32, k: nat): u32
    decreases k
  {
    if k == 0 then w else ShiftLeft(Double(w), k - 1)
  }

  /** `w >> k` on an `unsigned int`, one position at a time: zeros come in at the top. */
  function ShiftRight(w: u32, k: nat): (r: u32)
    ensures r <= w
    decreases k
  {
    if k == 0 then w else ShiftRight(w / 2, k - 1)
  }

  lemma {:induction false} ShiftRightValue(w: u32, k: nat)
    ensures ShiftRight(w, k) as int == w as int / Pow2(k)
    decreases k
  {
    if k > 0 {
      ShiftRightValue(w / 2, k - 1);
      DivDiv(w as int, 2, Pow2(k - 1));
    }
  }

  lemma {:induction false} LowBitsValue(x: nat, n: nat)
    ensures LowBits(x, n) == x % Pow2(n)
    decreases n
  {
    if n > 0 {
      LowBitsValue(x / 2, n - 1);
      ModDouble(x, Pow2(n - 1));
    }
  }

  /** Bits hi..lo of w are (w >> lo) mod 2^(hi - lo + 1). */
  lemma BitsValue(w: u32, hi: nat, lo: nat)
    requires lo <= hi < 32
    ensures Bits(w, hi, lo) == (w as int / Pow2(lo)) % Pow2(hi - lo + 1)
  {
    ShiftRightValue(w, lo);
    LowBitsValue(ShiftRight(w, lo) as nat, hi - lo + 1);
  }

  /** `w << k` is w * 2^k reduced modulo 2^32. */
  lemma {:induction false} ShiftLeftValue(w: u32, k: nat)
    ensures ShiftLeft(w, k) as int == w as int * Pow2(k) % WORD_MODULUS
    decreases k
  {
    if k == 0 {
      DivModUnique(w as int, WORD_MODULUS, 0, w as int);
    } else {
      var top := if w < 0x8000_0000 then 0 else 1;
      DivModUnique(w as int * 2, WORD_MODULUS, top, Double(w) as int);
      ShiftLeftValue(Double(w), k - 1);
      ShiftStep(w as int, Double(w) as int, Pow2(k - 1));
    }
  }

  lemma ShiftStep(w: int, d: int, p: int)
    requires w >= 0 && p > 0 && d == w * 2 % WORD_MODULUS
    ensures d * p % WORD_MODULUS == w * (2 * p) % WORD_MODULUS
  {
    ModMul(w * 2, p, WORD_MODULUS);
    assert w * 2 * p == w * (2 * p);
  }

  /**
   * Reading the top bits of w = top * 2^31 + r, with 2^31 == q * p: the top
   * bit is worth q and the rest come from 2r, the word shifted left by one.
   */
  lemma TopSplit(w: int, top: int, r: int, p: int, q: int)
    requires 0 <= top && 0 <= r && p > 0 && q > 0 && w == top * (q * p) + r
    ensures top * q + (2 * r) / (p * 2) == w / p
  {
    MulDivCancel(r, p, 2);
    assert r * 2 == 2 * r;
    assert w == (top * q) * p + r;
    DivMulAdd(top * q, p, r);
  }

  lemma {:induction false} Pow2Add(a: nat, b: nat)
    ensures Pow2(a + b) == Pow2(a) * Pow2(b)
    decreases a
  {
    if a > 0 {
      Pow2Add(a - 1, b);
      assert Pow2(a + b) == 2 * Pow2(a - 1 + b);
    }
  }

  lemma Pow2Monotone(a: nat, b: nat)
    requires a <= b
    ensures Pow2(a) <= Pow2(b)
  {
    Pow2Add(a, b - a);
  }

  lemma Pow2Word()
    ensures Pow2(16) == 0x1_0000 && Pow2(31) == 0x8000_0000 && Pow2(32) == WORD_MODULUS
  {
    assert Pow2(8) == 0x100;
    Pow2Add(8, 8);
    Pow2Add(16, 15);
    Pow2Add(16, 16);
    assert Pow2(15) == 0x8000;
  }

  lemma DivAtMost(x: int, d: int)
    requires x >= 0 && d >= 1
    ensures 0 <= x / d <= x
  {
    var q := x / d;
    assert q * d <= x;
    if q > x {
      MulAtLeast(d, q);
    }
  }

  /** The widths of the MIPS32 instruction fields. */
  lemma Pow2Fields()
    ensures Pow2(5) == 32 && Pow2(6) == 64 && Pow2(16) == 0x1_0000 && Pow2(26) == 0x400_0000
  {
    Pow2Word();
    assert Pow2(10) == 0x400;
    Pow2Add(16, 10);
  }

  /** The bit positions where the MIPS32 instruction fields start, and their widths. */
  lemma Pow2Positions()
    ensures Pow2(0) == 1 && Pow2(5) == 0x20 && Pow2(6) == 0x40 && Pow2(11) == 0x800
    ensures Pow2(16) == 0x1_0000 && Pow2(21) == 0x20_0000 && Pow2(26) == 0x400_0000
    ensures Pow2(32) == WORD_MODULUS
  {
    Pow2Fields();
    Pow2Word();
    Pow2Add(6, 5);
    Pow2Add(16, 5);
  }

  /** 2^31 split at position n - 1, for the top n bits of a word. */
  lemma Pow2Split(n: nat)
    requires 1 <= n <= 32
    ensures Pow2(n - 1) * Pow2(32 - n) == 0x8000_0000
    ensures Pow2(33 - n) == Pow2(32 - n) * 2
  {
    Pow2Add(n - 1, 32 - n);
    Pow2Word();
  }

  /** The byte and nibble boundaries used by loads, stores and jumps. */
  lemma Pow2Bytes()
    ensures Pow2(8) == 0x100 && Pow2(16) == 0x1_0000 && Pow2(24) == 0x100_0000 && Pow2(28) == 0x1000_0000
  {
    Pow2Word();
    Pow2Add(16, 8);
    Pow2Add(24, 4);
  }

  /** `w << k` loses nothing when w * 2^k fits in 32 bits. */
  lemma ShiftLeftSmall(w: u32, k: nat)
    requires w as int * Pow2(k) < WORD_MODULUS
    ensures ShiftLeft(w, k) as int == w as int * Pow2(k)
  {
    ShiftLeftValue(w, k);
    DivModUnique(w as int * Pow2(k), WORD_MODULUS, 0, w as int * Pow2(k));
  }

  /** Wrapping an intermediate sum does not change the wrapped total. */
  lemma WrapAdd(x: int, y: int)
    ensures Wrap(Wrap(x) as int + y) == Wrap(x + y)
  {
    var q := x / WORD_MODULUS;
    assert x == q * WORD_MODULUS + Wrap(x) as int;
    ModAddMultiple(Wrap(x) as int + y, q);
  }

  lemma ModAddMultiple(z: int, q: int)
    ensures (q * WORD_MODULUS + z) % WORD_MODULUS == z % WORD_MODULUS
  {
    var r := z % WORD_MODULUS;
    var k := z / WORD_MODULUS;
    assert q * WORD_MODULUS + z == (q + k) * WORD_MODULUS + r;
    UniqueDecomposition(q + k, r, (q * WORD_MODULUS + z) / WORD_MODULUS, (q * WORD_MODULUS + z) % WORD_MODULUS, WORD_MODULUS);
  }

  lemma MulAtLeast(a: int, d: int)
    requires a >= 1 && d > 0
    ensures a * d >= d
  {
  }

  lemma UniqueDecomposition(q: int, r: int, q2: int, r2: int, d: int)
    requires d > 0 && 0 <= r < d && 0 <= r2 < d && q * d + r == q2 * d + r2
    ensures q == q2
  {
    if q > q2 {
      assert (q - q2) * d == q * d - q2 * d;
      MulAtLeast(q - q2, d);
    } else if q < q2 {
      assert (q2 - q) * d == q2 * d - q * d;
      MulAtLeast(q2 - q, d);
    }
  }

  /** Quotient and remainder are determined by any decomposition x == q * d + r with 0 <= r < d. */
  lemma DivModUnique(x: int, d: int, q: int, r: int)
    requires d > 0 && 0 <= r < d && x == q * d + r
    ensures x / d == q && x % d == r
  {
    UniqueDecomposition(q, r, x / d, x % d, d);
  }

  lemma DivMulAdd(q: int, d: int, r: int)
    requires d > 0 && q >= 0 && r >= 0
    ensures (q * d + r) / d == q + r / d
    ensures (q * d + r) % d == r % d
  {
    DivModUnique(q * d + r, d, q + r / d, r % d);
  }

  lemma MulDivCancel(b: int, d: int, c: int)
    requires b >= 0 && d > 0 && c > 0
    ensures (b * c) / (d * c) == b / d
  {
    var q, r := b / d, b % d;
    assert b * c == q * (d * c) + r * c;
    assert r * c < d * c;
    DivModUnique(b * c, d * c, q, r * c);
  }

  lemma DivBelow(b: int, d: int, c: int)
    requires b >= 0 && d > 0 && c > 0 && b < d * c
    ensures b / d < c
  {
    var q := b / d;
    assert q * d <= b;
  }

  /** Dividing by p * q in two steps: first by p, then by q. */
  lemma DivSplit(x: int, p: int, q: int)
    requires x >= 0 && p > 0 && q > 0
    ensures x / p == (x / (p * q)) * q + (x % (p * q)) / p
    ensures (x % (p * q)) / p == (x / p) % q
  {
    var a, b := x / (p * q), x % (p * q);
    var c, r := b / p, b % p;
    DivBelow(b, p, q);
    assert a * (p * q) + c * p + r == (a * q + c) * p + r;
    DivModUnique(x, p, a * q + c, r);
    DivModUnique(x / p, q, a, c);
  }

  /** Dividing by a and then by b is dividing by a * b. */
  lemma DivDiv(x: int, a: int, b: int)
    requires x >= 0 && a > 0 && b > 0
    ensures (x / a) / b == x / (a * b)
  {
    var q, r := x / (a * b), x % (a * b);
    assert x == (q * b) * a + r;
    DivMulAdd(q * b, a, r);
    DivBelow(r, a, b);
    DivMulAdd(q, b, r / a);
    DivModUnique(r / a, b, 0, r / a);
  }

  /** Splitting off the lowest bit: x mod 2p is twice (x / 2) mod p plus the low bit. */
  lemma ModDouble(x: nat, p: nat)
    requires p > 0
    ensures x % (2 * p) == 2 * ((x / 2) % p) + x % 2
  {
    DivSplit(x, 2, p);
    var m := x % (2 * p);
    assert x == (x / (2 * p)) * (2 * p) + m;
    assert x == ((x / (2 * p)) * p) * 2 + m;
    DivMulAdd((x / (2 * p)) * p, 2, m);
  }

  /** Bits e..e+l-1 of x: (x mod 2^(e + l)) >> e == (x >> e) mod 2^l. */
  lemma LowBitsField(x: int, e: nat, l: nat)
    requires x >= 0
    ensures (x % Pow2(e + l)) / Pow2(e) == (x / Pow2(e)) % Pow2(l)
  {
    Pow2Add(e, l);
    DivSplit(x, Pow2(e), Pow2(l));
  }

  /** Multiplying by k and reducing modulo p * k keeps x mod p, scaled by k. */
  lemma MulMod(x: int, p: int, k: int)
    requires x >= 0 && p > 0 && k > 0
    ensures (x * k) % (p * k) == (x % p) * k
  {
    var a, b := x / p, x % p;
    assert x * k == a * (p * k) + b * k;
    assert b * k < p * k;
    DivModUnique(x * k, p * k, a, b * k);
  }

  lemma ModMul(a: int, b: int, m: int)
    requires a >= 0 && b >= 0 && m > 0
    ensures ((a % m) * b) % m == (a * b) % m
  {
    var q, r := a / m, a % m;
    assert a == q * m + r;
    MulAddSplit(q, m, r, b);
    DivMulAdd(q * b, m, r * b);
  }

  lemma MulAddSplit(q: int, m: int, r: int, b: int)
    ensures (q * m + r) * b == (q * b) * m + r * b
  {
  }
}
