/** Bitwise operations on natural numbers, and the arithmetic meaning of masking with
    all-ones words. The hash table masks 32-bit words, the big-integer layer masks
    integers of any width; both rest on the lemmas here. */
module Bits {

  const TWO32: nat := 0x1_0000_0000

  function Pow2(n: nat): (r: nat)
    ensures r >= 1
  {
    if n == 0 then 1 else 2 * Pow2(n - 1)
  }

  /** Bitwise `and`, defined one binary digit at a time. */
  function BitAnd(x: nat, y: nat): nat
  {
    if x == 0 || y == 0 then 0
    else (x % 2) * (y % 2) + 2 * BitAnd(x / 2, y / 2)
  }

  /** Bitwise `xor`, defined one binary digit at a time. */
  function BitXor(x: nat, y: nat): nat
    decreases x + y
  {
    if x == 0 && y == 0 then 0
    else (if x % 2 == y % 2 then 0 else 1) + 2 * BitXor(x / 2, y / 2)
  }

  /** Splitting a remainder by an even modulus into its last bit and the rest. */
  lemma ModDouble(x: nat, c: nat)
    requires c > 0
    ensures x % (2 * c) == x % 2 + 2 * ((x / 2) % c)
  {
    var h := x / 2;
    var q, r := h / c, h % c;
    assert h == q * c + r;
    assert x == q * (2 * c) + (x % 2 + 2 * r);
    DivModUnique(x, 2 * c, q, x % 2 + 2 * r);
  }

  /** Euclidean division is determined by its defining equation. */
  lemma DivModUnique(x: int, d: nat, q: int, r: int)
    requires d > 0 && 0 <= r < d && x == q * d + r
    ensures x / d == q && x % d == r
  {
    QuotientUnique(d, q, r, x / d, x % d);
  }

  lemma QuotientUnique(d: nat, q: int, r: int, q': int, r': int)
    requires 0 <= r < d && 0 <= r' < d && q * d + r == q' * d + r'
    ensures q == q' && r == r'
  {
    if q > q' {
      MulAtLeast(q - q', d);
    } else if q < q' {
      MulAtLeast(q' - q, d);
    }
  }

  lemma MulAtLeast(k: int, d: nat)
    requires k >= 1
    ensures k * d >= d
  {
    assert (k - 1) * d >= 0;
    assert k * d == (k - 1) * d + d;
  }

  /** The word with n ones, halved, is the word with one fewer. */
  lemma OnesHalve(n: nat)
    requires n > 0
    ensures (Pow2(n) - 1) % 2 == 1 && (Pow2(n) - 1) / 2 == Pow2(n - 1) - 1
  {
    DivModUnique(Pow2(n) - 1, 2, Pow2(n - 1) - 1, 1);
  }

  /** Masking with n ones keeps the remainder by 2^n. */
  lemma {:induction false} AndOnes(x: nat, n: nat)
    ensures BitAnd(x, Pow2(n) - 1) == x % Pow2(n)
  {
    if n == 0 || x == 0 {
      DivModUnique(x, Pow2(n), if n == 0 then x else 0, 0);
    } else {
      OnesHalve(n);
      calc {
        BitAnd(x, Pow2(n) - 1);
        x % 2 + 2 * BitAnd(x / 2, Pow2(n - 1) - 1);
        { AndOnes(x / 2, n - 1); }
        x % 2 + 2 * ((x / 2) % Pow2(n - 1));
        { ModDouble(x, Pow2(n - 1)); }
        x % Pow2(n);
      }
    }
  }

  /** Xor with n ones complements an n-bit number. */
  lemma {:induction false} XorOnes(x: nat, n: nat)
    requires x < Pow2(n)
    ensures BitXor(x, Pow2(n) - 1) == Pow2(n) - 1 - x
  {
    if n > 0 {
      XorOnes(x / 2, n - 1);
      OnesHalve(n);
    }
  }

  /** Masking an (n+1)-bit number with its top bit alone. */
  lemma {:induction false} AndTopBit(x: nat, n: nat)
    requires x < Pow2(n + 1)
    ensures BitAnd(x, Pow2(n)) == if x >= Pow2(n) then Pow2(n) else 0
  {
    if x > 0 {
      if n == 0 {
        assert x == 1;
        assert BitAnd(0, 0) == 0;
      } else {
        AndTopBit(x / 2, n - 1);
        assert Pow2(n) % 2 == 0 && Pow2(n) / 2 == Pow2(n - 1);
      }
    }
  }

  lemma {:induction false} Pow2Add(a: nat, b: nat)
    ensures Pow2(a + b) == Pow2(a) * Pow2(b)
  {
    if a > 0 {
      Pow2Add(a - 1, b);
      assert a + b - 1 == a - 1 + b;
    }
  }

  lemma {:induction false} Pow2Monotone(a: nat, b: nat)
    requires a <= b
    ensures Pow2(a) <= Pow2(b)
  {
    if a < b { Pow2Monotone(a, b - 1); }
  }

  /** A wrapped 32-bit difference, masked by a power of two no larger than 2^32,
      is the difference modulo that power of two. */
  lemma WrapThenMask(z: int, n: nat)
    requires Pow2(n) <= TWO32
    ensures BitAnd(z % TWO32, Pow2(n) - 1) == z % Pow2(n)
  {
    AndOnes(z % TWO32, n);
    Pow2Is32();
    if n > 32 {
      Pow2Monotone(33, n);
    }
    Pow2Add(n, 32 - n);
    ModOfMod(z, Pow2(n), Pow2(32 - n));
  }

  lemma Pow2Is32()
    ensures Pow2(32) == TWO32 && Pow2(33) == 2 * TWO32
  {
    assert Pow2(8) == 256;
    Pow2Add(8, 8);
    Pow2Add(16, 16);
  }

  lemma ModOfMod(z: int, a: nat, b: nat)
    requires a > 0 && b > 0
    ensures a * b > 0 && (z % (a * b)) % a == z % a
  {
    assert a * b > 0;
    var q, r := z / (a * b), z % (a * b);
    var q', r' := r / a, r % a;
    assert z == q * (a * b) + q' * a + r';
    assert q * (a * b) == (q * b) * a;
    DivModUnique(z, a, q * b + q', r');
  }
}
