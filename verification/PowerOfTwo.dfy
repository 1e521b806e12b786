/** Rounding a 32-bit word up to a power of two by smearing its top bit downwards. */
module PowerOfTwo {
  import opened Bits

  /** Logical right shift. */
  function Shr(x: nat, k: nat): nat
    decreases k
  {
    if k == 0 then x else Shr(x / 2, k - 1)
  }

  /** Bitwise `or`, defined one binary digit at a time. */
  function BitOr(x: nat, y: nat): nat
    decreases x + y
  {
    if x == 0 && y == 0 then 0
    else (if x % 2 == 1 || y % 2 == 1 then 1 else 0) + 2 * BitOr(x / 2, y / 2)
  }

  lemma {:induction false} ShrShr(x: nat, a: nat, b: nat)
    ensures Shr(Shr(x, a), b) == Shr(x, a + b)
  {
    if a > 0 { ShrShr(x / 2, a - 1, b); }
  }

  /** Shifting distributes over or. */
  lemma {:induction false} ShrOr(x: nat, y: nat, k: nat)
    ensures Shr(BitOr(x, y), k) == BitOr(Shr(x, k), Shr(y, k))
  {
    if k > 0 {
      assert BitOr(x, y) / 2 == BitOr(x / 2, y / 2);
      ShrOr(x / 2, y / 2, k - 1);
    }
  }

  lemma {:induction false} ShrBound(x: nat, k: nat, n: nat)
    requires x < Pow2(n)
    ensures Shr(x, k) <= x && (k >= n ==> Shr(x, k) == 0)
  {
    if k > 0 {
      if n > 0 {
        ShrBound(x / 2, k - 1, n - 1);
      } else {
        ShrBound(0, k - 1, 0);
      }
    }
  }

  lemma {:induction false} ShrOnes(a: nat, b: nat)
    requires b <= a
    ensures Shr(Pow2(a) - 1, b) == Pow2(a - b) - 1
  {
    if b > 0 {
      OnesHalve(a);
      ShrOnes(a - 1, b - 1);
    }
  }

  lemma {:induction false} OrBound(x: nat, y: nat, n: nat)
    requires x < Pow2(n) && y < Pow2(n)
    ensures BitOr(x, y) < Pow2(n)
  {
    if n > 0 {
      OrBound(x / 2, y / 2, n - 1);
    }
  }

  lemma {:induction false} OrZero(x: nat)
    ensures BitOr(x, 0) == x
  {
    if x > 0 { OrZero(x / 2); }
  }

  /** Or with n low ones fills the low n bits. */
  lemma {:induction false} OrLowOnes(x: nat, n: nat)
    ensures BitOr(x, Pow2(n) - 1) == Shr(x, n) * Pow2(n) + Pow2(n) - 1
  {
    if n == 0 {
      OrZero(x);
    } else {
      var m, h := Pow2(n - 1), Shr(x, n);
      OrLowOnes(x / 2, n - 1);
      OrOdd(x, m - 1);
      TimesDouble(h, m);
    }
  }

  lemma OrOdd(x: nat, y: nat)
    ensures BitOr(x, 2 * y + 1) == 1 + 2 * BitOr(x / 2, y)
  {
    assert (2 * y + 1) / 2 == y && (2 * y + 1) % 2 == 1;
  }

  lemma TimesDouble(h: nat, m: nat)
    ensures h * (2 * m) == 2 * (h * m)
  {
  }

  /** An l-bit number whose top t bits are ones. */
  ghost predicate TopOnes(x: nat, l: nat, t: nat) {
    t <= l && x < Pow2(l) && Shr(x, l - t) == Pow2(t) - 1
  }

  function SmearBy(x: nat, s: nat): nat { BitOr(x, Shr(x, s)) }

  function Min(a: nat, b: nat): nat { if a < b then a else b }

  /** One smearing step doubles the run of leading ones. */
  lemma Smear(x: nat, l: nat, s: nat)
    requires s >= 1 && TopOnes(x, l, Min(s, l))
    ensures TopOnes(SmearBy(x, s), l, Min(2 * s, l))
  {
    var w := Shr(x, s);
    ShrBound(x, s, l);
    OrBound(x, w, l);
    if s >= l {
      OrZero(x);
    } else if 2 * s <= l {
      var k := l - 2 * s;
      ShrOr(x, w, k);
      ShrShr(x, k, s);
      ShrShr(x, s, k);
      OnesOnOnes(Shr(x, k), s, s);
    } else {
      var u := l - s;
      ShrShr(x, u, s - u);
      ShrOnes(s, s - u);
      OnesOnOnes(x, s, u);
    }
  }

  /** Ones above n low bits, and the n low bits filled. */
  lemma OnesOnOnes(x: nat, t: nat, n: nat)
    requires Shr(x, n) == Pow2(t) - 1
    ensures BitOr(x, Pow2(n) - 1) == Pow2(t + n) - 1
  {
    OrLowOnes(x, n);
    Pow2Add(t, n);
    MinusOneTimes(Pow2(t), Pow2(n));
  }

  lemma MinusOneTimes(a: nat, b: nat)
    ensures (a - 1) * b == a * b - b
  {
  }

  /** Every positive number has a bit length, and its top bit is a one. */
  lemma {:induction false} BitLength(x: nat) returns (l: nat)
    requires x > 0
    ensures l > 0 && Pow2(l - 1) <= x < Pow2(l) && TopOnes(x, l, 1)
  {
    assert Pow2(1) == 2;
    if x == 1 {
      l := 1;
    } else {
      var h := BitLength(x / 2);
      l := h + 1;
    }
  }

  /** The five steps that the compiler takes. */
  function Smeared(x: nat): nat {
    SmearBy(SmearBy(SmearBy(SmearBy(SmearBy(x, 1), 2), 4), 8), 16)
  }

  /** Smearing by 1, 2, 4, 8 and 16 turns any positive 32-bit word into all ones. */
  lemma SmearAll(x: nat, l: nat)
    requires 0 < l <= 32 && TopOnes(x, l, 1)
    ensures Smeared(x) == Pow2(l) - 1
  {
    Smear(x, l, 1);
    var x1 := SmearBy(x, 1);
    Smear(x1, l, 2);
    var x2 := SmearBy(x1, 2);
    Smear(x2, l, 4);
    var x3 := SmearBy(x2, 4);
    Smear(x3, l, 8);
    var x4 := SmearBy(x3, 8);
    Smear(x4, l, 16);
    assert l - Min(32, l) == 0;
  }

  lemma WordLength(x: nat, l: nat)
    requires 0 < l && Pow2(l - 1) <= x < TWO32
    ensures l <= 32 && (l <= 31 ==> Pow2(l) < TWO32) && (l == 32 ==> Pow2(l) == TWO32)
  {
    Pow2Is32();
    if l > 32 { Pow2Monotone(32, l - 1); }
    if l <= 31 { Pow2Monotone(l, 31); assert Pow2(32) == 2 * Pow2(31); }
  }

  lemma SmearZero()
    ensures Smeared(0) == 0
  {
    ShrBound(0, 1, 0);
    ShrBound(0, 2, 0);
    ShrBound(0, 4, 0);
    ShrBound(0, 8, 0);
    ShrBound(0, 16, 0);
    assert BitOr(0, 0) == 0;
  }

  /** All ones up to the top bit of a word. */
  method SmearDown(v: nat) returns (ones: nat, ghost k: nat)
    requires v < TWO32
    ensures v <= ones == Pow2(k) - 1 && (k > 0 ==> Pow2(k - 1) <= v)
  {
    ones := Smeared(v);
    if v > 0 {
      k := BitLength(v);
      WordLength(v, k);
      SmearAll(v, k);
    } else {
      k := 0;
      SmearZero();
    }
  }

  /** The least power of two that is at least n, 2^k; 0 for 0 and when it would be 2^32. */
  method NextPow2(n: nat) returns (r: nat, ghost k: nat)
    requires n < TWO32
    ensures n == 0 ==> r == 0
    ensures n > 0 ==> n <= Pow2(k) && (k > 0 ==> Pow2(k - 1) < n)
    ensures n > 0 ==> r == if k <= 31 then Pow2(k) else 0
  {
    if n == 0 {
      return 0, 0;
    }
    var ones;
    ones, k := SmearDown(n - 1);
    if k > 0 { WordLength(n - 1, k); }
    r := (ones + 1) % TWO32;
  }
}
