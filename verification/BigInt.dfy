/** The arithmetic that the compiler adds on top of its multiple-precision library. Library calls
    are operations on mathematical integers; results go through destination objects, which may
    be the operands themselves. */
module BigInts {
  import opened Bits

  class BigInt {
    var v: int
    constructor (v: int)
      ensures this.v == v
    {
      this.v := v;
    }
  }

  // ----- the library's operations -----

  /** Division that truncates toward zero. */
  function TruncDiv(x: int, y: int): int
    requires y != 0
  {
    if x >= 0 then (if y > 0 then x / y else -(x / -y))
    else (if y > 0 then -((-x) / y) else (-x) / (-y))
  }

  function TruncRem(x: int, y: int): int
    requires y != 0
  {
    x - y * TruncDiv(x, y)
  }

  function Abs(x: int): nat { if x < 0 then -x else x }

  /** The remainder of a truncated division is smaller than the divisor and has the dividend's sign. */
  lemma TruncRemRange(x: int, y: int)
    requires y != 0
    ensures Abs(TruncRem(x, y)) < Abs(y)
    ensures x >= 0 ==> TruncRem(x, y) >= 0
    ensures x <= 0 ==> TruncRem(x, y) <= 0
  {
    var a: int, b: int := Abs(x), Abs(y);
    var q: int := a / b;
    DivRem(a, b);
    assert TruncDiv(x, y) == if (x >= 0) == (y > 0) then q else -q;
    SignedProduct(x, y, q, b);
  }

  lemma SignedProduct(x: int, y: int, q: int, b: int)
    requires b == if y < 0 then -y else y
    ensures y * (if (x >= 0) == (y > 0) then q else -q) == if y == 0 then 0 else if x >= 0 then q * b else -(q * b)
  {
  }

  lemma DivRem(a: nat, b: nat)
    requires b > 0
    ensures 0 <= a - (a / b) * b < b
  {
    assert a == (a / b) * b + a % b;
  }

  /** z and x differ by a multiple of y. */
  ghost predicate Congruent(x: int, z: int, y: int) {
    exists k: int :: x == k * y + z
  }

  /** Remainders in one window of length |y| are determined by the class of x. */
  lemma RemainderUnique(x: int, y: int, z: int, z': int)
    requires y != 0 && Congruent(x, z, y) && Congruent(x, z', y) && Abs(z - z') < Abs(y)
    ensures z == z'
  {
    var k :| x == k * y + z;
    var k' :| x == k' * y + z';
    assert (k - k') * y == z' - z;
    if k != k' {
      MultipleIsLarge(k - k', y);
    }
  }

  lemma MultipleIsLarge(k: int, y: int)
    requires k != 0
    ensures Abs(k * y) >= Abs(y)
  {
    MulAtLeast(Abs(k), Abs(y));
    assert k * y == if (k > 0) == (y > 0) then Abs(k) * Abs(y) else -((Abs(k) * Abs(y)) as int);
  }

  /** Truncated division into q and r; the operands are read before anything is written. */
  method QuoRem(x: BigInt, y: BigInt, q: BigInt, r: BigInt)
    requires y.v != 0 && q != r
    modifies q, r
    ensures q.v == TruncDiv(old(x.v), old(y.v)) && r.v == TruncRem(old(x.v), old(y.v))
  {
    q.v, r.v := TruncDiv(x.v, y.v), TruncRem(x.v, y.v);
  }

  method Rem(z: BigInt, x: BigInt, y: BigInt)
    requires y.v != 0
    modifies z
    ensures z.v == TruncRem(old(x.v), old(y.v))
  {
    var q := new BigInt(0);
    QuoRem(x, y, q, z);
  }

  method Add(dst: BigInt, x: BigInt, y: BigInt)
    modifies dst
    ensures dst.v == old(x.v) + old(y.v)
  {
    dst.v := x.v + y.v;
  }

  method Sub(dst: BigInt, x: BigInt, y: BigInt)
    modifies dst
    ensures dst.v == old(x.v) - old(y.v)
  {
    dst.v := x.v - y.v;
  }

  // ----- remainders -----

  /** The floored remainder: it has the divisor's sign. */
  ghost predicate IsFlooredMod(x: int, y: int, z: int) {
    Congruent(x, z, y) && if y > 0 then 0 <= z < y else y < z <= 0
  }

  ghost predicate IsEuclideanMod(x: int, y: int, z: int) {
    Congruent(x, z, y) && 0 <= z < Abs(y)
  }

  lemma RemCongruent(x: int, y: int)
    requires y != 0
    ensures Congruent(x, TruncRem(x, y), y)
  {
    assert x == TruncDiv(x, y) * y + TruncRem(x, y);
  }

  lemma CongruentShift(x: int, z: int, y: int, m: int)
    requires Congruent(x, z, y)
    ensures Congruent(x, z + m * y, y)
  {
    var k :| x == k * y + z;
    assert x == (k - m) * y + (z + m * y);
  }

  lemma CongruentTransitive(x: int, z: int, w: int, y: int)
    requires Congruent(x, z, y) && Congruent(z, w, y)
    ensures Congruent(x, w, y)
  {
    var k :| x == k * y + z;
    var m :| z == m * y + w;
    assert x == (k + m) * y + w;
  }

  /** `((x rem y) + y) rem y` is the floored remainder, even when z is one of the operands. */
  method ModMod(z: BigInt, x: BigInt, y: BigInt)
    requires y.v != 0
    modifies z
    ensures IsFlooredMod(old(x.v), old(y.v), z.v)
  {
    ghost var a, b := x.v, y.v;
    var q := new BigInt(0);
    Rem(q, x, y);
    RemCongruent(a, b);
    TruncRemRange(a, b);
    CongruentShift(a, q.v, b, 1);
    Add(q, q, y);
    ghost var s := q.v;
    Rem(z, q, y);
    RemCongruent(s, b);
    TruncRemRange(s, b);
    CongruentTransitive(a, s, z.v, b);
  }

  /** Truncated division, then one correction when the remainder is negative. */
  method EuclideanMod(z: BigInt, x: BigInt, y: BigInt)
    requires y.v != 0
    modifies z
    ensures IsEuclideanMod(old(x.v), old(y.v), z.v)
  {
    ghost var a, b := x.v, y.v;
    var y0 := new BigInt(y.v);
    var q := new BigInt(0);
    QuoRem(x, y, q, z);
    RemCongruent(a, b);
    TruncRemRange(a, b);
    CongruentShift(a, z.v, b, 1);
    CongruentShift(a, z.v, b, -1);
    if z.v < 0 {
      if y0.v < 0 {
        Sub(z, z, y0);
      } else {
        Add(z, z, y0);
      }
    }
  }

  /** Both remainders are determined by their descriptions; the Euclidean one is `x % y`. */
  lemma ModsUnique(x: int, y: int, z: int, z': int)
    requires y != 0
    ensures IsFlooredMod(x, y, z) && IsFlooredMod(x, y, z') ==> z == z'
    ensures IsEuclideanMod(x, y, z) ==> z == x % y
  {
    if IsFlooredMod(x, y, z) && IsFlooredMod(x, y, z') {
      RemainderUnique(x, y, z, z');
    }
    if IsEuclideanMod(x, y, z) {
      assert x == (x / y) * y + x % y;
      assert Congruent(x, x % y, y);
      RemainderUnique(x, y, z, x % y);
    }
  }

  // ----- shifts -----

  /** Shift amounts are cut to 32 bits and then read as a signed `int`; a negative one is refused. */
  function ShiftAmount(y: int): nat { y % TWO32 }

  /** An amount below 2^31 is taken as it is, one from there up to 2^32 is refused, and whole
      multiples of 2^32 make no difference. */
  lemma AmountIsCut(y: int, k: int)
    ensures ShiftAmount(y + k * 0x1_0000_0000) == ShiftAmount(y)
    ensures 0 <= y < 0x1_0000_0000 ==> ShiftAmount(y) == y
    ensures ShiftAmount(y) == y % 0x1_0000_0000
  {
    DivModUnique(y + k * TWO32, TWO32, y / TWO32 + k, y % TWO32);
  }

  /** An accepted left shift gives the one number that the right shift takes back to x with
      nothing cut off; a refused one leaves dst unchanged. */
  method Shl(dst: BigInt, x: BigInt, y: BigInt)
    modifies dst
    ensures 0 <= old(y.v) < 0x8000_0000 ==> var m := Pow2(old(y.v)); dst.v / m == old(x.v) && dst.v % m == 0
    ensures var n := old(y.v) % 0x1_0000_0000;
      if n < 0x8000_0000 then dst.v / Pow2(n) == old(x.v) && dst.v % Pow2(n) == 0 else dst.v == old(dst.v)
  {
    AmountIsCut(y.v, 0);
    var yy := ShiftAmount(y.v);
    if yy < 0x8000_0000 {
      ShrUndoesShl(x.v, yy);
      dst.v := x.v * Pow2(yy);
    }
  }

  /** The result is the floor of x / 2^y, except that with dst aliasing x the sign test reads the
      quotient: then exactly the values in (-2^y, 0) go to 0 instead of -1. */
  method Shr(dst: BigInt, x: BigInt, y: BigInt)
    modifies dst
    ensures 0 <= old(y.v) < 0x8000_0000 ==>
      var m := Pow2(old(y.v)); dst.v == if dst == x && old(x.v) < 0 < old(x.v) + m then 0 else old(x.v) / m
    ensures var n := old(y.v) % 0x1_0000_0000;
      if n >= 0x8000_0000 then dst.v == old(dst.v)
      else dst.v == old(x.v) / Pow2(n) <==> !(dst == x && old(x.v) < 0 < old(x.v) + Pow2(n))
  {
    AmountIsCut(y.v, 0);
    var yy := ShiftAmount(y.v);
    ghost var a := x.v;
    var rem := new BigInt(0);
    if yy < 0x8000_0000 {
      dst.v, rem.v := TruncDiv(x.v, Pow2(yy)), TruncRem(x.v, Pow2(yy));
      FloorOfTrunc(a, Pow2(yy));
    }
    if x.v < 0 && rem.v != 0 {
      dst.v := dst.v - 1;
    }
  }

  lemma FloorOfTrunc(x: int, d: nat)
    requires d > 0
    ensures x / d == TruncDiv(x, d) - if x < 0 && TruncRem(x, d) != 0 then 1 else 0
    ensures TruncDiv(x, d) < 0 <==> x + d <= 0
    ensures x < 0 < x + d ==> TruncDiv(x, d) == 0
    ensures x < 0 < x + d ==> TruncRem(x, d) != 0
  {
    var q, r := TruncDiv(x, d), TruncRem(x, d);
    TruncRemRange(x, d);
    assert x == q * d + r;
    if r >= 0 {
      DivModUnique(x, d, q, r);
    } else {
      assert x == (q - 1) * d + (r + d);
      DivModUnique(x, d, q - 1, r + d);
    }
    QuotientSign(q, d);
  }

  lemma QuotientSign(q: int, d: nat)
    requires d > 0
    ensures q < 0 ==> q * d + d <= 0
    ensures q >= 0 ==> q * d >= 0
    ensures q == 0 ==> q * d == 0
  {
    if q < 0 {
      MulAtLeast(-q, d);
      assert (-q) * d == -(q * d);
    }
  }

  /** Shift in place: the operand is copied first, so the result is always the floor. */
  method ShrEq(dst: BigInt, x: BigInt)
    modifies dst
    ensures 0 <= old(x.v) < 0x8000_0000 ==> dst.v == old(dst.v) / Pow2(old(x.v))
    ensures var n := old(x.v) % 0x1_0000_0000; dst.v == if n < 0x8000_0000 then old(dst.v) / Pow2(n) else old(dst.v)
  {
    var res := new BigInt(dst.v);
    Shr(dst, res, x);
  }

  /** Floored shifts compose. */
  lemma ShiftsCompose(x: int, j: nat, k: nat)
    ensures (x / Pow2(j)) / Pow2(k) == x / Pow2(j + k)
  {
    Pow2Add(j, k);
    FloorTwice(x, Pow2(j), Pow2(k));
  }

  /** A floored right shift undoes a left shift and cuts nothing off. */
  lemma ShrUndoesShl(x: int, k: nat)
    ensures (x * Pow2(k)) / Pow2(k) == x && (x * Pow2(k)) % Pow2(k) == 0
  {
    DivModUnique(x * Pow2(k), Pow2(k), x, 0);
  }

  lemma FloorTwice(x: int, a: nat, b: nat)
    requires a > 0 && b > 0
    ensures a * b > 0 && (x / a) / b == x / (a * b)
  {
    assert x == (x / a) * a + x % a;
    assert x / a == (x / a / b) * b + (x / a) % b;
    TwoDivisions(x, a, b, x / a, x % a, x / a / b, (x / a) % b);
  }

  lemma TwoDivisions(x: int, a: nat, b: nat, q: int, r: nat, q': int, r': nat)
    requires r < a && r' < b && x == q * a + r && q == q' * b + r'
    ensures a * b > 0 && x / (a * b) == q'
  {
    ScaledRemainder(r, r', a, b);
    Distribute(q', b, r', a);
    DivModUnique(x, a * b, q', r' * a + r);
  }

  lemma Distribute(q: int, b: int, r: int, a: int)
    ensures (q * b + r) * a == q * (a * b) + r * a
  {
  }

  lemma ScaledRemainder(r: nat, r': nat, a: nat, b: nat)
    requires r < a && r' < b
    ensures r' * a + r < a * b
  {
    MulAtLeast(b - r', a);
    assert (b - r') * a == b * a - r' * a;
  }

  // ----- width-limited complement -----

  predicate Representable(x: int, bits: nat, signed: bool)
    requires bits >= 1
  {
    if signed then 0 <= x + Pow2(bits - 1) && x < Pow2(bits - 1) else 0 <= x < Pow2(bits)
  }

  /** Two's complement negation of all bits, as an integer. */
  function Complement(x: int, bits: nat, signed: bool): int {
    if signed then -x - 1 else Pow2(bits) - 1 - x
  }

  method Not(dst: BigInt, x: BigInt, bits: nat, signed: bool)
    modifies dst
    ensures bits == 0 ==> dst.v == 0
    ensures bits >= 1 ==> Congruent(-old(x.v) - 1, dst.v, Pow2(bits))
    ensures bits >= 1 && Representable(old(x.v), bits, signed) ==> dst.v == Complement(old(x.v), bits, signed)
    ensures bits >= 1 && old(x.v) >= 0 ==> Representable(dst.v, bits, signed)
    ensures bits >= 1 && old(x.v) < 0 ==> 0 <= dst.v < Pow2(bits)
  {
    if bits == 0 {
      dst.v := 0;
      return;
    }
    ghost var a := x.v;
    var modulus := Pow2(bits);
    if x.v < 0 {
      dst.v := -x.v;
      dst.v := dst.v - 1;
      dst.v := dst.v % modulus;
      NegativeNot(a, bits);
      return;
    }
    var mask := modulus - 1;
    var v := x.v % modulus;
    dst.v := BitXor(v, mask);
    XorOnes(v, bits);
    if signed {
      var pmask := Pow2(bits - 1);
      var low: int, top: int := BitAnd(dst.v, pmask - 1), BitAnd(dst.v, pmask);
      SignSplit(dst.v, bits);
      dst.v := low - top;
    }
    NonNegativeNot(a, bits, signed);
  }

  lemma NegativeNot(x: int, bits: nat)
    requires x < 0 && bits >= 1
    ensures Congruent(-x - 1, (-x - 1) % Pow2(bits), Pow2(bits))
    ensures 0 <= x + Pow2(bits - 1) ==> (-x - 1) % Pow2(bits) == -x - 1
  {
    var y, m := -x - 1, Pow2(bits);
    assert y == (y / m) * m + y % m;
    if 0 <= x + Pow2(bits - 1) {
      DivModUnique(y, m, 0, y);
    }
  }

  /** The low bits minus the top bit: an n-bit word read as a signed number. */
  lemma SignSplit(w: nat, bits: nat)
    requires bits >= 1 && w < Pow2(bits)
    ensures BitAnd(w, Pow2(bits - 1) - 1) - BitAnd(w, Pow2(bits - 1)) ==
            if w < Pow2(bits - 1) then w else w - Pow2(bits)
  {
    var h := Pow2(bits - 1);
    AndOnes(w, bits - 1);
    AndTopBit(w, bits - 1);
    assert Pow2(bits) == 2 * h;
    DivModUnique(w, h, if w < h then 0 else 1, if w < h then w else w - h);
  }

  lemma NonNegativeNot(x: int, bits: nat, signed: bool)
    requires x >= 0 && bits >= 1
    ensures var m := Pow2(bits); var w := m - 1 - x % m;
            var r := if signed && w >= Pow2(bits - 1) then w - m else w;
      && Congruent(-x - 1, r, m) && Representable(r, bits, signed)
      && (Representable(x, bits, signed) ==> r == Complement(x, bits, signed))
  {
    var m, k := Pow2(bits), x / Pow2(bits);
    assert x == k * m + x % m;
    assert -x - 1 == (-k - 1) * m + (m - 1 - x % m);
    assert -x - 1 == (-k) * m + (m - 1 - x % m - m);
    if x < m {
      DivModUnique(x, m, 0, x);
    }
  }

  /** On representable numbers the complement stays representable and undoes itself. */
  lemma ComplementInvolutive(x: int, bits: nat, signed: bool)
    requires bits >= 1 && Representable(x, bits, signed)
    ensures Representable(Complement(x, bits, signed), bits, signed)
    ensures Complement(Complement(x, bits, signed), bits, signed) == x
  {
  }
}
