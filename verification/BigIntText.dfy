/** Printing big integers and reading them back. */
module BigIntText {
  import opened BigInts
  import opened Bits

  // ----- digits -----

  predicate InBase(ds: seq<nat>, base: nat) {
    forall i | 0 <= i < |ds| :: ds[i] < base
  }

  /** Splitting off the last digit. */
  lemma LastDigit(v: nat, base: nat)
    requires base >= 2
    ensures v == v % base + base * (v / base) && 0 <= v % base < base
    ensures v < base ==> v % base == v
    ensures v >= base ==> 0 < v / base < v
  {
    var q, r := v / base, v % base;
    assert v == q * base + r;
    if v < base {
      DivModUnique(v, base, 0, v);
    } else {
      if q <= 0 {
        MulAtLeast(1 - q, base);
      }
      MulAtLeast(base - 1, q);
      assert (base - 1) * q == q * base - q;
    }
  }

  /** The digits of v, least significant first, without leading zeros; zero has one digit. */
  function Digits(v: nat, base: nat): (ds: seq<nat>)
    requires base >= 2
    ensures ds != [] && InBase(ds, base)
    ensures |ds| > 1 ==> ds[|ds| - 1] != 0
  {
    LastDigit(v, base);
    if v < base then [v] else [v % base] + Digits(v / base, base)
  }

  function Value(ds: seq<nat>, base: nat): nat {
    if ds == [] then 0 else ds[0] + base * Value(ds[1..], base)
  }

  lemma {:induction false} ValueOfDigits(v: nat, base: nat)
    requires base >= 2
    ensures Value(Digits(v, base), base) == v
  {
    LastDigit(v, base);
    if v >= base {
      ValueOfDigits(v / base, base);
      assert Digits(v, base)[1..] == Digits(v / base, base);
    } else {
      assert Digits(v, base)[1..] == [];
    }
  }

  /** Digit sequences of one length with one value are equal. */
  lemma {:induction false} ValueInjective(a: seq<nat>, b: seq<nat>, base: nat)
    requires |a| == |b| && Value(a, base) == Value(b, base)
    requires InBase(a, base) && InBase(b, base)
    ensures a == b
  {
    if a != [] {
      var x, y := Value(a[1..], base), Value(b[1..], base);
      SplitUnique(a[0], x, b[0], y, base);
      ValueInjective(a[1..], b[1..], base);
      assert a == [a[0]] + a[1..] && b == [b[0]] + b[1..];
    }
  }

  lemma SplitUnique(a: nat, x: nat, b: nat, y: nat, base: nat)
    requires a < base && b < base && a + base * x == b + base * y
    ensures a == b && x == y
  {
    QuotientUnique(base, x, a, y, b);
  }

  // ----- characters -----

  /** The character that is printed for a digit; beyond 9 it is not the digit's letter. */
  function DigitToChar(d: nat): char
    requires d < 16
  {
    if d <= 9 then ('0' as int + d) as char else ('a' as int + d) as char
  }

  /** The digit that a character is read as; 16 when it is none. */
  function DigitValue(r: char): nat {
    if '0' <= r <= '9' then r as int - '0' as int
    else if 'a' <= r <= 'f' then r as int - 'a' as int + 10
    else if 'A' <= r <= 'F' then r as int - 'A' as int + 10
    else 16
  }

  /** A printed digit reads back as itself exactly when it is at most 9, and is never an
      exponent mark, an underscore or a sign. */
  lemma PrintedDigit(d: nat)
    requires d < 16
    ensures DigitValue(DigitToChar(d)) == if d <= 9 then d else 16
    ensures DigitToChar(d) !in {'e', 'E', '_', '-'}
    ensures DigitToChar(d) == "0123456789klmnop"[d]
  {
    var s := "0123456789klmnop";
    assert s[0] == '0' && s[1] == '1' && s[2] == '2' && s[3] == '3' && s[4] == '4' && s[5] == '5' && s[6] == '6' && s[7] == '7';
    assert s[8] == '8' && s[9] == '9' && s[10] == 'k' && s[11] == 'l' && s[12] == 'm' && s[13] == 'n' && s[14] == 'o' && s[15] == 'p';
  }

  function Chars(ds: seq<nat>): (s: string)
    requires InBase(ds, 16)
    ensures |s| == |ds| && forall i | 0 <= i < |ds| :: s[i] == DigitToChar(ds[i])
  {
    if ds == [] then "" else [DigitToChar(ds[0])] + Chars(ds[1..])
  }

  lemma {:induction false} CharsAppend(ds: seq<nat>, d: nat)
    requires InBase(ds, 16) && d < 16
    ensures InBase(ds + [d], 16) && Chars(ds + [d]) == Chars(ds) + [DigitToChar(d)]
  {
    assert Chars(ds + [d]) == Chars(ds) + [DigitToChar(d)] by {
      var all := ds + [d];
      assert forall i | 0 <= i < |all| :: Chars(all)[i] == DigitToChar(all[i]);
    }
  }

  // ----- printing -----

  datatype Printed = Plain(text: string) | Scientific

  /** The number of 60-bit words of |x|; from 498 on the number is printed in scientific notation. */
  function UsedWords(x: nat): nat {
    if x == 0 then 0 else 1 + UsedWords(x / 0x1000_0000_0000_0000)
  }

  const SCIENTIFIC_WORDS := 498

  lemma {:induction false} WordsNeeded(x: nat, n: nat)
    ensures UsedWords(x) > n <==> x >= Pow2(60 * n)
    decreases n
  {
    var word := 0x1000_0000_0000_0000;
    WordIsPow2();
    if n > 0 {
      Pow2Add(60, 60 * (n - 1));
      assert 60 + 60 * (n - 1) == 60 * n;
      QuotientReaches(x, word, Pow2(60 * (n - 1)));
      WordsNeeded(x / word, n - 1);
    }
  }

  lemma WordIsPow2()
    ensures Pow2(60) == 0x1000_0000_0000_0000
  {
    Pow2Is32();
    Pow2Add(30, 2);
    Pow2Add(30, 30);
    assert Pow2(2) == 4;
  }

  lemma QuotientReaches(x: nat, w: nat, p: nat)
    requires w > 0
    ensures x / w >= p <==> x >= w * p
  {
    var q := x / w;
    assert x == q * w + x % w;
    if q >= p {
      MulAtLeast(w, q - p);
      assert q * w == p * w + (q - p) * w;
    } else {
      MulAtLeast(p - q, w);
      assert p * w == q * w + (p - q) * w;
    }
  }

  /** What the reversal loop does to the digit characters: with nothing before them they end up
      reversed; behind a sign the loop stops early and leaves the middle pair as it was. */
  function Reversed<T>(cs: seq<T>): (r: seq<T>)
    ensures |r| == |cs|
  {
    seq(|cs|, i requires 0 <= i < |cs| => cs[|cs| - 1 - i])
  }

  function Flipped<T>(cs: seq<T>): (r: seq<T>)
    ensures |r| == |cs|
  {
    var n := |cs|;
    seq(n, i requires 0 <= i < n =>
      if 2 * i == n - 2 || 2 * i == n then cs[i] else cs[n - 1 - i])
  }

  function DigitText(x: int, base: nat): string
    requires 2 <= base <= 16
  {
    if x < 0 then "-" + Flipped(Chars(Digits(-x, base))) else Reversed(Chars(Digits(x, base)))
  }

  /** One division by the base: the quotient and the next digit. */
  method Divide(v: nat, base: nat) returns (q: nat, r: nat)
    requires base >= 2
    ensures r < base && (v < base ==> q == 0 && r == v)
    ensures v >= base ==> q < v && forall ds: seq<nat> :: ds + Digits(v, base) == (ds + [r]) + Digits(q, base)
  {
    LastDigit(v, base);
    q, r := v / base, v % base;
    assert v >= base ==> forall ds: seq<nat> :: ds + ([r] + Digits(q, base)) == (ds + [r]) + Digits(q, base);
  }

  lemma AppendDigit(buf0: string, ds: seq<nat>, d: nat)
    requires InBase(ds, 16) && d < 16
    ensures InBase(ds + [d], 16) && (buf0 + Chars(ds)) + [DigitToChar(d)] == buf0 + Chars(ds + [d])
  {
    CharsAppend(ds, d);
  }

  /** The loop that divides the number down and appends its digits. */
  method EmitDigits(v0: nat, base: nat, buf0: string) returns (buf: string)
    requires 2 <= base <= 16
    ensures buf == buf0 + Chars(Digits(v0, base))
  {
    buf := buf0;
    var v, r := v0, 0;
    ghost var ds: seq<nat> := [];
    while v >= base
      invariant v >= 0 && InBase(ds, 16)
      invariant buf == buf0 + Chars(ds)
      invariant ds + Digits(v, base) == Digits(v0, base)
      decreases v
    {
      v, r := Divide(v, base);
      AppendDigit(buf0, ds, r);
      buf := buf + [DigitToChar(r)];
      ds := ds + [r];
    }
    assert Digits(v0, base) == ds + [v];
    v, r := Divide(v, base);
    AppendDigit(buf0, ds, r);
    buf := buf + [DigitToChar(r)];
  }

  /** Where the character at position k comes from once the pairs before i are swapped. */
  function Source(k: int, i: int, first: int, count: int): int {
    if k < i || k > count + first - i - 1 then count + first - k - 1 else k
  }

  ghost predicate SwappedUpTo(buf0: string, buf: string, first: int, i: int) {
    && |buf| == |buf0| && 0 <= first <= i && 2 * i <= |buf0| + 1
    && buf[..first] == buf0[..first]
    && forall k {:trigger buf[k]} | first <= k < |buf| :: buf[k] == buf0[Source(k, i, first, |buf0|)]
  }

  /** The loop that swaps characters from both ends of what follows the first ones, stopping at
      half of the whole buffer. */
  method ReverseTail(buf0: string, first: nat) returns (buf: string)
    requires first <= 1 && first < |buf0|
    ensures buf == buf0[..first] + Mirrored(buf0, first)
  {
    buf := buf0;
    var count := |buf|;
    for i := first to count / 2
      invariant |buf| == count && SwappedUpTo(buf0, buf, first, i)
    {
      var j := count + first - i - 1;
      SwapKeeps(buf0, buf, first, i, j);
      var tmp := buf[i];
      buf := buf[i := buf[j]];
      buf := buf[j := tmp];
    }
    TailDecides(buf, first, Mirrored(buf0, first));
  }

  /** What the loop leaves behind the first characters. */
  function Mirrored(buf0: string, first: nat): (tail: string)
    requires first <= 1 && first < |buf0|
    ensures |tail| == |buf0| - first
  {
    var h := |buf0| / 2;
    seq(|buf0| - first, i requires 0 <= i < |buf0| - first =>
      HalfSource(i + first, first, |buf0|);
      buf0[Source(i + first, h, first, |buf0|)])
  }

  lemma MirroredIsReversed(cs: string)
    requires cs != ""
    ensures Mirrored(cs, 0) == Reversed(cs)
  {
    forall i | 0 <= i < |cs| ensures Mirrored(cs, 0)[i] == Reversed(cs)[i] {
      HalfSource(i, 0, |cs|);
    }
  }

  lemma MirroredIsFlipped(cs: string)
    requires cs != ""
    ensures Mirrored("-" + cs, 1) == Flipped(cs)
  {
    var buf := "-" + cs;
    forall i | 0 <= i < |cs| ensures Mirrored(buf, 1)[i] == Flipped(cs)[i] {
      HalfSource(i + 1, 1, |buf|);
    }
  }

  lemma SwapKeeps(buf0: string, buf: string, first: int, i: int, j: int)
    requires SwappedUpTo(buf0, buf, first, i) && first <= 1 && i < |buf| / 2 && j == |buf| + first - i - 1
    ensures i <= j < |buf|
    ensures SwappedUpTo(buf0, buf[i := buf[j]][j := buf[i]], first, i + 1)
  {
    var after := buf[i := buf[j]][j := buf[i]];
    assert buf[i] == buf0[i] && buf[j] == buf0[j];
    forall k | first <= k < |buf| ensures after[k] == buf0[Source(k, i + 1, first, |buf0|)] {
      if k != i && k != j {
        assert after[k] == buf[k];
      }
    }
  }

  lemma TailDecides(buf: string, first: int, tail: string)
    requires 0 <= first <= |buf| && |tail| == |buf| - first
    requires forall k {:trigger buf[k]} | first <= k < |buf| :: buf[k] == tail[k - first]
    ensures buf == buf[..first] + tail
  {
  }

  /** After half of the buffer: everything is mirrored, but behind one leading character the
      middle pair of an even number of characters stays. */
  lemma HalfSource(k: int, first: int, count: int)
    requires 0 <= first <= 1 && first <= k < count
    ensures first == 0 ==> Source(k, count / 2, first, count) == count - 1 - k
    ensures first == 1 ==>
              Source(k, count / 2, 1, count) == if 2 * (k - 1) == count - 3 || 2 * (k - 1) == count - 1 then k else count - k
  {
  }

  /** The digits, behind a sign for a negative number, put the right way round as far as the loop goes. */
  method PrintDigits(x: int, base: nat) returns (text: string)
    requires 2 <= base <= 16
    ensures text == DigitText(x, base)
  {
    var buf := if x < 0 then "-" else "";
    var first := |buf|;
    buf := EmitDigits(Abs(x), base, buf);
    ghost var cs := Chars(Digits(Abs(x), base));
    MirroredIsReversed(cs);
    MirroredIsFlipped(cs);
    assert x >= 0 ==> buf == cs && buf[..0] == "";
    text := ReverseTail(buf, first);
  }

  method ToString(x: int, base: nat) returns (p: Printed)
    requires 2 <= base <= 16
    ensures p.Scientific? <==> Abs(x) >= Pow2(60 * 497)
    ensures p.Plain? ==> p.text == DigitText(x, base)
    ensures x == 0 ==> p == Plain("0")
  {
    WordsNeeded(Abs(x), 497);
    if x == 0 {
      assert Chars(Digits(0, base)) == "0";
      return Plain("0");
    }
    if UsedWords(Abs(x)) >= SCIENTIFIC_WORDS {
      return Scientific;
    }
    var text := PrintDigits(x, base);
    return Plain(text);
  }
}
