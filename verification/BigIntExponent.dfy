/** What reading a decimal literal with an exponent gives, and when that is what it says. */
module BigIntExponent {
  import opened Bits
  import opened BigIntText
  import opened BigIntParse

  predicate NumeralChar(c: char) { c == '_' || '0' <= c <= '9' }

  /** Digits and underscores only. */
  predicate Numeral(t: string) { forall i | 0 <= i < |t| :: NumeralChar(t[i]) }

  /** Reading the digits of t on from acc, in unbounded arithmetic. */
  function Numerate(acc: nat, t: string): nat
    decreases t
  {
    if t == "" then acc
    else Numerate(if '0' <= t[0] <= '9' then PushDigit(acc, 10, DigitValue(t[0])) else acc, t[1..])
  }

  function DecimalValue(t: string): nat { Numerate(0, t) }

  /** The digits and underscores that t starts with. */
  function Leading(t: string): (lead: string)
    ensures lead <= t && Numeral(lead)
    ensures lead == t <==> Numeral(t)
  {
    if t == "" || !NumeralChar(t[0]) then "" else [t[0]] + Leading(t[1..])
  }

  function SkipPlus(e: string): string {
    if e != "" && e[0] == '+' then e[1..] else e
  }

  // ----- the exponent loop -----

  lemma PushedModulo(acc: nat, d: nat)
    ensures PushWrapped(acc % TWO64, d) == PushDigit(acc, 10, d) % TWO64
  {
    var a, b, c := acc % TWO64, acc % TWO64 * 10 % TWO64, (acc % TWO64 * 10 % TWO64 + d) % TWO64;
    var i, j, k := acc / TWO64, a * 10 / TWO64, (b + d) / TWO64;
    assert acc == TWO64 * i + a && a * 10 == TWO64 * j + b && b + d == TWO64 * k + c;
    DivModUnique(PushDigit(acc, 10, d), TWO64, 10 * i + j + k, c);
  }

  lemma {:induction false} ScannedFrom(t: string, acc: nat)
    ensures ScanExponent(t, acc % TWO64) == Numerate(acc, Leading(t)) % TWO64
    decreases t
  {
    if t != "" && NumeralChar(t[0]) {
      assert Leading(t)[0] == t[0] && Leading(t)[1..] == Leading(t[1..]);
      if t[0] == '_' {
        ScannedFrom(t[1..], acc);
      } else {
        PushedModulo(acc, DigitValue(t[0]));
        ScannedFrom(t[1..], PushDigit(acc, 10, DigitValue(t[0])));
      }
    }
  }

  /** The exponent read is the value of the leading digits modulo 2^64. */
  lemma ScannedExponent(t: string)
    ensures ScanExponent(t, 0) == DecimalValue(Leading(t)) % TWO64
  {
    ScannedFrom(t, 0);
  }

  // ----- the mantissa -----

  /** The digit loop stops at the mark, with what it read before. */
  lemma {:induction false} ScanToMark(d: string, rest: string, acc: nat, negative: bool)
    requires ScanDigits(d, 10, acc, negative).status == AtEnd
    requires rest != "" && rest[0] in {'e', 'E'}
    ensures var scan := ScanDigits(d, 10, acc, negative);
      ScanDigits(d + rest, 10, acc, negative) == Scan(rest, scan.acc, scan.negative, AtMark)
    decreases d
  {
    if d == "" {
      assert d + rest == rest;
    } else {
      assert (d + rest)[0] == d[0] && (d + rest)[1..] == d[1..] + rest;
      if d[0] == '-' {
        ScanToMark(d[1..], rest, acc, true);
      } else if d[0] == '_' {
        ScanToMark(d[1..], rest, acc, negative);
      } else {
        ScanToMark(d[1..], rest, PushDigit(acc, 10, DigitValue(d[0])), negative);
      }
    }
  }

  /** Digits and underscores are read as their value. */
  lemma {:induction false} ScanNumeral(d: string, acc: nat, negative: bool)
    requires Numeral(d)
    ensures ScanDigits(d, 10, acc, negative) == Scan("", Numerate(acc, d), negative, AtEnd)
    decreases d
  {
    if d != "" {
      assert NumeralChar(d[0]);
      ScanNumeral(d[1..], if d[0] == '_' then acc else PushDigit(acc, 10, DigitValue(d[0])), negative);
    }
  }

  // ----- the reader -----

  /** A literal in base 10: without a prefix or with `0d`. */
  predicate DecimalPrefix(prefix: string, body: string) {
    prefix == "0d" || (prefix == "" && !HasPrefix(body))
  }

  lemma ReadsBody(prefix: string, d: string, mark: char, e: string, after: char)
    requires mark in {'e', 'E'} && DecimalPrefix(prefix, d + [mark] + e)
    requires ScanDigits(d, 10, 0, false).status == AtEnd
    ensures var scan := ScanDigits(d, 10, 0, false);
      ParseText(prefix + (d + [mark] + e), after) == ReadExponent(e, after, 10, scan.acc, scan.negative)
  {
    var body := d + [mark] + e;
    var s := prefix + body;
    assert body == d + ([mark] + e) && ([mark] + e)[1..] == e;
    ScanToMark(d, [mark] + e, 0, false);
    if prefix == "" {
      assert s == body;
    } else {
      assert s[0] == '0' && s[1] == 'd' && s[2..] == body;
    }
  }

  /** What the reader makes of a mantissa, an exponent mark and an exponent text. */
  lemma ExponentRead(prefix: string, d: string, mark: char, e: string, after: char)
    requires mark in {'e', 'E'} && DecimalPrefix(prefix, d + [mark] + e)
    requires ScanDigits(d, 10, 0, false).status == AtEnd
    ensures var scan := ScanDigits(d, 10, 0, false);
      var w := DecimalValue(Leading(SkipPlus(e))) % 0x1_0000_0000_0000_0000;
      ParseText(prefix + (d + [mark] + e), after) ==
        if (if e == "" then after else e[0]) == '-' then Aborted
        else if w <= 308 then Parsed.Parsed(Signed(scan.acc * Pow10(w), scan.negative), true)
        else Parsed.Parsed(scan.acc, false)
  {
    ReadsBody(prefix, d, mark, e, after);
    ScannedExponent(SkipPlus(e));
  }

  function Scaled(mantissa: int, exp: nat): int { mantissa * Pow10(exp) }

  lemma SignedScaled(acc: nat, negative: bool, exp: nat)
    ensures Signed(acc * Pow10(exp), negative) == Scaled(Signed(acc, negative), exp)
  {
  }

  /** What a literal says: the mantissa times ten to the exponent, if the exponent is a number
      that is not too large, and an error otherwise. */
  ghost predicate AsWritten(result: Parsed, mantissa: int, e: string) {
    var digits := SkipPlus(e);
    if Numeral(digits) && DecimalValue(digits) <= MAX_EXPONENT
    then result == Parsed.Parsed(Scaled(mantissa, DecimalValue(digits)), true)
    else result.Parsed? && !result.success
  }

  /** The reader does what the literal says exactly unless it mistakes the exponent for a small
      one: the leading digits, modulo 2^64, are at most 308, but something else follows them or
      their value is at least 2^64. */
  lemma ExponentReadAsWritten(prefix: string, d: string, mark: char, e: string, after: char)
    requires mark in {'e', 'E'} && DecimalPrefix(prefix, d + [mark] + e)
    requires ScanDigits(d, 10, 0, false).status == AtEnd
    requires (if e == "" then after else e[0]) != '-'
    ensures var scan, digits := ScanDigits(d, 10, 0, false), SkipPlus(e);
      AsWritten(ParseText(prefix + (d + [mark] + e), after), Signed(scan.acc, scan.negative), e) <==>
        (DecimalValue(Leading(digits)) % TWO64 <= MAX_EXPONENT ==> Numeral(digits) && DecimalValue(digits) < TWO64)
  {
    ExponentRead(prefix, d, mark, e, after);
    var scan := ScanDigits(d, 10, 0, false);
    WrittenExactly(scan.acc, scan.negative, e);
  }

  /** What reading a mantissa with this exponent gives, compared with what the exponent says. */
  lemma WrittenExactly(acc: nat, negative: bool, e: string)
    ensures var digits := SkipPlus(e);
      var w := DecimalValue(Leading(digits)) % TWO64;
      var result := if w <= MAX_EXPONENT then Parsed.Parsed(Signed(acc * Pow10(w), negative), true) else Parsed.Parsed(acc, false);
      AsWritten(result, Signed(acc, negative), e) <==> (w <= MAX_EXPONENT ==> Numeral(digits) && DecimalValue(digits) < TWO64)
  {
    var v := DecimalValue(SkipPlus(e));
    if v < TWO64 {
      SmallModulus(v);
      SignedScaled(acc, negative, v);
    }
  }

  lemma SmallModulus(v: nat)
    requires v < TWO64
    ensures v % TWO64 == v
  {
  }

  /** With digits before the mark and a proper small exponent the value is the scaled number. */
  lemma NumeralWithExponent(d: string, mark: char, e: string, after: char)
    requires Numeral(d) && mark in {'e', 'E'} && Numeral(e) && e != "" && DecimalValue(e) <= MAX_EXPONENT
    ensures ParseText(d + [mark] + e, after) == Parsed.Parsed(DecimalValue(d) * Pow10(DecimalValue(e)), true)
  {
    var body := d + [mark] + e;
    assert !HasPrefix(body) by {
      if |body| > 2 && |d| <= 1 { assert body[1] == if d == "" then e[0] else mark; }
    }
    ScanNumeral(d, 0, false);
    assert "" + body == body && NumeralChar(e[0]);
    assert e[0] != '+' && SkipPlus(e) == e && Leading(e) == e;
    ExponentRead("", d, mark, e, after);
  }

  function Zeros(n: nat): string { seq(n, i => '0') }

  lemma {:induction false} NumerateZeros(acc: nat, n: nat)
    ensures Numerate(acc, Zeros(n)) == acc * Pow10(n)
    decreases n
  {
    if n > 0 {
      assert Zeros(n)[1..] == Zeros(n - 1);
      NumerateZeros(acc * 10, n - 1);
    }
  }

  lemma {:induction false} NumerateConcat(acc: nat, a: string, b: string)
    ensures Numerate(acc, a + b) == Numerate(Numerate(acc, a), b)
    decreases a
  {
    if a == "" {
      assert a + b == b;
    } else {
      assert (a + b)[1..] == a[1..] + b;
      NumerateConcat(if '0' <= a[0] <= '9' then PushDigit(acc, 10, DigitValue(a[0])) else acc, a[1..], b);
    }
  }

  /** An exponent stands for so many zeros behind the digits. */
  lemma ExponentIsZeros(d: string, mark: char, e: string, after: char)
    requires Numeral(d) && mark in {'e', 'E'} && Numeral(e) && e != "" && DecimalValue(e) <= 308
    ensures ParseText(d + [mark] + e, after) == ParseText(d + Zeros(DecimalValue(e)), after)
  {
    var n := DecimalValue(e);
    var t := d + Zeros(n);
    NumeralWithExponent(d, mark, e, after);
    NumeralConcat(d, Zeros(n));
    assert !HasPrefix(t) by { assert |t| > 1 ==> NumeralChar(t[1]); }
    NumerateConcat(0, d, Zeros(n));
    NumerateZeros(DecimalValue(d), n);
    ScanNumeral(t, 0, false);
  }

  /** A letter behind the exponent is ignored. */
  lemma JunkExample(after: char)
    ensures ParseText("1e2x", after) == Parsed.Parsed(100, true)
  {
    ReadOne("2x", after);
    assert "1" + ['e'] + "2x" == "1e2x";
    assert Leading("2x") == "2" && DecimalValue("2") == 2;
    assert Pow10(2) == 100;
  }

  /** An exponent of 18446744073709551616, which is 2^64, counts as 0. */
  lemma WrappedExample(e: string, after: char)
    requires e == "18446744" + ("07370955" + "1616")
    ensures DecimalValue(e) == TWO64
    ensures ParseText("1" + ['e'] + e, after) == Parsed.Parsed(1, true)
  {
    EightDigits(0, "1844", "6744", "07370955" + "1616", e);
    LowDigits("07370955" + "1616");
    NumeralConcat("07370955", "1616");
    NumeralConcat("18446744", "07370955" + "1616");
    ReadOne(e, after);
  }

  lemma NumeralConcat(a: string, b: string)
    requires Numeral(a) && Numeral(b)
    ensures Numeral(a + b)
  {
  }

  lemma LowDigits(t: string)
    requires t == "07370955" + "1616"
    ensures Numerate(18446744, t) == TWO64
  {
    EightDigits(18446744, "0737", "0955", "1616", t);
    LastDigits("1616");
    ChunkValues();
  }

  lemma LastDigits(t: string)
    requires t == "1616"
    ensures Numerate(1844674407370955, t) == 1844674407370955 * 10000 + FourDigits(t)
  {
    Chunk(1844674407370955, t, "", t);
  }

  lemma ChunkValues()
    ensures FourDigits("0737") == 737 && FourDigits("0955") == 955 && FourDigits("1616") == 1616
  {
  }

  /** Reading 1 with an exponent. */
  lemma ReadOne(e: string, after: char)
    requires e != "" && NumeralChar(e[0])
    ensures var w := DecimalValue(Leading(e)) % TWO64;
      ParseText("1" + ['e'] + e, after) == Parsed.Parsed(if w <= MAX_EXPONENT then Pow10(w) else 1, w <= MAX_EXPONENT)
  {
    var body := "1" + ['e'] + e;
    assert ScanDigits("1", 10, 0, false) == Scan("", 1, false, AtEnd) by { ScanNumeral("1", 0, false); }
    assert body[1] == 'e' && "" + body == body && e[0] != '+';
    ExponentRead("", "1", 'e', e, after);
  }

  lemma EightDigits(acc: nat, a: string, b: string, rest: string, t: string)
    requires |a| == |b| == 4 && t == a + b + rest
    requires forall i | 0 <= i < 4 :: '0' <= a[i] <= '9' && '0' <= b[i] <= '9'
    ensures Numerate(acc, t) == Numerate((acc * 10000 + FourDigits(a)) * 10000 + FourDigits(b), rest)
  {
    assert t == a + (b + rest);
    Chunk(acc, a, b + rest, t);
    Chunk(acc * 10000 + FourDigits(a), b, rest, b + rest);
  }

  /** Four digits at once. */
  lemma Chunk(acc: nat, four: string, rest: string, t: string)
    requires |four| == 4 && t == four + rest && forall i | 0 <= i < 4 :: '0' <= four[i] <= '9'
    ensures Numerate(acc, t) == Numerate(acc * 10000 + FourDigits(four), rest)
  {
    NextDigit(acc, t);
    NextDigit(acc * 10 + DigitValue(t[0]), t[1..]);
    NextDigit(acc * 100 + DigitValue(t[0]) * 10 + DigitValue(t[1]), t[2..]);
    NextDigit(acc * 1000 + DigitValue(t[0]) * 100 + DigitValue(t[1]) * 10 + DigitValue(t[2]), t[3..]);
    assert t[1..][1..] == t[2..] && t[2..][1..] == t[3..] && t[3..][1..] == rest;
  }

  function FourDigits(four: string): nat
    requires |four| == 4
  {
    DigitValue(four[0]) * 1000 + DigitValue(four[1]) * 100 + DigitValue(four[2]) * 10 + DigitValue(four[3])
  }

  lemma NextDigit(acc: nat, t: string)
    requires t != "" && '0' <= t[0] <= '9'
    ensures Numerate(acc, t) == Numerate(acc * 10 + DigitValue(t[0]), t[1..])
  {
  }
}
