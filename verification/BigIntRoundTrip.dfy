/** Printing a big integer and reading it back, with underscores put in anywhere. */
module BigIntRoundTrip {
  import opened BigInts
  import opened BigIntText
  import opened BigIntParse

  /** A text without its underscores. */
  function Strip(t: string): string {
    if t == "" then "" else (if t[0] == '_' then "" else [t[0]]) + Strip(t[1..])
  }

  lemma {:induction false} ScanIgnoresUnderscores(t: string, base: nat, acc: nat, negative: bool)
    ensures var a, b := ScanDigits(t, base, acc, negative), ScanDigits(Strip(t), base, acc, negative);
      a.acc == b.acc && a.negative == b.negative && a.status == b.status
  {
    if t != "" {
      if t[0] == '_' {
        assert Strip(t) == Strip(t[1..]);
        ScanIgnoresUnderscores(t[1..], base, acc, negative);
      } else {
        assert Strip(t)[0] == t[0] && Strip(t)[1..] == Strip(t[1..]);
        if t[0] == '-' {
          ScanIgnoresUnderscores(t[1..], base, acc, true);
        } else if DigitValue(t[0]) < base {
          ScanIgnoresUnderscores(t[1..], base, PushDigit(acc, base, DigitValue(t[0])), negative);
        }
      }
    }
  }

  /** The value of digits read from the most significant one on. */
  function Fold(acc: nat, ds: seq<nat>, base: nat): nat
    decreases ds
  {
    if ds == [] then acc else Fold(PushDigit(acc, base, ds[0]), ds[1..], base)
  }

  predicate Decimal(ds: seq<nat>) { forall i | 0 <= i < |ds| :: ds[i] <= 9 }

  /** Printed digits read back as their value exactly when none is above 9. */
  lemma {:induction false} ScanPrintedDigits(ds: seq<nat>, base: nat, acc: nat, negative: bool)
    requires InBase(ds, 16) && InBase(ds, base) && base <= 16
    ensures var scan := ScanDigits(Chars(ds), base, acc, negative);
      if Decimal(ds) then scan == Scan("", Fold(acc, ds, base), negative, AtEnd) else scan.status == AtOther
  {
    if ds != [] {
      assert Chars(ds)[1..] == Chars(ds[1..]);
      ScanOneDigit(Chars(ds), ds[0], base, acc, negative);
      if ds[0] <= 9 {
        ScanPrintedDigits(ds[1..], base, PushDigit(acc, base, ds[0]), negative);
        DecimalTail(ds);
      }
    }
  }

  lemma ScanOneDigit(text: string, d: nat, base: nat, acc: nat, negative: bool)
    requires d < 16 && d < base <= 16 && text != "" && text[0] == DigitToChar(d)
    ensures ScanDigits(text, base, acc, negative) ==
            if d <= 9 then ScanDigits(text[1..], base, PushDigit(acc, base, d), negative) else Scan(text, acc, negative, AtOther)
  {
    PrintedDigit(d);
  }

  lemma DecimalTail(ds: seq<nat>)
    requires ds != [] && ds[0] <= 9
    ensures Decimal(ds) <==> Decimal(ds[1..])
  {
    assert forall i | 1 <= i < |ds| :: ds[i] == ds[1..][i - 1];
  }

  lemma {:induction false} FoldAppend(acc: nat, ds: seq<nat>, d: nat, base: nat)
    ensures Fold(acc, ds + [d], base) == Fold(acc, ds, base) * base + d
    decreases ds
  {
    if ds == [] {
      assert (ds + [d])[1..] == [];
    } else {
      assert (ds + [d])[1..] == ds[1..] + [d];
      FoldAppend(PushDigit(acc, base, ds[0]), ds[1..], d, base);
    }
  }

  lemma {:induction false} FoldReversed(ds: seq<nat>, base: nat)
    ensures Fold(0, Reversed(ds), base) == Value(ds, base)
  {
    if ds != [] {
      FoldReversed(ds[1..], base);
      assert Reversed(ds) == Reversed(ds[1..]) + [ds[0]];
      FoldAppend(0, Reversed(ds[1..]), ds[0], base);
    }
  }

  /** The two middle digits of an even number of digits agree. */
  predicate MiddleAgrees(ds: seq<nat>) {
    |ds| > 0 && |ds| % 2 == 0 ==> ds[|ds| / 2 - 1] == ds[|ds| / 2]
  }

  /** The short reversal is a reversal exactly when the middle digits agree. */
  lemma FlippedIsReversed(ds: seq<nat>)
    ensures Flipped(ds) == Reversed(ds) <==> MiddleAgrees(ds)
  {
    var n, h := |ds|, |ds| / 2;
    assert n == 2 * h || n == 2 * h + 1;
    if n > 0 && n == 2 * h {
      assert Flipped(ds)[h] == ds[h] && Reversed(ds)[h] == ds[n - 1 - h];
      forall i | 0 <= i < n && ds[h - 1] == ds[h] ensures Flipped(ds)[i] == Reversed(ds)[i] {
      }
    }
  }

  lemma FlippedValue(ds: seq<nat>, base: nat)
    requires InBase(ds, base)
    ensures Fold(0, Flipped(ds), base) == Value(ds, base) <==> MiddleAgrees(ds)
  {
    var back := Reversed(Flipped(ds));
    ReversedTwice(Flipped(ds));
    ReversedTwice(ds);
    FoldReversed(back, base);
    FlippedIsReversed(ds);
    if Value(back, base) == Value(ds, base) {
      ValueInjective(back, ds, base);
    }
  }

  lemma ReversedTwice<T>(s: seq<T>)
    ensures Reversed(Reversed(s)) == s
  {
  }

  lemma CharsRearranged(ds: seq<nat>)
    requires InBase(ds, 16)
    ensures InBase(Reversed(ds), 16) && Chars(Reversed(ds)) == Reversed(Chars(ds))
    ensures InBase(Flipped(ds), 16) && Chars(Flipped(ds)) == Flipped(Chars(ds))
  {
    CharsReversed(ds);
    CharsFlipped(ds);
  }

  lemma CharsReversed(ds: seq<nat>)
    requires InBase(ds, 16)
    ensures InBase(Reversed(ds), 16) && Chars(Reversed(ds)) == Reversed(Chars(ds))
  {
    var r := Reversed(ds);
    assert InBase(r, 16);
    forall i | 0 <= i < |ds| ensures Chars(r)[i] == Reversed(Chars(ds))[i] {
    }
  }

  lemma CharsFlipped(ds: seq<nat>)
    requires InBase(ds, 16)
    ensures InBase(Flipped(ds), 16) && Chars(Flipped(ds)) == Flipped(Chars(ds))
  {
    var f := Flipped(ds);
    forall i | 0 <= i < |ds| ensures f[i] in ds {
    }
    assert InBase(f, 16);
    assert |Chars(f)| == |Flipped(Chars(ds))|;
    forall i | 0 <= i < |ds| ensures Chars(f)[i] == Flipped(Chars(ds))[i] {
      assert Chars(f)[i] == DigitToChar(f[i]);
    }
  }

  /** When the printed form of x means x: no digit is above 9, and behind a minus sign the
      middle digits of an even number of digits agree. */
  predicate Readable(x: int, base: nat)
    requires 2 <= base <= 16
  {
    var ds := Digits(Abs(x), base);
    Decimal(ds) && (x < 0 ==> MiddleAgrees(ds))
  }

  /** Scanning the printed form ends with x exactly when the printed form is readable. */
  lemma ScanPrinted(x: int, base: nat, t: string)
    requires 2 <= base <= 16 && Strip(t) == DigitText(x, base)
    ensures var scan := ScanDigits(t, base, 0, false);
      && scan.status in {AtEnd, AtOther}
      && (scan.status == AtEnd && Signed(scan.acc, scan.negative) == x <==> Readable(x, base))
  {
    ScanIgnoresUnderscores(t, base, 0, false);
    var printed := ScanDigits(DigitText(x, base), base, 0, false);
    if x < 0 {
      ScanNegative(Abs(x), base);
      assert Signed(printed.acc, true) == x <==> printed.acc == Abs(x);
    } else {
      ScanNonNegative(Abs(x), base);
    }
  }

  lemma ScanNonNegative(x: nat, base: nat)
    requires 2 <= base <= 16
    ensures var scan, ds := ScanDigits(Reversed(Chars(Digits(x, base))), base, 0, false), Digits(x, base);
      if Decimal(ds) then scan.status == AtEnd && scan.acc == x && !scan.negative else scan.status == AtOther
  {
    var ds := Digits(x, base);
    ValueOfDigits(x, base);
    CharsRearranged(ds);
    DecimalRearranged(ds);
    ScanPrintedDigits(Reversed(ds), base, 0, false);
    FoldReversed(ds, base);
  }

  lemma ScanNegative(x: nat, base: nat)
    requires 2 <= base <= 16
    ensures var scan, ds := ScanDigits("-" + Flipped(Chars(Digits(x, base))), base, 0, false), Digits(x, base);
      if Decimal(ds) then scan.status == AtEnd && scan.negative && (scan.acc == x <==> MiddleAgrees(ds))
      else scan.status == AtOther
  {
    var ds := Digits(x, base);
    ValueOfDigits(x, base);
    CharsRearranged(ds);
    DecimalRearranged(ds);
    ScanPrintedDigits(Flipped(ds), base, 0, true);
    FlippedValue(ds, base);
    assert ("-" + Flipped(Chars(ds)))[1..] == Chars(Flipped(ds));
  }

  lemma DecimalRearranged(ds: seq<nat>)
    ensures Decimal(Reversed(ds)) == Decimal(ds) == Decimal(Flipped(ds))
  {
    assert forall i | 0 <= i < |ds| :: ds[i] == Reversed(ds)[|ds| - 1 - i];
    assert forall i | 0 <= i < |ds| :: ds[i] == Flipped(ds)[if 2 * i == |ds| - 2 || 2 * i == |ds| then i else |ds| - 1 - i];
  }

  /** In any base with a prefix, printing and then reading with the prefix, and underscores
      anywhere behind it, gives x back exactly when the printed form is readable; in bases 2, 8
      and 10 that of every non-negative number is. */
  lemma RoundTripWithPrefix(x: int, c: char, t: string, after: char)
    requires PrefixBase(c) != 0 && Strip(t) == DigitText(x, PrefixBase(c))
    ensures ParseText(['0', c] + t, after) == BigIntParse.Parsed.Parsed(x, true) <==> Readable(x, PrefixBase(c))
    ensures x >= 0 && PrefixBase(c) <= 10 ==> Readable(x, PrefixBase(c))
  {
    var s := ['0', c] + t;
    assert t != "";
    assert s[2..] == t && HasPrefix(s);
    ScanPrinted(x, PrefixBase(c), t);
  }

  /** In base 10 no prefix is needed, and underscores cannot be mistaken for one. */
  lemma RoundTripDecimal(x: int, t: string, after: char)
    requires Strip(t) == DigitText(x, 10)
    ensures ParseText(t, after) == BigIntParse.Parsed.Parsed(x, true) <==> Readable(x, 10)
    ensures x >= 0 ==> Readable(x, 10)
  {
    var base := 10;
    forall c | c in Strip(t) ensures DecimalChar(c) { DecimalTextChars(x, base, c); }
    NoPrefixInDecimal(t);
    ScanPrinted(x, base, t);
  }

  /** The shortest failures: -12 is printed as -21, and ten in base 16 as a letter that is no digit. */
  lemma UnreadableExamples()
    ensures DigitText(-12, 10) == "-21" && !Readable(-12, 10)
    ensures DigitText(10, 16) == "k" && !Readable(10, 16)
  {
    assert Digits(12, 10) == [2, 1];
    assert Chars([2, 1]) == "21";
    assert Flipped("21") == "21";
    assert Digits(10, 16) == [10];
    assert Chars([10]) == "k" && Reversed("k") == "k";
  }

  lemma {:induction false} StripKeeps(t: string, i: nat)
    requires i < |t|
    ensures t[i] == '_' || t[i] in Strip(t)
  {
    if i > 0 { StripKeeps(t[1..], i - 1); }
  }

  predicate DecimalChar(c: char) { c == '-' || '0' <= c <= '9' }

  lemma NoPrefixInDecimal(t: string)
    requires forall c | c in Strip(t) :: DecimalChar(c)
    ensures !HasPrefix(t)
  {
    if |t| > 2 {
      StripKeeps(t, 1);
    }
  }

  lemma DecimalTextChars(x: int, base: nat, c: char)
    requires 2 <= base <= 10 && c in DigitText(x, base)
    ensures DecimalChar(c)
  {
    var cs := Chars(Digits(Abs(x), base));
    assert forall i | 0 <= i < |cs| :: DecimalChar(cs[i]);
    RearrangedFrom(cs, c);
  }

  lemma RearrangedFrom(cs: string, c: char)
    ensures c in Reversed(cs) || c in Flipped(cs) ==> c in cs
  {
  }
}
