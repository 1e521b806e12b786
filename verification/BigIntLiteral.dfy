/** What an integer literal is worth: its prefix, its digits and its underscores. */
module BigIntLiterals {
  import opened BigIntText
  import opened BigIntParse
  import opened BigIntRoundTrip

  const LOWER := "0123456789abcdef"
  const UPPER := "0123456789ABCDEF"

  predicate Writes(r: char, d: nat) { d < 16 && (r == LOWER[d] || r == UPPER[d]) }

  /** The letters of either case are the digits from ten on, and there are no others. */
  lemma DigitsAreWritten(r: char, d: nat)
    ensures Writes(r, d) <==> DigitValue(r) == d && d < 16
  {
    assert LOWER[0] == '0' && LOWER[1] == '1' && LOWER[2] == '2' && LOWER[3] == '3' && LOWER[4] == '4';
    assert LOWER[5] == '5' && LOWER[6] == '6' && LOWER[7] == '7' && LOWER[8] == '8' && LOWER[9] == '9';
    assert LOWER[10] == 'a' && LOWER[11] == 'b' && LOWER[12] == 'c' && LOWER[13] == 'd' && LOWER[14] == 'e' && LOWER[15] == 'f';
    assert UPPER[0] == '0' && UPPER[1] == '1' && UPPER[2] == '2' && UPPER[3] == '3' && UPPER[4] == '4';
    assert UPPER[5] == '5' && UPPER[6] == '6' && UPPER[7] == '7' && UPPER[8] == '8' && UPPER[9] == '9';
    assert UPPER[10] == 'A' && UPPER[11] == 'B' && UPPER[12] == 'C' && UPPER[13] == 'D' && UPPER[14] == 'E' && UPPER[15] == 'F';
  }

  /** The text is the digits, one character each. */
  ghost predicate Spells(t: string, ds: seq<nat>) {
    |t| == |ds| && forall i | 0 <= i < |t| :: Writes(t[i], ds[i])
  }

  function Power(base: nat, n: nat): nat { if n == 0 then 1 else base * Power(base, n - 1) }

  /** Each digit times the base to the number of digits behind it. */
  function Positional(ds: seq<nat>, base: nat): nat {
    if ds == [] then 0 else ds[0] * Power(base, |ds| - 1) + Positional(ds[1..], base)
  }

  lemma {:induction false} FoldIsPositional(acc: nat, ds: seq<nat>, base: nat)
    ensures Fold(acc, ds, base) == acc * Power(base, |ds|) + Positional(ds, base)
    decreases ds
  {
    if ds != [] {
      FoldIsPositional(PushDigit(acc, base, ds[0]), ds[1..], base);
      Expand(acc, base, ds[0], Power(base, |ds| - 1));
    }
  }

  lemma Expand(acc: nat, base: nat, d: nat, p: nat)
    ensures PushDigit(acc, base, d) * p == acc * (base * p) + d * p
  {
  }

  /** The text without underscores and signs. */
  function Bare(t: string): string {
    if t == "" then "" else (if t[0] == '_' || t[0] == '-' then "" else [t[0]]) + Bare(t[1..])
  }

  /** Digits below the base, underscores anywhere, and at most one minus sign, anywhere. */
  ghost predicate PlainNumber(t: string, base: nat, ds: seq<nat>) {
    Spells(Bare(t), ds) && InBase(ds, base) && forall i, j | 0 <= i < j < |t| :: !(t[i] == '-' && t[j] == '-')
  }

  ghost predicate IsPlain(t: string, base: nat) { exists ds :: PlainNumber(t, base, ds) }

  lemma SpellsStep(t: string, ds: seq<nat>)
    requires t != "" && ds != []
    ensures Spells(t, ds) <==> Writes(t[0], ds[0]) && Spells(t[1..], ds[1..])
  {
    if Writes(t[0], ds[0]) && Spells(t[1..], ds[1..]) {
      forall i | 0 <= i < |t| ensures Writes(t[i], ds[i]) {
        assert i > 0 ==> Writes(t[1..][i - 1], ds[1..][i - 1]);
      }
    }
    if Spells(t, ds) {
      forall i | 0 <= i < |t| - 1 ensures Writes(t[1..][i], ds[1..][i]) {
        assert Writes(t[i + 1], ds[i + 1]);
      }
    }
  }

  predicate SignsLeft(t: string, negative: bool) {
    && (forall i, j | 0 <= i < j < |t| :: !(t[i] == '-' && t[j] == '-'))
    && (negative ==> '-' !in t)
  }

  lemma SignsStep(t: string, negative: bool)
    requires t != ""
    ensures SignsLeft(t, negative) <==> !(negative && t[0] == '-') && SignsLeft(t[1..], negative || t[0] == '-')
  {
    var rest := t[1..];
    assert forall i | 0 <= i < |rest| :: rest[i] == t[i + 1];
    if !(negative && t[0] == '-') && SignsLeft(rest, negative || t[0] == '-') {
      forall i, j | 0 <= i < j < |t| ensures !(t[i] == '-' && t[j] == '-') {
        assert t[j] == rest[j - 1] && rest[j - 1] in rest;
        assert i > 0 ==> t[i] == rest[i - 1];
      }
    }
    if SignsLeft(t, negative) && t[0] == '-' {
      forall k | 0 <= k < |rest| ensures rest[k] != '-' {
        assert rest[k] == t[k + 1];
      }
    }
  }

  /** Scanning such a text reaches its end with the value of the digits; nothing is missed. */
  lemma {:induction false} PlainIsScanned(t: string, base: nat, ds: seq<nat>, acc: nat, negative: bool)
    requires Spells(Bare(t), ds) && InBase(ds, base) && SignsLeft(t, negative)
    ensures ScanDigits(t, base, acc, negative) == Scan("", Fold(acc, ds, base), negative || '-' in t, AtEnd)
    decreases t
  {
    if t != "" {
      SignsStep(t, negative);
      assert t == [t[0]] + t[1..];
      if t[0] == '_' || t[0] == '-' {
        assert Bare(t) == Bare(t[1..]);
        PlainIsScanned(t[1..], base, ds, acc, negative || t[0] == '-');
      } else {
        assert Bare(t)[1..] == Bare(t[1..]);
        SpellsStep(Bare(t), ds);
        DigitsAreWritten(t[0], ds[0]);
        PlainIsScanned(t[1..], base, ds[1..], PushDigit(acc, base, ds[0]), negative);
      }
    }
  }

  lemma {:induction false} ScannedIsPlain(t: string, base: nat, acc: nat, negative: bool) returns (ds: seq<nat>)
    requires base <= 16 && ScanDigits(t, base, acc, negative).status == AtEnd
    ensures Spells(Bare(t), ds) && InBase(ds, base) && SignsLeft(t, negative)
    decreases t
  {
    ds := [];
    if t != "" {
      SignsStep(t, negative);
      if t[0] == '_' || t[0] == '-' {
        assert Bare(t) == Bare(t[1..]);
        ds := ScannedIsPlain(t[1..], base, acc, negative || t[0] == '-');
      } else {
        var d := DigitValue(t[0]);
        var rest := ScannedIsPlain(t[1..], base, PushDigit(acc, base, d), negative);
        ds := [d] + rest;
        assert Bare(t)[1..] == Bare(t[1..]) && ds[1..] == rest;
        DigitsAreWritten(t[0], d);
        SpellsStep(Bare(t), ds);
      }
    }
  }

  /** The scan gets to the end of exactly the plain numbers, with their value and sign. */
  lemma ScanEndsExactly(t: string, base: nat)
    requires base <= 16
    ensures var scan := ScanDigits(t, base, 0, false);
      && (scan.status == AtEnd <==> IsPlain(t, base))
      && forall ds | PlainNumber(t, base, ds) :: scan.acc == Positional(ds, base) && scan.negative == ('-' in t)
  {
    var scan := ScanDigits(t, base, 0, false);
    forall ds | PlainNumber(t, base, ds)
      ensures scan.status == AtEnd && scan.acc == Positional(ds, base) && scan.negative == ('-' in t)
    {
      PlainIsScanned(t, base, ds, 0, false);
      FoldIsPositional(0, ds, base);
    }
    if scan.status == AtEnd {
      var ds := ScannedIsPlain(t, base, 0, false);
      assert PlainNumber(t, base, ds);
    }
  }

  // ----- literals -----

  predicate Prefix(c: char, base: nat) {
    (c, base) in {('b', 2), ('o', 8), ('d', 10), ('z', 12), ('x', 16), ('h', 16)}
  }

  lemma PrefixedText(c: char, base: nat, t: string)
    requires Prefix(c, base) && t != ""
    ensures var s := ['0', c] + t; HasPrefix(s) && PrefixBase(s[1]) == base && s[2..] == t
  {
  }

  function SignedValue(t: string, ds: seq<nat>, base: nat): int {
    if '-' in t then -(Positional(ds, base) as int) else Positional(ds, base)
  }

  /** A literal with a prefix is worth the positional value of its digits in the base that its
      letter stands for. */
  lemma PrefixedLiteral(c: char, base: nat, t: string, ds: seq<nat>, after: char)
    requires Prefix(c, base) && t != "" && PlainNumber(t, base, ds)
    ensures ParseText(['0', c] + t, after) == Parsed.Parsed(SignedValue(t, ds, base), true)
  {
    PrefixedText(c, base, t);
    ScanEndsExactly(t, base);
  }

  /** Nothing else is read successfully behind a prefix other than `0d`: another digit, letter or
      sign is an error, or aborts where it is an exponent mark. */
  lemma PrefixedLiteralExactly(c: char, base: nat, t: string, after: char)
    requires Prefix(c, base) && base != 10 && t != ""
    ensures (exists v :: ParseText(['0', c] + t, after) == Parsed.Parsed(v, true)) <==> IsPlain(t, base)
  {
    PrefixedText(c, base, t);
    ScanEndsExactly(t, base);
    var scan := ScanDigits(t, base, 0, false);
    if scan.status == AtEnd {
      assert ParseText(['0', c] + t, after) == Parsed.Parsed(Signed(scan.acc, scan.negative), true);
    }
  }

  /** Without a prefix the digits are decimal. */
  lemma DecimalLiteral(t: string, ds: seq<nat>, after: char)
    requires PlainNumber(t, 10, ds)
    ensures ParseText(t, after) == Parsed.Parsed(SignedValue(t, ds, 10), true)
  {
    assert !HasPrefix(t) by {
      if |t| > 2 { PlainChar(t, 10, ds, 1); }
    }
    ScanEndsExactly(t, 10);
  }

  /** Two characters are never a prefix: what should follow is missing. */
  lemma PrefixAlone(c: char, base: nat, after: char)
    requires Prefix(c, base)
    ensures ParseText(['0', c], after) == Parsed.Parsed(0, false)
  {
    var s := ['0', c];
    assert s[1..] == [c];
    assert DigitValue('0') == 0 && DigitValue(c) >= 10;
    assert ScanDigits([c], 10, 0, false) == Scan([c], 0, false, AtOther);
  }

  /** A character of a plain number is a separator, a sign or a digit below the base. */
  lemma {:induction false} PlainChar(t: string, base: nat, ds: seq<nat>, i: nat)
    requires Spells(Bare(t), ds) && InBase(ds, base) && i < |t|
    ensures t[i] == '_' || t[i] == '-' || DigitValue(t[i]) < base
    decreases t
  {
    if t[0] == '_' || t[0] == '-' {
      assert Bare(t) == Bare(t[1..]);
      if i > 0 { PlainChar(t[1..], base, ds, i - 1); }
    } else {
      assert Bare(t)[1..] == Bare(t[1..]);
      SpellsStep(Bare(t), ds);
      DigitsAreWritten(t[0], ds[0]);
      if i > 0 { PlainChar(t[1..], base, ds[1..], i - 1); }
    }
  }
}
