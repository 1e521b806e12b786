/** Reading big integers from source text. */
module BigIntParse {
  import opened BigInts
  import opened BigIntText

  /** Aborted stands for a failed assertion. */
  datatype Parsed = Parsed(value: int, success: bool) | Aborted

  /** How the digit loop ended: at the end of the text, at an exponent mark, at any other
      character that is no digit, or at a second minus sign. */
  datatype Status = AtEnd | AtMark | AtOther | TwoSigns

  datatype Scan = Scan(rest: string, acc: nat, negative: bool, status: Status)

  const TWO64: nat := 0x1_0000_0000_0000_0000
  const MAX_EXPONENT: nat := 308

  function PrefixBase(c: char): nat {
    match c
    case 'b' => 2
    case 'o' => 8
    case 'd' => 10
    case 'z' => 12
    case 'x' => 16
    case 'h' => 16
    case _ => 0
  }

  predicate HasPrefix(s: string) { |s| > 2 && s[0] == '0' && PrefixBase(s[1]) != 0 }

  function PushDigit(acc: nat, base: nat, d: nat): nat { acc * base + d }

  function ScanDigits(text: string, base: nat, acc: nat, negative: bool): (scan: Scan)
    ensures scan.status == AtEnd <==> scan.rest == ""
    ensures scan.status == AtMark ==> scan.rest[0] in {'e', 'E'}
    ensures scan.status in {AtOther, TwoSigns} ==> scan.rest[0] !in {'e', 'E'}
  {
    if text == "" then Scan(text, acc, negative, AtEnd)
    else
      var r := text[0];
      if r == '-' then
        if negative then Scan(text, acc, negative, TwoSigns) else ScanDigits(text[1..], base, acc, true)
      else if r == '_' then ScanDigits(text[1..], base, acc, negative)
      else if DigitValue(r) >= base then
        Scan(text, acc, negative, if r == 'e' || r == 'E' then AtMark else AtOther)
      else ScanDigits(text[1..], base, PushDigit(acc, base, DigitValue(r)), negative)
  }

  /** The next digit of an exponent, in wrapping 64-bit arithmetic. */
  function PushWrapped(exp: nat, d: nat): nat { (exp * 10 % TWO64 + d) % TWO64 }

  /** The exponent, in wrapping 64-bit arithmetic, up to the first character that is no digit. */
  function ScanExponent(text: string, exp: nat): nat {
    if text == "" then exp
    else if text[0] == '_' then ScanExponent(text[1..], exp)
    else if '0' <= text[0] <= '9' then ScanExponent(text[1..], PushWrapped(exp, DigitValue(text[0])))
    else exp
  }

  function Pow10(n: nat): nat { if n == 0 then 1 else 10 * Pow10(n - 1) }

  function Signed(acc: nat, negative: bool): int { if negative then -(acc as int) else acc }

  /** Reading the characters after an exponent mark; `after` is the byte behind the string. */
  function ReadExponent(text: string, after: char, base: nat, acc: nat, negative: bool): Parsed {
    if base != 10 then Aborted
    else
      var c := if text == "" then after else text[0];
      if c == '-' then Aborted
      else
        var exp := ScanExponent(if c == '+' && text != "" then text[1..] else text, 0);
        if exp > MAX_EXPONENT then Parsed(acc, false)
        else Parsed(Signed(acc * Pow10(exp), negative), true)
  }

  function ParseText(s: string, after: char): Parsed {
    var base, text := if HasPrefix(s) then PrefixBase(s[1]) else 10, if HasPrefix(s) then s[2..] else s;
    var scan := ScanDigits(text, base, 0, false);
    match scan.status
    case TwoSigns => Parsed(scan.acc, false)
    case AtMark => ReadExponent(scan.rest[1..], after, base, scan.acc, scan.negative)
    case AtOther => Parsed(Signed(scan.acc, scan.negative), false)
    case AtEnd => Parsed(Signed(scan.acc, scan.negative), true)
  }

  /** The digit loop: it leaves the value in dst and stops at position i. */
  method ReadDigits(dst: BigInt, text: string, base: nat) returns (i: nat, negative: bool, twoSigns: bool)
    modifies dst
    ensures i <= |text| && dst.v >= 0
    ensures var scan := ScanDigits(text, base, 0, false);
      && scan.rest == text[i..] && scan.acc == dst.v && scan.negative == negative && (scan.status == TwoSigns <==> twoSigns)
  {
    dst.v := 0;
    negative, twoSigns, i := false, false, 0;
    while i < |text|
      invariant i <= |text| && dst.v >= 0 && !twoSigns
      invariant ScanDigits(text, base, 0, false) == ScanDigits(text[i..], base, dst.v, negative)
    {
      var r := text[i];
      assert text[i..][0] == r && text[i..][1..] == text[i + 1..];
      if r == '-' {
        if negative {
          twoSigns := true;
          return;
        }
        negative := true;
      } else if r != '_' {
        var v := DigitValue(r);
        if v >= base {
          break;
        }
        dst.v := dst.v * base + v;
      }
      i := i + 1;
    }
  }

  /** The exponent loop. */
  method ReadExponentDigits(text: string) returns (exp: nat, ok: bool)
    ensures exp == ScanExponent(text, 0)
  {
    exp, ok := 0, true;
    for i := 0 to |text|
      invariant ScanExponent(text, 0) == ScanExponent(text[i..], exp)
    {
      var r := text[i];
      assert text[i..][0] == r && text[i..][1..] == text[i + 1..];
      if r == '_' {
        continue;
      }
      if !('0' <= r <= '9') {
        ok := false;
        break;
      }
      exp := exp * 10 % TWO64;
      exp := (exp + DigitValue(r)) % TWO64;
    }
  }

  /** The reader: the value goes to dst. A bad character in an exponent clears `success`, but
      raising to the exponent sets it again. */
  method FromString(dst: BigInt, s: string, after: char) returns (aborted: bool, success: bool)
    modifies dst
    ensures ParseText(s, after) == if aborted then Aborted else Parsed(dst.v, success)
  {
    var base, text := 10, s;
    if HasPrefix(s) {
      base, text := PrefixBase(s[1]), s[2..];
    }
    var i, negative, twoSigns := ReadDigits(dst, text, base);
    if twoSigns {
      return false, false;
    }
    success := true;
    if i < |text| && text[i] != 'e' && text[i] != 'E' {
      success := false;
    }
    if i < |text| && (text[i] == 'e' || text[i] == 'E') {
      var tail := text[i + 1..];
      assert tail == text[i..][1..];
      if base != 10 {
        return true, success;
      }
      var c := if tail == "" then after else tail[0];
      if c == '-' {
        return true, success;
      }
      var exp;
      exp, success := ReadExponentDigits(if c == '+' && tail != "" then tail[1..] else tail);
      if exp > MAX_EXPONENT {
        return false, false;
      }
      success := true;
      dst.v := dst.v * Pow10(exp);
    }
    if negative {
      dst.v := -dst.v;
    }
    aborted := false;
  }
}
