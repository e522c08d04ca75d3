/**
 * JavaScript's global `parseInt` (called without a radix) and the decimal
 * text that a template literal such as `${n}` produces for an integer.
 */
module JsNumber {
  import opened Wrappers
  import opened JsString

  /** The value of a digit character in bases up to 16; 16 for anything that is not such a digit. */
  function DigitValue(c: char): (v: nat)
    ensures v <= 16
    ensures v < 10 <==> '0' <= c <= '9'
  {
    if '0' <= c <= '9' then c as int - '0' as int
    else if 'a' <= c <= 'f' then c as int - 'a' as int + 10
    else if 'A' <= c <= 'F' then c as int - 'A' as int + 10
    else 16
  }

  /** `c` is a digit of base `radix` (10 or 16 here). */
  predicate IsDigit(c: char, radix: nat) {
    DigitValue(c) < radix
  }

  /** The longest prefix of `s` made of base-`radix` digits. */
  function LeadingDigits(s: string, radix: nat): (d: string)
    ensures |d| <= |s| && d == s[..|d|]
    ensures forall i :: 0 <= i < |d| ==> IsDigit(d[i], radix)
    ensures |d| < |s| ==> !IsDigit(s[|d|], radix)
  {
    if s != [] && IsDigit(s[0], radix) then [s[0]] + LeadingDigits(s[1..], radix) else []
  }

  /** The number that a string of base-`radix` digits denotes, most significant digit first. */
  function DigitsValue(d: string, radix: nat): nat {
    if d == [] then 0
    else DigitsValue(d[..|d| - 1], radix) * radix + DigitValue(d[|d| - 1])
  }

  /** The text after an optional leading `+` or `-`. */
  function Unsigned(t: string): (u: string)
    ensures u == t || (t != [] && (t[0] == '-' || t[0] == '+') && u == t[1..])
  {
    if t != [] && (t[0] == '-' || t[0] == '+') then t[1..] else t
  }

  /**
   * The unsigned part of `parseInt`: a `0x` or `0X` prefix switches to
   * base 16, then the longest run of digits is read and anything after it
   * is ignored; `None` when there is no digit at all.
   */
  function ParseUnsigned(u: string): Option<nat> {
    var hex := |u| >= 2 && u[0] == '0' && (u[1] == 'x' || u[1] == 'X');
    var radix := if hex then 16 else 10;
    var digits := LeadingDigits(if hex then u[2..] else u, radix);
    if digits == [] then None else Some(DigitsValue(digits, radix))
  }

  /**
   * `parseInt(s)` with no radix argument; `None` stands for `NaN`.
   * Leading whitespace is skipped and one `+` or `-` sign is accepted
   * before the digits.
   */
  function ParseInt(s: string): Option<int> {
    var t := TrimStart(s);
    var negative := t != [] && t[0] == '-';
    match ParseUnsigned(Unsigned(t))
    case None => None
    case Some(m) =>
      var value: int := m;
      Some(if negative then -value else value)
  }

  /** The character of a decimal digit. */
  function DigitChar(d: nat): (c: char)
    requires d < 10
    ensures '0' <= c <= '9' && DigitValue(c) == d
  {
    (d + '0' as int) as char
  }

  /** The decimal numeral of a natural number, without leading zeros. */
  function NatToDecimal(n: nat): (s: string)
    ensures |s| >= 1
    ensures forall i :: 0 <= i < |s| ==> '0' <= s[i] <= '9'
    ensures s[0] == '0' ==> n == 0 && s == "0"
  {
    if n < 10 then [DigitChar(n)] else NatToDecimal(n / 10) + [DigitChar(n % 10)]
  }

  /** `${n}` for an integer `n`: a minus sign for negatives, then the decimal numeral. */
  function IntToDecimal(n: int): (s: string)
    ensures |s| >= 1
    ensures n >= 0 ==> s == NatToDecimal(n)
    ensures n < 0 ==> s == "-" + NatToDecimal(-n)
  {
    if n < 0 then "-" + NatToDecimal(-n) else NatToDecimal(n)
  }

  /** Reading back a decimal numeral gives the number it was printed from. */
  lemma {:induction false} DecimalValue(n: nat)
    ensures DigitsValue(NatToDecimal(n), 10) == n
  {
    if n >= 10 {
      var d := NatToDecimal(n);
      DecimalValue(n / 10);
      assert d[..|d| - 1] == NatToDecimal(n / 10);
    }
  }

  /** The leading run of digits of `d + t` is `d` when `d` is all digits and `t` does not start with one. */
  lemma {:induction false} LeadingDigitsOfAppend(d: string, t: string, radix: nat)
    requires forall i :: 0 <= i < |d| ==> IsDigit(d[i], radix)
    requires t == [] || !IsDigit(t[0], radix)
    ensures LeadingDigits(d + t, radix) == d
  {
    if d != [] {
      assert (d + t)[1..] == d[1..] + t;
      LeadingDigitsOfAppend(d[1..], t, radix);
    }
  }

  /** The unsigned reader reads back a decimal numeral followed by text that does not continue it. */
  lemma ParseUnsignedDecimal(m: nat, t: string)
    requires t == [] || (!('0' <= t[0] <= '9') && t[0] != 'x' && t[0] != 'X')
    ensures ParseUnsigned(NatToDecimal(m) + t) == Some(m)
  {
    var num := NatToDecimal(m);
    var u := num + t;
    assert !(|u| >= 2 && u[0] == '0' && (u[1] == 'x' || u[1] == 'X')) by {
      if |u| >= 2 && u[0] == '0' {
        assert num == "0";
        assert u[1] == t[0];
      }
    }
    LeadingDigitsOfAppend(num, t, 10);
    DecimalValue(m);
  }

  /** A printed integer has no leading blank, and its sign, if any, is a single minus. */
  lemma SignOfDecimal(n: int, t: string)
    ensures var s := IntToDecimal(n) + t;
            TrimStart(s) == s
            && Unsigned(s) == NatToDecimal(if n < 0 then -n else n) + t
            && (s[0] == '-' <==> n < 0)
  {
    var s := IntToDecimal(n) + t;
    var c := IntToDecimal(n)[0];
    assert c == '-' || '0' <= c <= '9';
    assert s[0] == c;
    assert !IsWhitespace(c);
    TrimOfUnblank(s);
    if n < 0 {
      assert s == "-" + (NatToDecimal(-n) + t);
    }
  }

  /**
   * `parseInt` reads back what `${n}` prints, also when the numeral is
   * followed by text that does not continue it (`"12px"` gives 12).
   */
  lemma ParseIntOfDecimal(n: int, t: string)
    requires t == [] || (!('0' <= t[0] <= '9') && t[0] != 'x' && t[0] != 'X')
    ensures ParseInt(IntToDecimal(n) + t) == Some(n)
  {
    SignOfDecimal(n, t);
    ParseUnsignedDecimal(if n < 0 then -n else n, t);
  }

  /** `parseInt` gives `NaN` when, after the blanks and the sign, no digit follows. */
  lemma ParseIntNaN(s: string)
    requires var u := Unsigned(TrimStart(s)); u == [] || !('0' <= u[0] <= '9')
    ensures ParseInt(s) == None
  {
  }
}
