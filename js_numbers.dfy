/** The JavaScript number coercions the forms rely on: `parseInt(text)`
    on the text a number input holds, the `parseInt(text) || k`
    fallback of the copies and quantity inputs, and the decimal rendering a
    template literal gives a non-negative integer. */
module JsNumbers {
  import opened Library

  predicate IsDigit(c: char) { '0' <= c <= '9' }

  /** The white space and line terminators `parseInt` skips. */
  predicate IsSpace(c: char)
  {
    || c == ' ' || c == '\t' || c == '\n' || c == '\r' || c == '\U{B}' || c == '\U{C}'
    || c == '\U{A0}' || c == '\U{1680}' || '\U{2000}' <= c <= '\U{200A}'
    || c == '\U{2028}' || c == '\U{2029}' || c == '\U{202F}' || c == '\U{205F}'
    || c == '\U{3000}' || c == '\U{FEFF}'
  }

  /** The text with its leading white space removed. */
  function TrimStart(s: string): (t: string)
    ensures t == [] || !IsSpace(t[0])
  {
    if |s| > 0 && IsSpace(s[0]) then TrimStart(s[1..]) else s
  }

  /** The longest prefix of `s` made of decimal digits. */
  function DigitPrefix(s: string): (d: string)
    ensures forall i :: 0 <= i < |d| ==> IsDigit(d[i])
  {
    if |s| > 0 && IsDigit(s[0]) then [s[0]] + DigitPrefix(s[1..]) else []
  }

  function DigitValue(c: char): nat
    requires IsDigit(c)
  {
    (c as int) - ('0' as int)
  }

  /** The value of a string of decimal digits, most significant first. */
  function DigitsValue(d: string): nat
    requires forall i :: 0 <= i < |d| ==> IsDigit(d[i])
  {
    if d == [] then 0 else 10 * DigitsValue(d[..|d| - 1]) + DigitValue(d[|d| - 1])
  }

  /** `parseInt(s)` with no radix: skip leading white space, take an
      optional sign and then the longest run of decimal digits; `None`
      stands for NaN (no digit at all). The hexadecimal reading of a text
      that starts "0x" or "0X" is not modelled: a number input's value never
      holds one. */
  function ParseInt(s: string): (r: Option<int>)
    ensures r.None? <==> DigitPrefix(Unsigned(TrimStart(s))) == []
  {
    var t := TrimStart(s);
    var d := DigitPrefix(Unsigned(t));
    if d == [] then None
    else if |t| > 0 && t[0] == '-' then Some(-(DigitsValue(d) as int))
    else Some(DigitsValue(d))
  }

  /** The text after an optional leading sign. */
  function Unsigned(t: string): string
  {
    if |t| > 0 && (t[0] == '-' || t[0] == '+') then t[1..] else t
  }

  /** `parseInt(s) || fallback`: NaN, 0 and -0 are falsy, so each of them
      gives way to the fallback; every other parsed value is kept. */
  function ParseIntOr(s: string, fallback: int): (n: int)
    ensures ParseInt(s).None? ==> n == fallback
    ensures ParseInt(s) == Some(0) ==> n == fallback
    ensures ParseInt(s).Some? && ParseInt(s).value != 0 ==> n == ParseInt(s).value
  {
    match ParseInt(s)
    case None => fallback
    case Some(v) => if v == 0 then fallback else v
  }

  /** How `${n}` renders a non-negative integer: decimal, no leading zero. */
  function DecimalString(n: nat): (s: string)
    ensures |s| >= 1 && forall i :: 0 <= i < |s| ==> IsDigit(s[i])
    ensures n > 0 ==> s[0] != '0'
    decreases n
  {
    if n < 10 then [('0' as int + n) as char]
    else DecimalString(n / 10) + [('0' as int + n % 10) as char]
  }

  /** Reading back what `DecimalString` printed gives the number again. */
  lemma {:induction false} DecimalDigitsValue(n: nat)
    ensures DigitsValue(DecimalString(n)) == n
    decreases n
  {
    if n >= 10 {
      var s := DecimalString(n);
      assert s[..|s| - 1] == DecimalString(n / 10);
      DecimalDigitsValue(n / 10);
    }
  }

  lemma {:induction false} DigitPrefixOfDigits(d: string)
    requires forall i :: 0 <= i < |d| ==> IsDigit(d[i])
    ensures DigitPrefix(d) == d
  {
    if d != [] {
      DigitPrefixOfDigits(d[1..]);
    }
  }

  /** A non-empty run of digits parses to its value. */
  lemma ParseIntOfDigits(d: string)
    requires |d| > 0 && forall i :: 0 <= i < |d| ==> IsDigit(d[i])
    ensures ParseInt(d) == Some(DigitsValue(d))
  {
    StartsWithDigit(d);
    DigitPrefixOfDigits(d);
    ParseIntOfUnsigned(d);
  }

  /** A text that starts with a digit has no leading space and no sign. */
  lemma StartsWithDigit(s: string)
    requires |s| > 0 && IsDigit(s[0])
    ensures TrimStart(s) == s && Unsigned(s) == s
  {
    assert !IsSpace(s[0]);
  }

  /** Text with no leading space or sign that is all digits parses to its value. */
  lemma ParseIntOfUnsigned(d: string)
    requires |d| > 0 && TrimStart(d) == d && Unsigned(d) == d && DigitPrefix(d) == d
    ensures ParseInt(d) == Some(DigitsValue(d))
  {
  }

  /** White space in front of a text that does not start with white space
      is skipped. */
  lemma {:induction false} TrimSpaces(ws: string, t: string)
    requires forall i :: 0 <= i < |ws| ==> IsSpace(ws[i])
    requires t == [] || !IsSpace(t[0])
    ensures TrimStart(ws + t) == t
  {
    if ws == [] {
      assert ws + t == t;
    } else {
      assert (ws + t)[1..] == ws[1..] + t;
      TrimSpaces(ws[1..], t);
    }
  }

  /** What `parseInt` reads: past leading white space and an optional
      sign, the run of decimal digits up to the first other character,
      negated after a minus sign. */
  lemma ParseIntReads(ws: string, sign: string, d: string, rest: string)
    requires forall i :: 0 <= i < |ws| ==> IsSpace(ws[i])
    requires sign == "" || sign == "-" || sign == "+"
    requires |d| > 0 && forall i :: 0 <= i < |d| ==> IsDigit(d[i])
    requires rest == [] || !IsDigit(rest[0])
    requires !(d == "0" && rest != [] && (rest[0] == 'x' || rest[0] == 'X'))
    ensures ParseInt(ws + (sign + d + rest)) == Some(if sign == "-" then -(DigitsValue(d) as int) else DigitsValue(d) as int)
  {
    var t := sign + d + rest;
    SignedDigits(sign, d, rest);
    TrimSpaces(ws, t);
    DigitPrefixStops(d, rest);
    ParseIntOfTrimmed(ws + t, t, d);
  }

  /** A sign followed by digits: not white space, and the sign comes off. */
  lemma SignedDigits(sign: string, d: string, rest: string)
    requires sign == "" || sign == "-" || sign == "+"
    requires |d| > 0 && IsDigit(d[0])
    ensures var t := sign + d + rest;
      && !IsSpace(t[0]) && Unsigned(t) == d + rest
      && (t[0] == '-' <==> sign == "-")
  {
    var t := sign + d + rest;
    if sign == "" {
      assert t == d + rest;
    } else {
      assert t[0] == sign[0] && t[1..] == d + rest;
    }
  }

  /** `parseInt` once the white space is skipped and the digit run found. */
  lemma ParseIntOfTrimmed(s: string, t: string, d: string)
    requires TrimStart(s) == t && |t| > 0 && DigitPrefix(Unsigned(t)) == d && d != []
    ensures ParseInt(s) == Some(if t[0] == '-' then -(DigitsValue(d) as int) else DigitsValue(d) as int)
  {
  }

  /** `parseInt` inverts the decimal rendering of a non-negative integer. */
  lemma ParseIntDecimal(n: nat)
    ensures ParseInt(DecimalString(n)) == Some(n)
  {
    ParseIntOfDigits(DecimalString(n));
    DecimalDigitsValue(n);
  }

  /** The copies and quantity inputs: typing the decimal form of a positive
      count stores that count; an empty or non-numeric entry, or zero,
      stores the fallback instead. */
  lemma ParseIntOrCases(n: nat, fallback: int)
    ensures n > 0 ==> ParseIntOr(DecimalString(n), fallback) == n
    ensures ParseIntOr(DecimalString(0), fallback) == fallback
    ensures ParseIntOr("", fallback) == fallback
    ensures ParseIntOr("abc", fallback) == fallback
  {
    ParseIntDecimal(n);
    ParseIntDecimal(0);
    assert !IsSpace('a') && !IsDigit('a');
    assert TrimStart("abc") == "abc";
    assert Unsigned("abc") == "abc";
    assert DigitPrefix("abc") == [];
  }

  /** The digit run stops at the first character that is not a digit. */
  lemma {:induction false} DigitPrefixStops(d: string, rest: string)
    requires forall i :: 0 <= i < |d| ==> IsDigit(d[i])
    requires rest == [] || !IsDigit(rest[0])
    ensures DigitPrefix(d + rest) == d
  {
    if d == [] {
      assert d + rest == rest;
    } else {
      assert (d + rest)[1..] == d[1..] + rest;
      DigitPrefixStops(d[1..], rest);
    }
  }

  /** `parseInt` reads back a number printed at the start of a text, as
      long as the text goes on with something other than a digit. */
  lemma ParseIntOfLeadingNumber(n: nat, rest: string)
    requires rest == [] || !IsDigit(rest[0])
    requires n == 0 ==> rest == [] || (rest[0] != 'x' && rest[0] != 'X')
    ensures ParseInt(DecimalString(n) + rest) == Some(n)
  {
    var d := DecimalString(n);
    var s := d + rest;
    assert s[0] == d[0] && IsDigit(d[0]);
    StartsWithDigit(s);
    DigitPrefixStops(d, rest);
    DecimalDigitsValue(n);
  }
}
