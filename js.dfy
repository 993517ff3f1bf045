/**
  The JavaScript built-ins the derivation relies on, on unbounded integers:
  `String.prototype.split` (first field only), the global `parseInt` with no
  radix argument, `Number.prototype.toString` on integers and
  `String.prototype.padStart` with a one-character filler.
 */
module Js {
  import opened Wrappers

  /** `s.split(sep)[0]`: the text before the first `sep`, or all of `s`. */
  function BeforeFirst(s: string, sep: char): (r: string)
    ensures |r| <= |s| && r == s[..|r|]
    ensures sep !in r
    ensures |r| == |s| || s[|r|] == sep
  {
    if |s| == 0 || s[0] == sep then "" else [s[0]] + BeforeFirst(s[1..], sep)
  }

  /** ECMAScript's StrWhiteSpaceChar: the WhiteSpace and LineTerminator code points. */
  predicate IsStrWhiteSpace(c: char)
  {
    || c == '\t' || c == '\n' || c == '\U{B}' || c == '\U{C}' || c == '\r' || c == ' '
    || c == '\U{A0}' || c == '\U{1680}' || ('\U{2000}' <= c <= '\U{200A}')
    || c == '\U{2028}' || c == '\U{2029}' || c == '\U{202F}' || c == '\U{205F}'
    || c == '\U{3000}' || c == '\U{FEFF}'
  }

  /** `s` without its leading white space. */
  function TrimStart(s: string): (r: string)
    ensures |r| <= |s| && r == s[|s| - |r|..]
    ensures forall k :: 0 <= k < |s| - |r| ==> IsStrWhiteSpace(s[k])
    ensures r == [] || !IsStrWhiteSpace(r[0])
  {
    if |s| > 0 && IsStrWhiteSpace(s[0]) then TrimStart(s[1..]) else s
  }

  predicate IsHexDigit(c: char)
  {
    '0' <= c <= '9' || 'a' <= c <= 'f' || 'A' <= c <= 'F'
  }

  function DigitValue(c: char): (v: nat)
    requires IsHexDigit(c)
    ensures v < 16
    ensures ('0' <= c <= '9') <==> v < 10
  {
    if '0' <= c <= '9' then (c - '0') as nat
    else if 'a' <= c <= 'f' then (c - 'a') as nat + 10
    else (c - 'A') as nat + 10
  }

  /** `c` is a digit of base `radix` (10 or 16); letters of either case count. */
  predicate IsDigitIn(c: char, radix: nat)
  {
    IsHexDigit(c) && DigitValue(c) < radix
  }

  predicate AllDigitsIn(d: string, radix: nat)
  {
    forall k :: 0 <= k < |d| ==> IsDigitIn(d[k], radix)
  }

  /** The longest prefix of `s` made of digits of base `radix`. */
  function LeadingDigits(s: string, radix: nat): (r: string)
    ensures |r| <= |s| && r == s[..|r|]
    ensures AllDigitsIn(r, radix)
    ensures |r| == |s| || !IsDigitIn(s[|r|], radix)
  {
    if |s| == 0 || !IsDigitIn(s[0], radix) then "" else [s[0]] + LeadingDigits(s[1..], radix)
  }

  /** The number a string of base-`radix` digits denotes, most significant digit first. */
  function DigitsValue(d: string, radix: nat): nat
    requires AllDigitsIn(d, radix)
  {
    if |d| == 0 then 0 else DigitsValue(d[..|d| - 1], radix) * radix + DigitValue(d[|d| - 1])
  }

  /**
    `parseInt(s)` with no radix: skip leading white space, take one optional
    sign, then read the magnitude. No digit at all is `NaN`, here `None`. A
    negative zero is not told apart from zero.
   */
  function ParseInt(s: string): Option<int>
  {
    var t := TrimStart(s);
    var signed := |t| > 0 && (t[0] == '+' || t[0] == '-');
    var m := ParseMagnitude(if signed then t[1..] else t);
    if m.None? then None
    else if signed && t[0] == '-' then Some(0 - m.value)
    else Some(m.value)
  }

  /** `u` opens with `0x` or `0X`. */
  predicate HasHexPrefix(u: string)
  {
    |u| >= 2 && u[0] == '0' && (u[1] == 'x' || u[1] == 'X')
  }

  /**
    The unsigned part of `parseInt`: a `0x`/`0X` prefix selects base 16 and
    anything else base 10; reading stops at the first character that is not a
    digit of that base, and at least one digit is needed.
   */
  function ParseMagnitude(u: string): Option<nat>
  {
    var radix := if HasHexPrefix(u) then 16 else 10;
    var z := LeadingDigits(if HasHexPrefix(u) then u[2..] else u, radix);
    if z == [] then None else Some(DigitsValue(z, radix))
  }

  function DecimalDigit(n: nat): (c: char)
    requires n < 10
    ensures IsDigitIn(c, 10) && DigitValue(c) == n
  {
    ('0' as int + n) as char
  }

  /** The decimal numeral of `n`: no leading zero, and it denotes `n`. */
  function NatToDecimal(n: nat): (r: string)
    ensures |r| > 0 && AllDigitsIn(r, 10)
    ensures r[0] == '0' ==> r == "0"
    ensures DigitsValue(r, 10) == n
  {
    if n < 10 then [DecimalDigit(n)]
    else
      var p := NatToDecimal(n / 10);
      var r := p + [DecimalDigit(n % 10)];
      assert r[..|r| - 1] == p;
      r
  }

  /** `n.toString()` for an integer: an optional minus sign, then the decimal numeral. */
  function IntToString(n: int): string
  {
    if n < 0 then "-" + NatToDecimal(-n) else NatToDecimal(n)
  }

  /** `s.padStart(width, [fill])`: `fill` repeated on the left up to `width`; never truncates. */
  function PadStart(s: string, width: nat, fill: char): (r: string)
    ensures |r| == if |s| < width then width else |s|
    ensures r[|r| - |s|..] == s
    ensures forall k :: 0 <= k < |r| - |s| ==> r[k] == fill
  {
    if |s| < width then seq(width - |s|, _ => fill) + s else s
  }

  /** Leading zeros do not change the value of a numeral. */
  lemma {:induction false} LeadingZerosValue(z: nat, d: string, radix: nat)
    requires AllDigitsIn(d, radix) && radix > 0
    ensures AllDigitsIn(seq(z, _ => '0') + d, radix)
    ensures DigitsValue(seq(z, _ => '0') + d, radix) == DigitsValue(d, radix)
  {
    var zs := seq(z, _ => '0');
    if |d| == 0 {
      assert zs + d == zs;
      AllZerosValue(z, radix);
    } else {
      var p := d[..|d| - 1];
      assert (zs + d)[..|zs + d| - 1] == zs + p;
      LeadingZerosValue(z, p, radix);
    }
  }

  lemma {:induction false} AllZerosValue(z: nat, radix: nat)
    requires radix > 0
    ensures AllDigitsIn(seq(z, _ => '0'), radix)
    ensures DigitsValue(seq(z, _ => '0'), radix) == 0
  {
    if z > 0 {
      assert seq(z, _ => '0')[..z - 1] == seq(z - 1, _ => '0');
      AllZerosValue(z - 1, radix);
    }
  }

  /** Text that opens with neither white space nor a sign is read by `ParseMagnitude` alone. */
  lemma ParseIntUnsigned(s: string)
    requires |s| > 0 && !IsStrWhiteSpace(s[0]) && s[0] != '+' && s[0] != '-'
    ensures ParseInt(s) == ParseMagnitude(s)
  {
    assert TrimStart(s) == s;
  }

  /** Text that opens with a decimal digit, and not with `0x`, reads as its leading decimal digits. */
  lemma ParseIntFromDigit(s: string)
    requires |s| > 0 && IsDigitIn(s[0], 10) && !HasHexPrefix(s)
    ensures ParseInt(s) == Some(DigitsValue(LeadingDigits(s, 10), 10))
  {
    ParseIntUnsigned(s);
    assert LeadingDigits(s, 10) != [];
  }

  /** A run of decimal digits reads back as its decimal value. */
  lemma ParseIntOfDecimalDigits(d: string)
    requires |d| > 0 && AllDigitsIn(d, 10)
    ensures ParseInt(d) == Some(DigitsValue(d, 10))
    ensures '-' !in d
  {
    assert forall k :: 0 <= k < |d| ==> d[k] != '-';
    assert |d| >= 2 ==> IsDigitIn(d[1], 10);
    assert !HasHexPrefix(d);
    ParseIntFromDigit(d);
    LeadingDigitsOfPrefix(d, []);
    assert d + [] == d;
  }

  /** Without a minus sign anywhere, `parseInt` yields `NaN` or a number of at least zero. */
  lemma ParseIntNoMinus(s: string)
    requires '-' !in s
    ensures ParseInt(s).None? || ParseInt(s).value >= 0
  {
    var t := TrimStart(s);
    if |t| > 0 {
      assert t[0] == s[|s| - |t|];
      assert t[0] != '-';
    }
  }

  /** Digits after the first non-digit are ignored, except that `0x` switches to base 16. */
  lemma ParseIntStopsAtNonDigit(d: string, c: char, rest: string)
    requires |d| > 0 && AllDigitsIn(d, 10) && !IsDigitIn(c, 10)
    requires !(d == "0" && (c == 'x' || c == 'X'))
    ensures ParseInt(d + [c] + rest) == Some(DigitsValue(d, 10))
  {
    var s := d + ([c] + rest);
    assert d + [c] + rest == s;
    NoHexPrefix(d, c, rest);
    ParseIntFromDigit(s);
    LeadingDigitsOfPrefix(d, [c] + rest);
  }

  lemma NoHexPrefix(d: string, c: char, rest: string)
    requires |d| > 0 && AllDigitsIn(d, 10)
    requires !(d == "0" && (c == 'x' || c == 'X'))
    ensures var s := d + ([c] + rest); s[0] == d[0] && IsDigitIn(s[0], 10) && !HasHexPrefix(s)
  {
    var s := d + ([c] + rest);
    assert s[0] == d[0];
    if |d| >= 2 {
      assert s[1] == d[1] && IsDigitIn(d[1], 10);
    } else {
      assert s[1] == c;
      if d[0] == '0' {
        assert d == "0";
      }
    }
  }

  lemma {:induction false} LeadingDigitsOfPrefix(d: string, rest: string)
    requires AllDigitsIn(d, 10) && (rest == [] || !IsDigitIn(rest[0], 10))
    ensures LeadingDigits(d + rest, 10) == d
  {
    if |d| > 0 {
      assert (d + rest)[1..] == d[1..] + rest;
      LeadingDigitsOfPrefix(d[1..], rest);
      assert d == [d[0]] + d[1..];
    } else {
      assert d + rest == rest;
    }
  }
}
