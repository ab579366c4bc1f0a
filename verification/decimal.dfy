/** Decimal digit strings: the `{n:06d}` tile-id format, `str.isdigit()` +
    `int()` for triangle counts, and `int()` for accessor strides. */
module Decimal {
  import opened Wrappers
  import Text

  predicate IsDigit(c: char) {
    '0' <= c <= '9'
  }

  /** `s.isdigit()` over ASCII digits: non-empty and every character a digit. */
  predicate AllDigits(s: string) {
    |s| > 0 && forall i :: 0 <= i < |s| ==> IsDigit(s[i])
  }

  function DigitChar(d: nat): char
    requires d < 10
  {
    ('0' as int + d) as char
  }

  function DigitValue(c: char): nat
    requires IsDigit(c)
  {
    c as int - '0' as int
  }

  /** The number a string of digits denotes (leading zeros allowed). */
  function Value(s: string): nat
    requires forall i :: 0 <= i < |s| ==> IsDigit(s[i])
    decreases |s|
  {
    if |s| == 0 then 0 else 10 * Value(s[..|s| - 1]) + DigitValue(s[|s| - 1])
  }

  /** `str(n)` for a natural number. */
  function Format(n: nat): (r: string)
    ensures AllDigits(r)
    ensures n > 0 ==> r[0] != '0'
    decreases n
  {
    if n < 10 then [DigitChar(n)] else Format(n / 10) + [DigitChar(n % 10)]
  }

  /** `str` followed by zero padding on the left to at least `width` characters. */
  function ZeroPad(s: string, width: nat): (r: string)
    ensures |r| == if |s| < width then width else |s|
    ensures r[|r| - |s|..] == s
    ensures forall i :: 0 <= i < |r| - |s| ==> r[i] == '0'
  {
    if |s| < width then seq(width - |s|, _ => '0') + s else s
  }

  /** Reading back what `Format` wrote gives the number. */
  lemma {:induction false} ValueFormat(n: nat)
    ensures Value(Format(n)) == n
    decreases n
  {
    if n >= 10 {
      ValueFormat(n / 10);
      var s := Format(n);
      assert s[..|s| - 1] == Format(n / 10);
    }
  }

  /** Leading zeros do not change the value of a digit string. */
  lemma {:induction false} ValueLeadingZeros(z: nat, s: string)
    requires forall i :: 0 <= i < |s| ==> IsDigit(s[i])
    ensures Value(seq(z, _ => '0') + s) == Value(s)
    decreases |s|
  {
    var t := seq(z, _ => '0') + s;
    if |s| == 0 {
      assert t == seq(z, _ => '0');
      AllZeros(z);
    } else {
      assert t[..|t| - 1] == seq(z, _ => '0') + s[..|s| - 1];
      ValueLeadingZeros(z, s[..|s| - 1]);
    }
  }

  lemma {:induction false} AllZeros(z: nat)
    ensures Value(seq(z, _ => '0')) == 0
    decreases z
  {
    if z > 0 {
      assert seq(z, _ => '0')[..z - 1] == seq(z - 1, _ => '0');
      AllZeros(z - 1);
    }
  }

  /** Zero padding is undone by reading the value: the padded form is unambiguous. */
  lemma ValueZeroPad(n: nat, width: nat)
    ensures Value(ZeroPad(Format(n), width)) == n
  {
    var s := Format(n);
    if |s| < width {
      ValueLeadingZeros(width - |s|, s);
    }
    ValueFormat(n);
  }

  /** `int(s)` for the plain forms of the source text: optional surrounding
      white space, an optional sign, then one or more ASCII digits. */
  function ParseInt(s: string): (r: Option<int>)
    ensures AllDigits(s) ==> r == Some(Value(s))
  {
    var t := TrimSpace(s);
    if AllDigits(t) then Some(Value(t))
    else if |t| > 1 && t[0] == '+' && AllDigits(t[1..]) then Some(Value(t[1..]))
    else if |t| > 1 && t[0] == '-' && AllDigits(t[1..]) then Some(-(Value(t[1..]) as int))
    else None
  }

  /** `s.strip()` over ASCII white space. */
  function TrimSpace(s: string): (r: string)
    ensures (forall i :: 0 <= i < |s| ==> !Text.IsSpace(s[i])) ==> r == s
    decreases |s|
  {
    if |s| > 0 && Text.IsSpace(s[0]) then TrimSpace(s[1..])
    else if |s| > 0 && Text.IsSpace(s[|s| - 1]) then TrimSpace(s[..|s| - 1])
    else s
  }

  /** `str(n)` for an integer: a minus sign before the digits of a negative one. */
  function FormatInt(n: int): (r: string)
    ensures |r| > 0 && !Text.IsSpace(r[0]) && !Text.IsSpace(r[|r| - 1])
  {
    if n < 0 then "-" + Format(-n) else Format(n)
  }

  /** `int()` reads back any integer `str` wrote, also with white space around it. */
  lemma ParseIntFormat(n: int, before: string, after: string)
    requires forall i :: 0 <= i < |before| ==> Text.IsSpace(before[i])
    requires forall i :: 0 <= i < |after| ==> Text.IsSpace(after[i])
    ensures ParseInt(before + FormatInt(n) + after) == Some(n)
  {
    var t := FormatInt(n);
    TrimSpaceAround(before, t, after);
    if n < 0 {
      ValueFormat(-n);
      assert t[1..] == Format(-n);
      assert !AllDigits(t) by { assert !IsDigit(t[0]); }
    } else {
      ValueFormat(n);
    }
  }

  /** Stripping removes exactly the white space around a text that neither
      starts nor ends with white space. */
  lemma {:induction false} TrimSpaceAround(before: string, t: string, after: string)
    requires forall i :: 0 <= i < |before| ==> Text.IsSpace(before[i])
    requires forall i :: 0 <= i < |after| ==> Text.IsSpace(after[i])
    requires |t| > 0 && !Text.IsSpace(t[0]) && !Text.IsSpace(t[|t| - 1])
    ensures TrimSpace(before + t + after) == t
    decreases |before| + |after|
  {
    var s := before + t + after;
    if |before| > 0 {
      assert s[0] == before[0];
      assert s[1..] == before[1..] + t + after;
      TrimSpaceAround(before[1..], t, after);
    } else if |after| > 0 {
      assert s[0] == t[0];
      assert s[|s| - 1] == after[|after| - 1];
      assert s[..|s| - 1] == before + t + after[..|after| - 1];
      TrimSpaceAround(before, t, after[..|after| - 1]);
    } else {
      assert s == t;
    }
  }
}
