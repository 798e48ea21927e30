/**
 Decimal integers as text: Python's `"%d" % n` and Python 2's `int(s)` on a byte string.
 `int(s)` ignores surrounding whitespace, takes an optional sign, skips whitespace after
 the sign (CPython's `PyOS_strtol` hands the rest to `PyOS_strtoul`, which skips it), and
 then needs at least one ASCII digit; anything else raises ValueError, modelled as `None`.
 */
module Decimal {
  import opened Base

  /** The whitespace characters of Python 2 byte strings: space, \t, \n, \v, \f, \r. */
  predicate IsSpace(c: char)
  {
    c == ' ' || c == '\t' || c == '\n' || c == '\U{000B}' || c == '\U{000C}' || c == '\r'
  }

  predicate NoSpace(s: string)
  {
    forall k :: 0 <= k < |s| ==> !IsSpace(s[k])
  }

  predicate IsDigit(c: char)
  {
    '0' <= c <= '9'
  }

  predicate AllDigits(s: string)
  {
    forall k :: 0 <= k < |s| ==> IsDigit(s[k])
  }

  function DigitChar(d: nat): (c: char)
    requires d < 10
    ensures IsDigit(c)
  {
    "0123456789"[d]
  }

  function DigitValue(c: char): (d: nat)
    requires IsDigit(c)
    ensures d < 10 && DigitChar(d) == c
  {
    (c as int - '0' as int) as nat
  }

  /** The decimal digits of `n`, most significant first, with no leading zero. */
  function NatDigits(n: nat): (s: string)
    ensures |s| > 0 && AllDigits(s)
    decreases n
  {
    if n < 10 then [DigitChar(n)] else NatDigits(n / 10) + [DigitChar(n % 10)]
  }

  /** The number a non-empty string of digits denotes. */
  function DigitsValue(s: string): nat
    requires AllDigits(s)
    decreases |s|
  {
    if |s| == 0 then 0 else 10 * DigitsValue(s[..|s| - 1]) + DigitValue(s[|s| - 1])
  }

  /** `"%d" % n`: a minus sign for negative numbers, then the digits of the magnitude. */
  function FormatInt(n: int): (s: string)
    ensures |s| > 0 && NoSpace(s)
    ensures n >= 0 ==> AllDigits(s)
    ensures n < 0 ==> s[0] == '-' && AllDigits(s[1..])
  {
    var d := NatDigits(if n < 0 then -n else n);
    if n < 0 then "-" + d else d
  }

  /** `s` with leading and trailing whitespace removed, as `str.strip()` does. */
  function Strip(s: string): (t: string)
    ensures |t| == 0 || (!IsSpace(t[0]) && !IsSpace(t[|t| - 1]))
    ensures NoSpace(s) ==> t == s
    decreases |s|
  {
    if |s| > 0 && IsSpace(s[0]) then Strip(s[1..])
    else if |s| > 0 && IsSpace(s[|s| - 1]) then Strip(s[..|s| - 1])
    else s
  }

  /** `s` without its leading whitespace. */
  function TrimLeft(s: string): (t: string)
    ensures |t| == 0 || !IsSpace(t[0])
    ensures |s| > 0 && !IsSpace(s[0]) ==> t == s
    decreases |s|
  {
    if |s| > 0 && IsSpace(s[0]) then TrimLeft(s[1..]) else s
  }

  /** Python 2 `int(s)` in base 10: `None` where Python raises ValueError. */
  function ParseInt(s: string): (r: Option<int>)
    ensures r.Some? ==> |Strip(s)| > 0
    ensures r.Some? && r.value < 0 ==> Strip(s)[0] == '-'
    ensures r.Some? && Strip(s)[0] != '-' && Strip(s)[0] != '+' ==> AllDigits(Strip(s)) && r.value >= 0
  {
    var t := Strip(s);
    if |t| > 0 && (t[0] == '-' || t[0] == '+') then
      var d := TrimLeft(t[1..]);
      if |d| > 0 && AllDigits(d) then
        Some(if t[0] == '-' then -(DigitsValue(d) as int) else DigitsValue(d))
      else None
    else if |t| > 0 && AllDigits(t) then Some(DigitsValue(t))
    else None
  }

  lemma {:induction false} NatDigitsValue(n: nat)
    ensures DigitsValue(NatDigits(n)) == n
    decreases n
  {
    var s := NatDigits(n);
    if n >= 10 {
      NatDigitsValue(n / 10);
      assert s[..|s| - 1] == NatDigits(n / 10);
    }
  }

  /** `int("%d" % n) == n` for every integer. */
  lemma ParseFormatInt(n: int)
    ensures ParseInt(FormatInt(n)) == Some(n)
  {
    var s := FormatInt(n);
    assert Strip(s) == s;
    NatDigitsValue(if n < 0 then -n else n);
    if n < 0 {
      assert s[1..] == NatDigits(-n);
      assert TrimLeft(s[1..]) == s[1..];
    }
  }

  /** Whitespace between the sign and the digits is accepted: `int("-\t1") == -1`. */
  lemma ParseIntSpaceAfterSign()
    ensures ParseInt("-\t1") == Some(-1)
  {
    assert Strip("-\t1") == "-\t1";
    assert "-\t1"[1..] == "\t1";
    assert TrimLeft("\t1") == "1" by {
      assert "\t1"[1..] == "1";
    }
    assert DigitsValue("1") == 1;
  }

  /** A sign followed by nothing but whitespace is not an integer. */
  lemma ParseIntSignOnly()
    ensures ParseInt("- ") == None
  {
    assert Strip("- ") == "-" by {
      assert "- "[..1] == "-";
    }
  }

  /** The empty string and a string of blanks are not integers. */
  lemma ParseIntBlank(s: string)
    requires forall k :: 0 <= k < |s| ==> IsSpace(s[k])
    ensures ParseInt(s) == None
  {
    StripBlank(s);
  }

  lemma {:induction false} StripBlank(s: string)
    requires forall k :: 0 <= k < |s| ==> IsSpace(s[k])
    ensures Strip(s) == ""
    decreases |s|
  {
    if |s| > 0 {
      StripBlank(s[1..]);
    }
  }
}
