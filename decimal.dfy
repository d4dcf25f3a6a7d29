/**
 * Base-10 text for integers: the `'{:d}'` format the part codec writes and
 * the subset of Python's `int(text)` it reads back (an optional sign, then
 * one or more ASCII digits). Both directions refuse numbers of more than
 * `sys.get_int_max_str_digits()` digits, 4300 by default in CPython 3.12.
 */
module Decimal {
  import opened Wrappers

  predicate IsDigit(c: char) { '0' <= c <= '9' }

  /** One or more ASCII digits. */
  predicate IsDigits(s: string) { |s| > 0 && forall k :: 0 <= k < |s| ==> IsDigit(s[k]) }

  function DigitChar(d: nat): (c: char)
    requires d < 10
    ensures IsDigit(c)
  {
    (('0' as int) + d) as char
  }

  function DigitValue(c: char): (d: nat)
    requires IsDigit(c)
    ensures d < 10
  {
    (c as int) - ('0' as int)
  }

  /** The decimal digits of `n`, most significant first, without leading zeros. */
  function FormatNat(n: nat): (s: string)
    ensures IsDigits(s)
    ensures (s[0] == '0') == (n == 0)
  {
    if n < 10 then [DigitChar(n)] else FormatNat(n / 10) + [DigitChar(n % 10)]
  }

  /** The default limit on the number of digits of an `int` converted from or to text. */
  const MaxStrDigits: nat := 4300

  function Abs(n: int): nat { if n < 0 then -n else n }

  /** The decimal text of `n`: a minus sign for negative numbers, then the digits of `|n|`. */
  function FormatInt(n: int): (s: string)
    ensures |s| > 0 && (s[0] == '-') == (n < 0)
  {
    if n < 0 then "-" + FormatNat(-n) else FormatNat(n)
  }

  /** `n` has few enough digits for `'{:d}'.format(n)` and `int()` not to raise `ValueError`. */
  predicate FitsDigitLimit(n: int) { |FormatNat(Abs(n))| <= MaxStrDigits }

  /** The number a string of digits denotes. */
  function DigitsValue(s: string): nat
    requires forall k :: 0 <= k < |s| ==> IsDigit(s[k])
  {
    if s == [] then 0 else DigitsValue(s[..|s| - 1]) * 10 + DigitValue(s[|s| - 1])
  }

  /** `int(s)` for base-10 text: `None` where Python raises `ValueError`, which includes
      a literal of more than `MaxStrDigits` digits. */
  function ParseInt(s: string): (r: Option<int>)
    ensures r.Some? ==> IsIntLiteral(s)
  {
    if |s| > 0 && (s[0] == '-' || s[0] == '+') then
      if IsDigits(s[1..]) && |s| - 1 <= MaxStrDigits then
        var v: int := DigitsValue(s[1..]);
        Some(if s[0] == '-' then -v else v)
      else None
    else if IsDigits(s) && |s| <= MaxStrDigits then Some(DigitsValue(s))
    else None
  }

  /** The text `int()` accepts: an optional sign followed by one to `MaxStrDigits` digits. */
  predicate IsIntLiteral(s: string)
  {
    || (IsDigits(s) && |s| <= MaxStrDigits)
    || (|s| > 0 && (s[0] == '-' || s[0] == '+') && IsDigits(s[1..]) && |s| - 1 <= MaxStrDigits)
  }

  /** `int()` succeeds on exactly the integer literals. */
  lemma ParseIntAccepts(s: string)
    ensures ParseInt(s).Some? <==> IsIntLiteral(s)
  {
  }

  /** Reading back the digits of `n` gives `n`. */
  lemma {:induction false} DigitsValueFormatNat(n: nat)
    ensures DigitsValue(FormatNat(n)) == n
  {
    var s := FormatNat(n);
    if n >= 10 {
      DigitsValueFormatNat(n / 10);
      assert s[..|s| - 1] == FormatNat(n / 10);
    }
  }

  /** `int('{:d}'.format(n)) == n` for every integer within the digit limit, negative, zero
      or positive; beyond the limit `int()` refuses the text. */
  lemma ParseFormat(n: int)
    ensures ParseInt(FormatInt(n)) == if FitsDigitLimit(n) then Some(n) else None
  {
    var s := FormatInt(n);
    if n < 0 {
      DigitsValueFormatNat(-n);
      assert s[1..] == FormatNat(-n);
    } else {
      DigitsValueFormatNat(n);
    }
  }

  /** The formatted text is made of digits and at most a leading `-`, and is a literal
      `int()` accepts exactly when it is within the digit limit. */
  lemma FormatIntShape(n: int)
    ensures IsIntLiteral(FormatInt(n)) <==> FitsDigitLimit(n)
    ensures forall k :: 0 <= k < |FormatInt(n)| ==> IsDigit(FormatInt(n)[k]) || (k == 0 && FormatInt(n)[k] == '-')
    ensures '&' !in FormatInt(n) && '=' !in FormatInt(n) && '#' !in FormatInt(n)
  {
    if n < 0 {
      assert FormatInt(n)[1..] == FormatNat(-n);
    }
  }
}
