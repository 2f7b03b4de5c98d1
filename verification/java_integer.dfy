/** Java's decimal conversions between `int` and `String`:
    `Integer.parseInt(s)` (radix 10) and `Integer.toString(n)`, the latter
    also being what string concatenation uses for an `int`. */
module JavaInteger {
  import opened JavaPrims

  predicate IsDigit(ch: char) {
    '0' <= ch <= '9'
  }

  predicate AllDigits(s: string) {
    forall k :: 0 <= k < |s| ==> IsDigit(s[k])
  }

  function DigitValue(ch: char): nat
    requires IsDigit(ch)
  {
    (ch - '0') as nat
  }

  function DigitChar(d: nat): (ch: char)
    requires d < 10
    ensures IsDigit(ch) && DigitValue(ch) == d
  {
    ('0' as int + d) as char
  }

  /** The value of a string of decimal digits, most significant first. */
  function DigitsValue(s: string): nat
    requires AllDigits(s)
  {
    if |s| == 0 then 0 else 10 * DigitsValue(s[..|s| - 1]) + DigitValue(s[|s| - 1])
  }

  /** `Integer.parseInt`: an optional '+' or '-', then at least one digit, and
      a value within the `int` range; `None` is the `NumberFormatException`,
      which a `null` argument also raises. Java checks the range digit by
      digit; a check on the final value accepts and rejects the same
      strings, since the magnitude only grows as digits are added. */
  function ParseInt(s: Option<string>): (r: Option<int>)
    ensures r.Some? ==> InInt32(r.value)
    ensures r.Some? ==> s.Some? && |s.value| > 0
  {
    match s
    case None => None
    case Some(str) =>
      if |str| == 0 then None
      else
        var signed := str[0] == '-' || str[0] == '+';
        var digits := if signed then str[1..] else str;
        if |digits| == 0 || !AllDigits(digits) then None
        else
          var v: int := if str[0] == '-' then -(DigitsValue(digits) as int) else DigitsValue(digits);
          if InInt32(v) then Some(v) else None
  }

  /** Decimal digits of a natural number, without leading zeros. */
  function FormatNat(n: nat): (s: string)
    ensures |s| > 0 && AllDigits(s)
    ensures DigitsValue(s) == n
    ensures s[0] == '0' ==> n == 0
  {
    if n < 10 then [DigitChar(n)]
    else
      var s := FormatNat(n / 10) + [DigitChar(n % 10)];
      assert s[..|s| - 1] == FormatNat(n / 10);
      s
  }

  /** `Integer.toString(n)`. */
  function FormatInt(n: int): (s: string)
    ensures |s| > 0
  {
    if n < 0 then "-" + FormatNat(-n) else FormatNat(n)
  }

  /** Parsing undoes formatting over the whole `int` range. */
  lemma ParseFormat(n: int)
    requires InInt32(n)
    ensures ParseInt(Some(FormatInt(n))) == Some(n)
  {
    var s := FormatInt(n);
    if n < 0 {
      assert s[1..] == FormatNat(-n);
    }
  }

  /** Strings that carry a sign but no digits, or any non-digit, are rejected. */
  lemma ParseRejectsMalformed()
    ensures ParseInt(Some("")) == None
    ensures ParseInt(Some("-")) == None
    ensures ParseInt(Some("+")) == None
    ensures ParseInt(Some("12a")) == None
    ensures ParseInt(Some(" 80")) == None
  {
    assert !IsDigit('a') && "12a"[2] == 'a';
    assert !IsDigit(' ') && " 80"[0] == ' ';
  }

  /** A magnitude outside the `int` range is a `NumberFormatException`, with
      either sign. */
  lemma ParseRejectsOverflow(n: nat)
    ensures n > IntMax ==> ParseInt(Some(FormatNat(n))) == None
    ensures n > -IntMin ==> ParseInt(Some("-" + FormatNat(n))) == None
  {
    var s := FormatNat(n);
    assert ("-" + s)[1..] == s;
  }
}
