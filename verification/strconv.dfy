/** The two `strconv` conversions the repository codec relies on: `Itoa` to write a numeric
    repository ID and `Atoi` to read it back. */
module Strconv {
  import opened GoStrings
  import opened Results

  predicate IsDigit(c: Byte) {
    '0' <= c <= '9'
  }

  predicate IsDigits(s: GoString) {
    forall i :: 0 <= i < |s| ==> IsDigit(s[i])
  }

  function DigitChar(d: int): (c: Byte)
    requires 0 <= d < 10
    ensures IsDigit(c)
  {
    ('0' as int + d) as char
  }

  function DigitValue(c: Byte): (d: int)
    requires IsDigit(c)
    ensures 0 <= d < 10 && DigitChar(d) == c
  {
    c as int - '0' as int
  }

  /** The value of a string of decimal digits, read most significant digit first. */
  function DigitsValue(s: GoString): nat
    requires IsDigits(s)
  {
    if |s| == 0 then 0 else DigitsValue(s[..|s| - 1]) * 10 + DigitValue(s[|s| - 1])
  }

  /** The decimal digits of `n`, without leading zeros. */
  function NatDigits(n: nat): (r: GoString)
    ensures |r| > 0 && IsDigits(r)
    ensures r[0] == '0' ==> n == 0
  {
    if n < 10 then [DigitChar(n)] else NatDigits(n / 10) + [DigitChar(n % 10)]
  }

  /** strconv.Itoa: the decimal form of `n`, with a leading '-' when negative. */
  function Itoa(n: int): (r: GoString)
    ensures n > 0 ==> IsDigits(r) && |r| > 0 && r[0] != '0'
    ensures n < 0 ==> |r| > 1 && r[0] == '-' && IsDigits(r[1..])
  {
    if n < 0 then "-" + NatDigits(-n) else NatDigits(n)
  }

  /** The syntax strconv.Atoi accepts: an optional sign and then one or more decimal digits. */
  predicate IsSignedDecimal(s: GoString) {
    if |s| > 0 && (s[0] == '+' || s[0] == '-') then |s| > 1 && IsDigits(s[1..])
    else |s| > 0 && IsDigits(s)
  }

  /** strconv.Atoi; a text outside the accepted syntax is a syntax error naming the text. */
  function Atoi(s: GoString): (r: Result<int>)
    ensures r.Ok? <==> IsSignedDecimal(s)
    ensures r.Err? ==> r.error == InvalidSyntax(s)
    ensures r.Ok? && s[0] != '-' ==> r.value >= 0
    ensures r.Ok? && s[0] == '-' ==> r.value <= 0
  {
    if |s| == 0 then Err(InvalidSyntax(s))
    else if s[0] == '+' || s[0] == '-' then
      if |s| > 1 && IsDigits(s[1..]) then
        var v: int := DigitsValue(s[1..]);
        Ok(if s[0] == '-' then -v else v)
      else Err(InvalidSyntax(s))
    else if IsDigits(s) then Ok(DigitsValue(s))
    else Err(InvalidSyntax(s))
  }

  /** Reading back the digits of `n` gives `n`. */
  lemma {:induction false} DigitsValueOfNatDigits(n: nat)
    ensures DigitsValue(NatDigits(n)) == n
  {
    if n >= 10 {
      var d := NatDigits(n / 10);
      var r := NatDigits(n);
      assert r == d + [DigitChar(n % 10)];
      assert r[..|r| - 1] == d;
      DigitsValueOfNatDigits(n / 10);
    }
  }

  /** Atoi inverts Itoa on every integer. */
  lemma AtoiItoa(n: int)
    ensures Atoi(Itoa(n)) == Ok(n)
  {
    if n < 0 {
      var r := Itoa(n);
      assert r[1..] == NatDigits(-n);
      DigitsValueOfNatDigits(-n);
    } else {
      DigitsValueOfNatDigits(n);
    }
  }
}
