/**
 * Decimal text of integers, as the Go standard library writes and reads it:
 * `strconv.Itoa`, `strconv.Atoi`, `strconv.FormatBool`, and `fmt.Sscanf` with
 * the `%d` verb. Go's `int` is 64 bits wide here, so parsing checks that range.
 */
module Numerals {
  import opened Wrappers

  const MaxInt64: int := 0x7FFF_FFFF_FFFF_FFFF
  const MinInt64: int := -0x8000_0000_0000_0000

  predicate IsDigit(c: char) {
    '0' <= c <= '9'
  }

  predicate AllDigits(s: string) {
    forall i :: 0 <= i < |s| ==> IsDigit(s[i])
  }

  function DigitValue(c: char): (d: nat)
    requires IsDigit(c)
    ensures d < 10
  {
    (c as int) - ('0' as int)
  }

  function DigitChar(d: nat): (c: char)
    requires d < 10
    ensures IsDigit(c) && DigitValue(c) == d
  {
    (('0' as int) + d) as char
  }

  /** The number a run of decimal digits denotes, most significant digit first. */
  function DecimalValue(s: string): nat
    requires AllDigits(s)
  {
    if s == [] then 0 else DecimalValue(s[..|s| - 1]) * 10 + DigitValue(s[|s| - 1])
  }

  /**
   * The shortest decimal text of n: no sign and no leading zero. Reading it
   * back gives n again.
   */
  function NatDigits(n: nat): (s: string)
    ensures |s| > 0 && AllDigits(s)
    ensures DecimalValue(s) == n
    ensures s[0] == '0' ==> n == 0
    decreases n
  {
    if n < 10 then [DigitChar(n)]
    else
      var prefix := NatDigits(n / 10);
      var s := prefix + [DigitChar(n % 10)];
      assert s[..|s| - 1] == prefix;
      s
  }

  /** `strconv.Itoa`: a minus sign for negative values, then the digits. */
  function Itoa(n: int): string {
    if n < 0 then "-" + NatDigits(-n) else NatDigits(n)
  }

  datatype NumError = ErrSyntax | ErrRange

  /**
   * `strconv.Atoi`: an optional '+' or '-', then at least one decimal digit
   * and nothing else; the value must fit a 64-bit signed integer.
   */
  function ParseInt(s: string): (r: Result<int, NumError>)
    ensures r.Success? ==> MinInt64 <= r.value <= MaxInt64
    ensures r.Success? ==> s != [] && (IsDigit(s[0]) || s[0] == '+' || s[0] == '-')
  {
    var signed := |s| > 0 && (s[0] == '+' || s[0] == '-');
    var body := if signed then s[1..] else s;
    if body == [] || !AllDigits(body) then Failure(ErrSyntax)
    else
      var magnitude: int := DecimalValue(body);
      var v := if signed && s[0] == '-' then -magnitude else magnitude;
      if v < MinInt64 || v > MaxInt64 then Failure(ErrRange) else Success(v)
  }

  /** Every 64-bit integer survives a trip through its decimal text. */
  lemma ParseIntItoa(n: int)
    requires MinInt64 <= n <= MaxInt64
    ensures ParseInt(Itoa(n)) == Success(n)
  {
    if n < 0 {
      var d := NatDigits(-n);
      assert ("-" + d)[1..] == d;
    } else {
      assert !(NatDigits(n)[0] == '+' || NatDigits(n)[0] == '-');
    }
  }

  /**
   * `fmt.Sscanf(digits, "%d", &v)` into a Go `int` that starts at 0: the value
   * when it fits, and 0 otherwise, because an out-of-range token makes the
   * scan fail before it assigns.
   */
  function ScanInt(digits: string): (v: int)
    requires digits != [] && AllDigits(digits)
    ensures 0 <= v <= MaxInt64
    ensures v == DecimalValue(digits) || (v == 0 && DecimalValue(digits) > MaxInt64)
  {
    if DecimalValue(digits) <= MaxInt64 then DecimalValue(digits) else 0
  }

  /** `strconv.FormatBool`. */
  function FormatBool(b: bool): (s: string)
    ensures s == "true" <==> b
  {
    if b then "true" else "false"
  }
}
