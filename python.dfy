/**
 * The small part of the Python 2 runtime that the attribute editor leans on:
 * optional values (`None`), the exceptions it raises or catches, and the
 * conversions between integers and their decimal spelling (`long(s)` and
 * `str(n)`).
 */
module Python {

  datatype Option<+T> = None | Some(value: T)

  /** The exception classes the editor raises, catches or lets escape. */
  datatype Exception = ValueError | IndexError | TypeError | OtherError

  /** A computation that either returns a value or raises. */
  datatype Result<+T> = Ok(value: T) | Raised(exc: Exception)

  predicate IsDigit(c: char) {
    '0' <= c <= '9'
  }

  /** A non-empty run of decimal digits. */
  predicate IsDecimal(s: string) {
    |s| > 0 && forall i :: 0 <= i < |s| ==> IsDigit(s[i])
  }

  /** The value of a run of decimal digits, most significant first. */
  function DigitsValue(s: string): nat
    requires forall i :: 0 <= i < |s| ==> IsDigit(s[i])
  {
    if s == [] then 0
    else
      assert IsDigit(s[|s| - 1]);
      10 * DigitsValue(s[..|s| - 1]) + (s[|s| - 1] as int - '0' as int)
  }

  /**
   * `long(s)`, for strings made of an optional sign and decimal digits
   * (leading zeros allowed, as Python allows them); anything else raises
   * ValueError, shown here as None.
   */
  function ParseLong(s: string): (r: Option<int>)
    ensures r.Some? <==> IsDecimal(s) || (|s| > 1 && (s[0] == '-' || s[0] == '+') && IsDecimal(s[1..]))
    ensures r.Some? && IsDecimal(s) ==> r.value >= 0
  {
    if |s| > 0 && (s[0] == '-' || s[0] == '+') then
      if IsDecimal(s[1..]) then
        var magnitude: int := DigitsValue(s[1..]);
        Some(if s[0] == '-' then -magnitude else magnitude)
      else
        None
    else if IsDecimal(s) then
      Some(DigitsValue(s))
    else
      None
  }

  function DigitChar(d: nat): (c: char)
    requires d < 10
    ensures IsDigit(c) && c as int - '0' as int == d
  {
    (d + '0' as int) as char
  }

  /** `str(n)` for a natural number: its shortest decimal spelling. */
  function DecimalString(n: nat): (s: string)
    ensures IsDecimal(s) && DigitsValue(s) == n
    ensures s[0] == '0' ==> n == 0
  {
    if n < 10 then
      [DigitChar(n)]
    else
      var prefix := DecimalString(n / 10);
      var s := prefix + [DigitChar(n % 10)];
      assert s[..|s| - 1] == prefix;
      s
  }

  /** `str(n)` for any integer. */
  function Str(n: int): string {
    if n < 0 then "-" + DecimalString(-n) else DecimalString(n)
  }

  /** `long(str(n)) == n`: the decimal spelling of every integer parses back to it. */
  lemma ParseStr(n: int)
    ensures ParseLong(Str(n)) == Some(n)
  {
    var digits := DecimalString(if n < 0 then -n else n);
    if n < 0 {
      assert Str(n)[1..] == digits;
    }
  }
}
