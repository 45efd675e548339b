/**
 * The three module-level helpers of the attribute editor: the syntax check
 * of free-form `python` values, the normalisation of a typed-in string for
 * its declared dtype, and the overflow check of fixed-width numeric dtypes.
 * Dtypes are the names the Properties dialog offers (`int8`, `bool`,
 * `complex64`, `python`, ...), kept as strings as the editor keeps them.
 */
module AttrValues {
  import opened Python

  // ---------------------------------------------------------------------------
  // checkSyntax
  // ---------------------------------------------------------------------------

  predicate IsQuote(c: char) {
    c == '\'' || c == '"'
  }

  /**
   * checkSyntax(value). `evaluates(v)` says whether Python's `eval(v)` returns
   * without raising; the evaluator itself is outside the model. Indexing the
   * first character of an empty string raises IndexError before any `try`.
   */
  function CheckSyntax(value: string, evaluates: string -> bool): (r: Result<bool>)
    ensures r.Raised? <==> value == ""
    ensures r.Raised? ==> r.exc == IndexError
    ensures value != "" && IsQuote(value[0]) ==> r == Ok(false)
    ensures r == Ok(true) <==> value != "" && !IsQuote(value[0]) && evaluates(value)
  {
    if value == "" then Raised(IndexError)
    else if IsQuote(value[0]) then Ok(false)
    else Ok(evaluates(value))
  }

  /** A value starting with a quote is refused whatever `eval` would make of it. */
  lemma LeadingQuoteRefused(value: string, evaluates: string -> bool, evaluates': string -> bool)
    requires value != "" && IsQuote(value[0])
    ensures CheckSyntax(value, evaluates) == CheckSyntax(value, evaluates') == Ok(false)
  {
  }

  // ---------------------------------------------------------------------------
  // formatStrValue
  // ---------------------------------------------------------------------------

  const BoolTrueTokens: seq<string> := ["1", "TRUE", "True", "true"]
  const BoolFalseTokens: seq<string> := ["0", "FALSE", "False", "false"]

  /** `dtype.startswith('complex')` */
  predicate IsComplex(dtype: string) {
    "complex" <= dtype
  }

  /** `s.startswith('(') and s.endswith(')')` */
  predicate Parenthesised(s: string) {
    |s| > 0 && s[0] == '(' && s[|s| - 1] == ')'
  }

  /**
   * formatStrValue(dtype, s): None when a `bool` value is none of the listed
   * tokens; otherwise the value with one pair of surrounding parentheses
   * dropped for `complex*` dtypes, and unchanged for every other dtype.
   */
  function FormatStrValue(dtype: string, s: string): (r: Option<string>)
    ensures dtype == "bool" ==>
      && (r == Some("1") <==> s in BoolTrueTokens)
      && (r == Some("0") <==> s in BoolFalseTokens)
      && (r.None? <==> s !in BoolTrueTokens && s !in BoolFalseTokens)
    ensures dtype != "bool" ==> r.Some?
    ensures IsComplex(dtype) && Parenthesised(s) ==> r.Some? && s == "(" + r.value + ")"
    ensures dtype != "bool" && !(IsComplex(dtype) && Parenthesised(s)) ==> r == Some(s)
  {
    if dtype == "bool" then
      if s in BoolTrueTokens then Some("1")
      else if s in BoolFalseTokens then Some("0")
      else None  // the TypeError raised and caught inside formatStrValue
    else if IsComplex(dtype) && Parenthesised(s) then
      Some(s[1..|s| - 1])
    else
      Some(s)
  }

  /**
   * Formatting a formatted value again changes nothing, except for a complex
   * value that is still wrapped in parentheses after one pair was dropped.
   */
  lemma FormatStable(dtype: string, s: string)
    requires FormatStrValue(dtype, s).Some?
    requires !(IsComplex(dtype) && Parenthesised(FormatStrValue(dtype, s).value))
    ensures FormatStrValue(dtype, FormatStrValue(dtype, s).value) == FormatStrValue(dtype, s)
  {
  }

  /** Only one pair of parentheses is dropped: "((1+2j))" needs two passes. */
  lemma ComplexStripsOnePair()
    ensures FormatStrValue("complex128", "((1+2j))") == Some("(1+2j)")
    ensures FormatStrValue("complex128", "(1+2j)") == Some("1+2j")
    ensures FormatStrValue("complex128", "1+2j") == Some("1+2j")
  {
    assert Parenthesised("((1+2j))") && "((1+2j))"[1..7] == "(1+2j)";
    assert Parenthesised("(1+2j)") && "(1+2j)"[1..5] == "1+2j";
  }

  // ---------------------------------------------------------------------------
  // checkOverflow
  // ---------------------------------------------------------------------------

  /** Width and signedness of the eight fixed-width integer dtypes. */
  datatype IntType = IntType(bits: nat, signed: bool)

  function IntTypeOf(dtype: string): Option<IntType> {
    match dtype
    case "int8" => Some(IntType(8, true))
    case "int16" => Some(IntType(16, true))
    case "int32" => Some(IntType(32, true))
    case "int64" => Some(IntType(64, true))
    case "uint8" => Some(IntType(8, false))
    case "uint16" => Some(IntType(16, false))
    case "uint32" => Some(IntType(32, false))
    case "uint64" => Some(IntType(64, false))
    case _ => None
  }

  /** The integer rows of the overflow table with their `numpy.iinfo` limits. */
  function IntBounds(dtype: string): Option<(int, int)> {
    match dtype
    case "int8" => Some((-0x80, 0x7F))
    case "int16" => Some((-0x8000, 0x7FFF))
    case "int32" => Some((-0x8000_0000, 0x7FFF_FFFF))
    case "int64" => Some((-0x8000_0000_0000_0000, 0x7FFF_FFFF_FFFF_FFFF))
    case "uint8" => Some((0, 0xFF))
    case "uint16" => Some((0, 0xFFFF))
    case "uint32" => Some((0, 0xFFFF_FFFF))
    case "uint64" => Some((0, 0xFFFF_FFFF_FFFF_FFFF))
    case _ => None
  }

  function Pow2(n: nat): (p: nat)
    ensures p >= 1
  {
    if n == 0 then 1 else 2 * Pow2(n - 1)
  }

  lemma {:induction false} Pow2Add(a: nat, b: nat)
    ensures Pow2(a + b) == Pow2(a) * Pow2(b)
  {
    if a > 0 {
      Pow2Add(a - 1, b);
    }
  }

  /** Least value of a two's-complement (signed) or plain binary (unsigned) integer. */
  function MinOf(t: IntType): int
    requires t.bits > 0
  {
    if t.signed then -(Pow2(t.bits - 1) as int) else 0
  }

  /** Greatest value of a two's-complement (signed) or plain binary (unsigned) integer. */
  function MaxOf(t: IntType): int
    requires t.bits > 0
  {
    if t.signed then Pow2(t.bits - 1) - 1 else Pow2(t.bits) - 1
  }

  /** The powers of two the integer dtypes' limits are made of. */
  lemma Pow2Table()
    ensures Pow2(7) == 0x80 && Pow2(8) == 0x100
    ensures Pow2(15) == 0x8000 && Pow2(16) == 0x1_0000
    ensures Pow2(31) == 0x8000_0000 && Pow2(32) == 0x1_0000_0000
    ensures Pow2(63) == 0x8000_0000_0000_0000 && Pow2(64) == 0x1_0000_0000_0000_0000
  {
    assert Pow2(7) == 0x80 && Pow2(8) == 0x100;
    Pow2Add(8, 8);
    Pow2Add(7, 8);
    Pow2Add(16, 16);
    Pow2Add(15, 16);
    Pow2Add(32, 32);
    Pow2Add(31, 32);
  }

  /** The limits in the table are the exact ranges of those widths and signedness. */
  lemma IntBoundsMatchWidths(dtype: string)
    ensures IntBounds(dtype).Some? <==> IntTypeOf(dtype).Some?
    ensures IntTypeOf(dtype).Some? ==>
      IntTypeOf(dtype).value.bits > 0 &&
      IntBounds(dtype) == Some((MinOf(IntTypeOf(dtype).value), MaxOf(IntTypeOf(dtype).value)))
  {
    Pow2Table();
  }

  predicate IsFloatDtype(dtype: string) {
    dtype == "float32" || dtype == "float64"
  }

  /** The keys of the ten-entry dtype table of checkOverflow. */
  predicate InOverflowTable(dtype: string) {
    IntBounds(dtype).Some? || IsFloatDtype(dtype)
  }

  /**
   * checkOverflow(dtype, s). `floatFits(dtype, s)` says whether `float(s)`
   * parses and lies within `numpy.finfo(dtype)`; floating point is outside
   * the model. Integers are parsed with `long()` and compared exactly.
   */
  function CheckOverflow(dtype: string, s: string, floatFits: (string, string) -> bool): (r: Result<string>)
    ensures r == Ok(s) || r == Raised(ValueError)
    ensures !InOverflowTable(dtype) ==> r == Ok(s)
    ensures IsFloatDtype(dtype) ==> (r.Ok? <==> floatFits(dtype, s))
    ensures IntBounds(dtype).Some? ==>
      (r.Ok? <==> ParseLong(s).Some? && IntBounds(dtype).value.0 <= ParseLong(s).value <= IntBounds(dtype).value.1)
  {
    if !InOverflowTable(dtype) then
      Ok(s)
    else if IsFloatDtype(dtype) then  // within the table, the dtypes starting with 'float'
      if floatFits(dtype, s) then Ok(s) else Raised(ValueError)
    else
      var (lo, hi) := IntBounds(dtype).value;
      match ParseLong(s)
      case None => Raised(ValueError)  // long(s) raises ValueError
      case Some(v) => if v < lo || v > hi then Raised(ValueError) else Ok(s)
  }

  /**
   * The decimal spelling of an integer passes the check of an integer dtype
   * exactly when the integer lies within that dtype's range.
   */
  lemma {:induction false} DecimalInRange(dtype: string, n: int, floatFits: (string, string) -> bool)
    requires IntTypeOf(dtype).Some?
    ensures IntTypeOf(dtype).value.bits > 0
    ensures CheckOverflow(dtype, Str(n), floatFits).Ok? <==>
      MinOf(IntTypeOf(dtype).value) <= n <= MaxOf(IntTypeOf(dtype).value)
  {
    IntBoundsMatchWidths(dtype);
    ParseStr(n);
  }

  /** The limits at both ends of uint8 and int8. */
  lemma EightBitLimits(floatFits: (string, string) -> bool)
    ensures CheckOverflow("uint8", "255", floatFits) == Ok("255")
    ensures CheckOverflow("uint8", "256", floatFits) == Raised(ValueError)
    ensures CheckOverflow("uint8", "-1", floatFits) == Raised(ValueError)
    ensures CheckOverflow("int8", "-128", floatFits) == Ok("-128")
    ensures CheckOverflow("int8", "-129", floatFits) == Raised(ValueError)
  {
    assert ParseLong("255") == Some(255) by { assert "255"[..2] == "25" && "25"[..1] == "2" && "2"[..0] == ""; }
    assert ParseLong("256") == Some(256) by { assert "256"[..2] == "25" && "25"[..1] == "2" && "2"[..0] == ""; }
    assert ParseLong("-1") == Some(-1) by { assert "-1"[1..] == "1" && "1"[..0] == ""; }
    assert ParseLong("-128") == Some(-128) by {
      assert "-128"[1..] == "128" && "128"[..2] == "12" && "12"[..1] == "1" && "1"[..0] == "";
    }
    assert ParseLong("-129") == Some(-129) by {
      assert "-129"[1..] == "129" && "129"[..2] == "12" && "12"[..1] == "1" && "1"[..0] == "";
    }
  }
}
