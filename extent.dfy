/**
 * Sizes in the terminal (src/types/extent.rs): a number of cells or a
 * percentage of the available size.
 *
 * A percentage keeps the text of its `f32` literal; its value, and so its
 * conversion to cells, is floating point and not part of this model.
 */
module Extents {
  import opened Wrappers
  import opened RustStr

  datatype Extent = Cells(count: U16) | Percentage(literal: string)

  /** `Extent::ZERO`. */
  const Zero: Extent := Cells(0)

  datatype ParseExtentError = ParseExtentError

  /** The error a deserialiser reports: a custom error built from the parse error. */
  datatype DeError = Custom(cause: ParseExtentError)

  /** `Extent::cells` on a cell count: the count itself, whatever the size. */
  function CellsOf(e: Extent, size: U16): (r: U16)
    requires e.Cells?
    ensures e == Cells(r)
  {
    e.count
  }

  /** `Display` of a cell count: its decimal digits. */
  function Display(e: Extent): (r: string)
    requires e.Cells?
    ensures |r| > 0 && AllDigits(r)
  {
    Decimal(e.count)
  }

  /**
   * `FromStr`: with a `%` suffix, the rest (trailing whitespace dropped) must
   * be an `f32` literal; otherwise the whole string must be a `u16`.
   */
  function FromStr(s: string): (r: Result<Extent, ParseExtentError>)
    ensures r.Ok? && r.value.Cells? <==> ParseUnsigned(s, U16_MAX).Some?
    ensures r.Ok? && r.value.Cells? ==> r.value.count == ParseUnsigned(s, U16_MAX).value
    ensures r.Ok? && r.value.Percentage? ==>
              var lit := r.value.literal;
              && IsFloatLiteral(lit) && |lit| < |s| && s[|s| - 1] == '%'
              && s[..|lit|] == lit && AllWhitespace(s[|lit|..|s| - 1])
  {
    match StripSuffix(s, '%')
    case Some(body) =>
      TrimEndDrops(body);
      if IsFloatLiteral(TrimEnd(body)) then Ok(Percentage(TrimEnd(body))) else Err(ParseExtentError)
    case None =>
      match ParseUnsigned(s, U16_MAX)
      case Some(c) => Ok(Cells(c))
      case None => Err(ParseExtentError)
  }

  /** Display and FromStr are inverse on cell counts. */
  lemma DisplayRoundTrip(c: U16)
    ensures FromStr(Display(Cells(c))) == Ok(Cells(c))
  {
    ParseUnsignedDecimal(c, U16_MAX);
  }

  /** `visit_i64`: an integer is a cell count when it fits a `u16`, and an error otherwise. */
  function VisitI64(v: int): (r: Result<Extent, DeError>)
    requires -0x8000_0000_0000_0000 <= v < 0x8000_0000_0000_0000
    ensures r.Ok? <==> 0 <= v <= U16_MAX
    ensures r.Ok? ==> r.value == Cells(v)
  {
    if 0 <= v <= U16_MAX then Ok(Cells(v)) else Err(Custom(ParseExtentError))
  }

  /** `visit_str`: FromStr with the error wrapped. */
  function VisitStr(v: string): (r: Result<Extent, DeError>)
    ensures r.Ok? <==> FromStr(v).Ok?
    ensures r.Ok? ==> r.value == FromStr(v).value
  {
    match FromStr(v)
    case Ok(e) => Ok(e)
    case Err(e) => Err(Custom(e))
  }

  /** A string and its decimal integer agree: both sources of a cell count accept the same range. */
  lemma StrAndIntAgree(v: nat)
    requires v < 0x8000_0000_0000_0000
    ensures VisitStr(Decimal(v)) == VisitI64(v)
  {
    DecimalValue(v);
  }

  // The cases of the source's `parse` and `deserialize` tests. Each percentage
  // keeps its literal, so "10%" and "10 %" give the same extent and "10.0%"
  // the literal "10.0".

  lemma TenIsFloat() ensures IsFloatLiteral("10") {
    assert LowerAsciiString("10") == "10";
  }

  lemma TenPointZeroIsFloat() ensures IsFloatLiteral("10.0") {
    assert LowerAsciiString("10.0") == "10.0";
    assert IndexOf("10.0", '.') == Some(2);
    assert "10.0"[..2] == "10" && "10.0"[3..] == "0";
  }

  lemma PercentExamples()
    ensures FromStr("10%") == Ok(Percentage("10"))
    ensures FromStr("10.0%") == Ok(Percentage("10.0"))
    ensures FromStr("10 %") == Ok(Percentage("10"))
  {
    TenIsFloat();
    TenPointZeroIsFloat();
    assert "10%"[..2] == "10";
    assert "10.0%"[..4] == "10.0";
    assert "10 %"[..3] == "10 ";
    TrimEndPadded("10", " ");
    assert "10" + " " == "10 ";
  }

  lemma CellsExamples()
    ensures FromStr("1") == Ok(Cells(1))
    ensures FromStr("10.0") == Err(ParseExtentError)
    ensures FromStr(" 1 ") == Err(ParseExtentError)
    ensures FromStr(" 10% ") == Err(ParseExtentError)
  {
    assert !IsDigit('.');
  }

  lemma DeserializeExamples()
    ensures VisitI64(0) == Ok(Cells(0))
    ensures VisitI64(-1) == Err(Custom(ParseExtentError))
    ensures VisitI64(65536) == Err(Custom(ParseExtentError))
    ensures VisitStr("1") == Ok(Cells(1))
    ensures VisitStr("10.0") == Err(Custom(ParseExtentError))
    ensures CellsOf(Cells(10), 100) == 10
  {
    CellsExamples();
  }
}
