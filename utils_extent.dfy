/**
 * The older extent type (src/utils/extent.rs): the same two variants, but
 * the `%` branch parses the literal as it stands, without trimming.
 *
 * As in Extents, a percentage keeps the text of its `f32` literal.
 */
module LegacyExtents {
  import opened Wrappers
  import opened RustStr

  datatype Extent = Cells(count: U16) | Percentage(literal: string)

  datatype ParseExtentError = ParseExtentError

  /** The error a deserialiser reports: a custom error built from the cause. */
  datatype DeError = Custom(cause: string)

  const I64_MIN: int := -0x8000_0000_0000_0000
  const I64_MAX: int := 0x7FFF_FFFF_FFFF_FFFF

  /** `Extent::cells` on a cell count: the count itself, whatever the size. */
  function CellsOf(e: Extent, size: U16): (r: U16)
    requires e.Cells?
    ensures e == Cells(r)
  {
    e.count
  }

  /** `FromStr`: without a final `%` a whole `u16`; with one, everything before it must be an `f32` literal. */
  function FromStr(s: string): (r: Result<Extent, ParseExtentError>)
    ensures r.Ok? && r.value.Cells? <==> ParseUnsigned(s, U16_MAX).Some?
    ensures r.Ok? && r.value.Cells? ==> r.value.count == ParseUnsigned(s, U16_MAX).value
    ensures r.Ok? && r.value.Percentage? <==> |s| > 0 && s[|s| - 1] == '%' && IsFloatLiteral(s[..|s| - 1])
    ensures r.Ok? && r.value.Percentage? ==> s == r.value.literal + "%"
  {
    if !(|s| > 0 && s[|s| - 1] == '%') then
      match ParseUnsigned(s, U16_MAX)
      case Some(c) => Ok(Cells(c))
      case None => Err(ParseExtentError)
    else if IsFloatLiteral(s[..|s| - 1]) then
      Ok(Percentage(s[..|s| - 1]))
    else
      Err(ParseExtentError)
  }

  /** `visit_i64`: the `u16` conversion succeeds exactly in 0..=65535. */
  function VisitI64(v: int): (r: Result<Extent, DeError>)
    requires I64_MIN <= v <= I64_MAX
    ensures r.Ok? <==> 0 <= v <= U16_MAX
    ensures r.Ok? ==> r.value == Cells(v)
  {
    if 0 <= v <= U16_MAX then Ok(Cells(v)) else Err(Custom("out of range integral type conversion attempted"))
  }

  /** `visit_str`: FromStr with the error wrapped as a custom error. */
  function VisitStr(v: string): (r: Result<Extent, DeError>)
    ensures r.Ok? <==> FromStr(v).Ok?
    ensures r.Ok? ==> r.value == FromStr(v).value
  {
    match FromStr(v)
    case Ok(e) => Ok(e)
    case Err(_) => Err(Custom("failed to parse extent"))
  }

  /** An integer and its decimal text are accepted alike, for every i64. */
  lemma StrAndIntAgree(v: int)
    requires I64_MIN <= v <= I64_MAX
    ensures VisitStr(SignedDecimal(v)).Ok? <==> VisitI64(v).Ok?
    ensures VisitI64(v).Ok? ==> VisitStr(SignedDecimal(v)) == VisitI64(v)
  {
    var text := SignedDecimal(v);
    if v < 0 {
      assert text[0] == '-';
      assert ParseUnsigned(text, U16_MAX).None?;
    } else if v <= U16_MAX {
      ParseUnsignedDecimal(v, U16_MAX);
    } else {
      DecimalValue(v);
      assert text == Decimal(v) && IsDigit(text[0]);
    }
  }

  lemma TenIsFloat() ensures IsFloatLiteral("10") && IsFloatLiteral("1") {
    assert LowerAsciiString("10") == "10";
    assert LowerAsciiString("1") == "1";
  }

  lemma TenPointZeroIsFloat() ensures IsFloatLiteral("10.0") {
    assert LowerAsciiString("10.0") == "10.0";
    assert IndexOf("10.0", '.') == Some(2);
    assert "10.0"[..2] == "10" && "10.0"[3..] == "0";
  }

  lemma SpacedTenIsNotFloat() ensures !IsFloatLiteral("10 ") {
    assert LowerAsciiString("10 ") == "10 ";
    assert !IsDigit(' ');
  }

  lemma CellsExamples()
    ensures FromStr("1") == Ok(Cells(1))
    ensures FromStr("10.0") == Err(ParseExtentError)
    ensures FromStr("a") == Err(ParseExtentError)
  {
    assert !IsDigit('.') && !IsDigit('a');
  }

  lemma PercentExamples()
    ensures FromStr("10%") == Ok(Percentage("10"))
    ensures FromStr("10.0%") == Ok(Percentage("10.0"))
  {
    TenIsFloat();
    TenPointZeroIsFloat();
    assert "10%"[..2] == "10";
    assert "10.0%"[..4] == "10.0";
  }

  lemma SpacedPercentExample() ensures FromStr("10 %") == Err(ParseExtentError) {
    SpacedTenIsNotFloat();
    assert "10 %"[..3] == "10 ";
  }

  /** The cases of the source's `parse` test. */
  lemma ParseExamples()
    ensures FromStr("1") == Ok(Cells(1))
    ensures FromStr("10%") == Ok(Percentage("10"))
    ensures FromStr("10.0%") == Ok(Percentage("10.0"))
    ensures FromStr("10 %") == Err(ParseExtentError)
    ensures FromStr("10.0") == Err(ParseExtentError)
    ensures FromStr("a") == Err(ParseExtentError)
  {
    CellsExamples();
    PercentExamples();
    SpacedPercentExample();
  }

  /** The cases of the source's `deserialize` test. */
  lemma DeserializeExamples()
    ensures VisitI64(1) == Ok(Cells(1))
    ensures VisitStr("1") == Ok(Cells(1))
    ensures VisitStr("1%") == Ok(Percentage("1"))
    ensures VisitI64(-1).Err? && VisitI64(I64_MAX).Err?
    ensures VisitStr(SignedDecimal(-1)).Err? && VisitStr(SignedDecimal(I64_MAX)).Err?
    ensures CellsOf(Cells(10), 100) == 10
  {
    CellsExamples();
    TenIsFloat();
    assert "1%"[..1] == "1";
    StrAndIntAgree(-1);
    StrAndIntAgree(I64_MAX);
  }
}
