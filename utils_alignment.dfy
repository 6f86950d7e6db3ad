/**
 * The older alignment type (src/utils/alignment.rs): three named positions
 * or an absolute `i32` column written as a plain integer.
 */
module LegacyAlignments {
  import opened Wrappers
  import opened RustStr

  datatype Alignment = Left | Center | Right | Position(column: I32)

  datatype ParseAlignmentError = ParseAlignmentError

  /** `Default`: left. */
  function Default(): (r: Alignment)
    ensures r == Left
  {
    Left
  }

  /** `Display`: the name of a named position, the signed decimal of a column. */
  function Display(a: Alignment): (r: string)
    ensures a.Position? ==> |r| > 0 && (r[0] == '-' || IsDigit(r[0]))
    ensures !a.Position? ==> IsAscii(r) && |r| >= 4
  {
    match a
    case Left => "left"
    case Center => "center"
    case Right => "right"
    case Position(n) => SignedDecimal(n)
  }

  /** `FromStr`: an exact name, otherwise the whole string as an `i32`. */
  function FromStr(s: string): (r: Result<Alignment, ParseAlignmentError>)
    ensures r.Ok? && r.value.Position? <==> s !in {"left", "center", "right"} && ParseI32(s).Some?
    ensures r.Ok? && r.value.Position? ==> r.value.column == ParseI32(s).value
    ensures r.Ok? && !r.value.Position? ==> Display(r.value) == s
  {
    match s
    case "left" => Ok(Left)
    case "center" => Ok(Center)
    case "right" => Ok(Right)
    case _ =>
      match ParseI32(s)
      case Some(n) => Ok(Position(n))
      case None => Err(ParseAlignmentError)
  }

  /** Parsing the Display output gives back the same alignment, for every column. */
  lemma DisplayRoundTrip(a: Alignment)
    ensures FromStr(Display(a)) == Ok(a)
  {
    if a.Position? {
      var t := Display(a);
      assert t[0] != 'l' && t[0] != 'c' && t[0] != 'r';
      assert t !in {"left", "center", "right"};
      ParseI32Decimal(a.column);
    }
  }

  /** The cases of the source's `parse_alignment` test. */
  lemma ParseExamples()
    ensures FromStr("left") == Ok(Left)
    ensures FromStr("center") == Ok(Center)
    ensures FromStr("right") == Ok(Right)
    ensures FromStr("1") == Ok(Position(1))
    ensures FromStr("-1") == Ok(Position(-1))
  {
    assert "-1"[1..] == "1";
  }
}
