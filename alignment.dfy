/**
 * Horizontal placement of an inline viewport (src/types/alignment.rs):
 * `left`, `center` or `right`, the outer two with an optional `(extent)`
 * offset.
 */
module Alignments {
  import opened Wrappers
  import opened RustStr
  import Extents

  datatype Alignment = Left(offset: Extents.Extent) | Center | Right(offset: Extents.Extent)

  datatype ParseAlignmentError = ParseAlignmentError

  /** The error a deserialiser reports: a custom error built from the parse error. */
  datatype DeError = Custom(cause: ParseAlignmentError)

  /** `Default`: left, with no offset. */
  function Default(): (r: Alignment)
    ensures r.Left? && r.offset == Extents.Cells(0)
  {
    Left(Extents.Zero)
  }

  /** Every offset the alignment carries is a cell count. */
  predicate HasCellOffset(a: Alignment) {
    a.Center? || a.offset.Cells?
  }

  /** `parse_offset`: `(`, an extent with optional whitespace around it, `)`. */
  function ParseOffset(s: string): (r: Result<Extents.Extent, ParseAlignmentError>)
    ensures r.Ok? ==> |s| >= 2 && s[0] == '(' && s[|s| - 1] == ')'
    ensures r.Ok? ==> Extents.FromStr(Trim(s[1..|s| - 1])) == Ok(r.value)
  {
    match StripPrefix(s, "(")
    case None => Err(ParseAlignmentError)
    case Some(inner) =>
      match StripSuffix(inner, ')')
      case None => Err(ParseAlignmentError)
      case Some(body) =>
        assert body == s[1..|s| - 1];
        match Extents.FromStr(Trim(body))
        case Ok(e) => Ok(e)
        case Err(_) => Err(ParseAlignmentError)
  }

  /** The offset after `left` or `right`: none at all, or a parenthesised extent after optional whitespace. */
  function ParseSide(rest: string): (r: Result<Extents.Extent, ParseAlignmentError>)
    ensures rest == [] ==> r == Ok(Extents.Zero)
    ensures rest != [] ==> r == ParseOffset(TrimStart(rest))
  {
    if rest == [] then Ok(Extents.Zero) else ParseOffset(TrimStart(rest))
  }

  /** `Alignment::parse`; the input is not trimmed. */
  function Parse(s: string): (r: Result<Alignment, ParseAlignmentError>)
    ensures r == Ok(Center) <==> s == "center"
    ensures r.Ok? && r.value.Left? ==> "left" <= s && ParseSide(s[4..]) == Ok(r.value.offset)
    ensures r.Ok? && r.value.Right? ==> "right" <= s && ParseSide(s[5..]) == Ok(r.value.offset)
  {
    if s == "center" then Ok(Center)
    else match StripPrefix(s, "left")
    case Some(rest) =>
      (match ParseSide(rest)
       case Ok(e) => Ok(Left(e))
       case Err(e) => Err(e))
    case None =>
      match StripPrefix(s, "right")
      case Some(rest) =>
        (match ParseSide(rest)
         case Ok(e) => Ok(Right(e))
         case Err(e) => Err(e))
      case None => Err(ParseAlignmentError)
  }

  /** `FromStr` is `parse` itself, so surrounding whitespace is an error. */
  function FromStr(s: string): (r: Result<Alignment, ParseAlignmentError>)
    ensures r.Ok? ==> |s| > 0 && !IsWhitespace(s[0])
  {
    Parse(s)
  }

  /** `Display`: a bare side name for a zero offset, otherwise `side(extent)`. */
  function Display(a: Alignment): (r: string)
    requires HasCellOffset(a)
    ensures |r| >= 4 && !IsWhitespace(r[0]) && !IsWhitespace(r[|r| - 1])
    ensures a.Center? <==> r == "center"
    ensures a.Left? ==> "left" <= r
    ensures a.Right? ==> "right" <= r
  {
    match a
    case Center => "center"
    case Left(e) => if e == Extents.Cells(0) then "left" else "left(" + Extents.Display(e) + ")"
    case Right(e) => if e == Extents.Cells(0) then "right" else "right(" + Extents.Display(e) + ")"
  }

  /** The offset part of Display parses back to the offset. */
  lemma OffsetRoundTrip(e: Extents.Extent)
    requires e.Cells?
    ensures ParseOffset("(" + Extents.Display(e) + ")") == Ok(e)
  {
    var d := Extents.Display(e);
    var s := "(" + d + ")";
    assert s[..1] == "(" && s[1..] == d + ")";
    assert StripPrefix(s, "(") == Some(d + ")");
    assert StripSuffix(d + ")", ')') == Some(d);
    assert !IsWhitespace(d[0]) && !IsWhitespace(d[|d| - 1]);
    TrimUnpadded(d);
    Extents.DisplayRoundTrip(e.count);
  }

  /** A side name followed by a displayed offset parses back to that offset. */
  lemma SideRoundTrip(e: Extents.Extent)
    requires e.Cells?
    ensures ParseSide(if e == Extents.Cells(0) then [] else "(" + Extents.Display(e) + ")") == Ok(e)
  {
    if e != Extents.Cells(0) {
      var s := "(" + Extents.Display(e) + ")";
      TrimUnpadded(s);
      OffsetRoundTrip(e);
    }
  }

  /** `left` followed by any valid offset text parses to that left offset. */
  lemma ParseLeftTail(tail: string, e: Extents.Extent)
    requires ParseSide(tail) == Ok(e)
    ensures Parse("left" + tail) == Ok(Left(e))
  {
    StripPrefixConcat("left", tail);
    assert ("left" + tail)[0] == 'l';
  }

  /** `right` followed by any valid offset text parses to that right offset. */
  lemma ParseRightTail(tail: string, e: Extents.Extent)
    requires ParseSide(tail) == Ok(e)
    ensures Parse("right" + tail) == Ok(Right(e))
  {
    StripPrefixConcat("right", tail);
    assert ("right" + tail)[0] == 'r';
    assert StripPrefix("right" + tail, "left") == None;
  }

  /** Parsing the Display output gives back the same alignment. */
  lemma DisplayRoundTrip(a: Alignment)
    requires HasCellOffset(a)
    ensures FromStr(Display(a)) == Ok(a)
  {
    match a
    case Center =>
    case Left(e) =>
      var tail := if e == Extents.Cells(0) then [] else "(" + Extents.Display(e) + ")";
      assert Display(a) == "left" + tail;
      SideRoundTrip(e);
      ParseLeftTail(tail, e);
    case Right(e) =>
      var tail := if e == Extents.Cells(0) then [] else "(" + Extents.Display(e) + ")";
      assert Display(a) == "right" + tail;
      SideRoundTrip(e);
      ParseRightTail(tail, e);
  }

  /** `visit_str`: FromStr with the error wrapped as a custom error. */
  function Deserialize(v: string): (r: Result<Alignment, DeError>)
    ensures r.Ok? <==> FromStr(v).Ok?
    ensures r.Ok? ==> r.value == FromStr(v).value
  {
    match FromStr(v)
    case Ok(a) => Ok(a)
    case Err(e) => Err(Custom(e))
  }

  // The cases of the source's `parse` and `deserialize` tests.

  /** A parenthesised text is parsed as its trimmed contents. */
  lemma ParseOffsetWrapped(body: string, e: Extents.Extent)
    requires Extents.FromStr(Trim(body)) == Ok(e)
    ensures ParseOffset("(" + body + ")") == Ok(e)
  {
    assert "(" + body + ")" == "(" + (body + ")");
    StripPrefixConcat("(", body + ")");
    assert (body + ")")[..|body|] == body;
  }

  lemma OneText() ensures "(" + "1" + ")" == "(1)" {}
  lemma SpacedOneText() ensures " " + ("(" + " 1 " + ")") == " ( 1 )" {}
  lemma LeftOneText() ensures "left" + "(1)" == "left(1)" {}
  lemma RightOneText() ensures "right" + "(1)" == "right(1)" {}
  lemma SpacedLeftOneText() ensures "left" + " ( 1 )" == "left ( 1 )" {}
  lemma SpacedRightOneText() ensures "right" + " ( 1 )" == "right ( 1 )" {}

  lemma TrimOne() ensures Trim("1") == "1" && Extents.FromStr("1") == Ok(Extents.Cells(1)) {
    TrimUnpadded("1");
    Extents.CellsExamples();
  }

  lemma TrimSpacedOne() ensures Trim(" 1 ") == "1" {
    TrimPadded(" ", "1", " ");
    assert " " + "1" + " " == " 1 ";
  }

  lemma OneOffset() ensures ParseSide("(1)") == Ok(Extents.Cells(1)) {
    TrimUnpadded("(1)");
    TrimOne();
    ParseOffsetWrapped("1", Extents.Cells(1));
    OneText();
  }

  lemma SpacedOneOffset() ensures ParseSide(" ( 1 )") == Ok(Extents.Cells(1)) {
    TrimOne();
    TrimSpacedOne();
    ParseOffsetWrapped(" 1 ", Extents.Cells(1));
    var t := "(" + " 1 " + ")";
    assert t[0] == '(';
    TrimStartPadded(" ", t);
    SpacedOneText();
  }

  lemma CenterExample() ensures FromStr("center") == Ok(Center) {}

  lemma LeftExample() ensures FromStr("left") == Ok(Left(Extents.Zero)) {
    ParseLeftTail([], Extents.Zero);
    assert "left" + [] == "left";
  }

  lemma RightExample() ensures FromStr("right") == Ok(Right(Extents.Zero)) {
    ParseRightTail([], Extents.Zero);
    assert "right" + [] == "right";
  }

  lemma LeftOneExample() ensures FromStr("left(1)") == Ok(Left(Extents.Cells(1))) {
    OneOffset();
    ParseLeftTail("(1)", Extents.Cells(1));
    LeftOneText();
  }

  lemma RightOneExample() ensures FromStr("right(1)") == Ok(Right(Extents.Cells(1))) {
    OneOffset();
    ParseRightTail("(1)", Extents.Cells(1));
    RightOneText();
  }

  lemma SpacedLeftOneExample() ensures FromStr("left ( 1 )") == Ok(Left(Extents.Cells(1))) {
    SpacedOneOffset();
    ParseLeftTail(" ( 1 )", Extents.Cells(1));
    SpacedLeftOneText();
  }

  lemma SpacedRightOneExample() ensures FromStr("right ( 1 )") == Ok(Right(Extents.Cells(1))) {
    SpacedOneOffset();
    ParseRightTail(" ( 1 )", Extents.Cells(1));
    SpacedRightOneText();
  }

  /** Surrounding whitespace is refused, since nothing trims it. */
  lemma PaddedExamples()
    ensures FromStr(" left ") == Err(ParseAlignmentError)
    ensures FromStr(" center ") == Err(ParseAlignmentError)
    ensures FromStr(" right ") == Err(ParseAlignmentError)
  {
  }

  /** The ten strings of the source's tests and what each parses to. */
  lemma ParseExamples()
    ensures FromStr("left") == Ok(Left(Extents.Zero))
    ensures FromStr("left(1)") == Ok(Left(Extents.Cells(1)))
    ensures FromStr("left ( 1 )") == Ok(Left(Extents.Cells(1)))
    ensures FromStr(" left ") == Err(ParseAlignmentError)
    ensures FromStr("center") == Ok(Center)
    ensures FromStr(" center ") == Err(ParseAlignmentError)
    ensures FromStr("right") == Ok(Right(Extents.Zero))
    ensures FromStr("right(1)") == Ok(Right(Extents.Cells(1)))
    ensures FromStr("right ( 1 )") == Ok(Right(Extents.Cells(1)))
    ensures FromStr(" right ") == Err(ParseAlignmentError)
  {
    LeftExample();
    LeftOneExample();
    SpacedLeftOneExample();
    CenterExample();
    RightExample();
    RightOneExample();
    SpacedRightOneExample();
    PaddedExamples();
  }

  lemma DeserializeExamples()
    ensures Deserialize("left(1)") == Ok(Left(Extents.Cells(1)))
    ensures Deserialize(" center ") == Err(Custom(ParseAlignmentError))
  {
    LeftOneExample();
    PaddedExamples();
  }
}
