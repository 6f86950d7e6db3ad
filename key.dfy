/**
 * Key specifications such as "ctrl+alt+a" (src/types/key.rs): `+`-separated
 * modifiers followed by a key name, each segment trimmed.
 */
module Keys {
  import opened Wrappers
  import opened RustStr

  /** The key codes of the terminal backend; `OtherCode` stands for the codes no parser here produces. */
  datatype KeyCode =
    | Backspace | Enter | Left | Right | Up | Down | Home | End | PageUp | PageDown
    | Tab | BackTab | Delete | Insert | F(n: U8) | Char(c: char) | Null | Esc
    | OtherCode(id: nat)

  /** One flag of the backend's modifier bit set. */
  datatype Modifier = Shift | Control | Alt | Super | Hyper | Meta

  datatype Key = Key(code: KeyCode, modifiers: set<Modifier>)

  datatype ParseKeyError =
    | InvalidFormat
    | InvalidKey(key: string)
    | InvalidModifier(modifier: string)
    | DuplicateModifier(modifier: string)

  /** The match arms of `parse_key` after the single-char and F-key cases. */
  function NamedKey(s: string): (r: Option<KeyCode>)
    ensures r.Some? ==> |s| >= 2 && s[0] != 'f'
    ensures r.Some? ==> !r.value.Char? && !r.value.F? && !r.value.OtherCode?
  {
    match s
    case "backspace" => Some(Backspace)
    case "enter" => Some(Enter)
    case "left" => Some(Left)
    case "right" => Some(Right)
    case "up" => Some(Up)
    case "down" => Some(Down)
    case "home" => Some(Home)
    case "end" => Some(End)
    case "page-up" => Some(PageUp)
    case "page-down" => Some(PageDown)
    case "tab" => Some(Tab)
    case "back-tab" => Some(BackTab)
    case "delete" => Some(Delete)
    case "insert" => Some(Insert)
    case "null" => Some(Null)
    case "escape" => Some(Esc)
    case _ => None
  }

  /**
   * `Key::parse_key`: an empty segment is a format error; a one-byte segment
   * is that char; "f" followed by a `u8` is a function key; otherwise a named
   * key or an InvalidKey error carrying the segment.
   */
  function ParseKeyCode(s: string): (r: Result<KeyCode, ParseKeyError>)
    ensures r == Err(InvalidFormat) <==> s == []
    ensures r.Err? ==> r.error == InvalidFormat || r.error == InvalidKey(s)
    ensures |s| == 1 && s[0] as int < 0x80 ==> r == Ok(Char(s[0]))
    ensures r.Ok? && r.value.Char? ==> s == [r.value.c]
  {
    ByteLenOne(s);
    if s == [] then Err(InvalidFormat)
    else if ByteLen(s) == 1 then Ok(Char(s[0]))
    else if s[0] == 'f' then
      match ParseUnsigned(s[1..], U8_MAX)
      case Some(n) => Ok(F(n))
      case None => Err(InvalidKey(s))
    else
      match NamedKey(s)
      case Some(code) => Ok(code)
      case None => Err(InvalidKey(s))
  }

  /** `Key::parse_modifier`. */
  function ParseModifier(s: string): (r: Result<Modifier, ParseKeyError>)
    ensures r.Err? ==> r.error == InvalidModifier(s)
    ensures r.Ok? ==> r.value in {Shift, Control, Alt}
  {
    match s
    case "shift" => Ok(Shift)
    case "ctrl" => Ok(Control)
    case "alt" => Ok(Alt)
    case _ => Err(InvalidModifier(s))
  }

  /** Distinct words name distinct modifiers. */
  lemma ParseModifierInjective(a: string, b: string)
    requires ParseModifier(a).Ok? && ParseModifier(b).Ok?
    ensures ParseModifier(a).value == ParseModifier(b).value <==> a == b
  {
  }

  /** The loop of `Key::parse` over the modifier segments, as a fold from the front. */
  function FoldModifiers(words: seq<string>, acc: set<Modifier>): (r: Result<set<Modifier>, ParseKeyError>)
    ensures r.Ok? ==> acc <= r.value <= acc + {Shift, Control, Alt}
    ensures r.Err? ==> exists i :: 0 <= i < |words| && r.error in {InvalidModifier(words[i]), DuplicateModifier(words[i])}
    decreases |words|
  {
    if words == [] then Ok(acc)
    else
      match ParseModifier(words[0])
      case Err(e) => Err(e)
      case Ok(m) => if m in acc then Err(DuplicateModifier(words[0])) else FoldModifiers(words[1..], acc + {m})
  }

  /** Every word is a modifier, none already in `acc`, and no word repeats. */
  ghost predicate ValidDistinct(words: seq<string>, acc: set<Modifier>) {
    && (forall i :: 0 <= i < |words| ==> ParseModifier(words[i]).Ok?)
    && (forall i :: 0 <= i < |words| ==> ParseModifier(words[i]).value !in acc)
    && (forall i, j :: 0 <= i < j < |words| ==> words[i] != words[j])
  }

  ghost function ModifierSet(words: seq<string>): set<Modifier> {
    set i | 0 <= i < |words| && ParseModifier(words[i]).Ok? :: ParseModifier(words[i]).value
  }

  /** The fold succeeds exactly on valid, distinct modifiers, and yields their union. */
  lemma {:induction false} FoldModifiersOk(words: seq<string>, acc: set<Modifier>)
    ensures FoldModifiers(words, acc).Ok? <==> ValidDistinct(words, acc)
    ensures FoldModifiers(words, acc).Ok? ==> FoldModifiers(words, acc).value == acc + ModifierSet(words)
    decreases |words|
  {
    if words != [] && ParseModifier(words[0]).Ok? {
      var m := ParseModifier(words[0]).value;
      var rest := words[1..];
      FoldModifiersOk(rest, acc + {m});
      if ValidDistinct(words, acc) {
        assert m !in acc;
        forall i | 0 <= i < |rest|
          ensures ParseModifier(rest[i]).value !in acc + {m}
        {
          assert words[i + 1] == rest[i] && words[0] != words[i + 1];
          ParseModifierInjective(words[0], rest[i]);
        }
        assert ValidDistinct(rest, acc + {m});
      }
      if m !in acc && ValidDistinct(rest, acc + {m}) {
        forall i, j | 0 <= i < j < |words|
          ensures words[i] != words[j]
        {
          if i == 0 {
            assert ParseModifier(rest[j - 1]).value != m;
          } else {
            assert words[i] == rest[i - 1] && words[j] == rest[j - 1];
          }
        }
        forall i | 0 <= i < |words|
          ensures ParseModifier(words[i]).Ok? && ParseModifier(words[i]).value !in acc
        {
          if i > 0 { assert words[i] == rest[i - 1]; }
        }
        assert ValidDistinct(words, acc);
        assert ModifierSet(words) == {m} + ModifierSet(rest) by {
          forall x | x in ModifierSet(words) ensures x in {m} + ModifierSet(rest) {
            var i :| 0 <= i < |words| && ParseModifier(words[i]).Ok? && ParseModifier(words[i]).value == x;
            if i > 0 { assert words[i] == rest[i - 1]; }
          }
          forall x | x in ModifierSet(rest) ensures x in ModifierSet(words) {
            var i :| 0 <= i < |rest| && ParseModifier(rest[i]).Ok? && ParseModifier(rest[i]).value == x;
            assert words[i + 1] == rest[i];
          }
        }
      }
    } else if words == [] {
      assert ModifierSet(words) == {};
    }
  }

  /**
   * The fold stops at word `i` with error `e`: the words before it are valid
   * and distinct, and word `i` is either unknown (InvalidModifier) or names a
   * modifier already collected (DuplicateModifier).
   */
  ghost predicate FailsAt(words: seq<string>, acc: set<Modifier>, i: int, e: ParseKeyError) {
    && 0 <= i < |words|
    && ValidDistinct(words[..i], acc)
    && (|| (ParseModifier(words[i]).Err? && e == InvalidModifier(words[i]))
        || (&& ParseModifier(words[i]).Ok?
            && (ParseModifier(words[i]).value in acc || words[i] in words[..i])
            && e == DuplicateModifier(words[i])))
  }

  /**
   * When the fold fails, it fails at the first bad word: an unknown word gives
   * InvalidModifier, a word naming a modifier already collected gives
   * DuplicateModifier, and everything before it was valid and distinct.
   */
  lemma {:induction false} FoldModifiersErr(words: seq<string>, acc: set<Modifier>)
    requires FoldModifiers(words, acc).Err?
    ensures exists i :: FailsAt(words, acc, i, FoldModifiers(words, acc).error)
    decreases |words|
  {
    assert words[..0] == [];
    if ParseModifier(words[0]).Ok? {
      var m := ParseModifier(words[0]).value;
      if m !in acc {
        var rest := words[1..];
        FoldModifiersErr(rest, acc + {m});
        var i :| FailsAt(rest, acc + {m}, i, FoldModifiers(rest, acc + {m}).error);
        assert words[i + 1] == rest[i];
        assert words[..i + 1] == [words[0]] + rest[..i];
        FoldModifiersOk(rest[..i], acc + {m});
        FoldModifiersOk(words[..i + 1], acc);
        assert FoldModifiers(words[..i + 1], acc) == FoldModifiers(rest[..i], acc + {m}) by {
          assert words[..i + 1][1..] == rest[..i];
        }
        if ParseModifier(rest[i]).Ok? && ParseModifier(rest[i]).value == m {
          ParseModifierInjective(rest[i], words[0]);
          assert rest[i] in words[..i + 1];
        }
        assert FailsAt(words, acc, i + 1, FoldModifiers(words, acc).error);
      } else {
        assert FailsAt(words, acc, 0, FoldModifiers(words, acc).error);
      }
    } else {
      assert FailsAt(words, acc, 0, FoldModifiers(words, acc).error);
    }
  }

  /** Every segment trimmed, in order. */
  function TrimAll(words: seq<string>): (r: seq<string>)
    ensures |r| == |words|
  {
    if words == [] then [] else [Trim(words[0])] + TrimAll(words[1..])
  }

  /** TrimAll trims each word in place. */
  lemma {:induction false} TrimAllAt(words: seq<string>)
    ensures forall i :: 0 <= i < |words| ==> TrimAll(words)[i] == Trim(words[i])
  {
    if words != [] {
      TrimAllAt(words[1..]);
      assert forall i :: 1 <= i < |words| ==> words[1..][i - 1] == words[i];
    }
  }

  predicate HasEdgePlus(s: string) {
    |s| > 0 && (s[0] == '+' || s[|s| - 1] == '+')
  }

  /** The trimmed `+`-separated segments of `s`; the last is the key, the others are modifiers. */
  function Segments(s: string): (r: seq<string>)
    ensures |r| >= 1 && |r| == |Split(s, '+')|
    ensures forall i :: 0 <= i < |r| ==> '+' !in r[i]
    ensures forall i :: 0 <= i < |r| ==> r[i] == [] || (!IsWhitespace(r[i][0]) && !IsWhitespace(r[i][|r[i]| - 1]))
  {
    var pieces := Split(s, '+');
    TrimAllAt(pieces);
    SplitJoin(s, '+');
    forall i | 0 <= i < |pieces|
      ensures '+' !in Trim(pieces[i])
    {
      TrimKeepsOut(pieces[i], '+');
    }
    TrimAll(pieces)
  }

  /** The key segment's outcome comes first; the modifiers' outcome matters only for a valid key. */
  function Combine(code: Result<KeyCode, ParseKeyError>, mods: Result<set<Modifier>, ParseKeyError>): Result<Key, ParseKeyError> {
    match code
    case Err(e) => Err(e)
    case Ok(c) =>
      match mods
      case Err(e) => Err(e)
      case Ok(m) => Ok(Key(c, m))
  }

  /**
   * What `Key::parse` computes: a leading or trailing `+` is a format error;
   * then the key segment is parsed, and only then the modifiers, in order.
   */
  function ParseSpec(s: string): (r: Result<Key, ParseKeyError>)
    ensures HasEdgePlus(s) ==> r == Err(InvalidFormat)
    ensures r.Ok? ==> r.value.modifiers <= {Shift, Control, Alt} && !r.value.code.OtherCode?
  {
    if HasEdgePlus(s) then Err(InvalidFormat)
    else
      var words := Segments(s);
      Combine(ParseKeyCode(words[|words| - 1]), FoldModifiers(words[..|words| - 1], {}))
  }

  /** The modifier loop of `Key::parse`: each word parsed in turn, stopping at the first error. */
  method ParseModifiers(words: seq<string>) returns (r: Result<set<Modifier>, ParseKeyError>)
    ensures r == FoldModifiers(words, {})
  {
    var modifiers: set<Modifier> := {};
    var i := 0;
    while i < |words|
      invariant i <= |words|
      invariant FoldModifiers(words, {}) == FoldModifiers(words[i..], modifiers)
    {
      var word := words[i];
      assert words[i..][1..] == words[i + 1..];
      var modifier := ParseModifier(word);
      if modifier.Err? {
        return Err(modifier.error);
      }
      if modifier.value in modifiers {
        return Err(DuplicateModifier(word));
      }
      modifiers := modifiers + {modifier.value};
      i := i + 1;
    }
    assert words[i..] == [];
    return Ok(modifiers);
  }

  /** `Key::parse`: the key segment first, then the modifiers. */
  method Parse(s: string) returns (r: Result<Key, ParseKeyError>)
    ensures r == ParseSpec(s)
  {
    if HasEdgePlus(s) {
      return Err(InvalidFormat);
    }
    var words := Segments(s);
    var keyCode := ParseKeyCode(words[|words| - 1]);
    if keyCode.Err? {
      return Err(keyCode.error);
    }
    var modifiers := ParseModifiers(words[..|words| - 1]);
    r := Combine(keyCode, modifiers);
  }

  /** `FromStr for Key`: the whole input is trimmed, then parsed. */
  function FromStr(s: string): (r: Result<Key, ParseKeyError>)
    ensures Trim(s) == [] || HasEdgePlus(Trim(s)) ==> r == Err(InvalidFormat)
    ensures r.Ok? ==> r.value.modifiers <= {Shift, Control, Alt} && !r.value.code.OtherCode?
  {
    assert Split([], '+') == [""];
    ParseSpec(Trim(s))
  }

  // ---------------------------------------------------------------- properties

  /** A leading or trailing `+` is a format error. */
  lemma EdgePlusIsInvalidFormat(s: string)
    requires HasEdgePlus(s)
    ensures ParseSpec(s) == Err(InvalidFormat)
  {
  }

  /** Input that is empty after trimming is a format error. */
  lemma BlankIsInvalidFormat(s: string)
    requires Trim(s) == []
    ensures FromStr(s) == Err(InvalidFormat)
  {
    assert Split([], '+') == [""];
    assert Trim("") == "";
  }

  /** A bad key segment is reported whatever the modifiers are. */
  lemma KeyErrorFirst(s: string)
    requires !HasEdgePlus(s)
    requires ParseKeyCode(Segments(s)[|Segments(s)| - 1]).Err?
    ensures ParseSpec(s) == Err(ParseKeyCode(Segments(s)[|Segments(s)| - 1]).error)
  {
  }

  /**
   * Parsing succeeds exactly when there is no edge `+`, the key segment is a
   * key and the modifier segments are distinct modifiers; the result holds
   * that key and the union of those modifiers.
   */
  lemma ParseOk(s: string)
    ensures ParseSpec(s).Ok? <==>
      && !HasEdgePlus(s)
      && ParseKeyCode(Segments(s)[|Segments(s)| - 1]).Ok?
      && ValidDistinct(Segments(s)[..|Segments(s)| - 1], {})
    ensures ParseSpec(s).Ok? ==>
      && ParseSpec(s).value.code == ParseKeyCode(Segments(s)[|Segments(s)| - 1]).value
      && ParseSpec(s).value.modifiers == ModifierSet(Segments(s)[..|Segments(s)| - 1])
  {
    if !HasEdgePlus(s) {
      var words := Segments(s);
      FoldModifiersOk(words[..|words| - 1], {});
    }
  }

  /** "f" followed by the decimal form of n is F(n) when n fits in a u8, otherwise an InvalidKey error. */
  lemma FunctionKeys(n: nat)
    ensures n <= U8_MAX ==> ParseKeyCode("f" + Decimal(n)) == Ok(F(n))
    ensures n > U8_MAX ==> ParseKeyCode("f" + Decimal(n)) == Err(InvalidKey("f" + Decimal(n)))
  {
    var s := "f" + Decimal(n);
    assert s[1..] == Decimal(n);
    ByteLenOne(s);
    DecimalValue(n);
  }

  /** A segment of two or more chars that does not start with 'f' is a key exactly when it is a named key. */
  lemma NamedKeysParse(s: string)
    requires |s| >= 2 && s[0] != 'f'
    ensures ParseKeyCode(s).Ok? <==> NamedKey(s).Some?
    ensures NamedKey(s).Some? ==> ParseKeyCode(s) == Ok(NamedKey(s).value)
  {
    ByteLenOne(s);
  }

  /** The segments of a string given by its `+`-separated pieces and their trims. */
  lemma SegmentsOf(s: string, pieces: seq<string>, trimmed: seq<string>)
    requires |pieces| >= 1 && Join(pieces, '+') == s
    requires forall i :: 0 <= i < |pieces| ==> '+' !in pieces[i]
    requires |trimmed| == |pieces| && forall i :: 0 <= i < |pieces| ==> Trim(pieces[i]) == trimmed[i]
    ensures Segments(s) == trimmed
  {
    JoinSplit(pieces, '+');
    TrimAllAt(pieces);
  }

  /** Parsing a trimmed, `+`-joined list of trimmed pieces: the last piece is the key, the rest the modifiers. */
  lemma FromStrOf(s: string, pieces: seq<string>)
    requires |pieces| >= 1 && Join(pieces, '+') == s && Trim(s) == s && !HasEdgePlus(s)
    requires forall i :: 0 <= i < |pieces| ==> '+' !in pieces[i] && Trim(pieces[i]) == pieces[i]
    ensures FromStr(s) == Combine(ParseKeyCode(pieces[|pieces| - 1]), FoldModifiers(pieces[..|pieces| - 1], {}))
  {
    SegmentsOf(s, pieces, pieces);
    ParseSpecOf(s, pieces);
  }

  /** ParseSpec once the segments are known. */
  lemma ParseSpecOf(s: string, words: seq<string>)
    requires !HasEdgePlus(s) && Segments(s) == words
    ensures ParseSpec(s) == Combine(ParseKeyCode(words[|words| - 1]), FoldModifiers(words[..|words| - 1], {}))
  {
  }

  // The cases of the source's `parse` test, in steps: the key segments, the
  // modifier lists, how each input splits, and then the outcomes.

  lemma KeyCodeExamples()
    ensures ParseKeyCode("a") == Ok(Char('a'))
    ensures ParseKeyCode("escape") == Ok(Esc)
    ensures ParseKeyCode("shift") == Err(InvalidKey("shift"))
  {
    NamedKeysParse("escape");
    NamedKeysParse("shift");
  }

  lemma FunctionKeyExample0() ensures ParseKeyCode("f0") == Ok(F(0)) {
    FunctionKeys(0);
    assert Decimal(0) == "0";
  }

  lemma FunctionKeyExample255() ensures ParseKeyCode("f255") == Ok(F(255)) {
    FunctionKeys(255);
    assert Decimal(255) == "255";
  }

  lemma FunctionKeyExample256() ensures ParseKeyCode("f256") == Err(InvalidKey("f256")) {
    FunctionKeys(256);
    assert Decimal(256) == "256";
  }

  lemma ModifierExamples()
    ensures FoldModifiers([], {}) == Ok({})
    ensures FoldModifiers(["shift"], {}) == Ok({Shift})
    ensures FoldModifiers(["ctrl"], {}) == Ok({Control})
    ensures FoldModifiers(["alt"], {}) == Ok({Alt})
    ensures FoldModifiers(["shif"], {}) == Err(InvalidModifier("shif"))
    ensures FoldModifiers(["shift", "shift"], {}) == Err(DuplicateModifier("shift"))
    ensures FoldModifiers(["shift", "ctrl", "alt"], {}) == Ok({Shift, Control, Alt})
  {
    assert ["shift"][1..] == [] && ["ctrl"][1..] == [] && ["alt"][1..] == [];
    assert {} + {Shift} == {Shift} && {} + {Control} == {Control} && {} + {Alt} == {Alt};
    assert ["shift", "shift"][1..] == ["shift"];
    assert ["shift", "ctrl", "alt"][1..] == ["ctrl", "alt"];
    assert ["ctrl", "alt"][1..] == ["alt"];
    assert {Shift} + {Control} == {Shift, Control};
    assert {Shift, Control} + {Alt} == {Shift, Control, Alt};
    assert FoldModifiers(["alt"], {Shift, Control}) == Ok({Shift, Control, Alt});
    assert FoldModifiers(["ctrl", "alt"], {Shift}) == Ok({Shift, Control, Alt});
  }

  /** A single trimmed segment without `+` is the key alone. */
  lemma FromStrOne(s: string)
    requires s != [] && Trim(s) == s && '+' !in s
    ensures FromStr(s) == Combine(ParseKeyCode(s), FoldModifiers([], {}))
  {
    FromStrOf(s, [s]);
    assert [s][..0] == [];
  }

  /** Two trimmed pieces without `+` around one `+`: a modifier and a key. */
  lemma FromStrTwo(m: string, k: string)
    requires m != [] && k != [] && Trim(m) == m && '+' !in m && Trim(k) == k && '+' !in k
    ensures FromStr(m + "+" + k) == Combine(ParseKeyCode(k), FoldModifiers([m], {}))
  {
    var s := m + "+" + k;
    assert !HasEdgePlus(s) by { assert s[0] == m[0] && s[|s| - 1] == k[|k| - 1]; }
    assert Trim(s) == s by { TrimUnpadded(s); }
    FromStrOf(s, [m, k]);
    assert [m, k][..1] == [m];
  }

  /** A piece without `+` in front of a `+` becomes the first segment, trimmed. */
  lemma SegmentsCons(m: string, rest: string)
    requires '+' !in m
    ensures Segments(m + "+" + rest) == [Trim(m)] + Segments(rest)
  {
    SplitCons(m, rest, '+');
    assert m + "+" + rest == m + ['+'] + rest;
    var r := Split(rest, '+');
    assert ([m] + r)[1..] == r;
  }

  /** A string without `+` is one segment. */
  lemma SegmentsSingle(k: string)
    requires '+' !in k
    ensures Segments(k) == [Trim(k)]
  {
    SplitNoSep(k, '+');
  }

  lemma SegmentsThree(a: string, b: string, k: string)
    requires '+' !in a && '+' !in b && '+' !in k
    ensures Segments(a + "+" + (b + "+" + k)) == [Trim(a), Trim(b), Trim(k)]
  {
    SegmentsSingle(k);
    SegmentsCons(b, k);
    SegmentsCons(a, b + "+" + k);
  }

  lemma SegmentsFour(a: string, b: string, c: string, k: string)
    requires '+' !in a && '+' !in b && '+' !in c && '+' !in k
    ensures Segments(a + "+" + (b + "+" + (c + "+" + k))) == [Trim(a), Trim(b), Trim(c), Trim(k)]
  {
    SegmentsThree(b, c, k);
    SegmentsCons(a, b + "+" + (c + "+" + k));
  }

  /** FromStr once the segments of the trimmed input are known. */
  lemma FromStrSegments(s: string, words: seq<string>)
    requires !HasEdgePlus(Trim(s)) && Segments(Trim(s)) == words
    ensures FromStr(s) == Combine(ParseKeyCode(words[|words| - 1]), FoldModifiers(words[..|words| - 1], {}))
  {
    ParseSpecOf(Trim(s), words);
  }

  /** An input whose trim is three `+`-separated pieces. */
  lemma FromStrThree(s: string, a: string, b: string, k: string)
    requires '+' !in a && '+' !in b && '+' !in k
    requires Trim(s) == a + "+" + (b + "+" + k) && !HasEdgePlus(Trim(s))
    ensures FromStr(s) == Combine(ParseKeyCode(Trim(k)), FoldModifiers([Trim(a), Trim(b)], {}))
  {
    SegmentsThree(a, b, k);
    var words := [Trim(a), Trim(b), Trim(k)];
    FromStrSegments(s, words);
    assert words[..2] == [Trim(a), Trim(b)];
  }

  /** An input whose trim is four `+`-separated pieces. */
  lemma FromStrFour(s: string, a: string, b: string, c: string, k: string)
    requires '+' !in a && '+' !in b && '+' !in c && '+' !in k
    requires Trim(s) == a + "+" + (b + "+" + (c + "+" + k)) && !HasEdgePlus(Trim(s))
    ensures FromStr(s) == Combine(ParseKeyCode(Trim(k)), FoldModifiers([Trim(a), Trim(b), Trim(c)], {}))
  {
    SegmentsFour(a, b, c, k);
    var words := [Trim(a), Trim(b), Trim(c), Trim(k)];
    FromStrSegments(s, words);
    assert words[..3] == [Trim(a), Trim(b), Trim(c)];
  }

  /** An input whose trim is two `+`-separated pieces. */
  lemma FromStrTwoPadded(s: string, a: string, k: string)
    requires '+' !in a && '+' !in k
    requires Trim(s) == a + "+" + k && !HasEdgePlus(Trim(s))
    ensures FromStr(s) == Combine(ParseKeyCode(Trim(k)), FoldModifiers([Trim(a)], {}))
  {
    SegmentsSingle(k);
    SegmentsCons(a, k);
    var words := [Trim(a), Trim(k)];
    FromStrSegments(s, words);
    assert words[..1] == [Trim(a)];
  }

  /** FromStr trims first, so trimming beforehand changes nothing. */
  lemma FromStrTrim(s: string)
    ensures FromStr(s) == FromStr(Trim(s))
  {
    TrimUnpadded(Trim(s));
  }

  lemma SegmentsChar() ensures FromStr("a") == Combine(ParseKeyCode("a"), FoldModifiers([], {})) {
    TrimUnpadded("a");
    FromStrOne("a");
  }

  lemma SegmentsEscape() ensures FromStr("escape") == Combine(ParseKeyCode("escape"), FoldModifiers([], {})) {
    TrimUnpadded("escape");
    FromStrOne("escape");
  }

  lemma SegmentsShift() ensures FromStr("shift") == Combine(ParseKeyCode("shift"), FoldModifiers([], {})) {
    TrimUnpadded("shift");
    FromStrOne("shift");
  }

  lemma SegmentsF0() ensures FromStr("f0") == Combine(ParseKeyCode("f0"), FoldModifiers([], {})) {
    TrimUnpadded("f0");
    FromStrOne("f0");
  }

  lemma SegmentsF255() ensures FromStr("f255") == Combine(ParseKeyCode("f255"), FoldModifiers([], {})) {
    TrimUnpadded("f255");
    FromStrOne("f255");
  }

  lemma SegmentsF256() ensures FromStr("f256") == Combine(ParseKeyCode("f256"), FoldModifiers([], {})) {
    TrimUnpadded("f256");
    FromStrOne("f256");
  }

  lemma SegmentsShiftA() ensures FromStr("shift+a") == Combine(ParseKeyCode("a"), FoldModifiers(["shift"], {})) {
    TrimUnpadded("shift");
    TrimUnpadded("a");
    FromStrTwo("shift", "a");
    assert "shift" + "+" + "a" == "shift+a";
  }

  lemma SegmentsCtrlA() ensures FromStr("ctrl+a") == Combine(ParseKeyCode("a"), FoldModifiers(["ctrl"], {})) {
    TrimUnpadded("ctrl");
    TrimUnpadded("a");
    FromStrTwo("ctrl", "a");
    assert "ctrl" + "+" + "a" == "ctrl+a";
  }

  lemma SegmentsAltA() ensures FromStr("alt+a") == Combine(ParseKeyCode("a"), FoldModifiers(["alt"], {})) {
    TrimUnpadded("alt");
    TrimUnpadded("a");
    FromStrTwo("alt", "a");
    assert "alt" + "+" + "a" == "alt+a";
  }

  lemma SegmentsShiftShift() ensures FromStr("shift+shift") == Combine(ParseKeyCode("shift"), FoldModifiers(["shift"], {})) {
    TrimUnpadded("shift");
    TrimUnpadded("shift");
    FromStrTwo("shift", "shift");
    assert "shift" + "+" + "shift" == "shift+shift";
  }

  lemma SegmentsShifA() ensures FromStr("shif+a") == Combine(ParseKeyCode("a"), FoldModifiers(["shif"], {})) {
    TrimUnpadded("shif");
    TrimUnpadded("a");
    FromStrTwo("shif", "a");
    assert "shif" + "+" + "a" == "shif+a";
  }

  lemma PaddedTrimWhole() ensures Trim(" shift + ctrl + alt + a ") == "shift + ctrl + alt + a" {
    TrimPadded(" ", "shift + ctrl + alt + a", " ");
  }

  lemma PaddedTrimFirst() ensures Trim("shift ") == "shift" && Trim(" ctrl ") == "ctrl" {
    TrimPadded("", "shift", " ");
    TrimPadded(" ", "ctrl", " ");
  }

  lemma PaddedTrimRest() ensures Trim(" alt ") == "alt" && Trim(" a") == "a" {
    TrimPadded(" ", "alt", " ");
    TrimPadded(" ", "a", "");
  }

  lemma UnpaddedWords() ensures Trim("shift") == "shift" && Trim("ctrl") == "ctrl" && Trim("alt") == "alt" && Trim("a") == "a" {
    TrimUnpadded("shift");
    TrimUnpadded("ctrl");
    TrimUnpadded("alt");
    TrimUnpadded("a");
  }

  lemma LongNoPlus()
    ensures '+' !in "shift" && '+' !in "ctrl" && '+' !in "alt" && '+' !in "a"
    ensures '+' !in "shift " && '+' !in " ctrl " && '+' !in " alt " && '+' !in " a"
  {}

  lemma ShiftShiftAConcat() ensures "shift" + "+" + ("shift" + "+" + "a") == "shift+shift+a" {}

  lemma SegmentsShiftShiftA() ensures FromStr("shift+shift+a") == Combine(ParseKeyCode("a"), FoldModifiers(["shift", "shift"], {})) {
    ShiftShiftAConcat();
    LongNoPlus();
    UnpaddedWords();
    TrimUnpadded("shift+shift+a");
    FromStrThree("shift+shift+a", "shift", "shift", "a");
  }

  lemma AllConcat() ensures "shift" + "+" + ("ctrl" + "+" + ("alt" + "+" + "a")) == "shift+ctrl+alt+a" {}

  lemma SegmentsAll()
    ensures FromStr("shift+ctrl+alt+a") == Combine(ParseKeyCode("a"), FoldModifiers(["shift", "ctrl", "alt"], {}))
  {
    AllConcat();
    LongNoPlus();
    UnpaddedWords();
    TrimUnpadded("shift+ctrl+alt+a");
    FromStrFour("shift+ctrl+alt+a", "shift", "ctrl", "alt", "a");
  }

  lemma PaddedConcat() ensures "shift " + "+" + (" ctrl " + "+" + (" alt " + "+" + " a")) == "shift + ctrl + alt + a" {}

  lemma SegmentsPadded()
    ensures FromStr(" shift + ctrl + alt + a ") == Combine(ParseKeyCode("a"), FoldModifiers(["shift", "ctrl", "alt"], {}))
  {
    PaddedTrimWhole();
    PaddedConcat();
    LongNoPlus();
    PaddedTrimFirst();
    PaddedTrimRest();
    FromStrFour(" shift + ctrl + alt + a ", "shift ", " ctrl ", " alt ", " a");
  }

  lemma EdgePlusExamples() ensures FromStr("a+") == Err(InvalidFormat) && FromStr("+a") == Err(InvalidFormat) {
    TrimUnpadded("a+");
    TrimUnpadded("+a");
  }

  /** The seventeen cases of the source's `parse` test. */
  lemma ParseExamples()
    ensures FromStr("") == Err(InvalidFormat)
    ensures FromStr("a") == Ok(Key(Char('a'), {}))
    ensures FromStr("escape") == Ok(Key(Esc, {}))
    ensures FromStr("f0") == Ok(Key(F(0), {}))
    ensures FromStr("f255") == Ok(Key(F(255), {}))
    ensures FromStr("f256") == Err(InvalidKey("f256"))
    ensures FromStr("shift+a") == Ok(Key(Char('a'), {Shift}))
    ensures FromStr("ctrl+a") == Ok(Key(Char('a'), {Control}))
    ensures FromStr("alt+a") == Ok(Key(Char('a'), {Alt}))
    ensures FromStr("shift+ctrl+alt+a") == Ok(Key(Char('a'), {Shift, Control, Alt}))
    ensures FromStr(" shift + ctrl + alt + a ") == Ok(Key(Char('a'), {Shift, Control, Alt}))
    ensures FromStr("a+") == Err(InvalidFormat)
    ensures FromStr("+a") == Err(InvalidFormat)
    ensures FromStr("shift") == Err(InvalidKey("shift"))
    ensures FromStr("shift+shift") == Err(InvalidKey("shift"))
    ensures FromStr("shif+a") == Err(InvalidModifier("shif"))
    ensures FromStr("shift+shift+a") == Err(DuplicateModifier("shift"))
  {
    BlankIsInvalidFormat("");
    KeyCodeExamples();
    FunctionKeyExample0();
    FunctionKeyExample255();
    FunctionKeyExample256();
    ModifierExamples();
    EdgePlusExamples();
    SegmentsChar();
    SegmentsEscape();
    SegmentsShift();
    SegmentsF0();
    SegmentsF255();
    SegmentsF256();
    SegmentsShiftA();
    SegmentsCtrlA();
    SegmentsAltA();
    SegmentsShiftShift();
    SegmentsShifA();
    SegmentsShiftShiftA();
    SegmentsAll();
    SegmentsPadded();
  }
}
