/**
 * Binds of a key to an action (src/types/bind.rs): `key:action`, split at the
 * last colon of the first colon group, so that a colon can itself be the key.
 */
module Binding {
  import opened Wrappers
  import opened RustStr
  import opened Utils
  import Keys
  import Actions

  datatype Bind = Bind(key: Keys.Key, action: Actions.Action)

  datatype ParseBindError =
    | InvalidFormat
    | KeyError(keyError: Keys.ParseKeyError)
    | ActionError(actionError: Actions.ParseActionError)

  /** What a call does in Rust: it returns a value or it panics. */
  datatype Outcome<T> = Returned(value: T) | Panicked

  /** Parses the key text, then the action text; a key error wins over an action error. */
  function Assemble(keyText: string, actionText: string): (r: Result<Bind, ParseBindError>)
    ensures r.Ok? <==> Keys.FromStr(keyText).Ok? && Actions.FromStr(actionText).Ok?
    ensures r.Ok? ==> r.value == Bind(Keys.FromStr(keyText).value, Actions.FromStr(actionText).value)
    ensures Keys.FromStr(keyText).Err? ==> r == Err(KeyError(Keys.FromStr(keyText).error))
    ensures Keys.FromStr(keyText).Ok? && Actions.FromStr(actionText).Err? ==>
              r == Err(ActionError(Actions.FromStr(actionText).error))
  {
    match Keys.FromStr(keyText)
    case Err(e) => Err(KeyError(e))
    case Ok(key) =>
      match Actions.FromStr(actionText)
      case Err(e) => Err(ActionError(e))
      case Ok(action) => Ok(Bind(key, action))
  }

  /**
   * `Bind::parse` with the colon located by its char index: the text before
   * the colon is the key, the text after it the action.
   */
  function Parse(s: string): (r: Result<Bind, ParseBindError>)
    ensures r == Err(InvalidFormat) <==> ':' !in s
  {
    LastAdjacentNone(s, ':');
    match LastAdjacent(s, ':')
    case None => Err(InvalidFormat)
    case Some(k) => Assemble(s[..k], s[k + 1..])
  }

  /** The split point is the colon that ends the first colon group. */
  lemma ParseAt(s: string, k: nat)
    requires EndsFirstGroup(s, ':', k)
    ensures Parse(s) == Assemble(s[..k], s[k + 1..])
  {
    LastAdjacentIff(s, ':', k);
  }

  /** `FromStr`: the whole input is trimmed before parsing. */
  function FromStr(s: string): (r: Result<Bind, ParseBindError>)
    ensures r == Err(InvalidFormat) <==> ':' !in Trim(s)
  {
    Parse(Trim(s))
  }

  /** `FromStr` as written: the trimmed input goes to the code as written, which agrees with FromStr on ASCII. */
  function FromStrAsWritten(s: string): (r: Outcome<Result<Bind, ParseBindError>>)
    ensures ':' !in Trim(s) ==> r == Returned(Err(InvalidFormat))
    ensures IsAscii(Trim(s)) ==> r == Returned(FromStr(s))
  {
    assert IsAscii(Trim(s)) ==> ParseAsWritten(Trim(s)) == Returned(Parse(Trim(s))) by {
      if IsAscii(Trim(s)) { AsWrittenAgreesOnAscii(Trim(s)); }
    }
    ParseAsWritten(Trim(s))
  }

  /**
   * `Bind::parse` as written: find_last_adjacent reports a byte offset, which
   * is then used as a char count in `char_indices().nth`, and `get(1..)` drops
   * one byte after the split.
   */
  function ParseAsWritten(s: string): (r: Outcome<Result<Bind, ParseBindError>>)
    ensures ':' !in s ==> r == Returned(Err(InvalidFormat))
  {
    LastAdjacentNone(s, ':');
    match ByteOffsetOf(s, LastAdjacent(s, ':'))
    case None => Returned(Err(InvalidFormat))
    case Some(b) =>
      if b >= |s| then Panicked
      else
        var action := s[b..];
        Returned(Assemble(s[..b], if Utf8Len(action[0]) == 1 then action[1..] else []))
  }

  /** When everything before the colon is ASCII the code as written does what is meant. */
  lemma AsWrittenAgreesOnAsciiPrefix(s: string)
    requires LastAdjacent(s, ':').Some? ==> IsAscii(s[..LastAdjacent(s, ':').value])
    ensures ParseAsWritten(s) == Returned(Parse(s))
  {
    LastAdjacentNone(s, ':');
    if LastAdjacent(s, ':').Some? {
      var k := LastAdjacent(s, ':').value;
      AsciiByteLen(s[..k]);
      assert s[k..][0] == ':';
      assert s[k..][1..] == s[k + 1..];
    }
  }

  lemma AsWrittenAgreesOnAscii(s: string)
    requires IsAscii(s)
    ensures ParseAsWritten(s) == Returned(Parse(s))
  {
    LastAdjacentNone(s, ':');
    AsWrittenAgreesOnAsciiPrefix(s);
  }

  /** Parse once the colon is known: the key text and the action text around it. */
  lemma ParseSplit(s: string, k: nat, keyText: string, actionText: string)
    requires LastAdjacent(s, ':') == Some(k) && s[..k] == keyText && s[k + 1..] == actionText
    ensures Parse(s) == Assemble(keyText, actionText)
  {
  }

  // Two inputs on which the code as written and the intended split differ.

  lemma AccentedColon() ensures LastAdjacent("\U{00E9}\U{00E9}:x", ':') == Some(2) {}

  lemma AccentedBytes() ensures ByteLen("\U{00E9}\U{00E9}") == 4 {
    assert "\U{00E9}\U{00E9}"[..1] == "\U{00E9}";
  }

  lemma AccentedKey() ensures Keys.FromStr("\U{00E9}\U{00E9}") == Err(Keys.InvalidKey("\U{00E9}\U{00E9}")) {
    TrimUnpadded("\U{00E9}\U{00E9}");
    Keys.FromStrOne("\U{00E9}\U{00E9}");
    AccentedBytes();
  }

  /** Two two-byte chars before the colon: the byte offset 4 is past the last char, and `unwrap` panics. */
  lemma AsWrittenPanics()
    ensures ParseAsWritten("\U{00E9}\U{00E9}:x") == Panicked
    ensures Parse("\U{00E9}\U{00E9}:x") == Err(KeyError(Keys.InvalidKey("\U{00E9}\U{00E9}")))
  {
    var s := "\U{00E9}\U{00E9}:x";
    AccentedColon();
    AccentedBytes();
    assert s[..2] == "\U{00E9}\U{00E9}";
    AccentedKey();
    ParseSplit(s, 2, "\U{00E9}\U{00E9}", "x");
  }

  /** Surrounding whitespace does not help: `from_str` as written panics on the padded input too. */
  lemma FromStrAsWrittenPanics()
    ensures FromStrAsWritten(" \U{00E9}\U{00E9}:x ") == Panicked
    ensures FromStr(" \U{00E9}\U{00E9}:x ") == Err(KeyError(Keys.InvalidKey("\U{00E9}\U{00E9}")))
  {
    TrimPadded(" ", "\U{00E9}\U{00E9}:x", " ");
    assert " " + "\U{00E9}\U{00E9}:x" + " " == " \U{00E9}\U{00E9}:x ";
    AsWrittenPanics();
  }

  lemma NbspColon() ensures LastAdjacent("a\U{00A0}:exit", ':') == Some(2) {}

  lemma NbspBytes() ensures ByteLen("a\U{00A0}") == 3 {
    assert "a\U{00A0}"[..1] == "a";
  }

  lemma NbspTrim() ensures Trim("a\U{00A0}") == "a" {
    TrimPadded("", "a", "\U{00A0}");
    assert "" + "a" + "\U{00A0}" == "a\U{00A0}";
  }

  lemma NbspKey() ensures Keys.FromStr("a\U{00A0}") == Ok(Keys.Key(Keys.Char('a'), {})) {
    NbspTrim();
    Keys.FromStrTrim("a\U{00A0}");
    TrimUnpadded("a");
    Keys.FromStrOne("a");
    Keys.KeyCodeExamples();
    Keys.ModifierExamples();
  }

  lemma NbspColonBytes() ensures ByteLen("a\U{00A0}:") == 4 {
    NbspBytes();
    assert "a\U{00A0}:"[..2] == "a\U{00A0}";
  }

  lemma NbspColonKey() ensures Keys.FromStr("a\U{00A0}:") == Err(Keys.InvalidKey("a\U{00A0}:")) {
    TrimUnpadded("a\U{00A0}:");
    Keys.FromStrOne("a\U{00A0}:");
    NbspColonBytes();
  }

  lemma NbspSlices()
    ensures "a\U{00A0}:exit"[..3] == "a\U{00A0}:" && "a\U{00A0}:exit"[3..] == "exit"
    ensures "a\U{00A0}:exit"[..2] == "a\U{00A0}" && "a\U{00A0}:exit"[3..][1..] == "xit"
  {}

  lemma ExitAction() ensures Actions.FromStr("exit") == Ok(Actions.Exit) && Actions.FromStr("xit") == Err(Actions.ParseActionError("xit")) {
    TrimUnpadded("exit");
    TrimUnpadded("xit");
  }

  /**
   * A no-break space (two bytes, whitespace to `trim`) before the colon: the
   * split lands one char late, so a valid bind is rejected.
   */
  lemma AsWrittenRejectsValid()
    ensures ParseAsWritten("a\U{00A0}:exit") == Returned(Err(KeyError(Keys.InvalidKey("a\U{00A0}:"))))
    ensures Parse("a\U{00A0}:exit") == Ok(Bind(Keys.Key(Keys.Char('a'), {}), Actions.Exit))
  {
    var s := "a\U{00A0}:exit";
    NbspColon();
    NbspBytes();
    NbspKey();
    NbspColonKey();
    ExitAction();
    NbspSlices();
    ParseSplit(s, 2, "a\U{00A0}", "exit");
  }

  // The cases of the source's `parse` test, in steps: what the key and action
  // texts parse to, where the colon is, and then the outcomes.

  /** FromStr once the trimmed input is known as key text, colon, action text. */
  lemma FromStrAt(s: string, keyText: string, actionText: string)
    requires Trim(s) == keyText + ":" + actionText
    requires LastAdjacent(keyText + ":" + actionText, ':') == Some(|keyText|)
    ensures FromStr(s) == Assemble(keyText, actionText)
  {
    var t := keyText + ":" + actionText;
    assert t[..|keyText|] == keyText;
    assert t[|keyText| + 1..] == actionText;
  }

  lemma ColonCode() ensures Keys.ParseKeyCode(":") == Ok(Keys.Char(':')) {
    assert ByteLen(":") == 1;
  }

  lemma ColonKey() ensures Keys.FromStr(":") == Ok(Keys.Key(Keys.Char(':'), {})) {
    TrimUnpadded(":");
    Keys.FromStrOne(":");
    ColonCode();
    Keys.ModifierExamples();
  }

  lemma ColonSpaceKey() ensures Keys.FromStr(": ") == Ok(Keys.Key(Keys.Char(':'), {})) {
    TrimPadded("", ":", " ");
    assert "" + ":" + " " == ": ";
    Keys.FromStrTrim(": ");
    ColonKey();
  }

  lemma DoubleColonKey() ensures Keys.FromStr("::") == Err(Keys.InvalidKey("::")) {
    assert ByteLen("::") == 2 by { assert "::"[..1] == ":"; }
    TrimUnpadded("::");
    Keys.FromStrOne("::");
  }

  lemma AltColonKey() ensures Keys.FromStr("alt+:") == Ok(Keys.Key(Keys.Char(':'), {Keys.Alt})) {
    TrimUnpadded("alt");
    TrimUnpadded(":");
    Keys.FromStrTwo("alt", ":");
    assert "alt" + "+" + ":" == "alt+:";
    ColonCode();
    Keys.ModifierExamples();
  }

  lemma PaddedAltColonTrim() ensures Trim("alt + : ") == "alt + :" {
    TrimPadded("", "alt + :", " ");
    assert "" + "alt + :" + " " == "alt + : ";
  }

  lemma PaddedAltColonPieces() ensures Trim("alt ") == "alt" && Trim(" :") == ":" {
    TrimPadded("", "alt", " ");
    assert "" + "alt" + " " == "alt ";
    TrimPadded(" ", ":", "");
    assert " " + ":" + "" == " :";
  }

  lemma PaddedAltColonKey() ensures Keys.FromStr("alt + : ") == Ok(Keys.Key(Keys.Char(':'), {Keys.Alt})) {
    PaddedAltColonTrim();
    PaddedAltColonPieces();
    assert "alt " + "+" + " :" == "alt + :";
    Keys.FromStrTwoPadded("alt + : ", "alt ", " :");
    ColonCode();
    Keys.ModifierExamples();
  }

  lemma UnknownModifier() ensures Keys.FoldModifiers(["al"], {}) == Err(Keys.InvalidModifier("al")) {}

  lemma UnknownModifierKey() ensures Keys.FromStr("al+:") == Err(Keys.InvalidModifier("al")) {
    TrimUnpadded("al");
    TrimUnpadded(":");
    Keys.FromStrTwo("al", ":");
    assert "al" + "+" + ":" == "al+:";
    ColonCode();
    UnknownModifier();
  }

  lemma RepeatedModifier() ensures Keys.FoldModifiers(["alt", "alt"], {}) == Err(Keys.DuplicateModifier("alt")) {
    assert ["alt", "alt"][1..] == ["alt"];
    assert {} + {Keys.Alt} == {Keys.Alt};
  }

  lemma RepeatedModifierKey() ensures Keys.FromStr("alt+alt+:") == Err(Keys.DuplicateModifier("alt")) {
    TrimUnpadded("alt");
    TrimUnpadded(":");
    TrimUnpadded("alt+alt+:");
    assert "alt" + "+" + ("alt" + "+" + ":") == "alt+alt+:";
    Keys.FromStrThree("alt+alt+:", "alt", "alt", ":");
    ColonCode();
    RepeatedModifier();
  }

  lemma ExitTexts() ensures Actions.FromStr("exit") == Ok(Actions.Exit) && Actions.FromStr(" exit") == Ok(Actions.Exit) {
    TrimUnpadded("exit");
    TrimPadded(" ", "exit", "");
    assert " " + "exit" + "" == " exit";
  }

  lemma InvalidTexts()
    ensures Actions.FromStr("invalid") == Err(Actions.ParseActionError("invalid"))
    ensures Actions.FromStr(" invalid") == Err(Actions.ParseActionError("invalid"))
  {
    TrimUnpadded("invalid");
    TrimPadded(" ", "invalid", "");
    assert " " + "invalid" + "" == " invalid";
  }

  lemma BindColonExit()
    ensures FromStr(":: exit") == Ok(Bind(Keys.Key(Keys.Char(':'), {}), Actions.Exit))
  {
    TrimUnpadded(":: exit");
    assert ":" + ":" + " exit" == ":: exit";
    assert LastAdjacent(":: exit", ':') == Some(1);
    FromStrAt(":: exit", ":", " exit");
    ColonKey();
    ExitTexts();
  }

  lemma BindAltColonExit()
    ensures FromStr("alt+::exit") == Ok(Bind(Keys.Key(Keys.Char(':'), {Keys.Alt}), Actions.Exit))
  {
    TrimUnpadded("alt+::exit");
    assert "alt+:" + ":" + "exit" == "alt+::exit";
    assert LastAdjacent("alt+::exit", ':') == Some(5);
    FromStrAt("alt+::exit", "alt+:", "exit");
    AltColonKey();
    ExitTexts();
  }

  lemma BindPaddedTrim() ensures Trim(" alt + : : exit ") == "alt + : : exit" {
    TrimPadded(" ", "alt + : : exit", " ");
    assert " " + "alt + : : exit" + " " == " alt + : : exit ";
  }

  lemma BindPaddedColon() ensures LastAdjacent("alt + : : exit", ':') == Some(8) {}

  lemma BindPadded()
    ensures FromStr(" alt + : : exit ") == Ok(Bind(Keys.Key(Keys.Char(':'), {Keys.Alt}), Actions.Exit))
  {
    BindPaddedTrim();
    assert "alt + : " + ":" + " exit" == "alt + : : exit";
    BindPaddedColon();
    FromStrAt(" alt + : : exit ", "alt + : ", " exit");
    PaddedAltColonKey();
    ExitTexts();
  }

  lemma BindThreeColons()
    ensures FromStr(":::exit") == Err(KeyError(Keys.InvalidKey("::")))
  {
    TrimUnpadded(":::exit");
    assert "::" + ":" + "exit" == ":::exit";
    assert LastAdjacent(":::exit", ':') == Some(2);
    FromStrAt(":::exit", "::", "exit");
    DoubleColonKey();
  }

  lemma BindUnknownModifier()
    ensures FromStr("al+::exit") == Err(KeyError(Keys.InvalidModifier("al")))
  {
    TrimUnpadded("al+::exit");
    assert "al+:" + ":" + "exit" == "al+::exit";
    assert LastAdjacent("al+::exit", ':') == Some(4);
    FromStrAt("al+::exit", "al+:", "exit");
    UnknownModifierKey();
  }

  lemma BindRepeatedModifierColon() ensures LastAdjacent("alt+alt+::exit", ':') == Some(9) {
    var s := "alt+alt+::exit";
    assert ScanFrom(s, ':', 8, None) == Some(9);
    assert ScanFrom(s, ':', 4, None) == Some(9);
  }

  lemma BindRepeatedModifier()
    ensures FromStr("alt+alt+::exit") == Err(KeyError(Keys.DuplicateModifier("alt")))
  {
    TrimUnpadded("alt+alt+::exit");
    assert "alt+alt+:" + ":" + "exit" == "alt+alt+::exit";
    BindRepeatedModifierColon();
    FromStrAt("alt+alt+::exit", "alt+alt+:", "exit");
    RepeatedModifierKey();
  }

  lemma BindInvalidAction()
    ensures FromStr("::invalid") == Err(ActionError(Actions.ParseActionError("invalid")))
  {
    TrimUnpadded("::invalid");
    assert ":" + ":" + "invalid" == "::invalid";
    assert LastAdjacent("::invalid", ':') == Some(1);
    FromStrAt("::invalid", ":", "invalid");
    ColonKey();
    InvalidTexts();
  }

  lemma BindSpacedInvalidAction()
    ensures FromStr(": : invalid") == Err(ActionError(Actions.ParseActionError("invalid")))
  {
    TrimUnpadded(": : invalid");
    assert ": " + ":" + " invalid" == ": : invalid";
    assert LastAdjacent(": : invalid", ':') == Some(2);
    FromStrAt(": : invalid", ": ", " invalid");
    ColonSpaceKey();
    InvalidTexts();
  }

  /** The eight cases of the source's `parse` test. */
  lemma ParseExamples()
    ensures FromStr(":: exit") == Ok(Bind(Keys.Key(Keys.Char(':'), {}), Actions.Exit))
    ensures FromStr("alt+::exit") == Ok(Bind(Keys.Key(Keys.Char(':'), {Keys.Alt}), Actions.Exit))
    ensures FromStr(" alt + : : exit ") == Ok(Bind(Keys.Key(Keys.Char(':'), {Keys.Alt}), Actions.Exit))
    ensures FromStr(":::exit") == Err(KeyError(Keys.InvalidKey("::")))
    ensures FromStr("al+::exit") == Err(KeyError(Keys.InvalidModifier("al")))
    ensures FromStr("alt+alt+::exit") == Err(KeyError(Keys.DuplicateModifier("alt")))
    ensures FromStr("::invalid") == Err(ActionError(Actions.ParseActionError("invalid")))
    ensures FromStr(": : invalid") == Err(ActionError(Actions.ParseActionError("invalid")))
  {
    BindColonExit();
    BindAltColonExit();
    BindPadded();
    BindThreeColons();
    BindUnknownModifier();
    BindRepeatedModifier();
    BindInvalidAction();
    BindSpacedInvalidAction();
  }
}
