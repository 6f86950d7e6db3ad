/**
 * Actions a bind can name (src/types/action.rs): the action types, the
 * exact-match parser, `FromStr` with trimming and string deserialisation.
 */
module Actions {
  import opened Wrappers
  import opened RustStr
  import Keys

  /** How a key event came about; the decode tables ignore it. */
  datatype KeyEventKind = Press | Repeat | Release

  /** A terminal key event: its code, its modifier set and its kind. */
  datatype KeyEvent = KeyEvent(code: Keys.KeyCode, modifiers: set<Keys.Modifier>, kind: KeyEventKind)

  /** Text-input editing actions, named by the default bind table. */
  datatype InputAction =
    | MoveBack | MoveDown | MoveUp | MoveForward | MoveBackWord | MoveToBottom | MoveToTop
    | MoveToEndOfWord | MoveToHead | MoveToEnd
    | Delete | DeleteWord | DeleteNext | DeleteNextWord | DeleteToHead | DeleteToEnd

  /** Actions handled by the list view; `Key` forwards an event as it came in. */
  datatype TuiAction = First | Last | Next | Previous | Key(event: KeyEvent) | Input(input: InputAction)

  datatype Action = Exit | Draw | Tui(tui: TuiAction)

  /** The error carries the text that failed to parse. */
  datatype ParseActionError = ParseActionError(text: string)

  /** The error a string deserialiser reports: a custom error built from the parse error. */
  datatype DeError = Custom(cause: ParseActionError)

  /** The name an action is written with in a config, for those that have one. */
  function Name(a: Action): (r: Option<string>)
    ensures r.Some? <==> a in {Exit, Tui(First), Tui(Last), Tui(Next), Tui(Previous)}
  {
    match a
    case Exit => Some("exit")
    case Tui(First) => Some("first")
    case Tui(Last) => Some("last")
    case Tui(Next) => Some("next")
    case Tui(Previous) => Some("previous")
    case _ => None
  }

  /** `Action::parse`: an exact, case-sensitive match on five names. */
  function Parse(s: string): (r: Result<Action, ParseActionError>)
    ensures r.Err? ==> r.error == ParseActionError(s)
  {
    match s
    case "exit" => Ok(Exit)
    case "first" => Ok(Tui(First))
    case "last" => Ok(Tui(Last))
    case "next" => Ok(Tui(Next))
    case "previous" => Ok(Tui(Previous))
    case _ => Err(ParseActionError(s))
  }

  /** Parsing inverts Name: a string parses to an action exactly when it is that action's name. */
  lemma ParseName(s: string, a: Action)
    ensures Parse(s) == Ok(a) <==> Name(a) == Some(s)
  {
  }

  /** Every named action parses back from its name. */
  lemma NameRoundTrip(a: Action)
    requires Name(a).Some?
    ensures Parse(Name(a).value) == Ok(a)
  {
    ParseName(Name(a).value, a);
  }

  /** `FromStr`: the input is trimmed before matching. */
  function FromStr(s: string): (r: Result<Action, ParseActionError>)
    ensures r.Err? ==> r.error == ParseActionError(Trim(s))
  {
    Parse(Trim(s))
  }

  /** A name with whitespace around it still parses, and FromStr only sees the trimmed text. */
  lemma FromStrTrimmed(s: string)
    ensures FromStr(s) == FromStr(Trim(s))
    ensures FromStr(s).Ok? <==> exists a :: Name(a) == Some(Trim(s))
  {
    TrimUnpadded(Trim(s));
    if Parse(Trim(s)).Ok? {
      ParseName(Trim(s), Parse(Trim(s)).value);
    }
    forall a | Name(a) == Some(Trim(s))
      ensures Parse(Trim(s)).Ok?
    {
      ParseName(Trim(s), a);
    }
  }

  /** `visit_str`: the string is parsed with FromStr and its error wrapped as a custom error. */
  function Deserialize(v: string): (r: Result<Action, DeError>)
    ensures r.Ok? <==> FromStr(v).Ok?
    ensures r.Ok? ==> r.value == FromStr(v).value
    ensures r.Err? ==> r.error == Custom(ParseActionError(Trim(v)))
  {
    match FromStr(v)
    case Ok(a) => Ok(a)
    case Err(e) => Err(Custom(e))
  }

  lemma ParseExamples()
    ensures Parse("exit") == Ok(Exit)
    ensures Parse("first") == Ok(Tui(First))
    ensures Parse("last") == Ok(Tui(Last))
    ensures Parse("next") == Ok(Tui(Next))
    ensures Parse("previous") == Ok(Tui(Previous))
    ensures Parse("Exit") == Err(ParseActionError("Exit"))
    ensures Parse(" exit") == Err(ParseActionError(" exit"))
  {
  }

  /** The cases of the source's `deserialize` test. */
  lemma DeserializeExamples()
    ensures Deserialize("exit") == Ok(Exit)
    ensures Deserialize("invalid") == Err(Custom(ParseActionError("invalid")))
  {
    TrimUnpadded("exit");
    TrimUnpadded("invalid");
  }
}
