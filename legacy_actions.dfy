/**
 * The older event decoding (src/actions.rs), with its own action type:
 * ctrl+c exits, ctrl+n and ctrl+p scroll, every other key event is
 * forwarded.
 */
module LegacyActions {
  import opened Wrappers
  import opened Keys
  import A = Actions
  import Events

  datatype TuiAction = ScrollDown | ScrollUp | Key(event: A.KeyEvent)

  /** `Error` carries a failure to read an event, which only the event loop produces. */
  datatype Action = Error(message: string) | Exit | Tui(tui: TuiAction)

  /** `handle_key_event`: the three control shortcuts, matched on the exact modifier set, and otherwise the event itself. */
  function HandleKeyEvent(e: A.KeyEvent): (r: Option<Action>)
    ensures r.Some? && !r.value.Error?
    ensures r.value == Exit <==> e.modifiers == {Control} && e.code == Char('c')
    ensures r.value == Tui(ScrollDown) <==> e.modifiers == {Control} && e.code == Char('n')
    ensures r.value == Tui(ScrollUp) <==> e.modifiers == {Control} && e.code == Char('p')
    ensures r.value == Tui(TuiAction.Key(e)) <==> !(e.modifiers == {Control} && e.code in {Char('c'), Char('n'), Char('p')})
  {
    var action :=
      if e.modifiers == {Control} then
        match e.code
        case Char('c') => Some(Exit)
        case Char('n') => Some(Tui(ScrollDown))
        case Char('p') => Some(Tui(ScrollUp))
        case _ => None
      else None;
    match action
    case Some(_) => action
    case None => Some(Tui(TuiAction.Key(e)))
  }

  /** `handle_event`: key events are decoded; every other event gives None. */
  function HandleEvent(ev: Events.Event): (r: Option<Action>)
    ensures r.None? <==> !ev.Key?
    ensures ev.Key? ==> r == HandleKeyEvent(ev.event)
  {
    match ev
    case Key(e) => HandleKeyEvent(e)
    case _ => None
  }

  /**
   * The two revisions agree on the control shortcuts: exit is exit, and the
   * older scroll actions are the newer next and previous.
   */
  lemma AgreesWithEvents(e: A.KeyEvent)
    ensures HandleKeyEvent(e) == Some(Exit) <==> Events.HandleKeyEvent(e) == Some(A.Exit)
    ensures HandleKeyEvent(e) == Some(Tui(ScrollDown)) <==> Events.HandleKeyEvent(e) == Some(A.Tui(A.Next))
    ensures HandleKeyEvent(e) == Some(Tui(ScrollUp)) <==> Events.HandleKeyEvent(e) == Some(A.Tui(A.Previous))
    ensures e.modifiers == {Alt} && e.code == Char('a') ==> HandleKeyEvent(e) == Some(Tui(TuiAction.Key(e)))
  {
  }

  /** The modifier set must be exactly ctrl: ctrl+shift+c is forwarded, not an exit. */
  lemma ExactModifiers()
    ensures HandleKeyEvent(A.KeyEvent(Char('c'), {Control}, A.Press)) == Some(Exit)
    ensures HandleKeyEvent(A.KeyEvent(Char('c'), {Control, Shift}, A.Press)).value.Tui?
  {
    assert {Control, Shift} != {Control} by {
      assert Shift in {Control, Shift};
    }
  }
}
