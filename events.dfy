/**
 * Decoding of terminal events into actions (src/events.rs): a few fixed
 * control and alt shortcuts, and every other key event forwarded to the
 * list view.
 */
module Events {
  import opened Wrappers
  import opened Keys
  import A = Actions
  import BindTable
  import Binding

  /** The terminal events the backend reports; only key events are decoded. */
  datatype Event =
    | FocusGained
    | FocusLost
    | Key(event: A.KeyEvent)
    | Mouse(column: nat, row: nat)
    | Paste(text: string)
    | Resize(columns: nat, rows: nat)

  /** The key events the decode table names: ctrl with c, n or p, and alt with a or e, with no other modifier. */
  predicate IsShortcut(e: A.KeyEvent) {
    || (e.modifiers == {Control} && e.code in {Char('c'), Char('n'), Char('p')})
    || (e.modifiers == {Alt} && e.code in {Char('a'), Char('e')})
  }

  /**
   * `handle_key_event`: the shortcut's action, and otherwise the event
   * itself, forwarded; it never yields None. The kind of the event is not
   * looked at.
   */
  function HandleKeyEvent(e: A.KeyEvent): (r: Option<A.Action>)
    ensures r.Some?
    ensures r.value == A.Exit <==> e.modifiers == {Control} && e.code == Char('c')
    ensures r.value == A.Tui(A.Next) <==> e.modifiers == {Control} && e.code == Char('n')
    ensures r.value == A.Tui(A.Previous) <==> e.modifiers == {Control} && e.code == Char('p')
    ensures r.value == A.Tui(A.First) <==> e.modifiers == {Alt} && e.code == Char('a')
    ensures r.value == A.Tui(A.Last) <==> e.modifiers == {Alt} && e.code == Char('e')
    ensures r.value == A.Tui(A.Key(e)) <==> !IsShortcut(e)
  {
    var action :=
      if e.modifiers == {Control} then
        match e.code
        case Char('c') => Some(A.Exit)
        case Char('n') => Some(A.Tui(A.Next))
        case Char('p') => Some(A.Tui(A.Previous))
        case _ => None
      else if e.modifiers == {Alt} then
        match e.code
        case Char('a') => Some(A.Tui(A.First))
        case Char('e') => Some(A.Tui(A.Last))
        case _ => None
      else None;
    match action
    case Some(_) => action
    case None => Some(A.Tui(A.Key(e)))
  }

  /** `handle_event`: key events are decoded; every other event gives None. */
  function HandleEvent(ev: Event): (r: Option<A.Action>)
    ensures r.None? <==> !ev.Key?
    ensures ev.Key? ==> r == HandleKeyEvent(ev.event)
  {
    match ev
    case Key(e) => HandleKeyEvent(e)
    case _ => None
  }

  /** Each shortcut is also a default bind, to the same action. */
  lemma ShortcutsAreDefaults(e: A.KeyEvent)
    requires IsShortcut(e)
    ensures exists j :: 0 <= j < |BindTable.Defaults| &&
              BindTable.Defaults[j] == Binding.Bind(Keys.Key(e.code, e.modifiers), HandleKeyEvent(e).value)
  {
    var d := BindTable.ListDefaults;
    BindTable.DefaultsStart();
    var b := Binding.Bind(Keys.Key(e.code, e.modifiers), HandleKeyEvent(e).value);
    if e.code == Char('c') { assert d[0] == b; }
    else if e.code == Char('n') { assert d[1] == b; }
    else if e.code == Char('p') { assert d[2] == b; }
    else if e.code == Char('a') { assert d[3] == b; }
    else { assert d[4] == b; }
  }

  /** Extra modifiers turn a shortcut into a forwarded key; other events are dropped. */
  lemma DecodeExamples()
    ensures HandleKeyEvent(A.KeyEvent(Char('c'), {Control}, A.Press)) == Some(A.Exit)
    ensures HandleKeyEvent(A.KeyEvent(Char('c'), {Control, Shift}, A.Press)).value.tui.Key?
    ensures HandleKeyEvent(A.KeyEvent(Char('a'), {Alt}, A.Release)) == Some(A.Tui(A.First))
    ensures HandleKeyEvent(A.KeyEvent(Char('x'), {}, A.Press)) == Some(A.Tui(A.Key(A.KeyEvent(Char('x'), {}, A.Press))))
    ensures HandleEvent(Resize(80, 24)).None?
  {
    assert {Control, Shift} != {Control} && {Control, Shift} != {Alt} by {
      assert Shift in {Control, Shift};
    }
  }
}
