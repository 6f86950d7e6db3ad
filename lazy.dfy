/**
 * The cursor of the result list (src/tui/lazy.rs). The selection is kept
 * relative to the edge the user last wrapped past (`Start(k)` counts from the
 * first row, `End(k)` from the last), so that it stays put while rows are
 * still arriving at the other end.
 */
module Lazy {
  import W = Wrappers
  import opened RustStr

  datatype LazyPos = None | Start(k: nat) | End(k: nat)

  /** The invariant the cursor operations keep: a selection names a row of the list. */
  predicate InRange(len: nat, pos: LazyPos) {
    pos.None? || pos.k < len
  }

  function Min(a: nat, b: nat): nat { if a <= b then a else b }
  function Max(a: nat, b: nat): nat { if a >= b then a else b }

  /** `usize::saturating_sub`. */
  function SaturatingSub(a: nat, b: nat): nat { if a >= b then a - b else 0 }

  /**
   * `position`: the absolute row of the selection. `len - 1 - k` underflows
   * unless an `End(k)` selection has `k < len`.
   */
  function Resolve(len: nat, pos: LazyPos): (r: W.Option<nat>)
    requires pos.End? ==> pos.k < len
    ensures r.None? <==> pos.None?
    ensures pos.Start? ==> r.value == pos.k
    ensures pos.End? ==> r.value + pos.k + 1 == len
    ensures InRange(len, pos) && r.Some? ==> r.value < len
  {
    match pos
    case None => W.None
    case Start(k) => W.Some(k)
    case End(k) => W.Some(len - 1 - k)
  }

  /**
   * The selection `set_len` leaves: the tag is kept and `k` is clamped to
   * the last row. `len - 1` underflows for an empty list with a selection.
   */
  function Clamped(len: nat, pos: LazyPos): (r: LazyPos)
    requires len > 0 || pos.None?
    ensures r.None? == pos.None? && r.Start? == pos.Start? && r.End? == pos.End?
    ensures !pos.None? ==> r.k == Min(pos.k, len - 1)
    ensures InRange(len, r)
  {
    match pos
    case Start(k) => if k >= len then Start(len - 1) else pos
    case End(k) => if k >= len then End(len - 1) else pos
    case None => pos
  }

  /**
   * The selection `next` leaves: one row further, wrapping from the last row
   * to the first. A wrap, or a first selection, anchors the cursor at the
   * start; otherwise the step keeps the edge it was anchored to.
   */
  function Stepped(len: nat, pos: LazyPos): (r: LazyPos)
    ensures len == 0 <==> r.None?
    ensures InRange(len, pos) ==> InRange(len, r)
    ensures len > 0 && InRange(len, pos) ==>
              r == (if pos.None? || Resolve(len, pos).value == len - 1 then Start(0)
                    else if pos.Start? then Start(pos.k + 1)
                    else End(pos.k - 1))
  {
    if len == 0 then None
    else match pos
      case Start(k) => if k < len - 1 then Start(k + 1) else Start(0)
      case End(k) => if k > 0 then End(k - 1) else Start(0)
      case None => Start(0)
  }

  /**
   * The selection `previous` leaves: one row back, wrapping from the first
   * row to the last. A wrap, or a first selection, anchors the cursor at the
   * end; otherwise the step keeps the edge it was anchored to.
   */
  function SteppedBack(len: nat, pos: LazyPos): (r: LazyPos)
    ensures len == 0 <==> r.None?
    ensures InRange(len, pos) ==> InRange(len, r)
    ensures len > 0 && InRange(len, pos) ==>
              r == (if pos.None? || Resolve(len, pos).value == 0 then End(0)
                    else if pos.End? then End(pos.k + 1)
                    else Start(pos.k - 1))
  {
    if len == 0 then None
    else match pos
      case End(k) => if k < len - 1 then End(k + 1) else End(0)
      case Start(k) => if k > 0 then Start(k - 1) else End(0)
      case None => End(0)
  }

  /** `next` moves the absolute row forward by one, modulo the length; from no selection it picks the first row. */
  lemma NextWraps(len: nat, pos: LazyPos)
    requires len > 0 && InRange(len, pos)
    ensures Resolve(len, Stepped(len, pos)) == W.Some(if pos.None? then 0 else (Resolve(len, pos).value + 1) % len)
  {
    if !pos.None? {
      var p := Resolve(len, pos).value;
      if p + 1 < len {
        DivModUnique(p + 1, len, 0, p + 1);
      } else {
        DivModUnique(p + 1, len, 1, 0);
      }
    }
  }

  /** `previous` moves the absolute row back by one, modulo the length; from no selection it picks the last row. */
  lemma PreviousWraps(len: nat, pos: LazyPos)
    requires len > 0 && InRange(len, pos)
    ensures Resolve(len, SteppedBack(len, pos)) == W.Some(if pos.None? then len - 1 else (Resolve(len, pos).value + len - 1) % len)
  {
    if !pos.None? {
      var p := Resolve(len, pos).value;
      if p == 0 {
        DivModUnique(len - 1, len, 0, len - 1);
      } else {
        DivModUnique(p + len - 1, len, 1, p - 1);
      }
    }
  }

  /** `previous` undoes `next`, and `next` undoes `previous`, on the absolute row. */
  lemma StepsUndo(len: nat, pos: LazyPos)
    requires len > 0 && InRange(len, pos) && !pos.None?
    ensures Resolve(len, SteppedBack(len, Stepped(len, pos))) == Resolve(len, pos)
    ensures Resolve(len, Stepped(len, SteppedBack(len, pos))) == Resolve(len, pos)
  {
    NextWraps(len, pos);
    PreviousWraps(len, pos);
    NextWraps(len, SteppedBack(len, pos));
    PreviousWraps(len, Stepped(len, pos));
  }

  /** The selection after `n` calls of `next`. */
  function NextN(len: nat, pos: LazyPos, n: nat): (r: LazyPos)
    ensures InRange(len, pos) ==> InRange(len, r)
    ensures len > 0 && !pos.None? ==> !r.None?
  {
    if n == 0 then pos else Stepped(len, NextN(len, pos, n - 1))
  }

  lemma {:induction false} MulAtLeast(k: nat, m: nat)
    requires k >= 1
    ensures k * m >= m
    decreases k
  {
    if k > 1 {
      MulAtLeast(k - 1, m);
      assert k * m == (k - 1) * m + m;
    }
  }

  /** Euclidean division has one quotient and one remainder. */
  lemma DivModUnique(a: int, m: nat, q: int, r: int)
    requires m > 0 && 0 <= r < m && a == q * m + r
    ensures a % m == r
  {
    var q', r' := a / m, a % m;
    assert a == q' * m + r';
    assert (q - q') * m == r' - r;
    if q > q' {
      MulAtLeast(q - q', m);
    } else if q < q' {
      MulAtLeast(q' - q, m);
    }
  }

  lemma ModSucc(a: nat, m: nat)
    requires m > 0
    ensures (a % m + 1) % m == (a + 1) % m
  {
    var r := a % m;
    if r + 1 < m {
      DivModUnique(a + 1, m, a / m, r + 1);
      DivModUnique(r + 1, m, 0, r + 1);
    } else {
      DivModUnique(a + 1, m, a / m + 1, 0);
      DivModUnique(r + 1, m, 1, 0);
    }
  }

  /** `n` calls of `next` walk the list cyclically: the absolute row advances by `n` modulo the length. */
  lemma {:induction false} NextCycle(len: nat, pos: LazyPos, n: nat)
    requires len > 0 && InRange(len, pos) && !pos.None?
    ensures Resolve(len, NextN(len, pos, n)).value == (Resolve(len, pos).value + n) % len
  {
    var p := Resolve(len, pos).value;
    if n == 0 {
      DivModUnique(p, len, 0, p);
    } else {
      NextCycle(len, pos, n - 1);
      NextWraps(len, NextN(len, pos, n - 1));
      ModSucc(p + n - 1, len);
    }
  }

  /** A list that only grows keeps a selection in place: a start selection on its row, an end selection at its distance from the last row. */
  lemma GrowthKeepsAnchor(len: nat, newLen: nat, pos: LazyPos)
    requires InRange(len, pos) && len <= newLen
    ensures Clamped(newLen, pos) == pos
  {
  }

  /** After `next` wraps past the last row, rows that arrive later leave the cursor on the first row. */
  lemma WrapForwardStaysFirst(len: nat, newLen: nat, pos: LazyPos)
    requires len > 0 && InRange(len, pos) && len <= newLen
    requires pos.None? || Resolve(len, pos).value == len - 1
    ensures Resolve(newLen, Clamped(newLen, Stepped(len, pos))) == W.Some(0)
  {
    GrowthKeepsAnchor(len, newLen, Stepped(len, pos));
  }

  /** After `previous` wraps past the first row, rows that arrive later leave the cursor on the last row. */
  lemma WrapBackStaysLast(len: nat, newLen: nat, pos: LazyPos)
    requires len > 0 && InRange(len, pos) && len <= newLen
    requires pos.None? || Resolve(len, pos).value == 0
    ensures Resolve(newLen, Clamped(newLen, SteppedBack(len, pos))) == W.Some(newLen - 1)
  {
    GrowthKeepsAnchor(len, newLen, SteppedBack(len, pos));
  }

  /**
   * The window `update_offset` leaves: the old offset clamped so that the
   * selected row is one of the `height` visible rows.
   */
  function Window(offset: nat, selected: nat, height: nat): (r: nat)
    requires height >= 1
    ensures r <= selected && selected - r <= height - 1
    ensures SaturatingSub(selected, height - 1) <= offset <= selected ==> r == offset
    ensures offset > selected ==> r == selected
    ensures offset < SaturatingSub(selected, height - 1) ==> selected - r == height - 1
  {
    var lo := SaturatingSub(selected, height - 1);
    if offset < lo then lo else if offset > selected then selected else offset
  }

  class LazyState {
    var len: nat
    var pos: LazyPos
    var offset: nat

    /** `LazyState::default`. */
    constructor ()
      ensures len == 0 && pos == None && offset == 0
    {
      len := 0;
      pos := None;
      offset := 0;
    }

    predicate Valid()
      reads this
    {
      InRange(len, pos)
    }

    /** `set_len`: the new length, with the selection clamped to it. */
    method SetLen(n: nat)
      modifies this
      requires n > 0 || pos.None?
      ensures len == n && pos == Clamped(n, old(pos)) && offset == old(offset)
      ensures Valid()
    {
      len := n;
      match pos
      case Start(k) => if k >= n { pos := Start(n - 1); }
      case End(k) => if k >= n { pos := End(n - 1); }
      case None =>
    }

    /** `next`. */
    method Next()
      modifies this
      ensures pos == Stepped(len, old(pos)) && len == old(len) && offset == old(offset)
      ensures old(Valid()) ==> Valid()
    {
      if len == 0 {
        pos := None;
      } else {
        match pos
        case Start(k) => pos := if k < len - 1 then Start(k + 1) else Start(0);
        case End(k) => pos := if k > 0 then End(k - 1) else Start(0);
        case None => pos := Start(0);
      }
    }

    /** `previous`. */
    method Previous()
      modifies this
      ensures pos == SteppedBack(len, old(pos)) && len == old(len) && offset == old(offset)
      ensures old(Valid()) ==> Valid()
    {
      if len == 0 {
        pos := None;
      } else {
        match pos
        case End(k) => pos := if k < len - 1 then End(k + 1) else End(0);
        case Start(k) => pos := if k > 0 then Start(k - 1) else End(0);
        case None => pos := End(0);
      }
    }

    /** `position`. */
    function Position(): (r: W.Option<nat>)
      reads this
      requires pos.End? ==> pos.k < len
      ensures Valid() && r.Some? ==> r.value < len
    {
      Resolve(len, pos)
    }

    /** `offset`. */
    function Offset(): (r: nat)
      reads this
      ensures r == offset
    {
      offset
    }

    /**
     * `update_offset`: with a selection, the offset is moved as little as
     * needed to show the selected row among `height` rows; `height - 1`
     * underflows for a zero height. Without a selection nothing changes.
     */
    method UpdateOffset(height: U16)
      modifies this
      requires pos.End? ==> pos.k < len
      requires !pos.None? ==> height >= 1
      ensures len == old(len) && pos == old(pos)
      ensures pos.None? ==> offset == old(offset)
      ensures !pos.None? ==> offset == Window(old(offset), Position().value, height)
    {
      var selected := Position();
      if selected.Some? {
        var lo := SaturatingSub(selected.value, height - 1);
        offset := if offset < lo then lo else if offset > selected.value then selected.value else offset;
      }
    }

    /**
     * `real_position`: the selected row counted from the top of the window;
     * `pos - offset` underflows unless the window starts at or before it.
     */
    function RealPosition(): (r: W.Option<nat>)
      reads this
      requires pos.End? ==> pos.k < len
      requires Position().Some? ==> offset <= Position().value
      ensures r.None? <==> pos.None?
      ensures r.Some? ==> r.value + offset == Position().value
    {
      match Position()
      case None => W.None
      case Some(p) => W.Some(p - offset)
    }
  }

  /** After `update_offset(h)` the selected row is one of the `h` rows of the window. */
  method UpdateThenReal(s: LazyState, height: U16) returns (r: W.Option<nat>)
    modifies s
    requires s.pos.End? ==> s.pos.k < s.len
    requires !s.pos.None? ==> height >= 1
    ensures r.None? <==> s.pos.None?
    ensures r.Some? ==> r.value < height
  {
    s.UpdateOffset(height);
    r := s.RealPosition();
  }

  /** The list widget: a cursor over rows that a builder supplies. */
  class LazyList {
    const state: LazyState

    /** `LazyList::new`: no rows yet and no selection. */
    constructor ()
      ensures fresh(state) && state.len == 0 && state.pos == None && state.offset == 0
    {
      state := new LazyState();
    }

    method Next()
      modifies state
      ensures state.pos == Stepped(state.len, old(state.pos))
      ensures state.len == old(state.len) && state.offset == old(state.offset)
    {
      state.Next();
    }

    method Previous()
      modifies state
      ensures state.pos == SteppedBack(state.len, old(state.pos))
      ensures state.len == old(state.len) && state.offset == old(state.offset)
    {
      state.Previous();
    }

    /** `update_height`: the window follows the selection. */
    method UpdateHeight(height: U16)
      modifies state
      requires state.pos.End? ==> state.pos.k < state.len
      requires !state.pos.None? ==> height >= 1
      ensures state.len == old(state.len) && state.pos == old(state.pos)
      ensures state.pos.None? ==> state.offset == old(state.offset)
      ensures !state.pos.None? ==> state.offset == Window(old(state.offset), state.Position().value, height)
    {
      state.UpdateOffset(height);
    }

    function Offset(): (r: nat)
      reads this, state
      ensures r == state.offset
    {
      state.Offset()
    }

    /**
     * The cursor part of `render`: the new row count is set first, then the
     * row to highlight is read, relative to the window.
     */
    method Render(len: nat) returns (selected: W.Option<nat>)
      modifies state
      requires len > 0 || state.pos.None?
      requires var p := Resolve(len, Clamped(len, state.pos)); p.Some? ==> state.offset <= p.value
      ensures state.len == len && state.pos == Clamped(len, old(state.pos)) && state.offset == old(state.offset)
      ensures selected.None? <==> state.pos.None?
      ensures selected.Some? ==> selected.value + state.offset == Resolve(len, state.pos).value
    {
      state.SetLen(len);
      selected := state.RealPosition();
    }
  }
}
