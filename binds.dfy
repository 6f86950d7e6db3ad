/**
 * The bind table of a configuration (src/config/binds.rs): a map from keys
 * to actions, an overriding merge, the default binds inserted only where a
 * key is still free, and construction from a list of binds.
 */
module BindTable {
  import opened Wrappers
  import opened Keys
  import opened Actions
  import opened Binding

  /** `entry(key).or_insert(action)`: a key already bound keeps its action. */
  function OrInsert(m: map<Key, Action>, b: Bind): (r: map<Key, Action>)
    ensures b.key in m ==> r == m
    ensures b.key !in m ==> r == m[b.key := b.action]
  {
    if b.key in m then m else m[b.key := b.action]
  }

  /** `HashMap::get`, cloned: the bound action, or None for an unbound key. */
  function Lookup(m: map<Key, Action>, key: Key): (r: Option<Action>)
    ensures r.Some? <==> key in m
    ensures r.Some? ==> r.value == m[key]
  {
    if key in m then Some(m[key]) else None
  }

  /** The keys a list of binds names. */
  function KeysOf(bs: seq<Bind>): set<Key> {
    set b | b in bs :: b.key
  }

  /** Every bind of `es`, in order, inserted with `or_insert` into `m`. */
  function InsertAll(m: map<Key, Action>, es: seq<Bind>): (r: map<Key, Action>)
    ensures r.Keys == m.Keys + KeysOf(es)
    ensures forall k :: k in m ==> r[k] == m[k]
    decreases |es|
  {
    if es == [] then m
    else
      var init := es[..|es| - 1];
      assert es == init + [es[|es| - 1]];
      assert KeysOf(es) == KeysOf(init) + {es[|es| - 1].key};
      OrInsert(InsertAll(m, init), es[|es| - 1])
  }

  /** The defaults fill exactly the gaps: the result is the defaults alone, overridden by what was bound. */
  lemma {:induction false} InsertAllFillsGaps(m: map<Key, Action>, es: seq<Bind>)
    ensures InsertAll(m, es) == InsertAll(map[], es) + m
    decreases |es|
  {
    if es != [] {
      var init := es[..|es| - 1];
      InsertAllFillsGaps(m, init);
    }
  }

  /** Inserting the same defaults twice changes nothing the second time. */
  lemma InsertAllIdempotent(m: map<Key, Action>, es: seq<Bind>)
    ensures InsertAll(InsertAll(m, es), es) == InsertAll(m, es)
  {
    var f := InsertAll(map[], es);
    InsertAllFillsGaps(m, es);
    InsertAllFillsGaps(InsertAll(m, es), es);
    assert f + (f + m) == f + m;
  }

  /** A key that is free gets the action of the first default that names it. */
  lemma {:induction false} InsertAllFirst(m: map<Key, Action>, es: seq<Bind>, j: nat)
    requires j < |es| && es[j].key !in m
    requires forall i :: 0 <= i < j ==> es[i].key != es[j].key
    ensures InsertAll(m, es)[es[j].key] == es[j].action
    decreases |es|
  {
    var init := es[..|es| - 1];
    if j < |es| - 1 {
      InsertAllFirst(m, init, j);
    } else {
      assert es[j].key !in KeysOf(init);
    }
  }

  /** `From<Vec<Bind>>`: the binds collected into a map, a later bind of a key replacing an earlier one. */
  function Collect(bs: seq<Bind>): (r: map<Key, Action>)
    ensures r.Keys == KeysOf(bs)
    decreases |bs|
  {
    if bs == [] then map[]
    else
      var init := bs[..|bs| - 1];
      assert bs == init + [bs[|bs| - 1]];
      assert KeysOf(bs) == KeysOf(init) + {bs[|bs| - 1].key};
      Collect(init)[bs[|bs| - 1].key := bs[|bs| - 1].action]
  }

  /** The last bind of a key is the one that stays. */
  lemma {:induction false} CollectLastWins(bs: seq<Bind>, j: nat)
    requires j < |bs|
    requires forall i :: j < i < |bs| ==> bs[i].key != bs[j].key
    ensures Collect(bs)[bs[j].key] == bs[j].action
    decreases |bs|
  {
    if j < |bs| - 1 {
      CollectLastWins(bs[..|bs| - 1], j);
    }
  }

  function Plain(c: KeyCode): Key { Keys.Key(c, {}) }
  function Ctrl(c: KeyCode): Key { Keys.Key(c, {Control}) }
  function AltKey(c: KeyCode): Key { Keys.Key(c, {Alt}) }

  function Move(a: InputAction): Action { Tui(Input(a)) }

  /** The default binds, in the order `insert_defaults` visits them. */
  const Defaults: seq<Bind> := ListDefaults + MoveDefaults + DeleteDefaults

  /** Exiting and walking the list. */
  const ListDefaults: seq<Bind> := [
    Bind(Ctrl(Char('c')), Exit),
    Bind(Ctrl(Char('n')), Tui(Next)),
    Bind(Ctrl(Char('p')), Tui(Previous)),
    Bind(AltKey(Char('a')), Tui(First)),
    Bind(AltKey(Char('e')), Tui(Last))
  ]

  /** Moving the cursor of the input line. */
  const MoveDefaults: seq<Bind> := [
    Bind(Plain(KeyCode.Left), Move(MoveBack)),
    Bind(Plain(KeyCode.Down), Move(MoveDown)),
    Bind(Plain(KeyCode.Up), Move(MoveUp)),
    Bind(Plain(KeyCode.Right), Move(MoveForward)),
    Bind(Ctrl(KeyCode.Left), Move(MoveBackWord)),
    Bind(Ctrl(KeyCode.Down), Move(MoveToBottom)),
    Bind(Ctrl(KeyCode.Up), Move(MoveToTop)),
    Bind(Ctrl(KeyCode.Right), Move(MoveToEndOfWord)),
    Bind(Plain(Home), Move(MoveToHead)),
    Bind(Plain(End), Move(MoveToEnd)),
    Bind(Ctrl(Char('f')), Move(MoveForward)),
    Bind(Ctrl(Char('b')), Move(MoveBack)),
    Bind(AltKey(Char('f')), Move(MoveToEndOfWord)),
    Bind(AltKey(Char('b')), Move(MoveBackWord)),
    Bind(Ctrl(Char('a')), Move(MoveToHead)),
    Bind(Ctrl(Char('e')), Move(MoveToEnd))
  ]

  /** Deleting text from the input line. */
  const DeleteDefaults: seq<Bind> := [
    Bind(Plain(Backspace), Move(InputAction.Delete)),
    Bind(Ctrl(Backspace), Move(DeleteWord)),
    Bind(Plain(KeyCode.Delete), Move(DeleteNext)),
    Bind(Ctrl(KeyCode.Delete), Move(DeleteNextWord)),
    Bind(Ctrl(Char('d')), Move(DeleteNext)),
    Bind(AltKey(Char('d')), Move(DeleteNextWord)),
    Bind(Ctrl(Char('w')), Move(DeleteWord)),
    Bind(Ctrl(Char('u')), Move(DeleteToHead)),
    Bind(Ctrl(Char('k')), Move(DeleteToEnd))
  ]

  class Binds {
    var table: map<Key, Action>

    /** `Binds::default`: no binds. */
    constructor ()
      ensures table == map[]
    {
      table := map[];
    }

    /** `From<HashMap<Key, Action>>`. */
    constructor FromMap(m: map<Key, Action>)
      ensures table == m
    {
      table := m;
    }

    /** `From<Vec<Bind>>`. */
    constructor FromBinds(bs: seq<Bind>)
      ensures table == Collect(bs)
    {
      table := Collect(bs);
    }

    /** `clone`. */
    constructor Clone(other: Binds)
      ensures table == other.table
    {
      table := other.table;
    }

    /** `action_for_key`: the bound action, or None for an unbound key. */
    function ActionForKey(key: Key): (r: Option<Action>)
      reads this
      ensures r.Some? <==> key in table
      ensures r.Some? ==> r.value == table[key]
    {
      Lookup(table, key)
    }

    /**
     * `overwrite`: every bind of `other` is inserted, replacing the action of
     * a key bound in both; no key is removed.
     */
    method Overwrite(other: Binds)
      modifies this
      ensures table == old(table) + old(other.table)
    {
      var source := other.table;
      var pending := source.Keys;
      while pending != {}
        invariant pending <= source.Keys
        invariant table == old(table) + map k | k in source.Keys - pending :: source[k]
        decreases |pending|
      {
        var k :| k in pending;
        table := table[k := source[k]];
        pending := pending - {k};
      }
      assert (map k | k in source.Keys - {} :: source[k]) == source;
    }

    /** `insert_defaults`: each default is added only where its key is not bound yet. */
    method InsertDefaults()
      modifies this
      ensures table == InsertAll(old(table), Defaults)
    {
      OrInsertEach(Defaults);
    }

    /** The loop of `insert_defaults`: `entry(key).or_insert(action)` for each bind in turn. */
    method OrInsertEach(es: seq<Bind>)
      modifies this
      ensures table == InsertAll(old(table), es)
    {
      var i := 0;
      while i < |es|
        invariant i <= |es|
        invariant table == InsertAll(old(table), es[..i])
      {
        assert es[..i + 1][..i] == es[..i];
        if es[i].key !in table {
          table := table[es[i].key := es[i].action];
        }
        i := i + 1;
      }
      assert es[..i] == es;
    }
  }

  /** No key appears twice in the default table. */
  lemma DefaultsDistinct()
    ensures forall i, j :: 0 <= i < j < |Defaults| ==> Defaults[i].key != Defaults[j].key
  {
  }

  /**
   * The shape of the default table: 30 binds, each key with no modifier or
   * exactly one of ctrl and alt; the list shortcuts first, then 25 binds that
   * edit the input line.
   */
  lemma DefaultsTable()
    ensures |Defaults| == 30
    ensures forall i :: 0 <= i < |Defaults| ==> Defaults[i].key.modifiers in {{}, {Control}, {Alt}}
    ensures forall i :: 0 <= i < 5 ==> Defaults[i].action.Exit? || (Defaults[i].action.Tui? && !Defaults[i].action.tui.Input?)
    ensures forall i :: 5 <= i < |Defaults| ==> Defaults[i].action.Tui? && Defaults[i].action.tui.Input?
  {
    assert Defaults == ListDefaults + (MoveDefaults + DeleteDefaults);
  }

  /** After the defaults are inserted, a key that was free has its default action. */
  lemma DefaultsBound(m: map<Key, Action>, j: nat)
    requires j < |Defaults| && Defaults[j].key !in m
    ensures InsertAll(m, Defaults)[Defaults[j].key] == Defaults[j].action
  {
    DefaultsDistinct();
    InsertAllFirst(m, Defaults, j);
  }

  /** The first defaults are the list shortcuts. */
  lemma DefaultsStart()
    ensures forall j :: 0 <= j < |ListDefaults| ==> Defaults[j] == ListDefaults[j]
  {
    assert Defaults == ListDefaults + (MoveDefaults + DeleteDefaults);
  }

  /** The source's `insert_defaults` test: a user's ctrl+c bind survives; on an empty table ctrl+c exits. */
  lemma InsertDefaultsExamples()
    ensures Lookup(InsertAll(map[Ctrl(Char('c')) := Tui(Next)], Defaults), Ctrl(Char('c'))) == Some(Tui(Next))
    ensures Lookup(InsertAll(map[], Defaults), Ctrl(Char('c'))) == Some(Exit)
  {
    DefaultsStart();
    InsertAllFirst(map[], Defaults, 0);
  }

  /** Collecting binds in which a key repeats keeps the later action. */
  lemma CollectExample()
    ensures Collect([Bind(Ctrl(Char('c')), Exit), Bind(Ctrl(Char('c')), Tui(Next))])[Ctrl(Char('c'))] == Tui(Next)
  {
    CollectLastWins([Bind(Ctrl(Char('c')), Exit), Bind(Ctrl(Char('c')), Tui(Next))], 1);
  }
}
