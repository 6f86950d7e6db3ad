/**
 * The configuration (src/config/mod.rs): the shared settings and the bind
 * table, their merge, the default binds and the lookup of a key's action.
 */
module AppConfig {
  import opened Wrappers
  import opened Keys
  import opened Actions
  import opened Layout
  import opened Common
  import opened BindTable

  /** The bind table a configuration ends up with once defaults are inserted, unless they are disabled. */
  function WithDefaults(table: map<Key, Action>, disable: bool): (r: map<Key, Action>)
    ensures disable ==> r == table
    ensures !disable ==> r == InsertAll(table, Defaults)
    ensures forall k :: k in table ==> k in r && r[k] == table[k]
  {
    if disable then table else InsertAll(table, Defaults)
  }

  class Config {
    const common: CommonConfig
    const binds: Binds

    constructor (common: CommonConfig, binds: Binds)
      ensures this.common == common && this.binds == binds
    {
      this.common := common;
      this.binds := binds;
    }

    /** `Config::default`. */
    constructor Default()
      ensures fresh(common) && fresh(binds)
      ensures !common.disableDefaultBinds && common.width.None? && common.height.None? && common.alignment.None?
      ensures binds.table == map[]
    {
      common := new CommonConfig();
      binds := new Binds();
    }

    /**
     * `overwrite`: a copy of this configuration, with the settings and the
     * binds of `other` laid over it; this configuration is left as it was.
     */
    method Overwrite(other: Config) returns (r: Config)
      ensures fresh(r) && fresh(r.common) && fresh(r.binds)
      ensures r.common.disableDefaultBinds == other.common.disableDefaultBinds
      ensures r.common.width == Override(common.width, other.common.width)
      ensures r.common.height == Override(common.height, other.common.height)
      ensures r.common.alignment == Override(common.alignment, other.common.alignment)
      ensures r.binds.table == binds.table + other.binds.table
    {
      var c := new CommonConfig.Clone(common);
      var b := new Binds.Clone(binds);
      c.Overwrite(other.common);
      b.Overwrite(other.binds);
      r := new Config(c, b);
    }

    /** `insert_default_binds`: the defaults go in unless the configuration disables them. */
    method InsertDefaultBinds()
      modifies binds
      ensures binds.table == WithDefaults(old(binds.table), common.disableDefaultBinds)
    {
      if !common.disableDefaultBinds {
        binds.InsertDefaults();
      }
    }

    /** `action_for_key`: the lookup in the bind table. */
    function ActionForKey(key: Key): (r: Option<Action>)
      reads this, binds
      ensures r.Some? <==> key in binds.table
      ensures r.Some? ==> r.value == binds.table[key]
    {
      binds.ActionForKey(key)
    }
  }

  /**
   * The merge of `load` once the file has been read and the command line
   * parsed: the command line's configuration over the file's, then the
   * defaults.
   */
  method Load(file: Config, cli: Config) returns (r: Config)
    ensures fresh(r) && fresh(r.common) && fresh(r.binds)
    ensures r.common.disableDefaultBinds == cli.common.disableDefaultBinds
    ensures r.binds.table == WithDefaults(file.binds.table + cli.binds.table, cli.common.disableDefaultBinds)
  {
    r := file.Overwrite(cli);
    r.InsertDefaultBinds();
  }

  /**
   * What the merge order of `load` means for one key: a command-line bind
   * wins, a file bind survives where the command line has none, and a
   * default only fills a key neither binds.
   */
  lemma LoadedBind(file: map<Key, Action>, cli: map<Key, Action>, disable: bool, k: Key)
    ensures k in cli ==> WithDefaults(file + cli, disable)[k] == cli[k]
    ensures k in file && k !in cli ==> WithDefaults(file + cli, disable)[k] == file[k]
    ensures k !in file && k !in cli ==> (k in WithDefaults(file + cli, disable) <==> !disable && k in KeysOf(Defaults))
    ensures !disable && k !in file && k !in cli && k in KeysOf(Defaults) ==>
              WithDefaults(file + cli, disable)[k] == InsertAll(map[], Defaults)[k]
  {
    if !disable {
      InsertAllFillsGaps(file + cli, Defaults);
    }
  }

  /** The test of `insert_defaults`, through a configuration: a user's ctrl+c bind is kept. */
  method InsertDefaultBindsExample() returns (r: Option<Action>)
    ensures r == Some(Tui(Next))
  {
    var common := new CommonConfig();
    var binds := new Binds.FromMap(map[Ctrl(Char('c')) := Tui(Next)]);
    var config := new Config(common, binds);
    config.InsertDefaultBinds();
    r := config.ActionForKey(Ctrl(Char('c')));
  }
}
