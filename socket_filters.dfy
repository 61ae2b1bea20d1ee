/**
 * The admission side of the socket handler: a socket context as a filter sees
 * it, the two filters, the static catalog whose keys encode each filter's
 * setting name and default, the defaults written into the configuration, the
 * chain built from the settings, and the first filter of a chain that turns a
 * context away.
 */
module SocketFilters {
  import opened Wrappers

  /** A socket context: its identity, whether its socket is active, and whether it has a temp-file manager. */
  datatype Ctx = Ctx(id: nat, active: bool, hasTempFiles: bool)

  /** SOCKET_FILTER_IS_ACTIVE and SOCKET_FILTER_ENABLE_SOCKET. */
  datatype Filter = IsActive | EnableSocket

  /** Whether filter `f` lets `c` through. */
  predicate Admits(f: Filter, c: Ctx)
    ensures Admits(f, c) ==> f == IsActive && c.active
  {
    match f
    case IsActive => c.active
    case EnableSocket => false
  }

  /** One entry of the static filter map: its key and its filter. */
  datatype CatalogEntry = CatalogEntry(key: string, filter: Filter)

  /** The static filter map, in the order a java.util.HashMap of these two keys iterates it. */
  const Catalog: seq<CatalogEntry> := [CatalogEntry("1isActive", IsActive), CatalogEntry("0all", EnableSocket)]

  /** A value read back from the YAML settings: a boolean, or anything else. */
  datatype Value = BoolValue(b: bool) | OtherValue

  type Config = map<string, Value>

  /** The setting a catalog key names: the key without its first character. */
  function SettingName(key: string): string
    requires |key| > 0
  {
    key[1..]
  }

  /** The default a catalog key encodes: its first character is '1'. */
  function DefaultOf(key: string): bool
    requires |key| > 0
  {
    key[0] == '1'
  }

  predicate NonEmptyKeys(catalog: seq<CatalogEntry>)
  {
    forall i :: 0 <= i < |catalog| ==> |catalog[i].key| > 0
  }

  /** Every key is non-empty and no two keys name the same setting. */
  predicate ValidCatalog(catalog: seq<CatalogEntry>)
  {
    && NonEmptyKeys(catalog)
    && forall i, j :: 0 <= i < j < |catalog| ==> SettingName(catalog[i].key) != SettingName(catalog[j].key)
  }

  /** ConfigurationFile.setIfNotExists. */
  function SetIfNotExists(config: Config, name: string, value: bool): Config
  {
    if name in config then config else config[name := BoolValue(value)]
  }

  /** The settings after setIfNotExists has run for every catalog entry, in order. */
  function ApplyDefaults(catalog: seq<CatalogEntry>, config: Config): (r: Config)
    requires NonEmptyKeys(catalog)
    ensures forall name :: name in config ==> name in r && r[name] == config[name]
    ensures forall i :: 0 <= i < |catalog| ==> SettingName(catalog[i].key) in r
    ensures forall name :: name in r ==>
      name in config || exists i :: 0 <= i < |catalog| && SettingName(catalog[i].key) == name
  {
    if catalog == [] then config
    else
      var e := catalog[|catalog| - 1];
      SetIfNotExists(ApplyDefaults(catalog[..|catalog| - 1], config), SettingName(e.key), DefaultOf(e.key))
  }

  /** The setting `name` reads back as a boolean. */
  predicate IsBool(settings: Config, name: string)
  {
    name in settings && settings[name].BoolValue?
  }

  /** The setting `name` reads back as `true`. */
  predicate Enabled(settings: Config, name: string)
  {
    name in settings && settings[name] == BoolValue(true)
  }

  /** Every entry before index `n` has a setting that reads back as a boolean. */
  predicate ReadableBefore(catalog: seq<CatalogEntry>, settings: Config, n: int)
    requires NonEmptyKeys(catalog) && n <= |catalog|
  {
    forall j :: 0 <= j < n ==> IsBool(settings, SettingName(catalog[j].key))
  }

  /**
   * The filter list the constructor builds: the filters whose setting is
   * `true`, in catalog order; `complete` is false when a missing or
   * non-boolean setting made the unboxing throw, which ends the build with
   * the filters added so far.
   */
  datatype ChainBuild = ChainBuild(filters: seq<Filter>, complete: bool)

  function BuildChain(catalog: seq<CatalogEntry>, settings: Config): (r: ChainBuild)
    requires NonEmptyKeys(catalog)
    ensures r.complete <==> ReadableBefore(catalog, settings, |catalog|)
    ensures |r.filters| <= |catalog|
    ensures forall f :: f in r.filters ==>
      exists i :: 0 <= i < |catalog| && catalog[i].filter == f &&
        Enabled(settings, SettingName(catalog[i].key)) && ReadableBefore(catalog, settings, i)
    ensures forall i ::
      (0 <= i < |catalog| && Enabled(settings, SettingName(catalog[i].key)) && ReadableBefore(catalog, settings, i))
      ==> catalog[i].filter in r.filters
  {
    if catalog == [] then ChainBuild([], true)
    else
      var prefix := catalog[..|catalog| - 1];
      var prev := BuildChain(prefix, settings);
      var e := catalog[|catalog| - 1];
      var name := SettingName(e.key);
      assert forall j :: 0 <= j < |prefix| ==> prefix[j] == catalog[j];
      assert forall n :: 0 <= n <= |prefix| ==> (ReadableBefore(prefix, settings, n) <==> ReadableBefore(catalog, settings, n));
      if !prev.complete then prev
      else if !IsBool(settings, name) then ChainBuild(prev.filters, false)
      else
        assert ReadableBefore(catalog, settings, |catalog|);
        if settings[name].b then ChainBuild(prev.filters + [e.filter], true)
        else prev
  }

  /** Every filter of the chain lets `c` through. */
  predicate Admitted(chain: seq<Filter>, c: Ctx)
  {
    chain == [] || (Admits(chain[0], c) && Admitted(chain[1..], c))
  }

  /** A chain admits `c` exactly when each of its filters does. */
  lemma {:induction false} AdmittedEach(chain: seq<Filter>, c: Ctx)
    ensures Admitted(chain, c) <==> forall j :: 0 <= j < |chain| ==> Admits(chain[j], c)
  {
    if chain != [] {
      AdmittedEach(chain[1..], c);
      if forall j :: 0 <= j < |chain| ==> Admits(chain[j], c) {
        forall j | 0 <= j < |chain| - 1
          ensures Admits(chain[1..][j], c)
        {
          assert chain[1..][j] == chain[j + 1];
        }
      }
      if Admitted(chain, c) {
        forall j | 0 <= j < |chain|
          ensures Admits(chain[j], c)
        {
          if j > 0 {
            assert chain[1..][j - 1] == chain[j];
          }
        }
      }
    }
  }

  /** One more setIfNotExists call, as the constructor's loop makes it. */
  lemma ApplyDefaultsStep(catalog: seq<CatalogEntry>, config: Config, i: nat)
    requires NonEmptyKeys(catalog) && i < |catalog|
    ensures ApplyDefaults(catalog[..i + 1], config) ==
      SetIfNotExists(ApplyDefaults(catalog[..i], config), catalog[i].key[1..], catalog[i].key[0] == '1')
  {
    assert catalog[..i + 1][..i] == catalog[..i];
  }

  /** One more catalog entry through the stream, as the constructor's loop reads it. */
  lemma BuildChainStep(catalog: seq<CatalogEntry>, settings: Config, i: nat, chain: seq<Filter>)
    requires NonEmptyKeys(catalog) && i < |catalog|
    requires BuildChain(catalog[..i], settings) == ChainBuild(chain, true)
    ensures BuildChain(catalog[..i + 1], settings) ==
      var name := catalog[i].key[1..];
      if name !in settings || settings[name].OtherValue? then ChainBuild(chain, false)
      else if settings[name].b then ChainBuild(chain + [catalog[i].filter], true)
      else ChainBuild(chain, true)
  {
    assert catalog[..i + 1][..i] == catalog[..i];
  }

  /** The index of the first filter in the chain that turns `c` away, if any. */
  function FirstReject(chain: seq<Filter>, c: Ctx): (r: Option<nat>)
    ensures r.Some? ==> r.value < |chain| && !Admits(chain[r.value], c)
    ensures r.Some? ==> forall j :: 0 <= j < r.value ==> Admits(chain[j], c)
    ensures r.None? <==> Admitted(chain, c)
  {
    if chain == [] then None
    else if !Admits(chain[0], c) then Some(0)
    else
      match FirstReject(chain[1..], c)
      case None => None
      case Some(i) => Some(i + 1)
  }

  /** The first filter that turns `c` away is the one FirstReject names. */
  lemma FirstRejectAt(chain: seq<Filter>, c: Ctx, i: nat)
    requires i < |chain| && !Admits(chain[i], c)
    requires forall j :: 0 <= j < i ==> Admits(chain[j], c)
    ensures FirstReject(chain, c) == Some(i)
  {
    AdmittedEach(chain, c);
  }

  // ---------------------------------------------------------------------------
  // Properties

  /** The filter bodies: isActive admits exactly the active contexts, the "all" filter admits none. */
  lemma FilterDecisions(c: Ctx)
    ensures Admits(IsActive, c) <==> c.active
    ensures !Admits(EnableSocket, c)
  {
  }

  /**
   * setIfNotExists never overwrites: a setting already present keeps its
   * value, and a setting the configuration lacks gets the default its key
   * encodes.
   */
  lemma {:induction false} ApplyDefaultsWritesDefaults(catalog: seq<CatalogEntry>, config: Config, i: nat)
    requires ValidCatalog(catalog) && i < |catalog|
    requires SettingName(catalog[i].key) !in config
    ensures ApplyDefaults(catalog, config)[SettingName(catalog[i].key)] == BoolValue(DefaultOf(catalog[i].key))
  {
    var prefix := catalog[..|catalog| - 1];
    var e := catalog[|catalog| - 1];
    if i < |catalog| - 1 {
      ValidPrefix(catalog);
      ApplyDefaultsWritesDefaults(prefix, config, i);
      assert prefix[i] == catalog[i];
      assert SettingName(catalog[i].key) != SettingName(e.key);
    } else {
      LastSettingIsNew(catalog, config);
    }
  }

  /** Dropping the last entry of a valid catalog leaves a valid catalog. */
  lemma ValidPrefix(catalog: seq<CatalogEntry>)
    requires ValidCatalog(catalog) && |catalog| > 0
    ensures ValidCatalog(catalog[..|catalog| - 1])
  {
    var prefix := catalog[..|catalog| - 1];
    assert forall j :: 0 <= j < |prefix| ==> prefix[j] == catalog[j];
  }

  /** The last entry's setting, absent from the file, is still absent after the entries before it. */
  lemma LastSettingIsNew(catalog: seq<CatalogEntry>, config: Config)
    requires ValidCatalog(catalog) && |catalog| > 0
    requires SettingName(catalog[|catalog| - 1].key) !in config
    ensures SettingName(catalog[|catalog| - 1].key) !in ApplyDefaults(catalog[..|catalog| - 1], config)
  {
    var prefix := catalog[..|catalog| - 1];
    var e := catalog[|catalog| - 1];
    forall j | 0 <= j < |prefix|
      ensures SettingName(prefix[j].key) != SettingName(e.key)
    {
      assert prefix[j] == catalog[j];
    }
  }

  /** The catalog keys: setting "isActive" defaulting to true, setting "all" defaulting to false. */
  lemma CatalogKeys()
    ensures ValidCatalog(Catalog)
    ensures SettingName(Catalog[0].key) == "isActive" && DefaultOf(Catalog[0].key)
    ensures SettingName(Catalog[1].key) == "all" && !DefaultOf(Catalog[1].key)
  {
    assert SettingName(Catalog[0].key) == "isActive";
    assert SettingName(Catalog[1].key) == "all";
  }

  /** Once a prefix of the build has stopped, the rest of the catalog adds nothing. */
  lemma {:induction false} BuildChainStops(catalog: seq<CatalogEntry>, settings: Config, n: nat)
    requires NonEmptyKeys(catalog) && n <= |catalog|
    requires !BuildChain(catalog[..n], settings).complete
    ensures BuildChain(catalog, settings) == BuildChain(catalog[..n], settings)
    decreases |catalog| - n
  {
    if n < |catalog| {
      var prefix := catalog[..|catalog| - 1];
      assert prefix[..n] == catalog[..n];
      BuildChainStops(prefix, settings, n);
    } else {
      assert catalog[..n] == catalog;
    }
  }

  /** The chain the real catalog gives for any settings. */
  lemma CatalogChain(settings: Config)
    ensures BuildChain(Catalog, settings).filters ==
      (if Enabled(settings, "isActive") then [IsActive] else []) +
      (if IsBool(settings, "isActive") && Enabled(settings, "all") then [EnableSocket] else [])
  {
    CatalogKeys();
    assert Catalog[..1][..0] == [];
    assert Catalog[..|Catalog| - 1] == Catalog[..1];
  }

  /** A configuration without either setting gets isActive = true and all = false written. */
  lemma FreshDefaults(stored: Config)
    requires "isActive" !in stored && "all" !in stored
    ensures ApplyDefaults(Catalog, stored) == stored["isActive" := BoolValue(true)]["all" := BoolValue(false)]
  {
    assert NonEmptyKeys(Catalog) by { CatalogKeys(); }
    ApplyDefaultsStep(Catalog, stored, 0);
    ApplyDefaultsStep(Catalog, stored, 1);
    assert Catalog[..0] == [];
    assert Catalog[..2] == Catalog;
  }

  /** With isActive = true and all = false the chain is the isActive filter alone. */
  lemma DefaultChain(settings: Config)
    requires Enabled(settings, "isActive")
    requires "all" in settings && settings["all"] == BoolValue(false)
    ensures BuildChain(Catalog, settings) == ChainBuild([IsActive], true)
  {
    assert NonEmptyKeys(Catalog) by { CatalogKeys(); }
    BuildChainStep(Catalog, settings, 0, []);
    BuildChainStep(Catalog, settings, 1, [IsActive]);
    assert Catalog[..0] == [];
    assert Catalog[..2] == Catalog;
  }

  /**
   * On a configuration without either setting, the chain is the isActive
   * filter alone: a context is admitted exactly when it is active.
   */
  lemma FreshConfiguration(stored: Config, c: Ctx)
    requires "isActive" !in stored && "all" !in stored
    ensures BuildChain(Catalog, ApplyDefaults(Catalog, stored)) == ChainBuild([IsActive], true)
    ensures FirstReject([IsActive], c).None? <==> c.active
  {
    FreshDefaults(stored);
    DefaultChain(stored["isActive" := BoolValue(true)]["all" := BoolValue(false)]);
  }

  /**
   * Turning the "all" setting on does not admit everything: once the build
   * reaches it, every context is turned away.
   */
  lemma EnableSocketRejectsAll(settings: Config, c: Ctx)
    requires IsBool(settings, "isActive") && Enabled(settings, "all")
    ensures FirstReject(BuildChain(Catalog, settings).filters, c).Some?
  {
    CatalogChain(settings);
    var chain := BuildChain(Catalog, settings).filters;
    assert EnableSocket in chain;
    var k :| 0 <= k < |chain| && chain[k] == EnableSocket;
    assert !Admits(chain[k], c);
  }

  /** A chain turns a context away exactly when some filter in it does, whatever their order. */
  lemma RejectIffSomeFilterRejects(chain: seq<Filter>, c: Ctx)
    ensures FirstReject(chain, c).Some? <==> exists f :: f in chain && !Admits(f, c)
  {
    if FirstReject(chain, c).Some? {
      var i := FirstReject(chain, c).value;
      assert chain[i] in chain;
    }
  }
}
