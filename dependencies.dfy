/**
 * `<depends>` entries: the dependency each one declares, the split between platform
 * modules and other plugins, and the config files of optional dependencies.
 */
module Dependencies {
  import opened Wrappers
  import opened JavaStrings
  import opened Xml

  /** Dependencies on ids with this prefix are platform modules, not plugins. */
  const IntellijModulesPrefix: string := "com.intellij.modules."

  /** `PluginDependencyImpl`: the id depended on and whether the dependency is optional. */
  datatype Dependency = Dependency(id: string, optional: bool)

  /** The dependency a `<depends>` element declares: its trimmed text and its `optional` flag. */
  function DependencyOf(d: Element): (dep: Dependency)
    ensures dep.id == TextTrim(d)
    ensures dep.optional <==> ParseBoolean(AttributeValueOr(d, "optional", "false"))
  {
    Dependency(TextTrim(d), ParseBoolean(AttributeValueOr(d, "optional", "false")))
  }

  predicate IsModuleDependency(dep: Dependency) {
    StartsWith(dep.id, IntellijModulesPrefix)
  }

  /** All declared dependencies, in document order. */
  function DeclaredDependencies(ds: seq<Element>): (r: seq<Dependency>)
    ensures |r| == |ds|
  {
    if ds == [] then [] else DeclaredDependencies(ds[..|ds| - 1]) + [DependencyOf(ds[|ds| - 1])]
  }

  /** The `i`-th declared dependency is the one the `i`-th `<depends>` element declares. */
  lemma {:induction false} DeclaredDependenciesAt(ds: seq<Element>)
    ensures forall i :: 0 <= i < |ds| ==> DeclaredDependencies(ds)[i] == DependencyOf(ds[i])
  {
    if ds != [] {
      DeclaredDependenciesAt(ds[..|ds| - 1]);
    }
  }

  /** The module dependencies among `ds`, in their order. */
  function ModuleDependencies(ds: seq<Dependency>): seq<Dependency> {
    if ds == [] then []
    else
      var dep := ds[|ds| - 1];
      ModuleDependencies(ds[..|ds| - 1]) + (if IsModuleDependency(dep) then [dep] else [])
  }

  /** The plugin dependencies among `ds`, in their order. */
  function PluginDependencies(ds: seq<Dependency>): seq<Dependency> {
    if ds == [] then []
    else
      var dep := ds[|ds| - 1];
      PluginDependencies(ds[..|ds| - 1]) + (if IsModuleDependency(dep) then [] else [dep])
  }

  /** The config file named by `d`, when `d` declares an optional dependency and names one. */
  function ConfigFileOf(d: Element): (r: Option<string>)
    ensures r.Some? <==> DependencyOf(d).optional && "config-file" in d.attributes
    ensures r.Some? ==> r.value == d.attributes["config-file"]
  {
    if DependencyOf(d).optional then AttributeValue(d, "config-file") else None
  }

  /** What each `<depends>` element offers for the config-file map: its dependency and config file. */
  function ConfigEntries(ds: seq<Element>): (es: seq<(Dependency, Option<string>)>)
    ensures |es| == |ds|
  {
    if ds == [] then [] else ConfigEntries(ds[..|ds| - 1]) + [(DependencyOf(ds[|ds| - 1]), ConfigFileOf(ds[|ds| - 1]))]
  }

  /** The `i`-th entry comes from the `i`-th `<depends>` element. */
  lemma {:induction false} ConfigEntriesAt(ds: seq<Element>)
    ensures forall i :: 0 <= i < |ds| ==> ConfigEntries(ds)[i] == (DependencyOf(ds[i]), ConfigFileOf(ds[i]))
  {
    if ds != [] {
      ConfigEntriesAt(ds[..|ds| - 1]);
    }
  }

  /** `m` after `put`ting, in order, every one of the first `n` entries that has a config file. */
  function ConfigFilesUpTo(m: map<Dependency, string>, es: seq<(Dependency, Option<string>)>, n: nat): map<Dependency, string>
    requires n <= |es|
  {
    if n == 0 then m
    else
      var before := ConfigFilesUpTo(m, es, n - 1);
      if es[n - 1].1.Some? then before[es[n - 1].0 := es[n - 1].1.value] else before
  }

  /** `m` after `put`ting, in order, every entry that has a config file. */
  function ConfigFiles(m: map<Dependency, string>, es: seq<(Dependency, Option<string>)>): map<Dependency, string> {
    ConfigFilesUpTo(m, es, |es|)
  }

  /** `base` followed by the module dependencies among the first `n` of `ds`. */
  function ModulesFrom(base: seq<Dependency>, ds: seq<Dependency>, n: nat): seq<Dependency>
    requires n <= |ds|
  {
    if n == 0 then base
    else if IsModuleDependency(ds[n - 1]) then ModulesFrom(base, ds, n - 1) + [ds[n - 1]]
    else ModulesFrom(base, ds, n - 1)
  }

  /** `base` followed by the plugin dependencies among the first `n` of `ds`. */
  function PluginsFrom(base: seq<Dependency>, ds: seq<Dependency>, n: nat): seq<Dependency>
    requires n <= |ds|
  {
    if n == 0 then base
    else if IsModuleDependency(ds[n - 1]) then PluginsFrom(base, ds, n - 1)
    else PluginsFrom(base, ds, n - 1) + [ds[n - 1]]
  }

  // ---------------------------------------------------------------------------

  /** Module dependencies all carry the module prefix; plugin dependencies never do. */
  lemma {:induction false} PartitionClassified(ds: seq<Dependency>)
    ensures forall dep :: dep in ModuleDependencies(ds) ==> IsModuleDependency(dep)
    ensures forall dep :: dep in PluginDependencies(ds) ==> !IsModuleDependency(dep)
  {
    if ds != [] {
      PartitionClassified(ds[..|ds| - 1]);
    }
  }

  /** Every declared dependency lands in exactly one of the two lists, with its multiplicity. */
  lemma {:induction false} PartitionComplete(ds: seq<Dependency>)
    ensures multiset(ModuleDependencies(ds)) + multiset(PluginDependencies(ds)) == multiset(ds)
    ensures |ModuleDependencies(ds)| + |PluginDependencies(ds)| == |ds|
  {
    if ds != [] {
      var n := |ds| - 1;
      var init, x := ds[..n], ds[n];
      PartitionComplete(init);
      assert ds == init + [x];
      assert multiset(ds) == multiset(init) + multiset{x};
      if IsModuleDependency(x) {
        assert ModuleDependencies(ds) == ModuleDependencies(init) + [x];
        assert PluginDependencies(ds) == PluginDependencies(init);
      } else {
        assert ModuleDependencies(ds) == ModuleDependencies(init);
        assert PluginDependencies(ds) == PluginDependencies(init) + [x];
      }
    }
  }

  /** The split is computed element by element, so document order survives within each list. */
  lemma {:induction false} PartitionAppend(ds: seq<Dependency>, more: seq<Dependency>)
    ensures ModuleDependencies(ds + more) == ModuleDependencies(ds) + ModuleDependencies(more)
    ensures PluginDependencies(ds + more) == PluginDependencies(ds) + PluginDependencies(more)
  {
    if more == [] {
      assert ds + more == ds;
    } else {
      var n := |more| - 1;
      assert (ds + more)[..|ds + more| - 1] == ds + more[..n];
      assert (ds + more)[|ds + more| - 1] == more[n];
      PartitionAppend(ds, more[..n]);
    }
  }

  /** Splitting the dependencies one at a time onto existing lists appends the two filters. */
  lemma {:induction false} SplitFrom(mods: seq<Dependency>, plugins: seq<Dependency>, ds: seq<Dependency>, n: nat)
    requires n <= |ds|
    ensures ModulesFrom(mods, ds, n) == mods + ModuleDependencies(ds[..n])
    ensures PluginsFrom(plugins, ds, n) == plugins + PluginDependencies(ds[..n])
  {
    if n == 0 {
      assert ds[..n] == [];
    } else {
      SplitFrom(mods, plugins, ds, n - 1);
      assert ds[..n][..n - 1] == ds[..n - 1];
    }
  }

  /** Each dependency is in one of the two lists. */
  lemma PartitionCovers(ds: seq<Dependency>)
    ensures forall i :: 0 <= i < |ds| ==> ds[i] in ModuleDependencies(ds) || ds[i] in PluginDependencies(ds)
  {
    PartitionComplete(ds);
    forall i | 0 <= i < |ds| ensures ds[i] in ModuleDependencies(ds) || ds[i] in PluginDependencies(ds) {
      assert ds[i] in multiset(ds);
    }
  }

  /** The config-file map only gains the dependencies of entries that name a file. */
  lemma {:induction false} ConfigFilesKeys(m: map<Dependency, string>, es: seq<(Dependency, Option<string>)>, n: nat)
    requires n <= |es|
    ensures m.Keys <= ConfigFilesUpTo(m, es, n).Keys
    ensures forall dep :: dep in ConfigFilesUpTo(m, es, n) && dep !in m ==>
      exists i :: 0 <= i < n && es[i].0 == dep && es[i].1.Some?
  {
    if n > 0 {
      ConfigFilesKeys(m, es, n - 1);
    }
  }

  /**
   * The consistency a descriptor keeps between its dependency lists and its config
   * files: the lists are split by the module prefix, and only a listed optional
   * dependency has a config file.
   */
  predicate DependenciesConsistent(mods: seq<Dependency>, plugins: seq<Dependency>, files: map<Dependency, string>) {
    (forall dep :: dep in mods ==> IsModuleDependency(dep)) &&
    (forall dep :: dep in plugins ==> !IsModuleDependency(dep)) &&
    (forall dep :: dep in files ==> dep.optional && (dep in mods || dep in plugins))
  }

  /** The entries of `<depends>` elements pair each declared dependency with its config file. */
  lemma EntriesMatchDeclared(ds: seq<Element>)
    ensures |ConfigEntries(ds)| == |DeclaredDependencies(ds)|
    ensures forall i :: 0 <= i < |ds| ==>
      ConfigEntries(ds)[i].0 == DeclaredDependencies(ds)[i] &&
      (ConfigEntries(ds)[i].1.Some? ==> DeclaredDependencies(ds)[i].optional)
  {
    DeclaredDependenciesAt(ds);
    ConfigEntriesAt(ds);
  }

  /** Declaring more dependencies, each with its config file, keeps the lists and the map consistent. */
  lemma DeclaringKeepsConsistent(mods: seq<Dependency>, plugins: seq<Dependency>, files: map<Dependency, string>,
                                 declared: seq<Dependency>, es: seq<(Dependency, Option<string>)>)
    requires DependenciesConsistent(mods, plugins, files)
    requires |es| == |declared|
    requires forall i :: 0 <= i < |es| ==> es[i].0 == declared[i] && (es[i].1.Some? ==> declared[i].optional)
    ensures DependenciesConsistent(mods + ModuleDependencies(declared), plugins + PluginDependencies(declared), ConfigFiles(files, es))
  {
    PartitionCovers(declared);
    PartitionClassified(declared);
    ConfigFilesKeys(files, es, |es|);
  }

  /** Declaring the dependencies of some `<depends>` elements keeps a consistent descriptor consistent. */
  lemma DeclaringElementsKeepsConsistent(mods: seq<Dependency>, plugins: seq<Dependency>, files: map<Dependency, string>,
                                         ds: seq<Element>)
    requires DependenciesConsistent(mods, plugins, files)
    ensures DependenciesConsistent(mods + ModuleDependencies(DeclaredDependencies(ds)),
                                   plugins + PluginDependencies(DeclaredDependencies(ds)),
                                   ConfigFiles(files, ConfigEntries(ds)))
  {
    EntriesMatchDeclared(ds);
    DeclaringKeepsConsistent(mods, plugins, files, DeclaredDependencies(ds), ConfigEntries(ds));
  }

  /** Splitting all of `ds` onto existing lists appends the two filters. */
  lemma SplitAll(mods: seq<Dependency>, plugins: seq<Dependency>, ds: seq<Dependency>)
    ensures ModulesFrom(mods, ds, |ds|) == mods + ModuleDependencies(ds)
    ensures PluginsFrom(plugins, ds, |ds|) == plugins + PluginDependencies(ds)
  {
    SplitFrom(mods, plugins, ds, |ds|);
    assert ds[..|ds|] == ds;
  }

  /** Config files are recorded only for optional dependencies, and recorded ones stay. */
  lemma {:induction false} ConfigFilesOnlyOptional(m: map<Dependency, string>, ds: seq<Element>)
    ensures forall dep :: dep in ConfigFiles(m, ConfigEntries(ds)) && dep !in m ==> dep.optional
    ensures m.Keys <= ConfigFiles(m, ConfigEntries(ds)).Keys
  {
    ConfigEntriesAt(ds);
    OnlyOptionalEntries(m, ConfigEntries(ds));
  }

  lemma OnlyOptionalEntries(m: map<Dependency, string>, es: seq<(Dependency, Option<string>)>)
    requires forall i :: 0 <= i < |es| && es[i].1.Some? ==> es[i].0.optional
    ensures forall dep :: dep in ConfigFiles(m, es) && dep !in m ==> dep.optional
    ensures m.Keys <= ConfigFiles(m, es).Keys
  {
    ConfigFilesKeys(m, es, |es|);
  }

  /** Every optional dependency that names a config file has it recorded. */
  lemma ConfigFilesComplete(m: map<Dependency, string>, es: seq<(Dependency, Option<string>)>)
    ensures forall i :: 0 <= i < |es| && es[i].1.Some? ==> es[i].0 in ConfigFiles(m, es)
  {
    ConfigFilesRecorded(m, es, |es|);
  }

  lemma {:induction false} ConfigFilesRecorded(m: map<Dependency, string>, es: seq<(Dependency, Option<string>)>, n: nat)
    requires n <= |es|
    ensures forall i :: 0 <= i < n && es[i].1.Some? ==> es[i].0 in ConfigFilesUpTo(m, es, n)
  {
    if n > 0 {
      ConfigFilesRecorded(m, es, n - 1);
    }
  }

  /** The entry `k` names a config file for `dep`. */
  predicate NamesFileFor(es: seq<(Dependency, Option<string>)>, k: int, dep: Dependency) {
    0 <= k < |es| && es[k].0 == dep && es[k].1.Some?
  }

  /**
   * The config file recorded for a dependency is that of the last entry naming one for
   * it: later `put`s for the same dependency overwrite earlier ones.
   */
  lemma {:induction false} ConfigFileLastWins(m: map<Dependency, string>, es: seq<(Dependency, Option<string>)>,
                                              n: nat, k: nat)
    requires k < n <= |es| && es[k].1.Some?
    requires forall j :: k < j < n ==> !NamesFileFor(es, j, es[k].0)
    ensures es[k].0 in ConfigFilesUpTo(m, es, n) && ConfigFilesUpTo(m, es, n)[es[k].0] == es[k].1.value
  {
    if k < n - 1 {
      assert !NamesFileFor(es, n - 1, es[k].0);
      ConfigFileLastWins(m, es, n - 1, k);
    }
  }

  /** A dependency no entry names a file for keeps whatever config file it had. */
  lemma {:induction false} ConfigFileUntouched(m: map<Dependency, string>, es: seq<(Dependency, Option<string>)>,
                                               n: nat, dep: Dependency)
    requires n <= |es|
    requires forall j :: 0 <= j < n ==> !NamesFileFor(es, j, dep)
    ensures dep in ConfigFilesUpTo(m, es, n) <==> dep in m
    ensures dep in m ==> ConfigFilesUpTo(m, es, n)[dep] == m[dep]
  {
    if n > 0 {
      assert !NamesFileFor(es, n - 1, dep);
      ConfigFileUntouched(m, es, n - 1, dep);
    }
  }

  /** The config file recorded for a dependency is that of its last entry naming one. */
  lemma ConfigFileOfLast(m: map<Dependency, string>, es: seq<(Dependency, Option<string>)>)
    requires es != [] && es[|es| - 1].1.Some?
    ensures ConfigFiles(m, es)[es[|es| - 1].0] == es[|es| - 1].1.value
  {
  }
}
