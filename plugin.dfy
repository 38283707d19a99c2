/**
 * `PluginImpl`: a plugin descriptor filled in, field by field, from the root element of
 * its `plugin.xml`.
 */
module PluginDescriptor {
  import opened Wrappers
  import opened JavaStrings
  import opened Xml
  import opened IdeVersions
  import opened ClassReferences
  import opened Extensions
  import opened Dependencies

  /** The causes of `IncorrectPluginException` raised while reading a descriptor. */
  datatype IncorrectPlugin =
    | RootElementNotFound
    | RootElementNotIdeaPlugin(rootName: string)
    | InvalidSinceBuild(sinceBuild: Option<string>)
    | InvalidUntilBuild(untilBuild: string)

  /** The problems reported to the validator as incorrect structure. */
  datatype StructureWarning =
    | NameNotSpecified
    | VendorNotFound
    | VersionNotSpecified
    | IdeaVersionNotFound
    | DescriptionEmpty

  /**
   * The exception `setSinceUntilBuilds` raises for an `<idea-version>` element, if any:
   * none for a legacy element (with `min`), otherwise an unparsable since-build, then an
   * unparsable (normalised) until-build.
   */
  function IdeaVersionError<V>(iv: Element, parse: Option<string> -> Option<V>): Option<IncorrectPlugin> {
    if "min" in iv.attributes then None
    else
      var sb := AttributeValue(iv, "since-build");
      var ub := AttributeValue(iv, "until-build");
      if parse(sb).None? then Some(InvalidSinceBuild(sb))
      else if IsNullOrEmpty(ub) then None
      else if parse(Some(NormalizeUntilBuild(ub.value))).None? then Some(InvalidUntilBuild(NormalizeUntilBuild(ub.value)))
      else None
  }

  /** The optional-descriptor map built from its entries, listed in iteration order. */
  function DescriptorMap<T>(ds: seq<(string, T)>): (m: map<string, T>)
    ensures m.Keys == set i | 0 <= i < |ds| :: ds[i].0
  {
    if ds == [] then map[] else DescriptorMap(ds[..|ds| - 1])[ds[|ds| - 1].0 := ds[|ds| - 1].1]
  }

  /** The names of the entries are pairwise distinct, as a map's keys are. */
  predicate DistinctNames<T>(ds: seq<(string, T)>) {
    forall i, j :: 0 <= i < j < |ds| ==> ds[i].0 != ds[j].0
  }

  /**
   * The fields of a descriptor as one value: what each reading step maps to what. The
   * logo, the resolver and the validator are not part of this model.
   */
  datatype State<V> = State(
    definedModules: set<Option<string>>,
    dependencies: seq<Dependency>,
    moduleDependencies: seq<Dependency>,
    optionalConfigFiles: map<Dependency, string>,
    optionalDescriptors: map<string, Plugin<V>>,
    referencedClasses: set<string>,
    extensions: Multimap<Element>,
    pluginName: Option<string>,
    pluginVersion: Option<string>,
    pluginId: Option<string>,
    pluginVendor: Option<string>,
    vendorEmail: Option<string>,
    vendorUrl: Option<string>,
    description: Option<string>,
    url: Option<string>,
    notes: Option<string>,
    sinceBuild: Option<V>,
    untilBuild: Option<V>)

  /**
   * What every reading step keeps: the two dependency lists are split by the module
   * prefix, config files belong to declared optional dependencies, and class references
   * are in slashed form.
   */
  predicate Consistent<V>(s: State<V>) {
    DependenciesConsistent(s.moduleDependencies, s.dependencies, s.optionalConfigFiles) &&
    NoDots(s.referencedClasses)
  }

  class Plugin<V> {
    var definedModules: set<Option<string>>
    var dependencies: seq<Dependency>
    var moduleDependencies: seq<Dependency>
    var optionalConfigFiles: map<Dependency, string>
    var optionalDescriptors: map<string, Plugin<V>>
    var referencedClasses: set<string>
    var extensions: Multimap<Element>
    var pluginName: Option<string>
    var pluginVersion: Option<string>
    var pluginId: Option<string>
    var pluginVendor: Option<string>
    var vendorEmail: Option<string>
    var vendorUrl: Option<string>
    var description: Option<string>
    var url: Option<string>
    var notes: Option<string>
    var sinceBuild: Option<V>
    var untilBuild: Option<V>

    /** The current values of the fields. */
    function Snapshot(): State<V>
      reads this
    {
      State(definedModules, dependencies, moduleDependencies, optionalConfigFiles, optionalDescriptors,
            referencedClasses, extensions, pluginName, pluginVersion, pluginId, pluginVendor, vendorEmail,
            vendorUrl, description, url, notes, sinceBuild, untilBuild)
    }

    /** The fields are consistent, and a descriptor is not its own optional descriptor. */
    predicate Valid()
      reads this
    {
      Consistent(Snapshot()) && this !in Snapshot().optionalDescriptors.Values
    }

    constructor ()
      ensures Valid()
      ensures dependencies == [] && moduleDependencies == [] && optionalConfigFiles == map[]
      ensures optionalDescriptors == map[] && referencedClasses == {} && extensions == map[]
      ensures definedModules == {} && sinceBuild.None? && untilBuild.None?
      ensures pluginName.None? && pluginId.None? && pluginVersion.None? && pluginVendor.None?
      ensures vendorEmail.None? && vendorUrl.None? && description.None? && url.None? && notes.None?
    {
      definedModules := {};
      dependencies := [];
      moduleDependencies := [];
      optionalConfigFiles := map[];
      optionalDescriptors := map[];
      referencedClasses := {};
      extensions := map[];
      pluginName, pluginVersion, pluginId, pluginVendor := None, None, None, None;
      vendorEmail, vendorUrl, description, url, notes := None, None, None, None, None;
      sinceBuild, untilBuild := None, None;
    }

    // -------------------------------------------------------------------------
    // Compatibility

    /** `isCompatibleWithIde`: `v` lies in the closed range [since-build, until-build]. */
    predicate IsCompatibleWithIde(v: V, leq: (V, V) -> bool)
      reads this
      ensures sinceBuild.None? ==> IsCompatibleWithIde(v, leq)
      ensures sinceBuild.Some? && untilBuild.None? ==>
        (IsCompatibleWithIde(v, leq) <==> leq(sinceBuild.value, v))
      ensures sinceBuild.Some? && untilBuild.Some? ==>
        (IsCompatibleWithIde(v, leq) <==> leq(sinceBuild.value, v) && leq(v, untilBuild.value))
    {
      InBuildRange(sinceBuild, untilBuild, v, leq)
    }

    /** `setSinceUntilBuilds`. */
    method SetSinceUntilBuilds(iv: Element, parse: Option<string> -> Option<V>) returns (err: Option<IncorrectPlugin>)
      modifies this`sinceBuild, this`untilBuild
      ensures err == IdeaVersionError(iv, parse)
      ensures Snapshot() == WithBuilds(old(Snapshot()), iv, parse)
    {
      if "min" !in iv.attributes {
        var sb := AttributeValue(iv, "since-build");
        var since := parse(sb);
        if since.None? {
          return Some(InvalidSinceBuild(sb));
        }
        sinceBuild := since;
        var ub := AttributeValue(iv, "until-build");
        if !IsNullOrEmpty(ub) {
          var normalized := NormalizeUntilBuild(ub.value);
          var until := parse(Some(normalized));
          if until.None? {
            return Some(InvalidUntilBuild(normalized));
          }
          untilBuild := until;
        }
      }
      return None;
    }

    // -------------------------------------------------------------------------
    // Dependencies

    /** `setPluginDependencies`: each `<depends>` child, in document order. */
    method SetPluginDependencies(root: Element)
      modifies this`dependencies, this`moduleDependencies, this`optionalConfigFiles
      ensures Snapshot() == WithDependencies(old(Snapshot()), root)
    {
      var ds := ChildrenNamed(root, "depends");
      DeclareDependencies(ds);
    }

    /** The loop of `setPluginDependencies`: the given `<depends>` elements, in order. */
    method DeclareDependencies(ds: seq<Element>)
      modifies this`dependencies, this`moduleDependencies, this`optionalConfigFiles
      ensures moduleDependencies == old(moduleDependencies) + ModuleDependencies(DeclaredDependencies(ds))
      ensures dependencies == old(dependencies) + PluginDependencies(DeclaredDependencies(ds))
      ensures optionalConfigFiles == ConfigFiles(old(optionalConfigFiles), ConfigEntries(ds))
    {
      ghost var declared := DeclaredDependencies(ds);
      ghost var entries := ConfigEntries(ds);
      for i := 0 to |ds|
        invariant moduleDependencies == ModulesFrom(old(moduleDependencies), declared, i)
        invariant dependencies == PluginsFrom(old(dependencies), declared, i)
        invariant optionalConfigFiles == ConfigFilesUpTo(old(optionalConfigFiles), entries, i)
      {
        assert declared[i] == DependencyOf(ds[i]) by { DeclaredDependenciesAt(ds); }
        assert entries[i] == (DependencyOf(ds[i]), ConfigFileOf(ds[i])) by { ConfigEntriesAt(ds); }
        DeclareDependency(ds[i]);
      }
      SplitAll(old(moduleDependencies), old(dependencies), declared);
    }

    /** One `<depends>` element: its dependency joins one list and, if optional, its config file is recorded. */
    method DeclareDependency(d: Element)
      modifies this`dependencies, this`moduleDependencies, this`optionalConfigFiles
      ensures moduleDependencies == old(moduleDependencies) + (if IsModuleDependency(DependencyOf(d)) then [DependencyOf(d)] else [])
      ensures dependencies == old(dependencies) + (if IsModuleDependency(DependencyOf(d)) then [] else [DependencyOf(d)])
      ensures optionalConfigFiles ==
        if ConfigFileOf(d).Some? then old(optionalConfigFiles)[DependencyOf(d) := ConfigFileOf(d).value] else old(optionalConfigFiles)
    {
      var optional := ParseBoolean(AttributeValueOr(d, "optional", "false"));
      var pluginId := TextTrim(d);
      var dependency := Dependency(pluginId, optional);
      if StartsWith(pluginId, IntellijModulesPrefix) {
        moduleDependencies := moduleDependencies + [dependency];
      } else {
        dependencies := dependencies + [dependency];
      }
      if optional {
        var configFile := AttributeValue(d, "config-file");
        if configFile.Some? {
          optionalConfigFiles := optionalConfigFiles[dependency := configFile.value];
        }
      }
    }

    /** `setDefinedModules`: the `value` of each `<module>` child, `null` when it has none. */
    method SetDefinedModules(root: Element)
      modifies this`definedModules
      ensures Snapshot() == WithModules(old(Snapshot()), root)
    {
      var ms := ChildrenNamed(root, "module");
      for i := 0 to |ms|
        invariant definedModules == old(definedModules) + set j | 0 <= j < i :: AttributeValue(ms[j], "value")
      {
        definedModules := definedModules + {AttributeValue(ms[i], "value")};
      }
    }

    // -------------------------------------------------------------------------
    // Extensions

    /** `setExtensions`: every child of every `<extensions>` child, under its extension-point name. */
    method SetExtensions(root: Element)
      modifies this`extensions
      ensures Snapshot() == WithExtensions(old(Snapshot()), root)
    {
      var roots := ChildrenNamed(root, "extensions");
      for i := 0 to |roots|
        invariant extensions == PutRoots(old(extensions), roots, i)
      {
        var extensionsRoot := roots[i];
        for j := 0 to |extensionsRoot.children|
          invariant extensions == PutChildren(PutRoots(old(extensions), roots, i), extensionsRoot, j)
        {
          var element := extensionsRoot.children[j];
          extensions := Put(extensions, ExtractEPName(element, Some(extensionsRoot)), element);
        }
      }
      PutRootsIsPutEntries(old(extensions), roots, |roots|);
      assert roots[..|roots|] == roots;
    }

    // -------------------------------------------------------------------------
    // Referenced classes

    /** `checkIfClass`: every identifier-like token of `text`, slashed, joins the references. */
    method CheckIfClass(text: string)
      modifies this`referencedClasses
      ensures referencedClasses == old(referencedClasses) + Harvest(text)
    {
      var tokens := ClassTokens(text);
      for i := 0 to |tokens|
        invariant referencedClasses == old(referencedClasses) + set j | 0 <= j < i :: Slashed(tokens[j])
      {
        referencedClasses := referencedClasses + {Slashed(tokens[i])};
      }
    }

    /** `processReferencedClasses`: every node below `root`, in document order. */
    method ProcessReferencedClasses(root: Element)
      modifies this`referencedClasses
      ensures Snapshot() == WithReferences(old(Snapshot()), root)
    {
      // The text nodes directly under the root.
      var rootInteresting := IsInterestingName(root.name);
      if rootInteresting {
        CheckIfClass(TextTrim(root));
      } else {
        UnionEmpty(referencedClasses);
      }
      var ds := Descendants(root);
      ProcessNodes(ds);
      UnionFromShift(old(referencedClasses), TextNodeHarvest(root), NodeHarvests(ds), |ds|);
    }

    /** The element nodes `ds`, with their text nodes, one after the other. */
    method ProcessNodes(ds: seq<Element>)
      modifies this`referencedClasses
      ensures referencedClasses == UnionFrom(old(referencedClasses), NodeHarvests(ds), |ds|)
    {
      ghost var hs := NodeHarvests(ds);
      for i := 0 to |ds|
        invariant referencedClasses == UnionFrom(old(referencedClasses), hs, i)
      {
        assert hs[i] == ElementNodeHarvest(ds[i]) + TextNodeHarvest(ds[i]) by { NodeHarvestsAt(ds); }
        ProcessNode(ds[i]);
      }
    }

    /** One element below the root: the element node itself, then its text nodes. */
    method ProcessNode(element: Element)
      modifies this`referencedClasses
      ensures referencedClasses == old(referencedClasses) + (ElementNodeHarvest(element) + TextNodeHarvest(element))
    {
      var interesting := IsInterestingName(element.name);
      ghost var textPart := if Interesting(element.name) then Harvest(TextNormalize(element)) else {};
      if interesting {
        CheckIfClass(TextNormalize(element));
      } else {
        UnionEmpty(referencedClasses);
      }
      ProcessAttributes(element);
      ghost var attributesPart := AttributesHarvest(element.attributes, element.attributes.Keys);
      UnionAssoc(old(referencedClasses), textPart, attributesPart);
      // The element's own text node.
      if interesting {
        CheckIfClass(TextTrim(element));
      } else {
        UnionEmpty(referencedClasses);
      }
      UnionAssoc(old(referencedClasses), ElementNodeHarvest(element), TextNodeHarvest(element));
    }

    /** The attributes of an element node, each with an interesting name contributing its trimmed value. */
    method ProcessAttributes(element: Element)
      modifies this`referencedClasses
      ensures referencedClasses == old(referencedClasses) + AttributesHarvest(element.attributes, element.attributes.Keys)
    {
      var attrs := element.attributes;
      var names := attrs.Keys;
      ghost var done: set<string> := {};
      while names != {}
        invariant names + done == attrs.Keys && names !! done
        invariant referencedClasses == old(referencedClasses) + AttributesHarvest(attrs, done)
        decreases names
      {
        var name :| name in names;
        ghost var before := referencedClasses;
        var attributeInteresting := IsInterestingName(name);
        if attributeInteresting {
          CheckIfClass(Trim(attrs[name]));
        }
        if !attributeInteresting {
          UnionEmpty(referencedClasses);
        }
        AttributesHarvestAdd(attrs, done, name);
        UnionAssoc(old(referencedClasses), AttributesHarvest(attrs, done), AttributeHarvest(attrs, name));
        names := names - {name};
        done := done + {name};
      }
      assert done == attrs.Keys;
    }

    /** `getAllClassesReferencedFromXml`: this descriptor's references and those of its optional descriptors. */
    method AllClassesReferencedFromXml() returns (r: set<string>)
      ensures referencedClasses <= r
      ensures forall d :: d in optionalDescriptors.Values ==> d.referencedClasses <= r
      ensures forall c :: c in r ==>
        c in referencedClasses || exists d :: d in optionalDescriptors.Values && c in d.referencedClasses
    {
      r := referencedClasses;
      var rest := optionalDescriptors.Values;
      while rest != {}
        invariant rest <= optionalDescriptors.Values
        invariant referencedClasses <= r
        invariant forall d :: d in optionalDescriptors.Values - rest ==> d.referencedClasses <= r
        invariant forall c :: c in r ==>
          c in referencedClasses || exists d :: d in optionalDescriptors.Values - rest && c in d.referencedClasses
        decreases rest
      {
        var d :| d in rest;
        r := r + d.referencedClasses;
        rest := rest - {d};
      }
    }

    // -------------------------------------------------------------------------
    // Optional descriptors

    /** The extension multimaps of the given descriptors, in order. */
    function ExtensionMaps(ds: seq<(string, Plugin<V>)>): (ms: seq<Multimap<Element>>)
      reads set i | 0 <= i < |ds| :: ds[i].1
      ensures |ms| == |ds|
    {
      if ds == [] then [] else ExtensionMaps(ds[..|ds| - 1]) + [ds[|ds| - 1].1.extensions]
    }

    /** The `i`-th multimap is the `i`-th descriptor's. */
    lemma {:induction false} ExtensionMapsAt(ds: seq<(string, Plugin<V>)>, i: nat)
      requires i < |ds|
      ensures ExtensionMaps(ds)[i] == ds[i].1.extensions
    {
      if i < |ds| - 1 {
        ExtensionMapsAt(ds[..|ds| - 1], i);
      }
    }

    /**
     * `setOptionalDescriptors`: the map is replaced by the given one, and each optional
     * descriptor's extensions are merged into this one's, in the map's iteration order.
     */
    method SetOptionalDescriptors(ds: seq<(string, Plugin<V>)>)
      requires Valid()
      requires DistinctNames(ds)
      requires forall i :: 0 <= i < |ds| ==> ds[i].1 != this
      modifies this`optionalDescriptors, this`extensions
      ensures Valid()
      ensures Snapshot() == old(Snapshot()).(optionalDescriptors := DescriptorMap(ds),
                                             extensions := PutAllFrom(old(extensions), old(ExtensionMaps(ds)), |ds|))
    {
      assert this !in DescriptorMap(ds).Values by {
        DescriptorMapValues(ds);
      }
      optionalDescriptors := DescriptorMap(ds);
      MergeOptionalConfigs(ds);
    }

    /** The loop of `setOptionalDescriptors`: each descriptor's extensions merged in turn. */
    method MergeOptionalConfigs(ds: seq<(string, Plugin<V>)>)
      requires forall i :: 0 <= i < |ds| ==> ds[i].1 != this
      modifies this`extensions
      ensures extensions == PutAllFrom(old(extensions), old(ExtensionMaps(ds)), |ds|)
    {
      ghost var maps := ExtensionMaps(ds);
      forall j | 0 <= j < |ds|
        ensures ds[j].1.extensions == maps[j]
      {
        ExtensionMapsAt(ds, j);
      }
      for i := 0 to |ds|
        invariant extensions == PutAllFrom(old(extensions), maps, i)
        invariant forall j :: i <= j < |ds| ==> ds[j].1.extensions == maps[j]
      {
        MergeOptionalConfig(ds[i].1);
      }
    }

    /** `mergeOptionalConfig`: `putAll` of the optional descriptor's extensions. */
    method MergeOptionalConfig(optDescriptor: Plugin<V>)
      requires optDescriptor != this
      modifies this`extensions
      ensures extensions == PutAll(old(extensions), optDescriptor.extensions)
    {
      extensions := PutAll(extensions, optDescriptor.extensions);
    }

    // -------------------------------------------------------------------------
    // The descriptor as a whole

    /**
     * The header of `checkAndSetEntries`: name, id, url, vendor and version, with the
     * structure warnings they raise.
     */
    method SetHeader(r: Element) returns (warnings: seq<StructureWarning>)
      modifies this`pluginName, this`pluginId, this`url, this`pluginVendor, this`vendorEmail, this`vendorUrl, this`pluginVersion
      ensures warnings == HeaderWarnings(r)
      ensures Snapshot() == WithHeader(old(Snapshot()), r)
    {
      warnings := SetName(r);
      var vendorWarnings := SetVendor(r);
      var versionWarnings := SetVersion(r);
      warnings := warnings + vendorWarnings + versionWarnings;
    }

    /** The name, the id (the name when there is no `<id>`) and the url. */
    method SetName(r: Element) returns (warnings: seq<StructureWarning>)
      modifies this`pluginName, this`pluginId, this`url
      ensures warnings == NameWarnings(r)
      ensures Snapshot() == WithName(old(Snapshot()), r)
    {
      warnings := [];
      pluginName := ChildTextTrim(r, "name");
      if IsNullOrEmpty(pluginName) {
        warnings := warnings + [NameNotSpecified];
      }

      pluginId := ChildText(r, "id");
      if pluginId.None? {
        pluginId := pluginName;
      }

      url := Some(NotNullize(AttributeValue(r, "url")));
    }

    /** The vendor, its e-mail and its url, all left as they were when there is no `<vendor>`. */
    method SetVendor(r: Element) returns (warnings: seq<StructureWarning>)
      modifies this`pluginVendor, this`vendorEmail, this`vendorUrl
      ensures warnings == VendorWarnings(r)
      ensures Snapshot() == WithVendor(old(Snapshot()), r)
    {
      warnings := [];
      var vendorElement := Child(r, "vendor");
      if vendorElement.None? {
        warnings := warnings + [VendorNotFound];
      } else {
        pluginVendor := Some(TextTrim(vendorElement.value));
        vendorEmail := Some(NotNullize(AttributeValue(vendorElement.value, "email")));
        vendorUrl := Some(NotNullize(AttributeValue(vendorElement.value, "url")));
      }
    }

    /** The version. */
    method SetVersion(r: Element) returns (warnings: seq<StructureWarning>)
      modifies this`pluginVersion
      ensures warnings == VersionWarnings(r)
      ensures Snapshot() == WithVersion(old(Snapshot()), r)
    {
      warnings := [];
      pluginVersion := ChildTextTrim(r, "version");
      if pluginVersion.None? {
        warnings := warnings + [VersionNotSpecified];
      }
    }

    /** `setComponents`: the referenced classes, then the extensions. */
    method SetComponents(r: Element)
      modifies this`referencedClasses, this`extensions
      ensures Snapshot() == WithComponents(old(Snapshot()), r)
    {
      ProcessReferencedClasses(r);
      SetExtensions(r);
    }

    /** The description and the change notes, both cleaned by `sanitize`. */
    method SetDescriptionAndNotes(r: Element, sanitize: string -> string) returns (warnings: seq<StructureWarning>)
      modifies this`description, this`notes
      ensures warnings == DescriptionWarnings(r)
      ensures Snapshot() == WithDescription(old(Snapshot()), r, sanitize)
    {
      warnings := [];
      var desc := ChildTextTrim(r, "description");
      if IsNullOrEmpty(desc) {
        warnings := warnings + [DescriptionEmpty];
      } else {
        description := Some(sanitize(desc.value));
      }

      var changeNotes := ChildrenNamed(r, "change-notes");
      if |changeNotes| > 0 {
        var textTrim := TextTrim(changeNotes[0]);
        if textTrim != [] {
          notes := Some(sanitize(textTrim));
        }
      }
    }

    /**
     * `checkAndSetEntries`: the header fields, `<idea-version>`, the referenced classes,
     * extensions, dependencies, modules, description and change notes, in that order.
     * Structure warnings are returned in the order they are reported; an exception stops
     * the reading, keeping what was set and reported before it.
     */
    method CheckAndSetEntries(root: Option<Element>, parse: Option<string> -> Option<V>, sanitize: string -> string)
      returns (err: Option<IncorrectPlugin>, warnings: seq<StructureWarning>)
      requires Valid()
      modifies this
      ensures Valid()
      ensures err == ReadError(root, parse)
      ensures warnings == if IsPluginRoot(root) then StructureWarnings(root.value, err.None?) else []
      ensures Snapshot() == AfterEntries(old(Snapshot()), root, parse, sanitize)
    {
      EntriesKeepConsistent(Snapshot(), root, parse, sanitize);
      warnings := [];
      if root.None? {
        return Some(RootElementNotFound), warnings;
      }
      var r := root.value;
      if r.name != "idea-plugin" {
        return Some(RootElementNotIdeaPlugin(r.name)), warnings;
      }

      warnings := SetHeader(r);
      var ideaVersionWarnings;
      err, ideaVersionWarnings := SetIdeaVersion(r, parse);
      warnings := warnings + ideaVersionWarnings;
      if err.Some? {
        return err, warnings;
      }
      var descriptionWarnings := SetBody(r, sanitize);
      warnings := warnings + descriptionWarnings;
    }

    /** `<idea-version>`: reported when missing, otherwise `setSinceUntilBuilds`. */
    method SetIdeaVersion(r: Element, parse: Option<string> -> Option<V>)
      returns (err: Option<IncorrectPlugin>, warnings: seq<StructureWarning>)
      modifies this`sinceBuild, this`untilBuild
      ensures err == if Child(r, "idea-version").Some? then IdeaVersionError(Child(r, "idea-version").value, parse) else None
      ensures warnings == IdeaVersionWarnings(r)
      ensures Snapshot() == WithIdeaVersion(old(Snapshot()), r, parse)
    {
      var ideaVersionElement := Child(r, "idea-version");
      if ideaVersionElement.None? {
        return None, [IdeaVersionNotFound];
      }
      err := SetSinceUntilBuilds(ideaVersionElement.value, parse);
      warnings := [];
    }

    /** Everything after `<idea-version>`: components, dependencies, modules, description and notes. */
    method SetBody(r: Element, sanitize: string -> string) returns (warnings: seq<StructureWarning>)
      modifies this`referencedClasses, this`extensions, this`dependencies, this`moduleDependencies,
               this`optionalConfigFiles, this`definedModules, this`description, this`notes
      ensures warnings == DescriptionWarnings(r)
      ensures Snapshot() == ReadBody(old(Snapshot()), r, sanitize)
    {
      SetComponents(r);
      SetPluginDependencies(r);
      SetDefinedModules(r);
      warnings := SetDescriptionAndNotes(r, sanitize);
    }
  }

  /** A root element that `checkAndSetEntries` goes on to read. */
  predicate IsPluginRoot(root: Option<Element>) {
    root.Some? && root.value.name == "idea-plugin"
  }

  // ---------------------------------------------------------------------------
  // Structure warnings and the exception

  function NameWarnings(r: Element): seq<StructureWarning> {
    if IsNullOrEmpty(ChildTextTrim(r, "name")) then [NameNotSpecified] else []
  }

  function VendorWarnings(r: Element): seq<StructureWarning> {
    if Child(r, "vendor").None? then [VendorNotFound] else []
  }

  /** Only a missing `<version>` is reported; an empty one is not. */
  function VersionWarnings(r: Element): seq<StructureWarning> {
    if ChildTextTrim(r, "version").None? then [VersionNotSpecified] else []
  }

  /** The structure warnings of the header, in the order they are reported. */
  function HeaderWarnings(r: Element): seq<StructureWarning> {
    NameWarnings(r) + VendorWarnings(r) + VersionWarnings(r)
  }

  function IdeaVersionWarnings(r: Element): seq<StructureWarning> {
    if Child(r, "idea-version").None? then [IdeaVersionNotFound] else []
  }

  function DescriptionWarnings(r: Element): seq<StructureWarning> {
    if IsNullOrEmpty(ChildTextTrim(r, "description")) then [DescriptionEmpty] else []
  }

  /**
   * The structure warnings reported for an `<idea-plugin>` root, in order; the description
   * is looked at only when the reading gets that far (`complete`).
   */
  function StructureWarnings(r: Element, complete: bool): seq<StructureWarning> {
    HeaderWarnings(r) + IdeaVersionWarnings(r) + (if complete then DescriptionWarnings(r) else [])
  }

  /** Each header warning is reported exactly when its condition holds. */
  lemma HeaderWarningsSpec(r: Element)
    ensures NameNotSpecified in HeaderWarnings(r) <==> IsNullOrEmpty(ChildTextTrim(r, "name"))
    ensures VendorNotFound in HeaderWarnings(r) <==> Child(r, "vendor").None?
    ensures VersionNotSpecified in HeaderWarnings(r) <==> ChildTextTrim(r, "version").None?
    ensures IdeaVersionNotFound !in HeaderWarnings(r) && DescriptionEmpty !in HeaderWarnings(r)
  {
    assert HeaderWarnings(r) == NameWarnings(r) + VendorWarnings(r) + VersionWarnings(r);
  }

  /** Each warning is reported exactly when its condition holds. */
  lemma StructureWarningsSpec(r: Element, complete: bool)
    ensures NameNotSpecified in StructureWarnings(r, complete) <==> IsNullOrEmpty(ChildTextTrim(r, "name"))
    ensures VendorNotFound in StructureWarnings(r, complete) <==> Child(r, "vendor").None?
    ensures VersionNotSpecified in StructureWarnings(r, complete) <==> ChildTextTrim(r, "version").None?
    ensures IdeaVersionNotFound in StructureWarnings(r, complete) <==> Child(r, "idea-version").None?
    ensures DescriptionEmpty in StructureWarnings(r, complete) <==> complete && IsNullOrEmpty(ChildTextTrim(r, "description"))
  {
    HeaderWarningsSpec(r);
    assert StructureWarnings(r, complete) ==
      HeaderWarnings(r) + IdeaVersionWarnings(r) + (if complete then DescriptionWarnings(r) else []);
  }

  /** The exception `checkAndSetEntries` raises for a root element, if any. */
  function ReadError<V>(root: Option<Element>, parse: Option<string> -> Option<V>): Option<IncorrectPlugin> {
    if root.None? then Some(RootElementNotFound)
    else if root.value.name != "idea-plugin" then Some(RootElementNotIdeaPlugin(root.value.name))
    else if Child(root.value, "idea-version").Some? then IdeaVersionError(Child(root.value, "idea-version").value, parse)
    else None
  }

  /**
   * The reading fails exactly for a missing root, a root of another name, or an
   * `<idea-version>` without `min` whose since-build, or non-empty until-build once
   * normalised, does not parse.
   */
  lemma ReadErrorSpec<V>(root: Option<Element>, parse: Option<string> -> Option<V>)
    ensures ReadError(root, parse).None? <==>
      IsPluginRoot(root) &&
      (Child(root.value, "idea-version").None? || IdeaVersionError(Child(root.value, "idea-version").value, parse).None?)
    ensures ReadError(root, parse) == Some(RootElementNotFound) <==> root.None?
    ensures IsPluginRoot(root) && Child(root.value, "idea-version").Some? ==>
      var iv := Child(root.value, "idea-version").value;
      ReadError(root, parse).Some? <==>
        "min" !in iv.attributes &&
        (parse(AttributeValue(iv, "since-build")).None? ||
         (!IsNullOrEmpty(AttributeValue(iv, "until-build")) &&
          parse(Some(NormalizeUntilBuild(AttributeValue(iv, "until-build").value))).None?))
  {
  }

  // ---------------------------------------------------------------------------
  // The reading steps, as functions of the fields

  function WithName<V>(s: State<V>, r: Element): State<V> {
    s.(pluginName := ChildTextTrim(r, "name"),
       pluginId := if ChildText(r, "id").Some? then ChildText(r, "id") else ChildTextTrim(r, "name"),
       url := Some(NotNullize(AttributeValue(r, "url"))))
  }

  function WithVendor<V>(s: State<V>, r: Element): State<V> {
    match Child(r, "vendor")
    case None => s
    case Some(vendor) =>
      s.(pluginVendor := Some(TextTrim(vendor)),
         vendorEmail := Some(NotNullize(AttributeValue(vendor, "email"))),
         vendorUrl := Some(NotNullize(AttributeValue(vendor, "url"))))
  }

  function WithVersion<V>(s: State<V>, r: Element): State<V> {
    s.(pluginVersion := ChildTextTrim(r, "version"))
  }

  function WithHeader<V>(s: State<V>, r: Element): State<V> {
    WithVersion(WithVendor(WithName(s, r), r), r)
  }

  /**
   * `setSinceUntilBuilds`: nothing for a legacy element; otherwise the since-build once it
   * parses, then the until-build once it parses. A failed parse stops the step there.
   */
  function WithBuilds<V>(s: State<V>, iv: Element, parse: Option<string> -> Option<V>): State<V> {
    if "min" in iv.attributes then s
    else
      var since := parse(AttributeValue(iv, "since-build"));
      var ub := AttributeValue(iv, "until-build");
      if since.None? then s
      else if IsNullOrEmpty(ub) || parse(Some(NormalizeUntilBuild(ub.value))).None? then s.(sinceBuild := since)
      else s.(sinceBuild := since, untilBuild := parse(Some(NormalizeUntilBuild(ub.value))))
  }

  ghost function WithReferences<V>(s: State<V>, r: Element): State<V> {
    s.(referencedClasses := s.referencedClasses + ReferencedClassesIn(r))
  }

  function WithExtensions<V>(s: State<V>, r: Element): State<V> {
    s.(extensions := PutEntries(s.extensions, EntriesOf(ChildrenNamed(r, "extensions"))))
  }

  ghost function WithComponents<V>(s: State<V>, r: Element): State<V> {
    WithExtensions(WithReferences(s, r), r)
  }

  function WithDependencies<V>(s: State<V>, r: Element): State<V> {
    var ds := ChildrenNamed(r, "depends");
    s.(moduleDependencies := s.moduleDependencies + ModuleDependencies(DeclaredDependencies(ds)),
       dependencies := s.dependencies + PluginDependencies(DeclaredDependencies(ds)),
       optionalConfigFiles := ConfigFiles(s.optionalConfigFiles, ConfigEntries(ds)))
  }

  function WithModules<V>(s: State<V>, r: Element): State<V> {
    s.(definedModules := s.definedModules + set m | m in ChildrenNamed(r, "module") :: AttributeValue(m, "value"))
  }

  function WithDescription<V>(s: State<V>, r: Element, sanitize: string -> string): State<V> {
    var desc := ChildTextTrim(r, "description");
    var changeNotes := ChildrenNamed(r, "change-notes");
    s.(description := if IsNullOrEmpty(desc) then s.description else Some(sanitize(desc.value)),
       notes := if changeNotes == [] || TextTrim(changeNotes[0]) == [] then s.notes else Some(sanitize(TextTrim(changeNotes[0]))))
  }

  /** `<idea-version>`, when there is one. */
  function WithIdeaVersion<V>(s: State<V>, r: Element, parse: Option<string> -> Option<V>): State<V> {
    match Child(r, "idea-version")
    case None => s
    case Some(iv) => WithBuilds(s, iv, parse)
  }

  /** What `checkAndSetEntries` reads once `<idea-version>` has not raised. */
  ghost function ReadBody<V>(s: State<V>, r: Element, sanitize: string -> string): State<V> {
    WithDescription(WithModules(WithDependencies(WithComponents(s, r), r), r), r, sanitize)
  }

  /**
   * `checkAndSetEntries`: nothing without an `<idea-plugin>` root; otherwise the header,
   * then `<idea-version>`, and, unless that raised, the components, dependencies, modules,
   * description and change notes.
   */
  ghost function AfterEntries<V>(s: State<V>, root: Option<Element>, parse: Option<string> -> Option<V>,
                                 sanitize: string -> string): State<V>
  {
    if !IsPluginRoot(root) then s
    else
      var builds := WithIdeaVersion(WithHeader(s, root.value), root.value, parse);
      if ReadError(root, parse).Some? then builds else ReadBody(builds, root.value, sanitize)
  }

  // ---------------------------------------------------------------------------
  // Which step touches which fields

  /** The fields the header sets. */
  predicate SameHeader<V>(a: State<V>, b: State<V>) {
    a.pluginName == b.pluginName && a.pluginId == b.pluginId && a.url == b.url && a.pluginVersion == b.pluginVersion &&
    a.pluginVendor == b.pluginVendor && a.vendorEmail == b.vendorEmail && a.vendorUrl == b.vendorUrl
  }

  /** The fields set after `<idea-version>`. */
  predicate SameBody<V>(a: State<V>, b: State<V>) {
    a.referencedClasses == b.referencedClasses && a.extensions == b.extensions &&
    a.moduleDependencies == b.moduleDependencies && a.dependencies == b.dependencies &&
    a.optionalConfigFiles == b.optionalConfigFiles && a.definedModules == b.definedModules &&
    a.description == b.description && a.notes == b.notes
  }

  /** `setSinceUntilBuilds` sets the two builds and nothing else. */
  lemma BuildsSetOnlyBuilds<V>(s: State<V>, iv: Element, parse: Option<string> -> Option<V>)
    ensures var t := WithBuilds(s, iv, parse);
      t == s.(sinceBuild := t.sinceBuild, untilBuild := t.untilBuild)
  {
  }

  lemma IdeaVersionKeepsHeader<V>(s: State<V>, r: Element, parse: Option<string> -> Option<V>)
    ensures SameHeader(WithIdeaVersion(s, r, parse), s)
    ensures SameBody(WithIdeaVersion(s, r, parse), s)
    ensures WithIdeaVersion(s, r, parse).optionalDescriptors == s.optionalDescriptors
  {
    var iv := Child(r, "idea-version");
    if iv.Some? {
      BuildsSetOnlyBuilds(s, iv.value, parse);
    }
  }

  lemma HeaderKeepsBody<V>(s: State<V>, r: Element)
    ensures SameBody(WithHeader(s, r), s)
    ensures WithHeader(s, r).optionalDescriptors == s.optionalDescriptors
    ensures WithHeader(s, r).sinceBuild == s.sinceBuild && WithHeader(s, r).untilBuild == s.untilBuild
  {
  }

  lemma BodyKeepsHeader<V>(s: State<V>, r: Element, sanitize: string -> string)
    ensures SameHeader(ReadBody(s, r, sanitize), s)
    ensures ReadBody(s, r, sanitize).sinceBuild == s.sinceBuild && ReadBody(s, r, sanitize).untilBuild == s.untilBuild
    ensures ReadBody(s, r, sanitize).optionalDescriptors == s.optionalDescriptors
  {
  }

  /** What the body adds to each field. */
  lemma ReadBodyFields<V>(s: State<V>, r: Element, sanitize: string -> string)
    ensures var t := ReadBody(s, r, sanitize);
      var ds := DeclaredDependencies(ChildrenNamed(r, "depends"));
      && t.referencedClasses == s.referencedClasses + ReferencedClassesIn(r)
      && t.extensions == PutEntries(s.extensions, EntriesOf(ChildrenNamed(r, "extensions")))
      && t.moduleDependencies == s.moduleDependencies + ModuleDependencies(ds)
      && t.dependencies == s.dependencies + PluginDependencies(ds)
      && t.optionalConfigFiles == ConfigFiles(s.optionalConfigFiles, ConfigEntries(ChildrenNamed(r, "depends")))
      && t.definedModules == s.definedModules + (set m | m in ChildrenNamed(r, "module") :: AttributeValue(m, "value"))
      && t.description == WithDescription(s, r, sanitize).description
      && t.notes == WithDescription(s, r, sanitize).notes
  {
  }

  /** The body keeps the fields consistent. */
  lemma ReadBodyKeepsConsistent<V>(s: State<V>, r: Element, sanitize: string -> string)
    requires Consistent(s)
    ensures Consistent(ReadBody(s, r, sanitize))
  {
    var components := WithComponents(s, r);
    assert Consistent(components) by {
      ReferencedClassesHaveNoDot(r);
      NoDotsUnion(s.referencedClasses, ReferencedClassesIn(r));
    }
    var dependencies := WithDependencies(components, r);
    assert Consistent(dependencies) by {
      DeclaringElementsKeepsConsistent(components.moduleDependencies, components.dependencies,
                                       components.optionalConfigFiles, ChildrenNamed(r, "depends"));
    }
    ReadBodyFields(s, r, sanitize);
  }

  // ---------------------------------------------------------------------------
  // What reading a descriptor promises

  /** Reading keeps the fields consistent and leaves the optional descriptors alone. */
  lemma EntriesKeepConsistent<V>(s: State<V>, root: Option<Element>, parse: Option<string> -> Option<V>,
                                 sanitize: string -> string)
    requires Consistent(s)
    ensures Consistent(AfterEntries(s, root, parse, sanitize))
    ensures AfterEntries(s, root, parse, sanitize).optionalDescriptors == s.optionalDescriptors
  {
    if IsPluginRoot(root) {
      var r := root.value;
      var header := WithHeader(s, r);
      var builds := WithIdeaVersion(header, r, parse);
      HeaderKeepsBody(s, r);
      IdeaVersionKeepsHeader(header, r, parse);
      assert Consistent(builds);
      if ReadError(root, parse).None? {
        ReadBodyKeepsConsistent(builds, r, sanitize);
        BodyKeepsHeader(builds, r, sanitize);
      }
    }
  }

  /** Without an `<idea-plugin>` root nothing is set. */
  lemma EntriesNeedPluginRoot<V>(s: State<V>, root: Option<Element>, parse: Option<string> -> Option<V>,
                                 sanitize: string -> string)
    requires !IsPluginRoot(root)
    ensures AfterEntries(s, root, parse, sanitize) == s
    ensures ReadError(root, parse).Some?
  {
  }

  /** The header is read before anything can fail. */
  lemma EntriesReadHeader<V>(s: State<V>, root: Option<Element>, parse: Option<string> -> Option<V>,
                             sanitize: string -> string)
    requires IsPluginRoot(root)
    ensures var t := AfterEntries(s, root, parse, sanitize);
      var r := root.value;
      && t.pluginName == ChildTextTrim(r, "name")
      && t.pluginId == (if ChildText(r, "id").Some? then ChildText(r, "id") else ChildTextTrim(r, "name"))
      && t.url == Some(NotNullize(AttributeValue(r, "url")))
      && t.pluginVersion == ChildTextTrim(r, "version")
      && (Child(r, "vendor").None? ==>
            t.pluginVendor == s.pluginVendor && t.vendorEmail == s.vendorEmail && t.vendorUrl == s.vendorUrl)
      && (Child(r, "vendor").Some? ==>
            && t.pluginVendor == Some(TextTrim(Child(r, "vendor").value))
            && t.vendorEmail == Some(NotNullize(AttributeValue(Child(r, "vendor").value, "email")))
            && t.vendorUrl == Some(NotNullize(AttributeValue(Child(r, "vendor").value, "url"))))
  {
    var r := root.value;
    var header := WithHeader(s, r);
    var builds := WithIdeaVersion(header, r, parse);
    IdeaVersionKeepsHeader(header, r, parse);
    if ReadError(root, parse).None? {
      BodyKeepsHeader(builds, r, sanitize);
    }
  }

  /** When `setSinceUntilBuilds` does not raise, both builds that are given are set. */
  lemma BuildsFields<V>(s: State<V>, iv: Element, parse: Option<string> -> Option<V>)
    requires IdeaVersionError(iv, parse).None?
    ensures var t := WithBuilds(s, iv, parse);
      && ("min" in iv.attributes ==> t.sinceBuild == s.sinceBuild && t.untilBuild == s.untilBuild)
      && ("min" !in iv.attributes ==>
            var ub := AttributeValue(iv, "until-build");
            && t.sinceBuild == parse(AttributeValue(iv, "since-build"))
            && t.sinceBuild.Some?
            && t.untilBuild == (if IsNullOrEmpty(ub) then s.untilBuild else parse(Some(NormalizeUntilBuild(ub.value))))
            && (!IsNullOrEmpty(ub) ==> t.untilBuild.Some?))
  {
  }

  /** A successful read sets the builds the `<idea-version>` element gives, if it is not a legacy one. */
  lemma EntriesReadBuilds<V>(s: State<V>, root: Option<Element>, parse: Option<string> -> Option<V>,
                             sanitize: string -> string)
    requires IsPluginRoot(root) && ReadError(root, parse).None?
    ensures var t := AfterEntries(s, root, parse, sanitize);
      var iv := Child(root.value, "idea-version");
      && (iv.None? || "min" in iv.value.attributes ==> t.sinceBuild == s.sinceBuild && t.untilBuild == s.untilBuild)
      && (iv.Some? && "min" !in iv.value.attributes ==>
            var ub := AttributeValue(iv.value, "until-build");
            && t.sinceBuild == parse(AttributeValue(iv.value, "since-build"))
            && t.sinceBuild.Some?
            && t.untilBuild == (if IsNullOrEmpty(ub) then s.untilBuild else parse(Some(NormalizeUntilBuild(ub.value))))
            && (!IsNullOrEmpty(ub) ==> t.untilBuild.Some?))
  {
    var r := root.value;
    var header := WithHeader(s, r);
    var builds := WithIdeaVersion(header, r, parse);
    HeaderKeepsBody(s, r);
    BodyKeepsHeader(builds, r, sanitize);
    var iv := Child(r, "idea-version");
    if iv.Some? {
      assert IdeaVersionError(iv.value, parse).None?;
      BuildsFields(header, iv.value, parse);
    }
  }

  /** A successful read adds the components, dependencies and modules, and the cleaned texts. */
  lemma EntriesReadBody<V>(s: State<V>, root: Option<Element>, parse: Option<string> -> Option<V>,
                           sanitize: string -> string)
    requires IsPluginRoot(root) && ReadError(root, parse).None?
    ensures var t := AfterEntries(s, root, parse, sanitize);
      var r := root.value;
      var ds := DeclaredDependencies(ChildrenNamed(r, "depends"));
      var notes := ChildrenNamed(r, "change-notes");
      && t.referencedClasses == s.referencedClasses + ReferencedClassesIn(r)
      && t.extensions == PutEntries(s.extensions, EntriesOf(ChildrenNamed(r, "extensions")))
      && t.moduleDependencies == s.moduleDependencies + ModuleDependencies(ds)
      && t.dependencies == s.dependencies + PluginDependencies(ds)
      && t.optionalConfigFiles == ConfigFiles(s.optionalConfigFiles, ConfigEntries(ChildrenNamed(r, "depends")))
      && t.definedModules == s.definedModules + (set m | m in ChildrenNamed(r, "module") :: AttributeValue(m, "value"))
      && t.description == (if IsNullOrEmpty(ChildTextTrim(r, "description")) then s.description
                           else Some(sanitize(ChildTextTrim(r, "description").value)))
      && t.notes == (if notes == [] || TextTrim(notes[0]) == [] then s.notes else Some(sanitize(TextTrim(notes[0]))))
  {
    var r := root.value;
    var header := WithHeader(s, r);
    var builds := WithIdeaVersion(header, r, parse);
    HeaderKeepsBody(s, r);
    IdeaVersionKeepsHeader(header, r, parse);
    ReadBodyFields(builds, r, sanitize);
  }

  /**
   * An exception from `<idea-version>` leaves everything after the header as it was; an
   * invalid until-build comes after the since-build was already set.
   */
  lemma EntriesStopAtError<V>(s: State<V>, root: Option<Element>, parse: Option<string> -> Option<V>,
                              sanitize: string -> string)
    requires IsPluginRoot(root) && ReadError(root, parse).Some?
    ensures var t := AfterEntries(s, root, parse, sanitize);
      && SameBody(t, s) && t.untilBuild == s.untilBuild
      && (ReadError(root, parse).value.InvalidSinceBuild? ==> t.sinceBuild == s.sinceBuild)
      && (ReadError(root, parse).value.InvalidUntilBuild? ==>
            t.sinceBuild == parse(AttributeValue(Child(root.value, "idea-version").value, "since-build")))
  {
    var r := root.value;
    var header := WithHeader(s, r);
    HeaderKeepsBody(s, r);
    IdeaVersionKeepsHeader(header, r, parse);
  }

  // ---------------------------------------------------------------------------
  // Optional descriptors

  /** The values of the map built from distinct entries are the entries' descriptors. */
  lemma {:induction false} DescriptorMapValues<T>(ds: seq<(string, T)>)
    requires DistinctNames(ds)
    ensures DescriptorMap(ds).Values == set i | 0 <= i < |ds| :: ds[i].1
  {
    if ds != [] {
      var n := |ds| - 1;
      var front := ds[..n];
      DistinctFront(ds);
      DescriptorMapValues(front);
      var k, v := ds[n].0, ds[n].1;
      assert k !in DescriptorMap(front) by {
        LastNameIsNew(ds, front);
      }
      UpdateValues(DescriptorMap(front), k, v);
      SecondsSnoc(ds, front);
    }
  }

  /** Each file name is mapped to its own descriptor. */
  lemma {:induction false} DescriptorMapAt<T>(ds: seq<(string, T)>)
    requires DistinctNames(ds)
    ensures forall i :: 0 <= i < |ds| ==> ds[i].0 in DescriptorMap(ds) && DescriptorMap(ds)[ds[i].0] == ds[i].1
  {
    if ds != [] {
      var n := |ds| - 1;
      var front := ds[..n];
      DistinctFront(ds);
      DescriptorMapAt(front);
      forall i | 0 <= i < n
        ensures ds[i].0 in DescriptorMap(ds) && DescriptorMap(ds)[ds[i].0] == ds[i].1
      {
        assert front[i] == ds[i];
        assert ds[i].0 != ds[n].0;
      }
    }
  }

  /** Dropping the last entry keeps the names distinct. */
  lemma DistinctFront<T>(ds: seq<(string, T)>)
    requires ds != [] && DistinctNames(ds)
    ensures DistinctNames(ds[..|ds| - 1])
  {
    var front := ds[..|ds| - 1];
    forall i, j | 0 <= i < j < |front| ensures front[i].0 != front[j].0 {
      assert front[i] == ds[i] && front[j] == ds[j];
    }
  }

  /** The last entry's name is not among the names before it. */
  lemma LastNameIsNew<T>(ds: seq<(string, T)>, front: seq<(string, T)>)
    requires ds != [] && DistinctNames(ds) && front == ds[..|ds| - 1]
    ensures ds[|ds| - 1].0 !in set i | 0 <= i < |front| :: front[i].0
  {
    forall i | 0 <= i < |front| ensures front[i].0 != ds[|ds| - 1].0 {
      assert front[i] == ds[i];
    }
  }

  /** Adding a new key adds exactly its value to the values of a map. */
  lemma UpdateValues<K, T>(m: map<K, T>, k: K, v: T)
    requires k !in m
    ensures m[k := v].Values == m.Values + {v}
  {
    var m' := m[k := v];
    forall x | x in m'.Values ensures x in m.Values + {v} {
      var y :| y in m' && m'[y] == x;
      if y != k {
        assert m[y] == x;
      }
    }
    forall x | x in m.Values + {v} ensures x in m'.Values {
      if x == v {
        assert m'[k] == x;
      } else {
        var y :| y in m && m[y] == x;
        assert m'[y] == x;
      }
    }
  }

  /** The descriptors of a list of entries are those of its front and of its last entry. */
  lemma SecondsSnoc<T>(ds: seq<(string, T)>, front: seq<(string, T)>)
    requires ds != [] && front == ds[..|ds| - 1]
    ensures (set i | 0 <= i < |ds| :: ds[i].1)
         == (set i | 0 <= i < |front| :: front[i].1) + {ds[|ds| - 1].1}
  {
    var n := |ds| - 1;
    var all := set i | 0 <= i < |ds| :: ds[i].1;
    var before := set i | 0 <= i < n :: front[i].1;
    forall x | x in all ensures x in before + {ds[n].1} {
      var i :| 0 <= i < |ds| && ds[i].1 == x;
      if i < n {
        assert front[i].1 == x;
      }
    }
    forall x | x in before ensures x in all {
      var i :| 0 <= i < n && front[i].1 == x;
      assert ds[i].1 == x;
    }
  }
}
