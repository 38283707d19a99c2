# IntelliJ plugin descriptor reading, modelled in Dafny

This project models `PluginImpl`, the in-memory plugin descriptor of the IntelliJ plugin
structure library. The model covers how a descriptor fills in its fields from the root
element of a parsed `plugin.xml`:

- the header: name, id, url, vendor and version;
- the compatible build range from `<idea-version>`, including the normalisation of
  wildcard until-builds such as `183.*` to `183.2147483647`;
- the class names mentioned anywhere in the descriptor, in slash-separated form;
- the extensions, filed under their extension-point names in a list multimap;
- the `<depends>` entries, split into platform-module and plugin dependencies, with the
  config files of optional dependencies;
- the modules the plugin defines;
- the description and change notes;
- the merging of optional descriptors into the main one.

It also models the compatibility check (`isCompatibleWithIde`) and the collection of
every referenced class (`getAllClassesReferencedFromXml`).

`Plugin<V>` is a class with the source's fields. Its methods update those fields as the
Java methods do, with the same loops, except in `processReferencedClasses`. There the
source walks every content node below the root. The model first handles the root's own
text, then walks the elements below it, and handles each element's text with the
element. Each reading step is specified by a pure function
on a `State<V>` snapshot of the fields (`WithName`, `WithBuilds`, `WithDependencies`,
…). The lemmas state what reading a descriptor promises: which fields each step sets,
what stays as it was when an exception stops the reading, which warnings are reported
and when, and the invariants every step keeps. The invariants are:

- the two dependency lists are split by the `com.intellij.modules.` prefix;
- only a listed optional dependency has a config file;
- no class reference holds a `.`.

Things the Java code gets from its collaborators are parameters of the model:

- `V` is the IDE build number type, ordered by `leq`, where `leq(a, b)` stands for
  `a.compareTo(b) <= 0`.
- `parse` is `IdeVersion.createIdeVersion`; `None` is the `IllegalArgumentException`.
- `sanitize` is `Jsoup.clean` with the `basicWithImages` whitelist.
- The validator's structure warnings are returned as a sequence, in the order they are
  reported.
- An `IncorrectPluginException` is a returned `Option<IncorrectPlugin>`.

Modules:

| file | module | what it holds |
|---|---|---|
| `wrappers.dfy` | `Wrappers` | `Option`, standing for Java's nullable values, and the regrouping of concatenations |
| `java_strings.dfy` | `JavaStrings` | `trim`, `normalizeString`, `lastIndexOf`, case-insensitive search, `parseBoolean`, decimal rendering |
| `xml.dfy` | `Xml` | JDOM elements and the accessors the reader calls |
| `ide_versions.dfy` | `IdeVersions` | the build range and until-build normalisation |
| `class_references.dfy` | `ClassReferences` | interesting names, the identifier pattern, harvesting class references |
| `extensions.dfy` | `Extensions` | the extension multimap, `extractEPName`, `putAll` merging |
| `dependencies.dfy` | `Dependencies` | `<depends>` entries and their split |
| `plugin.dfy` | `PluginDescriptor` | the `Plugin<V>` class, the reading steps and the lemmas about a whole read |

## Model

Every row cites `PluginImpl.java`, the descriptor class.

| member | source | states |
|---|---|---|
| PluginDescriptor.Plugin.constructor | intellij-plugin-structure/src/main/java/com/intellij/structure/impl/domain/PluginImpl.java:37-60 | A new descriptor has empty collections, every nullable field null, and is consistent |
| PluginDescriptor.Plugin.IsCompatibleWithIde | intellij-plugin-structure/src/main/java/com/intellij/structure/impl/domain/PluginImpl.java:287-293 | Every version is compatible when there is no since-build. Otherwise a version is compatible iff since <= v, and also v <= until when an until-build is set |
| IdeVersions.RangeBoundsInclusive | intellij-plugin-structure/src/main/java/com/intellij/structure/impl/domain/PluginImpl.java:292 | Both ends of a non-empty build range are compatible: the range is closed |
| IdeVersions.RangeConvex | intellij-plugin-structure/src/main/java/com/intellij/structure/impl/domain/PluginImpl.java:290-292 | A version between two compatible versions is compatible |
| IdeVersions.InvertedRangeEmpty | intellij-plugin-structure/src/main/java/com/intellij/structure/impl/domain/PluginImpl.java:292 | An until-build strictly below the since-build makes every version incompatible |
| IdeVersions.InBuildRange | intellij-plugin-structure/src/main/java/com/intellij/structure/impl/domain/PluginImpl.java:290-292 | Definition (no contract): no since-build accepts every version; otherwise since <= v and, when an until-build is set, v <= until |
| PluginDescriptor.Plugin.SetSinceUntilBuilds | intellij-plugin-structure/src/main/java/com/intellij/structure/impl/domain/PluginImpl.java:331-356 | The exception raised is `IdeaVersionError`, and the builds become those of `WithBuilds`. A legacy element (with `min`) changes nothing; an unparsable since-build raises before anything is set; an unparsable until-build raises after the since-build is set |
| PluginDescriptor.IdeaVersionError | intellij-plugin-structure/src/main/java/com/intellij/structure/impl/domain/PluginImpl.java:332-353 | Definition (no contract): none for a legacy element; otherwise an unparsable since-build, then an unparsable normalised non-empty until-build |
| PluginDescriptor.BuildsSetOnlyBuilds | intellij-plugin-structure/src/main/java/com/intellij/structure/impl/domain/PluginImpl.java:331-356 | `setSinceUntilBuilds` changes the two builds and no other field |
| PluginDescriptor.BuildsFields | intellij-plugin-structure/src/main/java/com/intellij/structure/impl/domain/PluginImpl.java:332-354 | When it raises nothing, a non-legacy element sets the parsed since-build; a non-empty until-build sets its parsed, normalised value; an absent or empty one keeps the old until-build |
| IdeVersions.WildcardSuffixShape | intellij-plugin-structure/src/main/java/com/intellij/structure/impl/domain/PluginImpl.java:344 | Each of `.*`, `.999`, `.9999`, `.99999` starts with its only `.` |
| IdeVersions.NormalizeUntilBuild | intellij-plugin-structure/src/main/java/com/intellij/structure/impl/domain/PluginImpl.java:343-347 | Definition (no contract): an until-build ending in `.*`, `.999`, `.9999` or `.99999` keeps its prefix through the last `.` followed by `Integer.MAX_VALUE`; any other is kept |
| IdeVersions.WildcardUntilBuild | intellij-plugin-structure/src/main/java/com/intellij/structure/impl/domain/PluginImpl.java:344-347 | An until-build with a wildcard ending keeps everything through its last `.` and ends in `2147483647` |
| IdeVersions.PlainUntilBuild | intellij-plugin-structure/src/main/java/com/intellij/structure/impl/domain/PluginImpl.java:343-350 | Any other until-build is parsed as written |
| IdeVersions.NormalizeUntilBuildIdempotent | intellij-plugin-structure/src/main/java/com/intellij/structure/impl/domain/PluginImpl.java:344-347 | Normalising an until-build twice gives what normalising once gives |
| JavaStrings.IntegerMaxValueDigits | intellij-plugin-structure/src/main/java/com/intellij/structure/impl/domain/PluginImpl.java:346 | `Integer.MAX_VALUE` is rendered as `2147483647` |
| JavaStrings.LastIndexOf | intellij-plugin-structure/src/main/java/com/intellij/structure/impl/domain/PluginImpl.java:345 | The result is -1 or a position holding the character |
| JavaStrings.LastIndexOfIsLast | intellij-plugin-structure/src/main/java/com/intellij/structure/impl/domain/PluginImpl.java:345 | No occurrence of the character follows the reported position |
| JavaStrings.NotNullize | intellij-plugin-structure/src/main/java/com/intellij/structure/impl/domain/PluginImpl.java:112 | A missing attribute becomes the empty string; a present one is kept |
| JavaStrings.TrimStartSpec | intellij-plugin-structure/src/main/java/com/intellij/structure/impl/domain/PluginImpl.java:203 | Stripping the front removes only characters at or below U+0020 and leaves a suffix that does not start with one |
| JavaStrings.TrimEndSpec | intellij-plugin-structure/src/main/java/com/intellij/structure/impl/domain/PluginImpl.java:203 | Stripping the back removes only such characters and leaves a prefix that does not end with one |
| JavaStrings.TrimSpec | intellij-plugin-structure/src/main/java/com/intellij/structure/impl/domain/PluginImpl.java:203 | A trimmed value occurs in the original and neither starts nor ends with a blank |
| JavaStrings.Normalize | intellij-plugin-structure/src/main/java/com/intellij/structure/impl/domain/PluginImpl.java:198 | Normalized element text holds no XML white space but single spaces, never two in a row, and none at either end; `NormalizeWord` says words come out unchanged and `NormalizeJoin` that each run between them becomes one space |
| JavaStrings.NonWhiteEmpty | intellij-plugin-structure/src/main/java/com/intellij/structure/impl/domain/PluginImpl.java:198 | A text has no characters but XML white space exactly when removing white space leaves nothing |
| JavaStrings.CollapseKeepsText | intellij-plugin-structure/src/main/java/com/intellij/structure/impl/domain/PluginImpl.java:198 | Collapsing white-space runs keeps every other character, in order |
| JavaStrings.CollapseAllWhite | intellij-plugin-structure/src/main/java/com/intellij/structure/impl/domain/PluginImpl.java:198 | Text made only of white space collapses to nothing |
| JavaStrings.NormalizeKeepsText | intellij-plugin-structure/src/main/java/com/intellij/structure/impl/domain/PluginImpl.java:198 | Normalized text keeps every character of the original that is not white space, in order, and is empty exactly when the original is all white space |
| JavaStrings.CollapseAppend | intellij-plugin-structure/src/main/java/com/intellij/structure/impl/domain/PluginImpl.java:198 | The white-space scan reads a concatenation as its two parts, the second continuing in the state the first leaves |
| JavaStrings.CollapseEndsSpace | intellij-plugin-structure/src/main/java/com/intellij/structure/impl/domain/PluginImpl.java:198 | What the scan writes ends with a space exactly when the text read ends with white space |
| JavaStrings.CollapseJoin | intellij-plugin-structure/src/main/java/com/intellij/structure/impl/domain/PluginImpl.java:198 | Text, a white-space run and more text are written as the first text normalized, one space, then the rest |
| JavaStrings.NormalizeJoin | intellij-plugin-structure/src/main/java/com/intellij/structure/impl/domain/PluginImpl.java:198 | Each white-space run between two pieces of text becomes exactly one space: `a`, the run and `b` normalize to `a` normalized, one space and `b` normalized |
| JavaStrings.CollapseWord | intellij-plugin-structure/src/main/java/com/intellij/structure/impl/domain/PluginImpl.java:198 | Text without white space is written unchanged by the scan |
| JavaStrings.CollapseAroundWord | intellij-plugin-structure/src/main/java/com/intellij/structure/impl/domain/PluginImpl.java:198 | White space, a word and more white space are written as the word followed by at most one space |
| JavaStrings.NormalizeWord | intellij-plugin-structure/src/main/java/com/intellij/structure/impl/domain/PluginImpl.java:198 | A word surrounded by white space normalizes to the word itself: leading and trailing white space go and nothing is inserted; with `NormalizeJoin` this fixes the result on every input |
| JavaStrings.ToLowerStringAt | intellij-plugin-structure/src/main/java/com/intellij/structure/impl/domain/PluginImpl.java:227 | Case folding for `containsIgnoreCase` works character by character |
| Xml.AttributeValue | intellij-plugin-structure/src/main/java/com/intellij/structure/impl/domain/PluginImpl.java:63 | `getAttributeValue` is non-null exactly when the attribute is present, and then it is its value |
| Xml.NamedSpec | intellij-plugin-structure/src/main/java/com/intellij/structure/impl/domain/PluginImpl.java:86 | `getChildren(name)` returns exactly the children with that name and no namespace |
| Xml.NamedAppend | intellij-plugin-structure/src/main/java/com/intellij/structure/impl/domain/PluginImpl.java:86 | `getChildren(name)` keeps document order and multiplicity: the children so named of `a + b` are those of `a` followed by those of `b` |
| Xml.NamedFirst | intellij-plugin-structure/src/main/java/com/intellij/structure/impl/domain/PluginImpl.java:114 | The first child so named is the one at the least matching position |
| Xml.ChildSpec | intellij-plugin-structure/src/main/java/com/intellij/structure/impl/domain/PluginImpl.java:114 | `getChild(name)` finds a child exactly when one has that name and no namespace, and what it finds is such a child |
| Xml.ChildIsFirst | intellij-plugin-structure/src/main/java/com/intellij/structure/impl/domain/PluginImpl.java:114 | `getChild(name)` returns the child at the least position with that name and no namespace |
| Xml.DescendantsOfContains | intellij-plugin-structure/src/main/java/com/intellij/structure/impl/domain/PluginImpl.java:191 | Every child is among the descendants visited |
| Xml.DescendantsOfClosed | intellij-plugin-structure/src/main/java/com/intellij/structure/impl/domain/PluginImpl.java:191 | The descendants of every child are among the descendants visited |
| Xml.DescendantsTransitive | intellij-plugin-structure/src/main/java/com/intellij/structure/impl/domain/PluginImpl.java:191 | A descendant of a descendant is a descendant, so the visit reaches every depth |
| ClassReferences.IsInterestingName | intellij-plugin-structure/src/main/java/com/intellij/structure/impl/domain/PluginImpl.java:225-232 | The loop returns true iff the label contains `class`, `interface`, `implementation` or `instance`, ignoring case |
| ClassReferences.Interesting | intellij-plugin-structure/src/main/java/com/intellij/structure/impl/domain/PluginImpl.java:225-232 | Definition (no contract): a label is interesting when it contains `class`, `interface`, `implementation` or `instance`, ignoring case |
| ClassReferences.PartsEnd | intellij-plugin-structure/src/main/java/com/intellij/structure/impl/domain/PluginImpl.java:32 | The run of identifier parts is maximal: every character before the end is a part, and the one at the end is not |
| ClassReferences.MatchEnd | intellij-plugin-structure/src/main/java/com/intellij/structure/impl/domain/PluginImpl.java:32 | A match from an identifier start is a dotted identifier that cannot be extended by a part or by `.` and a start |
| ClassReferences.TokensFrom | intellij-plugin-structure/src/main/java/com/intellij/structure/impl/domain/PluginImpl.java:219-220 | Definition (no contract): from each identifier start, the greedy match is reported and the scan resumes after it; other characters are skipped |
| ClassReferences.TokensFromAreIdentifiers | intellij-plugin-structure/src/main/java/com/intellij/structure/impl/domain/PluginImpl.java:219-221 | Every token `find()` reports from a position on matches `JAVA_CLASS_PATTERN` in full |
| ClassReferences.ClassTokensAreIdentifiers | intellij-plugin-structure/src/main/java/com/intellij/structure/impl/domain/PluginImpl.java:219-221 | Every token found in a text matches the pattern in full |
| ClassReferences.SlashedAt | intellij-plugin-structure/src/main/java/com/intellij/structure/impl/domain/PluginImpl.java:221 | Each `.` becomes `/` and every other character stays |
| ClassReferences.SlashedHasNoDot | intellij-plugin-structure/src/main/java/com/intellij/structure/impl/domain/PluginImpl.java:221 | A slashed name holds no `.` |
| ClassReferences.Harvest | intellij-plugin-structure/src/main/java/com/intellij/structure/impl/domain/PluginImpl.java:218-223 | Definition (no contract): the references `checkIfClass` records are the found tokens, slashed |
| ClassReferences.HarvestShape | intellij-plugin-structure/src/main/java/com/intellij/structure/impl/domain/PluginImpl.java:218-223 | Every reference `checkIfClass` records holds no `.` and is a matched dotted identifier, slashed |
| PluginDescriptor.Plugin.CheckIfClass | intellij-plugin-structure/src/main/java/com/intellij/structure/impl/domain/PluginImpl.java:218-223 | The references become the old ones plus every token found in the text, slashed |
| ClassReferences.NodeHarvestsAt | intellij-plugin-structure/src/main/java/com/intellij/structure/impl/domain/PluginImpl.java:192-215 | The i-th descendant contributes its element node and its text node |
| ClassReferences.ElementNodeHarvest | intellij-plugin-structure/src/main/java/com/intellij/structure/impl/domain/PluginImpl.java:194-207 | Definition (no contract): an element node yields its normalized text when its name is interesting, and each interesting attribute its trimmed value |
| ClassReferences.AttributeHarvest | intellij-plugin-structure/src/main/java/com/intellij/structure/impl/domain/PluginImpl.java:201-205 | Definition (no contract): one attribute yields its trimmed value when its name is interesting |
| ClassReferences.TextNodeHarvest | intellij-plugin-structure/src/main/java/com/intellij/structure/impl/domain/PluginImpl.java:208-214 | Definition (no contract): a text node yields its trimmed text when its parent element has an interesting name |
| ClassReferences.ReferencedClassesIn | intellij-plugin-structure/src/main/java/com/intellij/structure/impl/domain/PluginImpl.java:190-216 | Definition (no contract): the root's own text node, then every descendant element with its text, harvested together |
| ClassReferences.AttributesHarvestAdd | intellij-plugin-structure/src/main/java/com/intellij/structure/impl/domain/PluginImpl.java:201-205 | One more attribute adds what its trimmed value holds when its name is interesting, and nothing otherwise |
| ClassReferences.UnionFromShift | intellij-plugin-structure/src/main/java/com/intellij/structure/impl/domain/PluginImpl.java:191-215 | Adding the nodes' references to `a + b` equals adding `a` to the references added to `b` |
| ClassReferences.AttributesHarvestHasNoDot | intellij-plugin-structure/src/main/java/com/intellij/structure/impl/domain/PluginImpl.java:201-205 | References from attributes hold no `.` |
| ClassReferences.NodesHaveNoDot | intellij-plugin-structure/src/main/java/com/intellij/structure/impl/domain/PluginImpl.java:194-214 | References from an element node or a text node hold no `.` |
| ClassReferences.UnionFromHasNoDot | intellij-plugin-structure/src/main/java/com/intellij/structure/impl/domain/PluginImpl.java:191-215 | Adding dot-free sets to a dot-free set keeps it dot-free |
| ClassReferences.ReferencedClassesHaveNoDot | intellij-plugin-structure/src/main/java/com/intellij/structure/impl/domain/PluginImpl.java:190-216 | No class reference harvested from a descriptor holds a `.` |
| PluginDescriptor.Plugin.ProcessReferencedClasses | intellij-plugin-structure/src/main/java/com/intellij/structure/impl/domain/PluginImpl.java:190-216 | The references gain exactly those of the root's text and of every descendant element and text node |
| PluginDescriptor.Plugin.ProcessNodes | intellij-plugin-structure/src/main/java/com/intellij/structure/impl/domain/PluginImpl.java:191-215 | The loop over descendants adds their references in document order |
| PluginDescriptor.Plugin.ProcessNode | intellij-plugin-structure/src/main/java/com/intellij/structure/impl/domain/PluginImpl.java:194-214 | One element adds its interesting normalized text, its interesting trimmed attributes and its interesting trimmed text node |
| PluginDescriptor.Plugin.ProcessAttributes | intellij-plugin-structure/src/main/java/com/intellij/structure/impl/domain/PluginImpl.java:201-205 | All attributes, in any order, add exactly the union of their harvests |
| PluginDescriptor.Plugin.AllClassesReferencedFromXml | intellij-plugin-structure/src/main/java/com/intellij/structure/impl/domain/PluginImpl.java:397-404 | The result is exactly this descriptor's references together with those of every optional descriptor |
| Extensions.PutGet | intellij-plugin-structure/src/main/java/com/intellij/structure/impl/domain/PluginImpl.java:88 | `put` appends the value to its key's list and changes no other list |
| Extensions.Put | intellij-plugin-structure/src/main/java/com/intellij/structure/impl/domain/PluginImpl.java:88 | Definition (no contract): `put` appends the value to its key's list |
| Extensions.PutAllGet | intellij-plugin-structure/src/main/java/com/intellij/structure/impl/domain/PluginImpl.java:454 | `putAll` appends, under every key, the other multimap's list |
| Extensions.PutAll | intellij-plugin-structure/src/main/java/com/intellij/structure/impl/domain/PluginImpl.java:454 | Definition (no contract): `putAll` appends, under every key of either multimap, the other's list |
| Extensions.ExtractEPName | intellij-plugin-structure/src/main/java/com/intellij/structure/impl/domain/PluginImpl.java:62-77 | The name is the `point` attribute; otherwise the parent's `defaultExtensionNs`, `.` and the element name; otherwise the namespace URI, `.` and the element name |
| Extensions.ChildEntriesAt | intellij-plugin-structure/src/main/java/com/intellij/structure/impl/domain/PluginImpl.java:87-89 | The j-th pair is the j-th child under its extension-point name |
| Extensions.PutEntriesAppend | intellij-plugin-structure/src/main/java/com/intellij/structure/impl/domain/PluginImpl.java:86-90 | Putting two runs of pairs is putting one run after the other |
| Extensions.PutChildrenIsPutEntries | intellij-plugin-structure/src/main/java/com/intellij/structure/impl/domain/PluginImpl.java:87-89 | The inner loop puts exactly the pairs of its `<extensions>` element, in order |
| Extensions.PutRootsIsPutEntries | intellij-plugin-structure/src/main/java/com/intellij/structure/impl/domain/PluginImpl.java:85-91 | The nested loops put exactly the pairs of all `<extensions>` elements, in order |
| Extensions.ValuesUnder | intellij-plugin-structure/src/main/java/com/intellij/structure/impl/domain/PluginImpl.java:85-91 | An element is filed under a name iff it is paired with that name |
| Extensions.PutEntriesGet | intellij-plugin-structure/src/main/java/com/intellij/structure/impl/domain/PluginImpl.java:85-91 | Every name's list gains exactly the elements paired with it, in document order |
| Extensions.EntriesOfContains | intellij-plugin-structure/src/main/java/com/intellij/structure/impl/domain/PluginImpl.java:86-89 | Every child of every `<extensions>` element is paired with its extension-point name |
| Extensions.ExtensionFiled | intellij-plugin-structure/src/main/java/com/intellij/structure/impl/domain/PluginImpl.java:85-91 | Every child of every `<extensions>` element is filed under its extension-point name |
| PluginDescriptor.Plugin.SetExtensions | intellij-plugin-structure/src/main/java/com/intellij/structure/impl/domain/PluginImpl.java:85-91 | The extensions become the old ones with every child of every `<extensions>` child put in document order, and nothing else changes |
| Extensions.ConcatenatedSnoc | intellij-plugin-structure/src/main/java/com/intellij/structure/impl/domain/PluginImpl.java:448-450 | Merging one more multimap appends its list under each key |
| Extensions.PutAllFromGet | intellij-plugin-structure/src/main/java/com/intellij/structure/impl/domain/PluginImpl.java:448-450 | After the merges, each key's list is the old list followed by the optional descriptors' lists, in iteration order |
| PluginDescriptor.Plugin.MergeOptionalConfig | intellij-plugin-structure/src/main/java/com/intellij/structure/impl/domain/PluginImpl.java:453-455 | The extensions become their `putAll` with the optional descriptor's |
| PluginDescriptor.Plugin.MergeOptionalConfigs | intellij-plugin-structure/src/main/java/com/intellij/structure/impl/domain/PluginImpl.java:448-450 | The loop merges the optional descriptors' extensions in iteration order |
| PluginDescriptor.Plugin.SetOptionalDescriptors | intellij-plugin-structure/src/main/java/com/intellij/structure/impl/domain/PluginImpl.java:445-451 | The map is replaced by the given one and the extensions merged in; nothing else changes, and consistency is kept |
| PluginDescriptor.DescriptorMap | intellij-plugin-structure/src/main/java/com/intellij/structure/impl/domain/PluginImpl.java:446-447 | The map's keys are the given file names |
| PluginDescriptor.DescriptorMapValues | intellij-plugin-structure/src/main/java/com/intellij/structure/impl/domain/PluginImpl.java:446-447 | The map's values are exactly the given descriptors |
| PluginDescriptor.DescriptorMapAt | intellij-plugin-structure/src/main/java/com/intellij/structure/impl/domain/PluginImpl.java:446-447 | Each file name is mapped to its own descriptor |
| Dependencies.DependencyOf | intellij-plugin-structure/src/main/java/com/intellij/structure/impl/domain/PluginImpl.java:263-270 | The dependency's id is the trimmed text, and it is optional iff `optional` reads as `true` in any case (default `false`) |
| Dependencies.DeclaredDependenciesAt | intellij-plugin-structure/src/main/java/com/intellij/structure/impl/domain/PluginImpl.java:262-270 | The i-th declared dependency is that of the i-th `<depends>` element |
| Dependencies.ConfigFileOf | intellij-plugin-structure/src/main/java/com/intellij/structure/impl/domain/PluginImpl.java:277-282 | A config file is recorded iff the dependency is optional and names one, and it is the attribute's value |
| Dependencies.ConfigEntriesAt | intellij-plugin-structure/src/main/java/com/intellij/structure/impl/domain/PluginImpl.java:262-283 | The i-th entry pairs the i-th dependency with its config file |
| Dependencies.PartitionClassified | intellij-plugin-structure/src/main/java/com/intellij/structure/impl/domain/PluginImpl.java:271-275 | Module dependencies all carry the `com.intellij.modules.` prefix; plugin dependencies never do |
| Dependencies.ModuleDependencies | intellij-plugin-structure/src/main/java/com/intellij/structure/impl/domain/PluginImpl.java:271-272 | Definition (no contract): the declared dependencies with the module prefix, in order |
| Dependencies.PluginDependencies | intellij-plugin-structure/src/main/java/com/intellij/structure/impl/domain/PluginImpl.java:273-274 | Definition (no contract): the declared dependencies without the module prefix, in order |
| Dependencies.PartitionComplete | intellij-plugin-structure/src/main/java/com/intellij/structure/impl/domain/PluginImpl.java:271-275 | The two lists together are a permutation of the declared dependencies |
| Dependencies.PartitionAppend | intellij-plugin-structure/src/main/java/com/intellij/structure/impl/domain/PluginImpl.java:262-275 | The split of a concatenation is the concatenation of the splits, so document order survives |
| Dependencies.SplitFrom | intellij-plugin-structure/src/main/java/com/intellij/structure/impl/domain/PluginImpl.java:262-275 | After n iterations, each list is its old contents followed by that kind among the first n dependencies |
| Dependencies.SplitAll | intellij-plugin-structure/src/main/java/com/intellij/structure/impl/domain/PluginImpl.java:262-284 | After the loop, each list is its old contents followed by that kind among all declared dependencies |
| Dependencies.PartitionCovers | intellij-plugin-structure/src/main/java/com/intellij/structure/impl/domain/PluginImpl.java:271-275 | Every declared dependency is in one of the two lists |
| Dependencies.ConfigFilesKeys | intellij-plugin-structure/src/main/java/com/intellij/structure/impl/domain/PluginImpl.java:277-282 | Existing config files stay, and each new key comes from an entry that names a file |
| Dependencies.EntriesMatchDeclared | intellij-plugin-structure/src/main/java/com/intellij/structure/impl/domain/PluginImpl.java:262-283 | The config entries pair each declared dependency with a file only when it is optional |
| Dependencies.DeclaringKeepsConsistent | intellij-plugin-structure/src/main/java/com/intellij/structure/impl/domain/PluginImpl.java:259-285 | Adding declared dependencies with their files keeps the split and the file map consistent |
| Dependencies.DeclaringElementsKeepsConsistent | intellij-plugin-structure/src/main/java/com/intellij/structure/impl/domain/PluginImpl.java:259-285 | Reading `<depends>` elements keeps a consistent descriptor consistent |
| Dependencies.ConfigFilesOnlyOptional | intellij-plugin-structure/src/main/java/com/intellij/structure/impl/domain/PluginImpl.java:277-282 | Only optional dependencies gain config files, and recorded ones stay |
| Dependencies.OnlyOptionalEntries | intellij-plugin-structure/src/main/java/com/intellij/structure/impl/domain/PluginImpl.java:277-282 | Entries that name files only for optional dependencies add only optional keys |
| Dependencies.ConfigFilesComplete | intellij-plugin-structure/src/main/java/com/intellij/structure/impl/domain/PluginImpl.java:277-282 | Every optional dependency that names a config file has one recorded |
| Dependencies.ConfigFilesRecorded | intellij-plugin-structure/src/main/java/com/intellij/structure/impl/domain/PluginImpl.java:277-282 | After n iterations, every such dependency among the first n has a config file recorded |
| Dependencies.ConfigFileOfLast | intellij-plugin-structure/src/main/java/com/intellij/structure/impl/domain/PluginImpl.java:280 | A later `put` for the same dependency wins |
| Dependencies.ConfigFileLastWins | intellij-plugin-structure/src/main/java/com/intellij/structure/impl/domain/PluginImpl.java:277-282 | The config file recorded for a dependency is that of the last `<depends>` entry naming one for it |
| Dependencies.ConfigFileUntouched | intellij-plugin-structure/src/main/java/com/intellij/structure/impl/domain/PluginImpl.java:277-282 | A dependency for which no entry names a file keeps whatever config file it had, or stays absent |
| PluginDescriptor.Plugin.DeclareDependency | intellij-plugin-structure/src/main/java/com/intellij/structure/impl/domain/PluginImpl.java:263-282 | One `<depends>` element appends its dependency to exactly one list and records its config file when optional |
| PluginDescriptor.Plugin.DeclareDependencies | intellij-plugin-structure/src/main/java/com/intellij/structure/impl/domain/PluginImpl.java:262-284 | The loop appends the module and plugin dependencies in document order and records the config files |
| PluginDescriptor.Plugin.SetPluginDependencies | intellij-plugin-structure/src/main/java/com/intellij/structure/impl/domain/PluginImpl.java:259-285 | Only the two lists and the config-file map change, as `WithDependencies` says |
| PluginDescriptor.Plugin.SetDefinedModules | intellij-plugin-structure/src/main/java/com/intellij/structure/impl/domain/PluginImpl.java:324-329 | The defined modules gain the `value` of every `<module>` child (`null` when missing); nothing else changes |
| PluginDescriptor.Plugin.SetComponents | intellij-plugin-structure/src/main/java/com/intellij/structure/impl/domain/PluginImpl.java:177-188 | References, then extensions, and nothing else |
| PluginDescriptor.Plugin.SetName | intellij-plugin-structure/src/main/java/com/intellij/structure/impl/domain/PluginImpl.java:102-112 | Name, id (the name when `<id>` is absent) and url are set; a null or empty name is reported |
| PluginDescriptor.Plugin.SetVendor | intellij-plugin-structure/src/main/java/com/intellij/structure/impl/domain/PluginImpl.java:114-122 | A missing `<vendor>` is reported and changes nothing; otherwise vendor, e-mail and url are set |
| PluginDescriptor.Plugin.SetVersion | intellij-plugin-structure/src/main/java/com/intellij/structure/impl/domain/PluginImpl.java:124-127 | The version is set; only a missing `<version>` is reported |
| PluginDescriptor.Plugin.SetHeader | intellij-plugin-structure/src/main/java/com/intellij/structure/impl/domain/PluginImpl.java:102-127 | The header fields are set and their warnings reported in source order |
| PluginDescriptor.Plugin.SetIdeaVersion | intellij-plugin-structure/src/main/java/com/intellij/structure/impl/domain/PluginImpl.java:129-134 | A missing `<idea-version>` is reported and changes nothing; otherwise `setSinceUntilBuilds` runs and its exception is passed on |
| PluginDescriptor.Plugin.SetDescriptionAndNotes | intellij-plugin-structure/src/main/java/com/intellij/structure/impl/domain/PluginImpl.java:142-158 | A non-empty description is cleaned and set, an empty one reported; the first `<change-notes>`, when its trimmed text is non-empty, is cleaned and set |
| PluginDescriptor.Plugin.SetBody | intellij-plugin-structure/src/main/java/com/intellij/structure/impl/domain/PluginImpl.java:136-158 | Components, dependencies, modules, then description and notes |
| PluginDescriptor.Plugin.CheckAndSetEntries | intellij-plugin-structure/src/main/java/com/intellij/structure/impl/domain/PluginImpl.java:93-159 | The exception is `ReadError`, the warnings are those reported before the reading ends, the new fields are `AfterEntries` of the old, and consistency is kept |
| PluginDescriptor.HeaderWarningsSpec | intellij-plugin-structure/src/main/java/com/intellij/structure/impl/domain/PluginImpl.java:102-127 | Each header warning is reported iff its condition holds |
| PluginDescriptor.StructureWarningsSpec | intellij-plugin-structure/src/main/java/com/intellij/structure/impl/domain/PluginImpl.java:102-147 | Each of the five warnings is reported iff its condition holds; the description warning only when the reading got that far |
| PluginDescriptor.HeaderWarnings | intellij-plugin-structure/src/main/java/com/intellij/structure/impl/domain/PluginImpl.java:102-127 | Definition (no contract): the name, vendor and version warnings, in source order |
| PluginDescriptor.StructureWarnings | intellij-plugin-structure/src/main/java/com/intellij/structure/impl/domain/PluginImpl.java:102-147 | Definition (no contract): the header warnings, the missing `<idea-version>` warning, then the empty-description warning when the body is reached |
| PluginDescriptor.WithName | intellij-plugin-structure/src/main/java/com/intellij/structure/impl/domain/PluginImpl.java:102-112 | Definition (no contract): name, id (the name when `<id>` is absent) and url |
| PluginDescriptor.WithVendor | intellij-plugin-structure/src/main/java/com/intellij/structure/impl/domain/PluginImpl.java:114-122 | Definition (no contract): vendor text, e-mail and url when `<vendor>` is present |
| PluginDescriptor.WithVersion | intellij-plugin-structure/src/main/java/com/intellij/structure/impl/domain/PluginImpl.java:124-127 | Definition (no contract): the version text |
| PluginDescriptor.WithHeader | intellij-plugin-structure/src/main/java/com/intellij/structure/impl/domain/PluginImpl.java:102-127 | Definition (no contract): name, vendor and version, in source order |
| PluginDescriptor.WithBuilds | intellij-plugin-structure/src/main/java/com/intellij/structure/impl/domain/PluginImpl.java:331-356 | Definition (no contract): nothing for a legacy element; otherwise the since-build once it parses, then the normalized until-build once it parses |
| PluginDescriptor.WithIdeaVersion | intellij-plugin-structure/src/main/java/com/intellij/structure/impl/domain/PluginImpl.java:129-134 | Definition (no contract): the builds of a present `<idea-version>` |
| PluginDescriptor.WithReferences | intellij-plugin-structure/src/main/java/com/intellij/structure/impl/domain/PluginImpl.java:190-216 | Definition (no contract): the references gain the harvest of the whole document |
| PluginDescriptor.WithExtensions | intellij-plugin-structure/src/main/java/com/intellij/structure/impl/domain/PluginImpl.java:85-91 | Definition (no contract): every `<extensions>` child put under its extension-point name |
| PluginDescriptor.WithComponents | intellij-plugin-structure/src/main/java/com/intellij/structure/impl/domain/PluginImpl.java:177-188 | Definition (no contract): references, then extensions |
| PluginDescriptor.WithDependencies | intellij-plugin-structure/src/main/java/com/intellij/structure/impl/domain/PluginImpl.java:259-285 | Definition (no contract): the `<depends>` elements split into the two lists, with their config files recorded |
| PluginDescriptor.WithModules | intellij-plugin-structure/src/main/java/com/intellij/structure/impl/domain/PluginImpl.java:324-329 | Definition (no contract): the `value` of every `<module>` child added |
| PluginDescriptor.WithDescription | intellij-plugin-structure/src/main/java/com/intellij/structure/impl/domain/PluginImpl.java:142-158 | Definition (no contract): the cleaned description when non-empty, and the first non-empty change-notes cleaned |
| PluginDescriptor.ReadBody | intellij-plugin-structure/src/main/java/com/intellij/structure/impl/domain/PluginImpl.java:136-158 | Definition (no contract): components, dependencies, modules, then description and notes |
| PluginDescriptor.AfterEntries | intellij-plugin-structure/src/main/java/com/intellij/structure/impl/domain/PluginImpl.java:93-159 | Definition (no contract): nothing without an `<idea-plugin>` root; otherwise the header, then `<idea-version>`, then the body unless that raised |
| PluginDescriptor.ReadError | intellij-plugin-structure/src/main/java/com/intellij/structure/impl/domain/PluginImpl.java:94-134 | Definition (no contract): a missing root, a root not named `idea-plugin`, or the exception of a present `<idea-version>` |
| PluginDescriptor.ReadErrorSpec | intellij-plugin-structure/src/main/java/com/intellij/structure/impl/domain/PluginImpl.java:93-134 | The reading fails iff the root is missing or is not `<idea-plugin>`, or a non-legacy `<idea-version>` has an unparsable since-build or non-empty normalised until-build |
| PluginDescriptor.IdeaVersionKeepsHeader | intellij-plugin-structure/src/main/java/com/intellij/structure/impl/domain/PluginImpl.java:129-134 | `<idea-version>` changes neither header nor body fields |
| PluginDescriptor.HeaderKeepsBody | intellij-plugin-structure/src/main/java/com/intellij/structure/impl/domain/PluginImpl.java:102-127 | The header changes neither builds nor body fields |
| PluginDescriptor.BodyKeepsHeader | intellij-plugin-structure/src/main/java/com/intellij/structure/impl/domain/PluginImpl.java:136-158 | The body changes neither header fields nor builds |
| PluginDescriptor.ReadBodyFields | intellij-plugin-structure/src/main/java/com/intellij/structure/impl/domain/PluginImpl.java:136-158 | What the body adds to each of its eight fields |
| PluginDescriptor.ReadBodyKeepsConsistent | intellij-plugin-structure/src/main/java/com/intellij/structure/impl/domain/PluginImpl.java:136-140 | Reading the body keeps the dependency split, the config files and the slashed references consistent |
| PluginDescriptor.EntriesKeepConsistent | intellij-plugin-structure/src/main/java/com/intellij/structure/impl/domain/PluginImpl.java:93-159 | A whole read, whether it succeeds or fails, keeps consistency and leaves the optional descriptors alone |
| PluginDescriptor.EntriesNeedPluginRoot | intellij-plugin-structure/src/main/java/com/intellij/structure/impl/domain/PluginImpl.java:94-100 | Without an `<idea-plugin>` root the reading fails and sets nothing |
| PluginDescriptor.EntriesReadHeader | intellij-plugin-structure/src/main/java/com/intellij/structure/impl/domain/PluginImpl.java:102-127 | With an `<idea-plugin>` root the header fields are set, whatever happens afterwards |
| PluginDescriptor.EntriesReadBuilds | intellij-plugin-structure/src/main/java/com/intellij/structure/impl/domain/PluginImpl.java:129-134 | A successful read sets the builds a non-legacy `<idea-version>` gives and keeps them otherwise |
| PluginDescriptor.EntriesReadBody | intellij-plugin-structure/src/main/java/com/intellij/structure/impl/domain/PluginImpl.java:136-158 | A successful read adds references, extensions, dependencies, config files and modules, and sets the cleaned texts |
| PluginDescriptor.EntriesStopAtError | intellij-plugin-structure/src/main/java/com/intellij/structure/impl/domain/PluginImpl.java:129-136 | An exception from `<idea-version>` leaves every body field and the until-build unchanged; an invalid until-build comes after the since-build was set |

## Left out

- Reading the document (`readExternal`) is left out: loading the URL and resolving XInclude are I/O. The model starts from the root element, which may be missing.
- `setLogoContent` is left out, and so are the logo fields. An absolute `http://` or `https://` logo is only recorded as a URL. Any other logo is resolved against the descriptor's own URL and read through `URLUtil.openStream`, usually from the plugin's jar or directory. That read is I/O. On success it stores the bytes and clears the logo URL; any exception is ignored.
- The resolver (`setResolver`, `getPluginResolver`) and the plain getters hold no logic and are left out. The fields they return are public in the model.
- `Jsoup.clean` is the `sanitize` parameter, `IdeVersion.createIdeVersion` is the `parse` parameter, and `compareTo` is the `leq` parameter; their own behaviour is not modelled.
- The `Validator` is left out: its structure warnings are returned instead, and a checked exception cannot occur in the modelled code.
- `ClassReferences.IsIdentifierStart` and `ClassReferences.IsIdentifierPart`: Java's identifier character classes are exact on ASCII only; other characters are treated as non-identifiers.
- `JavaStrings.ToLowerString`: case folding for `containsIgnoreCase` and `parseBoolean` is ASCII only.
- `Xml.ChildrenNamed`: JDOM's lookup by name matches children in no namespace; the model keeps a namespace URI per element but not namespace prefixes or declarations.
- `Xml.Element.attributes`: attributes are keyed by bare name. `getAttributeValue` matches attributes in no namespace, which the model takes as the only ones. It does not capture namespaced attributes, or two attributes sharing a local name, both of which `getAttributes` in `processReferencedClasses` would visit.
- `Xml.Element`: an element's text is one string. The model does not capture JDOM splitting it into several text nodes, each trimmed on its own by `processReferencedClasses`, nor comments or CDATA.
- The `pluginId == null` exception in `setPluginDependencies` cannot be raised, because `getTextTrim` never returns `null`, so it is not modelled.
- `Dependencies.Dependency`: the config-file map is keyed by a dependency value equal on (id, optional). This stands for `PluginDependencyImpl`'s `equals` and `hashCode`, which are not part of this model. Under identity equality, two identical `<depends>` elements would give two map entries instead of one.
- `PluginDescriptor.Plugin.SetOptionalDescriptors` requires that no optional descriptor is the descriptor itself. Merging a multimap into itself is not modelled.
- `PluginDescriptor.Plugin.SetOptionalDescriptors` takes the map's entries in the order its `HashMap` iterates them, as a sequence with distinct names, because that order is not specified.
- `PluginDescriptor.StructureWarningsSpec` states when each warning is reported, but not that each is reported at most once.
