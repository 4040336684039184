# Baritone tweaker manifest assembler, modelled in Dafny

Baritone's build has a Gradle task, `TweakerJsonAssembler`. It writes a launcher version
manifest: a JSON document that tells a Minecraft launcher how to start the game with the
Baritone tweaker loaded. The task runs in four steps:

1. It collects candidate `(configuration, dependency)` pairs from the root project and the
   current project. The four configurations the Minecraft plugin provides are skipped, and
   so is any configuration that cannot be resolved.
2. It credits each file on the `main` runtime classpath to the dependency of the first
   pair whose configuration materialises that file.
3. For each such runtime artifact it builds the Maven-layout jar URL and probes the
   project's repositories in order with HEAD requests.
4. It assembles the manifest: fixed fields derived from `minecraft_version`, plus a
   `libraries` array sorted by dependency name.

This project models those steps. Gradle's resolution engine and the network are replaced
by oracles (`Gradle.Oracles`): whether a configuration resolves, which files a dependency
materialises in a configuration, and what a connection to a URL yields. Sets are modelled
as sequences without duplicates, so that "first match" and sorting have a definite meaning.

Modules, one per step, plus the shared pieces:

- `Wrappers`: `Option` and `Result` (Java's null and thrown exceptions).
- `Text`: Java's `String.compareTo` order and `String.replace(char, char)`.
- `OrderedSets`: `HashSet.add` and `addAll`, with insertion order as the iteration order.
- `Gradle`: dependencies, configurations, projects, repositories, connections, failures
  and the oracles.
- `Json`: the part of Gson's JSON tree the manifest uses.
- `ArtifactUrl`: the jar URL and `getURLOfArtifact`.
- `CandidateCollection`: `getInternalConfigsForProject` and the first loop of `exec`.
- `RuntimeAttribution`: the classpath loop of `exec`.
- `LibraryList`: sorting, the null-group filter and the library entries.
- `TweakerJsonAssembler`: the manifest and `exec` as a whole.

Each loop of the source is a method with a `while` or `for` loop and early returns, as
in the source. The method is proved equal to a fold function. The properties are proved
as lemmas about those functions.

Failure paths and identity, as the code has them:

- Non-HTTP Maven repositories. A Maven repository whose URL is not HTTP (a `file:` URL,
  for instance) is not skipped. The cast to `HttpURLConnection` at line 87 throws a
  `ClassCastException`. That exception is not an `IOException`, so the `catch` at line 95
  does not take it, and the task fails. The model returns `Err(NotHttpConnection(url))`.
  Repositories that are not Maven repositories are skipped.
- Maven repositories without a URL handler. When the repository's URI has a scheme that
  `java.net.URL` has no handler for (`s3:`, for instance), `toURL()` at line 77 throws a
  `MalformedURLException`. That is an `IOException`, so the repository is skipped before
  any jar URL is formed (`Repository.UnconvertibleMaven`).
- Missing provider configuration. `getByName` at lines 65-68 throws when a project lacks
  one of the four provider configurations, and the task fails
  (`Err(UnknownConfiguration(name))`).
- Deduplication. `runtimeArtifacts` at line 122 deduplicates `Dependency` values, not
  `group:name:version` strings. The model does the same. `CoordinateIdentifies` states
  when the string determines the dependency.

## Model

| member | source | states |
|---|---|---|
| `Text.LessOrEqualTotal` | buildSrc/src/main/java/baritone/gradle/task/TweakerJsonAssembler.java:153 | any two names compare one way or the other under `compareTo`, so the sort by name is defined |
| `Text.LessOrEqualTransitive` | buildSrc/src/main/java/baritone/gradle/task/TweakerJsonAssembler.java:153 | the name order is transitive |
| `Text.Replace` | buildSrc/src/main/java/baritone/gradle/task/TweakerJsonAssembler.java:81 | `replace('.', '/')` keeps the length and changes exactly the replaced characters |
| `Text.ReplaceUndone` | buildSrc/src/main/java/baritone/gradle/task/TweakerJsonAssembler.java:81 | replacing back restores a string that did not contain the target character |
| `OrderedSets.Add` | buildSrc/src/main/java/baritone/gradle/task/TweakerJsonAssembler.java:127 | `HashSet.add`: the elements afterwards are the old ones plus `x`, still without duplicates, growing by at most one |
| `OrderedSets.NoDuplicatesCons` | buildSrc/src/main/java/baritone/gradle/task/TweakerJsonAssembler.java:122 | a set with one more element in front is duplicate-free exactly when the element is new and the rest is duplicate-free |
| `OrderedSets.AddAll` | buildSrc/src/main/java/baritone/gradle/task/TweakerJsonAssembler.java:115 | `HashSet.addAll`: the elements afterwards are the union, still without duplicates |
| `Gradle.Named` | buildSrc/src/main/java/baritone/gradle/task/TweakerJsonAssembler.java:65-68 | `getByName` finds a configuration of that name, and finds none exactly when the project has none |
| `Gradle.GetByNameUnique` | buildSrc/src/main/java/baritone/gradle/task/TweakerJsonAssembler.java:65-68 | with unique configuration names, the configuration found under a name is the one carrying it |
| `ArtifactUrl.JarUrlLayout` | buildSrc/src/main/java/baritone/gradle/task/TweakerJsonAssembler.java:78-86 | the jar URL is the base verbatim, with no separator added, then the group path (no `.` left), then `/name/version/name-version.jar`; the group can be read back from its path when the group holds no `/` |
| `ArtifactUrl.ExampleGroupPath` | buildSrc/src/main/java/baritone/gradle/task/TweakerJsonAssembler.java:81 | the group `com.foo` becomes the path `com/foo` |
| `ArtifactUrl.ExampleJarUrl` | buildSrc/src/main/java/baritone/gradle/task/TweakerJsonAssembler.java:78-86 | `com.foo:bar:1.0` at `https://repo.test/` gives `https://repo.test/com/foo/bar/1.0/bar-1.0.jar` |
| `ArtifactUrl.FirstDecisive` | buildSrc/src/main/java/baritone/gradle/task/TweakerJsonAssembler.java:73-96 | the index of the first repository that ends the search (a Maven repository with a URL answering 200 or giving a non-HTTP connection): all before it pass, it decides |
| `ArtifactUrl.MavenUrls` | buildSrc/src/main/java/baritone/gradle/task/TweakerJsonAssembler.java:75-87 | the jar URLs of the Maven repositories whose URI converts to a URL, in declaration order, at most one per repository |
| `ArtifactUrl.MavenUrlsMembers` | buildSrc/src/main/java/baritone/gradle/task/TweakerJsonAssembler.java:75-87 | a URL is in that list exactly when it is the jar URL of some declared Maven repository |
| `ArtifactUrl.FindArtifactFirstDecisive` | buildSrc/src/main/java/baritone/gradle/task/TweakerJsonAssembler.java:72-98 | repositories are tried in order; the first deciding one gives its jar URL (200) or the failure (non-HTTP); with none the result is null; non-Maven repositories, Maven repositories whose URI does not convert to a URL (skipped with no jar URL tried), I/O failures and other statuses never stop the search; exactly the jar URLs of the Maven repositories up to the deciding one are tried, none after it |
| `ArtifactUrl.FoundUrlAnswered` | buildSrc/src/main/java/baritone/gradle/task/TweakerJsonAssembler.java:87-92 | a returned URL is the jar URL of a declared Maven repository and answered 200 |
| `ArtifactUrl.FoundIffSomeAnswered` | buildSrc/src/main/java/baritone/gradle/task/TweakerJsonAssembler.java:72-98 | when the search does not fail, it finds a URL exactly when some Maven repository's jar URL answers 200, and the URL is that of the first repository deciding the search |
| `ArtifactUrl.SingleRepositoryExample` | buildSrc/src/main/java/baritone/gradle/task/TweakerJsonAssembler.java:72-98 | one repository answering 200 yields its jar URL; answering 404 yields null |
| `ArtifactUrl.GetUrlOfArtifact` | buildSrc/src/main/java/baritone/gradle/task/TweakerJsonAssembler.java:72-98 | the loop with its early returns yields the URL of the search specification; the tried jar URLs are a ghost trace, which the source does not return |
| `CandidateCollection.LookupAllSpec` | buildSrc/src/main/java/baritone/gradle/task/TweakerJsonAssembler.java:63-70 | looking up names succeeds exactly when every name is present, and then yields exactly the configurations found |
| `CandidateCollection.InternalConfigsSpec` | buildSrc/src/main/java/baritone/gradle/task/TweakerJsonAssembler.java:63-70 | the internal set exists exactly when all four provider configurations exist; then, configuration names being unique as Gradle keeps them, a configuration is internal exactly when its name is a provider name |
| `CandidateCollection.InternalConfigsForProject` | buildSrc/src/main/java/baritone/gradle/task/TweakerJsonAssembler.java:63-70 | the four lookups and adds, failing at the first missing name, yield the internal set |
| `CandidateCollection.PairsWith` | buildSrc/src/main/java/baritone/gradle/task/TweakerJsonAssembler.java:115 | the pairs of a configuration are exactly that configuration with each of its dependencies |
| `CandidateCollection.CollectFromSpec` | buildSrc/src/main/java/baritone/gradle/task/TweakerJsonAssembler.java:110-116 | the configuration loop succeeds exactly when every consulted configuration resolves, and adds exactly the pairs of the consulted configurations, without duplicates |
| `CandidateCollection.CandidatesSpec` | buildSrc/src/main/java/baritone/gradle/task/TweakerJsonAssembler.java:107-117 | pairs come only from the root and the current project, never from an internal or unresolvable configuration, and all such pairs are present once; collection fails exactly when a provider configuration is missing or a resolution fails |
| `CandidateCollection.CollectCandidates` | buildSrc/src/main/java/baritone/gradle/task/TweakerJsonAssembler.java:107-117 | the nested loops over projects and configurations yield the candidate specification |
| `RuntimeAttribution.MatchIndex` | buildSrc/src/main/java/baritone/gradle/task/TweakerJsonAssembler.java:125-131 | the index of the first pair whose configuration's files contain the file: no earlier pair contains it |
| `RuntimeAttribution.ArtifactsFromSpec` | buildSrc/src/main/java/baritone/gradle/task/TweakerJsonAssembler.java:124-133 | the classpath loop adds exactly the dependencies credited by some file, keeps the set duplicate-free and adds at most one per file |
| `RuntimeAttribution.RuntimeArtifactsSpec` | buildSrc/src/main/java/baritone/gradle/task/TweakerJsonAssembler.java:124-133 | a dependency is a runtime artifact exactly when a classpath file's first matching pair has it; every artifact comes from a candidate pair; no duplicates; at most one per file |
| `RuntimeAttribution.CollectRuntimeArtifacts` | buildSrc/src/main/java/baritone/gradle/task/TweakerJsonAssembler.java:122-133 | the classpath loop with its early return per file yields the attribution specification |
| `LibraryList.NullVersionRendering` | buildSrc/src/main/java/baritone/gradle/task/TweakerJsonAssembler.java:78-159 | a null version prints as `null`: the library name is `group:name:null` (line 159) and the jar URL ends in `/name/null/name-null.jar` (lines 78-86) |
| `LibraryList.CoordinateIdentifies` | buildSrc/src/main/java/baritone/gradle/task/TweakerJsonAssembler.java:159 | a `group:name:version` name determines group, name and printed version when group and name hold no `:` |
| `LibraryList.InsertByNamePermutes` | buildSrc/src/main/java/baritone/gradle/task/TweakerJsonAssembler.java:153 | inserting adds exactly the one dependency |
| `LibraryList.InsertByNameSorted` | buildSrc/src/main/java/baritone/gradle/task/TweakerJsonAssembler.java:153 | inserting by name keeps a list ordered by name |
| `LibraryList.InsertByNameNoDuplicates` | buildSrc/src/main/java/baritone/gradle/task/TweakerJsonAssembler.java:153 | inserting a new dependency into a duplicate-free list keeps it duplicate-free |
| `LibraryList.SortByNameSpec` | buildSrc/src/main/java/baritone/gradle/task/TweakerJsonAssembler.java:153 | the sorted artifacts are ordered by name and a permutation of the artifacts |
| `LibraryList.SortByNameNoDuplicates` | buildSrc/src/main/java/baritone/gradle/task/TweakerJsonAssembler.java:153 | sorting a duplicate-free set of artifacts lists each once |
| `LibraryList.WithGroup` | buildSrc/src/main/java/baritone/gradle/task/TweakerJsonAssembler.java:154-157 | the kept dependencies are exactly those with a non-null group |
| `LibraryList.WithGroupNoDuplicates` | buildSrc/src/main/java/baritone/gradle/task/TweakerJsonAssembler.java:154-157 | the null-group filter keeps a duplicate-free list duplicate-free |
| `LibraryList.WithGroupCount` | buildSrc/src/main/java/baritone/gradle/task/TweakerJsonAssembler.java:154-157 | as many are kept as there are dependencies minus the null-group ones |
| `LibraryList.WithGroupSorted` | buildSrc/src/main/java/baritone/gradle/task/TweakerJsonAssembler.java:153-157 | dropping null groups keeps the name order |
| `LibraryList.NullGroupCountInsert` | buildSrc/src/main/java/baritone/gradle/task/TweakerJsonAssembler.java:153-154 | inserting counts the inserted dependency's null group once |
| `LibraryList.NullGroupCountSort` | buildSrc/src/main/java/baritone/gradle/task/TweakerJsonAssembler.java:153-154 | sorting does not change how many null groups there are |
| `LibraryList.LibrariesFromOk` | buildSrc/src/main/java/baritone/gradle/task/TweakerJsonAssembler.java:153-165 | the library loop succeeds exactly when the search for every dependency with a group does |
| `LibraryList.LibrariesFromEntries` | buildSrc/src/main/java/baritone/gradle/task/TweakerJsonAssembler.java:153-165 | a successful library loop leaves its earlier entries and appends, in order, the entry of each dependency with a group |
| `LibraryList.LibrariesFromSpec` | buildSrc/src/main/java/baritone/gradle/task/TweakerJsonAssembler.java:153-165 | a successful library loop appends one entry per dependency with a group, in order, named `group:name:version` with its search's URL |
| `LibraryList.LibrariesSpec` | buildSrc/src/main/java/baritone/gradle/task/TweakerJsonAssembler.java:152-165 | the libraries are the artifacts with a group, ordered by name, counted as artifacts minus null groups, each listed once when the artifacts have no duplicates, each named `group:name:version` with the URL its search found |
| `LibraryList.BuildLibraries` | buildSrc/src/main/java/baritone/gradle/task/TweakerJsonAssembler.java:152-165 | the loop over the sorted artifacts, skipping null groups, yields the library specification |
| `TweakerJsonAssembler.LibraryJsonFields` | buildSrc/src/main/java/baritone/gradle/task/TweakerJsonAssembler.java:158-164 | a library object's `name` is the library's name; it has `url` exactly when a URL was found, and then that URL |
| `TweakerJsonAssembler.ManifestVersionFields` | buildSrc/src/main/java/baritone/gradle/task/TweakerJsonAssembler.java:135-139 | `id`, `inheritsFrom` and `jar` equal `mcVersion`; `type` is `release` |
| `TweakerJsonAssembler.ManifestTimeFields` | buildSrc/src/main/java/baritone/gradle/task/TweakerJsonAssembler.java:140-142 | `time` and `releaseTime` are the same timestamp |
| `TweakerJsonAssembler.ManifestConstantFields` | buildSrc/src/main/java/baritone/gradle/task/TweakerJsonAssembler.java:143-144 | `downloads` is an empty object and `minimumLauncherVersion` is 0 |
| `TweakerJsonAssembler.ManifestLaunchFields` | buildSrc/src/main/java/baritone/gradle/task/TweakerJsonAssembler.java:145-151 | `mainClass` is `net.minecraft.launchwrapper.Launch` and `arguments.game` is exactly `["--tweakClass", "baritone.launch.BaritoneTweaker"]` |
| `TweakerJsonAssembler.ManifestLibraries` | buildSrc/src/main/java/baritone/gradle/task/TweakerJsonAssembler.java:152-166 | `libraries` is an array of one object per library, in order |
| `TweakerJsonAssembler.AssembleOk` | buildSrc/src/main/java/baritone/gradle/task/TweakerJsonAssembler.java:104-166 | the task succeeds exactly when candidate collection succeeds and the repository search succeeds for every runtime artifact with a group |
| `TweakerJsonAssembler.AssembleSpec` | buildSrc/src/main/java/baritone/gradle/task/TweakerJsonAssembler.java:104-166 | end to end: every runtime artifact comes from a consulted configuration of the root or the current project; the libraries array holds the artifacts with a group, ordered by name, as many as the artifacts minus null groups, none twice, each named `group:name:version`, with `url` exactly when the repository search found one, and then that URL, which answered 200 |
| `TweakerJsonAssembler.AssembleUrls` | buildSrc/src/main/java/baritone/gradle/task/TweakerJsonAssembler.java:72-166 | end to end: a library object has `url` exactly when some declared Maven repository's jar URL for it answered 200, and that `url` is the jar URL of the first repository deciding the search |
| `TweakerJsonAssembler.AssembleDependsOnTimeOnlyThroughTime` | buildSrc/src/main/java/baritone/gradle/task/TweakerJsonAssembler.java:140-142 | two runs on the same inputs differ only in `time` and `releaseTime` |
| `RuntimeAttribution.SingleFileArtifacts` | buildSrc/src/main/java/baritone/gradle/task/TweakerJsonAssembler.java:124-133 | a classpath of one file credited to a dependency gives exactly that runtime artifact |
| `LibraryList.SingleLibrary` | buildSrc/src/main/java/baritone/gradle/task/TweakerJsonAssembler.java:152-165 | one artifact with a group whose search succeeds gives one library entry, named `group:name:version` with that URL |
| `LibraryList.ExampleLibraries` | buildSrc/src/main/java/baritone/gradle/task/TweakerJsonAssembler.java:152-165 | `com.foo:bar:1.0` searched in `https://repo.test/` gives the one entry `com.foo:bar:1.0` with its jar URL on a 200 answer and without a URL on a 404 answer |
| `TweakerJsonAssembler.OneLibrary` | buildSrc/src/main/java/baritone/gradle/task/TweakerJsonAssembler.java:152-166 | a one-entry library list makes `libraries` that entry's object alone |
| `TweakerJsonAssembler.SingleArtifactExample` | buildSrc/src/main/java/baritone/gradle/task/TweakerJsonAssembler.java:104-166 | one classpath file credited to `com.foo:bar:1.0` and one repository `https://repo.test/`: `libraries` is `[{"name": "com.foo:bar:1.0", "url": "https://repo.test/com/foo/bar/1.0/bar-1.0.jar"}]` when the repository answers 200, and the same object without `url` when it answers 404 |
| `TweakerJsonAssembler.NoArtifactExample` | buildSrc/src/main/java/baritone/gradle/task/TweakerJsonAssembler.java:104-166 | with no runtime artifact the task succeeds and `libraries` is an empty array |
| `TweakerJsonAssembler.Exec` | buildSrc/src/main/java/baritone/gradle/task/TweakerJsonAssembler.java:104-166 | the task action's steps, in order and with their failures, yield the manifest specification |

## Left out

- Gradle dependency resolution (`resolve()`, `getAllDependencies()`, `files(dep)`): given data (`Configuration.allDependencies`) and oracles (`Oracles.resolves`, `Oracles.files`). What a failed resolution throws is reduced to `ResolutionFailed`.
- The HTTP connection, the HEAD request and `disconnect`: the oracle `Oracles.probe` maps a URL to a status, an I/O failure or a non-HTTP connection.
- Converting the repository's URI to a URL (`getUrl().toURL()`): the repository URL is taken as the string it prints as. A URI that is not absolute makes `toURL` throw `IllegalArgumentException`; that case is not modelled.
- The source-set lookup (`getByType(SourceSetContainer.class)` at line 121 and `getByName("main")` at line 124): these throw when the extension or the `main` source set is missing. The model takes the `main` runtime classpath as the given `Build.classpath`, so that failure is not modelled.
- File equality (`file::equals` at line 126): `java.io.File` equality compares paths, and on Windows ignores case. The model represents files by path strings and compares them exactly.
- The values of the unimined provider-configuration constants: that library is not part of this model, so the four names are a parameter (`ProviderNames`).
- `getCurrentTimestamp`: the clock and `SimpleDateFormat` are replaced by the `time` parameter.
- Reading the `minecraft_version` property (a missing property or a non-string value would throw): it is the given string `Build.mcVersion`.
- Gson pretty-printing, creating the output directory and writing the file, with its swallowed `IOException`: these are I/O and a foreign library. `Exec` ends with the JSON tree.
- Logging calls: they have no effect on the result.
- `HashSet` iteration order is unspecified. The model fixes insertion order. No contract claims a particular tie-break among pairs that claim the same file, or among dependencies with equal names.
- Equality of `Configuration` and `Dependency` objects is modelled as structural equality of the datatypes. Gradle uses object identity and its own `equals`.
- `Text.LessOrEqual` compares Unicode scalar values. Java compares UTF-16 code units, and the two orders differ only between supplementary characters and the code units `U+E000`–`U+FFFF`.
- `LibraryList.SortByName` is an insertion sort, which is stable. The stream sort in the source is not promised to be stable over an unordered set, so no contract relies on the order among equal names.
