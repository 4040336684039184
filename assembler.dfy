/** The task action `exec`: the manifest with its fixed fields and its libraries array,
    assembled from the candidate pairs, the runtime artifacts and the repository search. */
module TweakerJsonAssembler {
  import opened Wrappers
  import opened OrderedSets
  import opened Gradle
  import opened Json
  import opened ArtifactUrl
  import opened CandidateCollection
  import opened RuntimeAttribution
  import opened LibraryList

  const MainClass := "net.minecraft.launchwrapper.Launch"
  const TweakClass := "baritone.launch.BaritoneTweaker"

  /** What the task reads from the build: the root and the current project, the names of
      the provider configurations, the `main` source set's runtime classpath, the current
      project's repositories in declaration order, and the `minecraft_version` property. */
  datatype Build = Build(
    root: Project,
    current: Project,
    providers: ProviderNames,
    classpath: seq<File>,
    repositories: seq<Repository>,
    mcVersion: string)

  /** A library entry as a JSON object: `name`, then `url` when there is one. */
  function LibraryJson(lib: Library): Json
  {
    match lib.url
    case Some(u) => JObject([("name", JString(lib.name)), ("url", JString(u))])
    case None => JObject([("name", JString(lib.name))])
  }

  /** A library object's `name` is the library's name, and it has a `url` exactly when
      the library has one, and then that one. */
  lemma LibraryJsonFields(lib: Library)
    ensures Get(LibraryJson(lib), "name") == Some(JString(lib.name))
    ensures Get(LibraryJson(lib), "url").Some? <==> lib.url.Some?
    ensures lib.url.Some? ==> Get(LibraryJson(lib), "url") == Some(JString(lib.url.value))
  {
    var ms := LibraryJson(lib).members;
    FindAt(ms, 0);
    if lib.url.Some? {
      FindAt(ms, 1);
    }
  }

  /** The manifest object, its members in the order `exec` adds them. */
  function Manifest(mcVersion: string, time: string, libraries: seq<Library>): Json
  {
    JObject([
      ("id", JString(mcVersion)),
      ("type", JString("release")),
      ("inheritsFrom", JString(mcVersion)),
      ("jar", JString(mcVersion)),
      ("time", JString(time)),
      ("releaseTime", JString(time)),
      ("downloads", JObject([])),
      ("minimumLauncherVersion", JNumber(0)),
      ("mainClass", JString(MainClass)),
      ("arguments", JObject([("game", JArray([JString("--tweakClass"), JString(TweakClass)]))])),
      ("libraries", JArray(seq(|libraries|, i requires 0 <= i < |libraries| => LibraryJson(libraries[i]))))
    ])
  }

  /** `id`, `inheritsFrom` and `jar` are the Minecraft version and `type` is `release`. */
  lemma ManifestVersionFields(mcVersion: string, time: string, libraries: seq<Library>)
    ensures var j := Manifest(mcVersion, time, libraries);
      && Get(j, "id") == Some(JString(mcVersion))
      && Get(j, "type") == Some(JString("release"))
      && Get(j, "inheritsFrom") == Some(JString(mcVersion))
      && Get(j, "jar") == Some(JString(mcVersion))
  {
    var ms := Manifest(mcVersion, time, libraries).members;
    FindAt(ms, 0);
    FindAt(ms, 1);
    FindAt(ms, 2);
    FindAt(ms, 3);
  }

  /** `time` and `releaseTime` are the one timestamp taken. */
  lemma ManifestTimeFields(mcVersion: string, time: string, libraries: seq<Library>)
    ensures var j := Manifest(mcVersion, time, libraries);
      && Get(j, "time") == Some(JString(time))
      && Get(j, "releaseTime") == Some(JString(time))
  {
    var ms := Manifest(mcVersion, time, libraries).members;
    FindAt(ms, 4);
    FindAt(ms, 5);
  }

  /** `downloads` is an empty object and `minimumLauncherVersion` is 0. */
  lemma ManifestConstantFields(mcVersion: string, time: string, libraries: seq<Library>)
    ensures var j := Manifest(mcVersion, time, libraries);
      && Get(j, "downloads") == Some(JObject([]))
      && Get(j, "minimumLauncherVersion") == Some(JNumber(0))
  {
    var ms := Manifest(mcVersion, time, libraries).members;
    FindAt(ms, 6);
    FindAt(ms, 7);
  }

  /** `mainClass` is the launchwrapper entry point and `arguments.game` names the Baritone
      tweaker. */
  lemma ManifestLaunchFields(mcVersion: string, time: string, libraries: seq<Library>)
    ensures var j := Manifest(mcVersion, time, libraries);
      && Get(j, "mainClass") == Some(JString("net.minecraft.launchwrapper.Launch"))
      && Get(j, "arguments").Some?
      && Get(Get(j, "arguments").value, "game")
           == Some(JArray([JString("--tweakClass"), JString("baritone.launch.BaritoneTweaker")]))
  {
    var ms := Manifest(mcVersion, time, libraries).members;
    FindAt(ms, 8);
    FindAt(ms, 9);
    FindAt(ms[9].1.members, 0);
  }

  /** `libraries` holds one object per library, in order. */
  lemma ManifestLibraries(mcVersion: string, time: string, libraries: seq<Library>)
    ensures var j := Manifest(mcVersion, time, libraries);
      && Get(j, "libraries").Some? && Get(j, "libraries").value.JArray?
      && var items := Get(j, "libraries").value.items;
         |items| == |libraries| && forall i :: 0 <= i < |libraries| ==> items[i] == LibraryJson(libraries[i])
  {
    var ms := Manifest(mcVersion, time, libraries).members;
    FindAt(ms, 10);
  }

  /** The whole task action as a specification; `time` is the timestamp the clock gave. */
  function Assemble(b: Build, o: Oracles, time: string): Result<Json, Failure>
  {
    match Candidates(b.root, b.current, b.providers, o.resolves)
    case Err(e) => Err(e)
    case Ok(pairs) =>
      match Libraries(RuntimeArtifacts(pairs, b.classpath, o.files), b.repositories, o.probe)
      case Err(e) => Err(e)
      case Ok(libraries) => Ok(Manifest(b.mcVersion, time, libraries))
  }

  /** The task succeeds exactly when candidate collection succeeds and the repository
      search for every runtime artifact with a group does. */
  lemma AssembleOk(b: Build, o: Oracles, time: string)
    ensures Assemble(b, o, time).Ok? <==>
      && Candidates(b.root, b.current, b.providers, o.resolves).Ok?
      && AllLookedUp(
           WithGroup(SortByName(RuntimeArtifacts(Candidates(b.root, b.current, b.providers, o.resolves).value, b.classpath, o.files))),
           b.repositories, o.probe)
  {
    if Candidates(b.root, b.current, b.providers, o.resolves).Ok? {
      var pairs := Candidates(b.root, b.current, b.providers, o.resolves).value;
      LibrariesSpec(RuntimeArtifacts(pairs, b.classpath, o.files), b.repositories, o.probe);
    }
  }

  /** On success, the manifest's libraries are, in nondecreasing order of dependency name, the runtime
      artifacts with a group (as many as the artifacts minus those with a null group),
      each named `group:name:version`, with a `url` exactly when the repository search
      found one, and then that URL, which answered 200; no artifact is listed twice. Each
      runtime artifact is the dependency
      of a pair from a consulted configuration of the root or the current project. */
  lemma AssembleSpec(b: Build, o: Oracles, time: string)
    requires Assemble(b, o, time).Ok?
    ensures Candidates(b.root, b.current, b.providers, o.resolves).Ok?
    ensures
      var pairs := Candidates(b.root, b.current, b.providers, o.resolves).value;
      var artifacts := RuntimeArtifacts(pairs, b.classpath, o.files);
      var kept := WithGroup(SortByName(artifacts));
      var j := Assemble(b, o, time).value;
      && (forall d :: d in artifacts ==> exists x :: (x in pairs && x.dependency == d
            && (FromProject(b.root, b.providers, x) || FromProject(b.current, b.providers, x))))
      && SortedByName(kept)
      && (forall d :: d in kept <==> d in artifacts && d.group.Some?)
      && |kept| == |artifacts| - NullGroupCount(artifacts)
      && NoDuplicates(kept)
      && Get(j, "libraries").Some? && Get(j, "libraries").value.JArray?
      && var items := Get(j, "libraries").value.items;
         && |items| == |kept|
         && forall i :: 0 <= i < |kept| ==>
              && kept[i].group.Some?
              && Get(items[i], "name") == Some(JString(Coordinate(kept[i])))
              && var found := FindArtifact(b.repositories, kept[i], o.probe).url;
                 && found.Ok?
                 && (Get(items[i], "url").Some? <==> found.value.Some?)
                 && (found.value.Some? ==>
                       && Get(items[i], "url") == Some(JString(found.value.value))
                       && o.probe(found.value.value) == Http(200))
  {
    var pairs := Candidates(b.root, b.current, b.providers, o.resolves).value;
    var artifacts := RuntimeArtifacts(pairs, b.classpath, o.files);
    var kept := WithGroup(SortByName(artifacts));
    var libraries := Libraries(artifacts, b.repositories, o.probe).value;
    CandidatesSpec(b.root, b.current, b.providers, o.resolves);
    RuntimeArtifactsSpec(pairs, b.classpath, o.files);
    LibrariesSpec(artifacts, b.repositories, o.probe);
    ManifestLibraries(b.mcVersion, time, libraries);
    forall i | 0 <= i < |libraries| {
      LibraryJsonFields(libraries[i]);
    }
    forall i | 0 <= i < |kept| && FindArtifact(b.repositories, kept[i], o.probe).url.value.Some?
      ensures o.probe(FindArtifact(b.repositories, kept[i], o.probe).url.value.value) == Http(200)
    {
      assert kept[i] in kept;
      FoundUrlAnswered(b.repositories, kept[i], o.probe);
    }
    forall d | d in artifacts
      ensures exists x :: (x in pairs && x.dependency == d
        && (FromProject(b.root, b.providers, x) || FromProject(b.current, b.providers, x)))
    {
      var i :| 0 <= i < |pairs| && pairs[i].dependency == d;
      assert pairs[i] in pairs;
    }
  }

  /** On success, a library object has a `url` exactly when some declared Maven
      repository's jar URL for it answered 200, and the `url` is then the jar URL of the
      first repository that decides the search. */
  lemma AssembleUrls(b: Build, o: Oracles, time: string)
    requires Assemble(b, o, time).Ok?
    ensures Candidates(b.root, b.current, b.providers, o.resolves).Ok?
    ensures
      var pairs := Candidates(b.root, b.current, b.providers, o.resolves).value;
      var kept := WithGroup(SortByName(RuntimeArtifacts(pairs, b.classpath, o.files)));
      var j := Assemble(b, o, time).value;
      && Get(j, "libraries").Some? && Get(j, "libraries").value.JArray?
      && var items := Get(j, "libraries").value.items;
         && |items| == |kept|
         && forall i :: 0 <= i < |kept| ==>
              && kept[i].group.Some?
              && (Get(items[i], "url").Some? <==>
                    exists r :: 0 <= r < |b.repositories| && b.repositories[r].Maven?
                      && o.probe(JarUrl(b.repositories[r].url, kept[i])) == Http(200))
              && (Get(items[i], "url").Some? ==>
                    && FirstDecisive(b.repositories, kept[i], o.probe) < |b.repositories|
                    && Get(items[i], "url")
                         == Some(JString(JarUrl(b.repositories[FirstDecisive(b.repositories, kept[i], o.probe)].url, kept[i]))))
  {
    AssembleSpec(b, o, time);
    var pairs := Candidates(b.root, b.current, b.providers, o.resolves).value;
    var kept := WithGroup(SortByName(RuntimeArtifacts(pairs, b.classpath, o.files)));
    forall i | 0 <= i < |kept|
      ensures FindArtifact(b.repositories, kept[i], o.probe).url.Ok?
        ==> var found := FindArtifact(b.repositories, kept[i], o.probe).url.value;
        && (found.Some? <==>
              exists r :: 0 <= r < |b.repositories| && b.repositories[r].Maven?
                && o.probe(JarUrl(b.repositories[r].url, kept[i])) == Http(200))
        && (found.Some? ==>
              && FirstDecisive(b.repositories, kept[i], o.probe) < |b.repositories|
              && found.value == JarUrl(b.repositories[FirstDecisive(b.repositories, kept[i], o.probe)].url, kept[i]))
    {
      assert kept[i] in kept;
      if FindArtifact(b.repositories, kept[i], o.probe).url.Ok? {
        FoundIffSomeAnswered(b.repositories, kept[i], o.probe);
      }
    }
  }

  /** When the library list is one entry, `libraries` holds that entry's object alone. */
  lemma OneLibrary(b: Build, o: Oracles, time: string, lib: Library)
    requires Candidates(b.root, b.current, b.providers, o.resolves).Ok?
    requires Libraries(RuntimeArtifacts(Candidates(b.root, b.current, b.providers, o.resolves).value, b.classpath, o.files),
                       b.repositories, o.probe) == Ok([lib])
    ensures Assemble(b, o, time).Ok?
    ensures Get(Assemble(b, o, time).value, "libraries") == Some(JArray([LibraryJson(lib)]))
  {
    ManifestLibraries(b.mcVersion, time, [lib]);
    var items := Get(Assemble(b, o, time).value, "libraries").value.items;
    assert items == [LibraryJson(lib)];
  }

  /** The dependency `com.foo:bar:1.0`, its jar URL in `https://repo.test/`, and the
      library object naming it. */
  const ExampleDependency := Dependency(Some("com.foo"), "bar", Some("1.0"))
  const ExampleUrl := "https://repo.test/com/foo/bar/1.0/bar-1.0.jar"

  /** A build whose one classpath file is credited to `com.foo:bar:1.0` and whose one
      repository is `https://repo.test/`: the libraries array is that dependency's object,
      with the jar URL when the repository answers 200 and without one when it answers
      404. */
  lemma SingleArtifactExample(b: Build, o: Oracles, time: string, f: File)
    requires Candidates(b.root, b.current, b.providers, o.resolves).Ok?
    requires b.classpath == [f]
    requires CreditedTo(Candidates(b.root, b.current, b.providers, o.resolves).value, f, o.files, ExampleDependency)
    requires b.repositories == [Maven("https://repo.test/")]
    requires o.probe(ExampleUrl) == Http(200) || o.probe(ExampleUrl) == Http(404)
    ensures Assemble(b, o, time).Ok?
    ensures o.probe(ExampleUrl) == Http(200) ==>
      Get(Assemble(b, o, time).value, "libraries")
        == Some(JArray([JObject([("name", JString("com.foo:bar:1.0")), ("url", JString(ExampleUrl))])]))
    ensures o.probe(ExampleUrl) == Http(404) ==>
      Get(Assemble(b, o, time).value, "libraries")
        == Some(JArray([JObject([("name", JString("com.foo:bar:1.0"))])]))
  {
    var pairs := Candidates(b.root, b.current, b.providers, o.resolves).value;
    SingleFileArtifacts(pairs, f, o.files, ExampleDependency);
    ExampleLibraries(o.probe);
    var lib := Library("com.foo:bar:1.0", if o.probe(ExampleUrl) == Http(200) then Some(ExampleUrl) else None);
    OneLibrary(b, o, time, lib);
  }

  /** With no runtime artifact, `libraries` is an empty array and the task succeeds. */
  lemma NoArtifactExample(b: Build, o: Oracles, time: string)
    requires Candidates(b.root, b.current, b.providers, o.resolves).Ok?
    requires RuntimeArtifacts(Candidates(b.root, b.current, b.providers, o.resolves).value, b.classpath, o.files) == []
    ensures Assemble(b, o, time).Ok?
    ensures Get(Assemble(b, o, time).value, "libraries") == Some(JArray([]))
  {
    ManifestLibraries(b.mcVersion, time, []);
  }

  /** Two runs on the same build and the same oracles differ at most in the timestamp. */
  lemma AssembleDependsOnTimeOnlyThroughTime(b: Build, o: Oracles, t1: string, t2: string)
    ensures Assemble(b, o, t1).Ok? <==> Assemble(b, o, t2).Ok?
    ensures Assemble(b, o, t1).Ok? ==>
      var m1 := Assemble(b, o, t1).value.members; var m2 := Assemble(b, o, t2).value.members;
      && |m1| == |m2|
      && forall i :: 0 <= i < |m1| && m1[i].0 != "time" && m1[i].0 != "releaseTime" ==> m1[i] == m2[i]
  {
  }

  /** `exec()`, up to building the JSON tree; writing it to the output file is not part of
      this model. */
  method Exec(b: Build, o: Oracles, time: string) returns (r: Result<Json, Failure>)
    ensures r == Assemble(b, o, time)
  {
    var dependencies := CollectCandidates(b.root, b.current, b.providers, o.resolves);
    if dependencies.Err? {
      return Err(dependencies.error);
    }
    var runtimeArtifacts := CollectRuntimeArtifacts(dependencies.value, b.classpath, o.files);
    var libraries := BuildLibraries(runtimeArtifacts, b.repositories, o.probe);
    if libraries.Err? {
      return Err(libraries.error);
    }
    r := Ok(Manifest(b.mcVersion, time, libraries.value));
  }
}
