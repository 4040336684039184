/** The parts of Gradle's object model that the manifest task reads. Dependency
    resolution, the files a resolved dependency materialises and the network are not
    modelled: they reach the task as the oracles in `Oracles`. */
module Gradle {
  import opened Wrappers

  /** A path on the runtime classpath. */
  type File = string

  /** A declared dependency. Gradle allows the group and the version to be null. */
  datatype Dependency = Dependency(group: Option<string>, name: string, version: Option<string>)

  /** A configuration of a project: its name (unique within the project), whether it may
      be resolved, and what `getAllDependencies()` returns for it. */
  datatype Configuration = Configuration(name: string, canBeResolved: bool, allDependencies: seq<Dependency>)

  /** A project, seen through its configuration container. */
  datatype Project = Project(configurations: seq<Configuration>)

  /** A declared repository: a Maven repository with the URL its URI converts to; a Maven
      repository whose URI has no `java.net.URL` handler (an `s3:` URI, say), so that
      `toURL()` throws `MalformedURLException`; or any other kind. */
  datatype Repository = Maven(url: string) | UnconvertibleMaven | OtherRepository

  /** What opening a connection to a URL and asking for the status of a HEAD request
      yields: a status code, an `IOException` (which includes a malformed URL), or a
      connection that is not an `HttpURLConnection` (a `file:` URL, say). */
  datatype Connection = Http(status: int) | IoFailure | NotHttp

  /** The exceptions that escape the task and fail the build. */
  datatype Failure =
    | UnknownConfiguration(name: string)   // getByName found no configuration of that name
    | ResolutionFailed(configuration: string)   // configuration.resolve() threw
    | NotHttpConnection(url: string)   // the cast to HttpURLConnection threw

  /** The names of the four configurations the Minecraft plugin (unimined) provides:
      combined, client, server and libraries provider. */
  datatype ProviderNames = ProviderNames(combined: string, client: string, server: string, libraries: string)

  /** The Gradle engine and the network, as functions of their inputs. */
  datatype Oracles = Oracles(
    resolves: Configuration -> bool,   // configuration.resolve() succeeds
    files: (Configuration, Dependency) -> seq<File>,   // configuration.files(dependency)
    probe: string -> Connection)   // a HEAD request to the URL

  /** How Java renders a possibly null string in `String.format("%s")` and in `+`. */
  function Show(s: Option<string>): string
  {
    match s
    case Some(v) => v
    case None => "null"
  }

  /** Configuration names are unique within a project, as Gradle's container keeps them. */
  ghost predicate UniqueNames(p: Project)
  {
    forall i, j :: 0 <= i < j < |p.configurations| ==> p.configurations[i].name != p.configurations[j].name
  }

  function Named(cs: seq<Configuration>, name: string): (r: Option<Configuration>)
    ensures r.Some? ==> r.value in cs && r.value.name == name
    ensures r.None? <==> forall c :: c in cs ==> c.name != name
  {
    if cs == [] then None
    else if cs[0].name == name then Some(cs[0])
    else Named(cs[1..], name)
  }

  /** `project.getConfigurations().getByName(name)`; `None` where Gradle throws. */
  function GetByName(p: Project, name: string): (r: Option<Configuration>)
  {
    Named(p.configurations, name)
  }

  /** With unique names, the configuration found under a name is the only one of the
      project that carries that name. */
  lemma GetByNameUnique(p: Project, name: string, c: Configuration)
    requires UniqueNames(p) && c in p.configurations
    ensures GetByName(p, name) == Some(c) <==> c.name == name
  {
    if c.name == name {
      var r := GetByName(p, name);
      assert r.Some? && r.value in p.configurations;
    }
  }
}
