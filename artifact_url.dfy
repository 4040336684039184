/** `getURLOfArtifact`: the Maven-layout URL of a dependency's jar, and the search of the
    project's repositories for the first one that serves it. */
module ArtifactUrl {
  import opened Wrappers
  import opened Text
  import opened Gradle

  /** The group as a path: every `.` becomes `/`. */
  function GroupPath(group: string): (r: string)
  {
    Replace(group, '.', '/')
  }

  /** `String.format("%s%s/%s/%s/%s-%s.jar", url, group path, name, version, name, version)`.
      No separator is inserted between the repository URL and the group path. */
  function JarUrl(base: string, d: Dependency): string
    requires d.group.Some?
  {
    base + GroupPath(d.group.value) + "/" + d.name + "/" + Show(d.version) + "/" + d.name + "-" + Show(d.version) + ".jar"
  }

  /** The layout of a jar URL: the base verbatim, then the group path (which holds no `.`),
      then `/name/version/name-version.jar`; and the group can be read back from its path
      when it contains no `/`. */
  lemma JarUrlLayout(base: string, d: Dependency)
    requires d.group.Some?
    ensures var u := JarUrl(base, d); var g := d.group.value; var v := Show(d.version);
      && u[..|base|] == base
      && u[|base|..|base| + |g|] == GroupPath(g)
      && '.' !in GroupPath(g)
      && u[|base| + |g|..] == "/" + d.name + "/" + v + "/" + d.name + "-" + v + ".jar"
      && ('/' !in g ==> Replace(u[|base|..|base| + |g|], '/', '.') == g)
  {
    var g := d.group.value;
    var v := Show(d.version);
    var tail := "/" + d.name + "/" + v + "/" + d.name + "-" + v + ".jar";
    var u := JarUrl(base, d);
    assert u == base + GroupPath(g) + tail;
    if '/' !in g {
      ReplaceUndone(g, '.', '/');
    }
  }

  /** What a lookup yields: the URL found (or the exception that escaped) and the jar URLs
      that were formed and tried, in order. */
  datatype Lookup = Lookup(url: Result<Option<string>, Failure>, tried: seq<string>)

  /** The loop of `getURLOfArtifact` as a specification. */
  function FindArtifact(repos: seq<Repository>, d: Dependency, probe: string -> Connection): Lookup
    requires d.group.Some?
  {
    if repos == [] then Lookup(Ok(None), [])
    else match repos[0]
      case UnconvertibleMaven => FindArtifact(repos[1..], d, probe)
      case OtherRepository => FindArtifact(repos[1..], d, probe)
      case Maven(base) =>
        var u := JarUrl(base, d);
        var c := probe(u);
        if c == NotHttp then Lookup(Err(NotHttpConnection(u)), [u])
        else if c == Http(200) then Lookup(Ok(Some(u)), [u])
        else
          var rest := FindArtifact(repos[1..], d, probe);
          Lookup(rest.url, [u] + rest.tried)
  }

  /** A repository ends the search: a Maven repository whose jar URL answers 200 or
      cannot be cast to an HTTP connection. Every other repository is passed over,
      including a Maven repository whose URI does not convert to a URL. */
  predicate Decides(repo: Repository, d: Dependency, probe: string -> Connection)
    requires d.group.Some?
  {
    repo.Maven? && (probe(JarUrl(repo.url, d)) == Http(200) || probe(JarUrl(repo.url, d)) == NotHttp)
  }

  /** The index of the first repository that ends the search, or the number of repositories. */
  function FirstDecisive(repos: seq<Repository>, d: Dependency, probe: string -> Connection): (k: nat)
    requires d.group.Some?
    ensures k <= |repos|
    ensures forall j :: 0 <= j < k ==> !Decides(repos[j], d, probe)
    ensures k < |repos| ==> Decides(repos[k], d, probe)
  {
    if repos == [] then 0
    else if Decides(repos[0], d, probe) then 0
    else 1 + FirstDecisive(repos[1..], d, probe)
  }

  /** The jar URLs of the Maven repositories among `repos` whose URI converts to a URL,
      in declaration order. */
  function MavenUrls(repos: seq<Repository>, d: Dependency): (r: seq<string>)
    requires d.group.Some?
    ensures |r| <= |repos|
  {
    if repos == [] then []
    else (if repos[0].Maven? then [JarUrl(repos[0].url, d)] else []) + MavenUrls(repos[1..], d)
  }

  /** Exactly the jar URLs of the repositories declared as Maven repositories with a URL
      are listed. */
  lemma {:induction false} MavenUrlsMembers(repos: seq<Repository>, d: Dependency)
    requires d.group.Some?
    ensures forall u :: u in MavenUrls(repos, d) <==>
      exists i :: 0 <= i < |repos| && repos[i].Maven? && u == JarUrl(repos[i].url, d)
  {
    if repos != [] {
      MavenUrlsMembers(repos[1..], d);
      forall u
        ensures u in MavenUrls(repos, d) <==>
          exists i :: 0 <= i < |repos| && repos[i].Maven? && u == JarUrl(repos[i].url, d)
      {
        if u in MavenUrls(repos[1..], d) {
          var i :| 0 <= i < |repos[1..]| && repos[1..][i].Maven? && u == JarUrl(repos[1..][i].url, d);
          assert repos[i + 1] == repos[1..][i];
        }
        if exists i :: 0 <= i < |repos| && repos[i].Maven? && u == JarUrl(repos[i].url, d) {
          var i :| 0 <= i < |repos| && repos[i].Maven? && u == JarUrl(repos[i].url, d);
          if i > 0 {
            assert repos[1..][i - 1] == repos[i];
          }
        }
      }
    }
  }

  /** Repositories are tried in declaration order and the first one that ends the search
      decides the result: its jar URL when it answered 200, the failure when its connection
      is not HTTP, and no URL when none ends it. Non-Maven repositories, I/O failures and
      other status codes never stop the search, and no repository after the deciding one
      is tried. */
  lemma {:induction false} FindArtifactFirstDecisive(repos: seq<Repository>, d: Dependency, probe: string -> Connection)
    requires d.group.Some?
    ensures var k := FirstDecisive(repos, d, probe); var r := FindArtifact(repos, d, probe);
      && r.tried == MavenUrls(repos[..if k < |repos| then k + 1 else k], d)
      && (k == |repos| ==> r.url == Ok(None))
      && (k < |repos| ==>
            var u := JarUrl(repos[k].url, d);
            r.url == if probe(u) == NotHttp then Err(NotHttpConnection(u)) else Ok(Some(u)))
  {
    if repos != [] {
      var k := FirstDecisive(repos, d, probe);
      if Decides(repos[0], d, probe) {
        assert k == 0;
        assert repos[..1] == [repos[0]];
        assert MavenUrls(repos[..1], d) == [JarUrl(repos[0].url, d)] + MavenUrls([], d);
      } else {
        var rest := repos[1..];
        FindArtifactFirstDecisive(rest, d, probe);
        var n := if k < |repos| then k + 1 else k;
        assert repos[..n] == [repos[0]] + rest[..n - 1];
        assert repos[..n][1..] == rest[..n - 1];
        assert MavenUrls(repos[..n], d) == (if repos[0].Maven? then [JarUrl(repos[0].url, d)] else []) + MavenUrls(rest[..n - 1], d);
        if k < |repos| {
          assert repos[k] == rest[k - 1];
        }
      }
    }
  }

  /** A URL is reported only when its repository answered 200 to it. */
  lemma FoundUrlAnswered(repos: seq<Repository>, d: Dependency, probe: string -> Connection)
    requires d.group.Some?
    requires FindArtifact(repos, d, probe).url.Ok? && FindArtifact(repos, d, probe).url.value.Some?
    ensures var u := FindArtifact(repos, d, probe).url.value.value;
      && probe(u) == Http(200)
      && exists i :: 0 <= i < |repos| && repos[i].Maven? && u == JarUrl(repos[i].url, d)
  {
    FindArtifactFirstDecisive(repos, d, probe);
  }

  /** When the search does not fail, it finds a URL exactly when some Maven repository's
      jar URL answers 200, and the URL found is that of the first repository deciding the
      search. */
  lemma FoundIffSomeAnswered(repos: seq<Repository>, d: Dependency, probe: string -> Connection)
    requires d.group.Some?
    requires FindArtifact(repos, d, probe).url.Ok?
    ensures var found := FindArtifact(repos, d, probe).url.value;
      && (found.Some? <==>
            exists r :: 0 <= r < |repos| && repos[r].Maven? && probe(JarUrl(repos[r].url, d)) == Http(200))
      && (found.Some? ==>
            && FirstDecisive(repos, d, probe) < |repos|
            && found.value == JarUrl(repos[FirstDecisive(repos, d, probe)].url, d))
  {
    FindArtifactFirstDecisive(repos, d, probe);
    var k := FirstDecisive(repos, d, probe);
    if exists r :: 0 <= r < |repos| && repos[r].Maven? && probe(JarUrl(repos[r].url, d)) == Http(200) {
      var r :| 0 <= r < |repos| && repos[r].Maven? && probe(JarUrl(repos[r].url, d)) == Http(200);
      assert Decides(repos[r], d, probe);
      assert k <= r;
    }
  }

  /** The group `com.foo` lies under the path `com/foo`. */
  lemma ExampleGroupPath()
    ensures GroupPath("com.foo") == "com/foo"
  {
    var gp := GroupPath("com.foo");
    assert |gp| == 7;
    assert forall i :: 0 <= i < 7 ==> gp[i] == "com/foo"[i];
  }

  /** The jar URL of `com.foo:bar:1.0` in a repository at `https://repo.test/`. */
  lemma ExampleJarUrl()
    ensures JarUrl("https://repo.test/", Dependency(Some("com.foo"), "bar", Some("1.0")))
      == "https://repo.test/com/foo/bar/1.0/bar-1.0.jar"
  {
    ExampleGroupPath();
    assert Show(Some("1.0")) == "1.0";
    assert "https://repo.test/" + "com/foo" + "/" + "bar" + "/" + "1.0" + "/" + "bar" + "-" + "1.0" + ".jar"
      == "https://repo.test/com/foo/bar/1.0/bar-1.0.jar";
  }

  lemma SingleRepositoryExample(probe: string -> Connection)
    ensures var d := Dependency(Some("com.foo"), "bar", Some("1.0"));
      var u := "https://repo.test/com/foo/bar/1.0/bar-1.0.jar";
      && (probe(u) == Http(200) ==> FindArtifact([Maven("https://repo.test/")], d, probe).url == Ok(Some(u)))
      && (probe(u) == Http(404) ==> FindArtifact([Maven("https://repo.test/")], d, probe).url == Ok(None))
  {
    ExampleJarUrl();
    var d := Dependency(Some("com.foo"), "bar", Some("1.0"));
    assert [Maven("https://repo.test/")][1..] == [];
    assert FindArtifact([], d, probe).url == Ok(None);
  }

  /** `getURLOfArtifact(dep)` over the project's repositories. */
  method GetUrlOfArtifact(repos: seq<Repository>, d: Dependency, probe: string -> Connection)
    returns (url: Result<Option<string>, Failure>, ghost tried: seq<string>)
    requires d.group.Some?
    ensures url == FindArtifact(repos, d, probe).url
    ensures tried == FindArtifact(repos, d, probe).tried
  {
    tried := [];
    var i := 0;
    while i < |repos|
      invariant 0 <= i <= |repos|
      invariant FindArtifact(repos, d, probe)
        == Lookup(FindArtifact(repos[i..], d, probe).url, tried + FindArtifact(repos[i..], d, probe).tried)
    {
      assert repos[i..][1..] == repos[i + 1..];
      if repos[i].Maven? {
        var jarUrl := JarUrl(repos[i].url, d);
        tried := tried + [jarUrl];
        var connection := probe(jarUrl);
        if connection == NotHttp {
          url := Err(NotHttpConnection(jarUrl));
          return;
        }
        if connection == Http(200) {
          url := Ok(Some(jarUrl));
          return;
        }
      }
      i := i + 1;
    }
    url := Ok(None);
  }
}
