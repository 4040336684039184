/** The last loop of `exec`: the runtime artifacts sorted by name, those without a group
    dropped, each turned into a library entry with the URL its repositories serve. */
module LibraryList {
  import opened Wrappers
  import opened Text
  import opened OrderedSets
  import opened Gradle
  import opened ArtifactUrl

  /** A library entry: its `name` and, when some repository serves the jar, its `url`. */
  datatype Library = Library(name: string, url: Option<string>)

  /** `dep.getGroup() + ":" + dep.getName() + ":" + dep.getVersion()`. */
  function Coordinate(d: Dependency): string
    requires d.group.Some?
  {
    d.group.value + ":" + d.name + ":" + Show(d.version)
  }

  /** A null version prints as `null`, both in the library name and in the jar URL. */
  lemma NullVersionRendering(base: string, d: Dependency)
    requires d.group.Some? && d.version.None?
    ensures Coordinate(d) == d.group.value + ":" + d.name + ":null"
    ensures JarUrl(base, d) == base + GroupPath(d.group.value) + "/" + d.name + "/null/" + d.name + "-null.jar"
  {
  }

  /** Two strings joined by `:` split back at the first `:` when the left one holds none. */
  lemma ColonSplit(a: string, b: string, x: string, y: string)
    requires ':' !in a && ':' !in b
    requires a + ":" + x == b + ":" + y
    ensures a == b && x == y
  {
    var s, t := a + ":" + x, b + ":" + y;
    assert s[|a|] == ':' && t[|b|] == ':';
    assert forall i :: 0 <= i < |a| ==> s[i] == a[i] && a[i] in a;
    assert forall i :: 0 <= i < |b| ==> t[i] == b[i] && b[i] in b;
    assert |a| == |b|;
    assert a == s[..|a|] && b == t[..|b|];
    assert x == s[|a| + 1..] && y == t[|b| + 1..];
  }

  /** The `name` of a library identifies its dependency's group, name and version,
      provided group and name hold no `:`. */
  lemma CoordinateIdentifies(d1: Dependency, d2: Dependency)
    requires d1.group.Some? && d2.group.Some?
    requires ':' !in d1.group.value && ':' !in d2.group.value && ':' !in d1.name && ':' !in d2.name
    requires Coordinate(d1) == Coordinate(d2)
    ensures d1.group == d2.group && d1.name == d2.name && Show(d1.version) == Show(d2.version)
  {
    var g1, g2 := d1.group.value, d2.group.value;
    assert Coordinate(d1) == g1 + ":" + (d1.name + ":" + Show(d1.version));
    assert Coordinate(d2) == g2 + ":" + (d2.name + ":" + Show(d2.version));
    ColonSplit(g1, g2, d1.name + ":" + Show(d1.version), d2.name + ":" + Show(d2.version));
    ColonSplit(d1.name, d2.name, Show(d1.version), Show(d2.version));
  }

  /** Ordered by `Comparator.comparing(Dependency::getName)`. */
  ghost predicate SortedByName(ds: seq<Dependency>)
  {
    forall i, j :: 0 <= i < j < |ds| ==> LessOrEqual(ds[i].name, ds[j].name)
  }

  function InsertByName(d: Dependency, ds: seq<Dependency>): (r: seq<Dependency>)
  {
    if ds == [] then [d]
    else if LessOrEqual(d.name, ds[0].name) then [d] + ds
    else [ds[0]] + InsertByName(d, ds[1..])
  }

  /** `stream().sorted(Comparator.comparing(Dependency::getName))`, as an insertion sort. */
  function SortByName(ds: seq<Dependency>): (r: seq<Dependency>)
  {
    if ds == [] then [] else InsertByName(ds[0], SortByName(ds[1..]))
  }

  lemma {:induction false} InsertByNamePermutes(d: Dependency, ds: seq<Dependency>)
    ensures multiset(InsertByName(d, ds)) == multiset(ds) + multiset{d}
  {
    if ds != [] && !LessOrEqual(d.name, ds[0].name) {
      InsertByNamePermutes(d, ds[1..]);
      assert ds == [ds[0]] + ds[1..];
    }
  }

  /** Every name after the head of a sorted list is at least the head's. */
  lemma HeadIsLeast(ds: seq<Dependency>, x: Dependency)
    requires SortedByName(ds) && ds != [] && x in ds[1..]
    ensures LessOrEqual(ds[0].name, x.name)
  {
    var k :| 0 <= k < |ds[1..]| && ds[1..][k] == x;
    assert ds[k + 1] == x;
  }

  /** A name no greater than every name of a sorted list may go in front of it. */
  lemma ConsSorted(d: Dependency, ds: seq<Dependency>)
    requires SortedByName(ds)
    requires forall x :: x in ds ==> LessOrEqual(d.name, x.name)
    ensures SortedByName([d] + ds)
  {
    var r := [d] + ds;
    forall i, j | 0 <= i < j < |r|
      ensures LessOrEqual(r[i].name, r[j].name)
    {
      if i == 0 {
        assert r[j] == ds[j - 1];
      } else {
        assert r[i] == ds[i - 1] && r[j] == ds[j - 1];
      }
    }
  }

  lemma {:induction false} InsertByNameSorted(d: Dependency, ds: seq<Dependency>)
    requires SortedByName(ds)
    ensures SortedByName(InsertByName(d, ds))
  {
    if ds == [] {
    } else if LessOrEqual(d.name, ds[0].name) {
      var r := InsertByName(d, ds);
      forall i, j | 0 <= i < j < |r|
        ensures LessOrEqual(r[i].name, r[j].name)
      {
        if i == 0 && j > 1 {
          LessOrEqualTransitive(d.name, ds[0].name, ds[j - 1].name);
        } else if i > 0 {
          assert r[i] == ds[i - 1] && r[j] == ds[j - 1];
        }
      }
    } else {
      InsertByNameSorted(d, ds[1..]);
      InsertByNamePermutes(d, ds[1..]);
      LessOrEqualTotal(d.name, ds[0].name);
      var rest := InsertByName(d, ds[1..]);
      forall x | x in rest
        ensures LessOrEqual(ds[0].name, x.name)
      {
        assert x in multiset(rest);
        if x != d {
          assert x in multiset(ds[1..]);
          HeadIsLeast(ds, x);
        }
      }
      ConsSorted(ds[0], rest);
    }
  }

  /** The sorted list is ordered by name and holds the same dependencies as often. */
  lemma {:induction false} SortByNameSpec(ds: seq<Dependency>)
    ensures SortedByName(SortByName(ds))
    ensures multiset(SortByName(ds)) == multiset(ds)
  {
    if ds != [] {
      SortByNameSpec(ds[1..]);
      InsertByNameSorted(ds[0], SortByName(ds[1..]));
      InsertByNamePermutes(ds[0], SortByName(ds[1..]));
      assert ds == [ds[0]] + ds[1..];
    }
  }

  lemma {:induction false} InsertByNameNoDuplicates(d: Dependency, ds: seq<Dependency>)
    requires NoDuplicates(ds) && d !in ds
    ensures NoDuplicates(InsertByName(d, ds))
  {
    if ds == [] {
    } else if LessOrEqual(d.name, ds[0].name) {
      NoDuplicatesCons(d, ds);
    } else {
      NoDuplicatesCons(ds[0], ds[1..]);
      assert ds == [ds[0]] + ds[1..];
      InsertByNameNoDuplicates(d, ds[1..]);
      InsertByNamePermutes(d, ds[1..]);
      var rest := InsertByName(d, ds[1..]);
      assert ds[0] !in multiset(ds[1..]);
      assert ds[0] !in multiset(rest);
      NoDuplicatesCons(ds[0], rest);
    }
  }

  /** Sorting a set of dependencies yields no duplicates. */
  lemma {:induction false} SortByNameNoDuplicates(ds: seq<Dependency>)
    requires NoDuplicates(ds)
    ensures NoDuplicates(SortByName(ds))
  {
    if ds != [] {
      assert ds == [ds[0]] + ds[1..];
      NoDuplicatesCons(ds[0], ds[1..]);
      SortByNameNoDuplicates(ds[1..]);
      SortByNameSpec(ds[1..]);
      assert ds[0] !in multiset(ds[1..]);
      assert ds[0] !in multiset(SortByName(ds[1..]));
      InsertByNameNoDuplicates(ds[0], SortByName(ds[1..]));
    }
  }

  /** The dependencies that have a group, in order. */
  function WithGroup(ds: seq<Dependency>): (r: seq<Dependency>)
    ensures forall d :: d in r <==> d in ds && d.group.Some?
  {
    if ds == [] then []
    else if ds[0].group.Some? then [ds[0]] + WithGroup(ds[1..])
    else WithGroup(ds[1..])
  }

  lemma {:induction false} WithGroupNoDuplicates(ds: seq<Dependency>)
    requires NoDuplicates(ds)
    ensures NoDuplicates(WithGroup(ds))
  {
    if ds != [] {
      assert ds == [ds[0]] + ds[1..];
      NoDuplicatesCons(ds[0], ds[1..]);
      WithGroupNoDuplicates(ds[1..]);
      if ds[0].group.Some? {
        NoDuplicatesCons(ds[0], WithGroup(ds[1..]));
      }
    }
  }

  /** How many dependencies have a null group. */
  function NullGroupCount(ds: seq<Dependency>): nat
  {
    if ds == [] then 0 else (if ds[0].group.None? then 1 else 0) + NullGroupCount(ds[1..])
  }

  lemma {:induction false} WithGroupCount(ds: seq<Dependency>)
    ensures |WithGroup(ds)| == |ds| - NullGroupCount(ds)
  {
    if ds != [] {
      WithGroupCount(ds[1..]);
    }
  }

  lemma {:induction false} WithGroupSorted(ds: seq<Dependency>)
    requires SortedByName(ds)
    ensures SortedByName(WithGroup(ds))
  {
    if ds != [] {
      assert SortedByName(ds[1..]) by {
        forall i, j | 0 <= i < j < |ds[1..]|
          ensures LessOrEqual(ds[1..][i].name, ds[1..][j].name)
        {
          assert ds[1..][i] == ds[i + 1] && ds[1..][j] == ds[j + 1];
        }
      }
      WithGroupSorted(ds[1..]);
      if ds[0].group.Some? {
        var rest := WithGroup(ds[1..]);
        forall x | x in rest
          ensures LessOrEqual(ds[0].name, x.name)
        {
          HeadIsLeast(ds, x);
        }
        ConsSorted(ds[0], rest);
      }
    }
  }

  lemma {:induction false} NullGroupCountInsert(d: Dependency, ds: seq<Dependency>)
    ensures NullGroupCount(InsertByName(d, ds)) == NullGroupCount(ds) + (if d.group.None? then 1 else 0)
  {
    if ds != [] && !LessOrEqual(d.name, ds[0].name) {
      NullGroupCountInsert(d, ds[1..]);
      assert ([ds[0]] + InsertByName(d, ds[1..]))[1..] == InsertByName(d, ds[1..]);
    } else if ds != [] {
      assert ([d] + ds)[1..] == ds;
    }
  }

  lemma {:induction false} NullGroupCountSort(ds: seq<Dependency>)
    ensures NullGroupCount(SortByName(ds)) == NullGroupCount(ds)
  {
    if ds != [] {
      NullGroupCountSort(ds[1..]);
      NullGroupCountInsert(ds[0], SortByName(ds[1..]));
    }
  }

  /** Every listed dependency has a group and a URL lookup that did not fail. */
  ghost predicate AllLookedUp(ds: seq<Dependency>, repos: seq<Repository>, probe: string -> Connection)
  {
    forall d :: d in ds ==> d.group.Some? && FindArtifact(repos, d, probe).url.Ok?
  }

  /** The library entry of a dependency whose lookup did not fail. */
  function Entry(d: Dependency, repos: seq<Repository>, probe: string -> Connection): Library
    requires d.group.Some? && FindArtifact(repos, d, probe).url.Ok?
  {
    Library(Coordinate(d), FindArtifact(repos, d, probe).url.value)
  }

  /** The library loop, from entries already made. */
  function LibrariesFrom(acc: seq<Library>, ds: seq<Dependency>, repos: seq<Repository>, probe: string -> Connection)
    : Result<seq<Library>, Failure>
    decreases |ds|
  {
    if ds == [] then Ok(acc)
    else if ds[0].group.None? then LibrariesFrom(acc, ds[1..], repos, probe)
    else match FindArtifact(repos, ds[0], probe).url
      case Err(e) => Err(e)
      case Ok(u) => LibrariesFrom(acc + [Library(Coordinate(ds[0]), u)], ds[1..], repos, probe)
  }

  function Libraries(artifacts: seq<Dependency>, repos: seq<Repository>, probe: string -> Connection)
    : Result<seq<Library>, Failure>
  {
    LibrariesFrom([], SortByName(artifacts), repos, probe)
  }

  /** One artifact with a group whose search succeeds gives one library entry. */
  lemma SingleLibrary(d: Dependency, repos: seq<Repository>, probe: string -> Connection)
    requires d.group.Some? && FindArtifact(repos, d, probe).url.Ok?
    ensures Libraries([d], repos, probe) == Ok([Library(Coordinate(d), FindArtifact(repos, d, probe).url.value)])
  {
    var lib := Library(Coordinate(d), FindArtifact(repos, d, probe).url.value);
    assert [d][0] == d && [d][1..] == [];
    assert SortByName([d]) == InsertByName(d, []) == [d];
    assert [] + [lib] == [lib];
    assert LibrariesFrom([], [d], repos, probe) == LibrariesFrom([lib], [], repos, probe);
  }

  /** `com.foo:bar:1.0` searched in `https://repo.test/`: one library entry, with the jar
      URL when the repository answers 200 and without one when it answers 404. */
  lemma ExampleLibraries(probe: string -> Connection)
    ensures var d := Dependency(Some("com.foo"), "bar", Some("1.0"));
      var u := "https://repo.test/com/foo/bar/1.0/bar-1.0.jar";
      && (probe(u) == Http(200) ==>
            Libraries([d], [Maven("https://repo.test/")], probe) == Ok([Library("com.foo:bar:1.0", Some(u))]))
      && (probe(u) == Http(404) ==>
            Libraries([d], [Maven("https://repo.test/")], probe) == Ok([Library("com.foo:bar:1.0", None)]))
  {
    var d := Dependency(Some("com.foo"), "bar", Some("1.0"));
    SingleRepositoryExample(probe);
    assert Coordinate(d) == "com.foo:bar:1.0";
    if FindArtifact([Maven("https://repo.test/")], d, probe).url.Ok? {
      SingleLibrary(d, [Maven("https://repo.test/")], probe);
    }
  }

  lemma {:induction false} LibrariesFromOk(acc: seq<Library>, ds: seq<Dependency>, repos: seq<Repository>, probe: string -> Connection)
    ensures LibrariesFrom(acc, ds, repos, probe).Ok? <==> AllLookedUp(WithGroup(ds), repos, probe)
    decreases |ds|
  {
    if ds != [] {
      var u := if ds[0].group.Some? then FindArtifact(repos, ds[0], probe).url else Ok(None);
      var acc' := if ds[0].group.Some? && u.Ok? then acc + [Library(Coordinate(ds[0]), u.value)] else acc;
      LibrariesFromOk(acc', ds[1..], repos, probe);
      if ds[0].group.Some? {
        assert WithGroup(ds) == [ds[0]] + WithGroup(ds[1..]);
        assert ds[0] in WithGroup(ds);
      }
    }
  }

  /** The entries of dependencies whose lookups all succeeded, in order. */
  ghost function Entries(kept: seq<Dependency>, repos: seq<Repository>, probe: string -> Connection): (r: seq<Library>)
    requires AllLookedUp(kept, repos, probe)
    ensures |r| == |kept|
    ensures forall i :: 0 <= i < |kept| ==> r[i] == Entry(kept[i], repos, probe)
  {
    if kept == [] then [] else [Entry(kept[0], repos, probe)] + Entries(kept[1..], repos, probe)
  }

  /** A successful library loop appends the entries of the dependencies with a group. */
  lemma {:induction false} LibrariesFromEntries(acc: seq<Library>, ds: seq<Dependency>, repos: seq<Repository>, probe: string -> Connection)
    requires LibrariesFrom(acc, ds, repos, probe).Ok?
    ensures AllLookedUp(WithGroup(ds), repos, probe)
    ensures LibrariesFrom(acc, ds, repos, probe).value == acc + Entries(WithGroup(ds), repos, probe)
    decreases |ds|
  {
    LibrariesFromOk(acc, ds, repos, probe);
    if ds != [] {
      var rest := WithGroup(ds[1..]);
      if ds[0].group.None? {
        LibrariesFromEntries(acc, ds[1..], repos, probe);
      } else {
        var e := Entry(ds[0], repos, probe);
        assert LibrariesFrom(acc, ds, repos, probe) == LibrariesFrom(acc + [e], ds[1..], repos, probe);
        LibrariesFromEntries(acc + [e], ds[1..], repos, probe);
        var kept := WithGroup(ds);
        assert kept == [ds[0]] + rest;
        assert kept[1..] == rest;
        assert Entries(kept, repos, probe) == [e] + Entries(rest, repos, probe);
        assert acc + [e] + Entries(rest, repos, probe) == acc + ([e] + Entries(rest, repos, probe));
      }
    }
  }

  lemma LibrariesFromSpec(acc: seq<Library>, ds: seq<Dependency>, repos: seq<Repository>, probe: string -> Connection)
    requires LibrariesFrom(acc, ds, repos, probe).Ok?
    ensures AllLookedUp(WithGroup(ds), repos, probe)
    ensures var r := LibrariesFrom(acc, ds, repos, probe).value; var kept := WithGroup(ds);
      && |r| == |acc| + |kept|
      && r[..|acc|] == acc
      && forall i :: 0 <= i < |kept| ==> r[|acc| + i] == Entry(kept[i], repos, probe)
  {
    LibrariesFromEntries(acc, ds, repos, probe);
    var r := LibrariesFrom(acc, ds, repos, probe).value;
    var es := Entries(WithGroup(ds), repos, probe);
    assert r[..|acc|] == acc;
    assert forall i :: 0 <= i < |es| ==> r[|acc| + i] == es[i];
  }

  /** The libraries array holds one entry per runtime artifact with a group, in
      nondecreasing order of dependency name, so as many as the artifacts minus those with
      a null group, and none twice when the artifacts form a set; each entry's `name` is `group:name:version` and its `url` is what the
      repository search found. The list fails exactly when a search failed. */
  lemma LibrariesSpec(artifacts: seq<Dependency>, repos: seq<Repository>, probe: string -> Connection)
    ensures var kept := WithGroup(SortByName(artifacts));
      && SortedByName(kept)
      && (forall d :: d in kept <==> d in artifacts && d.group.Some?)
      && |kept| == |artifacts| - NullGroupCount(artifacts)
      && (NoDuplicates(artifacts) ==> NoDuplicates(kept))
      && (Libraries(artifacts, repos, probe).Ok? <==> AllLookedUp(kept, repos, probe))
      && (Libraries(artifacts, repos, probe).Ok? ==>
            var libs := Libraries(artifacts, repos, probe).value;
            && |libs| == |kept|
            && forall i :: 0 <= i < |kept| ==> libs[i] == Entry(kept[i], repos, probe))
  {
    var sorted := SortByName(artifacts);
    SortByNameSpec(artifacts);
    WithGroupSorted(sorted);
    WithGroupCount(sorted);
    NullGroupCountSort(artifacts);
    if NoDuplicates(artifacts) {
      SortByNameNoDuplicates(artifacts);
      WithGroupNoDuplicates(sorted);
    }
    LibrariesFromOk([], sorted, repos, probe);
    if Libraries(artifacts, repos, probe).Ok? {
      LibrariesFromSpec([], sorted, repos, probe);
    }
    forall d ensures d in sorted <==> d in artifacts {
      assert d in sorted <==> d in multiset(sorted);
      assert d in artifacts <==> d in multiset(artifacts);
    }
  }

  /** The loop over the sorted runtime artifacts that fills `libraries`. */
  method BuildLibraries(artifacts: seq<Dependency>, repos: seq<Repository>, probe: string -> Connection)
    returns (r: Result<seq<Library>, Failure>)
    ensures r == Libraries(artifacts, repos, probe)
  {
    var sorted := SortByName(artifacts);
    var libraries: seq<Library> := [];
    for i := 0 to |sorted|
      invariant LibrariesFrom(libraries, sorted[i..], repos, probe) == Libraries(artifacts, repos, probe)
    {
      var dep := sorted[i];
      assert sorted[i..][1..] == sorted[i + 1..];
      if dep.group.None? {
        continue;
      }
      var url;
      ghost var tried;
      url, tried := GetUrlOfArtifact(repos, dep, probe);
      if url.Err? {
        return Err(url.error);
      }
      libraries := libraries + [Library(Coordinate(dep), url.value)];
    }
    return Ok(libraries);
  }
}
