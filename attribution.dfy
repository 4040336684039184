/** The classpath loop of `exec`: credit each runtime-classpath file to the dependency of
    the first candidate pair whose configuration materialises that file. */
module RuntimeAttribution {
  import opened OrderedSets
  import opened Gradle
  import opened CandidateCollection

  /** `pair.getFirst().files(pair.getSecond()).stream().anyMatch(file::equals)`. */
  predicate Attributes(pair: Candidate, file: File, files: (Configuration, Dependency) -> seq<File>)
  {
    file in files(pair.configuration, pair.dependency)
  }

  /** The index of the first pair that attributes `file`, or the number of pairs. */
  function MatchIndex(pairs: seq<Candidate>, file: File, files: (Configuration, Dependency) -> seq<File>): (k: nat)
    ensures k <= |pairs|
    ensures forall j :: 0 <= j < k ==> !Attributes(pairs[j], file, files)
    ensures k < |pairs| ==> Attributes(pairs[k], file, files)
  {
    if pairs == [] then 0
    else if Attributes(pairs[0], file, files) then 0
    else 1 + MatchIndex(pairs[1..], file, files)
  }

  /** `file` is credited to `d`: the first pair that attributes it has dependency `d`. */
  predicate CreditedTo(pairs: seq<Candidate>, file: File, files: (Configuration, Dependency) -> seq<File>, d: Dependency)
  {
    var k := MatchIndex(pairs, file, files);
    k < |pairs| && pairs[k].dependency == d
  }

  /** What one classpath file adds to `runtimeArtifacts`. */
  function Credit(artifacts: seq<Dependency>, pairs: seq<Candidate>, file: File, files: (Configuration, Dependency) -> seq<File>)
    : seq<Dependency>
  {
    var k := MatchIndex(pairs, file, files);
    if k < |pairs| then Add(artifacts, pairs[k].dependency) else artifacts
  }

  /** The classpath loop, from artifacts already found. */
  function ArtifactsFrom(acc: seq<Dependency>, pairs: seq<Candidate>, classpath: seq<File>, files: (Configuration, Dependency) -> seq<File>)
    : seq<Dependency>
    decreases |classpath|
  {
    if classpath == [] then acc
    else ArtifactsFrom(Credit(acc, pairs, classpath[0], files), pairs, classpath[1..], files)
  }

  function RuntimeArtifacts(pairs: seq<Candidate>, classpath: seq<File>, files: (Configuration, Dependency) -> seq<File>)
    : seq<Dependency>
  {
    ArtifactsFrom([], pairs, classpath, files)
  }

  /** A classpath of one file credited to `d` yields exactly `d`. */
  lemma SingleFileArtifacts(pairs: seq<Candidate>, f: File, files: (Configuration, Dependency) -> seq<File>, d: Dependency)
    requires CreditedTo(pairs, f, files, d)
    ensures RuntimeArtifacts(pairs, [f], files) == [d]
  {
    assert [f][0] == f && [f][1..] == [];
    assert Credit([], pairs, f, files) == [d];
    assert ArtifactsFrom([], pairs, [f], files) == ArtifactsFrom([d], pairs, [], files);
  }

  lemma {:induction false} ArtifactsFromSpec(acc: seq<Dependency>, pairs: seq<Candidate>, classpath: seq<File>, files: (Configuration, Dependency) -> seq<File>)
    ensures var r := ArtifactsFrom(acc, pairs, classpath, files);
      && (forall d :: d in r <==> d in acc || exists f :: f in classpath && CreditedTo(pairs, f, files, d))
      && (NoDuplicates(acc) ==> NoDuplicates(r))
      && |r| <= |acc| + |classpath|
    decreases |classpath|
  {
    if classpath != [] {
      var next := Credit(acc, pairs, classpath[0], files);
      ArtifactsFromSpec(next, pairs, classpath[1..], files);
      var r := ArtifactsFrom(acc, pairs, classpath, files);
      forall d ensures d in r <==> d in acc || exists f :: f in classpath && CreditedTo(pairs, f, files, d) {
        if d in next && d !in acc {
          assert classpath[0] in classpath && CreditedTo(pairs, classpath[0], files, d);
        }
        if exists f :: f in classpath[1..] && CreditedTo(pairs, f, files, d) {
          var f :| f in classpath[1..] && CreditedTo(pairs, f, files, d);
          assert f in classpath;
        }
        if exists f :: f in classpath && CreditedTo(pairs, f, files, d) {
          var f :| f in classpath && CreditedTo(pairs, f, files, d);
          if f == classpath[0] {
            assert d in next;
          } else {
            assert f in classpath[1..];
          }
        }
      }
    }
  }

  /** Each classpath file contributes at most one dependency, the one of the first pair
      whose configuration's files contain it; a file no pair claims contributes nothing.
      So every runtime artifact is the dependency of some candidate pair, none is held
      twice, and there are no more of them than classpath files. */
  lemma RuntimeArtifactsSpec(pairs: seq<Candidate>, classpath: seq<File>, files: (Configuration, Dependency) -> seq<File>)
    ensures var r := RuntimeArtifacts(pairs, classpath, files);
      && (forall d :: d in r <==> exists f :: f in classpath && CreditedTo(pairs, f, files, d))
      && (forall d :: d in r ==> exists i :: 0 <= i < |pairs| && pairs[i].dependency == d)
      && NoDuplicates(r)
      && |r| <= |classpath|
  {
    ArtifactsFromSpec([], pairs, classpath, files);
    var r := RuntimeArtifacts(pairs, classpath, files);
    forall d | d in r
      ensures exists i :: 0 <= i < |pairs| && pairs[i].dependency == d
    {
      var f :| f in classpath && CreditedTo(pairs, f, files, d);
      var k := MatchIndex(pairs, f, files);
      assert pairs[k].dependency == d;
    }
  }

  /** The `forEach` over the runtime classpath, with the `return` that ends the search of
      the pairs for one file. */
  method CollectRuntimeArtifacts(pairs: seq<Candidate>, classpath: seq<File>, files: (Configuration, Dependency) -> seq<File>)
    returns (artifacts: seq<Dependency>)
    ensures artifacts == RuntimeArtifacts(pairs, classpath, files)
  {
    artifacts := [];
    var j := 0;
    while j < |classpath|
      invariant 0 <= j <= |classpath|
      invariant ArtifactsFrom(artifacts, pairs, classpath[j..], files) == RuntimeArtifacts(pairs, classpath, files)
    {
      var file := classpath[j];
      assert classpath[j..][1..] == classpath[j + 1..];
      ghost var before := artifacts;
      var i := 0;
      while i < |pairs|
        invariant 0 <= i <= |pairs|
        invariant artifacts == before
        invariant forall k :: 0 <= k < i ==> !Attributes(pairs[k], file, files)
      {
        if Attributes(pairs[i], file, files) {
          artifacts := Add(artifacts, pairs[i].dependency);
          break;
        }
        i := i + 1;
      }
      assert i < |pairs| ==> MatchIndex(pairs, file, files) == i;
      assert artifacts == Credit(before, pairs, file, files);
      j := j + 1;
    }
  }
}
