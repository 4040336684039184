/** The first loop of `exec`: pair every dependency of every eligible configuration of the
    root project and of the current project with its configuration. */
module CandidateCollection {
  import opened Wrappers
  import opened OrderedSets
  import opened Gradle

  /** A `Pair<Configuration, Dependency>`. */
  datatype Candidate = Candidate(configuration: Configuration, dependency: Dependency)

  /** The provider names in the order `getInternalConfigsForProject` looks them up. */
  function ProviderList(names: ProviderNames): seq<string>
  {
    [names.combined, names.client, names.server, names.libraries]
  }

  /** Look up each name in turn and collect the configurations; the first missing name
      fails. */
  function LookupAll(p: Project, ns: seq<string>): Result<set<Configuration>, Failure>
  {
    if ns == [] then Ok({})
    else match GetByName(p, ns[0])
      case None => Err(UnknownConfiguration(ns[0]))
      case Some(c) =>
        match LookupAll(p, ns[1..])
        case Err(e) => Err(e)
        case Ok(cs) => Ok({c} + cs)
  }

  function InternalConfigs(p: Project, names: ProviderNames): Result<set<Configuration>, Failure>
  {
    LookupAll(p, ProviderList(names))
  }

  lemma {:induction false} LookupAllSpec(p: Project, ns: seq<string>)
    ensures LookupAll(p, ns).Ok? <==> forall n :: n in ns ==> GetByName(p, n).Some?
    ensures LookupAll(p, ns).Ok? ==>
      forall c :: c in LookupAll(p, ns).value <==> exists n :: n in ns && GetByName(p, n) == Some(c)
  {
    if ns != [] {
      LookupAllSpec(p, ns[1..]);
      if LookupAll(p, ns).Ok? {
        forall c ensures c in LookupAll(p, ns).value <==> exists n :: n in ns && GetByName(p, n) == Some(c) {
          if c in LookupAll(p, ns[1..]).value {
            var n :| n in ns[1..] && GetByName(p, n) == Some(c);
            assert n in ns;
          }
        }
      }
    }
  }

  /** The internal set exists exactly when the project has all four provider
      configurations, and then a configuration of a project with unique names is internal
      exactly when its name is one of the four. */
  lemma InternalConfigsSpec(p: Project, names: ProviderNames)
    ensures InternalConfigs(p, names).Ok? <==> forall n :: n in ProviderList(names) ==> GetByName(p, n).Some?
    ensures InternalConfigs(p, names).Ok? && UniqueNames(p) ==>
      forall c :: c in p.configurations ==> (c in InternalConfigs(p, names).value <==> c.name in ProviderList(names))
  {
    LookupAllSpec(p, ProviderList(names));
    if InternalConfigs(p, names).Ok? && UniqueNames(p) {
      forall c | c in p.configurations
        ensures c in InternalConfigs(p, names).value <==> c.name in ProviderList(names)
      {
        forall n ensures GetByName(p, n) == Some(c) <==> c.name == n {
          GetByNameUnique(p, n, c);
        }
      }
    }
  }

  /** `getInternalConfigsForProject(project)`. */
  method InternalConfigsForProject(p: Project, names: ProviderNames) returns (r: Result<set<Configuration>, Failure>)
    ensures r == InternalConfigs(p, names)
  {
    ghost var ns := ProviderList(names);
    assert ns[1..] == [names.client, names.server, names.libraries];
    assert ns[1..][1..] == [names.server, names.libraries];
    assert ns[1..][1..][1..] == [names.libraries];
    assert ns[1..][1..][1..][1..] == [];
    var configs: set<Configuration> := {};
    var combined := GetByName(p, names.combined);
    if combined.None? { return Err(UnknownConfiguration(names.combined)); }
    configs := configs + {combined.value};
    var client := GetByName(p, names.client);
    if client.None? {
      assert LookupAll(p, ns[1..]) == Err(UnknownConfiguration(names.client));
      return Err(UnknownConfiguration(names.client));
    }
    configs := configs + {client.value};
    var server := GetByName(p, names.server);
    if server.None? {
      assert LookupAll(p, ns[1..][1..]) == Err(UnknownConfiguration(names.server));
      assert LookupAll(p, ns[1..]) == Err(UnknownConfiguration(names.server));
      return Err(UnknownConfiguration(names.server));
    }
    configs := configs + {server.value};
    var libraries := GetByName(p, names.libraries);
    if libraries.None? {
      assert LookupAll(p, ns[1..][1..][1..]) == Err(UnknownConfiguration(names.libraries));
      assert LookupAll(p, ns[1..][1..]) == Err(UnknownConfiguration(names.libraries));
      assert LookupAll(p, ns[1..]) == Err(UnknownConfiguration(names.libraries));
      return Err(UnknownConfiguration(names.libraries));
    }
    configs := configs + {libraries.value};
    assert LookupAll(p, ns[1..][1..][1..][1..]) == Ok({});
    ghost var tail := {libraries.value} + {};
    assert LookupAll(p, ns[1..][1..][1..]) == Ok(tail);
    tail := {server.value} + tail;
    assert LookupAll(p, ns[1..][1..]) == Ok(tail);
    tail := {client.value} + tail;
    assert LookupAll(p, ns[1..]) == Ok(tail);
    assert configs == {combined.value} + tail;
    return Ok(configs);
  }

  /** The pairs one configuration contributes, one per dependency. */
  function PairsOf(c: Configuration): (r: seq<Candidate>)
  {
    PairsWith(c, c.allDependencies)
  }

  /** `deps.stream().map(dep -> new Pair<>(configuration, dep))`. */
  function PairsWith(c: Configuration, deps: seq<Dependency>): (r: seq<Candidate>)
    ensures forall x :: x in r <==> x.configuration == c && x.dependency in deps
  {
    if deps == [] then [] else [Candidate(c, deps[0])] + PairsWith(c, deps[1..])
  }

  /** A configuration is consulted when it is not internal and can be resolved. */
  predicate Consulted(c: Configuration, internal: set<Configuration>)
  {
    c !in internal && c.canBeResolved
  }

  /** The configuration loop over one project, from accumulated pairs `acc`. */
  function CollectFrom(acc: seq<Candidate>, internal: set<Configuration>, cs: seq<Configuration>, resolves: Configuration -> bool)
    : Result<seq<Candidate>, Failure>
    decreases |cs|
  {
    if cs == [] then Ok(acc)
    else if !Consulted(cs[0], internal) then CollectFrom(acc, internal, cs[1..], resolves)
    else if !resolves(cs[0]) then Err(ResolutionFailed(cs[0].name))
    else CollectFrom(AddAll(acc, PairsOf(cs[0])), internal, cs[1..], resolves)
  }

  /** Carry a project's outcome on to the projects after it. */
  function Continue(r: Result<seq<Candidate>, Failure>, ps: seq<Project>, names: ProviderNames, resolves: Configuration -> bool)
    : Result<seq<Candidate>, Failure>
    decreases |ps|, 1
  {
    match r
    case Err(e) => Err(e)
    case Ok(acc) => CollectProjects(acc, ps, names, resolves)
  }

  /** The project loop. */
  function CollectProjects(acc: seq<Candidate>, ps: seq<Project>, names: ProviderNames, resolves: Configuration -> bool)
    : Result<seq<Candidate>, Failure>
    decreases |ps|, 0
  {
    if ps == [] then Ok(acc)
    else match InternalConfigs(ps[0], names)
      case Err(e) => Err(e)
      case Ok(internal) => Continue(CollectFrom(acc, internal, ps[0].configurations, resolves), ps[1..], names, resolves)
  }

  /** The candidate pairs of the root project, then of the current project. */
  function Candidates(root: Project, current: Project, names: ProviderNames, resolves: Configuration -> bool)
    : Result<seq<Candidate>, Failure>
  {
    CollectProjects([], [root, current], names, resolves)
  }

  /** The pair `x` comes from project `p`: its configuration belongs to `p`, is consulted,
      and declares its dependency. */
  ghost predicate FromProject(p: Project, names: ProviderNames, x: Candidate)
  {
    && InternalConfigs(p, names).Ok?
    && x.configuration in p.configurations
    && Consulted(x.configuration, InternalConfigs(p, names).value)
    && x.dependency in x.configuration.allDependencies
  }

  /** Every consulted configuration of `p` resolves. */
  ghost predicate AllResolve(p: Project, internal: set<Configuration>, resolves: Configuration -> bool)
  {
    forall c :: c in p.configurations && Consulted(c, internal) ==> resolves(c)
  }

  lemma {:induction false} CollectFromSpec(acc: seq<Candidate>, internal: set<Configuration>, cs: seq<Configuration>, resolves: Configuration -> bool)
    ensures CollectFrom(acc, internal, cs, resolves).Ok? <==> forall c :: c in cs && Consulted(c, internal) ==> resolves(c)
    ensures CollectFrom(acc, internal, cs, resolves).Ok? ==>
      && (NoDuplicates(acc) ==> NoDuplicates(CollectFrom(acc, internal, cs, resolves).value))
      && forall x :: x in CollectFrom(acc, internal, cs, resolves).value <==>
           x in acc || (x.configuration in cs && Consulted(x.configuration, internal) && x.dependency in x.configuration.allDependencies)
    decreases |cs|
  {
    if cs != [] {
      var next := if Consulted(cs[0], internal) then AddAll(acc, PairsOf(cs[0])) else acc;
      CollectFromSpec(next, internal, cs[1..], resolves);
      assert forall c :: c in cs <==> c == cs[0] || c in cs[1..];
    }
  }

  /** Candidate pairs come only from the root project and the current project, and from
      each exactly those of its consulted configurations; no pair is held twice. The
      collection succeeds exactly when both projects have their four provider
      configurations and every consulted configuration resolves. */
  lemma CandidatesSpec(root: Project, current: Project, names: ProviderNames, resolves: Configuration -> bool)
    ensures Candidates(root, current, names, resolves).Ok? <==>
      && InternalConfigs(root, names).Ok? && AllResolve(root, InternalConfigs(root, names).value, resolves)
      && InternalConfigs(current, names).Ok? && AllResolve(current, InternalConfigs(current, names).value, resolves)
    ensures Candidates(root, current, names, resolves).Ok? ==>
      var pairs := Candidates(root, current, names, resolves).value;
      && NoDuplicates(pairs)
      && forall x :: x in pairs <==> FromProject(root, names, x) || FromProject(current, names, x)
  {
    assert [root, current][1..] == [current];
    assert [current][1..] == [];
    if InternalConfigs(root, names).Ok? {
      var r1 := InternalConfigs(root, names).value;
      CollectFromSpec([], r1, root.configurations, resolves);
      var first := CollectFrom([], r1, root.configurations, resolves);
      assert Candidates(root, current, names, resolves) == Continue(first, [current], names, resolves);
      if first.Ok? {
        assert Candidates(root, current, names, resolves) == CollectProjects(first.value, [current], names, resolves);
        if InternalConfigs(current, names).Ok? {
          var r2 := InternalConfigs(current, names).value;
          CollectFromSpec(first.value, r2, current.configurations, resolves);
          var second := CollectFrom(first.value, r2, current.configurations, resolves);
          assert Candidates(root, current, names, resolves) == Continue(second, [], names, resolves);
        }
      }
    }
  }

  /** The loops of `exec` that fill `dependencies`. */
  method CollectCandidates(root: Project, current: Project, names: ProviderNames, resolves: Configuration -> bool)
    returns (r: Result<seq<Candidate>, Failure>)
    ensures r == Candidates(root, current, names, resolves)
  {
    var projects := [root, current];
    var dependencies: seq<Candidate> := [];
    var k := 0;
    while k < |projects|
      invariant 0 <= k <= |projects|
      invariant CollectProjects(dependencies, projects[k..], names, resolves) == Candidates(root, current, names, resolves)
    {
      var project := projects[k];
      assert projects[k..][1..] == projects[k + 1..];
      var internal := InternalConfigsForProject(project, names);
      if internal.Err? {
        return Err(internal.error);
      }
      var cs := project.configurations;
      var i := 0;
      while i < |cs|
        invariant 0 <= i <= |cs|
        invariant Continue(CollectFrom(dependencies, internal.value, cs[i..], resolves), projects[k + 1..], names, resolves)
          == Candidates(root, current, names, resolves)
      {
        var configuration := cs[i];
        assert cs[i..][1..] == cs[i + 1..];
        if Consulted(configuration, internal.value) {
          if !resolves(configuration) {
            return Err(ResolutionFailed(configuration.name));
          }
          dependencies := AddAll(dependencies, PairsOf(configuration));
        }
        i := i + 1;
      }
      k := k + 1;
    }
    return Ok(dependencies);
  }
}
