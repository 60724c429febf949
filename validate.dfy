/** The four validation rules (the files under commands/validate). Each takes an edge list; the
    file-level list of the whole repository comes from a conversion that is not part
    of this model, so the file rules receive it, or its error, as input. */
module Validate {

  import opened Wrappers
  import opened Graphs
  import opened Dependencies
  import Child
  import Modules
  import Cycle
  import CycleSearch
  import DependencyList
  import ImportPaths
  import Paths

  datatype ValidationFailure =
    | CircularDependency(chain: CycleSearch.CycleChain)
    | ExternalBarrelImport(dependency: Dependency<Child.ChildPath, Child.ChildPath>)
    | BarrelImportsBarrel(dependency: Dependency<Child.ChildPath, Child.ChildPath>)

  /** The error of every rule: its edge list could not be built. */
  datatype ValidateError = CouldNotGetDependencies(cause: DependencyList.FromRepositoryError)

  type FileEdge = Dependency<Child.ChildPath, Child.ChildPath>

  // ---------------------------------------------------------------------------
  // Barrel rules

  /** The failures of the external-barrel rule, in edge order: an edge that is not
      internal and whose target is not a barrel file. */
  function ExternalBarrelFailures(edges: seq<FileEdge>): (r: seq<ValidationFailure>)
    ensures forall f :: f in r ==> f.ExternalBarrelImport?
    ensures forall d :: ExternalBarrelImport(d) in r <==> d in edges && !IsInternal(d, Child.Render) && !d.to.barrel
    ensures NoDup(edges) ==> NoDup(r)
  {
    if edges == [] then []
    else
      var rest := ExternalBarrelFailures(edges[1..]);
      assert forall d :: d in edges <==> d == edges[0] || d in edges[1..];
      var d := edges[0];
      if !IsInternal(d, Child.Render) && !d.to.barrel then [ExternalBarrelImport(d)] + rest else rest
  }

  /** `validate_external_barrel_imports`. */
  function ValidateExternalBarrelImports(dependencies: Result<seq<FileEdge>, DependencyList.FromRepositoryError>)
    : (r: Result<seq<ValidationFailure>, ValidateError>)
    ensures r.Ok? <==> dependencies.Ok?
    ensures r.Err? ==> r.error == CouldNotGetDependencies(dependencies.error)
    ensures r.Ok? ==> forall f :: f in r.value ==> f.ExternalBarrelImport?
    ensures r.Ok? ==> forall d :: ExternalBarrelImport(d) in r.value <==>
      d in dependencies.value && !IsInternal(d, Child.Render) && !d.to.barrel
    ensures r.Ok? && NoDup(dependencies.value) ==> NoDup(r.value)
  {
    match dependencies
    case Err(e) => Err(CouldNotGetDependencies(e))
    case Ok(edges) => Ok(ExternalBarrelFailures(edges))
  }

  /** The failures of the barrel-imports-barrel rule, in edge order: both ends are
      barrel files. */
  function BarrelImportsBarrelFailures(edges: seq<FileEdge>): (r: seq<ValidationFailure>)
    ensures forall f :: f in r ==> f.BarrelImportsBarrel?
    ensures forall d :: BarrelImportsBarrel(d) in r <==> d in edges && d.from.barrel && d.to.barrel
    ensures NoDup(edges) ==> NoDup(r)
  {
    if edges == [] then []
    else
      var rest := BarrelImportsBarrelFailures(edges[1..]);
      assert forall d :: d in edges <==> d == edges[0] || d in edges[1..];
      var d := edges[0];
      if d.from.barrel && d.to.barrel then [BarrelImportsBarrel(d)] + rest else rest
  }

  /** `validate_barrel_imports_barrel`. */
  function ValidateBarrelImportsBarrel(dependencies: Result<seq<FileEdge>, DependencyList.FromRepositoryError>)
    : (r: Result<seq<ValidationFailure>, ValidateError>)
    ensures r.Ok? <==> dependencies.Ok?
    ensures r.Err? ==> r.error == CouldNotGetDependencies(dependencies.error)
    ensures r.Ok? ==> forall f :: f in r.value ==> f.BarrelImportsBarrel?
    ensures r.Ok? ==> forall d :: BarrelImportsBarrel(d) in r.value <==> d in dependencies.value && d.from.barrel && d.to.barrel
    ensures r.Ok? && NoDup(dependencies.value) ==> NoDup(r.value)
  {
    match dependencies
    case Err(e) => Err(CouldNotGetDependencies(e))
    case Ok(edges) => Ok(BarrelImportsBarrelFailures(edges))
  }

  /** The two barrel rules never flag the same edge: one needs a barrel target, the
      other a target that is not one. */
  lemma BarrelRulesAreDisjoint(edges: seq<FileEdge>, d: FileEdge)
    ensures !(ExternalBarrelImport(d) in ExternalBarrelFailures(edges) && BarrelImportsBarrel(d) in BarrelImportsBarrelFailures(edges))
  {
  }

  /** The barrel-imports-barrel rule has no module or internal filter: every edge
      between two barrels is flagged by it, whichever modules they lie in, and by
      the external rule never. */
  lemma BarrelEdgesAreFlagged(edges: seq<FileEdge>, d: FileEdge)
    requires d in edges && d.from.barrel && d.to.barrel
    ensures BarrelImportsBarrel(d) in BarrelImportsBarrelFailures(edges)
    ensures ExternalBarrelImport(d) !in ExternalBarrelFailures(edges)
  {
  }

  // ---------------------------------------------------------------------------
  // Circular rules

  /** Each element rendered, in order. */
  function RenderAll<N>(ns: seq<N>, render: N -> string): (r: seq<string>)
    ensures |r| == |ns| && forall k :: 0 <= k < |ns| ==> r[k] == render(ns[k])
  {
    if ns == [] then [] else [render(ns[0])] + RenderAll(ns[1..], render)
  }

  /** The string map built from a grouped map: one key per rendered source, holding
      the rendered targets of some source that renders to it. */
  ghost predicate RendersGroups<N>(grouped: map<N, seq<N>>, render: N -> string, rendered: Graph)
  {
    && rendered.Keys == (set n | n in grouped :: render(n))
    && forall s :: s in rendered ==> exists n :: n in grouped && render(n) == s && rendered[s] == RenderAll(grouped[n], render)
  }

  /** The `map` and `collect` into `HashMap<String, Vec<String>>`: the grouped map is
      visited in an unspecified order, and when two sources render alike the later
      one overwrites the earlier. A source that no other source renders like keeps
      its own list. */
  method RenderGroups<N(==)>(grouped: map<N, seq<N>>, render: N -> string) returns (rendered: Graph)
    ensures RendersGroups(grouped, render, rendered)
    ensures forall n :: n in grouped && (forall m :: m in grouped && render(m) == render(n) ==> m == n) ==>
      rendered[render(n)] == RenderAll(grouped[n], render)
  {
    rendered := map[];
    var remaining := grouped.Keys;
    while remaining != {}
      invariant remaining <= grouped.Keys
      invariant rendered.Keys == (set n | n in grouped && n !in remaining :: render(n))
      invariant forall s :: s in rendered ==>
        exists n :: n in grouped && n !in remaining && render(n) == s && rendered[s] == RenderAll(grouped[n], render)
      decreases remaining
    {
      var n :| n in remaining;
      rendered := rendered[render(n) := RenderAll(grouped[n], render)];
      remaining := remaining - {n};
    }
  }

  /** The rendered endpoints of an edge. */
  ghost predicate RenderedEdge<N>(edges: seq<Dependency<N, N>>, render: N -> string, a: string, b: string)
  {
    exists d :: d in edges && render(d.from) == a && render(d.to) == b
  }

  /** A closed walk of at least one edge along rendered edges. */
  ghost predicate ClosedWalkOfEdges<N>(edges: seq<Dependency<N, N>>, render: N -> string, w: seq<string>)
  {
    && |w| >= 2 && w[0] == w[|w| - 1]
    && forall i :: 0 <= i < |w| - 1 ==> RenderedEdge(edges, render, w[i], w[i + 1])
  }

  ghost predicate AcyclicEdges<N>(edges: seq<Dependency<N, N>>, render: N -> string)
  {
    forall w :: !ClosedWalkOfEdges(edges, render, w)
  }

  /** Each edge of the string map is the rendering of an edge of the list. */
  lemma RenderedGraphEdge<N>(edges: seq<Dependency<N, N>>, grouped: map<N, seq<N>>, render: N -> string, rendered: Graph, a: string, b: string)
    requires forall f, t :: f in grouped ==> (t in grouped[f] <==> Dependency(f, t) in edges)
    requires RendersGroups(grouped, render, rendered)
    requires Edge(rendered, a, b)
    ensures RenderedEdge(edges, render, a, b)
  {
    var n :| n in grouped && render(n) == a && rendered[a] == RenderAll(grouped[n], render);
    var k :| 0 <= k < |rendered[a]| && rendered[a][k] == b;
    assert Dependency(n, grouped[n][k]) in edges;
  }

  /** A closed walk in the string map is a closed walk along rendered edges. */
  lemma RenderedGraphWalk<N>(edges: seq<Dependency<N, N>>, grouped: map<N, seq<N>>, render: N -> string, rendered: Graph, w: seq<string>)
    requires forall f, t :: f in grouped ==> (t in grouped[f] <==> Dependency(f, t) in edges)
    requires RendersGroups(grouped, render, rendered)
    requires IsClosedWalk(rendered, w)
    ensures ClosedWalkOfEdges(edges, render, w)
  {
    forall i | 0 <= i < |w| - 1 ensures RenderedEdge(edges, render, w[i], w[i + 1]) {
      RenderedGraphEdge(edges, grouped, render, rendered, w[i], w[i + 1]);
    }
  }

  /** What `find_cycles` promises of the chains it returns for a map: each is a
      closed walk, there are none exactly when the map is acyclic, and a node listing
      itself gives `[n, n]`. */
  ghost predicate DetectedCycles(graph: Graph, chains: set<CycleSearch.CycleChain>)
  {
    && (forall c :: c in chains ==> IsClosedWalk(graph, c.chain))
    && (Acyclic(graph) <==> chains == {})
    && (forall n :: n in graph && Edge(graph, n, n) ==> CycleSearch.CycleChain([n, n]) in chains)
  }

  /** `find_cycles` on a fresh detector, each chain becoming one failure (the set of
      chains is turned into a list in an unspecified order). `chains` is what the
      detector returned. */
  method CycleFailures(graph: Graph) returns (failures: seq<ValidationFailure>, ghost chains: set<CycleSearch.CycleChain>)
    ensures DetectedCycles(graph, chains)
    ensures forall f :: f in failures <==> f.CircularDependency? && f.chain in chains
    ensures NoDup(failures)
    ensures forall f :: f in failures ==> f.CircularDependency? && IsClosedWalk(graph, f.chain.chain)
    ensures Acyclic(graph) <==> failures == []
    ensures forall n :: n in graph && Edge(graph, n, n) ==> CircularDependency(CycleSearch.CycleChain([n, n])) in failures
  {
    var detector := new Cycle.CycleDetector(graph);
    var cycles := detector.FindCycles();
    failures := [];
    var remaining := cycles;
    while remaining != {}
      invariant remaining <= cycles
      invariant forall f :: f in failures <==> f.CircularDependency? && f.chain in cycles && f.chain !in remaining
      invariant NoDup(failures)
      invariant cycles == {} ==> failures == []
      decreases remaining
    {
      var c :| c in remaining;
      failures := failures + [CircularDependency(c)];
      remaining := remaining - {c};
    }
    if cycles != {} {
      var c :| c in cycles;
      assert CircularDependency(c) in failures;
    }
    chains := cycles;
  }

  /** `rendered` is what grouping the edges by source and rendering the groups gives. */
  ghost predicate RenderedEdges<N(!new)>(edges: seq<Dependency<N, N>>, render: N -> string, rendered: Graph)
  {
    exists grouped: map<N, seq<N>> ::
      && grouped.Keys == DependencyList.Froms(edges)
      && (forall f, t :: f in grouped ==> (t in grouped[f] <==> Dependency(f, t) in edges))
      && RendersGroups(grouped, render, rendered)
  }

  /** The body shared by both circular rules: group the edges, render the map to
      strings, and report one failure per chain the detector finds. `rendered` is the
      string map searched and `chains` what the detector returned for it. */
  method CircularFailures<N(==,!new)>(edges: seq<Dependency<N, N>>, render: N -> string)
    returns (failures: seq<ValidationFailure>, ghost rendered: Graph, ghost chains: set<CycleSearch.CycleChain>)
    requires NoDup(edges)
    ensures RenderedEdges(edges, render, rendered) && DetectedCycles(rendered, chains)
    ensures forall f :: f in failures <==> f.CircularDependency? && f.chain in chains
    ensures forall f :: f in failures ==> f.CircularDependency? && ClosedWalkOfEdges(edges, render, f.chain.chain)
    ensures NoDup(failures)
    ensures AcyclicEdges(edges, render) ==> failures == []
    ensures !Acyclic(rendered) ==> failures != []
  {
    var grouped := DependencyList.GroupByFrom(edges);
    var strings := RenderGroups(grouped, render);
    failures, chains := CycleFailures(strings);
    rendered := strings;
    forall f | f in failures ensures ClosedWalkOfEdges(edges, render, f.chain.chain) {
      RenderedGraphWalk(edges, grouped, render, rendered, f.chain.chain);
    }
    if AcyclicEdges(edges, render) {
      forall w | IsClosedWalk(rendered, w) ensures false {
        RenderedGraphWalk(edges, grouped, render, rendered, w);
      }
    }
  }

  /** `validate_circular_files`: the file-level edges, or the error building them, in
      which case no search runs. */
  method ValidateCircularFiles(dependencies: Result<seq<FileEdge>, DependencyList.FromRepositoryError>)
    returns (r: Result<seq<ValidationFailure>, ValidateError>, ghost rendered: Graph, ghost chains: set<CycleSearch.CycleChain>)
    requires dependencies.Ok? ==> NoDup(dependencies.value)
    ensures r.Ok? <==> dependencies.Ok?
    ensures r.Err? ==> r.error == CouldNotGetDependencies(dependencies.error)
    ensures r.Ok? ==> RenderedEdges(dependencies.value, Child.Render, rendered) && DetectedCycles(rendered, chains)
    ensures r.Ok? ==> forall f :: f in r.value <==> f.CircularDependency? && f.chain in chains
    ensures r.Ok? ==> NoDup(r.value)
    ensures r.Ok? ==> forall f :: f in r.value ==>
      f.CircularDependency? && ClosedWalkOfEdges(dependencies.value, Child.Render, f.chain.chain)
    ensures r.Ok? && AcyclicEdges(dependencies.value, Child.Render) ==> r.value == []
    ensures r.Ok? && !Acyclic(rendered) ==> r.value != []
  {
    if dependencies.Err? {
      r, rendered, chains := Err(CouldNotGetDependencies(dependencies.error)), map[], {};
      return;
    }
    var failures;
    failures, rendered, chains := CircularFailures(dependencies.value, Child.Render);
    r := Ok(failures);
  }

  /** `validate_circular_modules`: the module-level edges of the repository's entries,
      or the error building them, in which case no search runs. */
  method ValidateCircularModules(entries: seq<Result<DependencyList.FileEntry, DependencyList.RepositoryFilesError>>, fs: ImportPaths.FileSystem)
    returns (r: Result<seq<ValidationFailure>, ValidateError>, ghost rendered: Graph, ghost chains: set<CycleSearch.CycleChain>)
    ensures r.Ok? <==> DependencyList.RepositoryEdges(entries, fs).Ok?
    ensures r.Err? ==> r.error == CouldNotGetDependencies(DependencyList.RepositoryEdges(entries, fs).error)
    ensures r.Ok? ==> RenderedEdges(DependencyList.RepositoryEdges(entries, fs).value, Modules.Render, rendered) && DetectedCycles(rendered, chains)
    ensures r.Ok? ==> forall f :: f in r.value <==> f.CircularDependency? && f.chain in chains
    ensures r.Ok? ==> NoDup(r.value)
    ensures r.Ok? ==> forall f :: f in r.value ==>
      f.CircularDependency? && ClosedWalkOfEdges(DependencyList.RepositoryEdges(entries, fs).value, Modules.Render, f.chain.chain)
    ensures r.Ok? && AcyclicEdges(DependencyList.RepositoryEdges(entries, fs).value, Modules.Render) ==> r.value == []
    ensures r.Ok? && !Acyclic(rendered) ==> r.value != []
  {
    var dependencies := DependencyList.RepositoryEdges(entries, fs);
    if dependencies.Err? {
      r, rendered, chains := Err(CouldNotGetDependencies(dependencies.error)), map[], {};
      return;
    }
    var failures;
    failures, rendered, chains := CircularFailures(dependencies.value, Modules.Render);
    r := Ok(failures);
  }

  /** Edges that all lower a rank of their rendered endpoints (a layering) have no
      closed walk, so the circular rules report nothing for them. */
  lemma {:induction false} LayeredEdgesAreAcyclic<N>(edges: seq<Dependency<N, N>>, render: N -> string, rank: string -> nat)
    requires forall d :: d in edges ==> rank(render(d.to)) < rank(render(d.from))
    ensures AcyclicEdges(edges, render)
  {
    forall w | ClosedWalkOfEdges(edges, render, w) ensures false {
      RankFallsAlong(edges, render, rank, w, |w| - 1);
    }
  }

  lemma {:induction false} RankFallsAlong<N>(edges: seq<Dependency<N, N>>, render: N -> string, rank: string -> nat, w: seq<string>, k: nat)
    requires forall d :: d in edges ==> rank(render(d.to)) < rank(render(d.from))
    requires |w| >= 2 && 1 <= k < |w|
    requires forall i :: 0 <= i < |w| - 1 ==> RenderedEdge(edges, render, w[i], w[i + 1])
    ensures rank(w[k]) < rank(w[0])
    decreases k
  {
    assert RenderedEdge(edges, render, w[k - 1], w[k]);
    if k > 1 {
      RankFallsAlong(edges, render, rank, w, k - 1);
    }
  }
}
