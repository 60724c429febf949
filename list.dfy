/** Lists of dependencies (dependency/list.rs): grouping edges by their source, the
    exhaustive chain enumerator, and the two conversions that build edge lists from
    an analysed file and from a whole repository.

    A `HashSet` of edges is modelled as a sequence without repetitions, in the set's
    iteration order. */
module DependencyList {

  import opened Wrappers
  import opened Graphs
  import opened Dependencies
  import opened Paths
  import opened ImportPaths
  import Modules
  import Child
  import RepositoryFiles

  /** The sources of a list of edges. */
  function Froms<F(==), T(==)>(edges: seq<Dependency<F, T>>): set<F>
  {
    set d | d in edges :: d.from
  }

  /** `group_by_from`: one entry per source, listing the targets of its edges in the
      order the edges are visited. */
  method GroupByFrom<F(==), T(==)>(edges: seq<Dependency<F, T>>) returns (grouped: map<F, seq<T>>)
    requires NoDup(edges)
    ensures grouped.Keys == Froms(edges)
    ensures forall f, t :: f in grouped ==> (t in grouped[f] <==> Dependency(f, t) in edges)
    ensures forall f :: f in grouped ==> NoDup(grouped[f])
  {
    grouped := map[];
    ghost var done: set<Dependency<F, T>> := {};
    var i := 0;
    while i < |edges|
      invariant 0 <= i <= |edges|
      invariant forall d :: d in done ==> d in edges
      invariant forall k :: 0 <= k < i ==> edges[k] in done
      invariant forall k :: i <= k < |edges| ==> edges[k] !in done
      invariant grouped.Keys == set d | d in done :: d.from
      invariant forall f, t :: f in grouped ==> (t in grouped[f] <==> Dependency(f, t) in done)
      invariant forall f :: f in grouped ==> NoDup(grouped[f])
    {
      var d := edges[i];
      if d.from in grouped {
        var list := grouped[d.from];
        grouped := grouped[d.from := list + [d.to]];
      } else {
        grouped := grouped[d.from := [d.to]];
      }
      done := done + {d};
      i := i + 1;
    }
  }

  /** `DependencyChain { chain, is_circular, is_looped }`. */
  datatype DependencyChain<T> = DependencyChain(chain: seq<T>, isCircular: bool, isLooped: bool)

  /** What every chain recorded below a search path looks like: it extends the path,
      it follows edges, and its flags say how it ended. A circular chain ends on a
      node it already passed through, a looped one on a node it did not, and a chain
      with neither flag ends at a node without successors. */
  predicate ChainBelow<T(==)>(g: Adjacency<T>, prefix: seq<T>, c: DependencyChain<T>)
  {
    && |prefix| <= |c.chain| && c.chain[..|prefix|] == prefix
    && c.chain != []
    && IsWalk(g, c.chain)
    && !(c.isCircular && c.isLooped)
    && (c.isCircular ==> |c.chain| >= 2 && c.chain[|c.chain| - 1] in c.chain[..|c.chain| - 1])
    && (c.isLooped ==> |c.chain| >= 2 && c.chain[|c.chain| - 1] !in c.chain[..|c.chain| - 1])
    && (!c.isCircular && !c.isLooped ==> Succ(g, c.chain[|c.chain| - 1]) == [])
  }

  /** The enumerator's `dfs`: push the node, then for each successor record a circular
      chain if it is on the recursion stack, a looped chain if it was already visited
      in this run, and search from it otherwise; a node without successors records the
      path itself. On return the path and the recursion stack are as on entry, and
      `found` is a recorded chain that starts where the path starts. */
  method Enumerate<T(==)>(g: Adjacency<T>, current: T, pathStack: seq<T>, visited: set<T>,
                          recursionStack: set<T>, chains: set<DependencyChain<T>>)
    returns (pathOut: seq<T>, visitedOut: set<T>, recursionOut: set<T>, chainsOut: set<DependencyChain<T>>,
             ghost found: DependencyChain<T>)
    requires current in Nodes(g) && current !in visited && visited <= Nodes(g)
    requires forall n :: n in recursionStack <==> n in pathStack
    requires recursionStack <= visited
    requires IsWalk(g, pathStack + [current])
    ensures pathOut == pathStack && recursionOut == recursionStack
    ensures visited + {current} <= visitedOut <= Nodes(g)
    ensures chains <= chainsOut
    ensures forall c :: c in chainsOut && c !in chains ==> ChainBelow(g, pathStack + [current], c)
    ensures found in chainsOut && found.chain != [] && found.chain[0] == (pathStack + [current])[0]
    ensures forall k :: 0 <= k < |Succ(g, current)| && Succ(g, current)[k] in recursionStack + {current} ==>
      DependencyChain(pathStack + [current] + [Succ(g, current)[k]], true, false) in chainsOut
    ensures Succ(g, current) == [] ==> DependencyChain(pathStack + [current], false, false) in chainsOut
    decreases |Nodes(g) - visited|
  {
    var recursion := recursionStack + {current};
    var path := pathStack + [current];
    visitedOut := visited + {current};
    chainsOut := chains;
    found := DependencyChain(path, false, false);
    var hasOutgoing := false;
    if current in g {
      var nodes := g[current];
      var j := 0;
      while j < |nodes|
        invariant 0 <= j <= |nodes|
        invariant path == pathStack + [current] && recursion == recursionStack + {current}
        invariant visited + {current} <= visitedOut <= Nodes(g)
        invariant recursion <= visitedOut
        invariant chains <= chainsOut
        invariant forall c :: c in chainsOut && c !in chains ==> ChainBelow(g, path, c)
        invariant hasOutgoing <==> j > 0
        invariant hasOutgoing ==> found in chainsOut && found.chain != [] && found.chain[0] == path[0]
        invariant forall k :: 0 <= k < j && nodes[k] in recursion ==> DependencyChain(path + [nodes[k]], true, false) in chainsOut
      {
        var next := nodes[j];
        hasOutgoing := true;
        SuccInNodes(g, current, next);
        WalkExtends(g, path, next);
        if next in recursion {
          chainsOut := chainsOut + {DependencyChain(path + [next], true, false)};
          found := DependencyChain(path + [next], true, false);
        } else if next in visitedOut {
          chainsOut := chainsOut + {DependencyChain(path + [next], false, true)};
          found := DependencyChain(path + [next], false, true);
        } else {
          FewerUnvisited(Nodes(g), visited, visitedOut, current);
          var before := chainsOut;
          var p, v, r, c, w := Enumerate(g, next, path, visitedOut, recursion, chainsOut);
          forall x | x in c && x !in before ensures ChainBelow(g, path, x) {
            BelowLongerIsBelow(g, path, next, x);
          }
          path, visitedOut, recursion, chainsOut := p, v, r, c;
          found := w;
        }
        j := j + 1;
      }
    }
    if !hasOutgoing {
      chainsOut := chainsOut + {DependencyChain(path, false, false)};
      found := DependencyChain(path, false, false);
    }
    assert path[..|path| - 1] == pathStack;
    pathOut := path[..|path| - 1];
    recursionOut := recursion - {current};
  }

  /** A walk followed by a successor of its last node is a walk. */
  lemma WalkExtends<T>(g: Adjacency<T>, w: seq<T>, next: T)
    requires w != [] && IsWalk(g, w) && Edge(g, w[|w| - 1], next)
    ensures IsWalk(g, w + [next])
  {
    var w' := w + [next];
    forall k | 0 <= k < |w'| - 1 ensures Edge(g, w'[k], w'[k + 1]) {
      if k < |w| - 1 {
        assert w'[k] == w[k] && w'[k + 1] == w[k + 1];
      }
    }
  }

  /** A chain recorded below a longer path is also below the shorter one. */
  lemma BelowLongerIsBelow<T>(g: Adjacency<T>, path: seq<T>, next: T, c: DependencyChain<T>)
    requires ChainBelow(g, path + [next], c)
    ensures ChainBelow(g, path, c)
  {
    assert c.chain[..|path|] == (c.chain[..|path| + 1])[..|path|];
  }

  /** A chain over the edges themselves: consecutive nodes are joined by an edge, and
      the flags say how the chain ended, as in `ChainBelow`; a chain with neither flag
      ends at a node that is the source of no edge. */
  predicate ChainOver<T(==)>(edges: seq<Dependency<T, T>>, c: DependencyChain<T>)
  {
    && c.chain != []
    && (forall i :: 0 <= i < |c.chain| - 1 ==> Dependency(c.chain[i], c.chain[i + 1]) in edges)
    && !(c.isCircular && c.isLooped)
    && (c.isCircular ==> |c.chain| >= 2 && c.chain[|c.chain| - 1] in c.chain[..|c.chain| - 1])
    && (c.isLooped ==> |c.chain| >= 2 && c.chain[|c.chain| - 1] !in c.chain[..|c.chain| - 1])
    && (!c.isCircular && !c.isLooped ==> c.chain[|c.chain| - 1] !in Froms(edges))
  }

  /** `to_dependency_chain_list`: a search from the source of each edge, skipping
      sources already searched from; the chains of all searches are collected.
      `starts` records the sources in the order their searches ran. Every source
      starts at least one chain. */
  method ChainList<T(==)>(edges: seq<Dependency<T, T>>) returns (chains: set<DependencyChain<T>>, ghost starts: seq<T>)
    requires NoDup(edges)
    ensures NoDup(starts) && forall n :: n in starts <==> n in Froms(edges)
    ensures forall c :: c in chains ==> ChainOver(edges, c) && c.chain[0] in starts
    ensures forall n :: n in Froms(edges) ==> exists c :: c in chains && c.chain != [] && c.chain[0] == n
  {
    var grouped := GroupByFrom(edges);
    chains := {};
    starts := [];
    var visitedStarts: set<T> := {};
    ghost var firsts: map<T, DependencyChain<T>> := map[];
    var i := 0;
    while i < |edges|
      invariant 0 <= i <= |edges|
      invariant visitedStarts == set k | 0 <= k < i :: edges[k].from
      invariant forall n :: n in starts <==> n in visitedStarts
      invariant NoDup(starts)
      invariant forall c :: c in chains ==> c.chain != [] && c.chain[0] in starts && ChainOver(edges, c)
      invariant forall n :: n in visitedStarts ==> n in firsts && firsts[n] in chains && firsts[n].chain != [] && firsts[n].chain[0] == n
    {
      var start := edges[i].from;
      if start !in visitedStarts {
        visitedStarts := visitedStarts + {start};
        starts := starts + [start];
        ghost var first;
        chains, first := SearchFrom(edges, grouped, start, chains);
        firsts := firsts[start := first];
      }
      i := i + 1;
    }
    forall n | n in Froms(edges) ensures exists c :: c in chains && c.chain != [] && c.chain[0] == n {
      assert firsts[n] in chains;
    }
  }

  /** One search of `to_dependency_chain_list`, from a source with a fresh path,
      visited set and recursion stack: it keeps the chains found so far, each chain it
      adds starts at the source and follows the edges, and `first` is a chain starting
      at the source that it recorded. */
  method SearchFrom<T(==)>(edges: seq<Dependency<T, T>>, grouped: map<T, seq<T>>, start: T,
                           chains: set<DependencyChain<T>>)
    returns (found: set<DependencyChain<T>>, ghost first: DependencyChain<T>)
    requires grouped.Keys == Froms(edges)
    requires forall f, t :: f in grouped ==> (t in grouped[f] <==> Dependency(f, t) in edges)
    requires start in grouped
    ensures chains <= found
    ensures forall c :: c in found && c !in chains ==> c.chain != [] && c.chain[0] == start && ChainOver(edges, c)
    ensures first in found && first.chain != [] && first.chain[0] == start
  {
    var _, _, _, c, w := Enumerate(grouped, start, [], {}, {}, chains);
    forall x | x in c && x !in chains ensures x.chain != [] && x.chain[0] == start && ChainOver(edges, x) {
      GroupedChainIsOver(edges, grouped, [start], x);
    }
    found, first := c, w;
  }


  /** Chains below a path in the grouped map are chains over the edges. */
  lemma GroupedChainIsOver<T>(edges: seq<Dependency<T, T>>, grouped: map<T, seq<T>>, prefix: seq<T>, c: DependencyChain<T>)
    requires grouped.Keys == Froms(edges)
    requires forall f, t :: f in grouped ==> (t in grouped[f] <==> Dependency(f, t) in edges)
    requires prefix != [] && ChainBelow(grouped, prefix, c)
    ensures c.chain[0] == prefix[0] && ChainOver(edges, c)
  {
    assert c.chain[0] == c.chain[..|prefix|][0];
    forall i | 0 <= i < |c.chain| - 1 ensures Dependency(c.chain[i], c.chain[i + 1]) in edges {
      assert Edge(grouped, c.chain[i], c.chain[i + 1]);
    }
  }

  // ---------------------------------------------------------------------------
  // Building edge lists

  /** The walk over the repository yields, per entry, an analysed file or one of these.
      Their causes (a directory-walk error, an entry that is not a usable file) are
      kept as text. */
  datatype RepositoryFilesError = CannotScanFiles(walkError: string) | CannotAnalyzeFile(entryError: string)

  /** An analysed file as the walk hands it over: its canonical path and the
      repository root, with both cells still empty. */
  datatype FileEntry = FileEntry(filePath: Path, basePath: Path)

  /** `DependencyListFromRepositoryFileError`. */
  datatype FromRepositoryFileError =
    | InvalidImports(errors: seq<Child.FromImportPathError>)
    | CouldNotScanFile(scanError: RepositoryFilesError)
    | CouldNotReadImports(readError: RepositoryFiles.ResolveImportsError)
    | CouldNotLocateFileWithinRepository(locateError: Child.FromRepositoryFileError)

  /** `DependencyListFromRepositoryAnalyzeFileError`. */
  datatype AnalyzeFileError =
    | CouldNotScanFile(scanError: RepositoryFilesError)
    | CouldNotGetModule(moduleError: RepositoryFiles.ModuleError)
    | CouldNotConvertFilePathToModule(conversionError: Child.ModuleError)
    | CouldNotGetDependencyList(listError: FromRepositoryFileError)

  /** `DependencyListFromRepositoryError`. */
  datatype FromRepositoryError = InvalidFiles(errors: seq<AnalyzeFileError>)

  /** The two halves of a `partition`, each in visiting order. */
  datatype Partition<A, E> = Partition(oks: seq<A>, errs: seq<E>)

  /** Collecting into a `HashSet`: repetitions are dropped, and the first occurrence
      fixes the position. */
  function Dedup<A(==, !new)>(s: seq<A>): (r: seq<A>)
    ensures NoDup(r)
    ensures forall x :: x in r <==> x in s
  {
    if s == [] then []
    else
      var init := Dedup(s[..|s| - 1]);
      if s[|s| - 1] in init then init else init + [s[|s| - 1]]
  }

  /** The file-level `map`, `filter` and `partition`: each import is located under
      the root; the filter drops imports outside the root, which is the only way
      locating can fail, so no error is kept. */
  function LocateImports(imports: seq<ImportPath>, root: Path): (r: Partition<Child.ChildPath, Child.FromImportPathError>)
    ensures forall t :: t in r.oks <==> exists i :: i in imports && Child.FromImportPath(i, root) == Ok(t)
  {
    if imports == [] then Partition([], [])
    else
      var init := LocateImports(imports[..|imports| - 1], root);
      var last := imports[|imports| - 1];
      assert forall i :: i in imports <==> i in imports[..|imports| - 1] || i == last;
      match Child.FromImportPath(last, root)
      case Ok(t) => Partition(init.oks + [t], init.errs)
      case Err(e) =>
        match e.cause
        case ImportOutsideRoot(_) => init
  }

  /** Every error of locating an import is `ImportOutsideRoot`, which the filter drops:
      the partition never holds an error, so `InvalidImports` cannot be returned. */
  lemma {:induction false} LocateImportsKeepsNoError(imports: seq<ImportPath>, root: Path)
    ensures LocateImports(imports, root).errs == []
    decreases |imports|
  {
    if imports != [] {
      LocateImportsKeepsNoError(imports[..|imports| - 1], root);
    }
  }

  /** An edge from `from` to each target, in order. */
  function EdgesFrom<F, T>(from: F, targets: seq<T>): (r: seq<Dependency<F, T>>)
    ensures |r| == |targets| && forall k :: 0 <= k < |targets| ==> r[k] == Dependency(from, targets[k])
  {
    if targets == [] then [] else [Dependency(from, targets[0])] + EdgesFrom(from, targets[1..])
  }

  /** `TryFrom<RepositoryFile>` for file-level edges: the file located under its root,
      then its imports, each located under the same root, as edges from the file. */
  function FileEdges(file: FileEntry, fs: FileSystem): (r: Result<seq<Dependency<Child.ChildPath, Child.ChildPath>>, FromRepositoryFileError>)
    ensures Child.FromRepositoryFile(file.filePath, file.basePath).Err? ==>
      r == Err(CouldNotLocateFileWithinRepository(Child.FromRepositoryFile(file.filePath, file.basePath).error))
    ensures Child.FromRepositoryFile(file.filePath, file.basePath).Ok? && RepositoryFiles.ReadImports(file.filePath, fs).Err? ==>
      r == Err(CouldNotReadImports(RepositoryFiles.ReadImports(file.filePath, fs).error))
    ensures r.Ok? <==> Child.FromRepositoryFile(file.filePath, file.basePath).Ok? && RepositoryFiles.ReadImports(file.filePath, fs).Ok?
    ensures r.Ok? ==> NoDup(r.value)
    ensures r.Ok? ==> forall d :: d in r.value ==> d == Dependency(Child.FromRepositoryFile(file.filePath, file.basePath).value, d.to)
    ensures r.Ok? ==> forall t ::
      Dependency(Child.FromRepositoryFile(file.filePath, file.basePath).value, t) in r.value <==>
      exists i :: i in RepositoryFiles.ReadImports(file.filePath, fs).value && Child.FromImportPath(i, file.basePath) == Ok(t)
  {
    match Child.FromRepositoryFile(file.filePath, file.basePath)
    case Err(e) => Err(CouldNotLocateFileWithinRepository(e))
    case Ok(child) =>
      match RepositoryFiles.ReadImports(file.filePath, fs)
      case Err(e) => Err(CouldNotReadImports(e))
      case Ok(imports) =>
        var located := LocateImports(imports, file.basePath);
        LocateImportsKeepsNoError(imports, file.basePath);
        if located.errs != [] then Err(InvalidImports(located.errs))
        else
          EdgesFromMembers(child, located.oks);
          Ok(Dedup(EdgesFrom(child, located.oks)))
  }

  /** The edges from one source reach exactly its targets. */
  lemma EdgesFromMembers<F, T>(from: F, targets: seq<T>)
    ensures forall d :: d in EdgesFrom(from, targets) ==> d == Dependency(from, d.to)
    ensures forall t :: Dependency(from, t) in EdgesFrom(from, targets) <==> t in targets
  {
    var r := EdgesFrom(from, targets);
    forall t | t in targets ensures Dependency(from, t) in r {
      var k :| 0 <= k < |targets| && targets[k] == t;
      assert r[k] == Dependency(from, t);
    }
  }

  /** The same conversion on the analysed file itself: the file's `imports()` is
      called, filling its cell, and the result is what `FileEdges` gives for the file's
      paths. */
  method DependencyListOf(file: RepositoryFiles.RepositoryFile, fs: FileSystem)
    returns (r: Result<seq<Dependency<Child.ChildPath, Child.ChildPath>>, FromRepositoryFileError>)
    requires file.Consistent(fs)
    modifies file
    ensures r == FileEdges(FileEntry(file.filePath, file.basePath), fs)
    ensures file.Consistent(fs)
  {
    var child := Child.FromRepositoryFile(file.filePath, file.basePath);
    if child.Err? {
      return Err(CouldNotLocateFileWithinRepository(child.error));
    }
    var imports := file.Imports(fs);
    if imports.Err? {
      return Err(CouldNotReadImports(imports.error));
    }
    var located := LocateImports(imports.value, file.basePath);
    if located.errs != [] {
      return Err(InvalidImports(located.errs));
    }
    return Ok(Dedup(EdgesFrom(child.value, located.oks)));
  }

  /** One file-level edge taken to module level: the source's module is asked for
      first, so its error wins when both fail. */
  function ModuleEdge(d: Dependency<Child.ChildPath, Child.ChildPath>): (r: Result<Dependency<Modules.Module, Modules.Module>, AnalyzeFileError>)
    ensures r.Ok? <==> Child.ModuleOf(d.from).Ok? && Child.ModuleOf(d.to).Ok?
    ensures r.Ok? ==> r.value == Dependency(Child.ModuleOf(d.from).value, Child.ModuleOf(d.to).value)
    ensures Child.ModuleOf(d.from).Err? ==> r == Err(CouldNotConvertFilePathToModule(Child.ModuleOf(d.from).error))
    ensures Child.ModuleOf(d.from).Ok? && Child.ModuleOf(d.to).Err? ==>
      r == Err(CouldNotConvertFilePathToModule(Child.ModuleOf(d.to).error))
  {
    match Child.ModuleOf(d.from)
    case Err(e) => Err(CouldNotConvertFilePathToModule(e))
    case Ok(from) =>
      match Child.ModuleOf(d.to)
      case Err(e) => Err(CouldNotConvertFilePathToModule(e))
      case Ok(to) => Ok(Dependency(from, to))
  }

  /** The module-level `map`, `filter` and `collect` over one file's edges, in order:
      edges inside one module are dropped, and the first edge whose modules cannot be
      found ends the file with that edge's error. */
  function ModuleEdges(edges: seq<Dependency<Child.ChildPath, Child.ChildPath>>): (r: Result<seq<Dependency<Modules.Module, Modules.Module>>, AnalyzeFileError>)
  {
    if edges == [] then Ok([])
    else
      match ModuleEdge(edges[0])
      case Err(e) => Err(e)
      case Ok(m) =>
        match ModuleEdges(edges[1..])
        case Err(e) => Err(e)
        case Ok(rest) => if IsInternal(m, Modules.Render) then Ok(rest) else Ok([m] + rest)
  }

  /** The file's module edges are found exactly when every edge has both modules. */
  lemma {:induction false} ModuleEdgesSucceed(edges: seq<Dependency<Child.ChildPath, Child.ChildPath>>)
    ensures ModuleEdges(edges).Ok? <==> forall k :: 0 <= k < |edges| ==> ModuleEdge(edges[k]).Ok?
    decreases |edges|
  {
    if edges != [] {
      ModuleEdgesSucceed(edges[1..]);
      assert forall k :: 1 <= k < |edges| ==> edges[k] == edges[1..][k - 1];
    }
  }

  /** A failure is the error of the first edge whose modules cannot be found. */
  lemma {:induction false} ModuleEdgesFirstError(edges: seq<Dependency<Child.ChildPath, Child.ChildPath>>) returns (k: nat)
    requires ModuleEdges(edges).Err?
    ensures k < |edges| && ModuleEdge(edges[k]) == Err(ModuleEdges(edges).error)
    ensures forall j :: 0 <= j < k ==> ModuleEdge(edges[j]).Ok?
    decreases |edges|
  {
    if ModuleEdge(edges[0]).Err? {
      k := 0;
    } else {
      var k' := ModuleEdgesFirstError(edges[1..]);
      k := k' + 1;
      assert forall j :: 1 <= j < |edges| ==> edges[j] == edges[1..][j - 1];
    }
  }

  /** A success holds exactly the module edges of the file's edges that cross between
      modules. */
  lemma {:induction false} ModuleEdgesMembers(edges: seq<Dependency<Child.ChildPath, Child.ChildPath>>)
    requires ModuleEdges(edges).Ok?
    ensures forall m :: m in ModuleEdges(edges).value <==>
      (exists k :: 0 <= k < |edges| && ModuleEdge(edges[k]) == Ok(m)) && !IsInternal(m, Modules.Render)
    decreases |edges|
  {
    if edges != [] {
      ModuleEdgesMembers(edges[1..]);
      assert forall k :: 1 <= k < |edges| ==> edges[k] == edges[1..][k - 1];
    }
  }

  /** One entry of the walk: a file that could not be analysed contributes no edge, a
      failed walk is an error, and an analysed file gives its cross-module edges. */
  function AnalyzeFile(entry: Result<FileEntry, RepositoryFilesError>, fs: FileSystem): (r: Result<seq<Dependency<Modules.Module, Modules.Module>>, AnalyzeFileError>)
    ensures entry.Err? && entry.error.CannotAnalyzeFile? ==> r == Ok([])
    ensures entry.Err? && entry.error.CannotScanFiles? ==> r == Err(AnalyzeFileError.CouldNotScanFile(entry.error))
    ensures entry.Ok? && FileEdges(entry.value, fs).Err? ==> r == Err(CouldNotGetDependencyList(FileEdges(entry.value, fs).error))
    ensures entry.Ok? && FileEdges(entry.value, fs).Ok? ==> r == ModuleEdges(FileEdges(entry.value, fs).value)
    ensures r.Ok? ==> forall m :: m in r.value ==> m.from != m.to
  {
    match entry
    case Err(e) =>
      if e.CannotAnalyzeFile? then Ok([]) else Err(AnalyzeFileError.CouldNotScanFile(e))
    case Ok(file) =>
      match FileEdges(file, fs)
      case Err(e) => Err(CouldNotGetDependencyList(e))
      case Ok(edges) =>
        if ModuleEdges(edges).Err? then ModuleEdges(edges)
        else
          ModuleEdgesMembers(edges);
          ModuleEdges(edges)
  }

  /** `partition_map`: each result goes to its side, in order. */
  function PartitionResults<A, E>(rs: seq<Result<A, E>>): (r: Partition<A, E>)
    ensures |r.oks| + |r.errs| == |rs|
  {
    if rs == [] then Partition([], [])
    else
      var init := PartitionResults(rs[..|rs| - 1]);
      match rs[|rs| - 1]
      case Ok(a) => Partition(init.oks + [a], init.errs)
      case Err(e) => Partition(init.oks, init.errs + [e])
  }

  /** Each side of the partition holds exactly the payloads of its kind of result. */
  lemma {:induction false} PartitionMembers<A(!new), E(!new)>(rs: seq<Result<A, E>>)
    ensures forall e :: e in PartitionResults(rs).errs <==> Err(e) in rs
    ensures forall a :: a in PartitionResults(rs).oks <==> Ok(a) in rs
  {
    if rs != [] {
      PartitionMembers(rs[..|rs| - 1]);
      assert forall x :: x in rs <==> x in rs[..|rs| - 1] || x == rs[|rs| - 1];
    }
  }

  /** The analysis of every entry, in walk order. */
  function Analyses(entries: seq<Result<FileEntry, RepositoryFilesError>>, fs: FileSystem): (r: seq<Result<seq<Dependency<Modules.Module, Modules.Module>>, AnalyzeFileError>>)
    ensures |r| == |entries|
  {
    if entries == [] then [] else [AnalyzeFile(entries[0], fs)] + Analyses(entries[1..], fs)
  }

  /** Position by position, the analyses are those of the entries. */
  lemma {:induction false} AnalysesAt(entries: seq<Result<FileEntry, RepositoryFilesError>>, fs: FileSystem)
    ensures forall i :: 0 <= i < |entries| ==> Analyses(entries, fs)[i] == AnalyzeFile(entries[i], fs)
    decreases |entries|
  {
    if entries != [] {
      AnalysesAt(entries[1..], fs);
    }
  }

  /** The lists one after the other. */
  function Flatten<A>(ss: seq<seq<A>>): seq<A>
  {
    if ss == [] then [] else ss[0] + Flatten(ss[1..])
  }

  /** An element of the flattened lists is an element of one of them, and back. */
  lemma {:induction false} FlattenMembers<A(!new)>(ss: seq<seq<A>>)
    ensures forall x :: x in Flatten(ss) <==> exists s :: s in ss && x in s
  {
    if ss != [] {
      FlattenMembers(ss[1..]);
      assert forall s :: s in ss <==> s == ss[0] || s in ss[1..];
    }
  }

  /** `TryFrom<Repository>` for module-level edges: fails with every per-entry error
      when there is one, and otherwise gives the union of all entries' edges. */
  function RepositoryEdges(entries: seq<Result<FileEntry, RepositoryFilesError>>, fs: FileSystem): (r: Result<seq<Dependency<Modules.Module, Modules.Module>>, FromRepositoryError>)
    ensures r.Err? <==> exists i :: 0 <= i < |entries| && AnalyzeFile(entries[i], fs).Err?
    ensures r.Err? ==> r.error.errors == PartitionResults(Analyses(entries, fs)).errs
    ensures r.Ok? ==> NoDup(r.value)
    ensures r.Ok? ==> forall m :: m in r.value <==>
      exists i :: 0 <= i < |entries| && AnalyzeFile(entries[i], fs).Ok? && m in AnalyzeFile(entries[i], fs).value
    ensures r.Ok? ==> forall m :: m in r.value ==> !IsInternal(m, Modules.Render)
  {
    var results := Analyses(entries, fs);
    AnalysesAt(entries, fs);
    var gathered := PartitionResults(results);
    PartitionMembers(results);
    if gathered.errs != [] then
      assert Err(gathered.errs[0]) in results;
      Err(InvalidFiles(gathered.errs))
    else
      FlattenMembers(gathered.oks);
      Ok(Dedup(Flatten(gathered.oks)))
  }

  lemma {:induction false} AnalysesAppend(a: seq<Result<FileEntry, RepositoryFilesError>>, b: seq<Result<FileEntry, RepositoryFilesError>>, fs: FileSystem)
    ensures Analyses(a + b, fs) == Analyses(a, fs) + Analyses(b, fs)
    decreases |a|
  {
    if a == [] {
      assert a + b == b;
    } else {
      assert (a + b)[1..] == a[1..] + b;
      AnalysesAppend(a[1..], b, fs);
    }
  }

  lemma {:induction false} PartitionAppend<A, E>(x: seq<Result<A, E>>, y: seq<Result<A, E>>)
    ensures PartitionResults(x + y).oks == PartitionResults(x).oks + PartitionResults(y).oks
    ensures PartitionResults(x + y).errs == PartitionResults(x).errs + PartitionResults(y).errs
    decreases |y|
  {
    if y == [] {
      assert x + y == x;
    } else {
      var y' := y[..|y| - 1];
      assert (x + y)[..|x + y| - 1] == x + y';
      assert (x + y)[|x + y| - 1] == y[|y| - 1];
      PartitionAppend(x, y');
    }
  }

  lemma {:induction false} FlattenAppend<A>(x: seq<seq<A>>, y: seq<seq<A>>)
    ensures Flatten(x + y) == Flatten(x) + Flatten(y)
    decreases |x|
  {
    if x == [] {
      assert x + y == y;
    } else {
      assert (x + y)[1..] == x[1..] + y;
      FlattenAppend(x[1..], y);
    }
  }

  /** The walk's order does not matter: swapping two parts of it gives the same edges,
      or the same errors in another order (the union `partition_map` computes is
      commutative). */
  lemma RepositoryEdgesOrderIndependent(a: seq<Result<FileEntry, RepositoryFilesError>>, b: seq<Result<FileEntry, RepositoryFilesError>>, fs: FileSystem)
    ensures RepositoryEdges(a + b, fs).Ok? <==> RepositoryEdges(b + a, fs).Ok?
    ensures RepositoryEdges(a + b, fs).Ok? ==>
      forall m :: m in RepositoryEdges(a + b, fs).value <==> m in RepositoryEdges(b + a, fs).value
    ensures RepositoryEdges(a + b, fs).Err? ==>
      multiset(RepositoryEdges(a + b, fs).error.errors) == multiset(RepositoryEdges(b + a, fs).error.errors)
  {
    AnalysesAppend(a, b, fs);
    AnalysesAppend(b, a, fs);
    var pa, pb := PartitionResults(Analyses(a, fs)), PartitionResults(Analyses(b, fs));
    PartitionAppend(Analyses(a, fs), Analyses(b, fs));
    PartitionAppend(Analyses(b, fs), Analyses(a, fs));
    FlattenAppend(pa.oks, pb.oks);
    FlattenAppend(pb.oks, pa.oks);
    FlattenMembers(pa.oks + pb.oks);
    FlattenMembers(pb.oks + pa.oks);
  }

  /** An entry that could not be analysed is as if it were not there. */
  lemma UnanalysableEntryIsSkipped(a: seq<Result<FileEntry, RepositoryFilesError>>, cause: string, b: seq<Result<FileEntry, RepositoryFilesError>>, fs: FileSystem)
    ensures RepositoryEdges(a + [Err(CannotAnalyzeFile(cause))] + b, fs) == RepositoryEdges(a + b, fs)
  {
    UnanalysableEntryGathersNothing(a, cause, b, fs);
  }

  /** The partition behind `UnanalysableEntryIsSkipped`: the skipped entry adds no
      error and no edge. */
  lemma UnanalysableEntryGathersNothing(a: seq<Result<FileEntry, RepositoryFilesError>>, cause: string, b: seq<Result<FileEntry, RepositoryFilesError>>, fs: FileSystem)
    ensures PartitionResults(Analyses(a + [Err(CannotAnalyzeFile(cause))] + b, fs)).errs == PartitionResults(Analyses(a + b, fs)).errs
    ensures Flatten(PartitionResults(Analyses(a + [Err(CannotAnalyzeFile(cause))] + b, fs)).oks) == Flatten(PartitionResults(Analyses(a + b, fs)).oks)
  {
    var x, y := Analyses(a, fs), Analyses(b, fs);
    SkippedEntryAnalysis(a, cause, b, fs);
    AnalysesAppend(a, b, fs);
    EmptyResultAddsNothing(x, y);
  }

  /** The skipped entry's analysis is an empty success, in its place. */
  lemma SkippedEntryAnalysis(a: seq<Result<FileEntry, RepositoryFilesError>>, cause: string, b: seq<Result<FileEntry, RepositoryFilesError>>, fs: FileSystem)
    ensures Analyses(a + [Err(CannotAnalyzeFile(cause))] + b, fs) == Analyses(a, fs) + [Ok([])] + Analyses(b, fs)
  {
    var skipped: Result<FileEntry, RepositoryFilesError> := Err(CannotAnalyzeFile(cause));
    AnalysesAppend(a + [skipped], b, fs);
    AnalysesAppend(a, [skipped], fs);
  }

  /** An entry that succeeds with no edges changes neither side of the partition that
      matters: the errors stay the same and so do the flattened edges. */
  lemma EmptyResultAddsNothing<A, E>(x: seq<Result<seq<A>, E>>, y: seq<Result<seq<A>, E>>)
    ensures PartitionResults(x + [Ok([])] + y).errs == PartitionResults(x + y).errs
    ensures Flatten(PartitionResults(x + [Ok([])] + y).oks) == Flatten(PartitionResults(x + y).oks)
  {
    var none: seq<A> := [];
    var single: seq<Result<seq<A>, E>> := [Ok(none)];
    var px, py := PartitionResults(x), PartitionResults(y);
    var p := PartitionResults(x + single + y);
    assert PartitionResults(single) == Partition([none], []) by {
      assert single[..0] == [];
    }
    assert p.errs == px.errs + py.errs && p.oks == px.oks + [none] + py.oks by {
      PartitionAppend(x + single, y);
      PartitionAppend(x, single);
    }
    assert PartitionResults(x + y) == Partition(px.oks + py.oks, px.errs + py.errs) by {
      PartitionAppend(x, y);
    }
    assert Flatten(px.oks + [none] + py.oks) == Flatten(px.oks + py.oks) by {
      FlattenAppend(px.oks + [none], py.oks);
      FlattenAppend(px.oks, [none]);
      FlattenAppend(px.oks, py.oks);
      assert Flatten([none]) == [];
    }
  }

  /** A failed walk fails the whole conversion, and its error is reported. */
  lemma ScanFailureIsReported(entries: seq<Result<FileEntry, RepositoryFilesError>>, i: nat, fs: FileSystem)
    requires i < |entries| && entries[i].Err? && entries[i].error.CannotScanFiles?
    ensures RepositoryEdges(entries, fs).Err?
    ensures AnalyzeFileError.CouldNotScanFile(entries[i].error) in RepositoryEdges(entries, fs).error.errors
  {
    AnalysesAt(entries, fs);
    assert Analyses(entries, fs)[i] == Err(AnalyzeFileError.CouldNotScanFile(entries[i].error));
    PartitionMembers(Analyses(entries, fs));
  }
}
