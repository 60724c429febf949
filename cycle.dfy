/** The invariant of the depth-first search in dependency/cycle.rs, and the steps
    that keep it. */
module CycleSearch {
  import opened Graphs

  datatype NodeState = Visiting | Visited

  /** A cycle as reported: the nodes from the first repeated one to the end of the
      search path, then that node again. Stored as found, without rotation, so two
      chains are the same only when their sequences are. */
  datatype CycleChain = CycleChain(chain: seq<string>)

  /** The nodes being visited are exactly those on the search path. */
  ghost predicate VisitingIsPath(states: map<string, NodeState>, path: seq<string>)
  {
    && (forall n :: n in path ==> n in states && states[n] == Visiting)
    && (forall n :: n in states && states[n] == Visiting ==> n in path)
  }

  /** A finished node's successors all have a state. */
  ghost predicate VisitedClosed(g: Graph, states: map<string, NodeState>)
  {
    forall n :: n in states && states[n] == Visited ==> forall m :: m in Succ(g, n) ==> m in states
  }

  ghost predicate CyclesAreClosedWalks(g: Graph, cycles: set<CycleChain>)
  {
    forall c :: c in cycles ==> IsClosedWalk(g, c.chain)
  }

  /** A finished node that lists itself has produced the chain [n, n]. */
  ghost predicate SelfLoopsRecorded(g: Graph, states: map<string, NodeState>, cycles: set<CycleChain>)
  {
    forall n {:trigger Edge(g, n, n)} :: n in states && states[n] == Visited && Edge(g, n, n) ==> CycleChain([n, n]) in cycles
  }

  /** Every node that had a state still has it. */
  ghost predicate Extends(before: map<string, NodeState>, after: map<string, NodeState>)
  {
    before.Keys <= after.Keys && forall n :: n in before ==> after[n] == before[n]
  }

  lemma ExtendsTrans(a: map<string, NodeState>, b: map<string, NodeState>, c: map<string, NodeState>)
    requires Extends(a, b) && Extends(b, c)
    ensures Extends(a, c)
  {
  }

  /** Giving a state to a node that had none in `a` keeps extending `a`. */
  lemma ExtendsByNew(a: map<string, NodeState>, b: map<string, NodeState>, n: string, s: NodeState)
    requires a.Keys <= b.Keys && (forall m :: m in a ==> b[m] == a[m]) && n !in a
    ensures Extends(a, b[n := s])
  {
  }

  /** A node marked Visiting on entry, whatever happens below it, and then marked
      Visited: every state from before the entry is kept. */
  lemma ExtendsAround(before: map<string, NodeState>, after: map<string, NodeState>, n: string)
    requires n !in before && Extends(before[n := Visiting], after)
    ensures Extends(before, after[n := Visited])
  {
  }

  /** What holds of the detector whenever `dfs` is entered or left with this path. */
  ghost predicate SearchInvariant(g: Graph, states: map<string, NodeState>, cycles: set<CycleChain>, path: seq<string>)
  {
    && VisitingIsPath(states, path) && NoDup(path) && IsWalk(g, path)
    && VisitedClosed(g, states) && CyclesAreClosedWalks(g, cycles) && SelfLoopsRecorded(g, states, cycles)
  }

  /** Marking a new successor of the path's top Visiting and pushing it keeps the invariant. */
  lemma PushKeepsInvariant(g: Graph, states: map<string, NodeState>, cycles: set<CycleChain>, path: seq<string>, current: string)
    requires SearchInvariant(g, states, cycles, path)
    requires current !in states
    requires path != [] ==> Edge(g, path[|path| - 1], current)
    ensures SearchInvariant(g, states[current := Visiting], cycles, path + [current])
  {
    PushKeepsPath(g, path, current);
  }

  /** Once all its successors have a state, marking the top node Visited and popping
      it keeps the invariant. */
  lemma PopKeepsInvariant(g: Graph, states: map<string, NodeState>, cycles: set<CycleChain>, path: seq<string>, current: string)
    requires SearchInvariant(g, states, cycles, path + [current])
    requires forall d :: d in Succ(g, current) ==> d in states
    requires Edge(g, current, current) ==> CycleChain([current, current]) in cycles
    ensures SearchInvariant(g, states[current := Visited], cycles, path)
  {
    var p := path + [current];
    assert current !in path by {
      assert p[|p| - 1] == current;
      forall k | 0 <= k < |path| ensures path[k] != current {
        assert p[k] == path[k];
      }
    }
    forall k | 0 <= k < |path| - 1 ensures Edge(g, path[k], path[k + 1]) {
      assert p[k] == path[k] && p[k + 1] == path[k + 1];
    }
    forall i, j | 0 <= i < j < |path| ensures path[i] != path[j] {
      assert p[i] == path[i] && p[j] == path[j];
    }
  }

  /** Pushing a successor of the path's last node, not yet on the path, keeps the
      path a repetition-free walk. */
  lemma PushKeepsPath(g: Graph, path: seq<string>, current: string)
    requires NoDup(path) && IsWalk(g, path) && current !in path
    requires path != [] ==> Edge(g, path[|path| - 1], current)
    ensures NoDup(path + [current]) && IsWalk(g, path + [current])
  {
    var p := path + [current];
    forall k | 0 <= k < |p| - 1 ensures Edge(g, p[k], p[k + 1]) {
      if k < |path| - 1 {
        assert p[k] == path[k] && p[k + 1] == path[k + 1];
      }
    }
  }

  /** The chain recorded when the search meets a node of its own path: the path from
      that node on, plus the node again, is a closed walk. */
  lemma ChainIsClosedWalk(g: Graph, p: seq<string>, i: nat, dependency: string)
    requires IsWalk(g, p) && i < |p| && p[i] == dependency
    requires Edge(g, p[|p| - 1], dependency)
    ensures IsClosedWalk(g, p[i..] + [dependency])
  {
    var chain := p[i..] + [dependency];
    forall k | 0 <= k < |chain| - 1 ensures Edge(g, chain[k], chain[k + 1]) {
      if k < |chain| - 2 {
        assert chain[k] == p[i + k] && chain[k + 1] == p[i + k + 1];
      }
    }
  }

  /** The rank a finished node was given, 0 for a node without one. */
  ghost function Order(rank: map<string, nat>, n: string): nat
  {
    if n in rank then rank[n] else 0
  }

  /** One more than the largest rank among `succs`: the rank a node is given when it
      finishes after all of them. */
  ghost function Above(rank: map<string, nat>, succs: seq<string>): (r: nat)
    ensures forall m :: m in succs ==> Order(rank, m) < r
  {
    if succs == [] then 1
    else
      var rest := Above(rank, succs[1..]);
      assert forall m :: m in succs ==> m == succs[0] || m in succs[1..];
      if Order(rank, succs[0]) < rest then rest else Order(rank, succs[0]) + 1
  }

  /** The order in which the search finishes nodes: while no chain has been recorded,
      every successor of a finished node is finished too, with a lower rank. */
  ghost predicate FinishOrder(g: Graph, states: map<string, NodeState>, cycles: set<CycleChain>, rank: map<string, nat>)
  {
    cycles == {} ==> forall n, m {:trigger Edge(g, n, m)} :: Edge(g, n, m) && n in states && states[n] == Visited ==>
      m in states && states[m] == Visited && Order(rank, m) < Order(rank, n)
  }

  /** Marking a new node Visiting leaves the finish order as it was. */
  lemma PushKeepsOrder(g: Graph, states: map<string, NodeState>, cycles: set<CycleChain>, rank: map<string, nat>, current: string)
    requires FinishOrder(g, states, cycles, rank) && current !in states
    ensures FinishOrder(g, states[current := Visiting], cycles, rank)
  {
  }

  /** Recording a chain leaves the finish order with nothing more to promise. */
  lemma RecordKeepsOrder(g: Graph, states: map<string, NodeState>, cycles: set<CycleChain>, rank: map<string, nat>, c: CycleChain)
    requires FinishOrder(g, states, cycles, rank)
    ensures FinishOrder(g, states, cycles + {c}, rank)
  {
  }

  /** Finishing a node whose successors, while no chain is recorded, all finished
      already, and ranking it above them, keeps the finish order. */
  lemma PopKeepsOrder(g: Graph, states: map<string, NodeState>, cycles: set<CycleChain>, rank: map<string, nat>, current: string)
    requires FinishOrder(g, states, cycles, rank)
    requires current in states && states[current] == Visiting
    requires cycles == {} ==> forall m :: m in Succ(g, current) ==> m in states && states[m] == Visited
    ensures FinishOrder(g, states[current := Visited], cycles, rank[current := Above(rank, Succ(g, current))])
  {
    var states', rank' := states[current := Visited], rank[current := Above(rank, Succ(g, current))];
    if cycles == {} {
      forall n, m | Edge(g, n, m) && n in states' && states'[n] == Visited
        ensures m in states' && states'[m] == Visited && Order(rank', m) < Order(rank', n)
      {
        if n == current {
          assert m != current && Order(rank', m) == Order(rank, m);
        } else {
          assert states[n] == Visited;
          assert m != current;
        }
      }
    }
  }

  /** A node meeting itself at the top of the path gives the chain [n, n]. */
  lemma SelfChain(p: seq<string>, i: nat)
    requires NoDup(p) && i < |p| && p[i] == p[|p| - 1]
    ensures p[i..] + [p[i]] == [p[i], p[i]]
  {
    assert i == |p| - 1;
  }

  /** Everything the detector keeps true between steps: the search invariant, a node
      set that covers the map, and the finish order. */
  ghost predicate Searching(g: Graph, nodes: set<string>, states: map<string, NodeState>, cycles: set<CycleChain>,
                            rank: map<string, nat>, path: seq<string>)
  {
    SearchInvariant(g, states, cycles, path) && Covers(g, nodes) && FinishOrder(g, states, cycles, rank)
  }

  /** Entering `dfs`: the new node is marked Visiting and pushed. */
  lemma PushStep(g: Graph, nodes: set<string>, states: map<string, NodeState>, cycles: set<CycleChain>,
                 rank: map<string, nat>, path: seq<string>, current: string)
    requires Searching(g, nodes, states, cycles, rank, path) && current !in states
    requires path != [] ==> Edge(g, path[|path| - 1], current)
    ensures Searching(g, nodes, states[current := Visiting], cycles, rank, path + [current])
  {
    PushKeepsInvariant(g, states, cycles, path, current);
    PushKeepsOrder(g, states, cycles, rank, current);
  }

  /** Leaving `dfs`: the node on top is marked Visited, ranked above its successors and popped. */
  lemma PopStep(g: Graph, nodes: set<string>, states: map<string, NodeState>, cycles: set<CycleChain>,
                rank: map<string, nat>, path: seq<string>, current: string)
    requires Searching(g, nodes, states, cycles, rank, path + [current])
    requires forall d :: d in Succ(g, current) ==> d in states
    requires Edge(g, current, current) ==> CycleChain([current, current]) in cycles
    requires cycles == {} ==> forall d :: d in Succ(g, current) ==> states[d] == Visited
    ensures Searching(g, nodes, states[current := Visited], cycles, rank[current := Above(rank, Succ(g, current))], path)
  {
    assert current in path + [current];
    PopKeepsInvariant(g, states, cycles, path, current);
    PopKeepsOrder(g, states, cycles, rank, current);
  }

  /** A successor found Visiting lies on the path. */
  lemma VisitingOnPath(g: Graph, nodes: set<string>, states: map<string, NodeState>, cycles: set<CycleChain>,
                       rank: map<string, nat>, path: seq<string>, n: string)
    requires Searching(g, nodes, states, cycles, rank, path)
    requires n in states && states[n] == Visiting
    ensures n in path
  {
  }

  /** Recording the chain that closes at position `i` of the path keeps everything. */
  lemma RecordStep(g: Graph, nodes: set<string>, states: map<string, NodeState>, cycles: set<CycleChain>,
                   rank: map<string, nat>, p: seq<string>, i: nat, dependency: string)
    requires Searching(g, nodes, states, cycles, rank, p)
    requires i < |p| && p[i] == dependency && Edge(g, p[|p| - 1], dependency)
    ensures Searching(g, nodes, states, cycles + {CycleChain(p[i..] + [dependency])}, rank, p)
  {
    ChainIsClosedWalk(g, p, i, dependency);
    RecordKeepsOrder(g, states, cycles, rank, CycleChain(p[i..] + [dependency]));
  }

  /** When the search is over, with every key given a state: every node is finished,
      each finished node's successors have a state, every chain is a closed walk, self
      loops are recorded, and a search that recorded no chain has proved the map
      acyclic, its finish order being a rank that every edge lowers. */
  lemma {:induction false} SearchDone(g: Graph, nodes: set<string>, states: map<string, NodeState>, cycles: set<CycleChain>,
                                      rank: map<string, nat>)
    requires Searching(g, nodes, states, cycles, rank, [])
    requires forall n :: n in g ==> n in states
    ensures forall n :: n in states ==> states[n] == Visited
    ensures forall n, m :: n in states && m in Succ(g, n) ==> m in states
    ensures forall c :: c in cycles ==> IsClosedWalk(g, c.chain)
    ensures forall n :: n in g && Edge(g, n, n) ==> CycleChain([n, n]) in cycles
    ensures cycles == {} ==> Acyclic(g)
  {
    if cycles == {} {
      var finished := n => Order(rank, n);
      forall a, b | Edge(g, a, b) ensures finished(b) < finished(a) {
        assert a in g && a in states;
      }
      RankedIsAcyclic(g, finished);
    }
  }
}

/** The three-colour depth-first cycle detector (dependency/cycle.rs). */
module Cycle {

  import opened Wrappers
  import opened Graphs
  import opened CycleSearch

  /** `path.iter().position(..)`: the first index holding `x`. */
  function Position(s: seq<string>, x: string): (r: Option<nat>)
    ensures r.None? <==> x !in s
    ensures r.Some? ==> r.value < |s| && s[r.value] == x && x !in s[..r.value]
  {
    if s == [] then None
    else if s[0] == x then Some(0)
    else
      match Position(s[1..], x)
      case None => None
      case Some(i) =>
        assert s[..i + 1] == [s[0]] + s[1..][..i];
        Some(i + 1)
  }

  class CycleDetector {
    const grouped: Graph
    /** Every node of `grouped`; the search marks each at most once. */
    ghost const nodes: set<string>
    var states: map<string, NodeState>
    var cycles: set<CycleChain>
    /** The finish order of the search: each finished node ranks above its successors. */
    ghost var rank: map<string, nat>

    constructor(grouped: Graph)
      ensures this.grouped == grouped && nodes == Nodes(grouped)
      ensures Initial()
    {
      this.grouped := grouped;
      nodes := Nodes(grouped);
      NodesCover(grouped);
      states := map[];
      cycles := {};
      rank := map[];
    }

    /** A detector nobody has searched with yet. */
    ghost predicate Initial()
      reads this
    {
      states == map[] && cycles == {} && rank == map[] && Covers(grouped, nodes)
    }

    ghost predicate Inv(path: seq<string>)
      reads this
    {
      Searching(grouped, nodes, states, cycles, rank, path)
    }

    /** `find_cycles`: a search from every key that has no state yet. The detector
        is used once, from its initial state. */
    method FindCycles() returns (result: set<CycleChain>)
      requires Initial()
      modifies this
      ensures result == cycles
      ensures forall c :: c in result ==> IsClosedWalk(grouped, c.chain)
      ensures Acyclic(grouped) <==> result == {}
      ensures forall n :: n in grouped ==> n in states
      ensures forall n :: n in states ==> states[n] == Visited
      ensures forall n, m :: n in states && m in Succ(grouped, n) ==> m in states
      ensures forall n :: n in grouped && Edge(grouped, n, n) ==> CycleChain([n, n]) in result
    {
      var remaining := grouped.Keys;
      while remaining != {}
        invariant remaining <= grouped.Keys
        invariant Inv([])
        invariant forall n :: n in grouped && n !in remaining ==> n in states
        decreases remaining
      {
        var node :| node in remaining;
        if node !in states {
          var _ := Dfs(node, []);
        }
        remaining := remaining - {node};
      }
      result := cycles;
      SearchDone(grouped, nodes, states, cycles, rank);
    }

    /** `dfs`: mark the node Visiting, push it, examine its successors in order, then
        pop it and mark it Visited. */
    method Dfs(current: string, path: seq<string>) returns (pathOut: seq<string>)
      requires Inv(path)
      requires current !in states && current in nodes
      requires path != [] ==> Edge(grouped, path[|path| - 1], current)
      modifies this
      ensures pathOut == path
      ensures Inv(path)
      ensures current in states && states[current] == Visited
      ensures Extends(old(states), states)
      ensures old(cycles) <= cycles
      ensures Succ(grouped, current) == [] ==> cycles == old(cycles)
      decreases |nodes - states.Keys|, 0
    {
      var p := Enter(current, path);
      p := CheckDependencies(current, p);
      pathOut := Leave(current, p, old(states));
    }

    /** The start of `dfs`: the node is marked Visiting and pushed on the path. */
    method Enter(current: string, path: seq<string>) returns (p: seq<string>)
      requires Inv(path)
      requires current !in states && current in nodes
      requires path != [] ==> Edge(grouped, path[|path| - 1], current)
      modifies this
      ensures p == path + [current]
      ensures Inv(p)
      ensures states == old(states)[current := Visiting] && cycles == old(cycles)
      ensures |nodes - states.Keys| < |nodes - old(states).Keys|
    {
      PushStep(grouped, nodes, states, cycles, rank, path, current);
      states := states[current := Visiting];
      FewerUnvisited(nodes, old(states).Keys, states.Keys, current);
      p := path + [current];
    }

    /** The end of `dfs`: once every successor has a state, the node is popped and
        marked Visited, ranked above its successors; the states from before its
        entry are kept. */
    method Leave(current: string, p: seq<string>, ghost entry: map<string, NodeState>) returns (path: seq<string>)
      requires p != [] && p[|p| - 1] == current && Inv(p)
      requires current !in entry && Extends(entry[current := Visiting], states)
      requires forall d :: d in Succ(grouped, current) ==> d in states
      requires Edge(grouped, current, current) ==> CycleChain([current, current]) in cycles
      requires cycles == {} ==> forall d :: d in Succ(grouped, current) ==> states[d] == Visited
      modifies this
      ensures path == p[..|p| - 1]
      ensures Inv(path)
      ensures states == old(states)[current := Visited] && cycles == old(cycles)
      ensures Extends(entry, states)
    {
      ExtendsAround(entry, states, current);
      path := p[..|p| - 1];
      assert p == path + [current];
      PopStep(grouped, nodes, states, cycles, rank, path, current);
      states, rank := states[current := Visited], rank[current := Above(rank, Succ(grouped, current))];
    }

    /** The loop of `dfs` over the successors of the node on top of the path, in
        order: afterwards every successor has a state, and a node listing itself has
        recorded `[n, n]`. */
    method CheckDependencies(current: string, p: seq<string>) returns (pOut: seq<string>)
      requires Inv(p) && p != [] && p[|p| - 1] == current
      requires current in states && states[current] == Visiting
      modifies this
      ensures pOut == p
      ensures Inv(p)
      ensures Extends(old(states), states)
      ensures old(cycles) <= cycles
      ensures forall d :: d in Succ(grouped, current) ==> d in states
      ensures Edge(grouped, current, current) ==> CycleChain([current, current]) in cycles
      ensures Succ(grouped, current) == [] ==> cycles == old(cycles)
      ensures cycles == {} ==> forall d :: d in Succ(grouped, current) ==> states[d] == Visited
      decreases |nodes - states.Keys|, 2
    {
      pOut := p;
      var dependencies := Succ(grouped, current);
      var j := 0;
      ghost var seen: set<string> := {};
      while j < |dependencies|
        invariant 0 <= j <= |dependencies|
        invariant pOut == p
        invariant Inv(p)
        invariant Extends(old(states), states)
        invariant old(cycles) <= cycles
        invariant seen <= states.Keys
        invariant forall k :: 0 <= k < j ==> dependencies[k] in seen
        invariant current in seen ==> CycleChain([current, current]) in cycles
        invariant dependencies == [] ==> cycles == old(cycles)
        invariant cycles == {} ==> forall k :: 0 <= k < j ==> states[dependencies[k]] == Visited
      {
        seen := seen + {dependencies[j]};
        assert forall k :: 0 <= k < j + 1 ==> dependencies[k] in seen;
        NoMoreUnvisited(nodes, old(states).Keys, states.Keys);
        ghost var before := states;
        pOut := Examine(current, dependencies[j], pOut);
        ExtendsTrans(old(states), before, states);
        j := j + 1;
      }
    }

    /** One successor of the node on top of the path (the body of the loop in `dfs`):
        a successor being visited closes a cycle, which is recorded; a finished one
        is skipped; a new one is searched from. */
    method Examine(current: string, dependency: string, p: seq<string>) returns (pOut: seq<string>)
      requires Inv(p) && p != [] && p[|p| - 1] == current
      requires current in states && states[current] == Visiting
      requires Edge(grouped, current, dependency)
      modifies this
      ensures pOut == p
      ensures Inv(p)
      ensures dependency in states
      ensures Extends(old(states), states)
      ensures old(cycles) <= cycles
      ensures dependency == current ==> CycleChain([current, current]) in cycles
      ensures dependency in old(states) && old(states)[dependency] == Visiting ==>
        && Position(p, dependency).Some?
        && cycles == old(cycles) + {CycleChain(p[Position(p, dependency).value..] + [dependency])}
        && states == old(states)
      ensures dependency in old(states) && old(states)[dependency] == Visited ==>
        cycles == old(cycles) && states == old(states)
      ensures dependency !in old(states) ==> states[dependency] == Visited
      ensures cycles == {} ==> states[dependency] == Visited
      decreases |nodes - states.Keys|, 1
    {
      pOut := p;
      if dependency in states && states[dependency] == Visiting {
        VisitingOnPath(grouped, nodes, states, cycles, rank, p, dependency);
        var start := Position(p, dependency);
        match start {
          case Some(i) =>
            var chain := p[i..] + [dependency];
            if dependency == current {
              SelfChain(p, i);
            }
            RecordStep(grouped, nodes, states, cycles, rank, p, i, dependency);
            cycles := cycles + {CycleChain(chain)};
          case None =>
        }
      } else if dependency !in states {
        pOut := Dfs(dependency, p);
      }
    }
  }
}
