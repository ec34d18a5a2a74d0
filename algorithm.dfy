/** The search-engine base class of `Algorithm.ts`: the adjacency map built by
    the constructor, `makeAction` with its `save` flag, `buildPath` with its
    cache of the previously drawn path, `showCurrentPath` and
    `resetGraphVisual`.  The pure functions before the class specify what
    `buildPath` computes. */
module Engine {
  import opened Common
  import opened Graph
  import opened Styles
  import opened Actions

  datatype AlgorithmType = DFS | Dijkstra | AStar

  // ---------------------------------------------------------------------------
  // Specification of buildPath
  // ---------------------------------------------------------------------------

  /** The nodes `buildPath`'s loop visits from `child`, having visited `visited`. */
  function WalkFrom(pm: map<Node, Node>, start: Node, child: Node, visited: set<Node>): seq<Node>
    requires visited <= pm.Keys
    decreases |pm.Keys - visited|
  {
    if child in pm && child !in visited && child != start then
      assert pm.Keys - (visited + {child}) < pm.Keys - visited;
      [child] + WalkFrom(pm, start, pm[child], visited + {child})
    else []
  }

  /** The walk from `end` through the parent map. */
  function Walk(pm: map<Node, Node>, start: Node, end: Node): seq<Node> {
    WalkFrom(pm, start, end, {})
  }

  /** The actions staged for one walked node `c`. */
  function StepOf(graph: map<Node, seq<Adj>>, pm: map<Node, Node>, end: Node, c: Node,
                  cache: seq<Edge>, ignoreCache: bool): seq<StateChange>
    requires c in graph && c in pm
  {
    (if c != end then [Make(BuildPathNode, OnNode(c))] else [])
    + match FindEdge(graph[c], pm[c])
      case None => []
      case Some(e) =>
        if e !in cache || ignoreCache then [Arrow(e, e.source == c), Make(BuildPathEdge, OnEdge(e))] else []
  }

  predicate Walkable(graph: map<Node, seq<Adj>>, pm: map<Node, Node>, w: seq<Node>) {
    forall c :: c in w ==> c in graph && c in pm
  }

  /** The actions staged along the walked nodes `w`, in walk order. */
  function Steps(graph: map<Node, seq<Adj>>, pm: map<Node, Node>, end: Node, w: seq<Node>,
                 cache: seq<Edge>, ignoreCache: bool): seq<StateChange>
    requires Walkable(graph, pm, w)
  {
    if w == [] then []
    else
      Steps(graph, pm, end, w[..|w| - 1], cache, ignoreCache)
      + StepOf(graph, pm, end, w[|w| - 1], cache, ignoreCache)
  }

  /** The path edges found along `w`, as a set in insertion order. */
  function FoundEdges(graph: map<Node, seq<Adj>>, pm: map<Node, Node>, w: seq<Node>): (r: seq<Edge>)
    requires Walkable(graph, pm, w)
    ensures NoDup(r)
  {
    if w == [] then []
    else
      var p := FoundEdges(graph, pm, w[..|w| - 1]);
      var c := w[|w| - 1];
      match FindEdge(graph[c], pm[c])
      case None => p
      case Some(e) => Add(p, e)
  }

  function RevertNode(n: Node): StateChange {
    Change(ProcessedNode, OnNode(n), Lookup(NodeProcessed))
  }

  function RevertEdgeChange(e: Edge): StateChange {
    Change(ShowEdgeDirection, OnEdge(e), Some(RevertEdge()))
  }

  /** PROCESSED_NODE for every cached node not on the new path, in cache order. */
  function NodeReverts(prev: seq<Node>, now: seq<Node>): seq<StateChange> {
    if prev == [] then []
    else
      NodeReverts(prev[..|prev| - 1], now)
      + (if prev[|prev| - 1] in now then [] else [RevertNode(prev[|prev| - 1])])
  }

  /** The reverting SHOW_EDGE_DIRECTION for every cached edge not on the new path. */
  function EdgeReverts(prev: seq<Edge>, now: seq<Edge>): seq<StateChange> {
    if prev == [] then []
    else
      EdgeReverts(prev[..|prev| - 1], now)
      + (if prev[|prev| - 1] in now then [] else [RevertEdgeChange(prev[|prev| - 1])])
  }

  /** What `buildPath(start, end, ignoreCache)` returns: a TypeError when a
      walked node has no adjacency list, otherwise the staged actions followed,
      unless the cache is ignored, by the reverts of the previous path. */
  function BuildPathResult(graph: map<Node, seq<Adj>>, pm: map<Node, Node>,
                           prevNodes: seq<Node>, prevEdges: seq<Edge>,
                           start: Node, end: Node, ignoreCache: bool): Result<seq<StateChange>>
  {
    var w := Walk(pm, start, end);
    if !Walkable(graph, pm, w) then Err(TypeError)
    else
      var now := FoundEdges(graph, pm, w);
      Ok(Steps(graph, pm, end, w, prevEdges, ignoreCache)
         + (if ignoreCache then [] else NodeReverts(prevNodes, w) + EdgeReverts(prevEdges, now)))
  }

  /** The operations `resetGraphVisual` performs for one node and its edges. */
  function ResetNode(n: Node, adj: seq<Adj>): (r: seq<Op>)
    ensures |r| == |adj| + 1
  {
    if adj == [] then [Do(Make(NodeStatelessKind, OnNode(n)), None)]
    else ResetNode(n, adj[..|adj| - 1]) + [Do(Make(EdgeStatelessKind, OnEdge(adj[|adj| - 1].element)), None)]
  }

  function ResetOps(order: seq<Node>, graph: map<Node, seq<Adj>>): seq<Op>
    requires forall n :: n in order ==> n in graph
  {
    if order == [] then []
    else ResetOps(order[..|order| - 1], graph) + ResetNode(order[|order| - 1], graph[order[|order| - 1]])
  }

  // ---------------------------------------------------------------------------
  // The engine
  // ---------------------------------------------------------------------------

  /** Every entry of `pm` is an entry of `pm0` or has its parent in `visited`. */
  ghost predicate ParentsFrom(pm0: map<Node, Node>, pm: map<Node, Node>, visited: set<Node>) {
    forall c :: c in pm ==> (c in pm0 && pm[c] == pm0[c]) || pm[c] in visited
  }

  /** Every list of the map is the node's `Incident` list. */
  ghost predicate IncidentMap(g: map<Node, seq<Adj>>, edges: seq<Edge>) {
    forall n :: n in g ==> g[n] == Incident(n, edges)
  }

  class Algorithm {
    const kind: AlgorithmType
    /** The actions saved by `makeAction(..., true)`. */
    var actions: seq<StateChange>
    var parentMap: map<Node, Node>
    /** The adjacency map, and the order in which it iterates its keys. */
    const graph: map<Node, seq<Adj>>
    const order: seq<Node>
    /** `#previousPathNode` and `#previousPathEdge`, in insertion order. */
    var prevPathNode: seq<Node>
    var prevPathEdge: seq<Edge>

    ghost predicate Valid()
      reads this`prevPathNode, this`prevPathEdge
    {
      NoDup(order) && Elems(order) == graph.Keys && NoDup(prevPathNode) && NoDup(prevPathEdge)
    }

    /** The adjacency map holds one list per input node, built by `Incident`. */
    ghost predicate Built(nodes: seq<Node>, edges: seq<Edge>)
      reads this
    {
      order == Dedup(nodes) && graph.Keys == Elems(nodes) && IncidentMap(graph, edges)
    }

    constructor (kind: AlgorithmType, nodes: seq<Node>, edges: seq<Edge>)
      ensures Valid() && Built(nodes, edges)
      ensures this.kind == kind && actions == [] && parentMap == map[]
      ensures prevPathNode == [] && prevPathEdge == []
    {
      var g: map<Node, seq<Adj>> := map[];
      var o: seq<Node> := [];
      var i := 0;
      while i < |nodes|
        invariant 0 <= i <= |nodes|
        invariant o == Dedup(nodes[..i]) && g.Keys == Elems(nodes[..i])
        invariant IncidentMap(g, edges)
      {
        var node := nodes[i];
        PrefixStep(nodes, i);
        g := g[node := Incident(node, edges)];
        o := Add(o, node);
        i := i + 1;
      }
      assert nodes[..i] == nodes;
      this.kind := kind;
      actions := [];
      parentMap := map[];
      graph := g;
      order := o;
      prevPathNode := [];
      prevPathEdge := [];
    }

    /** makeAction(kind, element, save): the action is appended to `actions`
        only when it was made and `save` is true. */
    method MakeActionSaving(k: Kind, t: Target, save: bool) returns (r: Result<StateChange>)
      modifies this`actions
      ensures r == MakeAction(k, t)
      ensures actions == if r.Ok? && save then old(actions) + [r.value] else old(actions)
    {
      r := MakeAction(k, t);
      if r.Ok? && save {
        actions := actions + [r.value];
      }
    }

    /** buildPath(start, end, ignoreCache): returns the actions of
        `BuildPathResult` and replaces the cache by the walked nodes and the
        edges found along them; a TypeError leaves the cache as it was. */
    method BuildPath(start: Node, end: Node, ignoreCache: bool) returns (r: Result<seq<StateChange>>)
      requires Valid()
      modifies this`prevPathNode, this`prevPathEdge
      ensures Valid()
      ensures r == BuildPathResult(graph, parentMap, old(prevPathNode), old(prevPathEdge), start, end, ignoreCache)
      ensures r.Ok? ==> (prevPathNode == Walk(parentMap, start, end)
                         && prevPathEdge == FoundEdges(graph, parentMap, prevPathNode))
      ensures r.Err? ==> prevPathNode == old(prevPathNode) && prevPathEdge == old(prevPathEdge)
    {
      var pm, g, cachedNodes, cachedEdges := parentMap, graph, prevPathNode, prevPathEdge;
      var walked := FollowParents(g, pm, cachedEdges, start, end, ignoreCache);
      if walked.Err? {
        BuildPathFails(g, pm, cachedNodes, cachedEdges, start, end, ignoreCache);
        return Err(TypeError);
      }
      var (acts, pathNode, pathEdge) := walked.value;
      BuildPathOk(g, pm, cachedNodes, cachedEdges, start, end, ignoreCache);
      if !ignoreCache {
        var nodeActs := StaleNodeReverts(cachedNodes, pathNode);
        var edgeActs := StaleEdgeReverts(cachedEdges, pathEdge);
        acts := acts + (nodeActs + edgeActs);
      } else {
        assert acts + [] == acts;
      }
      WalkNoDup(pm, start, end);
      prevPathEdge := pathEdge;
      prevPathNode := pathNode;
      r := Ok(acts);
    }

    /** showCurrentPath(start, end): the buildPath actions with the cache in
        use, wrapped so that perform and undo run them in order. */
    method ShowCurrentPath(start: Node, end: Node) returns (r: Result<Action>)
      requires Valid()
      modifies this`prevPathNode, this`prevPathEdge
      ensures Valid()
      ensures var b := BuildPathResult(graph, parentMap, old(prevPathNode), old(prevPathEdge), start, end, false);
              r == if b.Ok? then Ok(CurrentPath(b.value)) else Err(b.error)
      ensures r.Ok? ==> (prevPathNode == Walk(parentMap, start, end)
                         && prevPathEdge == FoundEdges(graph, parentMap, prevPathNode))
      ensures r.Err? ==> prevPathNode == old(prevPathNode) && prevPathEdge == old(prevPathEdge)
    {
      var b := BuildPath(start, end, false);
      if b.Err? {
        return Err(b.error);
      }
      r := Ok(CurrentPath(b.value));
    }

    /** resetGraphVisual(): NODE_STATELESS for every node of the map, each
        followed by EDGE_STATELESS for its edges, in map order. */
    method ResetGraphVisual() returns (ops: seq<Op>)
      requires Valid()
      ensures ops == ResetOps(order, graph)
    {
      ops := ResetAll(order, graph);
    }
  }

  /** The outer loop of resetGraphVisual over the nodes in map order. */
  method ResetAll(order: seq<Node>, graph: map<Node, seq<Adj>>) returns (ops: seq<Op>)
    requires forall n :: n in order ==> n in graph
    ensures ops == ResetOps(order, graph)
  {
    ops := [];
    var i := 0;
    while i < |order|
      invariant 0 <= i <= |order|
      invariant ops == ResetOps(order[..i], graph)
    {
      var node := order[i];
      assert order[..i + 1][..i] == order[..i] && order[..i + 1][i] == node;
      var part := ResetEdges(node, graph[node]);
      ops := ops + part;
      i := i + 1;
    }
    assert order[..i] == order;
  }

  /** The inner loop of resetGraphVisual: NODE_STATELESS, then EDGE_STATELESS per edge. */
  method ResetEdges(node: Node, adj: seq<Adj>) returns (part: seq<Op>)
    ensures part == ResetNode(node, adj)
  {
    part := [Do(Make(NodeStatelessKind, OnNode(node)), None)];
    var j := 0;
    while j < |adj|
      invariant 0 <= j <= |adj|
      invariant part == ResetNode(node, adj[..j])
    {
      assert adj[..j + 1][..j] == adj[..j];
      part := part + [Do(Make(EdgeStatelessKind, OnEdge(adj[j].element)), None)];
      j := j + 1;
    }
    assert adj[..j] == adj;
  }

  /** One turn of `buildPath`'s loop moves `child` from the rest of the walk to its visited part. */
  lemma WalkStep(pm: map<Node, Node>, start: Node, child: Node, visited: set<Node>, done: seq<Node>, w: seq<Node>)
    requires visited <= pm.Keys && child in pm && child !in visited && child != start
    requires w == done + WalkFrom(pm, start, child, visited)
    ensures child in w && visited + {child} <= pm.Keys
    ensures w == (done + [child]) + WalkFrom(pm, start, pm[child], visited + {child})
    ensures |pm.Keys - (visited + {child})| < |pm.Keys - visited|
  {
    var rest := WalkFrom(pm, start, pm[child], visited + {child});
    assert WalkFrom(pm, start, child, visited) == [child] + rest;
    assert done + ([child] + rest) == (done + [child]) + rest;
    assert pm.Keys - (visited + {child}) < pm.Keys - visited;
  }

  /** A walked node without an adjacency list makes `buildPath` throw. */
  lemma BuildPathFails(graph: map<Node, seq<Adj>>, pm: map<Node, Node>, prevNodes: seq<Node>, prevEdges: seq<Edge>,
                       start: Node, end: Node, ignoreCache: bool)
    requires !Walkable(graph, pm, Walk(pm, start, end))
    ensures BuildPathResult(graph, pm, prevNodes, prevEdges, start, end, ignoreCache) == Err(TypeError)
  {
  }

  /** What `buildPath` returns once the whole walk could be followed. */
  lemma BuildPathOk(graph: map<Node, seq<Adj>>, pm: map<Node, Node>, prevNodes: seq<Node>, prevEdges: seq<Edge>,
                    start: Node, end: Node, ignoreCache: bool)
    requires Walkable(graph, pm, Walk(pm, start, end))
    ensures var w := Walk(pm, start, end);
            BuildPathResult(graph, pm, prevNodes, prevEdges, start, end, ignoreCache)
            == Ok(Steps(graph, pm, end, w, prevEdges, ignoreCache)
                  + (if ignoreCache then [] else NodeReverts(prevNodes, w) + EdgeReverts(prevEdges, FoundEdges(graph, pm, w))))
  {
  }

  /** One more walked node: what it adds to the staged actions and found edges. */
  lemma StepsSnoc(graph: map<Node, seq<Adj>>, pm: map<Node, Node>, end: Node, w: seq<Node>, c: Node,
                  cache: seq<Edge>, ignoreCache: bool)
    requires Walkable(graph, pm, w) && c in graph && c in pm
    ensures Walkable(graph, pm, w + [c])
    ensures Steps(graph, pm, end, w + [c], cache, ignoreCache)
            == Steps(graph, pm, end, w, cache, ignoreCache) + StepOf(graph, pm, end, c, cache, ignoreCache)
    ensures FoundEdges(graph, pm, w + [c])
            == match FindEdge(graph[c], pm[c]) case None => FoundEdges(graph, pm, w) case Some(e) => Add(FoundEdges(graph, pm, w), e)
  {
    assert (w + [c])[..|w|] == w;
  }

  /** The loop of `buildPath`: follow the parent map from `end`, staging the
      actions of each node and collecting the path nodes and edges; a node
      without an adjacency list makes `graph.get(child).find` throw. */
  method FollowParents(g: map<Node, seq<Adj>>, pm: map<Node, Node>, cache: seq<Edge>,
                       start: Node, end: Node, ignoreCache: bool)
    returns (r: Result<(seq<StateChange>, seq<Node>, seq<Edge>)>)
    ensures r.Ok? <==> Walkable(g, pm, Walk(pm, start, end))
    ensures r.Ok? ==> r.value == (Steps(g, pm, end, Walk(pm, start, end), cache, ignoreCache),
                                  Walk(pm, start, end), FoundEdges(g, pm, Walk(pm, start, end)))
  {
      var child := end;
      var acts: seq<StateChange> := [];
      var visited: set<Node> := {};
      var pathEdge: seq<Edge> := [];
      var pathNode: seq<Node> := [];
      ghost var w := Walk(pm, start, end);
      while child in pm && child !in visited && child != start
        invariant visited <= pm.Keys
        invariant w == pathNode + WalkFrom(pm, start, child, visited)
        invariant Walkable(g, pm, pathNode)
        invariant acts == Steps(g, pm, end, pathNode, cache, ignoreCache)
        invariant pathEdge == FoundEdges(g, pm, pathNode)
        decreases |pm.Keys - visited|
      {
        WalkStep(pm, start, child, visited, pathNode, w);
        if child !in g {
          return Err(TypeError);
        }
        var parent := pm[child];
        var nodeStep := if child != end then [Make(BuildPathNode, OnNode(child))] else [];
        var edgeStep := [];
        var found := FindEdge(g[child], parent);
        if found.Some? {
          var e := found.value;
          pathEdge := Add(pathEdge, e);
          if e !in cache || ignoreCache {
            edgeStep := [Arrow(e, e.source == child), Make(BuildPathEdge, OnEdge(e))];
          }
        }
        var step := nodeStep + edgeStep;
        assert step == StepOf(g, pm, end, child, cache, ignoreCache);
        StepsSnoc(g, pm, end, pathNode, child, cache, ignoreCache);
        acts := acts + step;
        pathNode := pathNode + [child];
        visited := visited + {child};
        child := parent;
      }
      assert WalkFrom(pm, start, child, visited) == [];
      assert pathNode == w;
      r := Ok((acts, pathNode, pathEdge));
  }

  /** The loop of `buildPath` over the previous path nodes. */
  method StaleNodeReverts(prev: seq<Node>, now: seq<Node>) returns (acts: seq<StateChange>)
    ensures acts == NodeReverts(prev, now)
  {
    acts := [];
    var i := 0;
    while i < |prev|
      invariant 0 <= i <= |prev|
      invariant acts == NodeReverts(prev[..i], now)
    {
      assert prev[..i + 1][..i] == prev[..i];
      if prev[i] !in now {
        acts := acts + [RevertNode(prev[i])];
      }
      i := i + 1;
    }
    assert prev[..i] == prev;
  }

  /** The loop of `buildPath` over the previous path edges. */
  method StaleEdgeReverts(prev: seq<Edge>, now: seq<Edge>) returns (acts: seq<StateChange>)
    ensures acts == EdgeReverts(prev, now)
  {
    acts := [];
    var i := 0;
    while i < |prev|
      invariant 0 <= i <= |prev|
      invariant acts == EdgeReverts(prev[..i], now)
    {
      assert prev[..i + 1][..i] == prev[..i];
      if prev[i] !in now {
        acts := acts + [RevertEdgeChange(prev[i])];
      }
      i := i + 1;
    }
    assert prev[..i] == prev;
  }

  // ---------------------------------------------------------------------------
  // Properties of buildPath
  // ---------------------------------------------------------------------------

  /** The walk never repeats a node, never contains `start`, and stays in the
      parent map (it can contain `end` only as its first node). */
  lemma {:induction false} WalkFromShape(pm: map<Node, Node>, start: Node, child: Node, visited: set<Node>)
    requires visited <= pm.Keys
    ensures var w := WalkFrom(pm, start, child, visited);
            NoDup(w) && start !in w
            && (forall c :: c in w ==> c in pm && c !in visited)
    decreases |pm.Keys - visited|
  {
    if child in pm && child !in visited && child != start {
      assert pm.Keys - (visited + {child}) < pm.Keys - visited;
      WalkFromShape(pm, start, pm[child], visited + {child});
    }
  }

  lemma WalkNoDup(pm: map<Node, Node>, start: Node, end: Node)
    ensures NoDup(Walk(pm, start, end)) && start !in Walk(pm, start, end)
    ensures forall c :: c in Walk(pm, start, end) ==> c in pm
  {
    WalkFromShape(pm, start, end, {});
  }

  /** The walk starts at `child`, each node is followed by its parent, and it
      stops at a node whose parent is missing from the map, is `start`, or was
      already visited. */
  lemma {:induction false} WalkFromChain(pm: map<Node, Node>, start: Node, child: Node, visited: set<Node>)
    requires visited <= pm.Keys
    ensures var w := WalkFrom(pm, start, child, visited);
            (w != [] ==> w[0] == child)
            && (forall k :: 0 <= k < |w| - 1 ==> w[k] in pm && w[k + 1] == pm[w[k]])
            && (w == [] ==> child !in pm || child in visited || child == start)
            && (w != [] ==> w[|w| - 1] in pm
                            && var p := pm[w[|w| - 1]]; p !in pm || p == start || p in visited || p in w)
    decreases |pm.Keys - visited|
  {
    if child in pm && child !in visited && child != start {
      assert pm.Keys - (visited + {child}) < pm.Keys - visited;
      var rest := WalkFrom(pm, start, pm[child], visited + {child});
      WalkFromChain(pm, start, pm[child], visited + {child});
      var w := [child] + rest;
      assert WalkFrom(pm, start, child, visited) == w;
      forall k | 0 <= k < |w| - 1
        ensures w[k] in pm && w[k + 1] == pm[w[k]]
      {
        if k > 0 {
          assert w[k] == rest[k - 1] && w[k + 1] == rest[k];
        }
      }
      if rest != [] {
        assert w[|w| - 1] == rest[|rest| - 1];
        assert forall x :: x in rest ==> x in w;
      }
    }
  }

  /** `buildPath` follows the parent map from `end`: the walk starts at `end`,
      goes from each node to its parent, and ends where the parent is missing,
      is `start`, or closes a cycle. */
  lemma WalkIsParentChain(pm: map<Node, Node>, start: Node, end: Node)
    ensures var w := Walk(pm, start, end);
            (w == [] <==> end !in pm || end == start)
            && (w != [] ==> w[0] == end)
            && (forall k :: 0 <= k < |w| - 1 ==> w[k] in pm && w[k + 1] == pm[w[k]])
            && (w != [] ==> w[|w| - 1] in pm && var p := pm[w[|w| - 1]]; p !in pm || p == start || p in w)
  {
    WalkFromChain(pm, start, end, {});
  }

  /** BUILD_PATH_NODE is staged exactly for the walked nodes other than `end`. */
  lemma {:induction false} PathNodeMarks(g: map<Node, seq<Adj>>, pm: map<Node, Node>, end: Node, w: seq<Node>,
                                         cache: seq<Edge>, ignoreCache: bool, n: Node)
    requires Walkable(g, pm, w)
    ensures Make(BuildPathNode, OnNode(n)) in Steps(g, pm, end, w, cache, ignoreCache) <==> n in w && n != end
  {
    if w != [] {
      var init, c := w[..|w| - 1], w[|w| - 1];
      assert w == init + [c];
      assert Walkable(g, pm, init);
      PathNodeMarks(g, pm, end, init, cache, ignoreCache, n);
      var x := Make(BuildPathNode, OnNode(n));
      var st := StepOf(g, pm, end, c, cache, ignoreCache);
      assert x in st <==> c == n && c != end;
    }
  }

  /** An edge action staged along the walk is on a found path edge, and a
      found edge gets its arrow and BUILD_PATH_EDGE exactly when the cache is
      ignored or the edge was not on the previous path. */
  lemma PathEdgeMarks(g: map<Node, seq<Adj>>, pm: map<Node, Node>, end: Node, w: seq<Node>,
                      cache: seq<Edge>, ignoreCache: bool)
    requires Walkable(g, pm, w)
    ensures var st := Steps(g, pm, end, w, cache, ignoreCache);
            var found := FoundEdges(g, pm, w);
            (forall x :: x in st && x.target.OnEdge? ==>
               x.target.edge in found && (ignoreCache || x.target.edge !in cache))
            && (forall e :: e in found && (ignoreCache || e !in cache) ==>
                  Make(BuildPathEdge, OnEdge(e)) in st)
  {
    StagedEdgesFound(g, pm, end, w, cache, ignoreCache);
    FoundEdgesMarked(g, pm, end, w, cache, ignoreCache);
  }

  lemma {:induction false} StagedEdgesFound(g: map<Node, seq<Adj>>, pm: map<Node, Node>, end: Node, w: seq<Node>,
                                            cache: seq<Edge>, ignoreCache: bool)
    requires Walkable(g, pm, w)
    ensures forall x :: x in Steps(g, pm, end, w, cache, ignoreCache) && x.target.OnEdge? ==>
              x.target.edge in FoundEdges(g, pm, w) && (ignoreCache || x.target.edge !in cache)
  {
    if w != [] {
      var init, c := w[..|w| - 1], w[|w| - 1];
      assert Walkable(g, pm, init);
      StagedEdgesFound(g, pm, end, init, cache, ignoreCache);
      var st0 := Steps(g, pm, end, init, cache, ignoreCache);
      var one := StepOf(g, pm, end, c, cache, ignoreCache);
      assert Steps(g, pm, end, w, cache, ignoreCache) == st0 + one;
      FoundEdgesStep(g, pm, w);
      StepOfEdges(g, pm, end, c, cache, ignoreCache);
      forall x: StateChange | x in st0 + one && x.target.OnEdge?
        ensures x.target.edge in FoundEdges(g, pm, w) && (ignoreCache || x.target.edge !in cache)
      {
        if x !in st0 {
          assert x in one;
        }
      }
    }
  }

  /** The edge actions of one step are on the edge found for that node. */
  lemma StepOfEdges(g: map<Node, seq<Adj>>, pm: map<Node, Node>, end: Node, c: Node,
                    cache: seq<Edge>, ignoreCache: bool)
    requires c in g && c in pm
    ensures forall x :: x in StepOf(g, pm, end, c, cache, ignoreCache) && x.target.OnEdge? ==>
              FindEdge(g[c], pm[c]).Some? && x.target.edge == FindEdge(g[c], pm[c]).value
              && (ignoreCache || x.target.edge !in cache)
  {
  }

  /** The found edges of a walk are those of its prefix plus the edge found for its last node. */
  lemma FoundEdgesStep(g: map<Node, seq<Adj>>, pm: map<Node, Node>, w: seq<Node>)
    requires Walkable(g, pm, w) && w != []
    ensures Walkable(g, pm, w[..|w| - 1])
    ensures forall e :: e in FoundEdges(g, pm, w[..|w| - 1]) ==> e in FoundEdges(g, pm, w)
    ensures var c := w[|w| - 1];
            FindEdge(g[c], pm[c]).Some? ==> FindEdge(g[c], pm[c]).value in FoundEdges(g, pm, w)
  {
    assert Walkable(g, pm, w[..|w| - 1]);
  }

  lemma {:induction false} FoundEdgesMarked(g: map<Node, seq<Adj>>, pm: map<Node, Node>, end: Node, w: seq<Node>,
                                            cache: seq<Edge>, ignoreCache: bool)
    requires Walkable(g, pm, w)
    ensures forall e :: e in FoundEdges(g, pm, w) && (ignoreCache || e !in cache) ==>
              Make(BuildPathEdge, OnEdge(e)) in Steps(g, pm, end, w, cache, ignoreCache)
  {
    if w != [] {
      var init, c := w[..|w| - 1], w[|w| - 1];
      assert Walkable(g, pm, init);
      FoundEdgesMarked(g, pm, end, init, cache, ignoreCache);
      var one := StepOf(g, pm, end, c, cache, ignoreCache);
      assert Steps(g, pm, end, w, cache, ignoreCache) == Steps(g, pm, end, init, cache, ignoreCache) + one;
      match FindEdge(g[c], pm[c])
      case None =>
      case Some(e) =>
        assert FoundEdges(g, pm, w) == Add(FoundEdges(g, pm, init), e);
        if ignoreCache || e !in cache {
          assert Make(BuildPathEdge, OnEdge(e)) in one;
        }
    }
  }

  /** With the cache in use, no action is staged on an edge of the previous path. */
  lemma CachedEdgesUntouched(g: map<Node, seq<Adj>>, pm: map<Node, Node>, end: Node, w: seq<Node>,
                             cache: seq<Edge>, e: Edge)
    requires Walkable(g, pm, w) && e in cache
    ensures forall x :: x in Steps(g, pm, end, w, cache, false) ==> x.target != OnEdge(e)
  {
    PathEdgeMarks(g, pm, end, w, cache, false);
  }

  lemma {:induction false} NoDupInit<T>(s: seq<T>)
    requires NoDup(s) && s != []
    ensures NoDup(s[..|s| - 1]) && s[|s| - 1] !in s[..|s| - 1]
  {
  }

  /** Every node of the previous path that is not on the new one is reverted
      to PROCESSED exactly once, and no other node is. */
  lemma {:induction false} NodeRevertsOnce(prev: seq<Node>, now: seq<Node>, n: Node)
    requires NoDup(prev)
    ensures multiset(NodeReverts(prev, now))[RevertNode(n)] == if n in prev && n !in now then 1 else 0
  {
    if prev != [] {
      var init, last := prev[..|prev| - 1], prev[|prev| - 1];
      assert prev == init + [last];
      NoDupInit(prev);
      NodeRevertsOnce(init, now, n);
    }
  }

  /** Every edge of the previous path that is not on the new one gets the
      reverting SHOW_EDGE_DIRECTION exactly once, and no other edge does. */
  lemma {:induction false} EdgeRevertsOnce(prev: seq<Edge>, now: seq<Edge>, e: Edge)
    requires NoDup(prev)
    ensures multiset(EdgeReverts(prev, now))[RevertEdgeChange(e)] == if e in prev && e !in now then 1 else 0
  {
    if prev != [] {
      var init, last := prev[..|prev| - 1], prev[|prev| - 1];
      assert prev == init + [last];
      NoDupInit(prev);
      EdgeRevertsOnce(init, now, e);
    }
  }

  // ---------------------------------------------------------------------------
  // Properties of resetGraphVisual
  // ---------------------------------------------------------------------------

  /** Resetting a node clears it first and then every edge of its list; each
      operation performs a stateless change without an argument. */
  lemma {:induction false} ResetNodeShape(n: Node, adj: seq<Adj>)
    ensures var r := ResetNode(n, adj);
            r[0] == Do(Make(NodeStatelessKind, OnNode(n)), None)
            && (forall k :: 0 <= k < |adj| ==> r[k + 1] == Do(Make(EdgeStatelessKind, OnEdge(adj[k].element)), None))
            && (forall op :: op in r ==> op.Do? && op.arg.None? && op.c.style.None?)
  {
    if adj != [] {
      ResetNodeShape(n, adj[..|adj| - 1]);
      assert forall k :: 0 <= k < |adj| - 1 ==> adj[..|adj| - 1][k] == adj[k];
    }
  }

  /** resetGraphVisual clears every node of the map and every edge of its
      list, and does nothing but clear. */
  lemma {:induction false} ResetClearsAll(order: seq<Node>, graph: map<Node, seq<Adj>>, n: Node)
    requires forall m :: m in order ==> m in graph
    requires n in order
    ensures Do(Make(NodeStatelessKind, OnNode(n)), None) in ResetOps(order, graph)
    ensures forall a :: a in graph[n] ==> Do(Make(EdgeStatelessKind, OnEdge(a.element)), None) in ResetOps(order, graph)
  {
    var init, last := order[..|order| - 1], order[|order| - 1];
    assert order == init + [last];
    ResetNodeShape(last, graph[last]);
    var part := ResetNode(last, graph[last]);
    assert ResetOps(order, graph) == ResetOps(init, graph) + part;
    if n == last {
      assert part[0] in part;
      forall a | a in graph[n]
        ensures Do(Make(EdgeStatelessKind, OnEdge(a.element)), None) in ResetOps(order, graph)
      {
        var k :| 0 <= k < |graph[n]| && graph[n][k] == a;
        assert part[k + 1] in part;
      }
    } else {
      assert n in init;
      ResetClearsAll(init, graph, n);
    }
  }

  lemma {:induction false} ResetOnlyClears(order: seq<Node>, graph: map<Node, seq<Adj>>)
    requires forall m :: m in order ==> m in graph
    ensures forall op :: op in ResetOps(order, graph) ==> op.Do? && op.arg.None? && op.c.style.None?
  {
    if order != [] {
      var init, last := order[..|order| - 1], order[|order| - 1];
      assert order == init + [last];
      ResetOnlyClears(init, graph);
      ResetNodeShape(last, graph[last]);
    }
  }
}
