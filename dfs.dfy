/** `processGenerator` of `DFS.ts`: a depth-first search driven by an explicit
    stack, run as a generator.  The generator is modelled by the trace of its
    events (the operations it runs and its yields) and the error it stops
    with, if any; the engine's parent map and path cache are updated in
    place. */
module Search {
  import opened Common
  import opened Graph
  import opened Styles
  import opened Actions
  import opened Engine

  /** The parent map of a search that started from `start` with an empty map:
      every entry points at a node ranked below it (ranks are the visiting
      order, all below `bound`), `start` has no parent, and every ranked node
      other than `start` has one.  From any node of the map, following
      parents therefore reaches `start` without repeating a node. */
  ghost predicate Ranked(pm: map<Node, Node>, start: Node, rank: map<Node, nat>, bound: nat) {
    start !in pm
    && (forall n :: n in rank ==> rank[n] < bound)
    && (forall c :: c in pm ==> pm[c] in rank && (c in rank ==> rank[pm[c]] < rank[c]))
    && (forall n {:trigger HasParent(pm, n)} :: n in rank ==> n == start || HasParent(pm, n))
  }

  /** `n` has an entry in the parent map.  (A separate name, so that the
      solver meets this fact only where a proof asks for it.) */
  ghost predicate HasParent(pm: map<Node, Node>, n: Node) {
    n in pm
  }

  /** The invariant of the search loop, for a search that began with an empty parent map. */
  ghost predicate SearchInv(pm: map<Node, Node>, start: Node, rank: map<Node, nat>,
                            visited: set<Node>, stack: seq<Node>) {
    rank.Keys == visited
    && Ranked(pm, start, rank, |visited|)
    && (visited != {} ==> start in visited)
    && (visited == {} ==> forall i :: 0 <= i < |stack| ==> stack[i] == start)
    && (forall i :: 0 <= i < |stack| ==> stack[i] == start || stack[i] in pm)
  }

  /** The inner loop of DFS.ts (lines 72-113): the edges of `node` are taken
      from a copy of its list, last first; each one is marked PROCESSED_EDGE,
      an unvisited neighbour gets `node` as its parent and is pushed, and a
      progress record with the sizes of both visited sets follows.  The
      events are those of `Expansion`, the pushed nodes those of `Pushed`. */
  method ExpandEdges(alg: Algorithm, start: Node, end: Node, node: Node, adj: seq<Adj>,
                     skipActions: bool, visited: set<Node>, stack0: seq<Node>,
                     visitedEdges0: set<Edge>, trace0: seq<Event>,
                     ghost cleared: bool, ghost rank: map<Node, nat>)
    returns (stack: seq<Node>, visitedEdges: set<Edge>, trace: seq<Event>)
    requires node in visited
    requires cleared ==> SearchInv(alg.parentMap, start, rank, visited, stack0)
    requires ProgressMonotone(trace0) && ProgressBelow(trace0, |visited|, |visitedEdges0|)
    requires skipActions ==> OnlyProcessedEdges(trace0)
    modifies alg`parentMap
    ensures cleared ==> SearchInv(alg.parentMap, start, rank, visited, stack)
    ensures visitedEdges == visitedEdges0 + EdgeSet(adj)
    ensures stack == stack0 + Pushed(adj, visited)
    ensures trace == trace0 + Expansion(adj, visited, visitedEdges0, skipActions, node == start || node == end)
    ensures ProgressMonotone(trace) && ProgressBelow(trace, |visited|, |visitedEdges|)
    ensures skipActions ==> OnlyProcessedEdges(trace)
    ensures start !in old(alg.parentMap) && start in visited ==> start !in alg.parentMap
    ensures forall c :: c in alg.parentMap ==>
              (c in old(alg.parentMap) && alg.parentMap[c] == old(alg.parentMap)[c])
              || (alg.parentMap[c] == node && c !in visited)
  {
    ghost var quiet := node == start || node == end;
    stack, visitedEdges, trace := stack0, visitedEdges0, trace0;
    var k := |adj|;
    while k > 0
      invariant 0 <= k <= |adj|
      invariant cleared ==> SearchInv(alg.parentMap, start, rank, visited, stack)
      invariant visitedEdges == visitedEdges0 + EdgeSet(adj[k..])
      invariant stack == stack0 + Pushed(adj[k..], visited)
      invariant trace == trace0 + Expansion(adj[k..], visited, visitedEdges0, skipActions, quiet)
      invariant ProgressMonotone(trace) && ProgressBelow(trace, |visited|, |visitedEdges|)
      invariant skipActions ==> OnlyProcessedEdges(trace)
      invariant start !in old(alg.parentMap) && start in visited ==> start !in alg.parentMap
      invariant forall c :: c in alg.parentMap ==>
                  (c in old(alg.parentMap) && alg.parentMap[c] == old(alg.parentMap)[c])
                  || (alg.parentMap[c] == node && c !in visited)
    {
      k := k - 1;
      var edge := adj[k];
      ExpansionStep(adj, k, visited, visitedEdges0, visitedEdges + {edge.element}, skipActions, quiet, trace0, stack0);
      CardinalityGrows(visitedEdges, edge.element);
      visitedEdges := visitedEdges + {edge.element};
      var u;
      stack, u := TakeEdge(alg, start, end, node, edge, skipActions, visited, stack, visitedEdges, cleared, rank);
      TurnExtends(trace, edge, visited, visitedEdges, skipActions, quiet);
      trace := trace + u;
    }
  }

  /** One turn of the inner loop (DFS.ts lines 76-112), with `now` the
      visited edges once `edge`'s edge was added: an unvisited neighbour
      gets `node` as its parent and is pushed; the events are `EdgeTurn`'s. */
  method TakeEdge(alg: Algorithm, start: Node, end: Node, node: Node, edge: Adj, skipActions: bool,
                  visited: set<Node>, stack0: seq<Node>, now: set<Edge>,
                  ghost cleared: bool, ghost rank: map<Node, nat>)
    returns (stack: seq<Node>, u: seq<Event>)
    requires node in visited
    requires cleared ==> SearchInv(alg.parentMap, start, rank, visited, stack0)
    modifies alg`parentMap
    ensures cleared ==> SearchInv(alg.parentMap, start, rank, visited, stack)
    ensures stack == stack0 + (if edge.to in visited then [] else [edge.to])
    ensures u == EdgeTurn(edge, visited, now, skipActions, node == start || node == end)
    ensures alg.parentMap == if edge.to in visited then old(alg.parentMap) else old(alg.parentMap)[edge.to := node]
  {
    var child := edge.to;
    stack := stack0;
    u := [];
    if !skipActions {
      u := [Run(Do(Make(ProcessedEdge, OnEdge(edge.element)), None)), Pause];
    }
    if child !in visited {
      SearchAdd(alg.parentMap, start, rank, visited, stack, child, node, cleared);
      alg.parentMap := alg.parentMap[child := node];
      if !skipActions && !(node == start || node == end) {
        u := u + [Run(Do(Make(EnqueueNode, OnNode(child)), None))];
      }
      stack := stack + [child];
      u := u + [Pause];
    }
    u := u + [Run(Do(Make(ProcessedEdge, OnEdge(edge.element)), None)),
              Progress(|visited|, |now|)];
  }

  /** A turn keeps a trace's records monotone and below the current sizes,
      and with actions skipped it performs PROCESSED_EDGE only. */
  lemma TurnExtends(trace: seq<Event>, a: Adj, visited: set<Node>, now: set<Edge>, skip: bool, quiet: bool)
    requires ProgressMonotone(trace) && ProgressBelow(trace, |visited|, |now|)
    requires skip ==> OnlyProcessedEdges(trace)
    ensures var t := trace + EdgeTurn(a, visited, now, skip, quiet);
            ProgressMonotone(t) && ProgressBelow(t, |visited|, |now|) && (skip ==> OnlyProcessedEdges(t))
  {
    var u := EdgeTurn(a, visited, now, skip, quiet);
    assert forall i :: 0 <= i < |u| - 1 ==> !u[i].Progress?;
    ExtendProgress(trace, u, |visited|, |now|);
    if skip {
      assert forall i :: 0 <= i < |u| && u[i].Run? ==> i == |u| - 2;
      var t := trace + u;
      forall i | 0 <= i < |t| && t[i].Run?
        ensures t[i].op.Do? && t[i].op.c.kind == ProcessedEdge && t[i].op.c.target.OnEdge?
      {
        if i >= |trace| {
          assert t[i] == u[i - |trace|];
        }
      }
    }
  }

  /** Taking entry `k`, with `now` the visited edges once its edge is
      added, extends the loop's events, edges and pushes over `adj[k + 1..]`
      to those over `adj[k..]`. */
  lemma ExpansionStep(adj: seq<Adj>, k: nat, visited: set<Node>, edges: set<Edge>, now: set<Edge>,
                      skip: bool, quiet: bool, trace0: seq<Event>, stack0: seq<Node>)
    requires k < |adj| && now == edges + EdgeSet(adj[k + 1..]) + {adj[k].element}
    ensures edges + EdgeSet(adj[k..]) == now
    ensures stack0 + Pushed(adj[k..], visited)
            == stack0 + Pushed(adj[k + 1..], visited) + (if adj[k].to in visited then [] else [adj[k].to])
    ensures trace0 + Expansion(adj[k..], visited, edges, skip, quiet)
            == trace0 + Expansion(adj[k + 1..], visited, edges, skip, quiet) + EdgeTurn(adj[k], visited, now, skip, quiet)
  {
    assert adj[k..][1..] == adj[k + 1..];
  }

  // ---------------------------------------------------------------------------
  // The events of the inner loop, as a specification
  // ---------------------------------------------------------------------------

  /** The PROCESSED_EDGE perform for an adjacency entry's edge. */
  function ProcessedOf(a: Adj): Event {
    Run(Do(Make(ProcessedEdge, OnEdge(a.element)), None))
  }

  /** One turn of the inner loop (DFS.ts lines 76-112) for entry `a`, with
      `now` the visited edges once its edge was added: unless actions are
      skipped, PROCESSED_EDGE and a yield; for an unvisited neighbour,
      ENQUEUE_NODE (not when skipped or `quiet`, that is when the expanded
      node is an endpoint) and a yield; then, always, PROCESSED_EDGE and the
      progress record. */
  function EdgeTurn(a: Adj, visited: set<Node>, now: set<Edge>, skip: bool, quiet: bool): seq<Event> {
    (if skip then [] else [ProcessedOf(a), Pause])
    + (if a.to in visited then []
       else (if skip || quiet then [] else [Run(Do(Make(EnqueueNode, OnNode(a.to)), None))]) + [Pause])
    + [ProcessedOf(a), Progress(|visited|, |now|)]
  }

  /** The edges of the entries. */
  function EdgeSet(adj: seq<Adj>): set<Edge> {
    if adj == [] then {} else {adj[0].element} + EdgeSet(adj[1..])
  }

  /** The neighbours the inner loop pushes, in push order: the unvisited
      ones, last entry first. */
  function Pushed(adj: seq<Adj>, visited: set<Node>): seq<Node> {
    if adj == [] then [] else Pushed(adj[1..], visited) + (if adj[0].to in visited then [] else [adj[0].to])
  }

  /** The events of the inner loop over `adj`, starting from the visited
      edges `edges`: the entries are taken last first, so the first entry's
      turn comes last, with every edge of `adj` visited. */
  function Expansion(adj: seq<Adj>, visited: set<Node>, edges: set<Edge>, skip: bool, quiet: bool): seq<Event> {
    if adj == [] then []
    else Expansion(adj[1..], visited, edges, skip, quiet) + EdgeTurn(adj[0], visited, edges + EdgeSet(adj), skip, quiet)
  }

  /** A turn holds one progress record, as its last event, right after the
      PROCESSED_EDGE perform of its edge. */
  lemma TurnShape(a: Adj, visited: set<Node>, now: set<Edge>, skip: bool, quiet: bool)
    ensures var t := EdgeTurn(a, visited, now, skip, quiet);
            |t| >= 2 && t[|t| - 2] == ProcessedOf(a) && t[|t| - 1] == Progress(|visited|, |now|)
            && Records(t) == [Progress(|visited|, |now|)] && Marked(t, {a.element})
  {
    var t := EdgeTurn(a, visited, now, skip, quiet);
    assert forall i :: 0 <= i < |t| - 1 ==> !t[i].Progress?;
    NoRecords(t[..|t| - 1]);
  }

  /** One progress record per entry, whatever `skip` is: the j-th comes when
      j + 1 entries were taken, last first, and states the visited nodes and
      the edges visited so far. */
  lemma {:induction false} ExpansionRecords(adj: seq<Adj>, visited: set<Node>, edges: set<Edge>, skip: bool, quiet: bool)
    ensures var r := Records(Expansion(adj, visited, edges, skip, quiet));
            |r| == |adj|
            && forall j :: 0 <= j < |adj| ==> r[j] == Progress(|visited|, |edges + EdgeSet(adj[|adj| - 1 - j..])|)
  {
    if adj != [] {
      ExpansionRecords(adj[1..], visited, edges, skip, quiet);
      RecordsStep(adj, visited, edges, skip, quiet);
      var r := Records(Expansion(adj, visited, edges, skip, quiet));
      forall j | 0 <= j < |adj|
        ensures r[j] == Progress(|visited|, |edges + EdgeSet(adj[|adj| - 1 - j..])|)
      {
        if j < |adj| - 1 {
          assert adj[1..][|adj| - 2 - j..] == adj[|adj| - 1 - j..];
        } else {
          assert adj[0..] == adj;
        }
      }
    }
  }

  /** The first entry's turn adds the last record. */
  lemma RecordsStep(adj: seq<Adj>, visited: set<Node>, edges: set<Edge>, skip: bool, quiet: bool)
    requires adj != []
    ensures Records(Expansion(adj, visited, edges, skip, quiet))
            == Records(Expansion(adj[1..], visited, edges, skip, quiet)) + [Progress(|visited|, |edges + EdgeSet(adj)|)]
  {
    TurnShape(adj[0], visited, edges + EdgeSet(adj), skip, quiet);
    RecordsAppend(Expansion(adj[1..], visited, edges, skip, quiet), EdgeTurn(adj[0], visited, edges + EdgeSet(adj), skip, quiet));
  }

  /** Every progress record follows the PROCESSED_EDGE perform of one of `es`. */
  ghost predicate Marked(t: seq<Event>, es: set<Edge>) {
    forall i :: 0 <= i < |t| && t[i].Progress? ==>
      0 < i && t[i - 1].Run? && t[i - 1].op.Do? && t[i - 1].op.c.kind == ProcessedEdge
      && t[i - 1].op.c.target.OnEdge? && t[i - 1].op.c.target.edge in es
  }

  /** In both modes, each progress record of the inner loop comes right
      after PROCESSED_EDGE is performed on one of the expanded edges. */
  lemma {:induction false} ExpansionMarked(adj: seq<Adj>, visited: set<Node>, edges: set<Edge>, skip: bool, quiet: bool)
    ensures Marked(Expansion(adj, visited, edges, skip, quiet), EdgeSet(adj))
  {
    if adj != [] {
      ExpansionMarked(adj[1..], visited, edges, skip, quiet);
      TurnShape(adj[0], visited, edges + EdgeSet(adj), skip, quiet);
      MarkedAppend(Expansion(adj[1..], visited, edges, skip, quiet), EdgeTurn(adj[0], visited, edges + EdgeSet(adj), skip, quiet),
                   EdgeSet(adj[1..]), {adj[0].element});
    }
  }

  /** Two marked sequences make a marked one. */
  lemma MarkedAppend(a: seq<Event>, b: seq<Event>, ea: set<Edge>, eb: set<Edge>)
    requires Marked(a, ea) && Marked(b, eb)
    ensures Marked(a + b, ea + eb)
  {
    var t := a + b;
    forall i | 0 <= i < |t| && t[i].Progress?
      ensures 0 < i && t[i - 1].Run? && t[i - 1].op.Do? && t[i - 1].op.c.kind == ProcessedEdge
              && t[i - 1].op.c.target.OnEdge? && t[i - 1].op.c.target.edge in ea + eb
    {
      if i < |a| {
        assert t[i] == a[i] && t[i - 1] == a[i - 1];
      } else {
        assert t[i] == b[i - |a|] && t[i - 1] == b[i - |a| - 1];
      }
    }
  }

  /** The last progress record counts the edges visited so far, and there
      is one exactly when some edge was visited. */
  ghost predicate CurrentEdges(trace: seq<Event>, visitedEdges: set<Edge>) {
    var r := Records(trace);
    (|r| == 0 <==> |visitedEdges| == 0)
    && (|r| > 0 ==> r[|r| - 1].visitedEdges == |visitedEdges|)
  }

  /** The inner loop keeps the last record current and adds one per entry. */
  lemma ExpansionCurrent(trace0: seq<Event>, adj: seq<Adj>, visited: set<Node>, edges: set<Edge>, skip: bool, quiet: bool)
    requires CurrentEdges(trace0, edges)
    ensures CurrentEdges(trace0 + Expansion(adj, visited, edges, skip, quiet), edges + EdgeSet(adj))
    ensures |Records(trace0 + Expansion(adj, visited, edges, skip, quiet))| == |Records(trace0)| + |adj|
  {
    RecordsAppend(trace0, Expansion(adj, visited, edges, skip, quiet));
    ExpansionRecords(adj, visited, edges, skip, quiet);
    if adj != [] {
      assert adj[|adj| - 1 - (|adj| - 1)..] == adj;
      assert adj[0].element in edges + EdgeSet(adj);
    } else {
      assert edges + EdgeSet(adj) == edges;
    }
  }

  lemma EdgeCountSnoc(g: map<Node, seq<Adj>>, order: seq<Node>, n: Node)
    ensures EdgeCount(g, order + [n]) == EdgeCount(g, order) + (if n in g then |g[n]| else 0)
  {
    assert (order + [n])[..|order|] == order;
  }

  /** The number of adjacency entries of the nodes of `order`. */
  function EdgeCount(g: map<Node, seq<Adj>>, order: seq<Node>): nat {
    if order == [] then 0
    else EdgeCount(g, order[..|order| - 1]) + (if order[|order| - 1] in g then |g[order[|order| - 1]]| else 0)
  }

  /** Giving an unvisited `child` the visited `node` as its parent and
      pushing it keeps the search invariant. */
  lemma SearchAdd(pm: map<Node, Node>, start: Node, rank: map<Node, nat>, visited: set<Node>,
                  stack: seq<Node>, child: Node, node: Node, cleared: bool)
    requires node in visited && child !in visited
    requires cleared ==> SearchInv(pm, start, rank, visited, stack)
    ensures cleared ==> SearchInv(pm[child := node], start, rank, visited, stack + [child])
  {
    if cleared {
      var pm' := pm[child := node];
      forall n | n in rank
        ensures n == start || HasParent(pm', n)
      {
        assert n == start || HasParent(pm, n);
      }
      assert forall i :: 0 <= i < |stack| ==> (stack + [child])[i] == stack[i];
    }
  }

  lemma {:induction false} StagedAppend(a: seq<StateChange>, b: seq<StateChange>)
    ensures Staged(a + b) == Staged(a) + Staged(b)
  {
    if a != [] {
      assert (a + b)[1..] == a[1..] + b;
      StagedAppend(a[1..], b);
    } else {
      assert a + b == b;
    }
  }

  /** `for (const action of buildPathActions) { action.perform(); yield; }` */
  method PerformEach(acts: seq<StateChange>) returns (events: seq<Event>)
    ensures events == Staged(acts)
  {
    events := [];
    var i := 0;
    while i < |acts|
      invariant 0 <= i <= |acts|
      invariant events == Staged(acts[..i])
    {
      StagedAppend(acts[..i], [acts[i]]);
      assert acts[..i + 1] == acts[..i] + [acts[i]];
      events := events + [Run(Do(acts[i], None)), Pause];
      i := i + 1;
    }
    assert acts[..i] == acts;
  }

  /** Lines 41-50 of DFS.ts: `end` was popped; unless actions are skipped,
      the actions of `buildPath(start, end)` are performed one per yield. */
  method DrawPath(alg: Algorithm, start: Node, end: Node, skipActions: bool, trace0: seq<Event>,
                  ghost visited: set<Node>, ghost visitedEdges: set<Edge>)
    returns (trace: seq<Event>, err: Option<Error>)
    requires alg.Valid()
    requires Progressing(trace0, visited, visitedEdges, skipActions)
    modifies alg`prevPathNode, alg`prevPathEdge
    ensures alg.Valid()
    ensures Progressing(trace, visited, visitedEdges, skipActions)
    ensures Records(trace) == Records(trace0)
    ensures skipActions ==> trace == trace0 && err.None?
    ensures !skipActions && err.None? ==>
              var b := BuildPathResult(alg.graph, alg.parentMap, [], [], start, end, true);
              b.Ok? && trace == trace0 + Staged(b.value)
  {
    trace, err := trace0, None;
    if !skipActions {
      ghost var cachedNodes, cachedEdges := alg.prevPathNode, alg.prevPathEdge;
      var b := alg.BuildPath(start, end, true);
      IgnoredCache(alg.graph, alg.parentMap, cachedNodes, cachedEdges, start, end);
      if b.Err? {
        return trace, Some(b.error);
      }
      var events := PerformEach(b.value);
      StagedHasNoProgress(b.value);
      Quiet(trace, events, visited, visitedEdges);
      trace := trace + events;
    }
  }

  /** Lines 115-123 of DFS.ts: the current path to the expanded node is
      shown and the node is marked processed. */
  method ShowProcessed(alg: Algorithm, start: Node, end: Node, node: Node, trace0: seq<Event>,
                       ghost visited: set<Node>, ghost visitedEdges: set<Edge>)
    returns (trace: seq<Event>, err: Option<Error>)
    requires alg.Valid()
    requires Progressing(trace0, visited, visitedEdges, false)
    modifies alg`prevPathNode, alg`prevPathEdge
    ensures alg.Valid()
    ensures Progressing(trace, visited, visitedEdges, false)
    ensures Records(trace) == Records(trace0)
  {
    trace, err := trace0, None;
    var cp := alg.ShowCurrentPath(start, node);
    if cp.Err? {
      return trace, Some(cp.error);
    }
    var shown := Runs(Perform(cp.value, None));
    Quiet(trace, shown, visited, visitedEdges);
    trace := trace + shown;
    if !(node == start || node == end) {
      var u := [Run(Do(Make(NodeProcessedKind, OnNode(node)), None)), Pause];
      Quiet(trace, u, visited, visitedEdges);
      trace := trace + u;
    }
  }

  /** Events without progress records keep a trace progressing when
      actions are not skipped, and leave its records as they were. */
  lemma Quiet(trace: seq<Event>, u: seq<Event>, visited: set<Node>, visitedEdges: set<Edge>)
    requires Progressing(trace, visited, visitedEdges, false)
    requires forall i :: 0 <= i < |u| ==> !u[i].Progress?
    ensures Progressing(trace + u, visited, visitedEdges, false)
    ensures Records(trace + u) == Records(trace)
  {
    ExtendProgress(trace, u, |visited|, |visitedEdges|);
    AppendNoRecords(trace, u);
  }

  /** Lines 58-123 of DFS.ts for a popped node that is neither `end` nor
      visited: it is marked processing, visited, expanded, and then the
      current path to it is shown and it is marked processed. */
  method VisitNode(alg: Algorithm, start: Node, end: Node, node: Node, skipActions: bool,
                   visited0: set<Node>, stack0: seq<Node>, visitedEdges0: set<Edge>, trace0: seq<Event>,
                   ghost cleared: bool, ghost rank0: map<Node, nat>, ghost pm0: map<Node, Node>)
    returns (visited: set<Node>, stack: seq<Node>, visitedEdges: set<Edge>, trace: seq<Event>,
             err: Option<Error>, ghost rank: map<Node, nat>)
    requires alg.Valid()
    requires node != end && node !in visited0
    requires Kept(pm0, alg.parentMap, start, end, alg.graph.Keys, visited0)
    requires Shape(start, visited0, stack0 + [node])
    requires cleared ==> SearchInv(alg.parentMap, start, rank0, visited0, stack0 + [node])
    requires Progressing(trace0, visited0, visitedEdges0, skipActions)
    modifies alg`parentMap, alg`prevPathNode, alg`prevPathEdge
    ensures alg.Valid()
    ensures Kept(pm0, alg.parentMap, start, end, alg.graph.Keys, visited)
    ensures Progressing(trace, visited, visitedEdges, skipActions)
    ensures err.None? ==> visited == visited0 + {node} && node in alg.graph && Shape(start, visited, stack)
    ensures err.None? ==> |Records(trace)| == |Records(trace0)| + |alg.graph[node]|
    ensures cleared && err.None? ==> SearchInv(alg.parentMap, start, rank, visited, stack)
  {
    visited, stack, visitedEdges, trace, err, rank := visited0, stack0, visitedEdges0, trace0, None, rank0;
    if !skipActions && !(node == start || node == end) {
      var u := [Run(Do(Make(StartProcessingNode, OnNode(node)), None)), Pause];
      Quiet(trace, u, visited, visitedEdges);
      trace := trace + u;
    }
    if node !in alg.graph {
      // `[...this.graph.get(node)]` spreads `undefined`
      return visited, stack, visitedEdges, trace, Some(TypeError), rank;
    }
    visited, stack, visitedEdges, trace, rank := MarkAndExpand(alg, start, end, node, skipActions, visited0, stack0,
                                                               visitedEdges0, trace, cleared, rank0, pm0);
    if !skipActions {
      ghost var pm := alg.parentMap;
      trace, err := ShowProcessed(alg, start, end, node, trace, visited, visitedEdges);
      assert alg.parentMap == pm;
    }
  }

  /** Lines 66-111 of DFS.ts: the node joins the visited set and its edges are expanded. */
  method MarkAndExpand(alg: Algorithm, start: Node, end: Node, node: Node, skipActions: bool,
                       visited0: set<Node>, stack0: seq<Node>, visitedEdges0: set<Edge>, trace0: seq<Event>,
                       ghost cleared: bool, ghost rank0: map<Node, nat>, ghost pm0: map<Node, Node>)
    returns (visited: set<Node>, stack: seq<Node>, visitedEdges: set<Edge>, trace: seq<Event>,
             ghost rank: map<Node, nat>)
    requires alg.Valid()
    requires node != end && node !in visited0 && node in alg.graph
    requires Kept(pm0, alg.parentMap, start, end, alg.graph.Keys, visited0)
    requires Shape(start, visited0, stack0 + [node])
    requires cleared ==> SearchInv(alg.parentMap, start, rank0, visited0, stack0 + [node])
    requires Progressing(trace0, visited0, visitedEdges0, skipActions)
    modifies alg`parentMap
    ensures alg.Valid()
    ensures Kept(pm0, alg.parentMap, start, end, alg.graph.Keys, visited)
    ensures Progressing(trace, visited, visitedEdges, skipActions)
    ensures |Records(trace)| == |Records(trace0)| + |alg.graph[node]|
    ensures visited == visited0 + {node} && Shape(start, visited, stack)
    ensures cleared ==> SearchInv(alg.parentMap, start, rank, visited, stack)
  {
    assert (stack0 + [node])[|stack0|] == node;
    assert start in visited0 + {node};
    NewRank(alg.parentMap, start, rank0, visited0, stack0, node, cleared);
    rank := rank0[node := |visited0|];
    CardinalityGrows(visited0, node);
    visited := visited0 + {node};
    ghost var pm1 := alg.parentMap;
    var edges := alg.graph[node];
    stack, visitedEdges, trace := ExpandEdges(alg, start, end, node, edges, skipActions, visited, stack0,
                                              visitedEdges0, trace0, cleared, rank);
    ExpansionCurrent(trace0, edges, visited, visitedEdges0, skipActions, node == start || node == end);
    assert ParentsFrom(pm0, alg.parentMap, visited) by {
      assert ParentsFrom(pm0, pm1, visited0);
    }
  }

  /** What the search keeps, whatever parent map `pm0` it began from: `end`
      is never visited, only nodes of the graph are, `start` gets no parent
      when it had none, and every new parent is a visited node. */
  ghost predicate Kept(pm0: map<Node, Node>, pm: map<Node, Node>, start: Node, end: Node,
                       keys: set<Node>, visited: set<Node>) {
    end !in visited && visited <= keys
    && (start !in pm0 ==> start !in pm)
    && ParentsFrom(pm0, pm, visited)
  }

  /** The trace's progress records never decrease and count at most the
      visited nodes and edges, the last one counting the visited edges;
      without actions only PROCESSED_EDGE is performed. */
  ghost predicate Progressing(trace: seq<Event>, visited: set<Node>, visitedEdges: set<Edge>, skipActions: bool) {
    ProgressMonotone(trace) && ProgressBelow(trace, |visited|, |visitedEdges|)
    && (skipActions ==> OnlyProcessedEdges(trace))
    && CurrentEdges(trace, visitedEdges)
  }

  /** Until a node is visited the stack holds only `start`; afterwards `start` is visited. */
  ghost predicate Shape(start: Node, visited: set<Node>, stack: seq<Node>) {
    (visited == {} ==> forall i :: 0 <= i < |stack| ==> stack[i] == start)
    && (visited != {} ==> start in visited)
  }

  /** processGenerator(start, end, skipActions) of DFS.ts.
      `found` says that `end` was popped; `visited` and `visitedEdges` are the
      search's two visited sets and `rank` the order in which it visited the
      nodes. */
  method ProcessGenerator(alg: Algorithm, start: Node, end: Node, skipActions: bool)
    returns (trace: seq<Event>, err: Option<Error>, found: bool,
             visited: set<Node>, visitedEdges: set<Edge>, ghost rank: map<Node, nat>, ghost order: seq<Node>)
    requires alg.Valid()
    modifies alg`parentMap, alg`prevPathNode, alg`prevPathEdge
    ensures alg.Valid()
    // the goal test comes first: `end` is never expanded
    ensures end !in visited && visited <= alg.graph.Keys
    // a search from an empty parent map leaves one whose chains all reach `start`
    ensures old(alg.parentMap) == map[] && err.None? ==> Ranked(alg.parentMap, start, rank, |visited|) && rank.Keys == visited
    ensures start !in old(alg.parentMap) ==> start !in alg.parentMap
    // new parents are visited nodes
    ensures ParentsFrom(old(alg.parentMap), alg.parentMap, visited)
    // progress records count the visited nodes and edges, and never decrease
    ensures ProgressMonotone(trace) && ProgressBelow(trace, |visited|, |visitedEdges|)
    // without actions, only PROCESSED_EDGE is performed
    ensures skipActions ==> OnlyProcessedEdges(trace)
    // the last progress record counts the visited edges; `order` lists the
    // visited nodes as visited, and without an error there is one record
    // per expanded edge
    ensures CurrentEdges(trace, visitedEdges)
    ensures err.None? ==> NoDup(order) && Elems(order) == visited && |Records(trace)| == EdgeCount(alg.graph, order)
    // when `end` is popped, the path to it is drawn, one action per yield
    ensures found && !skipActions && err.None? ==>
              var b := BuildPathResult(alg.graph, alg.parentMap, [], [], start, end, true);
              b.Ok? && |trace| >= 2 * |b.value| && trace[|trace| - 2 * |b.value|..] == Staged(b.value)
  {
    trace := [];
    if !skipActions {
      trace := [Run(Do(Make(HighlightEndpoints, OnNode(start)), None)),
                Run(Do(Make(HighlightEndpoints, OnNode(end)), None)), Pause];
    }
    NoRecords(trace);
    found, err, visited, visitedEdges, trace, rank, order := Search(alg, start, end, skipActions, trace);
    if found {
      ghost var t0 := trace;
      trace, err := DrawPath(alg, start, end, skipActions, trace, visited, visitedEdges);
      if !skipActions && err.None? {
        var b := BuildPathResult(alg.graph, alg.parentMap, [], [], start, end, true);
        assert trace[|trace| - 2 * |b.value|..] == trace[|t0|..];
      }
    }
  }

  /** The search loop of DFS.ts (lines 39-124) up to the pop of `end`, an
      error, or an empty stack. */
  method Search(alg: Algorithm, start: Node, end: Node, skipActions: bool, trace0: seq<Event>)
    returns (found: bool, err: Option<Error>, visited: set<Node>, visitedEdges: set<Edge>,
             trace: seq<Event>, ghost rank: map<Node, nat>, ghost order: seq<Node>)
    requires alg.Valid()
    requires Progressing(trace0, {}, {}, skipActions)
    modifies alg`parentMap, alg`prevPathNode, alg`prevPathEdge
    ensures alg.Valid()
    ensures found ==> err.None?
    ensures Kept(old(alg.parentMap), alg.parentMap, start, end, alg.graph.Keys, visited)
    ensures Progressing(trace, visited, visitedEdges, skipActions)
    ensures old(alg.parentMap) == map[] && err.None? ==> Ranked(alg.parentMap, start, rank, |visited|) && rank.Keys == visited
    // `order` lists the visited nodes in visiting order; without an error
    // there is one progress record per entry of their adjacency lists
    ensures err.None? ==> NoDup(order) && Elems(order) == visited && |Records(trace)| == EdgeCount(alg.graph, order)
  {
    visited, visitedEdges, rank, found, err, trace, order := {}, {}, map[], false, None, trace0, [];
    var stack := [start];
    ghost var cleared := alg.parentMap == map[];
    ghost var pm0 := alg.parentMap;
    while |stack| > 0
      invariant alg.Valid()
      invariant Kept(pm0, alg.parentMap, start, end, alg.graph.Keys, visited)
      invariant Progressing(trace, visited, visitedEdges, skipActions)
      invariant Shape(start, visited, stack)
      invariant cleared ==> SearchInv(alg.parentMap, start, rank, visited, stack)
      invariant !found && err.None?
      invariant NoDup(order) && Elems(order) == visited
      invariant |Records(trace)| == EdgeCount(alg.graph, order)
      decreases |alg.graph.Keys - visited|, |stack|
    {
      ghost var top, order0 := stack[|stack| - 1], order;
      ghost var grew;
      found, err, visited, stack, visitedEdges, trace, rank, grew :=
        SearchStep(alg, start, end, skipActions, visited, stack, visitedEdges, trace, cleared, rank, pm0);
      if grew && err.None? {
        assert top !in order0 by {
          assert top !in Elems(order0);
        }
        order := Add(order0, top);
        EdgeCountSnoc(alg.graph, order0, top);
      }
      if found || err.Some? {
        break;
      }
    }
  }

  /** One pass of the search loop: the top of the stack is popped; `end`
      stops the search, a visited node is skipped, any other node is visited. */
  method SearchStep(alg: Algorithm, start: Node, end: Node, skipActions: bool,
                    visited0: set<Node>, stack0: seq<Node>, visitedEdges0: set<Edge>, trace0: seq<Event>,
                    ghost cleared: bool, ghost rank0: map<Node, nat>, ghost pm0: map<Node, Node>)
    returns (found: bool, err: Option<Error>, visited: set<Node>, stack: seq<Node>,
             visitedEdges: set<Edge>, trace: seq<Event>, ghost rank: map<Node, nat>, ghost grew: bool)
    requires |stack0| > 0
    requires alg.Valid()
    requires Kept(pm0, alg.parentMap, start, end, alg.graph.Keys, visited0)
    requires Progressing(trace0, visited0, visitedEdges0, skipActions)
    requires Shape(start, visited0, stack0)
    requires cleared ==> SearchInv(alg.parentMap, start, rank0, visited0, stack0)
    modifies alg`parentMap, alg`prevPathNode, alg`prevPathEdge
    ensures alg.Valid()
    ensures Kept(pm0, alg.parentMap, start, end, alg.graph.Keys, visited)
    ensures Progressing(trace, visited, visitedEdges, skipActions)
    ensures found ==> err.None?
    ensures err.None? ==> Shape(start, visited, stack)
    ensures cleared && err.None? ==> SearchInv(alg.parentMap, start, rank, visited, stack)
    // a pass either visits nothing and adds no progress record, or (`grew`)
    // visits the popped node and adds one record per entry of its adjacency list
    ensures err.None? && !grew ==> visited == visited0 && |Records(trace)| == |Records(trace0)|
    ensures err.None? && grew ==>
              stack0[|stack0| - 1] !in visited0 && stack0[|stack0| - 1] in alg.graph
              && visited == visited0 + {stack0[|stack0| - 1]}
              && |Records(trace)| == |Records(trace0)| + |alg.graph[stack0[|stack0| - 1]]|
    ensures !found && err.None? ==>
              |alg.graph.Keys - visited| < |alg.graph.Keys - visited0|
              || (visited == visited0 && |stack| < |stack0|)
  {
    found, err, visited, visitedEdges, trace, rank, grew := false, None, visited0, visitedEdges0, trace0, rank0, false;
    var node := stack0[|stack0| - 1];
    PopLast(stack0);
    stack := stack0[..|stack0| - 1];
    if node == end {
      found := true;
      assert forall i :: 0 <= i < |stack| ==> stack[i] == stack0[i];
      return;
    }
    if node in visited {
      assert forall i :: 0 <= i < |stack| ==> stack[i] == stack0[i];
      return;
    }
    visited, stack, visitedEdges, trace, err, rank :=
      VisitNode(alg, start, end, node, skipActions, visited, stack, visitedEdges, trace, cleared, rank, pm0);
    grew := true;
    if err.None? {
      Shrinks(alg.graph.Keys, visited0, node);
    }
  }

  /** Visiting `node` keeps the search invariant with its rank the number of
      nodes visited before it. */
  lemma NewRank(pm: map<Node, Node>, start: Node, rank: map<Node, nat>, visited: set<Node>,
                stack: seq<Node>, node: Node, cleared: bool)
    requires node !in visited
    requires cleared ==> SearchInv(pm, start, rank, visited, stack + [node])
    ensures cleared ==> SearchInv(pm, start, rank[node := |visited|], visited + {node}, stack)
  {
    if cleared {
      var r := rank[node := |visited|];
      var v := visited + {node};
      assert |v| == |visited| + 1;
      assert (stack + [node])[|stack|] == node;
      assert forall i :: 0 <= i < |stack| ==> stack[i] == (stack + [node])[i];
      assert node == start || node in pm;
      forall n | n in r
        ensures n == start || HasParent(pm, n)
      {
        if n != node {
          assert n == start || HasParent(pm, n);
        }
      }
      forall c | c in pm
        ensures pm[c] in r && (c in r ==> r[pm[c]] < r[c])
      {
        if c == node {
          assert pm[c] in visited;
        }
      }
    }
  }

  /** With the cache ignored, what `buildPath` stages does not depend on the cache. */
  lemma StepsIgnoreCache(g: map<Node, seq<Adj>>, pm: map<Node, Node>, end: Node, w: seq<Node>, cache: seq<Edge>)
    requires Walkable(g, pm, w)
    ensures Steps(g, pm, end, w, cache, true) == Steps(g, pm, end, w, [], true)
  {
    if w != [] {
      assert Walkable(g, pm, w[..|w| - 1]);
      StepsIgnoreCache(g, pm, end, w[..|w| - 1], cache);
    }
  }

  lemma IgnoredCache(g: map<Node, seq<Adj>>, pm: map<Node, Node>, cachedNodes: seq<Node>, cachedEdges: seq<Edge>,
                     start: Node, end: Node)
    ensures BuildPathResult(g, pm, cachedNodes, cachedEdges, start, end, true)
            == BuildPathResult(g, pm, [], [], start, end, true)
  {
    var w := Walk(pm, start, end);
    if Walkable(g, pm, w) {
      StepsIgnoreCache(g, pm, end, w, cachedEdges);
    }
  }

  /** The events of `Staged` are the performs of the actions, in order, and bare yields. */
  lemma {:induction false} StagedHasNoProgress(cs: seq<StateChange>)
    ensures forall i :: 0 <= i < |Staged(cs)| ==> !Staged(cs)[i].Progress?
    ensures forall i :: 0 <= i < |Staged(cs)| && Staged(cs)[i].Run? ==> Staged(cs)[i].op.Do? && Staged(cs)[i].op.c in cs
  {
    if cs != [] {
      StagedHasNoProgress(cs[1..]);
      var r := Staged(cs);
      assert r == [Run(Do(cs[0], None)), Pause] + Staged(cs[1..]);
      forall i | 2 <= i < |r|
        ensures r[i] == Staged(cs[1..])[i - 2]
      {
      }
    }
  }
}
