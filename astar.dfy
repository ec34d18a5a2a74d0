/** `process` of AStar.ts: a min-queue of `{ fcost, node }` entries seeded
    with `start` at 0, the cost so far and the `came_from` map kept locally,
    and the goal test when a node is popped, before the visited test.  An
    unvisited neighbour is queued with priority `cost + dist(end, neighbour)`
    when it has no cost yet or the new cost is smaller.  The parents go to the
    local `came_from` only: the engine's parent map, which `showCurrentPath`
    reads, is never written. */
module AStarSearch {
  import opened Common
  import opened Graph
  import opened Actions
  import opened Engine
  import opened Queue

  /** What the inner loop updates: `cost_so_far`, `came_from` (None for the
      `null` parent of `start`), the frontier and the action list. */
  datatype Frontier = Frontier(cost: map<Node, nat>, came: map<Node, Option<Node>>,
                               pq: multiset<Entry>, actions: seq<Action>)

  /** The test of line 75 for an entry of `cur`'s list, behind the visited
      test of line 66: the neighbour has no cost yet, or the cost through
      `cur` is strictly smaller. */
  predicate Better(r: Frontier, a: Adj, visited: set<Node>, cur: Node, dist: (Node, Node) -> nat)
    requires cur in r.cost
  {
    a.to !in visited && (a.to !in r.cost || r.cost[cur] + dist(cur, a.to) < r.cost[a.to])
  }

  /** ENQUEUE_NODE for the neighbour (line 70), and NODE_PROCESSED for `cur`,
      not the neighbour, unless `cur` is an endpoint (lines 82-86). */
  function EdgeActions(nb: Node, cur: Node, start: Node, end: Node): seq<Action> {
    [Single(Make(EnqueueNode, OnNode(nb)))]
    + (if cur == start || cur == end then [] else [Single(Make(NodeProcessedKind, OnNode(cur)))])
  }

  /** One turn of the inner loop (lines 63-87).  A visited neighbour changes
      nothing.  Otherwise the cost, the parent and the frontier change exactly
      when the test of line 75 holds: the neighbour's cost becomes the new
      cost, its parent `cur`, and it is queued with that cost plus its
      distance to `end`.  No cost ever grows, and a neighbour has a cost
      afterwards. */
  function Relax(r: Frontier, a: Adj, visited: set<Node>, cur: Node, start: Node, end: Node,
                 dist: (Node, Node) -> nat): (r': Frontier)
    requires cur in r.cost
    ensures r'.cost.Keys == r.cost.Keys + (if a.to in visited then {} else {a.to})
    ensures forall n :: n in r.cost ==> r'.cost[n] <= r.cost[n]
    ensures !Better(r, a, visited, cur, dist) ==> r'.cost == r.cost && r'.came == r.came && r'.pq == r.pq
    ensures Better(r, a, visited, cur, dist) ==>
              var c := r.cost[cur] + dist(cur, a.to);
              r'.cost == r.cost[a.to := c] && r'.came == r.came[a.to := Some(cur)]
              && r'.pq == r.pq + multiset{Entry(c + dist(end, a.to), a.to)}
    ensures a.to in visited ==> r' == r
    ensures a.to !in visited ==> r'.actions == r.actions + EdgeActions(a.to, cur, start, end)
  {
    if a.to in visited then r
    else
      var nb := a.to;
      var acts := r.actions + EdgeActions(nb, cur, start, end);
      var c := r.cost[cur] + dist(cur, nb);
      if nb !in r.cost || c < r.cost[nb] then
        Frontier(r.cost[nb := c], r.came[nb := Some(cur)], r.pq + multiset{Entry(c + dist(end, nb), nb)}, acts)
      else
        r.(actions := acts)
  }

  /** The inner loop over the whole list, first entry first. */
  function RelaxAll(r: Frontier, adj: seq<Adj>, visited: set<Node>, cur: Node, start: Node, end: Node,
                    dist: (Node, Node) -> nat): (r': Frontier)
    requires cur in r.cost
    ensures r.cost.Keys <= r'.cost.Keys
  {
    if adj == [] then r
    else Relax(RelaxAll(r, adj[..|adj| - 1], visited, cur, start, end, dist), adj[|adj| - 1],
               visited, cur, start, end, dist)
  }

  /** The loop of lines 63-87 over `this.graph.get(currNode)`. */
  method RelaxEdges(r0: Frontier, adj: seq<Adj>, visited: set<Node>, cur: Node, start: Node, end: Node,
                    dist: (Node, Node) -> nat) returns (r: Frontier)
    requires cur in r0.cost
    ensures r == RelaxAll(r0, adj, visited, cur, start, end, dist)
  {
    r := r0;
    var k := 0;
    while k < |adj|
      invariant 0 <= k <= |adj|
      invariant r == RelaxAll(r0, adj[..k], visited, cur, start, end, dist)
    {
      assert adj[..k + 1][..k] == adj[..k];
      r := Relax(r, adj[k], visited, cur, start, end, dist);
      k := k + 1;
    }
    assert adj[..k] == adj;
  }

  // ---------------------------------------------------------------------------
  // Invariants
  // ---------------------------------------------------------------------------

  /** No cost of `c` has grown in `c'`, and no cost has been dropped. */
  ghost predicate NoRise(c: map<Node, nat>, c': map<Node, nat>) {
    c.Keys <= c'.Keys && forall n :: n in c ==> c'[n] <= c[n]
  }

  lemma NoRiseTrans(a: map<Node, nat>, b: map<Node, nat>, c: map<Node, nat>)
    requires NoRise(a, b) && NoRise(b, c)
    ensures NoRise(a, c)
  {
    forall n | n in a
      ensures c[n] <= a[n]
    {
      assert c[n] <= b[n] <= a[n];
    }
  }

  /** The parent of every node but `start` is a visited node. */
  ghost predicate CameFromVisited(came: map<Node, Option<Node>>, visited: set<Node>, start: Node) {
    forall n :: n in came && n != start ==> came[n].Some? && came[n].value in visited
  }

  /** What holds after every turn, an error included: `start` keeps cost 0
      and the `null` parent, the nodes with a cost are those with a parent
      entry, every other parent is visited, every visited node has a cost,
      and `end` is never visited. */
  ghost predicate Safe(cost: map<Node, nat>, came: map<Node, Option<Node>>, visited: set<Node>,
                       start: Node, end: Node) {
    start in cost && cost[start] == 0 && start in came && came[start] == None
    && came.Keys == cost.Keys && CameFromVisited(came, visited, start)
    && visited <= cost.Keys && end !in visited
  }

  /** The entry a node with a cost is queued under: its cost plus its
      distance to `end` (line 77). */
  function Key(cost: map<Node, nat>, end: Node, dist: (Node, Node) -> nat, n: Node): Entry
    requires n in cost
  {
    Entry(cost[n] + dist(end, n), n)
  }

  /** Every queued node has a cost, and every unvisited node other than
      `start` that has one is queued with that cost plus its distance to `end`. */
  ghost predicate FrontierOK(cost: map<Node, nat>, pq: multiset<Entry>, visited: set<Node>, start: Node,
                             end: Node, dist: (Node, Node) -> nat) {
    (forall e :: e in pq ==> e.node in cost)
    && (forall n {:trigger Key(cost, end, dist, n)} ::
          n in cost && n != start && n !in visited ==> Key(cost, end, dist, n) in pq)
  }

  /** Every neighbour of a visited node is visited or has a cost. */
  ghost predicate Closed(g: map<Node, seq<Adj>>, visited: set<Node>, cost: map<Node, nat>)
    requires visited <= g.Keys
  {
    forall n, k :: n in visited && 0 <= k < |g[n]| ==> g[n][k].to in visited || g[n][k].to in cost
  }

  /** The frontier invariants of the main loop, and: before the first visit
      the frontier holds only `start`, afterwards `start` is visited. */
  ghost predicate Explored(g: map<Node, seq<Adj>>, cost: map<Node, nat>, pq: multiset<Entry>,
                           visited: set<Node>, start: Node, end: Node, dist: (Node, Node) -> nat) {
    FrontierOK(cost, pq, visited, start, end, dist)
    && visited <= g.Keys && Closed(g, visited, cost)
    && (visited == {} ==> pq == multiset{Entry(0, start)})
    && (visited != {} ==> start in visited)
  }

  // ---------------------------------------------------------------------------
  // The inner loop keeps the invariants
  // ---------------------------------------------------------------------------

  lemma RelaxFrontier(r: Frontier, a: Adj, visited: set<Node>, cur: Node, start: Node, end: Node,
                      dist: (Node, Node) -> nat)
    requires cur in r.cost && start in visited
    requires FrontierOK(r.cost, r.pq, visited, start, end, dist)
    ensures var r' := Relax(r, a, visited, cur, start, end, dist);
            FrontierOK(r'.cost, r'.pq, visited, start, end, dist)
  {
    var r' := Relax(r, a, visited, cur, start, end, dist);
    if Better(r, a, visited, cur, dist) {
      FrontierPush(r.cost, r.pq, visited, start, end, dist, a.to, r.cost[cur] + dist(cur, a.to), r'.cost, r'.pq);
    }
  }

  /** Giving an unvisited node a cost and queueing it accordingly keeps the frontier invariant. */
  lemma FrontierPush(cost: map<Node, nat>, pq: multiset<Entry>, visited: set<Node>, start: Node, end: Node,
                     dist: (Node, Node) -> nat, nb: Node, c: nat, cost': map<Node, nat>, pq': multiset<Entry>)
    requires FrontierOK(cost, pq, visited, start, end, dist)
    requires cost' == cost[nb := c] && pq' == pq + multiset{Entry(c + dist(end, nb), nb)}
    ensures FrontierOK(cost', pq', visited, start, end, dist)
  {
    forall n | n in cost' && n != start && n !in visited
      ensures Key(cost', end, dist, n) in pq'
    {
      if n != nb {
        assert Key(cost, end, dist, n) in pq;
      }
    }
  }

  lemma RelaxSafe(r: Frontier, a: Adj, visited: set<Node>, cur: Node, start: Node, end: Node,
                  dist: (Node, Node) -> nat)
    requires cur in visited && Safe(r.cost, r.came, visited, start, end)
    ensures var r' := Relax(r, a, visited, cur, start, end, dist);
            Safe(r'.cost, r'.came, visited, start, end) && NoRise(r.cost, r'.cost)
  {
  }

  /** The inner loop keeps `Safe` and the frontier invariant, raises no cost,
      and leaves every neighbour of `cur` visited or with a cost. */
  lemma {:induction false} RelaxAllKeeps(r: Frontier, adj: seq<Adj>, visited: set<Node>, cur: Node,
                                         start: Node, end: Node, dist: (Node, Node) -> nat)
    requires cur in visited && start in visited && Safe(r.cost, r.came, visited, start, end)
    requires FrontierOK(r.cost, r.pq, visited, start, end, dist)
    ensures var r' := RelaxAll(r, adj, visited, cur, start, end, dist);
            Safe(r'.cost, r'.came, visited, start, end) && NoRise(r.cost, r'.cost)
            && FrontierOK(r'.cost, r'.pq, visited, start, end, dist)
            && forall k :: 0 <= k < |adj| ==> adj[k].to in visited || adj[k].to in r'.cost
  {
    if adj != [] {
      var init := adj[..|adj| - 1];
      RelaxAllKeeps(r, init, visited, cur, start, end, dist);
      var r1 := RelaxAll(r, init, visited, cur, start, end, dist);
      RelaxSafe(r1, adj[|adj| - 1], visited, cur, start, end, dist);
      RelaxFrontier(r1, adj[|adj| - 1], visited, cur, start, end, dist);
      var r' := Relax(r1, adj[|adj| - 1], visited, cur, start, end, dist);
      NoRiseTrans(r.cost, r1.cost, r'.cost);
      forall k | 0 <= k < |adj|
        ensures adj[k].to in visited || adj[k].to in r'.cost
      {
        if k < |adj| - 1 {
          assert adj[k] == init[k];
        }
      }
    }
  }

  // ---------------------------------------------------------------------------
  // The main loop (lines 42-87)
  // ---------------------------------------------------------------------------

  /** Popping an entry and visiting its node keeps the frontier invariant. */
  lemma PopFrontier(cost: map<Node, nat>, pq0: multiset<Entry>, visited: set<Node>, start: Node, end: Node,
                    dist: (Node, Node) -> nat, m: Entry, rest: multiset<Entry>)
    requires FrontierOK(cost, pq0, visited, start, end, dist)
    requires m in pq0 && rest == pq0 - multiset{m}
    ensures FrontierOK(cost, rest, visited + {m.node}, start, end, dist)
  {
    forall n | n in cost && n != start && n !in visited + {m.node}
      ensures Key(cost, end, dist, n) in rest
    {
      assert Key(cost, end, dist, n) in pq0;
    }
    forall e | e in rest
      ensures e.node in cost
    {
      assert e in pq0;
    }
  }

  /** Dropping the entry of a visited node keeps the invariants. */
  lemma SkipKeeps(g: map<Node, seq<Adj>>, cost: map<Node, nat>, pq0: multiset<Entry>, visited: set<Node>,
                  start: Node, end: Node, dist: (Node, Node) -> nat, m: Entry, rest: multiset<Entry>)
    requires Explored(g, cost, pq0, visited, start, end, dist)
    requires m in pq0 && rest == pq0 - multiset{m} && m.node in visited
    ensures Explored(g, cost, rest, visited, start, end, dist)
  {
    PopFrontier(cost, pq0, visited, start, end, dist, m, rest);
    assert visited + {m.node} == visited;
  }

  /** Visiting the popped node `m.node` (neither `end` nor visited) keeps `Safe`. */
  lemma VisitSafe(cost: map<Node, nat>, came: map<Node, Option<Node>>, pq0: multiset<Entry>,
                  visited0: set<Node>, start: Node, end: Node, g: map<Node, seq<Adj>>,
                  dist: (Node, Node) -> nat, m: Entry)
    requires Safe(cost, came, visited0, start, end) && Explored(g, cost, pq0, visited0, start, end, dist)
    requires m in pq0 && m.node != end
    ensures m.node in cost && Safe(cost, came, visited0 + {m.node}, start, end)
  {
  }

  /** After the expansion of the popped node `m.node` into `r` the frontier
      invariants hold with `m.node` visited. */
  lemma ExpandKeeps(g: map<Node, seq<Adj>>, start: Node, end: Node, dist: (Node, Node) -> nat,
                    cost0: map<Node, nat>, pq0: multiset<Entry>, visited0: set<Node>, m: Entry, r: Frontier)
    requires Explored(g, cost0, pq0, visited0, start, end, dist)
    requires IsMin(m, pq0) && m.node !in visited0 && m.node in g
    requires FrontierOK(r.cost, r.pq, visited0 + {m.node}, start, end, dist) && NoRise(cost0, r.cost)
    requires forall k :: 0 <= k < |g[m.node]| ==> g[m.node][k].to in visited0 + {m.node} || g[m.node][k].to in r.cost
    ensures Explored(g, r.cost, r.pq, visited0 + {m.node}, start, end, dist)
  {
    if visited0 == {} {
      assert m == Entry(0, start);
    }
    ClosedGrow(g, visited0, cost0, r.cost, m.node);
  }

  /** Closure survives a cost map that keeps its keys, and extends to `cur`
      once every neighbour of `cur` is visited or has a cost. */
  lemma ClosedGrow(g: map<Node, seq<Adj>>, visited: set<Node>, c: map<Node, nat>, c': map<Node, nat>, cur: Node)
    requires visited <= g.Keys && cur in g && Closed(g, visited, c) && c.Keys <= c'.Keys
    requires forall k :: 0 <= k < |g[cur]| ==> g[cur][k].to in visited + {cur} || g[cur][k].to in c'
    ensures Closed(g, visited + {cur}, c')
  {
  }

  /** Lines 43-87 for the popped entry `m` of an unvisited node of the graph
      other than `end`: its edges are relaxed; the invariants carry over. */
  method Expand(g: map<Node, seq<Adj>>, start: Node, end: Node, dist: (Node, Node) -> nat,
                cost0: map<Node, nat>, came0: map<Node, Option<Node>>, ghost pq0: multiset<Entry>,
                visited0: set<Node>, m: Entry, rest: multiset<Entry>, acts: seq<Action>)
    returns (r: Frontier)
    requires Safe(cost0, came0, visited0, start, end) && Explored(g, cost0, pq0, visited0, start, end, dist)
    requires IsMin(m, pq0) && rest == pq0 - multiset{m}
    requires m.node !in visited0 && m.node != end && m.node in g && m.node in cost0
    ensures Safe(r.cost, r.came, visited0 + {m.node}, start, end)
    ensures Explored(g, r.cost, r.pq, visited0 + {m.node}, start, end, dist)
    ensures NoRise(cost0, r.cost)
  {
    var cur := m.node;
    var visited := visited0 + {cur};
    if visited0 == {} {
      assert m == Entry(0, start);
    }
    VisitSafe(cost0, came0, pq0, visited0, start, end, g, dist, m);
    PopFrontier(cost0, pq0, visited0, start, end, dist, m, rest);
    var r0 := Frontier(cost0, came0, rest, acts);
    r := RelaxEdges(r0, g[cur], visited, cur, start, end, dist);
    RelaxAllKeeps(r0, g[cur], visited, cur, start, end, dist);
    ExpandKeeps(g, start, end, dist, cost0, pq0, visited0, m, r);
  }

  /** `showCurrentPath(start, node)`, of whose contract the search needs
      only that the engine stays valid. */
  method ShowPath(alg: Algorithm, start: Node, node: Node) returns (r: Result<Action>)
    requires alg.Valid()
    modifies alg`prevPathNode, alg`prevPathEdge
    ensures alg.Valid()
  {
    r := alg.ShowCurrentPath(start, node);
  }

  /** One turn of the main loop: the least entry is popped; popping `end`
      ends the search (`reached`); a visited node is skipped; otherwise the
      node is marked processing (unless it is an endpoint), visited, its
      current path shown, and its edges relaxed.  `more` holds the actions
      the turn appends.  An error stops the search. */
  method Step(alg: Algorithm, start: Node, end: Node, dist: (Node, Node) -> nat,
              cost0: map<Node, nat>, came0: map<Node, Option<Node>>, pq0: multiset<Entry>, visited0: set<Node>)
    returns (cost: map<Node, nat>, came: map<Node, Option<Node>>, pq: multiset<Entry>, visited: set<Node>,
             more: seq<Action>, reached: bool, err: Option<Error>)
    requires |pq0| > 0 && alg.Valid()
    requires Safe(cost0, came0, visited0, start, end) && Explored(alg.graph, cost0, pq0, visited0, start, end, dist)
    modifies alg`prevPathNode, alg`prevPathEdge
    ensures alg.Valid()
    ensures Safe(cost, came, visited, start, end) && NoRise(cost0, cost)
    ensures reached ==> err.None? && end in cost
    ensures err.None? && !reached ==>
              Explored(alg.graph, cost, pq, visited, start, end, dist)
              && (|alg.graph.Keys - visited| < |alg.graph.Keys - visited0| || (visited == visited0 && |pq| < |pq0|))
  {
    var m, rest := Dequeue(pq0);
    cost, came, pq, visited, more, reached, err := cost0, came0, rest, visited0, [], false, None;
    if m.node == end {
      // the goal test of line 45 comes before the visited test
      reached := true;
      return;
    }
    if m.node in visited0 {
      SkipKeeps(alg.graph, cost0, pq0, visited0, start, end, dist, m, rest);
      return;
    }
    var cur := m.node;
    more := ProcessingActions(cur, start, end);
    VisitSafe(cost0, came0, pq0, visited0, start, end, alg.graph, dist, m);
    visited := visited0 + {cur};
    var cp := ShowPath(alg, start, cur);
    if cp.Err? {
      return cost, came, pq, visited, more, false, Some(cp.error);
    }
    more := more + [cp.value];
    if cur !in alg.graph {
      // `this.graph.get(currNode)` is undefined and cannot be iterated
      return cost, came, pq, visited, more, false, Some(TypeError);
    }
    var r := Expand(alg.graph, start, end, dist, cost0, came0, pq0, visited0, m, rest, more);
    cost, came, pq, more := r.cost, r.came, r.pq, r.actions;
    Shrinks(alg.graph.Keys, visited0, cur);
  }

  /** With the frontier empty, every node with a cost is visited, and the
      visited nodes are closed under neighbours. */
  lemma Exhausted(g: map<Node, seq<Adj>>, cost: map<Node, nat>, visited: set<Node>, start: Node, end: Node,
                  dist: (Node, Node) -> nat)
    requires Explored(g, cost, multiset{}, visited, start, end, dist)
    ensures start in visited && visited <= g.Keys
    ensures forall n :: n in cost ==> n in visited
    ensures forall n, k :: n in visited && 0 <= k < |g[n]| ==> g[n][k].to in visited
  {
    forall n | n in cost && n != start
      ensures n in visited
    {
      assert Key(cost, end, dist, n) !in multiset{};
    }
  }

  /** process(start, end) of AStar.ts, for the straight-line distance `dist`
      (line 32), which serves both as edge cost and as heuristic.  The search
      stops when `end` is popped (`reached`), so `end` is never visited.
      `start` keeps cost 0 and no parent; every other node with a cost has a
      visited parent.  When the frontier runs out without reaching `end`,
      every node with a cost is visited and so is every neighbour of a
      visited node.  The engine's parent map is outside the frame: it is
      read by `showCurrentPath` and never written. */
  method Process(alg: Algorithm, start: Node, end: Node, dist: (Node, Node) -> nat)
    returns (actions: seq<Action>, err: Option<Error>, reached: bool,
             cost: map<Node, nat>, came: map<Node, Option<Node>>, visited: set<Node>)
    requires alg.Valid()
    modifies alg`prevPathNode, alg`prevPathEdge
    ensures alg.Valid()
    ensures |actions| >= 2 && actions[..2] == EndpointActions(start, end)
    ensures start in cost && cost[start] == 0 && start in came && came[start] == None
    ensures came.Keys == cost.Keys && visited <= cost.Keys && end !in visited
    ensures forall n :: n in came && n != start ==> came[n].Some? && came[n].value in visited
    ensures reached ==> err.None? && end in cost
    ensures err.None? && !reached ==> start in visited && visited <= alg.graph.Keys
    ensures err.None? && !reached ==> forall n :: n in cost ==> n in visited
    ensures err.None? && !reached ==>
              forall n, k :: n in visited && 0 <= k < |alg.graph[n]| ==> alg.graph[n][k].to in visited
  {
    var pq := multiset{Entry(0, start)};
    came := map[start := None];
    cost := map[start := 0];
    visited := {};
    actions := EndpointActions(start, end);
    err, reached := None, false;
    ghost var first := actions;
    while |pq| > 0
      invariant alg.Valid()
      invariant |actions| >= 2 && actions[..2] == first
      invariant Safe(cost, came, visited, start, end)
      invariant Explored(alg.graph, cost, pq, visited, start, end, dist)
      invariant err.None? && !reached
      decreases |alg.graph.Keys - visited|, |pq|
    {
      var more;
      ghost var acts0 := actions;
      var cost', came', pq', visited', err', reached';
      cost', came', pq', visited', more, reached', err' := Step(alg, start, end, dist, cost, came, pq, visited);
      PrefixOfAppend(acts0, more, 2);
      actions := actions + more;
      if reached' || err'.Some? {
        cost, came, visited, err, reached := cost', came', visited', err', reached';
        break;
      }
      cost, came, pq, visited := cost', came', pq', visited';
    }
    if err.None? && !reached {
      assert pq == multiset{};
      Exhausted(alg.graph, cost, visited, start, end, dist);
    }
  }

  /** processGenerator(start, end) of AStar.ts always throws "Method not implemented.". */
  function ProcessGenerator(start: Node, end: Node): (r: Result<seq<Event>>)
    ensures r == Err(MethodNotImplemented)
  {
    Err(MethodNotImplemented)
  }
}
