/** `process` of Dijkstra.ts: distances start at 0 for `start` and Infinity
    for every other node, a min-queue of `{ dist, node }` entries drives the
    loop, and an edge to an unvisited neighbour lowers the neighbour's
    distance, sets its parent and re-queues it exactly when that is shorter.
    The visited test of line 67 asks whether the popped entry, not its node,
    is in the set of visited nodes, so it never holds: a node popped again
    is expanded again, which only adds actions (`RevisitKeeps`).  The method
    returns the list of actions and leaves the distances and the visited set
    to its caller; the parent map is the engine's, updated in place. */
module DijkstraSearch {
  import opened Common
  import opened Graph
  import opened Actions
  import opened Engine
  import opened Queue

  /** A recorded distance: a number or `Infinity`. */
  datatype Dist = Finite(value: nat) | Infinity

  /** `a < b` on recorded distances. */
  predicate Below(a: Dist, b: Dist) {
    a.Finite? && (b.Infinity? || a.value < b.value)
  }

  /** `a <= b` on recorded distances. */
  predicate AtMost(a: Dist, b: Dist) {
    a == b || Below(a, b)
  }

  /** `distances.get(n) + weight`, where Infinity absorbs. */
  function Plus(a: Dist, w: nat): Dist {
    if a.Finite? then Finite(a.value + w) else Infinity
  }

  /** `Math.min(distances.get(n), entry.dist)` (line 82). */
  function Min(a: Dist, b: nat): (r: Dist)
    ensures r.Finite? && r.value <= b && AtMost(r, a)
    ensures r == a || r == Finite(b)
  {
    if a.Finite? && a.value <= b then a else Finite(b)
  }

  // ---------------------------------------------------------------------------
  // Edge weights (lines 41-55)
  // ---------------------------------------------------------------------------

  /** The weight of lines 45-51: `hypot(x1 - x2, y1 - y2)` with both points
      read from the edge's source, for a straight-line distance `d`. */
  function WeightAsWritten(d: (Node, Node) -> nat, e: Edge): nat {
    d(e.source, e.source)
  }

  /** A distance is zero from a point to itself, so every weight Dijkstra.ts
      computes is zero, whatever the edge. */
  lemma WeightsVanish(d: (Node, Node) -> nat, e: Edge)
    requires forall n: Node :: d(n, n) == 0
    ensures WeightAsWritten(d, e) == 0
  {
  }

  // ---------------------------------------------------------------------------
  // Distances before the loop (lines 32-39)
  // ---------------------------------------------------------------------------

  /** `distances.set(start, 0)`, then Infinity for every other key of the
      graph, in map order. */
  method InitDistances(order: seq<Node>, start: Node) returns (dists: map<Node, Dist>)
    ensures dists.Keys == Elems(order) + {start}
    ensures dists[start] == Finite(0)
    ensures forall n :: n in dists && n != start ==> dists[n] == Infinity
  {
    dists := map[start := Finite(0)];
    var i := 0;
    while i < |order|
      invariant 0 <= i <= |order|
      invariant dists.Keys == Elems(order[..i]) + {start}
      invariant dists[start] == Finite(0)
      invariant forall n :: n in dists && n != start ==> dists[n] == Infinity
    {
      PrefixStep(order, i);
      if order[i] != start {
        dists := dists[order[i] := Infinity];
      }
      i := i + 1;
    }
    assert order[..i] == order;
  }

  // ---------------------------------------------------------------------------
  // Relaxation (lines 84-106)
  // ---------------------------------------------------------------------------

  /** What the inner loop updates: the distances, the parent map, the queue
      and the action list. */
  datatype Relaxation = Relaxation(dists: map<Node, Dist>, pm: map<Node, Node>,
                                   pq: multiset<Entry>, actions: seq<Action>)

  /** The test of line 101 for an entry of `cur`'s list, behind the visited
      test of line 86: the neighbour is unvisited, has a recorded distance,
      and going through `cur` is strictly shorter.  (A neighbour without a
      recorded distance compares against `undefined`, which is false.) */
  predicate Improves(r: Relaxation, a: Adj, visited: set<Node>, cur: Node, weight: Edge -> nat)
    requires cur in r.dists
  {
    a.to !in visited && a.to in r.dists && Below(Plus(r.dists[cur], weight(a.element)), r.dists[a.to])
  }

  /** ENQUEUE_NODE for the neighbour, then NODE_PROCESSED for it unless it is
      an endpoint (lines 92-98). */
  function NeighbourActions(nb: Node, start: Node, end: Node): seq<Action> {
    [Single(Make(EnqueueNode, OnNode(nb)))]
    + (if nb == start || nb == end then [] else [Single(Make(NodeProcessedKind, OnNode(nb)))])
  }

  /** One turn of the inner loop.  A visited neighbour changes nothing.  The
      distances change exactly when the test of line 101 holds; then the
      neighbour's distance drops to the new one, its parent becomes `cur` and
      it is queued with that distance; otherwise the parent map and the queue
      stay as they were.  No distance ever grows. */
  function RelaxEdge(r: Relaxation, a: Adj, visited: set<Node>, cur: Node, start: Node, end: Node,
                     weight: Edge -> nat): (r': Relaxation)
    requires cur in r.dists
    ensures r'.dists.Keys == r.dists.Keys
    ensures forall n :: n in r.dists ==> AtMost(r'.dists[n], r.dists[n])
    ensures r'.dists != r.dists <==> Improves(r, a, visited, cur, weight)
    ensures Improves(r, a, visited, cur, weight) ==>
              var alt := Plus(r.dists[cur], weight(a.element));
              alt.Finite? && Below(alt, r.dists[a.to]) && r'.dists[a.to] == alt
              && r'.pm == r.pm[a.to := cur] && r'.pq == r.pq + multiset{Entry(alt.value, a.to)}
    ensures !Improves(r, a, visited, cur, weight) ==> r'.pm == r.pm && r'.pq == r.pq
    ensures a.to in visited ==> r' == r
    ensures a.to !in visited ==> r'.actions == r.actions + NeighbourActions(a.to, start, end)
  {
    if a.to in visited then r
    else
      var nb := a.to;
      var acts := r.actions + NeighbourActions(nb, start, end);
      var alt := Plus(r.dists[cur], weight(a.element));
      if nb in r.dists && Below(alt, r.dists[nb]) then
        assert r.dists[nb := alt][nb] != r.dists[nb];
        Relaxation(r.dists[nb := alt], r.pm[nb := cur], r.pq + multiset{Entry(alt.value, nb)}, acts)
      else
        r.(actions := acts)
  }

  /** The inner loop over the whole list, first entry first. */
  function RelaxAll(r: Relaxation, adj: seq<Adj>, visited: set<Node>, cur: Node, start: Node, end: Node,
                    weight: Edge -> nat): (r': Relaxation)
    requires cur in r.dists
    ensures r'.dists.Keys == r.dists.Keys
  {
    if adj == [] then r
    else RelaxEdge(RelaxAll(r, adj[..|adj| - 1], visited, cur, start, end, weight), adj[|adj| - 1],
                   visited, cur, start, end, weight)
  }

  /** The loop of lines 84-106 over `weightedGraph.get(cur)`. */
  method RelaxEdges(r0: Relaxation, adj: seq<Adj>, visited: set<Node>, cur: Node, start: Node, end: Node,
                    weight: Edge -> nat) returns (r: Relaxation)
    requires cur in r0.dists
    ensures r == RelaxAll(r0, adj, visited, cur, start, end, weight)
  {
    r := r0;
    var k := 0;
    while k < |adj|
      invariant 0 <= k <= |adj|
      invariant r == RelaxAll(r0, adj[..k], visited, cur, start, end, weight)
    {
      assert adj[..k + 1][..k] == adj[..k];
      r := RelaxEdge(r, adj[k], visited, cur, start, end, weight);
      k := k + 1;
    }
    assert adj[..k] == adj;
  }

  /** Every queued node has a recorded distance, and every unvisited node with
      a finite distance is queued with that distance. */
  ghost predicate FrontierOK(dists: map<Node, Dist>, pq: multiset<Entry>, visited: set<Node>) {
    (forall e :: e in pq ==> e.node in dists)
    && (forall n :: n in dists && dists[n].Finite? && n !in visited ==> Entry(dists[n].value, n) in pq)
  }

  lemma RelaxEdgeFrontier(r: Relaxation, a: Adj, visited: set<Node>, cur: Node, start: Node, end: Node,
                          weight: Edge -> nat)
    requires cur in r.dists && FrontierOK(r.dists, r.pq, visited)
    ensures var r' := RelaxEdge(r, a, visited, cur, start, end, weight);
            FrontierOK(r'.dists, r'.pq, visited)
  {
  }

  /** The inner loop keeps the distances' keys, never raises a distance,
      leaves visited nodes' distances and parents alone, gives new parents
      only `cur`, and keeps the frontier invariant. */
  lemma {:induction false} RelaxAllKeeps(r: Relaxation, adj: seq<Adj>, visited: set<Node>, cur: Node,
                                         start: Node, end: Node, weight: Edge -> nat)
    requires cur in visited && cur in r.dists
    ensures var r' := RelaxAll(r, adj, visited, cur, start, end, weight);
            Lowered(r.dists, r'.dists)
            && (forall n :: n in visited && n in r.dists ==> r'.dists[n] == r.dists[n])
            && ParentsFrom(r.pm, r'.pm, {cur})
            && (forall n :: n in visited ==> (n in r'.pm <==> n in r.pm))
            && (FrontierOK(r.dists, r.pq, visited) ==> FrontierOK(r'.dists, r'.pq, visited))
  {
    if adj != [] {
      var init := adj[..|adj| - 1];
      RelaxAllKeeps(r, init, visited, cur, start, end, weight);
      var r1 := RelaxAll(r, init, visited, cur, start, end, weight);
      var r' := RelaxEdge(r1, adj[|adj| - 1], visited, cur, start, end, weight);
      LoweredTrans(r.dists, r1.dists, r'.dists);
      if FrontierOK(r.dists, r.pq, visited) {
        RelaxEdgeFrontier(r1, adj[|adj| - 1], visited, cur, start, end, weight);
      }
    }
  }

  /** When `cur` has a finite distance and visited nodes do, every neighbour
      with a recorded distance ends the inner loop with a finite one. */
  lemma {:induction false} RelaxAllReaches(r: Relaxation, adj: seq<Adj>, visited: set<Node>, cur: Node,
                                           start: Node, end: Node, weight: Edge -> nat)
    requires cur in visited && cur in r.dists && r.dists[cur].Finite?
    requires forall n :: n in visited && n in r.dists ==> r.dists[n].Finite?
    ensures var r' := RelaxAll(r, adj, visited, cur, start, end, weight);
            forall k :: 0 <= k < |adj| && adj[k].to in r'.dists ==> r'.dists[adj[k].to].Finite?
  {
    if adj != [] {
      var init := adj[..|adj| - 1];
      RelaxAllReaches(r, init, visited, cur, start, end, weight);
      RelaxAllKeeps(r, init, visited, cur, start, end, weight);
      var r1 := RelaxAll(r, init, visited, cur, start, end, weight);
      var r' := RelaxEdge(r1, adj[|adj| - 1], visited, cur, start, end, weight);
      forall k | 0 <= k < |adj| && adj[k].to in r'.dists
        ensures r'.dists[adj[k].to].Finite?
      {
        if k < |adj| - 1 {
          assert adj[k] == init[k];
          assert AtMost(r'.dists[adj[k].to], r1.dists[adj[k].to]);
        }
      }
    }
  }

  // ---------------------------------------------------------------------------
  // The main loop (lines 64-107)
  // ---------------------------------------------------------------------------

  /** No distance of `d` has grown in `d'`, and both have the same keys. */
  ghost predicate Lowered(d: map<Node, Dist>, d': map<Node, Dist>) {
    d'.Keys == d.Keys && forall n :: n in d ==> AtMost(d'[n], d[n])
  }

  lemma LoweredTrans(a: map<Node, Dist>, b: map<Node, Dist>, c: map<Node, Dist>)
    requires Lowered(a, b) && Lowered(b, c)
    ensures Lowered(a, c)
  {
    forall n | n in a
      ensures AtMost(c[n], a[n])
    {
      assert AtMost(c[n], b[n]) && AtMost(b[n], a[n]);
    }
  }

  /** The distances keep their keys, `start` keeps distance 0, and no
      distance has grown since `d0`. */
  ghost predicate DistInv(d0: map<Node, Dist>, dists: map<Node, Dist>, start: Node) {
    start in dists && dists[start] == Finite(0) && Lowered(d0, dists)
  }

  /** Every neighbour of a visited node that has a recorded distance has a finite one. */
  ghost predicate Closed(g: map<Node, seq<Adj>>, visited: set<Node>, dists: map<Node, Dist>)
    requires visited <= g.Keys
  {
    forall n, k :: n in visited && 0 <= k < |g[n]| && g[n][k].to in dists ==> dists[g[n][k].to].Finite?
  }

  lemma ClosedLowered(g: map<Node, seq<Adj>>, visited: set<Node>, d: map<Node, Dist>, d': map<Node, Dist>)
    requires visited <= g.Keys && Closed(g, visited, d) && Lowered(d, d')
    ensures Closed(g, visited, d')
  {
    forall n, k | n in visited && 0 <= k < |g[n]| && g[n][k].to in d'
      ensures d'[g[n][k].to].Finite?
    {
      assert AtMost(d'[g[n][k].to], d[g[n][k].to]);
    }
  }

  /** Every visited node is a node of the graph with a finite distance. */
  ghost predicate VisitedFinite(g: map<Node, seq<Adj>>, dists: map<Node, Dist>, visited: set<Node>) {
    forall n :: n in visited ==> n in g && n in dists && dists[n].Finite?
  }

  /** The frontier and visited invariants, and: before the first visit the
      queue holds only `start`, afterwards `start` is visited. */
  ghost predicate Explored(g: map<Node, seq<Adj>>, dists: map<Node, Dist>, pq: multiset<Entry>,
                           visited: set<Node>, start: Node) {
    FrontierOK(dists, pq, visited)
    && VisitedFinite(g, dists, visited)
    && Closed(g, visited, dists)
    && (visited == {} ==> pq == multiset{Entry(0, start)})
    && (visited != {} ==> start in visited)
  }

  /** `start` gets no parent when it had none, and every new parent is visited. */
  ghost predicate ParentInv(pm0: map<Node, Node>, pm: map<Node, Node>, visited: set<Node>, start: Node) {
    (start !in pm0 ==> start !in pm) && ParentsFrom(pm0, pm, visited)
  }

  /** Lowering one distance to at most `b` lowers the map. */
  lemma LowerOne(d: map<Node, Dist>, n: Node, b: nat)
    requires n in d
    ensures Lowered(d, d[n := Min(d[n], b)])
  {
  }

  /** Dequeuing the least entry of an unvisited node, visiting that node and
      lowering its distance to the entry's keeps the frontier invariant. */
  lemma PopKeeps(dists0: map<Node, Dist>, pq0: multiset<Entry>, visited0: set<Node>,
                 m: Entry, rest: multiset<Entry>)
    requires FrontierOK(dists0, pq0, visited0)
    requires m in pq0 && rest == pq0 - multiset{m}
    ensures m.node in dists0
    ensures FrontierOK(dists0[m.node := Min(dists0[m.node], m.prio)], rest, visited0 + {m.node})
  {
    var d1 := dists0[m.node := Min(dists0[m.node], m.prio)];
    forall n | n in d1 && d1[n].Finite? && n !in visited0 + {m.node}
      ensures Entry(d1[n].value, n) in rest
    {
      assert Entry(dists0[n].value, n) in pq0;
    }
    forall e | e in rest
      ensures e.node in d1
    {
      assert e in pq0;
    }
  }

  /** After the expansion of `cur` the state keeps the invariants. */
  lemma ExpandKeeps(g: map<Node, seq<Adj>>, d0: map<Node, Dist>, pm0: map<Node, Node>, start: Node, end: Node,
                    dists0: map<Node, Dist>, pq0: multiset<Entry>, visited0: set<Node>, pm: map<Node, Node>,
                    m: Entry, rest: multiset<Entry>, acts: seq<Action>, weight: Edge -> nat)
    requires DistInv(d0, dists0, start) && Explored(g, dists0, pq0, visited0, start)
    requires ParentInv(pm0, pm, visited0, start)
    requires IsMin(m, pq0) && rest == pq0 - multiset{m}
    requires m.node !in visited0 && m.node in g
    ensures m.node in dists0
    ensures var visited := visited0 + {m.node};
            var r := RelaxAll(Relaxation(dists0[m.node := Min(dists0[m.node], m.prio)], pm, rest, acts),
                              g[m.node], visited, m.node, start, end, weight);
            DistInv(d0, r.dists, start) && Explored(g, r.dists, r.pq, visited, start)
            && ParentInv(pm0, r.pm, visited, start) && Lowered(dists0, r.dists)
  {
    var cur := m.node;
    var visited := visited0 + {cur};
    var r0 := Relaxation(dists0[cur := Min(dists0[cur], m.prio)], pm, rest, acts);
    var r := RelaxAll(r0, g[cur], visited, cur, start, end, weight);
    ExpandDists(g, d0, start, end, dists0, pq0, visited0, r0, m, weight);
    ExpandFrontier(g, start, end, dists0, pq0, visited0, r0, m, weight);
    RelaxAllKeeps(r0, g[cur], visited, cur, start, end, weight);
    assert ParentsFrom(pm0, r.pm, visited) by {
      assert ParentsFrom(pm, r.pm, {cur});
    }
  }

  /** The distance half of `ExpandKeeps`. */
  lemma ExpandDists(g: map<Node, seq<Adj>>, d0: map<Node, Dist>, start: Node, end: Node,
                    dists0: map<Node, Dist>, pq0: multiset<Entry>, visited0: set<Node>, r0: Relaxation,
                    m: Entry, weight: Edge -> nat)
    requires DistInv(d0, dists0, start) && Explored(g, dists0, pq0, visited0, start)
    requires m in pq0 && m.node !in visited0 && m.node in g
    requires m.node in dists0 && r0.dists == dists0[m.node := Min(dists0[m.node], m.prio)]
    ensures var r := RelaxAll(r0, g[m.node], visited0 + {m.node}, m.node, start, end, weight);
            DistInv(d0, r.dists, start) && Lowered(dists0, r.dists)
            && VisitedFinite(g, r.dists, visited0 + {m.node}) && Closed(g, visited0 + {m.node}, r.dists)
  {
    var cur := m.node;
    var visited := visited0 + {cur};
    LowerOne(dists0, cur, m.prio);
    RelaxAllKeeps(r0, g[cur], visited, cur, start, end, weight);
    RelaxAllReaches(r0, g[cur], visited, cur, start, end, weight);
    var r := RelaxAll(r0, g[cur], visited, cur, start, end, weight);
    LoweredTrans(dists0, r0.dists, r.dists);
    LoweredTrans(d0, dists0, r.dists);
    ClosedLowered(g, visited0, dists0, r.dists);
    ClosedAdd(g, visited0, r.dists, cur);
  }

  /** The queue half of `ExpandKeeps`. */
  lemma ExpandFrontier(g: map<Node, seq<Adj>>, start: Node, end: Node,
                       dists0: map<Node, Dist>, pq0: multiset<Entry>, visited0: set<Node>, r0: Relaxation,
                       m: Entry, weight: Edge -> nat)
    requires Explored(g, dists0, pq0, visited0, start)
    requires IsMin(m, pq0) && r0.pq == pq0 - multiset{m} && m.node !in visited0 && m.node in g
    requires m.node in dists0 && r0.dists == dists0[m.node := Min(dists0[m.node], m.prio)]
    ensures var r := RelaxAll(r0, g[m.node], visited0 + {m.node}, m.node, start, end, weight);
            FrontierOK(r.dists, r.pq, visited0 + {m.node}) && start in visited0 + {m.node}
  {
    var cur := m.node;
    PopKeeps(dists0, pq0, visited0, m, r0.pq);
    if visited0 == {} {
      assert m == Entry(0, start);
    }
    RelaxAllKeeps(r0, g[cur], visited0 + {cur}, cur, start, end, weight);
  }

  lemma ClosedAdd(g: map<Node, seq<Adj>>, visited: set<Node>, d: map<Node, Dist>, cur: Node)
    requires visited <= g.Keys && cur in g && Closed(g, visited, d)
    requires forall k :: 0 <= k < |g[cur]| && g[cur][k].to in d ==> d[g[cur][k].to].Finite?
    ensures Closed(g, visited + {cur}, d)
  {
  }

  /** Dropping the entry of a visited node keeps the frontier invariants. */
  lemma SkipKeeps(g: map<Node, seq<Adj>>, dists: map<Node, Dist>, pq0: multiset<Entry>, visited: set<Node>,
                  start: Node, m: Entry, rest: multiset<Entry>)
    requires Explored(g, dists, pq0, visited, start)
    requires m in pq0 && rest == pq0 - multiset{m} && m.node in visited
    ensures Explored(g, dists, rest, visited, start)
  {
    forall n | n in dists && dists[n].Finite? && n !in visited
      ensures Entry(dists[n].value, n) in rest
    {
      assert Entry(dists[n].value, n) in pq0;
    }
    forall e | e in rest
      ensures e.node in dists
    {
      assert e in pq0;
    }
  }

  /** Visiting more nodes keeps the parent invariant. */
  lemma ParentsGrow(pm0: map<Node, Node>, pm: map<Node, Node>, visited: set<Node>, cur: Node, start: Node)
    requires ParentInv(pm0, pm, visited, start)
    ensures ParentInv(pm0, pm, visited + {cur}, start)
  {
  }

  /** Every queued entry's node has a finite distance no greater than the entry's. */
  ghost predicate EntriesAbove(dists: map<Node, Dist>, pq: multiset<Entry>) {
    forall e :: e in pq ==> e.node in dists && dists[e.node].Finite? && dists[e.node].value <= e.prio
  }

  /** Every edge from a visited node to an unvisited one with a recorded
      distance is relaxed: the neighbour is at most the node's distance plus
      the edge's weight away. */
  ghost predicate Relaxed(g: map<Node, seq<Adj>>, visited: set<Node>, dists: map<Node, Dist>, weight: Edge -> nat) {
    forall v, k :: v in visited && v in g && v in dists && 0 <= k < |g[v]|
                   && g[v][k].to !in visited && g[v][k].to in dists ==>
      AtMost(dists[g[v][k].to], Plus(dists[v], weight(g[v][k].element)))
  }

  /** The two facts that make a second pop of a node harmless. */
  ghost predicate Settled(g: map<Node, seq<Adj>>, dists: map<Node, Dist>, pq: multiset<Entry>,
                          visited: set<Node>, weight: Edge -> nat) {
    EntriesAbove(dists, pq) && Relaxed(g, visited, dists, weight)
  }

  /** A distance that is not beaten by `a` is at most `a`. */
  lemma NotBelow(a: Dist, b: Dist)
    ensures !Below(a, b) <==> AtMost(b, a)
  {
  }

  /** Lowering distances keeps every entry above its node's distance. */
  lemma AboveLowered(d: map<Node, Dist>, d': map<Node, Dist>, pq: multiset<Entry>)
    requires EntriesAbove(d, pq) && Lowered(d, d')
    ensures EntriesAbove(d', pq)
  {
    forall e | e in pq
      ensures e.node in d' && d'[e.node].Finite? && d'[e.node].value <= e.prio
    {
      assert AtMost(d'[e.node], d[e.node]);
    }
  }

  /** The inner loop keeps every entry above its node's distance: a new
      entry carries exactly the neighbour's new distance. */
  lemma {:induction false} RelaxAllAbove(r: Relaxation, adj: seq<Adj>, visited: set<Node>, cur: Node,
                                         start: Node, end: Node, weight: Edge -> nat)
    requires cur in visited && cur in r.dists && EntriesAbove(r.dists, r.pq)
    ensures var r' := RelaxAll(r, adj, visited, cur, start, end, weight);
            EntriesAbove(r'.dists, r'.pq)
  {
    if adj != [] {
      var init := adj[..|adj| - 1];
      RelaxAllAbove(r, init, visited, cur, start, end, weight);
      var r1 := RelaxAll(r, init, visited, cur, start, end, weight);
      var a := adj[|adj| - 1];
      var r' := RelaxEdge(r1, a, visited, cur, start, end, weight);
      assert Lowered(r1.dists, r'.dists);
      AboveLowered(r1.dists, r'.dists, r1.pq);
      if Improves(r1, a, visited, cur, weight) {
        var alt := Plus(r1.dists[cur], weight(a.element));
        forall e | e in r'.pq
          ensures e.node in r'.dists && r'.dists[e.node].Finite? && r'.dists[e.node].value <= e.prio
        {
          if e != Entry(alt.value, a.to) {
            assert e in r1.pq;
          }
        }
      }
    }
  }

  /** After the inner loop every entry of `cur`'s list to an unvisited
      neighbour with a recorded distance is relaxed. */
  lemma {:induction false} RelaxAllRelaxes(r: Relaxation, adj: seq<Adj>, visited: set<Node>, cur: Node,
                                           start: Node, end: Node, weight: Edge -> nat)
    requires cur in visited && cur in r.dists
    ensures var r' := RelaxAll(r, adj, visited, cur, start, end, weight);
            forall k :: 0 <= k < |adj| && adj[k].to !in visited && adj[k].to in r'.dists ==>
              AtMost(r'.dists[adj[k].to], Plus(r'.dists[cur], weight(adj[k].element)))
  {
    if adj != [] {
      var init := adj[..|adj| - 1];
      RelaxAllRelaxes(r, init, visited, cur, start, end, weight);
      RelaxAllKeeps(r, init, visited, cur, start, end, weight);
      RelaxAllKeeps(r, adj, visited, cur, start, end, weight);
      var r1 := RelaxAll(r, init, visited, cur, start, end, weight);
      var a := adj[|adj| - 1];
      var r' := RelaxEdge(r1, a, visited, cur, start, end, weight);
      assert r'.dists[cur] == r1.dists[cur];
      forall k | 0 <= k < |adj| && adj[k].to !in visited && adj[k].to in r'.dists
        ensures AtMost(r'.dists[adj[k].to], Plus(r'.dists[cur], weight(adj[k].element)))
      {
        if k < |adj| - 1 {
          assert adj[k] == init[k];
          assert AtMost(r'.dists[adj[k].to], r1.dists[adj[k].to]);
        } else if !Improves(r1, a, visited, cur, weight) {
          NotBelow(Plus(r1.dists[cur], weight(a.element)), r1.dists[a.to]);
        }
      }
    }
  }

  /** With every entry of `cur`'s list relaxed, the inner loop changes no
      distance, no parent and no queue entry. */
  lemma {:induction false} RelaxAllRelaxed(r: Relaxation, adj: seq<Adj>, visited: set<Node>, cur: Node,
                                           start: Node, end: Node, weight: Edge -> nat)
    requires cur in visited && cur in r.dists
    requires forall k :: 0 <= k < |adj| && adj[k].to !in visited && adj[k].to in r.dists ==>
               AtMost(r.dists[adj[k].to], Plus(r.dists[cur], weight(adj[k].element)))
    ensures var r' := RelaxAll(r, adj, visited, cur, start, end, weight);
            r'.dists == r.dists && r'.pm == r.pm && r'.pq == r.pq
  {
    if adj != [] {
      var init := adj[..|adj| - 1];
      assert forall k :: 0 <= k < |init| ==> init[k] == adj[k];
      RelaxAllRelaxed(r, init, visited, cur, start, end, weight);
      var r1 := RelaxAll(r, init, visited, cur, start, end, weight);
      var a := adj[|adj| - 1];
      if a.to !in visited && a.to in r.dists {
        NotBelow(Plus(r.dists[cur], weight(a.element)), r.dists[a.to]);
      }
      assert !Improves(r1, a, visited, cur, weight);
    }
  }

  /** A node popped again has a distance at most the entry's, so `Math.min`
      keeps it, and its edges are relaxed, so its expansion changes only the
      action list; the invariants hold with the entry dropped. */
  lemma RevisitKeeps(g: map<Node, seq<Adj>>, dists0: map<Node, Dist>, pq0: multiset<Entry>, visited0: set<Node>,
                     start: Node, end: Node, pm: map<Node, Node>, m: Entry, rest: multiset<Entry>,
                     acts: seq<Action>, weight: Edge -> nat)
    requires Explored(g, dists0, pq0, visited0, start) && Settled(g, dists0, pq0, visited0, weight)
    requires m in pq0 && rest == pq0 - multiset{m} && m.node in visited0
    ensures m.node in dists0
    ensures var r := RelaxAll(Relaxation(dists0[m.node := Min(dists0[m.node], m.prio)], pm, rest, acts), g[m.node],
                              visited0 + {m.node}, m.node, start, end, weight);
            r.dists == dists0 && r.pm == pm && r.pq == rest
            && Explored(g, dists0, rest, visited0 + {m.node}, start) && Settled(g, dists0, rest, visited0 + {m.node}, weight)
  {
    var cur := m.node;
    assert visited0 + {cur} == visited0;
    assert dists0[cur := Min(dists0[cur], m.prio)] == dists0;
    var adj := g[cur];
    forall k | 0 <= k < |adj| && adj[k].to !in visited0 && adj[k].to in dists0
      ensures AtMost(dists0[adj[k].to], Plus(dists0[cur], weight(adj[k].element)))
    {
      assert adj[k] == g[cur][k];
    }
    RelaxAllRelaxed(Relaxation(dists0, pm, rest, acts), adj, visited0, cur, start, end, weight);
    SkipKeeps(g, dists0, pq0, visited0, start, m, rest);
    forall e | e in rest
      ensures e.node in dists0 && dists0[e.node].Finite? && dists0[e.node].value <= e.prio
    {
      assert e in pq0;
    }
  }

  /** Visiting a new node keeps both facts: the other visited nodes keep
      their distances while their neighbours' only drop, and the new node's
      edges were all just relaxed. */
  lemma ExpandSettled(g: map<Node, seq<Adj>>, start: Node, end: Node, dists0: map<Node, Dist>,
                      pq0: multiset<Entry>, visited0: set<Node>, pm: map<Node, Node>, m: Entry,
                      rest: multiset<Entry>, acts: seq<Action>, weight: Edge -> nat)
    requires Explored(g, dists0, pq0, visited0, start) && Settled(g, dists0, pq0, visited0, weight)
    requires m in pq0 && rest == pq0 - multiset{m} && m.node !in visited0 && m.node in g
    ensures m.node in dists0
    ensures var visited := visited0 + {m.node};
            var r := RelaxAll(Relaxation(dists0[m.node := Min(dists0[m.node], m.prio)], pm, rest, acts),
                              g[m.node], visited, m.node, start, end, weight);
            Settled(g, r.dists, r.pq, visited, weight)
  {
    var cur := m.node;
    var visited := visited0 + {cur};
    var r0 := Relaxation(dists0[cur := Min(dists0[cur], m.prio)], pm, rest, acts);
    var r := RelaxAll(r0, g[cur], visited, cur, start, end, weight);
    LowerOne(dists0, cur, m.prio);
    forall e | e in rest
      ensures e.node in dists0 && dists0[e.node].Finite? && dists0[e.node].value <= e.prio
    {
      assert e in pq0;
    }
    AboveLowered(dists0, r0.dists, rest);
    RelaxAllAbove(r0, g[cur], visited, cur, start, end, weight);
    RelaxAllKeeps(r0, g[cur], visited, cur, start, end, weight);
    RelaxAllRelaxes(r0, g[cur], visited, cur, start, end, weight);
    LoweredTrans(dists0, r0.dists, r.dists);
    RelaxedGrow(g, visited0, cur, dists0, r.dists, weight);
  }

  /** `Relaxed` carries over to one more visited node `cur` when the other
      visited nodes keep their distances, no distance grows, and `cur`'s
      own edges are relaxed. */
  lemma RelaxedGrow(g: map<Node, seq<Adj>>, visited0: set<Node>, cur: Node, d: map<Node, Dist>,
                    d': map<Node, Dist>, weight: Edge -> nat)
    requires Relaxed(g, visited0, d, weight) && Lowered(d, d')
    requires forall v :: v in visited0 && v in d && v != cur ==> d'[v] == d[v]
    requires cur in g && cur in d' ==> forall k :: 0 <= k < |g[cur]| && g[cur][k].to !in visited0 + {cur} && g[cur][k].to in d' ==>
               AtMost(d'[g[cur][k].to], Plus(d'[cur], weight(g[cur][k].element)))
    ensures Relaxed(g, visited0 + {cur}, d', weight)
  {
    forall v, k | v in visited0 + {cur} && v in g && v in d' && 0 <= k < |g[v]|
                  && g[v][k].to !in visited0 + {cur} && g[v][k].to in d'
      ensures AtMost(d'[g[v][k].to], Plus(d'[v], weight(g[v][k].element)))
    {
      if v != cur {
        var u := g[v][k].to;
        assert AtMost(d[u], Plus(d[v], weight(g[v][k].element)));
        assert AtMost(d'[u], d[u]);
      }
    }
  }

  /** One turn of the main loop: the least entry is dequeued; its node is
      marked processing (unless it is an endpoint), visited, its current path
      shown, its distance lowered to the entry's if that is less, and its
      edges relaxed.  `more` holds the actions the turn appends.  An error
      stops the search.  The test of line 67 never skips an entry, but
      popping a visited node again changes no distance and no parent. */
  method Step(alg: Algorithm, start: Node, end: Node, weight: Edge -> nat,
              dists0: map<Node, Dist>, pq0: multiset<Entry>, visited0: set<Node>,
              ghost d0: map<Node, Dist>, ghost pm0: map<Node, Node>)
    returns (dists: map<Node, Dist>, pq: multiset<Entry>, visited: set<Node>, more: seq<Action>,
             err: Option<Error>, ghost revisit: bool)
    requires |pq0| > 0 && alg.Valid()
    requires DistInv(d0, dists0, start) && Explored(alg.graph, dists0, pq0, visited0, start)
    requires Settled(alg.graph, dists0, pq0, visited0, weight)
    requires ParentInv(pm0, alg.parentMap, visited0, start)
    modifies alg`parentMap, alg`prevPathNode, alg`prevPathEdge
    ensures alg.Valid()
    // a node's recorded distance never increases
    ensures Lowered(dists0, dists)
    ensures DistInv(d0, dists, start) && ParentInv(pm0, alg.parentMap, visited, start)
    ensures err.None? ==> Explored(alg.graph, dists, pq, visited, start) && Settled(alg.graph, dists, pq, visited, weight)
    // a new node is visited, or (`revisit`) a node is popped again, which
    // shrinks the queue and leaves the distances and the parent map as they were
    ensures err.None? && !revisit ==> |alg.graph.Keys - visited| < |alg.graph.Keys - visited0|
    ensures err.None? && revisit ==>
              visited == visited0 && |pq| < |pq0| && dists == dists0 && alg.parentMap == old(alg.parentMap)
  {
    var m, rest := Dequeue(pq0);
    dists, pq, visited, more, err := dists0, rest, visited0, [], None;
    // `visited.has(minNode)` asks about the entry, never a member of `visited`
    var cur := m.node;
    revisit := cur in visited0;
    more := ProcessingActions(cur, start, end);
    visited := visited0 + {cur};
    var pm := alg.parentMap;
    ParentsGrow(pm0, pm, visited0, cur, start);
    var cp := ShowPath(alg, start, cur);
    if cp.Err? {
      return dists, pq, visited, more, Some(cp.error), revisit;
    }
    more := more + [cp.value];
    dists, pq, more, err := Relax(alg, start, end, weight, dists0, pq0, visited0, m, rest, more, d0, pm0);
    if err.None? && cur !in visited0 {
      Shrinks(alg.graph.Keys, visited0, cur);
    } else if cur in visited0 {
      AddMember(visited0, cur);
    }
  }

  /** Lines 82-106 after the path is shown: the popped node's distance drops
      to the entry's if that is less, and its edges are relaxed; a node
      missing from the graph is a TypeError. */
  method Relax(alg: Algorithm, start: Node, end: Node, weight: Edge -> nat,
               dists0: map<Node, Dist>, ghost pq0: multiset<Entry>, visited0: set<Node>, m: Entry,
               rest: multiset<Entry>, acts: seq<Action>, ghost d0: map<Node, Dist>, ghost pm0: map<Node, Node>)
    returns (dists: map<Node, Dist>, pq: multiset<Entry>, more: seq<Action>, err: Option<Error>)
    requires alg.Valid() && IsMin(m, pq0) && rest == pq0 - multiset{m}
    requires DistInv(d0, dists0, start) && Explored(alg.graph, dists0, pq0, visited0, start)
    requires Settled(alg.graph, dists0, pq0, visited0, weight)
    requires ParentInv(pm0, alg.parentMap, visited0, start)
    modifies alg`parentMap
    ensures alg.Valid()
    ensures Lowered(dists0, dists)
    ensures DistInv(d0, dists, start) && ParentInv(pm0, alg.parentMap, visited0 + {m.node}, start)
    ensures err.None? ==> Explored(alg.graph, dists, pq, visited0 + {m.node}, start)
                          && Settled(alg.graph, dists, pq, visited0 + {m.node}, weight)
    ensures err.None? ==> m.node in alg.graph && (pq == rest || m.node !in visited0)
    ensures err.None? && m.node in visited0 ==> dists == dists0 && alg.parentMap == old(alg.parentMap)
  {
    var cur := m.node;
    dists, pq, more, err := dists0[cur := Min(dists0[cur], m.prio)], rest, acts, None;
    LowerOne(dists0, cur, m.prio);
    if cur !in alg.graph {
      // `weightedGraph.get(cur)` is undefined and cannot be iterated
      LoweredTrans(d0, dists0, dists);
      ParentsGrow(pm0, alg.parentMap, visited0, cur, start);
      return dists, pq, more, Some(TypeError);
    }
    var r := Expand(alg.graph, d0, pm0, start, end, dists0, pq0, visited0, alg.parentMap, m, rest, more, weight);
    dists, pq, more := r.dists, r.pq, r.actions;
    alg.parentMap := r.pm;
  }

  /** Lines 82-106 for the dequeued entry `m` of a node of the graph: the
      node's distance drops to the entry's if that is less, then its edges
      are relaxed; the invariants of the main loop carry over.  For a node
      visited before, nothing but the action list changes. */
  method Expand(g: map<Node, seq<Adj>>, ghost d0: map<Node, Dist>, ghost pm0: map<Node, Node>,
                start: Node, end: Node, dists0: map<Node, Dist>, ghost pq0: multiset<Entry>,
                visited0: set<Node>, pm: map<Node, Node>, m: Entry, rest: multiset<Entry>,
                acts: seq<Action>, weight: Edge -> nat)
    returns (r: Relaxation)
    requires DistInv(d0, dists0, start) && Explored(g, dists0, pq0, visited0, start)
    requires Settled(g, dists0, pq0, visited0, weight)
    requires ParentInv(pm0, pm, visited0, start)
    requires IsMin(m, pq0) && rest == pq0 - multiset{m}
    requires m.node in g
    ensures DistInv(d0, r.dists, start) && Explored(g, r.dists, r.pq, visited0 + {m.node}, start)
    ensures Settled(g, r.dists, r.pq, visited0 + {m.node}, weight)
    ensures ParentInv(pm0, r.pm, visited0 + {m.node}, start) && Lowered(dists0, r.dists)
    ensures m.node in visited0 ==> r.dists == dists0 && r.pm == pm && r.pq == rest
  {
    var cur := m.node;
    if cur in visited0 {
      RevisitKeeps(g, dists0, pq0, visited0, start, end, pm, m, rest, acts, weight);
      assert ParentInv(pm0, pm, visited0 + {cur}, start);
      assert Lowered(dists0, dists0);
    } else {
      ExpandKeeps(g, d0, pm0, start, end, dists0, pq0, visited0, pm, m, rest, acts, weight);
      ExpandSettled(g, start, end, dists0, pq0, visited0, pm, m, rest, acts, weight);
    }
    r := RelaxEdges(Relaxation(dists0[cur := Min(dists0[cur], m.prio)], pm, rest, acts), g[cur],
                    visited0 + {cur}, cur, start, end, weight);
  }

  /** `showCurrentPath(start, node)`, of whose contract the search needs
      only that the engine stays valid (the parent map is not touched). */
  method ShowPath(alg: Algorithm, start: Node, node: Node) returns (r: Result<Action>)
    requires alg.Valid()
    modifies alg`prevPathNode, alg`prevPathEdge
    ensures alg.Valid()
  {
    r := alg.ShowCurrentPath(start, node);
  }

  /** With the queue empty, the visited nodes are those with a finite
      distance, and they are closed under neighbours with a recorded distance. */
  lemma Exhausted(g: map<Node, seq<Adj>>, dists: map<Node, Dist>, visited: set<Node>, start: Node)
    requires Explored(g, dists, multiset{}, visited, start)
    ensures start in visited && visited <= g.Keys
    ensures forall n :: n in dists ==> (dists[n].Finite? <==> n in visited)
    ensures forall n, k :: n in visited && 0 <= k < |g[n]| && g[n][k].to in dists ==> g[n][k].to in visited
  {
    forall n | n in dists && dists[n].Finite?
      ensures n in visited
    {
      assert Entry(dists[n].value, n) !in multiset{};
    }
  }

  /** process(start, end) of Dijkstra.ts, for the edge weights `weight`
      (`WeightAsWritten` is what the file computes).  Without an error the
      loop runs until the queue is empty, with no early exit at `end`: then
      the visited nodes are exactly those with a finite distance, `start`
      among them, and every neighbour of a visited node that has a recorded
      distance is visited too. */
  method Process(alg: Algorithm, start: Node, end: Node, weight: Edge -> nat)
    returns (actions: seq<Action>, err: Option<Error>, dists: map<Node, Dist>, visited: set<Node>)
    requires alg.Valid()
    modifies alg`parentMap, alg`prevPathNode, alg`prevPathEdge
    ensures alg.Valid()
    ensures |actions| >= 2
    ensures actions[..2] == EndpointActions(start, end)
    ensures dists.Keys == alg.graph.Keys + {start} && dists[start] == Finite(0)
    ensures start !in old(alg.parentMap) ==> start !in alg.parentMap
    ensures ParentsFrom(old(alg.parentMap), alg.parentMap, visited)
    ensures err.None? ==> start in visited && visited <= alg.graph.Keys
    ensures err.None? ==> forall n :: n in dists ==> (dists[n].Finite? <==> n in visited)
    ensures err.None? ==> forall n, k :: n in visited && 0 <= k < |alg.graph[n]| && alg.graph[n][k].to in dists ==>
                                         alg.graph[n][k].to in visited
  {
    dists := InitDistances(alg.order, start);
    ghost var d0 := dists;
    ghost var pm0 := alg.parentMap;
    actions := EndpointActions(start, end);
    var pq;
    actions, err, dists, pq, visited := Drain(alg, start, end, weight, actions, dists, multiset{Entry(0, start)}, {}, d0, pm0);
    if err.None? {
      Exhausted(alg.graph, dists, visited, start);
    }
  }

  /** The main loop of lines 64-107: turns run until the queue is empty or
      one of them fails, each appending its actions. */
  method Drain(alg: Algorithm, start: Node, end: Node, weight: Edge -> nat, actions0: seq<Action>,
               dists0: map<Node, Dist>, pq0: multiset<Entry>, visited0: set<Node>,
               ghost d0: map<Node, Dist>, ghost pm0: map<Node, Node>)
    returns (actions: seq<Action>, err: Option<Error>, dists: map<Node, Dist>, pq: multiset<Entry>,
             visited: set<Node>)
    requires alg.Valid() && |actions0| >= 2
    requires DistInv(d0, dists0, start) && ParentInv(pm0, alg.parentMap, visited0, start)
    requires Explored(alg.graph, dists0, pq0, visited0, start) && Settled(alg.graph, dists0, pq0, visited0, weight)
    modifies alg`parentMap, alg`prevPathNode, alg`prevPathEdge
    ensures alg.Valid()
    ensures |actions| >= 2 && actions[..2] == actions0[..2]
    ensures DistInv(d0, dists, start) && ParentInv(pm0, alg.parentMap, visited, start)
    ensures err.None? ==> pq == multiset{} && Explored(alg.graph, dists, pq, visited, start)
  {
    actions, err, dists, pq, visited := actions0, None, dists0, pq0, visited0;
    while |pq| > 0
      invariant alg.Valid()
      invariant |actions| >= 2 && actions[..2] == actions0[..2]
      invariant DistInv(d0, dists, start) && ParentInv(pm0, alg.parentMap, visited, start)
      invariant Explored(alg.graph, dists, pq, visited, start) && err.None?
      invariant Settled(alg.graph, dists, pq, visited, weight)
      decreases |alg.graph.Keys - visited|, |pq|
    {
      var more;
      ghost var acts0 := actions;
      ghost var revisit;
      dists, pq, visited, more, err, revisit := Step(alg, start, end, weight, dists, pq, visited, d0, pm0);
      PrefixOfAppend(acts0, more, 2);
      actions := actions + more;
      if err.Some? {
        break;
      }
    }
  }
}
