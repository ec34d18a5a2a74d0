/** Nodes, edges and the adjacency lists the search engine builds from them
    (the constructor of `Algorithm.ts`).  A node or edge element is a record
    of its object identity `obj` (what `===` compares) and its id (what the
    adjacency filter compares). */
module Graph {
  import opened Common

  datatype Node = Node(obj: nat, id: string)
  datatype Edge = Edge(obj: nat, source: Node, target: Node)

  /** One entry of `graph.get(node)`: `{ to, element }`. */
  datatype Adj = Adj(to: Node, element: Edge)

  /** The filter of the constructor: the edge's source or target has the node's id. */
  predicate Touches(e: Edge, node: Node) {
    e.source.id == node.id || e.target.id == node.id
  }

  /** The map of the constructor: the opposite endpoint, by identity. */
  function Opposite(e: Edge, node: Node): Node {
    if e.source == node then e.target else e.source
  }

  /** `edges.filter(touches node).map(edge => ({ to: opposite, element: edge }))`. */
  function Incident(node: Node, edges: seq<Edge>): (r: seq<Adj>)
    ensures |r| <= |edges|
    ensures forall a :: a in r ==> a.element in edges && Touches(a.element, node)
    ensures forall a :: a in r ==> a.to == Opposite(a.element, node)
  {
    if edges == [] then []
    else
      var rest := Incident(node, edges[1..]);
      if Touches(edges[0], node) then [Adj(Opposite(edges[0], node), edges[0])] + rest else rest
  }

  function Elements(r: seq<Adj>): seq<Edge> {
    if r == [] then [] else [r[0].element] + Elements(r[1..])
  }

  /** The edges touching `node`, in edge-list order. */
  function Touching(node: Node, edges: seq<Edge>): seq<Edge> {
    if edges == [] then []
    else (if Touches(edges[0], node) then [edges[0]] else []) + Touching(node, edges[1..])
  }

  lemma {:induction false} TouchingSubsequence(node: Node, edges: seq<Edge>)
    ensures Subsequence(Touching(node, edges), edges)
  {
    if edges != [] {
      TouchingSubsequence(node, edges[1..]);
      var t := Touching(node, edges[1..]);
      if Touches(edges[0], node) {
        assert Touching(node, edges) == [edges[0]] + t;
        assert ([edges[0]] + t)[1..] == t;
      } else {
        assert Touching(node, edges) == t;
        SubsequenceSkip(t, edges);
      }
    }
  }

  /** The adjacency list holds exactly one entry per edge touching the node,
      in edge-list order, and its `to` is the edge's opposite endpoint. */
  lemma {:induction false} IncidentIsTouching(node: Node, edges: seq<Edge>)
    ensures Elements(Incident(node, edges)) == Touching(node, edges)
    ensures Subsequence(Elements(Incident(node, edges)), edges)
  {
    if edges != [] {
      IncidentIsTouching(node, edges[1..]);
      var rest := Incident(node, edges[1..]);
      if Touches(edges[0], node) {
        var r := [Adj(Opposite(edges[0], node), edges[0])] + rest;
        assert r[1..] == rest;
      }
    }
    TouchingSubsequence(node, edges);
  }

  /** An edge of the list appears in the list of every node carrying the id of
      either endpoint; for a non-loop edge the two lists point at each other's
      nodes. */
  lemma {:induction false} EdgeInBothLists(node: Node, edges: seq<Edge>, i: nat)
    requires i < |edges| && Touches(edges[i], node)
    ensures Adj(Opposite(edges[i], node), edges[i]) in Incident(node, edges)
  {
    if i > 0 {
      EdgeInBothLists(node, edges[1..], i - 1);
    }
  }

  lemma OppositeEnds(e: Edge)
    requires e.source != e.target
    ensures Opposite(e, e.source) == e.target && Opposite(e, e.target) == e.source
  {
  }

  /** `find` on an adjacency list: the first entry whose edge has `other` as
      source or target (by identity). */
  function FindEdge(adj: seq<Adj>, other: Node): (r: Option<Edge>)
    ensures r.Some? ==> exists k :: 0 <= k < |adj| && adj[k].element == r.value
                                    && (forall j :: 0 <= j < k ==> !Joins(adj[j].element, other))
    ensures r.Some? ==> Joins(r.value, other)
    ensures r.None? <==> forall k :: 0 <= k < |adj| ==> !Joins(adj[k].element, other)
  {
    if adj == [] then None
    else if Joins(adj[0].element, other) then Some(adj[0].element)
    else
      var r := FindEdge(adj[1..], other);
      assert forall k :: 1 <= k < |adj| ==> adj[k] == adj[1..][k - 1];
      if r.Some? then
        var k :| 0 <= k < |adj[1..]| && adj[1..][k].element == r.value
                 && (forall j :: 0 <= j < k ==> !Joins(adj[1..][j].element, other));
        assert adj[k + 1].element == r.value;
        r
      else r
  }

  /** `edge.source === other || edge.target === other`. */
  predicate Joins(e: Edge, other: Node) {
    e.source == other || e.target == other
  }
}
