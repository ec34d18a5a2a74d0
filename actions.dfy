/** The action values of the search engine.  `makeChangeStateAction` is not
    part of this model: a state change is the opaque value
    (kind, target, style bag), and performing or undoing it is recorded as an
    operation on that value.  The composite actions built by `showCurrentPath`
    and `start` are described by the operations their `perform` and `undo`
    run, in order. */
module Actions {
  import opened Common
  import opened Graph
  import opened Styles

  /** `AlgorithmActionType`; `NODE_PROCESSED` is the enum member whose value is "PROCESS_NODE". */
  datatype Kind =
    | HighlightEndpoints | NodeProcessedKind | BuildPathNode | BuildPathEdge | EnqueueNode
    | ResetStates | BuildFinalPath | StartProcessingNode | ProcessedNode | ProcessedEdge
    | ShowCurrentPath | ShowEdgeDirection | NodeDefaultKind | EdgeDefaultKind
    | NodeStatelessKind | EdgeStatelessKind

  /** The element an action changes: `element instanceof NodeElement` or not. */
  datatype Target = OnNode(node: Node) | OnEdge(edge: Edge)

  /** `element.makeChangeStateAction(kind, style)`; `style` is None when the
      table has no such entry (the argument is `undefined`). */
  datatype StateChange = Change(kind: Kind, target: Target, style: Option<Style>)

  /** What an algorithm's `process` or `buildPath` returns: a state change, or
      the `showCurrentPath` wrapper around the state changes of a path. */
  datatype Action = Single(change: StateChange) | CurrentPath(parts: seq<StateChange>)

  /** The effect of a perform or undo: `Do(c, arg)` is `c.perform(arg)`, `Undo(c)` is `c.undo()`. */
  datatype Op = Do(c: StateChange, arg: Option<real>) | Undo(c: StateChange)

  function KindOf(a: Action): Kind {
    match a
    case Single(c) => c.kind
    case CurrentPath(_) => ShowCurrentPath
  }

  function DoAll(cs: seq<StateChange>): (r: seq<Op>)
    ensures |r| == |cs|
    ensures forall i :: 0 <= i < |cs| ==> r[i] == Do(cs[i], None)
  {
    if cs == [] then [] else [Do(cs[0], None)] + DoAll(cs[1..])
  }

  function UndoAll(cs: seq<StateChange>): (r: seq<Op>)
    ensures |r| == |cs|
    ensures forall i :: 0 <= i < |cs| ==> r[i] == Undo(cs[i])
  {
    if cs == [] then [] else [Undo(cs[0])] + UndoAll(cs[1..])
  }

  /** `a.perform(arg)`: a `showCurrentPath` action performs its parts in
      order, each without an argument. */
  function Perform(a: Action, arg: Option<real>): seq<Op> {
    match a
    case Single(c) => [Do(c, arg)]
    case CurrentPath(cs) => DoAll(cs)
  }

  /** `a.undo()`: a `showCurrentPath` action undoes its parts in order too. */
  function UndoOf(a: Action): seq<Op> {
    match a
    case Single(c) => [Undo(c)]
    case CurrentPath(cs) => UndoAll(cs)
  }

  /** The inverse of a run of operations: last first, each perform turned into an undo and back. */
  function Invert(ops: seq<Op>): (r: seq<Op>)
    ensures |r| == |ops|
  {
    if ops == [] then []
    else Invert(ops[1..]) + [match ops[0] case Do(c, _) => Undo(c) case Undo(c) => Do(c, None)]
  }

  /** A `showCurrentPath` action undoes its parts first to last, so its undo
      is the exact inverse of its perform only when it has at most one part. */
  lemma {:induction false} CurrentPathUndoOrder(cs: seq<StateChange>)
    ensures UndoOf(CurrentPath(cs)) == UndoAll(cs)
    ensures |cs| <= 1 ==> UndoOf(CurrentPath(cs)) == Invert(Perform(CurrentPath(cs), None))
    ensures |cs| == 2 && cs[0] != cs[1] ==> UndoOf(CurrentPath(cs)) != Invert(Perform(CurrentPath(cs), None))
  {
    if |cs| == 1 {
      assert DoAll(cs) == [Do(cs[0], None)];
    } else if |cs| == 2 {
      var ops := DoAll(cs);
      assert ops[1..][1..] == [];
      assert Invert(ops)[0] == Undo(cs[1]);
    }
  }

  // ---------------------------------------------------------------------------
  // makeAction and the #action* helpers
  // ---------------------------------------------------------------------------

  predicate IsNodeKind(k: Kind) {
    k in {HighlightEndpoints, NodeProcessedKind, BuildPathNode, EnqueueNode,
          StartProcessingNode, NodeDefaultKind, NodeStatelessKind}
  }

  predicate IsEdgeKind(k: Kind) {
    k in {BuildPathEdge, ProcessedEdge, EdgeDefaultKind, EdgeStatelessKind}
  }

  /** The entry of `AlgorithmStyles` an accepted kind is styled with: the
      DEFAULT, STATELESS and PROCESSED kinds use the entry of that name, a
      path kind FINAL_PATH, HIGHLIGHT_ENDPOINTS ENDPOINT, ENQUEUE_NODE QUEUED
      and START_PROCESSING_NODE PROCESSING.  Kinds makeAction rejects have no
      entry of their own and get the target's STATELESS one here. */
  function StyleEntry(k: Kind, t: Target): Entry {
    if t.OnNode? then
      match k
      case HighlightEndpoints => NodeEndpoint
      case NodeProcessedKind => NodeProcessed
      case BuildPathNode => NodeFinalPath
      case EnqueueNode => NodeQueued
      case StartProcessingNode => NodeProcessing
      case NodeDefaultKind => NodeDefault
      case _ => NodeStateless
    else
      match k
      case BuildPathEdge => EdgeFinalPath
      case ProcessedEdge => EdgeProcessed
      case EdgeDefaultKind => EdgeDefault
      case _ => EdgeStateless
  }

  /** The switch of `makeAction` for a node. */
  function NodeAction(k: Kind, n: Node): Result<StateChange> {
    var t := OnNode(n);
    match k
    case HighlightEndpoints => Ok(Change(HighlightEndpoints, t, Lookup(NodeEndpoint)))
    case NodeProcessedKind => Ok(Change(ProcessedEdge, t, Lookup(NodeProcessed)))
    case BuildPathNode => Ok(Change(BuildPathNode, t, Lookup(NodeFinalPath)))
    case EnqueueNode => Ok(Change(EnqueueNode, t, Lookup(NodeQueued)))
    case StartProcessingNode => Ok(Change(StartProcessingNode, t, Lookup(NodeProcessing)))
    case NodeDefaultKind => Ok(Change(NodeDefaultKind, t, Lookup(NodeDefault)))
    case NodeStatelessKind => Ok(Change(NodeStatelessKind, t, Lookup(NodeStateless)))
    case _ => Err(NotImplemented)
  }

  /** The switch of `makeAction` for an edge. */
  function EdgeAction(k: Kind, e: Edge): Result<StateChange> {
    var t := OnEdge(e);
    match k
    case BuildPathEdge => Ok(Change(BuildPathEdge, t, Lookup(EdgeFinalPath)))
    case ProcessedEdge => Ok(Change(ProcessedEdge, t, Lookup(EdgeProcessed)))
    case EdgeDefaultKind => Ok(Change(EdgeDefaultKind, t, Lookup(EdgeDefault)))
    case EdgeStatelessKind => Ok(Change(EdgeStatelessKind, t, Lookup(EdgeStateless)))
    case _ => Err(NotImplemented)
  }

  /** makeAction(kind, element) without saving: exactly seven kinds are
      accepted for a node and four for an edge, every other one throws
      "Not Implemented".  The action targets the element and keeps the kind,
      except that NODE_PROCESSED is built with kind PROCESSED_EDGE. */
  function MakeAction(k: Kind, t: Target): (r: Result<StateChange>)
    ensures t.OnNode? ==> (r.Ok? <==> IsNodeKind(k))
    ensures t.OnEdge? ==> (r.Ok? <==> IsEdgeKind(k))
    ensures r.Err? ==> r.error == NotImplemented
    ensures r.Ok? ==> r.value.target == t
    ensures r.Ok? ==> r.value.kind == (if k == NodeProcessedKind then ProcessedEdge else k)
    ensures r.Ok? ==> r.value.style == Lookup(StyleEntry(k, t))
    ensures r.Ok? ==> (r.value.style.None? <==> k == NodeStatelessKind || k == EdgeStatelessKind)
  {
    match t
    case OnNode(n) => NodeAction(k, n)
    case OnEdge(e) => EdgeAction(k, e)
  }

  /** The state change of a kind the caller knows to be accepted: it targets
      the element, keeps the kind (NODE_PROCESSED aside) and carries the
      kind's table entry. */
  function Make(k: Kind, t: Target): (c: StateChange)
    requires if t.OnNode? then IsNodeKind(k) else IsEdgeKind(k)
    ensures MakeAction(k, t) == Ok(c)
    ensures c.target == t
    ensures c.kind == (if k == NodeProcessedKind then ProcessedEdge else k)
    ensures c.style == Lookup(StyleEntry(k, t))
  {
    MakeAction(k, t).value
  }

  /** SHOW_EDGE_DIRECTION with one arrow: out when the walk goes from the
      edge's source, in otherwise. */
  function Arrow(e: Edge, out: bool): StateChange {
    Change(ShowEdgeDirection, OnEdge(e), Some(if out then ArrowOut else ArrowIn))
  }

  /** HIGHLIGHT_ENDPOINTS for `start`, then for `end`: the first two actions
      of Dijkstra's and A*'s `process`. */
  function EndpointActions(start: Node, end: Node): (r: seq<Action>)
    ensures |r| == 2
  {
    [Single(Make(HighlightEndpoints, OnNode(start))), Single(Make(HighlightEndpoints, OnNode(end)))]
  }

  /** START_PROCESSING_NODE for a popped node that is not an endpoint. */
  function ProcessingActions(cur: Node, start: Node, end: Node): seq<Action> {
    if cur == start || cur == end then [] else [Single(Make(StartProcessingNode, OnNode(cur)))]
  }

  // ---------------------------------------------------------------------------
  // The wrappers `start` builds
  // ---------------------------------------------------------------------------

  /** An entry of the list `start` returns: an action of a segment, the
      RESET_STATES wrapper of a segment, or a BUILD_FINAL_PATH copy of a path
      action whose perform passes the brightness (cnt / total) * 100 * 0.5,
      `total` being the final value of `pathCount`. */
  datatype RunAction =
    | Plain(action: Action)
    | Reset(parts: seq<Action>)
    | FinalPath(path: StateChange, cnt: nat, total: nat)

  function RunKind(r: RunAction): Kind {
    match r
    case Plain(a) => KindOf(a)
    case Reset(_) => ResetStates
    case FinalPath(_, _, _) => BuildFinalPath
  }

  function Brightness(cnt: nat, total: nat): real
    requires total > 0
  {
    (cnt as real / total as real) * 100.0 * 0.5
  }

  /** The brightness of the final path grows strictly with the counter and stays below 50. */
  lemma BrightnessOrder(i: nat, j: nat, total: nat)
    requires i < j < total
    ensures 0.0 <= Brightness(i, total) < Brightness(j, total) < 50.0
    ensures i == 0 ==> Brightness(i, total) == 0.0
  {
    var t := total as real;
    assert i as real / t < j as real / t by {
      assert i as real < j as real;
    }
    assert j as real / t < 1.0;
  }

  function PerformAllActions(ps: seq<Action>): seq<Op> {
    if ps == [] then [] else Perform(ps[0], None) + PerformAllActions(ps[1..])
  }

  function UndoAllActions(ps: seq<Action>): seq<Op> {
    if ps == [] then [] else UndoOf(ps[0]) + UndoAllActions(ps[1..])
  }

  /** `r.perform(arg)`: RESET_STATES undoes the segment's actions last to first. */
  function RunPerform(r: RunAction, arg: Option<real>): seq<Op> {
    match r
    case Plain(a) => Perform(a, arg)
    case Reset(ps) => UndoAllActions(Reverse(ps))
    case FinalPath(c, cnt, total) => [Do(c, if total > 0 then Some(Brightness(cnt, total)) else None)]
  }

  /** `r.undo()`: RESET_STATES performs the segment's actions, last to first as well. */
  function RunUndo(r: RunAction): seq<Op> {
    match r
    case Plain(a) => UndoOf(a)
    case Reset(ps) => PerformAllActions(Reverse(ps))
    case FinalPath(c, _, _) => [Undo(c)]
  }

  predicate AllSingle(ps: seq<Action>) {
    forall i :: 0 <= i < |ps| ==> ps[i].Single?
  }

  lemma {:induction false} InvertAppend(a: seq<Op>, b: seq<Op>)
    ensures Invert(a + b) == Invert(b) + Invert(a)
  {
    if a == [] {
      assert a + b == b;
    } else {
      assert (a + b)[1..] == a[1..] + b;
      InvertAppend(a[1..], b);
    }
  }

  /** For a segment of plain state changes, performing RESET_STATES is exactly
      the inverse of performing the segment. */
  lemma {:induction false} ResetInvertsSegment(ps: seq<Action>)
    requires AllSingle(ps)
    ensures RunPerform(Reset(ps), None) == Invert(PerformAllActions(ps))
  {
    if ps != [] {
      var last := ps[|ps| - 1];
      var init := ps[..|ps| - 1];
      assert ps == init + [last];
      assert Reverse(ps) == [last] + Reverse(init);
      assert Reverse(ps)[1..] == Reverse(init);
      ResetInvertsSegment(init);
      PerformAllAppend(init, [last]);
      InvertAppend(PerformAllActions(init), Perform(last, None));
      assert PerformAllActions([last]) == Perform(last, None);
    }
  }

  /** Undoing RESET_STATES performs the segment again, but last to first. */
  lemma {:induction false} ResetUndoReperforms(ps: seq<Action>)
    ensures RunUndo(Reset(ps)) == PerformAllActions(Reverse(ps))
    ensures AllSingle(ps) && |ps| == 2 && ps[0] != ps[1] ==> RunUndo(Reset(ps)) != PerformAllActions(ps)
  {
    if AllSingle(ps) && |ps| == 2 && ps[0] != ps[1] {
      assert Reverse(ps) == [ps[1], ps[0]];
      assert Reverse(ps)[1..][1..] == [];
      assert ps[1..][1..] == [];
      assert PerformAllActions(Reverse(ps))[0] == Do(ps[1].change, None);
      assert PerformAllActions(ps)[0] == Do(ps[0].change, None);
    }
  }

  lemma {:induction false} PerformAllAppend(a: seq<Action>, b: seq<Action>)
    ensures PerformAllActions(a + b) == PerformAllActions(a) + PerformAllActions(b)
  {
    if a == [] {
      assert a + b == b;
    } else {
      assert (a + b)[1..] == a[1..] + b;
      PerformAllAppend(a[1..], b);
    }
  }

  // ---------------------------------------------------------------------------
  // Generator traces
  // ---------------------------------------------------------------------------

  /** One observable step of a generator: an operation it runs, a bare
      `yield`, or the progress record DFS yields after each edge. */
  datatype Event = Run(op: Op) | Pause | Progress(visitedNodes: nat, visitedEdges: nat)

  /** The operations, in order, as events. */
  function Runs(ops: seq<Op>): (r: seq<Event>)
    ensures |r| == |ops|
    ensures forall i :: 0 <= i < |ops| ==> r[i] == Run(ops[i])
  {
    if ops == [] then [] else [Run(ops[0])] + Runs(ops[1..])
  }

  /** `for (const action of actions) { action.perform(); yield; }` */
  function Staged(cs: seq<StateChange>): (r: seq<Event>)
    ensures |r| == 2 * |cs|
  {
    if cs == [] then [] else [Run(Do(cs[0], None)), Pause] + Staged(cs[1..])
  }

  /** The progress records of a trace never decrease. */
  predicate ProgressMonotone(t: seq<Event>) {
    forall i, j :: 0 <= i < j < |t| && t[i].Progress? && t[j].Progress? ==>
      t[i].visitedNodes <= t[j].visitedNodes && t[i].visitedEdges <= t[j].visitedEdges
  }

  /** Every progress record of a trace is at most (n, e). */
  predicate ProgressBelow(t: seq<Event>, n: nat, e: nat) {
    forall i :: 0 <= i < |t| && t[i].Progress? ==> t[i].visitedNodes <= n && t[i].visitedEdges <= e
  }

  /** Appending events whose progress records all equal the current bound keeps the trace monotone. */
  lemma ExtendProgress(t: seq<Event>, u: seq<Event>, n: nat, e: nat)
    requires ProgressMonotone(t) && ProgressBelow(t, n, e)
    requires forall i :: 0 <= i < |u| && u[i].Progress? ==> u[i] == Progress(n, e)
    ensures ProgressMonotone(t + u) && ProgressBelow(t + u, n, e)
  {
    var tu := t + u;
    forall i, j | 0 <= i < j < |tu| && tu[i].Progress? && tu[j].Progress?
      ensures tu[i].visitedNodes <= tu[j].visitedNodes && tu[i].visitedEdges <= tu[j].visitedEdges
    {
      if j >= |t| {
        assert tu[j] == u[j - |t|];
        if i >= |t| {
          assert tu[i] == u[i - |t|];
        }
      }
    }
  }

  /** The progress records of a trace, in order. */
  function Records(t: seq<Event>): (r: seq<Event>)
    ensures |r| <= |t|
    ensures forall i :: 0 <= i < |r| ==> r[i].Progress?
  {
    if t == [] then []
    else Records(t[..|t| - 1]) + (if t[|t| - 1].Progress? then [t[|t| - 1]] else [])
  }

  lemma {:induction false} RecordsAppend(a: seq<Event>, b: seq<Event>)
    ensures Records(a + b) == Records(a) + Records(b)
    decreases |b|
  {
    if b == [] {
      assert a + b == a;
    } else {
      assert (a + b)[..|a + b| - 1] == a + b[..|b| - 1];
      RecordsAppend(a, b[..|b| - 1]);
    }
  }

  /** Events without a progress record add none. */
  lemma {:induction false} NoRecords(t: seq<Event>)
    requires forall i :: 0 <= i < |t| ==> !t[i].Progress?
    ensures Records(t) == []
  {
    if t != [] {
      NoRecords(t[..|t| - 1]);
    }
  }

  lemma AppendNoRecords(t: seq<Event>, u: seq<Event>)
    requires forall i :: 0 <= i < |u| ==> !u[i].Progress?
    ensures Records(t + u) == Records(t)
  {
    RecordsAppend(t, u);
    NoRecords(u);
  }

  /** The only operations of a trace are PROCESSED_EDGE changes performed on edges. */
  predicate OnlyProcessedEdges(t: seq<Event>) {
    forall i :: 0 <= i < |t| && t[i].Run? ==>
      t[i].op.Do? && t[i].op.c.kind == ProcessedEdge && t[i].op.c.target.OnEdge?
  }
}

