/** `start` and `startGenerator` of Algorithm.ts, which run an algorithm
    segment by segment between consecutive waypoints.  They call `process`
    and `processGenerator`, which each subclass may or may not define: DFS.ts
    defines only `processGenerator`, Dijkstra.ts only `process`, and AStar.ts
    a `processGenerator` that throws.  The dispatch on the engine's kind
    stands for that inheritance. */
module Orchestrator {
  import opened Common
  import opened Graph
  import opened Actions
  import opened Engine
  import Search
  import DijkstraSearch
  import AStarSearch

  /** `locations.filter((location) => location)`: the absent entries dropped, order kept. */
  function Present(locs: seq<Option<Node>>): (r: seq<Node>)
    ensures |r| <= |locs|
    ensures forall n :: n in r <==> Some(n) in locs
  {
    if locs == [] then []
    else (if locs[0].Some? then [locs[0].value] else []) + Present(locs[1..])
  }

  /** The filter works entry by entry: it distributes over concatenation and
      keeps a present entry's node, so order and repeats are kept. */
  lemma {:induction false} PresentConcat(a: seq<Option<Node>>, b: seq<Option<Node>>)
    ensures Present(a + b) == Present(a) + Present(b)
  {
    if a != [] {
      assert (a + b)[0] == a[0] && (a + b)[1..] == a[1..] + b;
      PresentConcat(a[1..], b);
    } else {
      assert a + b == b;
    }
  }

  lemma PresentSingle(x: Option<Node>)
    ensures Present([x]) == if x.Some? then [x.value] else []
  {
  }

  /** The number of segments `i < locations.length - 1` runs over. */
  function Segments(n: nat): nat {
    if n == 0 then 0 else n - 1
  }

  // ---------------------------------------------------------------------------
  // start (lines 80-127)
  // ---------------------------------------------------------------------------

  /** The types the filter of lines 105-110 keeps. */
  predicate IsPathKind(k: Kind) {
    k == BuildPathNode || k == BuildPathEdge || k == ShowEdgeDirection
  }

  /** The filter of lines 105-110: the plain state changes of a path type, in
      order; a `showCurrentPath` action has type SHOW_CURRENT_PATH and is
      dropped with its parts. */
  function PathParts(seg: seq<Action>): (r: seq<StateChange>)
    ensures |r| <= |seg|
    ensures forall c :: c in r ==> IsPathKind(c.kind) && Single(c) in seg
    ensures forall i :: 0 <= i < |seg| && seg[i].Single? && IsPathKind(seg[i].change.kind) ==> seg[i].change in r
  {
    if seg == [] then []
    else
      var init := seg[..|seg| - 1];
      var last := seg[|seg| - 1];
      assert forall i :: 0 <= i < |init| ==> init[i] == seg[i];
      PathParts(init) + (if last.Single? && IsPathKind(last.change.kind) then [last.change] else [])
  }

  /** The filter of lines 105-110 works action by action: it distributes
      over concatenation, so the kept state changes keep their order and
      repeats. */
  lemma {:induction false} PathPartsConcat(a: seq<Action>, b: seq<Action>)
    ensures PathParts(a + b) == PathParts(a) + PathParts(b)
  {
    if b != [] {
      assert (a + b)[..|a + b| - 1] == a + b[..|b| - 1];
      assert (a + b)[|a + b| - 1] == b[|b| - 1];
      PathPartsConcat(a, b[..|b| - 1]);
    } else {
      assert a + b == a;
    }
  }

  /** `actions.push(...subActions)`. */
  function Plains(seg: seq<Action>): (r: seq<RunAction>)
    ensures |r| == |seg|
    ensures forall i :: 0 <= i < |seg| ==> r[i] == Plain(seg[i])
  {
    if seg == [] then [] else [Plain(seg[0])] + Plains(seg[1..])
  }

  /** The actions of the segments, each list followed by its RESET_STATES wrapper. */
  function SegmentsBody(segs: seq<seq<Action>>): seq<RunAction> {
    if segs == [] then []
    else SegmentsBody(segs[..|segs| - 1]) + Plains(segs[|segs| - 1]) + [Reset(segs[|segs| - 1])]
  }

  /** The path state changes of the segments, each segment's last first:
      what the loop of lines 112-121 copies, in order. */
  function FinalSource(segs: seq<seq<Action>>): seq<StateChange> {
    if segs == [] then []
    else FinalSource(segs[..|segs| - 1]) + Reverse(PathParts(segs[|segs| - 1]))
  }

  /** The BUILD_FINAL_PATH copies of `cs`, the counter starting at `cnt`. */
  function Numbered(cs: seq<StateChange>, cnt: nat, total: nat): (r: seq<RunAction>)
    ensures |r| == |cs|
    ensures forall j :: 0 <= j < |cs| ==> r[j] == FinalPath(cs[j], cnt + j, total)
  {
    if cs == [] then [] else [FinalPath(cs[0], cnt, total)] + Numbered(cs[1..], cnt + 1, total)
  }

  /** What `start` returns for the segment lists `segs`: the segment actions
      and their wrappers, then the copies, whose performs read the final
      value of `pathCount`. */
  function Assemble(segs: seq<seq<Action>>): seq<RunAction> {
    var src := FinalSource(segs);
    SegmentsBody(segs) + Numbered(src, 0, |src|)
  }

  /** In the list `start` returns, segment `k`'s actions come right after the
      actions and wrappers of the earlier segments, and the RESET_STATES of
      that very segment follows them. */
  lemma ResetFollows(segs: seq<seq<Action>>, k: nat)
    requires k < |segs|
    ensures var o := |SegmentsBody(segs[..k])|;
            |SegmentsBody(segs)| > o + |segs[k]|
            && SegmentsBody(segs)[o..o + |segs[k]|] == Plains(segs[k])
            && SegmentsBody(segs)[o + |segs[k]|] == Reset(segs[k])
  {
    var a := SegmentsBody(segs[..k]);
    var b := SegmentsBody(segs[..k + 1]);
    assert segs[..k + 1][..k] == segs[..k];
    assert b == a + Plains(segs[k]) + [Reset(segs[k])];
    BodyPrefix(segs, k + 1);
    var full := SegmentsBody(segs);
    assert full[..|b|] == b;
    assert full[|a|..|a| + |segs[k]|] == b[|a|..|a| + |segs[k]|];
    assert full[|a| + |segs[k]|] == b[|a| + |segs[k]|];
  }

  /** The body of the first `m` segments is a prefix of the body of all of them. */
  lemma {:induction false} BodyPrefix(segs: seq<seq<Action>>, m: nat)
    requires m <= |segs|
    ensures |SegmentsBody(segs[..m])| <= |SegmentsBody(segs)|
    ensures SegmentsBody(segs)[..|SegmentsBody(segs[..m])|] == SegmentsBody(segs[..m])
    decreases |segs| - m
  {
    if m == |segs| {
      assert segs[..m] == segs;
    } else {
      BodyPrefix(segs, m + 1);
      var a := SegmentsBody(segs[..m]);
      var b := SegmentsBody(segs[..m + 1]);
      assert segs[..m + 1][..m] == segs[..m];
      assert b == a + (Plains(segs[m]) + [Reset(segs[m])]);
      PrefixOfAppend(a, Plains(segs[m]) + [Reset(segs[m])], |a|);
      assert b[..|a|] == a;
      assert SegmentsBody(segs)[..|b|][..|a|] == SegmentsBody(segs)[..|a|];
    }
  }

  /** The brightness the copies of `start` pass when performed: the counter
      of the j-th copy is j and the total is the number of copies, so the
      values start at 0, grow strictly and stay below 50. */
  lemma FinalBrightness(segs: seq<seq<Action>>, i: nat, j: nat)
    requires i < j < |FinalSource(segs)|
    ensures var f := Numbered(FinalSource(segs), 0, |FinalSource(segs)|);
            f[i].FinalPath? && f[i].cnt == i && f[j].cnt == j && f[j].total == |FinalSource(segs)|
            && 0.0 <= Brightness(f[i].cnt, f[i].total) < Brightness(f[j].cnt, f[j].total) < 50.0
  {
    BrightnessOrder(i, j, |FinalSource(segs)|);
  }

  /** `this.process(start, end)`: DFS.ts has no `process`, so calling it is a
      TypeError; Dijkstra runs with the weights it computes as written. */
  method RunProcess(alg: Algorithm, start: Node, end: Node, d: (Node, Node) -> nat)
    returns (acts: seq<Action>, err: Option<Error>)
    requires alg.Valid()
    modifies alg`parentMap, alg`prevPathNode, alg`prevPathEdge
    ensures alg.Valid()
    ensures alg.kind == DFS <==> err == Some(TypeError) && acts == []
    ensures alg.kind != DFS ==> |acts| >= 2 && acts[..2] == EndpointActions(start, end)
  {
    match alg.kind
    case DFS =>
      acts, err := [], Some(TypeError);
    case Dijkstra =>
      var dists, visited;
      acts, err, dists, visited := DijkstraSearch.Process(alg, start, end, (e: Edge) => DijkstraSearch.WeightAsWritten(d, e));
      assert acts[..2] == EndpointActions(start, end);
    case AStar =>
      var reached, cost, came, visited;
      acts, err, reached, cost, came, visited := AStarSearch.Process(alg, start, end, d);
  }

  /** The loop of lines 112-121 for one segment: each copied action takes
      the next value of `pathCount`. */
  method Collect(pending0: seq<StateChange>, count0: nat, cs: seq<StateChange>)
    returns (pending: seq<StateChange>, count: nat)
    requires count0 == |pending0|
    ensures pending == pending0 + cs && count == |pending|
  {
    pending, count := pending0, count0;
    var k := 0;
    while k < |cs|
      invariant 0 <= k <= |cs|
      invariant pending == pending0 + cs[..k] && count == |pending|
    {
      assert cs[..k + 1] == cs[..k] + [cs[k]];
      pending := pending + [cs[k]];
      count := count + 1;
      k := k + 1;
    }
    assert cs[..k] == cs;
  }

  /** One pass of the loop of lines 97-122 after `process` returned `sub`:
      its actions and wrapper are appended and its path changes collected. */
  method AddSegment(actions: seq<RunAction>, pending: seq<StateChange>, count: nat,
                    ghost segs: seq<seq<Action>>, sub: seq<Action>)
    returns (actions': seq<RunAction>, pending': seq<StateChange>, count': nat, ghost segs': seq<seq<Action>>)
    requires actions == SegmentsBody(segs) && pending == FinalSource(segs) && count == |pending|
    ensures segs' == segs + [sub]
    ensures actions' == SegmentsBody(segs') && pending' == FinalSource(segs') && count' == |pending'|
  {
    segs' := segs + [sub];
    assert segs'[..|segs'| - 1] == segs;
    actions' := actions + Plains(sub) + [Reset(sub)];
    pending', count' := Collect(pending, count, Reverse(PathParts(sub)));
  }

  /** Every segment list opens with the endpoint highlights of its own pair
      of consecutive waypoints. */
  predicate Bracketed(segs: seq<seq<Action>>, locs: seq<Node>) {
    forall k {:trigger segs[k]} :: 0 <= k < |segs| ==> k + 1 < |locs| && |segs[k]| >= 2 && segs[k][..2] == EndpointActions(locs[k], locs[k + 1])
  }

  lemma BracketedGrow(segs: seq<seq<Action>>, locs: seq<Node>, sub: seq<Action>)
    requires Bracketed(segs, locs) && |segs| + 1 < |locs|
    requires |sub| >= 2 && sub[..2] == EndpointActions(locs[|segs|], locs[|segs| + 1])
    ensures Bracketed(segs + [sub], locs)
  {
    var segs' := segs + [sub];
    assert forall k :: 0 <= k < |segs| ==> segs'[k] == segs[k];
  }

  /** start(locations): at least two entries are required before the absent
      ones are dropped; an error of `process` is thrown on; otherwise the
      result is `Assemble` of the segment lists, one per pair of consecutive
      waypoints. */
  method Start(alg: Algorithm, locations: seq<Option<Node>>, d: (Node, Node) -> nat)
    returns (r: Result<seq<RunAction>>, ghost segs: seq<seq<Action>>)
    requires alg.Valid()
    modifies alg`parentMap, alg`prevPathNode, alg`prevPathEdge
    ensures alg.Valid()
    ensures |locations| < 2 ==> r == Err(NotEnoughLocations)
    ensures |locations| >= 2 && |Present(locations)| >= 2 && alg.kind == DFS ==> r == Err(TypeError)
    ensures r.Ok? ==> |segs| == Segments(|Present(locations)|) && r.value == Assemble(segs)
    ensures r.Ok? && alg.kind != DFS ==> Bracketed(segs, Present(locations))
  {
    segs := [];
    if |locations| < 2 {
      return Err(NotEnoughLocations), segs;
    }
    var locs := Present(locations);
    var actions: seq<RunAction> := [];
    var pending: seq<StateChange> := [];
    var pathCount: nat := 0;
    var i := 0;
    while i < |locs| - 1
      invariant 0 <= i <= Segments(|locs|)
      invariant alg.Valid()
      invariant |segs| == i && actions == SegmentsBody(segs) && pending == FinalSource(segs)
      invariant pathCount == |pending| && (alg.kind == DFS ==> i == 0)
      invariant alg.kind != DFS ==> Bracketed(segs, locs)
    {
      var sub, err := RunProcess(alg, locs[i], locs[i + 1], d);
      if err.Some? {
        return Err(err.value), segs;
      }
      if alg.kind != DFS {
        BracketedGrow(segs, locs, sub);
      }
      actions, pending, pathCount, segs := AddSegment(actions, pending, pathCount, segs, sub);
      i := i + 1;
    }
    r := Ok(actions + Numbered(pending, 0, pathCount));
  }

  // ---------------------------------------------------------------------------
  // startGenerator (lines 129-221)
  // ---------------------------------------------------------------------------

  /** The walk of lines 150-159 as a value: `w` starts at some node, steps
      from each entry to its parent, and stops at the first node that has none. */
  ghost predicate IsChain(pm: map<Node, Node>, w: seq<Node>) {
    |w| >= 1 && w[|w| - 1] !in pm
    && forall i :: 0 <= i < |w| - 1 ==> w[i] in pm && pm[w[i]] == w[i + 1]
  }

  /** The sub-path of one segment: nothing when `end` has no parent, and
      otherwise the chain of parents from `end` back to `start`, without a
      repeated node. */
  ghost predicate SegmentPath(pm: map<Node, Node>, start: Node, end: Node, sub: seq<Node>) {
    if end in pm then IsChain(pm, sub) && sub[0] == end && sub[|sub| - 1] == start && NoDup(sub)
    else sub == []
  }

  /** The measure of the walk: the rank of a ranked node, and `bound`, above
      every rank, for the others. */
  ghost function Height(rank: map<Node, nat>, bound: nat, n: Node): nat {
    if n in rank then rank[n] else bound
  }

  /** Lines 148-159: collect `end` and its parents while the map has the
      current node.  On a map a DFS left behind the walk ends at `start`. */
  method ParentWalk(pm: map<Node, Node>, end: Node, ghost start: Node, ghost rank: map<Node, nat>, ghost bound: nat)
    returns (sub: seq<Node>)
    requires Search.Ranked(pm, start, rank, bound)
    ensures SegmentPath(pm, start, end, sub)
  {
    sub := [];
    if end in pm {
      var child := end;
      sub := [child];
      while child in pm
        invariant |sub| >= 1 && sub[0] == end && sub[|sub| - 1] == child
        invariant forall i :: 0 <= i < |sub| - 1 ==> sub[i] in pm && pm[sub[i]] == sub[i + 1]
        invariant |sub| > 1 ==> child in rank
        invariant forall i, j :: 0 <= i < j < |sub| ==> Height(rank, bound, sub[i]) > Height(rank, bound, sub[j])
        decreases Height(rank, bound, child)
      {
        var parent := pm[child];
        assert Height(rank, bound, parent) < Height(rank, bound, child);
        sub := sub + [parent];
        child := parent;
      }
      assert HasParentOrStart: child == start || Search.HasParent(pm, child);
      assert forall i, j :: 0 <= i < j < |sub| ==> sub[i] != sub[j];
    }
  }

  /** `while (!gen.next().done) yield;` (lines 144-146): the inner generator's
      operations run as they are, and each of its yields, a progress record
      included, becomes a bare yield. */
  function Relay(t: seq<Event>): (r: seq<Event>)
    ensures |r| == |t|
    ensures forall i :: 0 <= i < |t| ==> r[i] == (if t[i].Progress? then Pause else t[i])
  {
    if t == [] then [] else [if t[0].Progress? then Pause else t[0]] + Relay(t[1..])
  }

  /** One pass of the segment loop (lines 141-166) for the pair (`start`,
      `end`): the parent map is cleared and the subclass's generator is run.
      DFS.ts defines it; Dijkstra.ts does not, so the call is a TypeError;
      AStar.ts's throws. After a DFS the sub-path is walked from `end`, the
      visuals are reset, the path cache is cleared and the generator yields. */
  method RunSegment(alg: Algorithm, start: Node, end: Node)
    returns (events: seq<Event>, err: Option<Error>, sub: seq<Node>, ghost t: seq<Event>)
    requires alg.Valid()
    modifies alg`parentMap, alg`prevPathNode, alg`prevPathEdge
    ensures alg.Valid()
    ensures alg.kind == Dijkstra ==> err == Some(TypeError) && events == []
    ensures alg.kind == AStar ==> err == Some(MethodNotImplemented) && events == []
    ensures alg.kind == DFS && err.Some? ==> events == Relay(t)
    ensures alg.kind == DFS && err.None? ==>
              events == Relay(t) + Runs(ResetOps(alg.order, alg.graph)) + [Pause]
              && SegmentPath(alg.parentMap, start, end, sub)
              && alg.prevPathNode == [] && alg.prevPathEdge == []
  {
    alg.parentMap := map[];
    events, sub, t := [], [], [];
    match alg.kind
    case Dijkstra =>
      err := Some(TypeError);
    case AStar =>
      err := Some(MethodNotImplemented);
    case DFS =>
      var inner, found, visited, visitedEdges;
      ghost var rank, order;
      inner, err, found, visited, visitedEdges, rank, order := Search.ProcessGenerator(alg, start, end, false);
      t := inner;
      events := Relay(inner);
      if err.None? {
        sub := ParentWalk(alg.parentMap, end, start, rank, |visited|);
        var ops := alg.ResetGraphVisual();
        alg.prevPathEdge := [];
        alg.prevPathNode := [];
        events := events + Runs(ops) + [Pause];
      }
  }

  /** `path.push(...subPath.reverse())` over the segments, in order. */
  function JoinAll(subs: seq<seq<Node>>): seq<Node> {
    if subs == [] then [] else JoinAll(subs[..|subs| - 1]) + Reverse(subs[|subs| - 1])
  }

  /** The events of the segment passes whose inner traces are `ts`. */
  function SegmentsTrace(ts: seq<seq<Event>>, reset: seq<Op>): seq<Event> {
    if ts == [] then []
    else SegmentsTrace(ts[..|ts| - 1], reset) + (Relay(ts[|ts| - 1]) + Runs(reset) + [Pause])
  }

  lemma JoinAllGrow(subs: seq<seq<Node>>, sub: seq<Node>)
    ensures JoinAll(subs + [sub]) == JoinAll(subs) + Reverse(sub)
  {
    assert (subs + [sub])[..|subs|] == subs;
  }

  lemma SegmentsTraceGrow(ts: seq<seq<Event>>, t: seq<Event>, reset: seq<Op>)
    ensures SegmentsTrace(ts + [t], reset) == SegmentsTrace(ts, reset) + (Relay(t) + Runs(reset) + [Pause])
  {
    assert (ts + [t])[..|ts|] == ts;
  }

  /** One more segment pass of `start`'s loop extends the walks, the joined
      path and the trace. */
  lemma SegmentStep(pms: seq<map<Node, Node>>, subs: seq<seq<Node>>, ts: seq<seq<Event>>, locs: seq<Node>,
                    path: seq<Node>, trace: seq<Event>, reset: seq<Op>,
                    pm: map<Node, Node>, sub: seq<Node>, t: seq<Event>, events: seq<Event>)
    requires Segmented(pms, subs, locs) && |subs| + 1 < |locs|
    requires SegmentPath(pm, locs[|subs|], locs[|subs| + 1], sub)
    requires path == JoinAll(subs) && trace == SegmentsTrace(ts, reset)
    requires events == Relay(t) + Runs(reset) + [Pause]
    ensures Segmented(pms + [pm], subs + [sub], locs)
    ensures path + Reverse(sub) == JoinAll(subs + [sub])
    ensures trace + events == SegmentsTrace(ts + [t], reset)
  {
    SegmentedGrow(pms, subs, locs, pm, sub);
    JoinAllGrow(subs, sub);
    SegmentsTraceGrow(ts, t, reset);
  }

  /** Segment `k` ran from waypoint `k` to waypoint `k + 1` and left the parent
      map `pms[k]`, from which its sub-path was walked. */
  ghost predicate Segmented(pms: seq<map<Node, Node>>, subs: seq<seq<Node>>, locs: seq<Node>) {
    |pms| == |subs|
    && forall k {:trigger subs[k]} :: 0 <= k < |subs| ==>
         k + 1 < |locs| && SegmentPath(pms[k], locs[k], locs[k + 1], subs[k])
  }

  lemma SegmentedGrow(pms: seq<map<Node, Node>>, subs: seq<seq<Node>>, locs: seq<Node>,
                      pm: map<Node, Node>, sub: seq<Node>)
    requires Segmented(pms, subs, locs) && |subs| + 1 < |locs|
    requires SegmentPath(pm, locs[|subs|], locs[|subs| + 1], sub)
    ensures Segmented(pms + [pm], subs + [sub], locs)
  {
    var pms', subs' := pms + [pm], subs + [sub];
    assert forall k :: 0 <= k < |subs| ==> subs'[k] == subs[k] && pms'[k] == pms[k];
  }

  /** The two BUILD_PATH_NODE performs of a drawing pass (lines 173-178). */
  function NodeStep(from: Node, to: Node, i: nat, total: nat): seq<Event>
    requires total > 0
  {
    [Run(Do(Make(BuildPathNode, OnNode(from)), Some(Brightness(i, total)))),
     Run(Do(Make(BuildPathNode, OnNode(to)), Some(Brightness(i, total))))]
  }

  /** Lines 180-205: the first edge of `from`'s list with `to` as an endpoint
      gets its arrow (in when `from` is its source, out otherwise) and
      BUILD_PATH_EDGE. */
  function EdgeStep(adj: seq<Adj>, from: Node, to: Node, i: nat, total: nat): seq<Event>
    requires total > 0
  {
    match FindEdge(adj, to)
    case None => []
    case Some(e) =>
      [Run(Do(Arrow(e, e.source != from), None)),
       Run(Do(Make(BuildPathEdge, OnEdge(e)), Some(Brightness(i, total))))]
  }

  /** Lines 207-217: the endpoint highlights of a pass. */
  function HighlightStep(locs: seq<Node>, from: Node, to: Node): seq<Event> {
    (if from in locs then [Run(Do(Make(HighlightEndpoints, OnNode(from)), None)),
                           Run(Do(Make(HighlightEndpoints, OnNode(to)), None))] else [])
    + (if to in locs then [Run(Do(Make(HighlightEndpoints, OnNode(to)), None))] else [])
  }

  /** A complete pass of the drawing loop, ending with its yield. */
  function Pass(graph: map<Node, seq<Adj>>, locs: seq<Node>, from: Node, to: Node, i: nat, total: nat): seq<Event>
    requires from in graph && total > 0
  {
    NodeStep(from, to, i, total) + EdgeStep(graph[from], from, to, i, total) + HighlightStep(locs, from, to) + [Pause]
  }

  /** The events and the error of a drawing. */
  datatype Drawn = Drawn(events: seq<Event>, err: Option<Error>)

  /** One pass of the drawing loop: a node without an adjacency list makes
      `graph.get(from).find` a TypeError after the two BUILD_PATH_NODE
      performs. */
  function PassOf(graph: map<Node, seq<Adj>>, locs: seq<Node>, from: Node, to: Node, i: nat, total: nat): Drawn
    requires total > 0
  {
    if from !in graph then Drawn(NodeStep(from, to, i, total), Some(TypeError))
    else Drawn(Pass(graph, locs, from, to, i, total), None)
  }

  /** The first `k` passes of the drawing loop over `path` (lines 169-220);
      the passes stop at the first error. */
  function Drawing(graph: map<Node, seq<Adj>>, locs: seq<Node>, path: seq<Node>, k: nat): Drawn
    requires k <= Segments(|path|)
  {
    if k == 0 then Drawn([], None)
    else
      var d := Drawing(graph, locs, path, k - 1);
      if d.err.Some? then d
      else
        var p := PassOf(graph, locs, path[k - 1], path[k], k - 1, |path|);
        Drawn(d.events + p.events, p.err)
  }

  /** Once a pass has failed, later passes add nothing. */
  lemma {:induction false} DrawingStops(graph: map<Node, seq<Adj>>, locs: seq<Node>, path: seq<Node>, k: nat, m: nat)
    requires k <= m <= Segments(|path|)
    requires Drawing(graph, locs, path, k).err.Some?
    ensures Drawing(graph, locs, path, m) == Drawing(graph, locs, path, k)
    decreases m - k
  {
    if m > k {
      DrawingStops(graph, locs, path, k, m - 1);
    }
  }

  /** One pass of the drawing loop (lines 170-219) for the pair (`from`,
      `to`), the `i`-th of a path of `total` nodes. */
  method DrawPass(alg: Algorithm, locs: seq<Node>, from: Node, to: Node, i: nat, total: nat)
    returns (events: seq<Event>, err: Option<Error>)
    requires total > 0
    ensures Drawn(events, err) == PassOf(alg.graph, locs, from, to, i, total)
  {
    var brightness := Brightness(i, total);
    var nodes := [Run(Do(Make(BuildPathNode, OnNode(from)), Some(brightness))),
                  Run(Do(Make(BuildPathNode, OnNode(to)), Some(brightness)))];
    if from !in alg.graph {
      return nodes, Some(TypeError);
    }
    var edge := FindEdge(alg.graph[from], to);
    var edgeEvents := [];
    if edge.Some? {
      var e := edge.value;
      var arrow := if e.source == from then Arrow(e, false) else Arrow(e, true);
      edgeEvents := [Run(Do(arrow, None)), Run(Do(Make(BuildPathEdge, OnEdge(e)), Some(brightness)))];
    }
    var highlights := [];
    if from in locs {
      highlights := [Run(Do(Make(HighlightEndpoints, OnNode(from)), None)),
                     Run(Do(Make(HighlightEndpoints, OnNode(to)), None))];
    }
    if to in locs {
      highlights := highlights + [Run(Do(Make(HighlightEndpoints, OnNode(to)), None))];
    }
    events, err := nodes + edgeEvents + highlights + [Pause], None;
  }

  /** The drawing loop of lines 169-220. */
  method DrawFinal(alg: Algorithm, locs: seq<Node>, path: seq<Node>) returns (events: seq<Event>, err: Option<Error>)
    ensures Drawn(events, err) == Drawing(alg.graph, locs, path, Segments(|path|))
  {
    events, err := [], None;
    var i := 0;
    while i < |path| - 1
      invariant 0 <= i <= Segments(|path|)
      invariant Drawn(events, None) == Drawing(alg.graph, locs, path, i)
    {
      var pass, e := DrawPass(alg, locs, path[i], path[i + 1], i, |path|);
      events := events + pass;
      if e.Some? {
        DrawingStops(alg.graph, locs, path, i + 1, Segments(|path|));
        return events, e;
      }
      i := i + 1;
    }
  }

  /** The segment loop of lines 140-167 over the waypoints `locs`; `reset`
      is what `resetGraphVisual` performs. */
  method RunSegments(alg: Algorithm, locs: seq<Node>, reset: seq<Op>)
    returns (trace: seq<Event>, err: Option<Error>, path: seq<Node>,
             ghost subs: seq<seq<Node>>, ghost pms: seq<map<Node, Node>>, ghost ts: seq<seq<Event>>)
    requires alg.Valid() && reset == ResetOps(alg.order, alg.graph)
    modifies alg`parentMap, alg`prevPathNode, alg`prevPathEdge
    ensures alg.Valid()
    ensures |locs| >= 2 && alg.kind == Dijkstra ==> trace == [] && err == Some(TypeError)
    ensures |locs| >= 2 && alg.kind == AStar ==> trace == [] && err == Some(MethodNotImplemented)
    ensures err.None? ==>
              |subs| == Segments(|locs|) && |ts| == |subs| && Segmented(pms, subs, locs)
              && path == JoinAll(subs) && trace == SegmentsTrace(ts, reset)
  {
    trace, err, path, subs, pms, ts := [], None, [], [], [], [];
    var i := 0;
    while i < |locs| - 1 && err.None?
      invariant 0 <= i <= Segments(|locs|)
      invariant alg.Valid()
      invariant err.None? ==>
                  |subs| == i && |ts| == i && Segmented(pms, subs, locs)
                  && path == JoinAll(subs) && trace == SegmentsTrace(ts, reset)
      invariant alg.kind != DFS ==> i == 0
      invariant alg.kind == Dijkstra && err.Some? ==> trace == [] && err == Some(TypeError)
      invariant alg.kind == AStar && err.Some? ==> trace == [] && err == Some(MethodNotImplemented)
      decreases |locs| - i, if err.None? then 1 else 0
    {
      var events, e, sub, t := RunSegment(alg, locs[i], locs[i + 1]);
      if e.Some? {
        trace, err := trace + events, e;
      } else {
        SegmentStep(pms, subs, ts, locs, path, trace, reset, alg.parentMap, sub, t, events);
        path := path + Reverse(sub);
        subs, pms, ts := subs + [sub], pms + [alg.parentMap], ts + [t];
        trace := trace + events;
        i := i + 1;
      }
    }
  }

  /** startGenerator(locations): the events the generator produces, in order,
      and the error it ends with.  `path` is the concatenated path, `subs` the
      segments' walks, `pms` their parent maps and `ts` the traces of their
      inner generators. */
  method StartGenerator(alg: Algorithm, locations: seq<Option<Node>>)
    returns (trace: seq<Event>, err: Option<Error>, path: seq<Node>,
             ghost subs: seq<seq<Node>>, ghost pms: seq<map<Node, Node>>, ghost ts: seq<seq<Event>>)
    requires alg.Valid()
    modifies alg`parentMap, alg`prevPathNode, alg`prevPathEdge
    ensures alg.Valid()
    ensures |locations| < 2 ==> trace == [] && err == Some(NotEnoughLocations)
    ensures |locations| >= 2 && |Present(locations)| >= 2 && alg.kind == Dijkstra ==>
              trace == Runs(ResetOps(alg.order, alg.graph)) && err == Some(TypeError)
    ensures |locations| >= 2 && |Present(locations)| >= 2 && alg.kind == AStar ==>
              trace == Runs(ResetOps(alg.order, alg.graph)) && err == Some(MethodNotImplemented)
    ensures err.None? ==>
              |subs| == Segments(|Present(locations)|) && Segmented(pms, subs, Present(locations))
              && path == JoinAll(subs)
              && var d := Drawing(alg.graph, Present(locations), path, Segments(|path|));
                 d.err.None?
                 && trace == Runs(ResetOps(alg.order, alg.graph)) + SegmentsTrace(ts, ResetOps(alg.order, alg.graph)) + d.events
  {
    trace, path, subs, pms, ts := [], [], [], [], [];
    if |locations| < 2 {
      return trace, Some(NotEnoughLocations), path, subs, pms, ts;
    }
    var locs := Present(locations);
    var reset := alg.ResetGraphVisual();
    var segEvents;
    segEvents, err, path, subs, pms, ts := RunSegments(alg, locs, reset);
    trace := Runs(reset) + segEvents;
    if err.Some? {
      return;
    }
    var events;
    events, err := DrawFinal(alg, locs, path);
    trace := trace + events;
  }

  // ---------------------------------------------------------------------------
  // Properties of the generator
  // ---------------------------------------------------------------------------

  /** The number of bare yields of a trace. */
  function Pauses(t: seq<Event>): nat {
    if t == [] then 0 else (if t[|t| - 1].Pause? then 1 else 0) + Pauses(t[..|t| - 1])
  }

  lemma {:induction false} PausesAppend(a: seq<Event>, b: seq<Event>)
    ensures Pauses(a + b) == Pauses(a) + Pauses(b)
    decreases |b|
  {
    if b != [] {
      assert (a + b)[..|a + b| - 1] == a + b[..|b| - 1];
      PausesAppend(a, b[..|b| - 1]);
    } else {
      assert a + b == a;
    }
  }

  lemma PausesOfPass(graph: map<Node, seq<Adj>>, locs: seq<Node>, from: Node, to: Node, i: nat, total: nat)
    requires from in graph && total > 0
    ensures Pauses(Pass(graph, locs, from, to, i, total)) == 1
  {
    var body := NodeStep(from, to, i, total) + EdgeStep(graph[from], from, to, i, total) + HighlightStep(locs, from, to);
    assert forall j :: 0 <= j < |body| ==> !body[j].Pause?;
    NoPauses(body);
    PausesAppend(body, [Pause]);
    assert Pauses([Pause]) == 1 + Pauses([]);
  }

  lemma {:induction false} NoPauses(t: seq<Event>)
    requires forall j :: 0 <= j < |t| ==> !t[j].Pause?
    ensures Pauses(t) == 0
  {
    if t != [] {
      NoPauses(t[..|t| - 1]);
    }
  }

  /** The drawing yields once per completed pass: a drawing without error
      yields once per consecutive pair of the path, and a failed one fails
      at the pass after its last yield, on a node with no adjacency list. */
  lemma {:induction false} DrawingPauses(graph: map<Node, seq<Adj>>, locs: seq<Node>, path: seq<Node>, k: nat)
    requires k <= Segments(|path|)
    ensures var d := Drawing(graph, locs, path, k);
            (d.err.None? ==> Pauses(d.events) == k)
            && (d.err.Some? ==> d.err == Some(TypeError) && Pauses(d.events) < k && path[Pauses(d.events)] !in graph)
  {
    if k > 0 {
      DrawingPauses(graph, locs, path, k - 1);
      var d := Drawing(graph, locs, path, k - 1);
      if d.err.None? {
        if path[k - 1] !in graph {
          var u := NodeStep(path[k - 1], path[k], k - 1, |path|);
          PausesAppend(d.events, u);
          NoPauses(u);
        } else {
          PausesAppend(d.events, Pass(graph, locs, path[k - 1], path[k], k - 1, |path|));
          PausesOfPass(graph, locs, path[k - 1], path[k], k - 1, |path|);
        }
      }
    }
  }

  /** The prefix of the joined path made of the first `m` segments. */
  lemma {:induction false} JoinPrefix(subs: seq<seq<Node>>, m: nat)
    requires m <= |subs|
    ensures |JoinAll(subs[..m])| <= |JoinAll(subs)|
    ensures JoinAll(subs)[..|JoinAll(subs[..m])|] == JoinAll(subs[..m])
    decreases |subs| - m
  {
    if m == |subs| {
      assert subs[..m] == subs;
    } else {
      JoinPrefix(subs, m + 1);
      var a := JoinAll(subs[..m]);
      assert subs[..m + 1][..m] == subs[..m];
      assert JoinAll(subs[..m + 1]) == a + Reverse(subs[m]);
      assert JoinAll(subs)[..|JoinAll(subs[..m + 1])|][..|a|] == JoinAll(subs)[..|a|];
    }
  }

  /** As written: when segments `k` and `k + 1` both found a path, the joined
      path holds waypoint `k + 1` twice in a row, once as the end of the one
      and once as the start of the other. */
  lemma JunctionRepeats(pms: seq<map<Node, Node>>, subs: seq<seq<Node>>, locs: seq<Node>, k: nat)
    requires Segmented(pms, subs, locs) && k + 1 < |subs|
    requires subs[k] != [] && subs[k + 1] != []
    ensures var j := |JoinAll(subs[..k + 1])|;
            0 < j < |JoinAll(subs)| && JoinAll(subs)[j - 1] == locs[k + 1] == JoinAll(subs)[j]
  {
    assert SegmentPath(pms[k], locs[k], locs[k + 1], subs[k]);
    assert SegmentPath(pms[k + 1], locs[k + 1], locs[k + 2], subs[k + 1]);
    var a := JoinAll(subs[..k]);
    var b := JoinAll(subs[..k + 1]);
    var c := JoinAll(subs[..k + 2]);
    assert subs[..k + 1][..k] == subs[..k] && subs[..k + 2][..k + 1] == subs[..k + 1];
    assert b == a + Reverse(subs[k]);
    assert c == b + Reverse(subs[k + 1]);
    JoinPrefix(subs, k + 2);
    assert JoinAll(subs)[..|c|] == c;
    assert c[|b| - 1] == subs[k][0] && c[|b|] == subs[k + 1][|subs[k + 1]| - 1];
    assert JoinAll(subs)[|b| - 1] == c[|b| - 1] && JoinAll(subs)[|b|] == c[|b|];
  }

  /** `e` is an edge between `a` (by id, as the adjacency filter matches) and
      `b` (by identity, as `find` compares). */
  predicate Between(e: Edge, a: Node, b: Node) {
    (e.source.id == a.id && e.target == b) || (e.target.id == a.id && e.source == b)
  }

  // A concrete case: waypoints a, b, c on the path a - b - c, with the edge
  // b - d listed first in b's adjacency list.
  const StrayA := Node(0, "a")
  const StrayB := Node(1, "b")
  const StrayC := Node(2, "c")
  const StrayD := Node(3, "d")
  const StrayBD := Edge(10, StrayB, StrayD)
  const StrayEdges := [StrayBD, Edge(11, StrayA, StrayB), Edge(12, StrayB, StrayC)]

  /** The walks the two segments leave behind join to [a, b, b, c]. */
  lemma StrayPath()
    ensures Segmented([map[StrayB := StrayA], map[StrayC := StrayB]], [[StrayB, StrayA], [StrayC, StrayB]], [StrayA, StrayB, StrayC])
    ensures JoinAll([[StrayB, StrayA], [StrayC, StrayB]]) == [StrayA, StrayB, StrayB, StrayC]
  {
    var subs := [[StrayB, StrayA], [StrayC, StrayB]];
    assert subs[..1] == [[StrayB, StrayA]] && subs[..1][..0] == [];
    assert JoinAll(subs[..1]) == [StrayA, StrayB];
    assert Reverse([StrayC, StrayB]) == [StrayB, StrayC];
    assert IsChain(map[StrayB := StrayA], [StrayB, StrayA]);
    assert IsChain(map[StrayC := StrayB], [StrayC, StrayB]);
  }

  /** The first edge of b's adjacency list that has b as an endpoint is b - d. */
  lemma StrayFind()
    ensures FindEdge(Incident(StrayB, StrayEdges), StrayB) == Some(StrayBD)
  {
    assert Touches(StrayBD, StrayB);
    assert Incident(StrayB, StrayEdges)[0] == Adj(StrayD, StrayBD);
  }

  /** As written: the pass for the junction (b, b) of the joined path draws
      b - d as a path edge, though d is not on the path. */
  lemma StrayJunctionEdge()
    ensures var graph := map[StrayB := Incident(StrayB, StrayEdges)];
            var path := JoinAll([[StrayB, StrayA], [StrayC, StrayB]]);
            IncidentMap(graph, StrayEdges)
            && Segmented([map[StrayB := StrayA], map[StrayC := StrayB]], [[StrayB, StrayA], [StrayC, StrayB]], [StrayA, StrayB, StrayC])
            && |path| == 4 && path[1] == path[2] == StrayB && StrayD !in path
            && Run(Do(Make(BuildPathEdge, OnEdge(StrayBD)), Some(Brightness(1, 4))))
                 in Pass(graph, [StrayA, StrayB, StrayC], path[1], path[2], 1, |path|)
  {
    StrayPath();
    StrayFind();
    var graph := map[StrayB := Incident(StrayB, StrayEdges)];
    var drawn := Run(Do(Make(BuildPathEdge, OnEdge(StrayBD)), Some(Brightness(1, 4))));
    var edge := EdgeStep(graph[StrayB], StrayB, StrayB, 1, 4);
    assert edge[1] == drawn;
    var pass := Pass(graph, [StrayA, StrayB, StrayC], StrayB, StrayB, 1, 4);
    assert pass == NodeStep(StrayB, StrayB, 1, 4) + edge + HighlightStep([StrayA, StrayB, StrayC], StrayB, StrayB) + [Pause];
    assert pass[3] == drawn;
  }

  /** Corrected: the sub-paths joined with the repeated waypoint dropped. */
  function Joined(subs: seq<seq<Node>>): seq<Node> {
    if subs == [] then []
    else
      var p := Joined(subs[..|subs| - 1]);
      var q := Reverse(subs[|subs| - 1]);
      if p != [] && q != [] && p[|p| - 1] == q[0] then p + q[1..] else p + q
  }

  /** No node is followed by itself. */
  predicate NoStutter(p: seq<Node>) {
    forall j :: 0 <= j < |p| - 1 ==> p[j] != p[j + 1]
  }

  lemma ReverseNoStutter(s: seq<Node>)
    requires NoDup(s)
    ensures NoStutter(Reverse(s))
  {
    var r := Reverse(s);
    forall j | 0 <= j < |r| - 1
      ensures r[j] != r[j + 1]
    {
      assert r[j] == s[|s| - 1 - j] && r[j + 1] == s[|s| - 2 - j];
    }
  }

  /** Corrected: when every sub-path is free of repeats, as a walk of a DFS
      parent map is, the corrected join never puts a node next to itself. */
  lemma {:induction false} JoinedNoStutter(subs: seq<seq<Node>>)
    requires forall k :: 0 <= k < |subs| ==> NoDup(subs[k])
    ensures NoStutter(Joined(subs))
  {
    if subs != [] {
      var init := subs[..|subs| - 1];
      assert forall k :: 0 <= k < |init| ==> init[k] == subs[k];
      JoinedNoStutter(init);
      var p := Joined(init);
      var q := Reverse(subs[|subs| - 1]);
      ReverseNoStutter(subs[|subs| - 1]);
      if p != [] && q != [] && p[|p| - 1] == q[0] {
        var r := p + q[1..];
        forall j | 0 <= j < |r| - 1
          ensures r[j] != r[j + 1]
        {
          if j + 1 < |p| {
            assert r[j] == p[j] && r[j + 1] == p[j + 1];
          } else if j + 1 == |p| {
            assert r[j] == q[0] && r[j + 1] == q[1];
          } else {
            assert r[j] == q[j - |p| + 1] && r[j + 1] == q[j - |p| + 2];
          }
        }
      } else {
        var r := p + q;
        forall j | 0 <= j < |r| - 1
          ensures r[j] != r[j + 1]
        {
          if j + 1 < |p| {
            assert r[j] == p[j] && r[j + 1] == p[j + 1];
          } else if j + 1 == |p| {
            assert r[j] == p[|p| - 1] && r[j + 1] == q[0];
          } else {
            assert r[j] == q[j - |p|] && r[j + 1] == q[j - |p| + 1];
          }
        }
      }
    }
  }

  /** The edge a pass draws as BUILD_PATH_EDGE is the one `find` returns. */
  lemma DrawnEdgeFound(adj: seq<Adj>, from: Node, to: Node, i: nat, total: nat, e: Edge)
    requires total > 0
    requires Run(Do(Make(BuildPathEdge, OnEdge(e)), Some(Brightness(i, total)))) in EdgeStep(adj, from, to, i, total)
    ensures FindEdge(adj, to) == Some(e)
  {
  }

  /** The edge `find` returns in the list of a node with an id other than
      `to`'s lies between the two. */
  lemma FoundBetween(graph: map<Node, seq<Adj>>, edges: seq<Edge>, from: Node, to: Node)
    requires IncidentMap(graph, edges) && from in graph && from.id != to.id
    ensures FindEdge(graph[from], to).Some? ==> Between(FindEdge(graph[from], to).value, from, to)
  {
    var adj := graph[from];
    assert adj == Incident(from, edges);
    var found := FindEdge(adj, to);
    if found.Some? {
      var e := found.value;
      var k :| 0 <= k < |adj| && adj[k].element == e
               && (forall j :: 0 <= j < k ==> !Joins(adj[j].element, to));
      assert adj[k] in adj;
      assert Touches(e, from) && Joins(e, to);
    }
  }

  /** Corrected: over the corrected join of walks without repeats, on a graph
      whose nodes have distinct ids, every BUILD_PATH_EDGE of pass `i` is an
      edge between the pass's two consecutive path nodes. */
  lemma CorrectedPassEdges(graph: map<Node, seq<Adj>>, edges: seq<Edge>, locs: seq<Node>,
                           subs: seq<seq<Node>>, i: nat)
    requires IncidentMap(graph, edges)
    requires forall k :: 0 <= k < |subs| ==> NoDup(subs[k])
    requires i + 1 < |Joined(subs)| && Joined(subs)[i] in graph
    requires forall n, m :: n in graph && m in graph && n.id == m.id ==> n == m
    requires Joined(subs)[i + 1] in graph
    ensures var p := Joined(subs);
            forall e :: Run(Do(Make(BuildPathEdge, OnEdge(e)), Some(Brightness(i, |p|)))) in EdgeStep(graph[p[i]], p[i], p[i + 1], i, |p|) ==>
              Between(e, p[i], p[i + 1])
  {
    var p := Joined(subs);
    JoinedNoStutter(subs);
    assert p[i] != p[i + 1];
    FoundBetween(graph, edges, p[i], p[i + 1]);
    forall e | Run(Do(Make(BuildPathEdge, OnEdge(e)), Some(Brightness(i, |p|)))) in EdgeStep(graph[p[i]], p[i], p[i + 1], i, |p|)
      ensures Between(e, p[i], p[i + 1])
    {
      DrawnEdgeFound(graph[p[i]], p[i], p[i + 1], i, |p|, e);
    }
  }
}
