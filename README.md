# delivery-system: the search-animation engine and editor state, in Dafny

This project models the core of a graph-visualisation tool. Users place nodes
and edges on a canvas and watch depth-first search, Dijkstra and A* animate
over the graph. The modelled core has these parts:

- **Engine** (`Algorithm.ts`) builds each node's adjacency list from the node
  and edge lists. It turns a semantic event into a style change on one node
  or edge (`makeAction`), reconstructs a path from the parent map, and diffs
  it against the previously drawn path, so that only stale elements are
  reverted.
- **Orchestrator** (`start`, `startGenerator`) drives one search per pair of
  consecutive waypoints and stitches the segment paths into one route. It
  uses the final-path brightness ramp.
- **Searches**:
  - DFS is a stack-based step generator.
  - Dijkstra and A* are eager, priority-queue based searches.
- **Style table and encoders**:
  - the style table;
  - the encoders of `utility.ts`: `makeAlphabetID`, `makeColor`,
    `increaseBrightness`, `byte2Hex` and `RGB2Color`.
- **Editor state**:
  - the event emitter;
  - the canvas: an element registry ordered by z, the select/deselect
    toggle and the hover choice;
  - the network-graph canvas: JSON import and export, edges created on
    click and on selection, an undo stack and the delete key.

Modelling conventions:

- Nodes and edges are records that carry an object identity and an id.
- A style change is an opaque value: the event kind, the target and the
  style entry.
- A generator becomes a method that returns its trace of performed actions
  and yields.
- The priority queue is a multiset with extract-min.
- Edge weights and the A* heuristic are an abstract distance function.
- Hit tests and uuids are parameters.

Where the source holds state in objects, the model does too:

- The engine, the DFS, Dijkstra and A* loops, the event emitter, both
  canvases and the encoder loops are classes or methods with loops. They
  are proved against specification functions.
- The style table, the dispatch of `makeAction` and the JSON mapping are
  functions.

Dijkstra.ts and AStar.ts do not parse as written:

- `Dijkstra.ts:67` and `Dijkstra.ts:86` are each missing a `)`.
- `Dijkstra.ts:64` does not call `pq.isEmpty`.
- `Dijkstra.ts:73` and `Dijkstra.ts:97` use an undefined `node`.
- The `while` of `AStar.ts:42` is not closed before the `return` at
  `AStar.ts:89`.

The model follows the evident reading:

- `pq.isEmpty()` is called.
- `node` at `Dijkstra.ts:73` is the popped entry's node.
- `node` at `Dijkstra.ts:97` is the neighbour, which is what the guard
  above it tests.
- The A* loop closes before the `return`.

The model also keeps what the code does where that differs from the
evident design:

- Dijkstra weighs every edge by the distance from the edge's source to
  itself (`Dijkstra.ts:45-51`). `DijkstraSearch.WeightsVanish` shows that
  this makes every weight 0.
- A* records its parents in a local map, but draws its path from the
  engine's parent map.
- DFS has no `process` and Dijkstra has no `processGenerator`, so the
  orchestrator's calls to them are TypeErrors. A*'s `processGenerator`
  throws.
- `Dijkstra.ts:67` tests `visited.has(minNode)`, which asks about the
  queue entry, not its node, so a dequeued entry is never skipped. A node
  queued twice is expanded again when its second entry is popped.
  `DijkstraSearch.RevisitKeeps` shows that such a second expansion only
  appends actions: no distance, parent or queue entry changes. With the
  weights as written (all 0) no node is queued twice. With real weights,
  such as s - a at 5, s - b at 1 and b - a at 1, the node a is queued twice.
- `Canvas.ts:376` calls `element.onDelete()`. Neither the base `Element`
  class nor `NodeElement` or `EdgeElement` defines it; only
  `PolygonElement` does. The network-graph canvas holds only nodes and
  edges, so each of its deletes fails after the first element's id leaves
  the registry. The ctrl+Z and the delete key of `NetworkGraphCanvas.ts` both
  go through it. The as-written methods keep this; the corrected ones are
  listed under "## Findings".

## Model

| member | source | states |
|---|---|---|
| Utility.MakeAlphabetID | src/lib/functions/utility.ts:63-78 | 0 gives "A", a negative value gives the empty string, a positive value gives its base-26 letters with no leading "A", and the id decodes back to the value |
| Utility.Letters | src/lib/functions/utility.ts:72-77 | the base-26 letter string is empty exactly for 0, has only letters, and does not start with "A" for a positive value |
| Utility.DecodeLetters | src/lib/functions/utility.ts:63-78 | reading an identifier back as a base-26 number gives the value it was made from |
| Utility.LettersDecode | src/lib/functions/utility.ts:63-78 | every letter string without a leading "A" is the identifier of exactly one positive value, so identifiers of distinct values differ |
| Utility.JsRem | src/lib/functions/utility.ts:90 | JavaScript's `%` with a positive divisor: the remainder lies strictly between -b and b, is never positive for a negative dividend, equals the mathematical remainder for a non-negative one, and differs from the dividend by a multiple of b |
| Utility.MakeColor | src/lib/functions/utility.ts:80-91 | a non-negative value picks palette entry `value mod 6`; a negative value picks `undefined` unless it is a multiple of 6; a defined result is a palette colour |
| Utility.MakeColorPeriodic | src/lib/functions/utility.ts:89-91 | colours repeat with period 6 |
| Utility.ToInt32 | src/lib/functions/utility.ts:40-41 | the value a bitwise operator sees is a signed 32-bit integer congruent to its input |
| Utility.Byte2Hex | src/lib/functions/utility.ts:37-43 | two upper-case hex digits that spell the input modulo 256, for any integer input |
| Utility.RGB2Color | src/lib/functions/utility.ts:45-47 | "#" followed by the three bytes, each as two upper-case hex digits |
| Utility.BrightenBounds | src/lib/functions/utility.ts:31-33 | below 100 percent a brightened channel never decreases and stays below 256 |
| Utility.ParseSubstr | src/lib/functions/utility.ts:25-27 | `parseInt(hex.substr(k, 2), 16)` reads the byte at offset k of a six-digit colour |
| Utility.BrightenedHex6 | src/lib/functions/utility.ts:25-34 | on six hex digits and 0 <= percent < 100, each output channel is c + floor((256 - c) * percent / 100), which lies between c and 255, printed as two lower-case digits |
| Utility.BrightenHex6 | src/lib/functions/utility.ts:16-35 | the same statement for the string passed to increaseBrightness, once normalised and expanded |
| Utility.FullBrightnessIsBlack | src/lib/functions/utility.ts:29-34 | brightening by 100 percent carries every channel to 512, and the `substr(1)` then prints "#000000", not white |
| Utility.ExpandThree | src/lib/functions/utility.ts:20-23 | a three-digit colour such as "E0F" is expanded by doubling each digit |
| Utility.NormaliseHashColour | src/lib/functions/utility.ts:17-18 | the leading "#" is stripped and a colour ending in a digit is otherwise kept |
| Utility.IncreaseBrightness | src/lib/functions/utility.ts:16-35 | the result always starts with "#"; `BrightenHex6` gives each channel of a six-digit colour exactly, and `FullBrightnessIsBlack` the 100 percent case |
| Styles.Lookup | src/lib/functions/algorithm/styles.ts:3-61 | the table has every NODE and EDGE entry that Algorithm.ts reads except STATELESS, and the FINAL_PATH fill and stroke are the brightness function |
| Styles.FinalPathColour | src/lib/functions/algorithm/styles.ts:28-34 | the FINAL_PATH colour always starts with "#"; `FalsyKeepsUpperCase` gives the falsy case and `FinalPathColourBrightened` the channels for 0 < b < 100 |
| Styles.Spread | src/lib/functions/algorithm/Algorithm.ts:384-390 | object spread, property by property: a property the overriding bag sets wins, and a property it leaves unset comes from the base |
| Styles.RevertEdge | src/lib/functions/algorithm/Algorithm.ts:384-390 | the bag that reverts an edge has the PROCESSED colour, weight 1, both arrows off, and no fill and no radius |
| Styles.FinalPathColourBrightened | src/lib/functions/algorithm/styles.ts:28-34 | for 0 < b < 100 the red channel stays "ff", and green and blue both become floor(256 * b / 100) |
| Styles.FalsyKeepsUpperCase | src/lib/functions/algorithm/styles.ts:30-32 | a zero brightness is falsy and returns the upper-case "#FF0000", whereas brightening by 0 percent would print "#ff0000" |
| Styles.TableFacts | src/lib/functions/algorithm/styles.ts:4-60 | the shared colours, the stroke weights, the default edge's arrows, and the node radii; `scaleWithZoom` is true for ENDPOINT and for the FINAL_PATH edge, false for the default node, and unset in every other entry |
| Events.Registered | src/lib/functions/EventEmitter.ts:6-13 | `on` creates the key's set when it is missing and adds the listener once; other keys are untouched |
| Events.Unregistered | src/lib/functions/EventEmitter.ts:13-15 | the closure removes exactly that listener from the key's set, the remaining listeners keep their order (a subsequence of the old set), and the key and every other set stay |
| Events.EventEmitter.constructor | src/lib/functions/EventEmitter.ts:4 | the emitter starts with no keys |
| Events.EventEmitter.On | src/lib/functions/EventEmitter.ts:6-13 | the new registry is `Registered` of the old one, the closure names the key and the listener, and no set holds a listener twice |
| Events.EventEmitter.Unsubscribe | src/lib/functions/EventEmitter.ts:13-15 | on a key that exists, the listener leaves its set; on a missing key the call is a TypeError and nothing changes |
| Events.EventEmitter.Emit | src/lib/functions/EventEmitter.ts:18-24 | the listeners called are exactly the key's listeners, in registration order, and none for an unknown key |
| Events.RegisterIdempotent | src/lib/functions/EventEmitter.ts:6-13 | registering the same listener twice is the same as registering it once |
| Events.UnregisterIdempotent | src/lib/functions/EventEmitter.ts:13-15 | unsubscribing twice is the same as unsubscribing once |
| Events.RegisterThenUnregister | src/lib/functions/EventEmitter.ts:6-13 | registering a new listener and then unsubscribing it restores the key's set; the key itself stays |
| Events.EmitOrder | src/lib/functions/EventEmitter.ts:18-24 | a newly registered listener is called last, and other keys are unaffected |
| Events.SetsKept | src/lib/functions/EventEmitter.ts:6-13 | registering and unsubscribing keep every listener set free of repeats |
| Graph.Incident | src/lib/functions/algorithm/Algorithm.ts:64-77 | every entry of a node's list is an edge of the input that touches the node by id, paired with that edge's opposite endpoint by identity |
| Graph.IncidentIsTouching | src/lib/functions/algorithm/Algorithm.ts:65-74 | a node's list holds exactly one entry per edge touching the node, in edge-list order |
| Graph.TouchingSubsequence | src/lib/functions/algorithm/Algorithm.ts:65-68 | the filtered edges keep the order of the edge list |
| Graph.EdgeInBothLists | src/lib/functions/algorithm/Algorithm.ts:64-77 | an edge appears, pointing at its opposite endpoint, in the list of every node that carries either endpoint's id |
| Graph.OppositeEnds | src/lib/functions/algorithm/Algorithm.ts:71 | for an edge that is not a loop, each endpoint's entry points at the other endpoint |
| Graph.FindEdge | src/lib/functions/algorithm/Algorithm.ts:325-330 | `find` returns the first entry whose edge has the other node as its source or target, and undefined exactly when no entry does |
| Actions.CurrentPathUndoOrder | src/lib/functions/algorithm/Algorithm.ts:402-413 | the SHOW_CURRENT_PATH undo takes its parts first to last, so it inverts the perform only when there is at most one part |
| Actions.MakeAction | src/lib/functions/algorithm/Algorithm.ts:233-295 | exactly seven kinds are accepted for a node and four for an edge, and any other kind throws "Not Implemented"; the action targets the element and keeps its kind, except that NODE_PROCESSED is built with PROCESSED_EDGE; only the STATELESS kinds carry no style |
| Actions.Make | src/lib/functions/algorithm/Algorithm.ts:233-295 | for an accepted kind, the change is the one makeAction returns: it targets the element, keeps the kind except that NODE_PROCESSED becomes PROCESSED_EDGE, and carries the table entry for that kind on a node or an edge |
| Actions.BrightnessOrder | src/lib/functions/algorithm/Algorithm.ts:112-120 | the BUILD_FINAL_PATH brightness increases strictly with the counter, starts at 0 and stays below 50 |
| Actions.ResetInvertsSegment | src/lib/functions/algorithm/Algorithm.ts:95-103 | performing RESET_STATES is the exact inverse of performing its segment of state changes |
| Actions.ResetUndoReperforms | src/lib/functions/algorithm/Algorithm.ts:100-102 | undoing RESET_STATES performs the segment again, but last to first, so the order differs from the original run for two distinct actions |
| Actions.InvertAppend | src/lib/functions/algorithm/Algorithm.ts:98 | the inverse of two runs in sequence is the inverse of the second run followed by the inverse of the first |
| Actions.ExtendProgress | src/lib/functions/algorithm/types/DFS.ts:100-105 | progress records that equal the current bound keep a trace's progress non-decreasing |
| Engine.Algorithm.constructor | src/lib/functions/algorithm/Algorithm.ts:59-78 | the adjacency map has exactly the input nodes as keys, in first-occurrence order, and each list is that node's `Incident` list; no action is saved, and the parent map and the path cache start empty |
| Engine.Algorithm.MakeActionSaving | src/lib/functions/algorithm/Algorithm.ts:233-295 | the action of `MakeAction`; it is appended to `actions` only when it was made and `save` is set |
| Engine.Algorithm.BuildPath | src/lib/functions/algorithm/Algorithm.ts:300-400 | returns `BuildPathResult`, whose properties are the lemmas below; on success the cache becomes the walked nodes and the edges found along them, and a TypeError leaves the cache unchanged |
| Engine.Algorithm.ShowCurrentPath | src/lib/functions/algorithm/Algorithm.ts:402-414 | buildPath with the cache in use, wrapped in one SHOW_CURRENT_PATH action whose perform and undo run its parts |
| Engine.Algorithm.ResetGraphVisual | src/lib/functions/algorithm/Algorithm.ts:493-501 | the operations `ResetOps` gives for the map order (see ResetClearsAll and ResetOnlyClears) |
| Engine.ResetAll | src/lib/functions/algorithm/Algorithm.ts:494-500 | the outer loop visits the nodes in map order |
| Engine.ResetEdges | src/lib/functions/algorithm/Algorithm.ts:495-499 | the inner loop clears the node and then every edge of its list |
| Engine.FollowParents | src/lib/functions/algorithm/Algorithm.ts:308-363 | the loop succeeds exactly when every walked node has an adjacency list, and then yields the staged actions, the walked nodes and the found edges |
| Engine.StaleNodeReverts | src/lib/functions/algorithm/Algorithm.ts:365-376 | PROCESSED_NODE for each cached node not on the new path, in cache order |
| Engine.StaleEdgeReverts | src/lib/functions/algorithm/Algorithm.ts:378-394 | the reverting SHOW_EDGE_DIRECTION for each cached edge not on the new path, in cache order |
| Engine.BuildPathFails | src/lib/functions/algorithm/Algorithm.ts:325-327 | a walked node with no adjacency list makes buildPath throw a TypeError |
| Engine.BuildPathOk | src/lib/functions/algorithm/Algorithm.ts:300-400 | once every walked node has a list, the result is the staged steps followed, unless the cache is ignored, by the node and edge reverts |
| Engine.WalkStep | src/lib/functions/algorithm/Algorithm.ts:308-363 | one turn of the loop moves `child` from the rest of the walk into its visited part, and the unvisited part of the map shrinks |
| Engine.StepsSnoc | src/lib/functions/algorithm/Algorithm.ts:313-360 | one more walked node adds its own step to the staged actions, and its found edge, if any, to the path edges |
| Engine.FoundEdges | src/lib/functions/algorithm/Algorithm.ts:305-333 | the path edges form a set: no edge twice |
| Engine.WalkFromShape | src/lib/functions/algorithm/Algorithm.ts:303-322 | the walk never repeats a node, never contains `start`, and visits only nodes that have a parent |
| Engine.WalkNoDup | src/lib/functions/algorithm/Algorithm.ts:308-312 | the new path-node cache has no repeats, excludes `start`, and lies in the parent map |
| Engine.WalkFromChain | src/lib/functions/algorithm/Algorithm.ts:308-362 | the walk goes from each node to its parent and stops only where the parent is missing, is `start`, or was visited |
| Engine.WalkIsParentChain | src/lib/functions/algorithm/Algorithm.ts:301-363 | the walk is empty exactly when `end` has no parent or is `start`; otherwise it starts at `end`, follows parents, and ends at a missing parent, at `start` or at a cycle |
| Engine.PathNodeMarks | src/lib/functions/algorithm/Algorithm.ts:313-319 | BUILD_PATH_NODE is staged for a node exactly when it is walked and is not `end` |
| Engine.PathEdgeMarks | src/lib/functions/algorithm/Algorithm.ts:324-358 | every staged edge action is on a found path edge that is not cached, unless the cache is ignored; every such found edge gets BUILD_PATH_EDGE |
| Engine.StagedEdgesFound | src/lib/functions/algorithm/Algorithm.ts:332-358 | every edge action staged along the walk is on a found edge that the cache allowed |
| Engine.FoundEdgesMarked | src/lib/functions/algorithm/Algorithm.ts:332-358 | every found edge that the cache allowed gets BUILD_PATH_EDGE |
| Engine.StepOfEdges | src/lib/functions/algorithm/Algorithm.ts:324-358 | the edge actions of one step are on the edge found towards that node's parent |
| Engine.FoundEdgesStep | src/lib/functions/algorithm/Algorithm.ts:333 | the found edges only grow along the walk, and each node's found edge is among them |
| Engine.CachedEdgesUntouched | src/lib/functions/algorithm/Algorithm.ts:334 | with the cache in use, no action is staged on an edge of the previous path |
| Engine.NodeRevertsOnce | src/lib/functions/algorithm/Algorithm.ts:365-376 | each node of the previous path that is not on the new one is reverted exactly once, and no other node is |
| Engine.EdgeRevertsOnce | src/lib/functions/algorithm/Algorithm.ts:378-394 | each edge of the previous path that is not on the new one is reverted exactly once, and no other edge is |
| Engine.ResetNodeShape | src/lib/functions/algorithm/Algorithm.ts:495-499 | a node is cleared first, then each edge of its list in order, and every operation is a stateless perform without an argument |
| Engine.ResetClearsAll | src/lib/functions/algorithm/Algorithm.ts:493-501 | resetGraphVisual clears every node of the map and every edge of every list |
| Engine.ResetOnlyClears | src/lib/functions/algorithm/Algorithm.ts:493-501 | resetGraphVisual does nothing but clear: every operation performs a stateless change |
| Search.ProcessGenerator | src/lib/functions/algorithm/types/DFS.ts:15-125 | `end` is never expanded; a search from an empty parent map leaves one in which every chain of parents reaches `start`; `start` gets no parent; every new parent is a visited node; progress records never decrease and never exceed the sizes of the two visited sets, the last one counts the visited edges, and without an error there is exactly one record per adjacency entry of the visited nodes; with actions skipped only PROCESSED_EDGE is performed; when `end` is popped, the trace ends with the actions of buildPath, one per yield |
| Search.Search | src/lib/functions/algorithm/types/DFS.ts:37-124 | the search loop keeps `end` unvisited and `start` without a parent, draws new parents only from visited nodes, keeps the progress invariant and the parent ranking when the map started empty, and, without an error, lists the visited nodes in visiting order with one progress record per entry of their adjacency lists |
| Search.SearchStep | src/lib/functions/algorithm/types/DFS.ts:37-124 | one pass pops the stack: a visited node adds no progress record and only shrinks the stack; a new node joins the visited set and adds one record per entry of its adjacency list; so the loop terminates, and the search invariants are kept |
| Search.VisitNode | src/lib/functions/algorithm/types/DFS.ts:58-123 | a node that was not yet visited joins the visited set, adds one progress record per entry of its list, and keeps the invariants; a node without an adjacency list stops the generator with a TypeError |
| Search.MarkAndExpand | src/lib/functions/algorithm/types/DFS.ts:69-113 | the node joins the visited set, its edges are expanded with one progress record each, and the ranking, parent and progress invariants are kept |
| Search.ExpandEdges | src/lib/functions/algorithm/types/DFS.ts:72-113 | the events are `Expansion` of the list, the pushed nodes `Pushed` (the unvisited neighbours, last entry first), and the visited edges gain exactly the list's edges; each new parent entry points at the expanded node from an unvisited node, other entries stay; the progress and ranking invariants are kept |
| Search.TakeEdge | src/lib/functions/algorithm/types/DFS.ts:76-112 | one entry: an unvisited neighbour gets the expanded node as its parent and is pushed, a visited one changes nothing, and the events are `EdgeTurn`'s |
| Search.TurnShape | src/lib/functions/algorithm/types/DFS.ts:76-112 | a turn ends with PROCESSED_EDGE on its edge and then the progress record, which is its only record |
| Search.ExpansionRecords | src/lib/functions/algorithm/types/DFS.ts:72-113 | the inner loop adds one progress record per entry, whether actions are skipped or not, and the j-th counts the visited nodes and the edges visited once j + 1 entries were taken, last entry first |
| Search.ExpansionMarked | src/lib/functions/algorithm/types/DFS.ts:100-105 | each progress record of the inner loop comes right after PROCESSED_EDGE is performed on one of the expanded edges |
| Search.ExpansionCurrent | src/lib/functions/algorithm/types/DFS.ts:72-113 | the inner loop adds one record per entry and leaves the last record counting the visited edges |
| Search.Quiet | src/lib/functions/algorithm/types/DFS.ts:58-123 | events without a progress record keep the progress invariant and leave the records as they were |
| Search.DrawPath | src/lib/functions/algorithm/types/DFS.ts:41-50 | with actions on, the trace gains exactly the actions of buildPath with the cache ignored, each followed by a yield; with actions skipped nothing is drawn |
| Search.ShowProcessed | src/lib/functions/algorithm/types/DFS.ts:115-123 | showing the current path and marking the node processed adds no progress record, so the progress invariant holds |
| Search.PerformEach | src/lib/functions/algorithm/types/DFS.ts:45-48 | every action is performed without an argument and followed by one bare yield |
| Search.SearchAdd | src/lib/functions/algorithm/types/DFS.ts:88-101 | giving an unvisited neighbour the visited node as its parent and pushing it keeps the ranking invariant |
| Search.NewRank | src/lib/functions/algorithm/types/DFS.ts:69-70 | visiting a node with the next rank keeps the ranking invariant |
| Search.IgnoredCache | src/lib/functions/algorithm/types/DFS.ts:43 | with the cache ignored, buildPath's result does not depend on the cached path |
| Search.StepsIgnoreCache | src/lib/functions/algorithm/Algorithm.ts:334 | with the cache ignored, the staged actions do not depend on the cached edges |
| Search.StagedAppend | src/lib/functions/algorithm/types/DFS.ts:45-48 | staging two runs of actions in turn is staging the two runs joined |
| Search.StagedHasNoProgress | src/lib/functions/algorithm/types/DFS.ts:45-48 | drawing the path yields no progress record and performs only the path's actions |
| Queue.MinExists | src/lib/functions/algorithm/types/Dijkstra.ts:64-65 | a non-empty queue has an entry of least priority |
| Queue.Dequeue | src/lib/functions/algorithm/types/Dijkstra.ts:65 | removes and returns one entry of least priority, and the rest of the queue is unchanged |
| DijkstraSearch.Process | src/lib/functions/algorithm/types/Dijkstra.ts:18-109 | the actions open with the two endpoint highlights; distances cover the graph's keys and `start`, with `start` at 0; `start` gets no parent and every new parent is visited; without an error the loop drains the queue, after which a recorded distance is finite exactly for the visited nodes, `start` is visited, and every neighbour of a visited node that has a distance is visited too |
| DijkstraSearch.Step | src/lib/functions/algorithm/types/Dijkstra.ts:64-107 | one turn never raises a distance, keeps `start` at 0 and the frontier, parent and settled invariants; it either visits a new node or pops a node visited before, and then the queue shrinks while the distances and the parent map stay as they were |
| DijkstraSearch.Relax | src/lib/functions/algorithm/types/Dijkstra.ts:81-106 | the distance update and the relaxation of the popped node's edges: without an error the node is in the graph and the invariants hold with it visited; for a node visited before, the distances and the parent map stay; a node missing from the graph is a TypeError |
| DijkstraSearch.Drain | src/lib/functions/algorithm/types/Dijkstra.ts:64-107 | the main loop keeps the opening actions, the distance and parent invariants, and without an error ends with the queue empty and the frontier invariant |
| DijkstraSearch.Expand | src/lib/functions/algorithm/types/Dijkstra.ts:81-106 | lowering the popped node's distance and relaxing its edges keeps the loop invariants and the settled invariant; for a node visited before, the distances, parents and queue come out as they went in |
| DijkstraSearch.ShowPath | src/lib/functions/algorithm/types/Dijkstra.ts:79 | showing the current path leaves the engine valid and the parent map untouched |
| DijkstraSearch.InitDistances | src/lib/functions/algorithm/types/Dijkstra.ts:32-39 | `start` gets 0 and every other key of the graph gets Infinity |
| DijkstraSearch.Min | src/lib/functions/algorithm/types/Dijkstra.ts:82 | the lower of the recorded distance and the entry's distance: finite, at most both, and one of the two |
| DijkstraSearch.WeightsVanish | src/lib/functions/algorithm/types/Dijkstra.ts:45-51 | both points of the weight are read from the edge's source, so every weight is zero whatever the edge |
| DijkstraSearch.RelaxEdge | src/lib/functions/algorithm/types/Dijkstra.ts:84-106 | a visited neighbour changes nothing; the distances change exactly when the path through the current node is strictly shorter, and then the neighbour gets the new distance, the current node as its parent and a queue entry; no distance grows; an unvisited neighbour gets ENQUEUE_NODE and, unless it is an endpoint, NODE_PROCESSED |
| DijkstraSearch.RelaxAll | src/lib/functions/algorithm/types/Dijkstra.ts:84-106 | relaxing a whole list keeps the keys of the distance map |
| DijkstraSearch.RelaxEdges | src/lib/functions/algorithm/types/Dijkstra.ts:84-106 | the inner loop computes `RelaxAll`, first entry first |
| DijkstraSearch.RelaxEdgeFrontier | src/lib/functions/algorithm/types/Dijkstra.ts:100-105 | every unvisited node with a finite distance keeps a queue entry with that distance |
| DijkstraSearch.RelaxAllKeeps | src/lib/functions/algorithm/types/Dijkstra.ts:84-106 | the inner loop never raises a distance, leaves visited distances and parent entries alone, gives new parents only the current node, and keeps the frontier invariant |
| DijkstraSearch.RelaxAllReaches | src/lib/functions/algorithm/types/Dijkstra.ts:84-106 | after relaxing, every neighbour of the current node that has a recorded distance has a finite one |
| DijkstraSearch.LoweredTrans | src/lib/functions/algorithm/types/Dijkstra.ts:100-103 | "no distance grew" composes across turns |
| DijkstraSearch.ClosedLowered | src/lib/functions/algorithm/types/Dijkstra.ts:100-103 | lowering distances keeps every neighbour of a visited node finite |
| DijkstraSearch.LowerOne | src/lib/functions/algorithm/types/Dijkstra.ts:82-83 | the `Math.min` update lowers the distance map |
| DijkstraSearch.NotBelow | src/lib/functions/algorithm/types/Dijkstra.ts:101 | `alt < distances.get(neighbor)` fails exactly when the neighbour's distance is at most `alt` |
| DijkstraSearch.AboveLowered | src/lib/functions/algorithm/types/Dijkstra.ts:100-104 | lowering distances keeps every queued entry at or above its node's distance |
| DijkstraSearch.RelaxAllAbove | src/lib/functions/algorithm/types/Dijkstra.ts:84-106 | the inner loop keeps every queued entry at or above its node's distance, since a new entry carries exactly the new distance |
| DijkstraSearch.RelaxAllRelaxes | src/lib/functions/algorithm/types/Dijkstra.ts:84-106 | after the inner loop, every unvisited neighbour with a distance is at most the current node's distance plus the edge's weight |
| DijkstraSearch.RelaxAllRelaxed | src/lib/functions/algorithm/types/Dijkstra.ts:84-106 | when every edge of the list is already relaxed, the inner loop changes no distance, no parent and no queue entry |
| DijkstraSearch.RevisitKeeps | src/lib/functions/algorithm/types/Dijkstra.ts:65-106 | popping a visited node again keeps its distance under `Math.min` and its relaxation changes no distance, parent or queue entry; the invariants hold with the entry dropped |
| DijkstraSearch.ExpandSettled | src/lib/functions/algorithm/types/Dijkstra.ts:77-106 | visiting a new node keeps every queued entry at or above its node's distance and every edge out of the visited set relaxed |
| DijkstraSearch.RelaxedGrow | src/lib/functions/algorithm/types/Dijkstra.ts:77-106 | the relaxed-edges invariant extends to one more visited node when the others keep their distances, none grows, and the new node's edges are relaxed |
| DijkstraSearch.PopKeeps | src/lib/functions/algorithm/types/Dijkstra.ts:65-83 | dequeuing an entry and visiting its node keeps the frontier invariant |
| DijkstraSearch.ExpandKeeps | src/lib/functions/algorithm/types/Dijkstra.ts:77-106 | expanding the least entry of an unvisited node keeps all the loop invariants |
| DijkstraSearch.ExpandDists | src/lib/functions/algorithm/types/Dijkstra.ts:82-106 | the distance part of the expansion: `start` keeps 0, no distance grows, and visited nodes stay finite and closed |
| DijkstraSearch.ExpandFrontier | src/lib/functions/algorithm/types/Dijkstra.ts:65-106 | the queue part of the expansion: unvisited finite nodes stay queued, and `start` is visited |
| DijkstraSearch.ClosedAdd | src/lib/functions/algorithm/types/Dijkstra.ts:84-106 | once its neighbours are finite, the current node can join the closed visited set |
| DijkstraSearch.SkipKeeps | src/lib/functions/algorithm/types/Dijkstra.ts:65 | dropping the dequeued entry of a visited node keeps the frontier invariant |
| DijkstraSearch.ParentsGrow | src/lib/functions/algorithm/types/Dijkstra.ts:77 | visiting one more node keeps the parent invariant |
| DijkstraSearch.Exhausted | src/lib/functions/algorithm/types/Dijkstra.ts:64 | with the queue empty, the finite nodes are exactly the visited ones, and the visited set is closed under neighbours that have a distance |
| AStarSearch.Process | src/lib/functions/algorithm/types/AStar.ts:18-90 | the actions open with the two endpoint highlights; `start` keeps cost 0 and the `null` parent; exactly the nodes with a cost have a parent entry; every other parent is a visited node; `end` is never visited, and popping it stops the search; when the frontier empties first, every node with a cost is visited and so is every neighbour of a visited node |
| AStarSearch.Step | src/lib/functions/algorithm/types/AStar.ts:42-87 | one turn keeps the invariants and raises no cost; popping `end` ends the search; otherwise it visits a new node or shrinks the frontier |
| AStarSearch.Expand | src/lib/functions/algorithm/types/AStar.ts:59-87 | relaxing the popped node's edges keeps the loop invariants with that node visited |
| AStarSearch.ShowPath | src/lib/functions/algorithm/types/AStar.ts:61 | showing the current path leaves the engine valid |
| AStarSearch.Relax | src/lib/functions/algorithm/types/AStar.ts:63-87 | a visited neighbour changes nothing; cost, parent and frontier change exactly when the neighbour has no cost or the cost through the current node is strictly lower, and then the neighbour is queued at cost plus distance to `end`; no cost grows; the actions are ENQUEUE_NODE for the neighbour and NODE_PROCESSED for the current node, not the neighbour, unless it is an endpoint |
| AStarSearch.RelaxAll | src/lib/functions/algorithm/types/AStar.ts:63-87 | relaxing a list never drops a cost |
| AStarSearch.RelaxEdges | src/lib/functions/algorithm/types/AStar.ts:63-87 | the inner loop computes `RelaxAll`, first entry first |
| AStarSearch.NoRiseTrans | src/lib/functions/algorithm/types/AStar.ts:75-76 | "no cost grew" composes across turns |
| AStarSearch.RelaxFrontier | src/lib/functions/algorithm/types/AStar.ts:75-79 | one relaxation keeps every unvisited node with a cost queued under its key |
| AStarSearch.FrontierPush | src/lib/functions/algorithm/types/AStar.ts:76-78 | a new cost with the matching queue entry keeps the frontier invariant |
| AStarSearch.RelaxAllKeeps | src/lib/functions/algorithm/types/AStar.ts:63-87 | the inner loop keeps the safety and frontier invariants, raises no cost, and leaves every neighbour of the node visited or with a cost |
| AStarSearch.PopFrontier | src/lib/functions/algorithm/types/AStar.ts:43-59 | popping an entry and visiting its node keeps the frontier invariant |
| AStarSearch.SkipKeeps | src/lib/functions/algorithm/types/AStar.ts:49-51 | dropping the entry of a visited node keeps the invariants |
| AStarSearch.VisitSafe | src/lib/functions/algorithm/types/AStar.ts:45-59 | visiting a popped node other than `end` keeps the safety invariant |
| AStarSearch.ExpandKeeps | src/lib/functions/algorithm/types/AStar.ts:59-87 | after the expansion the frontier invariants hold with the node visited |
| AStarSearch.ClosedGrow | src/lib/functions/algorithm/types/AStar.ts:63-87 | closure under neighbours survives the relaxation and extends to the expanded node |
| AStarSearch.Exhausted | src/lib/functions/algorithm/types/AStar.ts:42 | with the frontier empty, every node with a cost is visited and the visited set is closed under neighbours |
| AStarSearch.ProcessGenerator | src/lib/functions/algorithm/types/AStar.ts:92-97 | the generator always fails with "Method not implemented." |
| Orchestrator.Present | src/lib/functions/algorithm/Algorithm.ts:90 | the filter keeps exactly the present waypoints and never lengthens the list |
| Orchestrator.PresentConcat | src/lib/functions/algorithm/Algorithm.ts:90 | the filter works entry by entry, so it distributes over joined lists and keeps order and repeats |
| Orchestrator.PathParts | src/lib/functions/algorithm/Algorithm.ts:105-110 | the filter keeps exactly the plain state changes of type BUILD_PATH_NODE, BUILD_PATH_EDGE or SHOW_EDGE_DIRECTION; a SHOW_CURRENT_PATH action is dropped with its parts |
| Orchestrator.PathPartsConcat | src/lib/functions/algorithm/Algorithm.ts:105-110 | the filter works action by action, so it distributes over joined lists and keeps the order and repeats of the kept changes |
| Orchestrator.Plains | src/lib/functions/algorithm/Algorithm.ts:94 | a segment's actions are pushed unchanged and in order |
| Orchestrator.Numbered | src/lib/functions/algorithm/Algorithm.ts:112-121 | the j-th copy is a BUILD_FINAL_PATH of the j-th path change, numbered from the running counter |
| Orchestrator.ResetFollows | src/lib/functions/algorithm/Algorithm.ts:92-103 | in the list `start` returns, segment k's actions follow those of the earlier segments and are directly followed by that segment's RESET_STATES |
| Orchestrator.BodyPrefix | src/lib/functions/algorithm/Algorithm.ts:92-122 | the list built for the first m segments is a prefix of the list built for all of them |
| Orchestrator.FinalBrightness | src/lib/functions/algorithm/Algorithm.ts:112-124 | the j-th copy has counter j and the final count as its total, so the brightness it passes starts at 0, grows strictly and stays below 50 |
| Orchestrator.RunProcess | src/lib/functions/algorithm/Algorithm.ts:93 | `process` is a TypeError exactly for a DFS, which defines no `process`; otherwise the segment opens with its endpoint highlights |
| Orchestrator.Collect | src/lib/functions/algorithm/Algorithm.ts:112-121 | each copied path change takes the next value of `pathCount` |
| Orchestrator.AddSegment | src/lib/functions/algorithm/Algorithm.ts:93-121 | one pass of the loop appends the segment's actions, its RESET_STATES and its path changes |
| Orchestrator.BracketedGrow | src/lib/functions/algorithm/Algorithm.ts:92-93 | a new segment that opens with the highlights of its own waypoints keeps every segment bracketed |
| Orchestrator.Start | src/lib/functions/algorithm/Algorithm.ts:80-127 | fewer than two entries throws "Not enough locations"; on a DFS engine with at least two present waypoints `start` fails with a TypeError; otherwise the result is one segment per pair of consecutive present waypoints, each with its actions and RESET_STATES, followed by the numbered BUILD_FINAL_PATH copies, and each segment opens with the highlights of its own pair |
| Orchestrator.ParentWalk | src/lib/functions/algorithm/Algorithm.ts:148-159 | on a map a DFS left behind, the sub-path is empty when `end` has no parent, and otherwise the chain of parents from `end` to `start` with no node repeated |
| Orchestrator.Relay | src/lib/functions/algorithm/Algorithm.ts:144-146 | the inner generator's operations pass through unchanged, and each of its yields, a progress record included, becomes a bare yield |
| Orchestrator.RunSegment | src/lib/functions/algorithm/Algorithm.ts:141-166 | a Dijkstra engine fails with a TypeError and an A* engine with "Method not implemented.", before any event; a DFS segment relays the inner trace, then walks its sub-path, resets the visuals, clears the path cache and yields |
| Orchestrator.SegmentedGrow | src/lib/functions/algorithm/Algorithm.ts:140-167 | one more segment whose sub-path fits its waypoints keeps the list of segments consistent |
| Orchestrator.DrawPass | src/lib/functions/algorithm/Algorithm.ts:170-219 | one pass of the drawing loop produces the events of `PassOf` |
| Orchestrator.DrawFinal | src/lib/functions/algorithm/Algorithm.ts:169-220 | the drawing loop produces the events of `Drawing`, stopping at the first error |
| Orchestrator.RunSegments | src/lib/functions/algorithm/Algorithm.ts:140-167 | Dijkstra and A* engines fail before any event; without an error there is one segment per pair of waypoints, each with a consistent sub-path, the path is their join, and the trace is the segments' traces in order |
| Orchestrator.StartGenerator | src/lib/functions/algorithm/Algorithm.ts:129-221 | fewer than two entries fails with no event; Dijkstra and A* engines fail after the first reset; without an error the trace is the first reset, the segment traces and then the drawing of the joined path, whose sub-paths are the parent chains of the segments |
| Orchestrator.DrawingStops | src/lib/functions/algorithm/Algorithm.ts:169-220 | once a pass has failed, later passes add nothing |
| Orchestrator.PausesAppend | src/lib/functions/algorithm/Algorithm.ts:219 | yields of joined traces add up |
| Orchestrator.DrawingPauses | src/lib/functions/algorithm/Algorithm.ts:169-220 | a drawing without error yields once per consecutive pair of the path; a failed drawing fails with a TypeError at the pass after its last yield, on a path node with no adjacency list |
| Orchestrator.JoinPrefix | src/lib/functions/algorithm/Algorithm.ts:161 | the join of the first m sub-paths is a prefix of the join of all of them |
| Orchestrator.JunctionRepeats | src/lib/functions/algorithm/Algorithm.ts:161 | when two consecutive segments both found a path, the joined path holds their shared waypoint twice in a row |
| Orchestrator.StrayPath | src/lib/functions/algorithm/Algorithm.ts:148-161 | for waypoints a, b, c on the path a - b - c, the segment walks join to [a, b, b, c] |
| Orchestrator.StrayFind | src/lib/functions/algorithm/Algorithm.ts:180-184 | the `find` for the pair (b, b) returns the first edge of b's list, b - d |
| Orchestrator.StrayJunctionEdge | src/lib/functions/algorithm/Algorithm.ts:161-205 | the pass for the junction (b, b) draws b - d as a final-path edge, although d is not on the path |
| Orchestrator.ReverseNoStutter | src/lib/functions/algorithm/Algorithm.ts:161 | a reversed walk without repeats never puts a node next to itself |
| Orchestrator.JoinedNoStutter | src/lib/functions/algorithm/Algorithm.ts:161 | corrected: joining walks without repeats, with each repeated waypoint dropped, never puts a node next to itself |
| Orchestrator.DrawnEdgeFound | src/lib/functions/algorithm/Algorithm.ts:180-205 | the edge a pass draws as BUILD_PATH_EDGE is the one `find` returns |
| Orchestrator.FoundBetween | src/lib/functions/algorithm/Algorithm.ts:180-184 | in the list of a node whose id differs from `to`'s, the edge `find` returns lies between the two nodes |
| Orchestrator.CorrectedPassEdges | src/lib/functions/algorithm/Algorithm.ts:169-205 | corrected: over the corrected join, on a graph whose nodes have distinct ids, every edge that pass i draws lies between that pass's two consecutive path nodes |
| Editor.Put | src/lib/functions/Canvas.ts:359 | `Map.set` maps the id to the element; a new id goes last in key order, an existing id keeps its place; the registry stays consistent |
| Editor.PutAll | src/lib/functions/Canvas.ts:358-361 | after adding, every added id and every old id is in the registry, which stays consistent |
| Editor.Drop | src/lib/functions/Canvas.ts:375 | `Map.delete` removes exactly that id and keeps the registry consistent |
| Editor.DropAll | src/lib/functions/Canvas.ts:369-380 | the registry loses exactly the ids of the deleted elements, gains none, and stays consistent |
| Editor.Values | src/lib/functions/Canvas.ts:363 | `Array.from(elements.values())` lists the stored element of each key, in key order |
| Editor.ValuesAreStored | src/lib/functions/Canvas.ts:363 | the values are exactly the stored elements, each once |
| Editor.InsertZPerm | src/lib/functions/Canvas.ts:363-365 | inserting an element into the z order adds exactly that element |
| Editor.InsertZSorted | src/lib/functions/Canvas.ts:363-365 | inserting into a z-sorted list keeps it z-sorted |
| Editor.SortedSnoc | src/lib/functions/Canvas.ts:363-365 | an element with z no lower than the last can go at the end |
| Editor.SortByZSpec | src/lib/functions/Canvas.ts:363-365 | the sort by z orders the list by z and is a permutation of it |
| Editor.SortByZSorted | src/lib/functions/Canvas.ts:363-365 | the sort by z orders the list by z |
| Editor.SortByZPerm | src/lib/functions/Canvas.ts:363-365 | the sort by z keeps exactly the list's elements |
| Editor.ListIsStore | src/lib/functions/Canvas.ts:363-365 | the rebuilt element list holds exactly the stored elements, one per id, in z order |
| Editor.LastWins | src/lib/functions/Canvas.ts:358-361 | when several added elements share an id, the last one wins |
| Editor.ValuesPutFresh | src/lib/functions/Canvas.ts:359-363 | an element with a new id goes to the end of `elements.values()` |
| Editor.ValuesAgree | src/lib/functions/Canvas.ts:363 | the values depend only on the entries of the listed keys |
| Editor.PutAllFresh | src/lib/functions/Canvas.ts:357-366 | adding elements whose ids are distinct and new appends them, in order, to `elements.values()` |
| Editor.PutAllKeys | src/lib/functions/Canvas.ts:358-361 | after adding, the registry holds only its old ids and those of the added elements |
| Editor.DropPut | src/lib/functions/Canvas.ts:357-381 | deleting an element just added under a new id gives the registry back |
| Editor.SelectStep | src/lib/functions/Canvas.ts:222-247 | the old selection becomes the previous one; selecting the selected element again deselects it, clears its flag and emits one deselect event; otherwise the old selection, if any, is deselected with its flag cleared and its deselect event first, and the new element, if any, is selected, flagged and announced last with the old selection as previous; no other flag changes |
| Editor.DeselectStep | src/lib/functions/Canvas.ts:249-260 | nothing stays selected, and the old selection becomes the previous one; it loses its flag and gets a deselect event, if there was one |
| Editor.ReleaseStep | src/lib/functions/Canvas.ts:200-209 | the state changes exactly when the previous and the current selection are the same element, which is then deselected with one event; the previous selection is kept |
| Editor.SetStep | src/lib/functions/Canvas.ts:399-410 | the new element is selected and flagged, the old selection becomes the previous one and keeps its flag, only the flag of the former previous selection is cleared, and no event is emitted |
| Editor.SelectToggles | src/lib/functions/Canvas.ts:222-247 | selecting an element twice from an empty selection leaves nothing selected, with that element as the previous selection and without its flag |
| Editor.SelectNothingDeselects | src/lib/functions/Canvas.ts:218-260 | a press on no element, `selectElement(undefined)`, has the same effect as deselectElement |
| Editor.SelectThenReleaseKeeps | src/lib/functions/Canvas.ts:184-209 | a release straight after the press that called selectElement never deselects |
| Editor.LastHit | src/lib/functions/Canvas.ts:166-173 | the index of the last listed element the hit test accepts, or -1 when none does |
| Editor.Canvas.constructor | src/lib/functions/Canvas.ts:18-49 | an empty registry and element list, with no selection and no flags |
| Editor.Canvas.AddElements | src/lib/functions/Canvas.ts:357-366 | the registry becomes `PutAll` of the old one, and the element list is rebuilt as its values in z order |
| Editor.Canvas.DeleteElements | src/lib/functions/Canvas.ts:368-381 | as written: with no elements nothing changes; otherwise the first element's id leaves the registry and its selection and flag go if it was selected, then the call fails with a TypeError, with the other elements still registered and the element list not rebuilt |
| Editor.Canvas.DeleteOne | src/lib/functions/Canvas.ts:370-379 | one turn as written: the id leaves the registry, the element is unselected and unflagged only if it was selected, and `element.onDelete()` is a TypeError |
| Editor.Canvas.RemoveElements | src/lib/functions/Canvas.ts:368-381 | corrected: the registry loses the ids of all the deleted elements, a selected one among them loses its selection and flag, the previous selection stays, and the element list is the remaining registry in z order |
| Editor.Canvas.RemoveOne | src/lib/functions/Canvas.ts:370-380 | corrected turn: the id leaves the registry, the element is unselected only if it was selected, and the list is rebuilt |
| Editor.StaleAfterDelete | src/lib/functions/Canvas.ts:363-376 | an element whose id leaves the registry is still in the list built before, and would be gone from a list rebuilt after, so the list the failing delete leaves is stale |
| Editor.Canvas.SelectElement | src/lib/functions/Canvas.ts:222-247 | the selection and the events of `SelectStep` |
| Editor.Canvas.DeselectElement | src/lib/functions/Canvas.ts:249-260 | the selection and the events of `DeselectStep` |
| Editor.Canvas.HandleMouseReleased | src/lib/functions/Canvas.ts:200-209 | the selection and the events of `ReleaseStep` |
| Editor.Canvas.SetSelected | src/lib/functions/Canvas.ts:399-410 | the selection of `SetStep`; the registry and the element list are untouched, so a listed canvas stays listed |
| Editor.Canvas.HoverElement | src/lib/functions/Canvas.ts:165-182 | exactly the last listed element the hit test accepts is hovering afterwards, no other listed element is, unlisted elements keep their flag, and a hover event is emitted only when an element was hit |
| NetworkEditor.MakeNodes | src/lib/functions/NetworkGraphCanvas.ts:31-40 | node i is built for input node i: object number base + i, z 1, the input's id or, when that is empty, the uuid of its object number, and the input's position with radius 2, fill "yellow" and dragging on |
| NetworkEditor.FirstWithId | src/lib/functions/NetworkGraphCanvas.ts:44-45 | `find` by id: the first node carrying the id, or -1 exactly when no node carries it |
| NetworkEditor.MakeEdge | src/lib/functions/NetworkGraphCanvas.ts:43-55 | an edge element exists exactly when both endpoint ids are found, and it joins the first node with each id |
| NetworkEditor.Resolve | src/lib/functions/NetworkGraphCanvas.ts:42-56 | the unresolvable edges are filtered out, so there are at most as many edge elements as input edges, and each is an edge; `EdgesRoundTrip` and `ResolveIds` give the exact list when every edge resolves |
| NetworkEditor.ExportCount | src/lib/functions/NetworkGraphCanvas.ts:195-216 | `toJSON` exports every element once, as a node or as an edge |
| NetworkEditor.Export | src/lib/functions/NetworkGraphCanvas.ts:195-216 | neither exported list is longer than the element list; `ExportCount`, `ExportAppend` and `RoundTrip` give the exact export |
| NetworkEditor.ExportAppend | src/lib/functions/NetworkGraphCanvas.ts:196-214 | the export of two lists joined is the two exports joined, nodes and edges each in order |
| NetworkEditor.NodesRoundTrip | src/lib/functions/NetworkGraphCanvas.ts:31-40 | node elements built from input nodes with non-empty ids export as exactly those input nodes, and as no edge |
| NetworkEditor.HeadResolves | src/lib/functions/NetworkGraphCanvas.ts:43-55 | an input edge whose endpoint ids are both present becomes an edge element that exports as that input edge |
| NetworkEditor.EdgesRoundTrip | src/lib/functions/NetworkGraphCanvas.ts:42-56 | when every input edge names present ids, no edge is filtered out, the edge elements export as exactly the input edges, and the i-th gets the i-th uuid |
| NetworkEditor.ResolveIds | src/lib/functions/NetworkGraphCanvas.ts:42-56 | when no edge is filtered out, the i-th edge element gets the uuid of the i-th object number |
| NetworkEditor.RoundTrip | src/lib/functions/NetworkGraphCanvas.ts:195-216 | `toJSON` on a freshly constructed canvas gives back its input, for input nodes with distinct non-empty ids, resolvable edges and fresh edge uuids |
| NetworkEditor.BuiltExport | src/lib/functions/NetworkGraphCanvas.ts:31-56 | under those conditions the built nodes then edges export as the input, and all their ids are distinct |
| NetworkEditor.BuiltJson | src/lib/functions/NetworkGraphCanvas.ts:31-56 | the built nodes then edges export as the input when the ids are non-empty and the edges resolvable |
| NetworkEditor.EdgesExport | src/lib/functions/NetworkGraphCanvas.ts:42-56 | the resolved edges export as the input edges and as no node |
| NetworkEditor.BuiltIds | src/lib/functions/NetworkGraphCanvas.ts:31-56 | the built nodes have distinct ids, the built edges too, and no edge shares a node's id |
| NetworkEditor.ResolvedIds | src/lib/functions/NetworkGraphCanvas.ts:42-56 | nodes carrying the distinct input ids and the fresh edge uuids give distinct ids throughout |
| NetworkEditor.EdgeIds | src/lib/functions/NetworkGraphCanvas.ts:42-56 | with resolvable input edges, one edge element per input edge, the i-th with the i-th uuid |
| NetworkEditor.NodeIds | src/lib/functions/NetworkGraphCanvas.ts:31-40 | one node per input node, carrying the input's non-empty id |
| NetworkEditor.ElementIds | src/lib/functions/NetworkGraphCanvas.ts:31-56 | input ids that are distinct plus fresh, distinct edge uuids give distinct ids over nodes and edges |
| NetworkEditor.ExportJoined | src/lib/functions/NetworkGraphCanvas.ts:195-216 | a node part that exports only nodes followed by an edge part that exports only edges exports as both |
| NetworkEditor.StoredValues | src/lib/functions/NetworkGraphCanvas.ts:58-59 | adding the nodes and then the edges, all with distinct ids, makes `elements.values()` exactly the nodes then the edges |
| NetworkEditor.NotStored | src/lib/functions/NetworkGraphCanvas.ts:58-59 | after the nodes are added, no edge id is yet in the registry |
| NetworkEditor.Without | src/lib/functions/NetworkGraphCanvas.ts:115 | `filter((x) => x !== el)` keeps exactly the other elements |
| NetworkEditor.WithoutAppended | src/lib/functions/NetworkGraphCanvas.ts:111-116 | filtering out an element just pushed, and found nowhere before, gives the list back |
| NetworkEditor.IndexOf | src/lib/functions/NetworkGraphCanvas.ts:178-180 | `indexOf`: the first position of the element, or -1 exactly when it is absent |
| NetworkEditor.Splice | src/lib/functions/NetworkGraphCanvas.ts:178-180 | `splice(start, 1)` cuts out the element at the start index, counted from the end when negative and clamped at 0, and nothing when past the end |
| NetworkEditor.SpliceIndexOf | src/lib/functions/NetworkGraphCanvas.ts:177-181 | the splice of the delete key, reached with the corrected delete, removes the selected element from a list holding it once; for an element not in the list, it removes the list's last element |
| NetworkEditor.FirstJoining | src/lib/functions/NetworkGraphCanvas.ts:148-155 | the first edge joining the two nodes in either direction, or -1 exactly when none does |
| NetworkEditor.LinkAddedOnce | src/lib/functions/NetworkGraphCanvas.ts:140-166 | after the selection handler joined two nodes, selecting the pair again, in either order, adds no further edge |
| NetworkEditor.ClickUndone | src/lib/functions/NetworkGraphCanvas.ts:185-191 | with the corrected delete, undoing a click's entries, newest first, gives the registry and the node and edge lists back |
| NetworkEditor.PutOne | src/lib/functions/NetworkGraphCanvas.ts:109 | `addElement(el)` with one element is one `Map.set` |
| NetworkEditor.DropOne | src/lib/functions/NetworkGraphCanvas.ts:114 | `deleteElement(el)` with one element is one `Map.delete` |
| NetworkEditor.Populated | src/lib/functions/NetworkGraphCanvas.ts:58-59 | a new canvas holding the nodes and then the edges, with nothing selected or flagged |
| NetworkEditor.NetworkGraphCanvas.constructor | src/lib/functions/NetworkGraphCanvas.ts:26-59 | the node list is the built nodes, the edge list the resolvable edges, the undo stack is empty, and the canvas registry holds the nodes and then the edges |
| NetworkEditor.NetworkGraphCanvas.CanvasClick | src/lib/functions/NetworkGraphCanvas.ts:99-138 | a new node joins the canvas and the node list, with its removal on the undo stack; when the previous selection is a node, an edge from it joins the canvas and the edge list, with its removal on the stack after the node's; the new node becomes the selection through the setter; the element list is rebuilt as the registry in z order |
| NetworkEditor.NetworkGraphCanvas.AddLinkedNode | src/lib/functions/NetworkGraphCanvas.ts:109-134 | the node and then the edge join the canvas and their lists, and their removals the undo stack in that order; the element list is rebuilt as the registry in z order |
| NetworkEditor.NetworkGraphCanvas.AddNode | src/lib/functions/NetworkGraphCanvas.ts:109-116 | the node joins the canvas and the node list, and its removal the undo stack; the element list is rebuilt as the registry in z order |
| NetworkEditor.NetworkGraphCanvas.AddEdge | src/lib/functions/NetworkGraphCanvas.ts:122-134 | the edge joins the canvas and the edge list, and its removal the undo stack; the element list is rebuilt as the registry in z order |
| NetworkEditor.NetworkGraphCanvas.OnSelectElement | src/lib/functions/NetworkGraphCanvas.ts:140-168 | an edge between two distinct nodes that no edge joins yet is added to the canvas and the edge list, with no undo entry, and the element list is rebuilt as the registry in z order; otherwise nothing changes |
| NetworkEditor.NetworkGraphCanvas.Select | src/lib/functions/Canvas.ts:222-247 | the selection and events of the canvas's `selectElement`, plus the edge the handler adds when a new node is selected after another node; the element list is rebuilt when that edge is added and kept otherwise |
| NetworkEditor.NetworkGraphCanvas.Undo | src/lib/functions/NetworkGraphCanvas.ts:185-191 | as written: an empty stack changes nothing; otherwise the newest entry is popped, its element is unselected and leaves the registry, and the delete fails with a TypeError, so the element list, `#nodes` and `#edges` keep the element |
| NetworkEditor.NetworkGraphCanvas.UndoIntended | src/lib/functions/NetworkGraphCanvas.ts:185-191 | corrected: the newest entry is popped and its element leaves the registry, the selection, the element list and `#nodes` or `#edges`, the other list untouched; an empty stack changes nothing |
| NetworkEditor.NetworkGraphCanvas.DeleteSelected | src/lib/functions/NetworkGraphCanvas.ts:170-182 | as written: with nothing selected nothing changes; otherwise the selected element leaves the registry, the selection and the flags, and the delete fails with a TypeError before the splice, so the lists keep it |
| NetworkEditor.NetworkGraphCanvas.DeleteSelectedIntended | src/lib/functions/NetworkGraphCanvas.ts:170-182 | corrected: the selected element leaves the registry, the selection, the flags and the element list, and its own list, nodes or edges, is spliced at its `indexOf`, the other list untouched; with nothing selected nothing changes |
| NetworkEditor.NetworkGraphCanvas.Escape | src/lib/functions/NetworkGraphCanvas.ts:183-184 | the selection of setting `selectedElement` to null |

## Left out

- `delay` and `downloadJson` (`utility.ts:1-14`): a timer and a DOM download, which are I/O.
- `rainbowColor` (`utility.ts:49-61`): it is built on `Math.sin` and floating point.
- Rendering, `Canvas.setup`, p5 and the DOM key and mouse wiring: input wiring and drawing. The handlers the wiring calls are modelled as methods called directly: `CanvasClick`, `Select`, `DeleteSelected`, `Escape` and `Undo`.
- `Canvas.zoom`, `dragElement`, `dragScreen`, `startDragging` and `stopDragging`: floating-point view transforms.
- `handleMousePress`: the screen-to-world conversion and the hit test. The press itself is modelled as `NetworkEditor.NetworkGraphCanvas.Select` with the pressed element (or none) as a parameter, and `canvasClick` as `CanvasClick`.
- `handleCanvasClick`: it only emits a `canvasClick` without a previous selection, and the wiring that calls it is not modelled.
- `newElement` and `setConfig`: configuration and element construction.
- `makeChangeStateAction` is not part of this model. A style change is an opaque value, so nothing is claimed about what its perform and undo do to an element's state bag. The orchestrator's reset wrapper is modelled by the order in which it performs and undoes actions.
- The element classes (`Element.ts`, `NodeElement.ts`, `EdgeElement.ts`, `PolygonElement.ts`) are not part of this model. Elements are records. `el.canvas` and the float geometry of `isInside` are left out, and the hit test is a parameter. Model elements are nodes and edges, whose classes do not define `onDelete`, so a call to it is a TypeError. Polygons, whose class defines it, are not modelled.
- `Math.hypot` is replaced by an abstract natural-valued distance, and `Infinity` is a distinct `Dist` value that absorbs addition.
- The `@datastructures-js` priority queue is not part of this model. It is a multiset whose extract-min picks any entry of least priority.
- Generators are not resumed step by step. Each becomes one method that returns the whole trace of its yields, and a consumer that stops early is not modelled.
- The listeners the event emitter calls are identities. What they do is not modelled.
- Object identity and `uuid()` are parameters (`obj`, `uuid`) supplied by the caller.
- The style table has no STATELESS entries (`styles.ts:3-61`). The model keeps that absence as a style change with no entry.
- The library sort is modelled as a stable insertion sort by z. The standard has required `Array.prototype.sort` to be stable since ES2019, so ties keep their registry order as in the model.
- `NetworkEditor.NetworkGraphCanvas.DeleteSelectedIntended` keeps a deleted node's edges in the canvas and the edge list, as the source would if the delete did not fail.
- `NetworkEditor.SpliceIndexOf`: states the removal for a list that holds the element once. A list holding it twice loses only the first copy, and that case is not stated.
- `Events.EventEmitter.Unsubscribe`: a closure for a key that is missing yields a TypeError. That cannot happen for a closure `on` returned, because keys are never removed.
- `NetworkEditor.RoundTrip`: states the round trip only under these conditions: the input node ids are distinct and non-empty, every edge resolves, and the uuids for the edges are fresh. Otherwise the export differs from the input, as the source's does.
- `Search.ShowProcessed`: states only that the progress counters are kept, not the exact actions of the final processing pass.
- `DijkstraSearch.ShowPath`: states only that the search state stays valid. The drawn-path actions are those of `Engine.Algorithm.ShowCurrentPath`, which carries the path contract.
- `AStarSearch.ShowPath`: states only that the search state stays valid, for the same reason as `DijkstraSearch.ShowPath`.
- `AStarSearch.ProcessGenerator`: its contract is the constant error it always returns.
- `increaseBrightness`: the model computes with the exact real percentage `(cnt / pathCount) * 100 * 0.5`. Floating-point rounding of the percentage and of the channel arithmetic is left out.
- `makeAlphabetID`, `makeColor` and `byte2Hex` are modelled on integers only; non-integer numbers are left out.
- `DijkstraSearch.Process`: states only the first two actions of the list. The later actions are not stated one by one.
- `AStarSearch.Process`: states only the first two actions of the list, for the same reason.
- `Search.ProcessGenerator`: states how many progress records there are and what the last one counts. The visited-node count of the last record can lag behind, because a visited node with an empty adjacency list adds no record.
- The graph each search holds is fixed after construction. Nothing in the core changes it, and the adjacency order is never randomised.
- The svelte stores, `types.ts`, `template.ts` and the configuration files are not part of this model: they hold no logic of the core.

## Findings

| source | as written | input that shows it | evidently intended | confidence | as-written member | corrected member |
|---|---|---|---|---|---|---|
| src/lib/functions/Canvas.ts:376 | `element.onDelete()` is called on every deleted element, but neither `NodeElement` nor `EdgeElement` (nor their base `Element`) defines it, so for a node or an edge the call throws a TypeError. The element list is not rebuilt, and the other elements are not deleted. | Ctrl+Z after a canvas click: the new node leaves the registry but stays in the element list and in `#nodes`, so it is still drawn and still hit-tested. | `onDelete` is an optional hook: the id leaves the registry and the element list is rebuilt after each element, as lines 377-379 intend. | not executed | Editor.Canvas.DeleteElements | Editor.Canvas.RemoveElements |
| src/lib/functions/algorithm/Algorithm.ts:161 | `path.push(...subPath.reverse())` joins the segment walks whole, so each junction waypoint appears twice in a row. The pass for that pair (b, b) then draws the first edge in b's list that `find` returns as a path edge. | Waypoints a, b, c on the path a - b - c, with the edge b - d listed first in b's adjacency list. The joined path is [a, b, b, c], and the (b, b) pass draws b - d as a path edge although d is not on the path. | The junction waypoint is dropped when the segments are joined, so every drawn path edge lies between two consecutive path nodes. | not executed | Orchestrator.StrayJunctionEdge | Orchestrator.CorrectedPassEdges |

For the delete, `Editor.StaleAfterDelete` shows that the element list the failing delete leaves still holds an element that is no longer registered. `NetworkEditor.NetworkGraphCanvas.UndoIntended` and `NetworkEditor.NetworkGraphCanvas.DeleteSelectedIntended` are the handlers over the corrected delete.

The process model (`Orchestrator.StartGenerator`) keeps the join as written. `Orchestrator.JunctionRepeats` shows that the repetition happens whenever two adjacent segments both find a path. The corrected join `Orchestrator.Joined` has no repeated neighbours (`Orchestrator.JoinedNoStutter`), and on it every drawn path edge joins the pass's two nodes (`Orchestrator.CorrectedPassEdges`).
