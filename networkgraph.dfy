/** `NetworkGraphCanvas.ts`: a canvas holding a street network.  It builds
    node and edge elements from JSON-like input, exports them back, adds
    nodes and edges in response to clicks and selections, and keeps an undo
    stack of the elements it added.  A new element's object identity and
    its uuid are parameters: the constructor numbers its objects from
    `base` and asks `uuid` for the id of an element that has none. */
module NetworkEditor {
  import opened Common
  import opened Editor

  /** A node of the input and of `toJSON`'s output. */
  datatype NodeData = NodeData(id: string, x: real, y: real)

  /** An edge of the input and of `toJSON`'s output, by endpoint ids. */
  datatype EdgeData = EdgeData(source: string, target: string)

  /** `NetworkGraphCanvasConfig`. */
  datatype GraphData = GraphData(nodes: seq<NodeData>, edges: seq<EdgeData>)

  /** An entry of `#actionStack`: the closure removing the element it names. */
  datatype UndoEntry = RemoveNode(node: Element) | RemoveEdge(edge: Element)

  predicate IsNode(e: Element) {
    e.shape.NodeShape?
  }

  // ---------------------------------------------------------------------------
  // Construction and export
  // ---------------------------------------------------------------------------

  /** `new NodeElement({id, x, y, radius: 2, fill: "yellow", draggable: true})`:
      an empty id is replaced by a uuid; the z is the node default, 1. */
  function MakeNode(d: NodeData, obj: nat, uuid: nat -> string): Element {
    Element(obj, if d.id != "" then d.id else uuid(obj), 1, NodeShape(d.x, d.y, 2, "yellow", true))
  }

  /** `config.nodes.map(...)`, lines 31-40. */
  function MakeNodes(ds: seq<NodeData>, base: nat, uuid: nat -> string): (r: seq<Element>)
    ensures |r| == |ds|
    ensures forall i :: 0 <= i < |ds| ==>
              r[i].obj == base + i && r[i].z == 1
              && r[i].id == (if ds[i].id != "" then ds[i].id else uuid(base + i))
              && r[i].shape == NodeShape(ds[i].x, ds[i].y, 2, "yellow", true)
  {
    seq(|ds|, i requires 0 <= i < |ds| => MakeNode(ds[i], base + i, uuid))
  }

  /** `nodes.find((node) => node.id === id)`: the index of the first node with the id, or -1. */
  function FirstWithId(nodes: seq<Element>, id: string): (k: int)
    ensures -1 <= k < |nodes|
    ensures k >= 0 ==> nodes[k].id == id && forall j :: 0 <= j < k ==> nodes[j].id != id
    ensures k == -1 ==> forall j :: 0 <= j < |nodes| ==> nodes[j].id != id
  {
    if nodes == [] then -1
    else if nodes[0].id == id then 0
    else
      var k := FirstWithId(nodes[1..], id);
      if k == -1 then -1 else k + 1
  }

  /** The edge element for `e` when both endpoint ids are found, with object
      number `obj`; its id is always a uuid and its z the default, 0. */
  function MakeEdge(nodes: seq<Element>, e: EdgeData, obj: nat, uuid: nat -> string): (r: Option<Element>)
    ensures r.Some? <==> FirstWithId(nodes, e.source) >= 0 && FirstWithId(nodes, e.target) >= 0
    ensures r.Some? ==> r.value == Element(obj, uuid(obj), 0,
                          EdgeShape(nodes[FirstWithId(nodes, e.source)], nodes[FirstWithId(nodes, e.target)]))
  {
    var s, t := FirstWithId(nodes, e.source), FirstWithId(nodes, e.target);
    if s >= 0 && t >= 0 then Some(Element(obj, uuid(obj), 0, EdgeShape(nodes[s], nodes[t]))) else None
  }

  /** `config.edges.map(...).filter((edge) => edge !== null)`, lines 42-56;
      the i-th input edge gets object number `base + i`. */
  function Resolve(nodes: seq<Element>, es: seq<EdgeData>, base: nat, uuid: nat -> string): (r: seq<Element>)
    ensures |r| <= |es|
    ensures forall i :: 0 <= i < |r| ==> r[i].shape.EdgeShape?
  {
    if es == [] then []
    else
      var head := MakeEdge(nodes, es[0], base, uuid);
      (if head.Some? then [head.value] else []) + Resolve(nodes, es[1..], base + 1, uuid)
  }

  /** `nodes.map((node) => ({id, x, y}))` over the node elements. */
  function NodesJson(els: seq<Element>): (r: seq<NodeData>)
    ensures |r| <= |els|
  {
    if els == [] then []
    else
      var e := els[0];
      (if e.shape.NodeShape? then [NodeData(e.id, e.shape.x, e.shape.y)] else []) + NodesJson(els[1..])
  }

  /** `edges.map((edge) => ({source: source.id, target: target.id}))` over the edge elements. */
  function EdgesJson(els: seq<Element>): (r: seq<EdgeData>)
    ensures |r| <= |els|
  {
    if els == [] then []
    else
      var e := els[0];
      (if e.shape.EdgeShape? then [EdgeData(e.shape.source.id, e.shape.target.id)] else []) + EdgesJson(els[1..])
  }

  /** toJSON(), lines 195-216, applied to `Array.from(elements.values())`. */
  function Export(els: seq<Element>): (r: GraphData)
    ensures |r.nodes| <= |els| && |r.edges| <= |els|
  {
    GraphData(NodesJson(els), EdgesJson(els))
  }

  /** Every element is exported once, as a node or as an edge. */
  lemma {:induction false} ExportCount(els: seq<Element>)
    ensures |Export(els).nodes| + |Export(els).edges| == |els|
  {
    if els != [] {
      ExportCount(els[1..]);
    }
  }

  // ---------------------------------------------------------------------------
  // The lists and the delete key
  // ---------------------------------------------------------------------------

  /** `list.filter((x) => x !== el)`. */
  function Without(s: seq<Element>, el: Element): (r: seq<Element>)
    ensures el !in r
    ensures forall x :: x in r <==> x in s && x != el
  {
    if s == [] then []
    else if s[0] == el then Without(s[1..], el)
    else [s[0]] + Without(s[1..], el)
  }

  /** `list.indexOf(el)`: the first index of `el`, or -1. */
  function IndexOf(s: seq<Element>, el: Element): (k: int)
    ensures -1 <= k < |s|
    ensures k >= 0 ==> s[k] == el && el !in s[..k]
    ensures k == -1 <==> el !in s
  {
    if s == [] then -1
    else if s[0] == el then 0
    else
      var k := IndexOf(s[1..], el);
      assert k >= 0 ==> s[1..][..k] == s[1..k + 1];
      if k == -1 then -1 else k + 1
  }

  /** `list.splice(start, 1)`: a negative start counts from the end and is
      clamped at 0; a start at or past the end removes nothing. */
  function Splice(s: seq<Element>, start: int): (r: seq<Element>)
    ensures var p := if start < 0 then (if |s| + start < 0 then 0 else |s| + start) else start;
            if p < |s| then r == s[..p] + s[p + 1..] else r == s
  {
    var p := if start < 0 then (if |s| + start < 0 then 0 else |s| + start) else start;
    if p < |s| then s[..p] + s[p + 1..] else s
  }

  // ---------------------------------------------------------------------------
  // Edges created on selection
  // ---------------------------------------------------------------------------

  /** The edge element `e` joins `a` and `b`, in either direction. */
  predicate Joins(e: Element, a: Element, b: Element) {
    e.shape.EdgeShape? && ((e.shape.source == a && e.shape.target == b) || (e.shape.source == b && e.shape.target == a))
  }

  /** Some edge of the list joins `a` and `b`. */
  predicate Linked(edges: seq<Element>, a: Element, b: Element) {
    exists i :: 0 <= i < |edges| && Joins(edges[i], a, b)
  }

  /** `#edges.find(...)`, lines 148-155: the first edge joining the two, or -1. */
  function FirstJoining(edges: seq<Element>, a: Element, b: Element): (k: int)
    ensures -1 <= k < |edges|
    ensures k >= 0 ==> Joins(edges[k], a, b) && forall j :: 0 <= j < k ==> !Joins(edges[j], a, b)
    ensures k == -1 <==> !Linked(edges, a, b)
  {
    if edges == [] then -1
    else if Joins(edges[0], a, b) then 0
    else
      var k := FirstJoining(edges[1..], a, b);
      assert k == -1 ==> forall j :: 1 <= j < |edges| ==> !Joins(edges[j], a, b) by {
        if k == -1 {
          forall j | 1 <= j < |edges|
            ensures !Joins(edges[j], a, b)
          {
            assert edges[j] == edges[1..][j - 1];
          }
        }
      }
      if k == -1 then -1 else k + 1
  }

  /** The guard of the `selectElement` handler, lines 141-157: two distinct
      nodes that no edge of the list joins. */
  predicate NewLink(edges: seq<Element>, element: Option<Element>, previous: Option<Element>) {
    element.Some? && IsNode(element.value) && previous.Some? && IsNode(previous.value)
    && element.value != previous.value && !Linked(edges, previous.value, element.value)
  }

  /** The edge a canvas click or a selection adds, from `source` to `target`, at z 0. */
  function NewEdge(obj: nat, id: string, source: Element, target: Element): Element {
    Element(obj, id, 0, EdgeShape(source, target))
  }

  /** The node a canvas click adds: radius 2, z 1, draggable, and the
      NodeElement default fill "#000" since the click gives none. */
  function ClickedNode(x: real, y: real, obj: nat, id: string): Element {
    Element(obj, id, 1, NodeShape(x, y, 2, "#000", true))
  }

  /** The edge a canvas click adds from the previous selection to the new node. */
  function ClickEdge(previous: Element, x: real, y: real, obj: nat, id: string, edgeObj: nat, edgeId: string): Element {
    NewEdge(edgeObj, edgeId, previous, ClickedNode(x, y, obj, id))
  }

  class NetworkGraphCanvas {
    /** The canvas this one extends. */
    const canvas: Canvas
    /** `#nodes`. */
    var nodes: seq<Element>
    /** `#edges`. */
    var edges: seq<Element>
    /** `#actionStack`, newest last. */
    var actionStack: seq<UndoEntry>

    ghost predicate Valid()
      reads this, canvas
    {
      canvas.Valid()
    }

    /** The constructor, lines 26-59: the nodes in input order, the
        resolvable edges in input order, both added to the canvas. */
    constructor (config: GraphData, base: nat, uuid: nat -> string)
      ensures Valid() && canvas.Listed()
      ensures nodes == MakeNodes(config.nodes, base, uuid)
      ensures edges == Resolve(nodes, config.edges, base + |config.nodes|, uuid)
      ensures actionStack == []
      ensures canvas.store == PutAll(PutAll(Store([], map[]), nodes), edges)
      ensures canvas.selected.None? && canvas.previous.None? && canvas.flagged == {} && canvas.hovering == {}
    {
      var ns := MakeNodes(config.nodes, base, uuid);
      var es := Resolve(ns, config.edges, base + |config.nodes|, uuid);
      var c := Populated(ns, es);
      assert c.Listed() && c.store == PutAll(PutAll(Store([], map[]), ns), es);
      canvas := c;
      nodes, edges := ns, es;
      actionStack := [];
    }

    /** The `canvasClick` handler, lines 99-138: a new node at the point,
        an edge to it from the previous selection when that is a node, an
        undo entry for each, and the new node selected through the setter.
        `obj`/`id` are the new node's identity and uuid, `edgeObj`/`edgeId`
        the new edge's. */
    method CanvasClick(x: real, y: real, previousSelected: Option<Element>,
                       obj: nat, id: string, edgeObj: nat, edgeId: string)
      requires Valid()
      modifies this, canvas`store, canvas`elementList, canvas`selected, canvas`previous, canvas`flagged
      ensures Valid() && canvas.Listed()
      ensures nodes == old(nodes) + [ClickedNode(x, y, obj, id)]
      ensures canvas.Sel() == SetStep(old(canvas.Sel()), Some(ClickedNode(x, y, obj, id)))
      ensures previousSelected.Some? && IsNode(previousSelected.value) ==>
                canvas.store == Put(Put(old(canvas.store), ClickedNode(x, y, obj, id)), ClickEdge(previousSelected.value, x, y, obj, id, edgeObj, edgeId))
                && edges == old(edges) + [ClickEdge(previousSelected.value, x, y, obj, id, edgeObj, edgeId)]
                && actionStack == old(actionStack) + [RemoveNode(ClickedNode(x, y, obj, id))]
                                  + [RemoveEdge(ClickEdge(previousSelected.value, x, y, obj, id, edgeObj, edgeId))]
      ensures !(previousSelected.Some? && IsNode(previousSelected.value)) ==>
                canvas.store == Put(old(canvas.store), ClickedNode(x, y, obj, id))
                && edges == old(edges)
                && actionStack == old(actionStack) + [RemoveNode(ClickedNode(x, y, obj, id))]
    {
      var node := ClickedNode(x, y, obj, id);
      if previousSelected.Some? && IsNode(previousSelected.value) {
        AddLinkedNode(node, ClickEdge(previousSelected.value, x, y, obj, id, edgeObj, edgeId));
      } else {
        AddNode(node);
      }
      canvas.SetSelected(Some(node));
    }

    /** Lines 109-134 when the previous selection is a node: the node, then the edge to it. */
    method AddLinkedNode(node: Element, edge: Element)
      requires Valid()
      modifies this`nodes, this`edges, this`actionStack, canvas`store, canvas`elementList
      ensures Valid() && canvas.Listed()
      ensures canvas.store == Put(Put(old(canvas.store), node), edge)
      ensures nodes == old(nodes) + [node] && edges == old(edges) + [edge]
      ensures actionStack == old(actionStack) + [RemoveNode(node)] + [RemoveEdge(edge)]
    {
      nodes, edges := nodes + [node], edges + [edge];
      actionStack := actionStack + [RemoveNode(node)] + [RemoveEdge(edge)];
      canvas.AddElements([node]);
      PutOne(old(canvas.store), node);
      canvas.AddElements([edge]);
      PutOne(Put(old(canvas.store), node), edge);
    }

    /** Lines 109-116: the node joins the canvas and the list, and its removal the undo stack. */
    method AddNode(node: Element)
      requires Valid()
      modifies this`nodes, this`actionStack, canvas`store, canvas`elementList
      ensures Valid() && canvas.Listed()
      ensures canvas.store == Put(old(canvas.store), node)
      ensures nodes == old(nodes) + [node] && actionStack == old(actionStack) + [RemoveNode(node)]
    {
      nodes, actionStack := nodes + [node], actionStack + [RemoveNode(node)];
      canvas.AddElements([node]);
      PutOne(old(canvas.store), node);
    }

    /** Lines 122-134: the edge joins the canvas and the list, and its removal the undo stack. */
    method AddEdge(edge: Element)
      requires Valid()
      modifies this`edges, this`actionStack, canvas`store, canvas`elementList
      ensures Valid() && canvas.Listed()
      ensures canvas.store == Put(old(canvas.store), edge)
      ensures edges == old(edges) + [edge] && actionStack == old(actionStack) + [RemoveEdge(edge)]
    {
      edges, actionStack := edges + [edge], actionStack + [RemoveEdge(edge)];
      canvas.AddElements([edge]);
      PutOne(old(canvas.store), edge);
    }

    /** The `selectElement` handler, lines 140-168: an edge from the
        previous selection to the new one, only under `NewLink`; it gets
        no undo entry. */
    method OnSelectElement(element: Option<Element>, previous: Option<Element>, edgeObj: nat, edgeId: string)
      requires Valid()
      modifies this`edges, canvas`store, canvas`elementList
      ensures Valid()
      ensures NewLink(old(edges), element, previous) ==>
                var edge := NewEdge(edgeObj, edgeId, previous.value, element.value);
                edges == old(edges) + [edge] && canvas.store == Put(old(canvas.store), edge) && canvas.Listed()
      ensures !NewLink(old(edges), element, previous) ==>
                edges == old(edges) && canvas.store == old(canvas.store) && canvas.elementList == old(canvas.elementList)
    {
      if element.Some? && IsNode(element.value) && previous.Some? && IsNode(previous.value)
         && element.value != previous.value
      {
        if FirstJoining(edges, previous.value, element.value) == -1 {
          var edge := NewEdge(edgeObj, edgeId, previous.value, element.value);
          canvas.AddElements([edge]);
          PutOne(old(canvas.store), edge);
          edges := edges + [edge];
        }
      }
    }

    /** A press on an element (or on nothing): `selectElement`, then the
        listener above when it emitted `selectElement`. */
    method Select(element: Option<Element>, edgeObj: nat, edgeId: string) returns (emitted: seq<Emitted>)
      requires Valid()
      modifies this`edges, canvas`store, canvas`elementList, canvas`selected, canvas`previous, canvas`flagged
      ensures Valid()
      ensures (canvas.Sel(), emitted) == SelectStep(old(canvas.Sel()), element)
      ensures var added := old(canvas.selected) != element && NewLink(old(edges), element, old(canvas.selected));
              if added then
                var edge := NewEdge(edgeObj, edgeId, old(canvas.selected).value, element.value);
                edges == old(edges) + [edge] && canvas.store == Put(old(canvas.store), edge) && canvas.Listed()
              else edges == old(edges) && canvas.store == old(canvas.store) && canvas.elementList == old(canvas.elementList)
    {
      var previous := canvas.selected;
      emitted := canvas.SelectElement(element);
      if previous != element && element.Some? {
        OnSelectElement(element, previous, edgeObj, edgeId);
      }
    }

    /** Ctrl+Z, lines 185-191 with the closures of lines 113-116 and
        131-134, as written: the newest entry leaves the stack, and its
        element is unselected and leaves the registry; then `deleteElement`
        throws (see `Editor.Canvas.DeleteElements`), so the canvas list and
        `#nodes` / `#edges` keep the element.  An empty stack changes nothing. */
    method Undo() returns (err: Option<Error>)
      requires Valid()
      modifies this`actionStack, canvas`store, canvas`selected, canvas`flagged
      ensures Valid()
      ensures nodes == old(nodes) && edges == old(edges) && canvas.elementList == old(canvas.elementList)
      ensures old(actionStack) == [] ==>
                err.None? && actionStack == []
                && canvas.store == old(canvas.store) && canvas.Sel() == old(canvas.Sel())
      ensures old(actionStack) != [] ==>
                var top := old(actionStack)[|old(actionStack)| - 1];
                var el := if top.RemoveNode? then top.node else top.edge;
                err == Some(TypeError)
                && actionStack == old(actionStack)[..|old(actionStack)| - 1]
                && canvas.store == Drop(old(canvas.store), el.id)
                && Unselected(old(canvas.Sel()), canvas.Sel(), [el])
    {
      err := None;
      if actionStack == [] {
        return;
      }
      var top := actionStack[|actionStack| - 1];
      actionStack := actionStack[..|actionStack| - 1];
      match top {
        case RemoveNode(node) =>
          err := canvas.DeleteElements([node]);
        case RemoveEdge(edge) =>
          err := canvas.DeleteElements([edge]);
      }
    }

    /** Ctrl+Z with the deletion as intended (`Editor.Canvas.RemoveElements`):
        the newest entry leaves the stack and its element leaves the canvas,
        its list and `#nodes` or `#edges`. */
    method UndoIntended()
      requires Valid() && canvas.Listed()
      modifies this`actionStack, this`nodes, this`edges, canvas`store, canvas`elementList, canvas`selected, canvas`flagged
      ensures Valid() && canvas.Listed()
      ensures old(actionStack) == [] ==>
                actionStack == [] && nodes == old(nodes) && edges == old(edges)
                && canvas.store == old(canvas.store) && canvas.Sel() == old(canvas.Sel())
      ensures old(actionStack) != [] ==>
                var top := old(actionStack)[|old(actionStack)| - 1];
                var el := if top.RemoveNode? then top.node else top.edge;
                actionStack == old(actionStack)[..|old(actionStack)| - 1]
                && canvas.store == Drop(old(canvas.store), el.id)
                && Unselected(old(canvas.Sel()), canvas.Sel(), [el])
                && (top.RemoveNode? ==> nodes == Without(old(nodes), el) && edges == old(edges))
                && (top.RemoveEdge? ==> edges == Without(old(edges), el) && nodes == old(nodes))
    {
      if actionStack == [] {
        return;
      }
      var top := actionStack[|actionStack| - 1];
      actionStack := actionStack[..|actionStack| - 1];
      match top {
        case RemoveNode(node) =>
          canvas.RemoveElements([node]);
          nodes := Without(nodes, node);
        case RemoveEdge(edge) =>
          canvas.RemoveElements([edge]);
          edges := Without(edges, edge);
      }
      DropOne(old(canvas.store), if top.RemoveNode? then top.node else top.edge);
    }

    /** Delete or Backspace, lines 171-182, as written: the selected element
        is unselected and leaves the registry, then `deleteElement` throws,
        so the splice of lines 177-181 is never reached. */
    method DeleteSelected() returns (err: Option<Error>)
      requires Valid()
      modifies canvas`store, canvas`selected, canvas`flagged
      ensures Valid()
      ensures nodes == old(nodes) && edges == old(edges) && canvas.elementList == old(canvas.elementList)
      ensures old(canvas.selected).None? ==>
                err.None? && canvas.store == old(canvas.store) && canvas.Sel() == old(canvas.Sel())
      ensures old(canvas.selected).Some? ==>
                var el := old(canvas.selected).value;
                err == Some(TypeError)
                && canvas.store == Drop(old(canvas.store), el.id)
                && canvas.selected.None? && canvas.flagged == old(canvas.flagged) - {el}
    {
      err := None;
      var selectedElement := canvas.selected;
      if selectedElement.Some? {
        err := canvas.DeleteElements([selectedElement.value]);
      }
    }

    /** Delete or Backspace with the deletion as intended: the selected
        element leaves the canvas and is spliced out of its list at `indexOf`. */
    method DeleteSelectedIntended()
      requires Valid() && canvas.Listed()
      modifies this`nodes, this`edges, canvas`store, canvas`elementList, canvas`selected, canvas`flagged
      ensures Valid() && canvas.Listed()
      ensures old(canvas.selected).None? ==>
                nodes == old(nodes) && edges == old(edges) && canvas.store == old(canvas.store)
                && canvas.Sel() == old(canvas.Sel())
      ensures old(canvas.selected).Some? ==>
                var el := old(canvas.selected).value;
                canvas.store == Drop(old(canvas.store), el.id)
                && canvas.selected.None? && canvas.flagged == old(canvas.flagged) - {el}
                && (IsNode(el) ==> nodes == Splice(old(nodes), IndexOf(old(nodes), el)) && edges == old(edges))
                && (!IsNode(el) ==> edges == Splice(old(edges), IndexOf(old(edges), el)) && nodes == old(nodes))
    {
      var selectedElement := canvas.selected;
      if selectedElement.Some? {
        var el := selectedElement.value;
        canvas.RemoveElements([el]);
        DropOne(old(canvas.store), el);
        if IsNode(el) {
          nodes := Splice(nodes, IndexOf(nodes, el));
        } else {
          edges := Splice(edges, IndexOf(edges, el));
        }
      }
    }

    /** Escape, lines 183-184: `selectedElement = null`. */
    method Escape()
      modifies canvas`selected, canvas`previous, canvas`flagged
      ensures canvas.Sel() == SetStep(old(canvas.Sel()), None)
    {
      canvas.SetSelected(None);
    }
  }

  /** A new canvas with `addElement(...nodes)` and then `addElement(...edges)` done. */
  method Populated(nodes: seq<Element>, edges: seq<Element>) returns (c: Canvas)
    ensures fresh(c) && c.Listed()
    ensures c.store == PutAll(PutAll(Store([], map[]), nodes), edges)
    ensures c.selected.None? && c.previous.None? && c.flagged == {} && c.hovering == {}
  {
    c := new Canvas();
    c.AddElements(nodes);
    ghost var withNodes := c.store;
    assert withNodes == PutAll(Store([], map[]), nodes);
    assert c.selected.None? && c.previous.None? && c.flagged == {} && c.hovering == {};
    c.AddElements(edges);
    assert c.store == PutAll(withNodes, edges);
  }

  /** Adding one element is putting it. */
  lemma PutOne(s: Store, el: Element)
    ensures PutAll(s, [el]) == Put(s, el)
  {
    assert [el][..0] == [];
  }

  /** Deleting one element is dropping its id. */
  lemma DropOne(s: Store, el: Element)
    ensures DropAll(s, [el]) == Drop(s, el.id)
  {
    assert [el][..0] == [];
  }

  // ---------------------------------------------------------------------------
  // Properties
  // ---------------------------------------------------------------------------

  /** Exporting a concatenation exports its parts in order. */
  lemma {:induction false} ExportAppend(a: seq<Element>, b: seq<Element>)
    ensures NodesJson(a + b) == NodesJson(a) + NodesJson(b)
    ensures EdgesJson(a + b) == EdgesJson(a) + EdgesJson(b)
  {
    if a != [] {
      assert (a + b)[0] == a[0];
      assert (a + b)[1..] == a[1..] + b;
      ExportAppend(a[1..], b);
      var e := a[0];
      SeqAssoc(if e.shape.NodeShape? then [NodeData(e.id, e.shape.x, e.shape.y)] else [], NodesJson(a[1..]), NodesJson(b));
      SeqAssoc(if e.shape.EdgeShape? then [EdgeData(e.shape.source.id, e.shape.target.id)] else [], EdgesJson(a[1..]), EdgesJson(b));
    } else {
      assert a + b == b;
    }
  }

  lemma SeqAssoc<T>(a: seq<T>, b: seq<T>, c: seq<T>)
    ensures a + (b + c) == (a + b) + c
  {
  }

  /** The nodes export as their input: ids all non-empty. */
  lemma {:induction false} NodesRoundTrip(ds: seq<NodeData>, base: nat, uuid: nat -> string)
    requires forall i :: 0 <= i < |ds| ==> ds[i].id != ""
    ensures NodesJson(MakeNodes(ds, base, uuid)) == ds
    ensures EdgesJson(MakeNodes(ds, base, uuid)) == []
  {
    if ds != [] {
      var ns := MakeNodes(ds, base, uuid);
      assert ns[1..] == MakeNodes(ds[1..], base + 1, uuid);
      NodesRoundTrip(ds[1..], base + 1, uuid);
      assert ds == [ds[0]] + ds[1..];
    }
  }

  /** Some input node has the id. */
  predicate HasId(ds: seq<NodeData>, id: string) {
    exists i :: 0 <= i < |ds| && ds[i].id == id
  }

  /** Every input edge's endpoint ids name nodes. */
  predicate Resolvable(ds: seq<NodeData>, es: seq<EdgeData>) {
    forall k :: 0 <= k < |es| ==> HasId(ds, es[k].source) && HasId(ds, es[k].target)
  }

  /** An edge whose endpoint ids name nodes becomes an edge element with the
      uuid, and exports as itself. */
  lemma HeadResolves(ds: seq<NodeData>, nodes: seq<Element>, e: EdgeData, obj: nat, uuid: nat -> string)
    requires |nodes| == |ds| && forall i :: 0 <= i < |ds| ==> nodes[i].id == ds[i].id
    requires HasId(ds, e.source) && HasId(ds, e.target)
    ensures MakeEdge(nodes, e, obj, uuid).Some?
    ensures MakeEdge(nodes, e, obj, uuid).value.id == uuid(obj)
    ensures EdgesJson([MakeEdge(nodes, e, obj, uuid).value]) == [e]
    ensures NodesJson([MakeEdge(nodes, e, obj, uuid).value]) == []
  {
    var i :| 0 <= i < |ds| && ds[i].id == e.source;
    var j :| 0 <= j < |ds| && ds[j].id == e.target;
    assert nodes[i].id == e.source && nodes[j].id == e.target;
    var v := MakeEdge(nodes, e, obj, uuid).value;
    assert [v][1..] == [];
  }

  lemma ResolvableTail(ds: seq<NodeData>, es: seq<EdgeData>)
    requires es != [] && Resolvable(ds, es)
    ensures Resolvable(ds, es[1..]) && HasId(ds, es[0].source) && HasId(ds, es[0].target)
  {
    forall k | 0 <= k < |es| - 1
      ensures HasId(ds, es[1..][k].source) && HasId(ds, es[1..][k].target)
    {
      assert es[1..][k] == es[k + 1];
    }
  }

  /** The resolved edges export as their input, and none of them as a node. */
  lemma {:induction false} EdgesRoundTrip(ds: seq<NodeData>, nodes: seq<Element>, es: seq<EdgeData>, base: nat, uuid: nat -> string)
    requires |nodes| == |ds| && forall i :: 0 <= i < |ds| ==> nodes[i].id == ds[i].id
    requires Resolvable(ds, es)
    ensures |Resolve(nodes, es, base, uuid)| == |es|
    ensures EdgesJson(Resolve(nodes, es, base, uuid)) == es
    ensures NodesJson(Resolve(nodes, es, base, uuid)) == []
    ensures forall i :: 0 <= i < |es| ==> Resolve(nodes, es, base, uuid)[i].id == uuid(base + i)
  {
    if es != [] {
      ResolvableTail(ds, es);
      HeadResolves(ds, nodes, es[0], base, uuid);
      EdgesRoundTrip(ds, nodes, es[1..], base + 1, uuid);
      var head := MakeEdge(nodes, es[0], base, uuid).value;
      var rest := Resolve(nodes, es[1..], base + 1, uuid);
      assert Resolve(nodes, es, base, uuid) == [head] + rest;
      ExportAppend([head], rest);
      assert es == [es[0]] + es[1..];
    }
    ResolveIds(nodes, es, base, uuid);
  }

  /** When every input edge resolved, the i-th edge has the uuid of object `base + i`. */
  lemma {:induction false} ResolveIds(nodes: seq<Element>, es: seq<EdgeData>, base: nat, uuid: nat -> string)
    requires |Resolve(nodes, es, base, uuid)| == |es|
    ensures forall i :: 0 <= i < |es| ==> Resolve(nodes, es, base, uuid)[i].id == uuid(base + i)
  {
    if es != [] {
      var head := MakeEdge(nodes, es[0], base, uuid);
      var rest := Resolve(nodes, es[1..], base + 1, uuid);
      assert head.Some?;
      ResolveIds(nodes, es[1..], base + 1, uuid);
      var r := Resolve(nodes, es, base, uuid);
      assert r == [head.value] + rest;
      forall i | 0 <= i < |es|
        ensures r[i].id == uuid(base + i)
      {
        if i == 0 {
          assert r[0] == head.value;
          assert head.value.id == uuid(base);
        } else {
          assert r[i] == rest[i - 1];
          assert rest[i - 1].id == uuid(base + 1 + (i - 1));
        }
      }
    }
  }

  /** The uuids the constructor asks for its edges, in input order. */
  function EdgeUuids(g: GraphData, base: nat, uuid: nat -> string): (r: seq<string>)
    ensures |r| == |g.edges| && forall i :: 0 <= i < |g.edges| ==> r[i] == uuid(base + |g.nodes| + i)
  {
    seq(|g.edges|, i requires 0 <= i < |g.edges| => uuid(base + |g.nodes| + i))
  }

  /** No string occurs twice. */
  predicate Distinct(us: seq<string>) {
    forall i, j :: 0 <= i < j < |us| ==> us[i] != us[j]
  }

  /** No string of `us` is the id of a node of `ds`. */
  predicate Apart(us: seq<string>, ds: seq<NodeData>) {
    forall i, n :: 0 <= i < |us| && 0 <= n < |ds| ==> us[i] != ds[n].id
  }

  /** The edge uuids differ from each other and from the node ids. */
  predicate FreshEdgeIds(g: GraphData, base: nat, uuid: nat -> string) {
    Distinct(EdgeUuids(g, base, uuid)) && Apart(EdgeUuids(g, base, uuid), g.nodes)
  }

  /** toJSON after the constructor gives the constructor's input back, when
      the node ids are non-empty and distinct, every edge names existing
      nodes, and the edge uuids are distinct from each other and from the
      node ids.  `nodes`, `edges` and the registry `s` are those the
      constructor's postcondition states. */
  lemma RoundTrip(g: GraphData, base: nat, uuid: nat -> string, nodes: seq<Element>, edges: seq<Element>, s: Store)
    requires forall i :: 0 <= i < |g.nodes| ==> g.nodes[i].id != ""
    requires forall i, j :: 0 <= i < j < |g.nodes| ==> g.nodes[i].id != g.nodes[j].id
    requires Resolvable(g.nodes, g.edges)
    requires FreshEdgeIds(g, base, uuid)
    requires nodes == MakeNodes(g.nodes, base, uuid)
    requires edges == Resolve(nodes, g.edges, base + |g.nodes|, uuid)
    requires s == PutAll(PutAll(Store([], map[]), nodes), edges)
    ensures StoreOK(s) && Export(Values(s)) == g
  {
    BuiltExport(g, base, uuid, nodes, edges);
    StoredValues(nodes, edges, s);
  }

  /** The elements the constructor builds export as its input, in the order
      nodes then edges, and no two of them share an id. */
  lemma BuiltExport(g: GraphData, base: nat, uuid: nat -> string, nodes: seq<Element>, edges: seq<Element>)
    requires forall i :: 0 <= i < |g.nodes| ==> g.nodes[i].id != ""
    requires forall i, j :: 0 <= i < j < |g.nodes| ==> g.nodes[i].id != g.nodes[j].id
    requires Resolvable(g.nodes, g.edges)
    requires FreshEdgeIds(g, base, uuid)
    requires nodes == MakeNodes(g.nodes, base, uuid)
    requires edges == Resolve(nodes, g.edges, base + |g.nodes|, uuid)
    ensures Export(nodes + edges) == g
    ensures DistinctIds(nodes) && DistinctIds(edges) && Separate(nodes, edges)
  {
    BuiltJson(g, base, uuid, nodes, edges);
    BuiltIds(g, base, uuid, nodes, edges);
  }

  lemma BuiltJson(g: GraphData, base: nat, uuid: nat -> string, nodes: seq<Element>, edges: seq<Element>)
    requires forall i :: 0 <= i < |g.nodes| ==> g.nodes[i].id != ""
    requires Resolvable(g.nodes, g.edges)
    requires nodes == MakeNodes(g.nodes, base, uuid)
    requires edges == Resolve(nodes, g.edges, base + |g.nodes|, uuid)
    ensures Export(nodes + edges) == g
  {
    NodesRoundTrip(g.nodes, base, uuid);
    NodeIds(g.nodes, base, uuid);
    EdgesExport(g.nodes, nodes, g.edges, base + |g.nodes|, uuid, edges);
    ExportJoined(g, nodes, edges);
  }

  /** The resolved edges export as the input edges and none as a node. */
  lemma EdgesExport(ds: seq<NodeData>, nodes: seq<Element>, es: seq<EdgeData>, base: nat, uuid: nat -> string, edges: seq<Element>)
    requires |nodes| == |ds| && forall i :: 0 <= i < |ds| ==> nodes[i].id == ds[i].id
    requires Resolvable(ds, es)
    requires edges == Resolve(nodes, es, base, uuid)
    ensures EdgesJson(edges) == es && NodesJson(edges) == []
  {
    EdgesRoundTrip(ds, nodes, es, base, uuid);
  }

  lemma BuiltIds(g: GraphData, base: nat, uuid: nat -> string, nodes: seq<Element>, edges: seq<Element>)
    requires forall i :: 0 <= i < |g.nodes| ==> g.nodes[i].id != ""
    requires forall i, j :: 0 <= i < j < |g.nodes| ==> g.nodes[i].id != g.nodes[j].id
    requires Resolvable(g.nodes, g.edges)
    requires FreshEdgeIds(g, base, uuid)
    requires nodes == MakeNodes(g.nodes, base, uuid)
    requires edges == Resolve(nodes, g.edges, base + |g.nodes|, uuid)
    ensures DistinctIds(nodes) && DistinctIds(edges) && Separate(nodes, edges)
  {
    NodeIds(g.nodes, base, uuid);
    ResolvedIds(g, base, uuid, nodes, edges);
  }

  /** When the nodes keep the input ids, the edges resolved against them
      and the nodes share no id. */
  lemma ResolvedIds(g: GraphData, base: nat, uuid: nat -> string, nodes: seq<Element>, edges: seq<Element>)
    requires |nodes| == |g.nodes| && forall n :: 0 <= n < |g.nodes| ==> nodes[n].id == g.nodes[n].id
    requires forall i, j :: 0 <= i < j < |g.nodes| ==> g.nodes[i].id != g.nodes[j].id
    requires Resolvable(g.nodes, g.edges)
    requires FreshEdgeIds(g, base, uuid)
    requires edges == Resolve(nodes, g.edges, base + |g.nodes|, uuid)
    ensures DistinctIds(nodes) && DistinctIds(edges) && Separate(nodes, edges)
  {
    EdgeIds(g.nodes, nodes, g.edges, base + |g.nodes|, uuid);
    ElementIds(g, base, uuid, nodes, edges);
  }

  /** Every input edge resolves; the i-th gets the uuid of object `base + i`. */
  lemma EdgeIds(ds: seq<NodeData>, nodes: seq<Element>, es: seq<EdgeData>, base: nat, uuid: nat -> string)
    requires |nodes| == |ds| && forall i :: 0 <= i < |ds| ==> nodes[i].id == ds[i].id
    requires Resolvable(ds, es)
    ensures |Resolve(nodes, es, base, uuid)| == |es|
    ensures forall i :: 0 <= i < |es| ==> Resolve(nodes, es, base, uuid)[i].id == uuid(base + i)
  {
    EdgesRoundTrip(ds, nodes, es, base, uuid);
  }

  /** The node elements keep the input ids when none is empty. */
  lemma NodeIds(ds: seq<NodeData>, base: nat, uuid: nat -> string)
    requires forall i :: 0 <= i < |ds| ==> ds[i].id != ""
    ensures |MakeNodes(ds, base, uuid)| == |ds|
    ensures forall n :: 0 <= n < |ds| ==> MakeNodes(ds, base, uuid)[n].id == ds[n].id
  {
  }

  /** No edge has the id of a node. */
  predicate Separate(ns: seq<Element>, es: seq<Element>) {
    forall i, n :: 0 <= i < |es| && 0 <= n < |ns| ==> es[i].id != ns[n].id
  }

  /** Nodes with the input's distinct ids and edges with distinct uuids that
      no node has: no two elements share an id. */
  lemma ElementIds(g: GraphData, base: nat, uuid: nat -> string, nodes: seq<Element>, edges: seq<Element>)
    requires |nodes| == |g.nodes| && forall n :: 0 <= n < |g.nodes| ==> nodes[n].id == g.nodes[n].id
    requires forall i, j :: 0 <= i < j < |g.nodes| ==> g.nodes[i].id != g.nodes[j].id
    requires |edges| == |g.edges| && forall i :: 0 <= i < |g.edges| ==> edges[i].id == uuid(base + |g.nodes| + i)
    requires FreshEdgeIds(g, base, uuid)
    ensures DistinctIds(nodes) && DistinctIds(edges) && Separate(nodes, edges)
  {
    var us := EdgeUuids(g, base, uuid);
    assert forall i :: 0 <= i < |edges| ==> edges[i].id == us[i];
  }

  /** Nodes that export as the input's nodes, followed by edges that export
      as its edges, export as the input. */
  lemma ExportJoined(g: GraphData, ns: seq<Element>, es: seq<Element>)
    requires NodesJson(ns) == g.nodes && EdgesJson(ns) == []
    requires NodesJson(es) == [] && EdgesJson(es) == g.edges
    ensures Export(ns + es) == g
  {
    ExportAppend(ns, es);
  }

  /** Adding nodes and then edges, no two with the same id, to an empty
      registry lists them in that order. */
  lemma StoredValues(ns: seq<Element>, es: seq<Element>, s: Store)
    requires DistinctIds(ns) && DistinctIds(es) && Separate(ns, es)
    requires s == PutAll(PutAll(Store([], map[]), ns), es)
    ensures StoreOK(s) && Values(s) == ns + es
  {
    var empty := Store([], map[]);
    PutAllFresh(empty, ns);
    assert Values(empty) == [];
    assert Values(PutAll(empty, ns)) == ns;
    assert StoreOK(empty);
    assert StoreOK(PutAll(empty, ns));
    NotStored(ns, es);
    PutAllFresh(PutAll(empty, ns), es);
  }

  /** The registry of the nodes holds no edge id. */
  lemma NotStored(ns: seq<Element>, es: seq<Element>)
    requires Separate(ns, es)
    ensures forall i :: 0 <= i < |es| ==> es[i].id !in PutAll(Store([], map[]), ns).byId
  {
    PutAllKeys(Store([], map[]), ns);
  }

  /** Undoing the entries a click pushed, newest first, gives the registry
      and the lists back, when the new ids were not in the registry and the
      new elements not in the lists. */
  lemma ClickUndone(s: Store, nodes: seq<Element>, edges: seq<Element>, node: Element, edge: Element)
    requires StoreOK(s) && node.id !in s.byId && node !in nodes
    ensures Drop(Put(s, node), node.id) == s && Without(nodes + [node], node) == nodes
    ensures edge.id !in s.byId && edge.id != node.id && edge !in edges ==>
              Drop(Drop(Put(Put(s, node), edge), edge.id), node.id) == s
              && Without(edges + [edge], edge) == edges
  {
    DropPut(s, node);
    WithoutAppended(nodes, node);
    if edge.id !in s.byId && edge.id != node.id && edge !in edges {
      DropPut(Put(s, node), edge);
      WithoutAppended(edges, edge);
    }
  }

  lemma {:induction false} WithoutAppended(s: seq<Element>, el: Element)
    requires el !in s
    ensures Without(s + [el], el) == s
  {
    if s == [] {
      assert [el][1..] == [];
    } else {
      assert (s + [el])[1..] == s[1..] + [el];
      WithoutAppended(s[1..], el);
    }
  }

  /** The delete key removes the selected element from a list that holds
      it once; when the element is not in the list, `indexOf` gives -1 and
      `splice(-1, 1)` removes the list's last element instead. */
  lemma SpliceIndexOf(s: seq<Element>, el: Element)
    ensures el in s && NoDup(s) ==> Splice(s, IndexOf(s, el)) == Remove(s, el)
    ensures el !in s && s != [] ==> Splice(s, IndexOf(s, el)) == s[..|s| - 1]
  {
    if el in s && NoDup(s) {
      var k := IndexOf(s, el);
      assert el !in s[k + 1..] by {
        forall j | k + 1 <= j < |s|
          ensures s[j] != el
        {
          assert s[k] == el;
        }
      }
      RemoveAt(s, el, k);
    }
  }

  /** Removing `x`, found only at `k`, cuts index `k` out. */
  lemma {:induction false} RemoveAt<T>(s: seq<T>, x: T, k: nat)
    requires k < |s| && s[k] == x && x !in s[..k] && x !in s[k + 1..]
    ensures Remove(s, x) == s[..k] + s[k + 1..]
  {
    if k == 0 {
      RemoveAbsent(s[1..], x);
      assert s[..0] + s[1..] == s[1..];
    } else {
      assert s[0] == s[..k][0];
      assert s[1..][..k - 1] == s[1..k];
      assert s[1..][k..] == s[k + 1..];
      RemoveAt(s[1..], x, k - 1);
      assert s[..k] == [s[0]] + s[1..][..k - 1];
    }
  }

  /** Once the selection handler added an edge between two nodes, selecting
      the same pair again, in either order, adds no other. */
  lemma LinkAddedOnce(edges: seq<Element>, a: Element, b: Element, obj: nat, id: string)
    requires NewLink(edges, Some(b), Some(a))
    ensures !NewLink(edges + [NewEdge(obj, id, a, b)], Some(b), Some(a))
    ensures !NewLink(edges + [NewEdge(obj, id, a, b)], Some(a), Some(b))
  {
    var es := edges + [NewEdge(obj, id, a, b)];
    assert Joins(es[|edges|], a, b) && Joins(es[|edges|], b, a);
  }
}
