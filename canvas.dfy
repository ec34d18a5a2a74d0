/** `Canvas.ts`: the element registry of the editor, ordered by z, its
    selection state machine and the choice of the hovered element.  Elements
    are records known by their object identity `obj` (what `===` compares);
    the `selected` and `hovering` flags of their `state` objects are kept by
    the canvas as the sets of elements whose flag is true.  Emitting an event
    is modelled by returning it: the listeners run after the method. */
module Editor {
  import opened Common

  /** A node element (position and the style the constructors set) or an edge element between two nodes. */
  datatype Shape =
    | NodeShape(x: real, y: real, radius: nat, fill: string, draggable: bool)
    | EdgeShape(source: Element, target: Element)

  /** An element: identity, id, `state.z` and its shape. */
  datatype Element = Element(obj: nat, id: string, z: int, shape: Shape)

  /** The events the canvas emits to its listeners. */
  datatype Emitted =
    | DeselectEvent(element: Element)
    | SelectEvent(element: Element, previous: Option<Element>)
    | HoverEvent(element: Element)

  // ---------------------------------------------------------------------------
  // The element registry
  // ---------------------------------------------------------------------------

  /** `#elements`: a `Map` from id to element; `order` is its key order. */
  datatype Store = Store(order: seq<string>, byId: map<string, Element>)

  ghost predicate StoreOK(s: Store) {
    NoDup(s.order) && Elems(s.order) == s.byId.Keys && forall k :: k in s.byId ==> s.byId[k].id == k
  }

  /** `elements.set(el.id, el)`: a new id goes last, an existing id keeps its
      place and gets the new element. */
  function Put(s: Store, el: Element): (r: Store)
    ensures StoreOK(s) ==> StoreOK(r)
    ensures r.byId == s.byId[el.id := el]
    ensures el.id in s.byId && StoreOK(s) ==> r.order == s.order
    ensures el.id !in s.byId && StoreOK(s) ==> r.order == s.order + [el.id]
  {
    Store(Add(s.order, el.id), s.byId[el.id := el])
  }

  function PutAll(s: Store, els: seq<Element>): (r: Store)
    ensures StoreOK(s) ==> StoreOK(r)
    ensures forall e :: e in els ==> e.id in r.byId
    ensures forall k :: k in s.byId ==> k in r.byId
  {
    if els == [] then s else Put(PutAll(s, els[..|els| - 1]), els[|els| - 1])
  }

  /** `elements.delete(id)`. */
  function Drop(s: Store, id: string): (r: Store)
    ensures StoreOK(s) ==> StoreOK(r)
    ensures r.byId == s.byId - {id}
  {
    Store(Remove(s.order, id), s.byId - {id})
  }

  /** `Array.from(elements.values())`, in key order. */
  function Values(s: Store): (r: seq<Element>)
    requires Elems(s.order) <= s.byId.Keys
    ensures |r| == |s.order|
    ensures forall i {:trigger r[i]} :: 0 <= i < |r| ==> r[i] == s.byId[s.order[i]]
    decreases |s.order|
  {
    if s.order == [] then []
    else
      var init := Store(s.order[..|s.order| - 1], s.byId);
      assert Elems(init.order) <= Elems(s.order) by {
        assert forall x :: x in init.order ==> x in s.order;
      }
      Values(init) + [s.byId[s.order[|s.order| - 1]]]
  }

  /** The stored elements, each once. */
  lemma ValuesAreStored(s: Store)
    requires StoreOK(s)
    ensures forall k :: k in s.byId ==> s.byId[k] in Values(s)
    ensures forall x :: x in Values(s) ==> x.id in s.byId && s.byId[x.id] == x
    ensures NoDup(Values(s))
  {
    var v := Values(s);
    forall k | k in s.byId
      ensures s.byId[k] in v
    {
      assert k in Elems(s.order);
      var i :| 0 <= i < |s.order| && s.order[i] == k;
      assert v[i] == s.byId[k];
    }
    forall i, j | 0 <= i < j < |v|
      ensures v[i] != v[j]
    {
      assert v[i].id == s.order[i] && v[j].id == s.order[j];
    }
  }

  // ---------------------------------------------------------------------------
  // The z order: `sort((a, b) => a.state.z - b.state.z)`
  // ---------------------------------------------------------------------------

  predicate ZSorted(s: seq<Element>) {
    forall i, j :: 0 <= i < j < |s| ==> s[i].z <= s[j].z
  }

  /** `x` placed after the last element of `s` whose z is not above its own. */
  function InsertZ(s: seq<Element>, x: Element): seq<Element> {
    if s == [] then [x]
    else if s[|s| - 1].z <= x.z then s + [x]
    else InsertZ(s[..|s| - 1], x) + [s[|s| - 1]]
  }

  lemma {:induction false} InsertZPerm(s: seq<Element>, x: Element)
    ensures multiset(InsertZ(s, x)) == multiset(s) + multiset{x}
  {
    if s != [] && s[|s| - 1].z > x.z {
      InsertZPerm(s[..|s| - 1], x);
      assert s == s[..|s| - 1] + [s[|s| - 1]];
    }
  }

  lemma {:induction false} InsertZSorted(s: seq<Element>, x: Element)
    requires ZSorted(s)
    ensures ZSorted(InsertZ(s, x))
  {
    if s == [] {
    } else if s[|s| - 1].z <= x.z {
      SortedSnoc(s, x);
    } else {
      var init, last := s[..|s| - 1], s[|s| - 1];
      InsertZSorted(init, x);
      InsertZPerm(init, x);
      var r0 := InsertZ(init, x);
      forall i | 0 <= i < |r0|
        ensures r0[i].z <= last.z
      {
        assert r0[i] in multiset(r0);
        assert r0[i] in init || r0[i] == x;
      }
      SortedSnoc(r0, last);
    }
  }

  /** An element not below any of a sorted sequence can go last. */
  lemma SortedSnoc(s: seq<Element>, y: Element)
    requires ZSorted(s)
    requires s != [] ==> s[|s| - 1].z <= y.z
    ensures ZSorted(s + [y])
  {
  }

  /** An insertion sort by z, stable: the model of the library sort. */
  function SortByZ(s: seq<Element>): seq<Element> {
    if s == [] then [] else InsertZ(SortByZ(s[..|s| - 1]), s[|s| - 1])
  }

  /** `sort` by z orders the list by z and keeps its elements. */
  lemma SortByZSpec(s: seq<Element>)
    ensures ZSorted(SortByZ(s))
    ensures multiset(SortByZ(s)) == multiset(s)
  {
    SortByZSorted(s);
    SortByZPerm(s);
  }

  lemma {:induction false} SortByZSorted(s: seq<Element>)
    ensures ZSorted(SortByZ(s))
  {
    if s != [] {
      SortByZSorted(s[..|s| - 1]);
      InsertZSorted(SortByZ(s[..|s| - 1]), s[|s| - 1]);
    }
  }

  lemma {:induction false} SortByZPerm(s: seq<Element>)
    ensures multiset(SortByZ(s)) == multiset(s)
  {
    if s != [] {
      SortByZPerm(s[..|s| - 1]);
      InsertZPerm(SortByZ(s[..|s| - 1]), s[|s| - 1]);
      PopLast(s);
    }
  }

  /** The list `addElement` and `deleteElement` rebuild holds exactly the stored elements, in z order. */
  lemma ListIsStore(s: Store)
    requires StoreOK(s)
    ensures var l := SortByZ(Values(s));
            ZSorted(l) && |l| == |s.byId|
            && (forall x :: x in l <==> x.id in s.byId && s.byId[x.id] == x)
  {
    ValuesAreStored(s);
    SortByZSpec(Values(s));
    var l := SortByZ(Values(s));
    assert |l| == |Values(s)| by {
      assert |multiset(l)| == |multiset(Values(s))|;
    }
    assert |Elems(s.order)| == |s.order| by {
      DistinctCard(s.order);
    }
    forall x
      ensures x in l <==> x.id in s.byId && s.byId[x.id] == x
    {
      assert x in l <==> x in multiset(l);
      assert x in Values(s) <==> x in multiset(Values(s));
    }
  }

  lemma {:induction false} DistinctCard<T>(s: seq<T>)
    requires NoDup(s)
    ensures |Elems(s)| == |s|
  {
    if s != [] {
      var init := s[..|s| - 1];
      assert s == init + [s[|s| - 1]];
      assert Elems(s) == Elems(init) + {s[|s| - 1]};
      assert s[|s| - 1] !in Elems(init);
      DistinctCard(init);
    }
  }

  /** A later element overwrites an earlier one of the same id: after
      `addElement(...els)` each id of `els` holds the last element with that id. */
  lemma {:induction false} LastWins(s: Store, els: seq<Element>, i: nat)
    requires i < |els|
    requires forall j :: i < j < |els| ==> els[j].id != els[i].id
    ensures PutAll(s, els).byId[els[i].id] == els[i]
  {
    if i < |els| - 1 {
      var init := els[..|els| - 1];
      assert forall j :: i < j < |init| ==> init[j] == els[j];
      LastWins(s, init, i);
    }
  }

  /** The ids of `els`, in order. */
  function Ids(els: seq<Element>): (r: seq<string>)
    ensures |r| == |els| && forall i :: 0 <= i < |els| ==> r[i] == els[i].id
  {
    seq(|els|, i requires 0 <= i < |els| => els[i].id)
  }

  /** An element with a new id goes to the end of `elements.values()`. */
  lemma ValuesPutFresh(s: Store, el: Element)
    requires StoreOK(s) && el.id !in s.byId
    ensures Values(Put(s, el)) == Values(s) + [el]
  {
    var t := Put(s, el);
    assert t.order[..|t.order| - 1] == s.order;
    assert forall k :: k in s.order ==> k in s.byId;
    ValuesAgree(s.order, t.byId, s.byId);
  }

  /** `Values` only reads the entries of the listed keys. */
  lemma {:induction false} ValuesAgree(order: seq<string>, m1: map<string, Element>, m2: map<string, Element>)
    requires forall k :: k in order ==> k in m1 && k in m2 && m1[k] == m2[k]
    ensures Values(Store(order, m1)) == Values(Store(order, m2))
  {
    if order != [] {
      var init := order[..|order| - 1];
      assert forall k :: k in init ==> k in order;
      ValuesAgree(init, m1, m2);
    }
  }

  /** No two of `els` share an id. */
  predicate DistinctIds(els: seq<Element>) {
    forall i, j :: 0 <= i < j < |els| ==> els[i].id != els[j].id
  }

  /** Adding elements whose ids are distinct and new appends them, in order,
      to `elements.values()`. */
  lemma {:induction false} PutAllFresh(s: Store, els: seq<Element>)
    requires StoreOK(s) && DistinctIds(els)
    requires forall i :: 0 <= i < |els| ==> els[i].id !in s.byId
    ensures Values(PutAll(s, els)) == Values(s) + els
  {
    if els != [] {
      var init, last := els[..|els| - 1], els[|els| - 1];
      PutAllFresh(s, init);
      LastFresh(s, init, last);
      PopLast(els);
      FreshStep(s, init, last);
    }
  }

  lemma FreshStep(s: Store, init: seq<Element>, last: Element)
    requires StoreOK(s) && last.id !in PutAll(s, init).byId
    requires Values(PutAll(s, init)) == Values(s) + init
    ensures Values(PutAll(s, init + [last])) == Values(s) + (init + [last])
  {
    ValuesPutFresh(PutAll(s, init), last);
    PutAllSnoc(s, init, last);
    SnocAssoc(Values(s), init, last);
  }

  lemma LastFresh(s: Store, init: seq<Element>, last: Element)
    requires last.id !in s.byId
    requires forall k :: 0 <= k < |init| ==> init[k].id != last.id
    ensures last.id !in PutAll(s, init).byId
  {
    PutAllKeys(s, init);
  }

  lemma SnocAssoc<T>(a: seq<T>, b: seq<T>, c: T)
    ensures (a + b) + [c] == a + (b + [c])
  {
  }

  lemma PutAllSnoc(s: Store, init: seq<Element>, last: Element)
    ensures PutAll(s, init + [last]) == Put(PutAll(s, init), last)
  {
    assert (init + [last])[..|init|] == init;
  }

  /** The ids the registry holds after adding `els`: its old ones and those of `els`. */
  lemma {:induction false} PutAllKeys(s: Store, els: seq<Element>)
    ensures forall k :: k in PutAll(s, els).byId ==> k in s.byId || k in Ids(els)
  {
    if els != [] {
      var init := els[..|els| - 1];
      PutAllKeys(s, init);
      forall k | k in Ids(init)
        ensures k in Ids(els)
      {
        var i :| 0 <= i < |init| && Ids(init)[i] == k;
        assert Ids(els)[i] == k;
      }
      assert Ids(els)[|els| - 1] == els[|els| - 1].id;
    }
  }

  /** Deleting an element added to a store that did not have its id gives the store back. */
  lemma DropPut(s: Store, el: Element)
    requires StoreOK(s) && el.id !in s.byId
    ensures Drop(Put(s, el), el.id) == s
  {
    RemoveAppended(s.order, el.id);
    assert s.byId[el.id := el] - {el.id} == s.byId;
  }

  lemma {:induction false} RemoveAppended(s: seq<string>, x: string)
    requires x !in s
    ensures Remove(s + [x], x) == s
  {
    if s == [] {
      assert [x][1..] == [];
    } else {
      assert (s + [x])[1..] == s[1..] + [x];
      RemoveAppended(s[1..], x);
    }
  }

  // ---------------------------------------------------------------------------
  // The selection state machine
  // ---------------------------------------------------------------------------

  /** `#selectedElement`, `#previousSelectedElement`, and the elements whose `state.selected` is true. */
  datatype Selection = Selection(selected: Option<Element>, previous: Option<Element>, flagged: set<Element>)

  /** The selected element carries its flag. */
  predicate SelectedFlagged(s: Selection) {
    s.selected.Some? ==> s.selected.value in s.flagged
  }

  /** selectElement(e), lines 222-247: the old selection becomes the previous
      one and is deselected; selecting the selected element again only
      deselects it; otherwise `e` becomes the selection. */
  function SelectStep(s: Selection, e: Option<Element>): (r: (Selection, seq<Emitted>))
    ensures r.0.previous == s.selected
    ensures SelectedFlagged(s) ==> SelectedFlagged(r.0)
    ensures s.selected.Some? && s.selected == e ==>
              r.0.selected.None? && r.0.flagged == s.flagged - {e.value} && r.1 == [DeselectEvent(e.value)]
    ensures s.selected != e ==> r.0.selected == e
    ensures s.selected != e && e.Some? ==> e.value in r.0.flagged && |r.1| > 0 && r.1[|r.1| - 1] == SelectEvent(e.value, s.selected)
    ensures s.selected.Some? ==> |r.1| > 0 && r.1[0] == DeselectEvent(s.selected.value) && s.selected.value !in r.0.flagged
    ensures s.selected.None? && e.None? ==> r.1 == []
    ensures !(s.selected.Some? && s.selected == e) ==>
              r.1 == (if s.selected.Some? then [DeselectEvent(s.selected.value)] else [])
                     + (if e.Some? then [SelectEvent(e.value, s.selected)] else [])
              && r.0.flagged == (if s.selected.Some? then s.flagged - {s.selected.value} else s.flagged)
                                + (if e.Some? then {e.value} else {})
  {
    var cleared := if s.selected.Some? then s.flagged - {s.selected.value} else s.flagged;
    var out := if s.selected.Some? then [DeselectEvent(s.selected.value)] else [];
    if s.selected.Some? && s.selected == e then (Selection(None, s.selected, cleared), out)
    else if e.Some? then (Selection(e, s.selected, cleared + {e.value}), out + [SelectEvent(e.value, s.selected)])
    else (Selection(None, s.selected, cleared), out)
  }

  /** deselectElement(), lines 249-260. */
  function DeselectStep(s: Selection): (r: (Selection, seq<Emitted>))
    ensures r.0.selected.None? && r.0.previous == s.selected
    ensures s.selected.Some? ==> r.0.flagged == s.flagged - {s.selected.value} && r.1 == [DeselectEvent(s.selected.value)]
    ensures s.selected.None? ==> r.0.flagged == s.flagged && r.1 == []
  {
    if s.selected.Some? then (Selection(None, s.selected, s.flagged - {s.selected.value}), [DeselectEvent(s.selected.value)])
    else (Selection(None, None, s.flagged), [])
  }

  /** handleMouseReleased(), lines 200-209: deselects only when the previous
      and the current selection are the same element; the previous one stays. */
  function ReleaseStep(s: Selection): (r: (Selection, seq<Emitted>))
    ensures SelectedFlagged(s) ==> SelectedFlagged(r.0)
    ensures r.0.previous == s.previous
    ensures r.0 != s <==> s.selected.Some? && s.previous == s.selected
    ensures r.0 != s ==> r.0.selected.None? && r.1 == [DeselectEvent(s.selected.value)]
    ensures r.0 == s ==> r.1 == []
  {
    if s.previous == s.selected && s.selected.Some? then
      (Selection(None, s.previous, s.flagged - {s.selected.value}), [DeselectEvent(s.selected.value)])
    else (s, [])
  }

  /** The `selectedElement` setter, lines 399-410: the previous selection's
      flag is cleared, the current one becomes the previous one (keeping its
      flag) and `e` is selected; no event is emitted. */
  function SetStep(s: Selection, e: Option<Element>): (r: Selection)
    ensures SelectedFlagged(r)
    ensures r.selected == e && r.previous == s.selected
    ensures forall x :: x in r.flagged ==> x in s.flagged || Some(x) == e
    ensures forall x :: x in s.flagged && Some(x) != s.previous ==> x in r.flagged
    ensures s.previous.Some? && e != s.previous ==> s.previous.value !in r.flagged
  {
    var cleared := if s.previous.Some? then s.flagged - {s.previous.value} else s.flagged;
    Selection(e, s.selected, if e.Some? then cleared + {e.value} else cleared)
  }

  /** Selecting an element twice from an empty selection leaves nothing
      selected, the element as the previous selection and its flag cleared. */
  lemma SelectToggles(s: Selection, e: Element)
    requires s.selected.None?
    ensures var s2 := SelectStep(SelectStep(s, Some(e)).0, Some(e)).0;
            s2.selected.None? && s2.previous == Some(e) && e !in s2.flagged
  {
  }

  /** A press elsewhere after a selection (`selectElement(undefined)`) has the
      same effect as deselecting. */
  lemma SelectNothingDeselects(s: Selection)
    ensures SelectStep(s, None) == DeselectStep(s)
  {
  }

  /** A release straight after the press that called `selectElement` never
      deselects: the press either toggled the selection off or left a
      previous selection that differs from the current one. */
  lemma SelectThenReleaseKeeps(s: Selection, e: Option<Element>)
    ensures var s1 := SelectStep(s, e).0;
            ReleaseStep(s1).0 == s1
  {
  }

  // ---------------------------------------------------------------------------
  // Hovering
  // ---------------------------------------------------------------------------

  /** `[...list].reverse().find(hit)`: the index of the last element the hit
      test accepts, or -1. */
  function LastHit(list: seq<Element>, hit: Element -> bool): (r: int)
    ensures -1 <= r < |list|
    ensures r >= 0 ==> hit(list[r])
    ensures forall j :: r < j < |list| ==> !hit(list[j])
  {
    if list == [] then -1
    else if hit(list[|list| - 1]) then |list| - 1
    else LastHit(list[..|list| - 1], hit)
  }

  // ---------------------------------------------------------------------------
  // The canvas
  // ---------------------------------------------------------------------------

  class Canvas {
    var store: Store
    /** `#elementList`. */
    var elementList: seq<Element>
    var selected: Option<Element>
    var previous: Option<Element>
    /** The elements whose `state.selected` is true. */
    var flagged: set<Element>
    /** The elements whose `state.hovering` is true. */
    var hovering: set<Element>

    /** The registry is a consistent id map. */
    ghost predicate Valid()
      reads this`store
    {
      StoreOK(store)
    }

    /** `#elementList` is the registry sorted by z, as `addElement` leaves it. */
    ghost predicate Listed()
      reads this`store, this`elementList
    {
      Valid() && elementList == SortByZ(Values(store))
    }

    function Sel(): Selection
      reads this
    {
      Selection(selected, previous, flagged)
    }

    constructor ()
      ensures Listed() && store == Store([], map[]) && elementList == []
      ensures selected.None? && previous.None? && flagged == {} && hovering == {}
    {
      store := Store([], map[]);
      elementList := [];
      selected, previous := None, None;
      flagged, hovering := {}, {};
    }

    /** addElement(...els), lines 357-366. */
    method AddElements(els: seq<Element>)
      requires Valid()
      modifies this`store, this`elementList
      ensures Listed()
      ensures store == PutAll(old(store), els)
    {
      var i := 0;
      while i < |els|
        invariant 0 <= i <= |els|
        invariant StoreOK(store)
        invariant store == PutAll(old(store), els[..i])
      {
        assert els[..i + 1][..i] == els[..i];
        store := Put(store, els[i]);
        i := i + 1;
      }
      assert els[..i] == els;
      elementList := SortByZ(Values(store));
    }

    /** deleteElement(...els), lines 368-381, as written.  The first element
        loses its selection and its flag and its id leaves the registry; then
        `element.onDelete()` throws a TypeError, because neither NodeElement
        nor EdgeElement defines it, so `#elementList` is not rebuilt and the
        other elements are not deleted. */
    method DeleteElements(els: seq<Element>) returns (err: Option<Error>)
      requires Valid()
      modifies this`store, this`selected, this`flagged
      ensures Valid() && elementList == old(elementList)
      ensures els == [] ==> err.None? && store == old(store) && Sel() == old(Sel())
      ensures els != [] ==>
                err == Some(TypeError) && store == Drop(old(store), els[0].id)
                && Unselected(old(Sel()), Sel(), [els[0]])
    {
      err := None;
      var i := 0;
      while i < |els| && err.None?
        invariant 0 <= i <= |els| && i <= 1
        invariant Valid()
        invariant i == 0 ==> err.None? && store == old(store) && Sel() == old(Sel())
        invariant i == 1 ==>
                    err == Some(TypeError) && store == Drop(old(store), els[0].id)
                    && Unselected(old(Sel()), Sel(), [els[0]])
      {
        err := DeleteOne(els[i]);
        i := i + 1;
      }
    }

    /** One turn of the loop of `deleteElement`, as written: it ends in the
        TypeError of `element.onDelete()`, before the list is rebuilt. */
    method DeleteOne(element: Element) returns (err: Option<Error>)
      requires Valid()
      modifies this`store, this`selected, this`flagged
      ensures Valid()
      ensures err == Some(TypeError)
      ensures store == Drop(old(store), element.id)
      ensures old(selected) == Some(element) ==> selected.None? && flagged == old(flagged) - {element}
      ensures old(selected) != Some(element) ==> selected == old(selected) && flagged == old(flagged)
    {
      if selected == Some(element) {
        flagged := flagged - {element};
        selected := None;
      }
      store := Drop(store, element.id);
      err := Some(TypeError);
    }

    /** deleteElement(...els) as evidently intended, with `onDelete` doing
        nothing: each element is unselected and leaves the registry, and the
        list is rebuilt after each one. */
    method RemoveElements(els: seq<Element>)
      requires Listed()
      modifies this`store, this`elementList, this`selected, this`flagged
      ensures Listed()
      ensures store == DropAll(old(store), els)
      ensures Unselected(old(Sel()), Sel(), els)
    {
      var i := 0;
      while i < |els|
        invariant 0 <= i <= |els|
        invariant Listed()
        invariant store == DropAll(old(store), els[..i])
        invariant Unselected(old(Sel()), Sel(), els[..i])
      {
        TakeStep(els, i);
        RemoveOne(els[i]);
        i := i + 1;
      }
      assert els[..i] == els;
    }

    /** One turn of the intended loop. */
    method RemoveOne(element: Element)
      requires Listed()
      modifies this`store, this`elementList, this`selected, this`flagged
      ensures Listed()
      ensures store == Drop(old(store), element.id)
      ensures old(selected) == Some(element) ==> selected.None? && flagged == old(flagged) - {element}
      ensures old(selected) != Some(element) ==> selected == old(selected) && flagged == old(flagged)
    {
      if selected == Some(element) {
        flagged := flagged - {element};
        selected := None;
      }
      store := Drop(store, element.id);
      elementList := SortByZ(Values(store));
    }

    /** selectElement(e). */
    method SelectElement(e: Option<Element>) returns (emitted: seq<Emitted>)
      modifies this`selected, this`previous, this`flagged
      ensures (Sel(), emitted) == SelectStep(old(Sel()), e)
    {
      previous := selected;
      emitted := [];
      if selected.Some? {
        var current := selected.value;
        emitted := [DeselectEvent(current)];
        var same := Some(current) == e;
        flagged := flagged - {current};
        selected := None;
        if same {
          return;
        }
      }
      selected := e;
      if e.Some? {
        flagged := flagged + {e.value};
        emitted := emitted + [SelectEvent(e.value, previous)];
      }
    }

    /** deselectElement(). */
    method DeselectElement() returns (emitted: seq<Emitted>)
      modifies this`selected, this`previous, this`flagged
      ensures (Sel(), emitted) == DeselectStep(old(Sel()))
    {
      previous := selected;
      emitted := [];
      if selected.Some? {
        emitted := [DeselectEvent(selected.value)];
        flagged := flagged - {selected.value};
      }
      selected := None;
    }

    /** handleMouseReleased(). */
    method HandleMouseReleased() returns (emitted: seq<Emitted>)
      modifies this`selected, this`flagged
      ensures (Sel(), emitted) == ReleaseStep(old(Sel()))
    {
      emitted := [];
      if previous == selected && selected.Some? {
        emitted := [DeselectEvent(selected.value)];
        flagged := flagged - {selected.value};
        selected := None;
      }
    }

    /** The `selectedElement` setter. */
    method SetSelected(e: Option<Element>)
      modifies this`selected, this`previous, this`flagged
      ensures Sel() == SetStep(old(Sel()), e)
      ensures store == old(store) && elementList == old(elementList)
      ensures old(Listed()) ==> Listed()
    {
      if previous.Some? {
        flagged := flagged - {previous.value};
      }
      previous := selected;
      selected := e;
      if e.Some? {
        flagged := flagged + {e.value};
      }
    }

    /** hoverElement(x, y), lines 165-182; `hit` is the hit test at the
        point, converted to canvas coordinates.  Exactly the last listed
        element that the hit test accepts is hovering afterwards, and no
        other listed element is. */
    method HoverElement(hit: Element -> bool) returns (emitted: seq<Emitted>)
      modifies this`hovering
      ensures var k := LastHit(elementList, hit);
              (forall x :: x in elementList ==> (x in hovering <==> k >= 0 && x == elementList[k]))
              && (forall x :: x !in elementList ==> (x in hovering <==> x in old(hovering)))
              && emitted == if k >= 0 then [HoverEvent(elementList[k])] else []
    {
      var k := LastHit(elementList, hit);
      var found: Option<Element> := if k >= 0 then Some(elementList[k]) else None;
      var i := 0;
      while i < |elementList|
        invariant 0 <= i <= |elementList|
        invariant forall x :: x in elementList[..i] ==> (x in hovering <==> Some(x) == found)
        invariant forall x :: x !in elementList[..i] ==> (x in hovering <==> x in old(hovering))
      {
        var element := elementList[i];
        assert elementList[..i + 1] == elementList[..i] + [element];
        if Some(element) == found {
          hovering := hovering + {element};
        } else {
          hovering := hovering - {element};
        }
        i := i + 1;
      }
      assert elementList[..i] == elementList;
      emitted := if found.Some? then [HoverEvent(found.value)] else [];
    }
  }

  /** The selection after deleting `els`: a selected element among them is
      no longer selected nor flagged; otherwise nothing changed.  The
      previous selection is kept either way. */
  predicate Unselected(before: Selection, after: Selection, els: seq<Element>) {
    after.previous == before.previous
    && if before.selected.Some? && before.selected.value in els
       then after.selected.None? && after.flagged == before.flagged - {before.selected.value}
       else after == before
  }

  /** What `deleteElement` as written leaves behind: a stored element whose
      id leaves the registry is still in the list built before the delete,
      and not in the list built from the registry after it. */
  lemma StaleAfterDelete(s: Store, el: Element)
    requires StoreOK(s) && el.id in s.byId && s.byId[el.id] == el
    ensures el in SortByZ(Values(s))
    ensures el !in SortByZ(Values(Drop(s, el.id)))
  {
    ListIsStore(s);
    ListIsStore(Drop(s, el.id));
  }

  /** The registry after deleting `els` one by one. */
  function DropAll(s: Store, els: seq<Element>): (r: Store)
    ensures StoreOK(s) ==> StoreOK(r)
    ensures r.byId == s.byId - IdSet(els)
    ensures forall e :: e in els ==> e.id !in r.byId
    ensures r.byId.Keys <= s.byId.Keys
  {
    if els == [] then s
    else
      var init := DropAll(s, els[..|els| - 1]);
      assert forall e :: e in els ==> e in els[..|els| - 1] || e == els[|els| - 1];
      assert IdSet(els) == IdSet(els[..|els| - 1]) + {els[|els| - 1].id};
      Drop(init, els[|els| - 1].id)
  }

  /** The ids of the elements. */
  function IdSet(els: seq<Element>): set<string> {
    set e | e in els :: e.id
  }
}
