/** `EventEmitter.ts`: a map from event keys to insertion-ordered listener
    sets.  A listener is known by its object identity; what a listener does
    when it is called is not part of this model, `emit` reports which
    listeners it calls and in which order. */
module Events {
  import opened Common

  /** A listener function, by identity. */
  datatype Listener = Listener(obj: nat)

  /** The closure `on` returns: it removes `listener` from the set of `key`. */
  datatype Subscription = Subscription(key: string, listener: Listener)

  /** The listeners registered under `key`; nothing for a key never registered. */
  function ListenersOf(m: map<string, seq<Listener>>, key: string): seq<Listener> {
    if key in m then m[key] else []
  }

  /** The registry after `on(key, l)`: the key's set is created when absent
      and `l` is added to it; the other keys are untouched. */
  function Registered(m: map<string, seq<Listener>>, key: string, l: Listener): (r: map<string, seq<Listener>>)
    ensures r.Keys == m.Keys + {key}
    ensures forall k :: k in m && k != key ==> r[k] == m[k]
    ensures l in r[key] && Elems(r[key]) == Elems(ListenersOf(m, key)) + {l}
    ensures l !in ListenersOf(m, key) ==> r[key] == ListenersOf(m, key) + [l]
    ensures l in ListenersOf(m, key) ==> r[key] == ListenersOf(m, key)
  {
    m[key := Add(ListenersOf(m, key), l)]
  }

  /** The registry after the closure of `on(key, l)` ran: `l` leaves the set
      of `key`; the key and every other set stay. */
  function Unregistered(m: map<string, seq<Listener>>, key: string, l: Listener): (r: map<string, seq<Listener>>)
    requires key in m
    ensures r.Keys == m.Keys
    ensures forall k :: k in m && k != key ==> r[k] == m[k]
    ensures l !in r[key] && Elems(r[key]) == Elems(m[key]) - {l}
    ensures Subsequence(r[key], m[key])
  {
    m[key := Remove(m[key], l)]
  }

  /** Every listener set is a set: no listener twice. */
  ghost predicate Sets(m: map<string, seq<Listener>>) {
    forall k :: k in m ==> NoDup(m[k])
  }

  class EventEmitter {
    /** `#onListeners`. */
    var listeners: map<string, seq<Listener>>

    ghost predicate Valid()
      reads this
    {
      Sets(listeners)
    }

    constructor ()
      ensures Valid() && listeners == map[]
    {
      listeners := map[];
    }

    /** on(key, listener): registers the listener and returns its unsubscribe closure. */
    method On(key: string, listener: Listener) returns (unsubscribe: Subscription)
      requires Valid()
      modifies this
      ensures Valid()
      ensures listeners == Registered(old(listeners), key, listener)
      ensures unsubscribe == Subscription(key, listener)
    {
      if key !in listeners {
        listeners := listeners[key := []];
      }
      var current := listeners[key];
      listeners := listeners[key := Add(current, listener)];
      unsubscribe := Subscription(key, listener);
    }

    /** Calling the closure `on` returned: `get(key).delete(listener)`.  The
        key is present for every closure `on` returned, since keys are never
        removed; on an absent key the call would be a TypeError. */
    method Unsubscribe(s: Subscription) returns (err: Option<Error>)
      requires Valid()
      modifies this
      ensures Valid()
      ensures s.key in old(listeners) ==> err.None? && listeners == Unregistered(old(listeners), s.key, s.listener)
      ensures s.key !in old(listeners) ==> err == Some(TypeError) && listeners == old(listeners)
    {
      if s.key !in listeners {
        return Some(TypeError);
      }
      listeners := listeners[s.key := Remove(listeners[s.key], s.listener)];
      err := None;
    }

    /** emit(key): the listeners called, in the order `forEach` visits them. */
    method Emit(key: string) returns (called: seq<Listener>)
      ensures called == ListenersOf(listeners, key)
    {
      called := [];
      if key in listeners {
        var ls := listeners[key];
        var i := 0;
        while i < |ls|
          invariant 0 <= i <= |ls|
          invariant called == ls[..i]
        {
          called := called + [ls[i]];
          i := i + 1;
        }
      }
    }
  }

  /** Registering the same listener twice is registering it once. */
  lemma RegisterIdempotent(m: map<string, seq<Listener>>, key: string, l: Listener)
    ensures Registered(Registered(m, key, l), key, l) == Registered(m, key, l)
  {
  }

  /** Unsubscribing twice is unsubscribing once. */
  lemma UnregisterIdempotent(m: map<string, seq<Listener>>, key: string, l: Listener)
    requires key in m && NoDup(m[key])
    ensures Unregistered(Unregistered(m, key, l), key, l) == Unregistered(m, key, l)
  {
    RemoveAbsent(Remove(m[key], l), l);
  }

  /** A listener registered under a key and then unsubscribed leaves that
      key's set as it was, and the key itself in place; every other key keeps
      its set throughout. */
  lemma RegisterThenUnregister(m: map<string, seq<Listener>>, key: string, l: Listener)
    requires l !in ListenersOf(m, key)
    ensures var r := Unregistered(Registered(m, key, l), key, l);
            r.Keys == m.Keys + {key} && r[key] == ListenersOf(m, key)
            && forall k :: k in m && k != key ==> r[k] == m[k]
  {
    RemoveLast(ListenersOf(m, key), l);
  }

  lemma {:induction false} RemoveLast(s: seq<Listener>, x: Listener)
    requires x !in s
    ensures Remove(s + [x], x) == s
  {
    if s == [] {
      assert [x][1..] == [];
    } else {
      assert (s + [x])[1..] == s[1..] + [x];
      RemoveLast(s[1..], x);
    }
  }

  /** Emitting calls the listeners in registration order: a new listener is called last. */
  lemma EmitOrder(m: map<string, seq<Listener>>, key: string, l: Listener, other: string)
    requires l !in ListenersOf(m, key)
    ensures ListenersOf(Registered(m, key, l), key) == ListenersOf(m, key) + [l]
    ensures other != key ==> ListenersOf(Registered(m, key, l), other) == ListenersOf(m, other)
  {
  }

  /** Registering and unsubscribing keep every listener set free of repeats. */
  lemma SetsKept(m: map<string, seq<Listener>>, key: string, l: Listener)
    requires Sets(m)
    ensures Sets(Registered(m, key, l))
    ensures key in m ==> Sets(Unregistered(m, key, l))
  {
  }
}
