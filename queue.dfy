/** The `MinPriorityQueue` of `@datastructures-js/priority-queue` that
    Dijkstra.ts and AStar.ts use, specified abstractly: a multiset of entries
    from which `dequeue`/`pop` removes one entry of least priority (which one
    among equal priorities is left open). */
module Queue {
  import opened Graph

  /** `{ dist, node }` in Dijkstra.ts and `{ fcost, node }` in AStar.ts;
      queued priorities are always finite. */
  datatype Entry = Entry(prio: nat, node: Node)

  predicate IsMin(m: Entry, pq: multiset<Entry>) {
    m in pq && forall x :: x in pq ==> m.prio <= x.prio
  }

  lemma {:induction false} MinExists(pq: multiset<Entry>)
    requires |pq| > 0
    ensures exists m :: IsMin(m, pq)
    decreases |pq|
  {
    var x :| x in pq;
    var rest := pq - multiset{x};
    assert pq == rest + multiset{x};
    if |rest| == 0 {
      assert pq == multiset{x};
      assert IsMin(x, pq);
    } else {
      MinExists(rest);
      var m :| IsMin(m, rest);
      if m.prio <= x.prio {
        assert IsMin(m, pq);
      } else {
        assert IsMin(x, pq);
      }
    }
  }

  /** `pq.dequeue()` / `frontier.pop()` on a non-empty queue. */
  method Dequeue(pq: multiset<Entry>) returns (m: Entry, rest: multiset<Entry>)
    requires |pq| > 0
    ensures IsMin(m, pq)
    ensures rest == pq - multiset{m} && pq == rest + multiset{m}
    ensures |rest| == |pq| - 1
  {
    MinExists(pq);
    m :| IsMin(m, pq);
    rest := pq - multiset{m};
  }
}
