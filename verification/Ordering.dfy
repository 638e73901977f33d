/** The dependency order that `Sort` emits (pkg/module/compose.go): Kahn's algorithm with a sorted queue. */
module Ordering {
  import opened Text
  import opened Graph

  /** v is not placed yet and all its providers are. */
  ghost predicate Available(ids: seq<string>, es: seq<Edge>, placed: seq<string>, v: string) {
    v in ids && v !in placed && forall e :: e in es && e.to == v ==> e.from in placed
  }

  /** At every position the least available module. */
  ghost predicate Greedy(ids: seq<string>, es: seq<Edge>, order: seq<string>) {
    forall k, v :: 0 <= k < |order| && Available(ids, es, order[..k], v) ==> Le(order[k], v)
  }

  ghost predicate LeastTopological(ids: seq<string>, es: seq<Edge>, order: seq<string>) {
    IsTopological(es, ids, order) && Greedy(ids, es, order)
  }

  /** `a` stands before `b` in the lexicographic order of ID sequences, or equals it. */
  ghost predicate LexLe(a: seq<string>, b: seq<string>) {
    a == b || exists k :: 0 <= k < |a| && k < |b| && a[..k] == b[..k] && a[k] != b[k] && Le(a[k], b[k])
  }

  /** The greedy order is the lexicographically least of all topological orders. */
  lemma GreedyIsLeast(ids: seq<string>, es: seq<Edge>, order: seq<string>, t: seq<string>)
    requires NoDup(ids) && LeastTopological(ids, es, order) && IsTopological(es, ids, t)
    ensures LexLe(order, t)
  {
    PermutationFacts(order, ids);
    PermutationFacts(t, ids);
    if order != t {
      var k := FirstDifference(order, t);
      assert t[k] in t && t[k] !in t[..k];
      assert Available(ids, es, order[..k], t[k]);
    }
  }

  /** The emitted order is a function of the graph: no iteration order of a map can influence it. */
  lemma LeastUnique(ids: seq<string>, es: seq<Edge>, a: seq<string>, b: seq<string>)
    requires NoDup(ids) && LeastTopological(ids, es, a) && LeastTopological(ids, es, b)
    ensures a == b
  {
    PermutationFacts(a, ids);
    PermutationFacts(b, ids);
    if a != b {
      var k := FirstDifference(a, b);
      assert a[k] in a && b[k] in b;
      assert Available(ids, es, a[..k], b[k]);
      assert Available(ids, es, b[..k], a[k]);
      LeAntisymmetric(a[k], b[k]);
    }
  }

  /** The queue loop of `Sort`. The zero-degree modules are collected in whatever order the map yields
      them; the adjacency lists are sorted in place. */
  method KahnOrder(ids: seq<string>, inDegree0: map<string, int>, dependents0: map<string, seq<string>>,
                   ghost es: seq<Edge>) returns (order: seq<string>)
    requires Represents(ids, inDegree0, dependents0, es)
    ensures |order| == |ids| <==> Acyclic(es)
    ensures Acyclic(es) ==> LeastTopological(ids, es, order)
  {
    hide Kahn, Greedy, Unplaced;
    var inDegree, dependents := inDegree0, dependents0;
    var queue := InitialQueue(ids, inDegree, es);
    order := [];
    NothingPlaced(ids, es, dependents);
    while |queue| > 0
      invariant Kahn(ids, es, inDegree, queue, order, [])
      invariant IsSorted(queue) && Greedy(ids, es, order) && Unplaced(ids, es, dependents, order)
      decreases |ids| - |order|
    {
      inDegree, dependents, queue, order := PlaceNext(ids, inDegree, dependents, queue, order, es);
    }
    KahnEnd(ids, es, inDegree, order);
    KahnRespects(ids, es, inDegree, order);
  }

  lemma NothingPlaced(ids: seq<string>, es: seq<Edge>, dependents: map<string, seq<string>>)
    requires forall u: string :: At(dependents, u) == OutList(es, u)
    ensures Greedy(ids, es, []) && Unplaced(ids, es, dependents, [])
  {}

  lemma KahnRespects(ids: seq<string>, es: seq<Edge>, degrees: map<string, int>, order: seq<string>)
    requires Kahn(ids, es, degrees, [], order, [])
    ensures RespectsEdges(es, order)
  {}

  /** One round of the queue loop: the head of the queue is placed and its dependents are released. */
  method PlaceNext(ids: seq<string>, inDegree0: map<string, int>, dependents0: map<string, seq<string>>,
                   queue0: seq<string>, order0: seq<string>, ghost es: seq<Edge>)
    returns (inDegree: map<string, int>, dependents: map<string, seq<string>>, queue: seq<string>, order: seq<string>)
    requires Kahn(ids, es, inDegree0, queue0, order0, []) && queue0 != []
    requires IsSorted(queue0) && Greedy(ids, es, order0) && Unplaced(ids, es, dependents0, order0)
    ensures Kahn(ids, es, inDegree, queue, order, [])
    ensures IsSorted(queue) && Greedy(ids, es, order) && Unplaced(ids, es, dependents, order)
    ensures order == order0 + [queue0[0]] && |order0| < |ids|
  {
    KahnBound(ids, es, inDegree0, queue0, order0);
    HeadIsNew(ids, es, inDegree0, queue0, order0);
    var current := queue0[0];
    var next := Sorted(At(dependents0, current));
    dependents := if current in dependents0 then dependents0[current := next] else dependents0;
    order := order0 + [current];
    GreedyStep(ids, es, inDegree0, queue0, order0);
    KahnPop(ids, es, inDegree0, queue0, order0, next);
    TailSorted(queue0);
    inDegree, queue := ReleaseDependents(ids, inDegree0, queue0[1..], next, es, order);
  }

  lemma TailSorted(s: seq<string>)
    requires IsSorted(s) && s != []
    ensures IsSorted(s[1..])
  {}

  /** The adjacency lists of the modules not placed yet are still the original ones. */
  ghost predicate Unplaced(ids: seq<string>, es: seq<Edge>, dependents: map<string, seq<string>>, order: seq<string>) {
    forall u :: u in ids && u !in order ==> At(dependents, u) == OutList(es, u)
  }

  method InitialQueue(ids: seq<string>, inDegree: map<string, int>, ghost es: seq<Edge>) returns (queue: seq<string>)
    requires NoDup(ids) && Within(es, ids) && inDegree.Keys == Elems(ids)
    requires forall v :: v in inDegree ==> inDegree[v] == InDegree(es, {}, v)
    ensures Kahn(ids, es, inDegree, queue, [], []) && IsSorted(queue)
  {
    var roots := CollectRoots(inDegree);
    queue := Sorted(roots);
    PermutationFacts(queue, roots);
    RootsFacts(ids, inDegree);
    KahnStart(ids, es, inDegree, queue);
  }

  /** The inner loop: each dependent of the placed module loses one unmet dependency. */
  method ReleaseDependents(ids: seq<string>, inDegree0: map<string, int>, queue0: seq<string>, next: seq<string>,
                           ghost es: seq<Edge>, ghost order: seq<string>)
    returns (inDegree: map<string, int>, queue: seq<string>)
    requires Kahn(ids, es, inDegree0, queue0, order, next) && IsSorted(queue0)
    ensures Kahn(ids, es, inDegree, queue, order, []) && IsSorted(queue)
  {
    hide Kahn;
    inDegree, queue := inDegree0, queue0;
    assert next[0..] == next;
    for k := 0 to |next|
      invariant Kahn(ids, es, inDegree, queue, order, next[k..])
      invariant IsSorted(queue)
    {
      var dependent := next[k];
      assert next[k..][0] == dependent && next[k..][1..] == next[k+1..];
      KahnPending(ids, es, inDegree, queue, order, next[k..]);
      KahnDecrement(ids, es, inDegree, queue, order, next[k..],
                    if inDegree[dependent] == 1 then Sorted(queue + [dependent]) else queue);
      inDegree := inDegree[dependent := inDegree[dependent] - 1];
      if inDegree[dependent] == 0 {
        queue := queue + [dependent];
        queue := Sorted(queue);
      }
    }
    assert next[|next|..] == [];
  }

  lemma HeadIsNew(ids: seq<string>, es: seq<Edge>, degrees: map<string, int>, queue: seq<string>, order: seq<string>)
    requires Kahn(ids, es, degrees, queue, order, []) && queue != []
    ensures queue[0] in ids && queue[0] !in order
  {
    KahnPop(ids, es, degrees, queue, order, OutList(es, queue[0]));
  }

  /** The IDs of degree zero, in an order the caller cannot know. */
  method CollectRoots(inDegree: map<string, int>) returns (queue: seq<string>)
    ensures NoDup(queue)
    ensures forall v :: v in queue <==> v in inDegree && inDegree[v] == 0
  {
    queue := [];
    var left := inDegree.Keys;
    while left != {}
      invariant left <= inDegree.Keys
      invariant NoDup(queue)
      invariant forall v :: v in queue <==> v in inDegree && v !in left && inDegree[v] == 0
      decreases left
    {
      var id :| id in left;
      left := left - {id};
      if inDegree[id] == 0 {
        queue := queue + [id];
      }
    }
  }

  lemma RootsFacts(ids: seq<string>, inDegree: map<string, int>)
    requires inDegree.Keys == Elems(ids)
    ensures forall v :: v in inDegree <==> v in ids
  {
    forall v ensures v in inDegree <==> v in ids {
      assert v in inDegree.Keys <==> v in Elems(ids);
    }
  }

  lemma GreedyStep(ids: seq<string>, es: seq<Edge>, degrees: map<string, int>, queue: seq<string>, order: seq<string>)
    requires Kahn(ids, es, degrees, queue, order, []) && queue != [] && IsSorted(queue)
    requires Greedy(ids, es, order)
    ensures Greedy(ids, es, order + [queue[0]])
  {
    var order' := order + [queue[0]];
    forall k, v | 0 <= k < |order'| && Available(ids, es, order'[..k], v) ensures Le(order'[k], v) {
      if k < |order| {
        assert order'[..k] == order[..k];
      } else {
        assert order'[..k] == order;
        InDegreeZero(es, Elems(order), v);
        assert v in order + queue;
        assert v in queue;
      }
    }
  }
}
