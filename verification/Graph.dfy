/** Directed multigraphs of module IDs: walks, cycles, topological orders, and the invariant of Kahn's
    algorithm that pkg/module/compose.go uses twice. An edge runs from a provider to its consumer. */
module Graph {
  import opened Text

  datatype Edge = Edge(from: string, to: string)

  ghost predicate IsWalk(es: seq<Edge>, p: seq<string>) {
    forall i :: 0 <= i < |p| - 1 ==> Edge(p[i], p[i+1]) in es
  }

  /** v can be reached from u along at least one edge. */
  ghost predicate Reaches(es: seq<Edge>, u: string, v: string) {
    exists p: seq<string> :: |p| >= 2 && p[0] == u && p[|p| - 1] == v && IsWalk(es, p)
  }

  ghost predicate Acyclic(es: seq<Edge>) {
    forall v: string :: !Reaches(es, v, v)
  }

  ghost predicate Within(es: seq<Edge>, ids: seq<string>) {
    forall e :: e in es ==> e.from in ids && e.to in ids
  }

  /** Every listed node comes after all its predecessors. */
  ghost predicate RespectsEdges(es: seq<Edge>, order: seq<string>) {
    forall k, e :: 0 <= k < |order| && e in es && e.to == order[k] ==> e.from in order[..k]
  }

  ghost predicate IsTopological(es: seq<Edge>, ids: seq<string>, order: seq<string>) {
    multiset(order) == multiset(ids) && RespectsEdges(es, order)
  }

  /** More edges never remove a cycle: cutting off a cyclic prefix of choices loses no solution. */
  lemma CyclicStaysCyclic(es: seq<Edge>, more: seq<Edge>)
    requires !Acyclic(es) && forall e :: e in es ==> e in more
    ensures !Acyclic(more)
  {
    var v :| Reaches(es, v, v);
    var p: seq<string> :| |p| >= 2 && p[0] == v && p[|p| - 1] == v && IsWalk(es, p);
    assert IsWalk(more, p);
    assert Reaches(more, v, v);
  }

  // ---- A topological order excludes cycles ----

  lemma {:induction false} WalksGoForward(es: seq<Edge>, order: seq<string>, p: seq<string>, b: nat) returns (a: nat)
    requires NoDup(order) && RespectsEdges(es, order) && IsWalk(es, p) && |p| >= 1
    requires b < |order| && order[b] == p[|p| - 1]
    ensures a < |order| && order[a] == p[0] && (|p| >= 2 ==> a < b)
  {
    if |p| == 1 {
      a := b;
    } else {
      var n := |p| - 1;
      var e := Edge(p[n-1], p[n]);
      assert e in es && e.to == order[b];
      var c :| 0 <= c < b && order[c] == p[n-1];
      a := WalksGoForward(es, order, p[..n], c);
    }
  }

  lemma TopologicalIsAcyclic(es: seq<Edge>, order: seq<string>)
    requires NoDup(order) && RespectsEdges(es, order) && Within(es, order)
    ensures Acyclic(es)
  {
    forall v: string ensures !Reaches(es, v, v) {
      if Reaches(es, v, v) {
        var p: seq<string> :| |p| >= 2 && p[0] == v && p[|p| - 1] == v && IsWalk(es, p);
        assert Edge(p[0], p[1]) in es;
        var b :| 0 <= b < |order| && order[b] == v;
        var a := WalksGoForward(es, order, p, b);
        assert false;
      }
    }
  }

  // ---- A set in which everyone has a predecessor contains a cycle ----

  ghost predicate HasPredecessorIn(es: seq<Edge>, R: set<string>, v: string) {
    exists u :: u in R && Edge(u, v) in es
  }

  ghost predicate Stuck(es: seq<Edge>, R: set<string>) {
    R != {} && forall v {:trigger HasPredecessorIn(es, R, v)} :: v in R ==> HasPredecessorIn(es, R, v)
  }

  lemma {:induction false} BackwardWalk(es: seq<Edge>, R: set<string>, n: nat) returns (p: seq<string>)
    requires Stuck(es, R)
    ensures |p| == n + 1 && IsWalk(es, p) && forall x :: x in p ==> x in R
  {
    if n == 0 {
      var v :| v in R;
      p := [v];
    } else {
      var q := BackwardWalk(es, R, n - 1);
      assert q[0] in q && HasPredecessorIn(es, R, q[0]);
      var u :| u in R && Edge(u, q[0]) in es;
      p := [u] + q;
    }
  }

  lemma StuckIsCyclic(es: seq<Edge>, R: set<string>)
    requires Stuck(es, R)
    ensures !Acyclic(es)
  {
    var p := BackwardWalk(es, R, |R|);
    Pigeonhole(p, R);
    var i, j :| 0 <= i < j < |p| && p[i] == p[j];
    var c := p[i..j+1];
    assert IsWalk(es, c) && c[0] == p[i] && c[|c| - 1] == p[j];
    assert Reaches(es, p[i], p[i]);
  }

  // ---- An acyclic graph has a topological order ----

  /** Those not placed yet, one of whom has no predecessor among them. */
  lemma SomeoneIsFree(es: seq<Edge>, R: set<string>) returns (v: string)
    requires Acyclic(es) && R != {}
    ensures v in R && !HasPredecessorIn(es, R, v)
  {
    if forall u {:trigger HasPredecessorIn(es, R, u)} :: u in R ==> HasPredecessorIn(es, R, u) {
      StuckIsCyclic(es, R);
    }
    v :| v in R && !HasPredecessorIn(es, R, v);
  }

  lemma {:induction false} OrderFrom(es: seq<Edge>, all: set<string>, placed: seq<string>) returns (order: seq<string>)
    requires Acyclic(es) && (forall e :: e in es ==> e.from in all && e.to in all)
    requires NoDup(placed) && Elems(placed) <= all && RespectsEdges(es, placed)
    ensures NoDup(order) && Elems(order) == all && RespectsEdges(es, order)
    decreases all - Elems(placed)
  {
    hide Acyclic;
    var R := all - Elems(placed);
    if R == {} {
      order := placed;
      forall x | x in all ensures x in Elems(placed) {
        assert x !in R;
      }
      assert Elems(placed) == all;
    } else {
      var v := SomeoneIsFree(es, R);
      PlaceFree(es, all, placed, v);
      order := OrderFrom(es, all, placed + [v]);
    }
  }

  lemma PlaceFree(es: seq<Edge>, all: set<string>, placed: seq<string>, v: string)
    requires forall e :: e in es ==> e.from in all && e.to in all
    requires NoDup(placed) && Elems(placed) <= all && RespectsEdges(es, placed)
    requires v in all - Elems(placed) && !HasPredecessorIn(es, all - Elems(placed), v)
    ensures NoDup(placed + [v]) && Elems(placed + [v]) == Elems(placed) + {v} && RespectsEdges(es, placed + [v])
  {
    var next := placed + [v];
    assert v !in placed;
    forall k, e | 0 <= k < |next| && e in es && e.to == next[k]
      ensures e.from in next[..k]
    {
      if k < |placed| {
        assert next[..k] == placed[..k];
      } else {
        assert next[..k] == placed;
        assert e == Edge(e.from, v);
        assert e.from in Elems(placed);
      }
    }
    forall x ensures x in Elems(next) <==> x in Elems(placed) + {v} {
      if x in Elems(placed) + {v} {
        assert next[|placed|] == v;
        if x in placed {
          var i :| 0 <= i < |placed| && placed[i] == x;
          assert next[i] == x;
        }
      }
    }
    assert Elems(next) == Elems(placed) + {v};
  }

  lemma TopologicalExists(es: seq<Edge>, ids: seq<string>) returns (order: seq<string>)
    requires Acyclic(es) && NoDup(ids) && Within(es, ids)
    ensures IsTopological(es, ids, order) && NoDup(order)
  {
    hide Acyclic;
    order := OrderFrom(es, Elems(ids), []);
    assert forall x :: x in order <==> x in ids by {
      forall x ensures x in order <==> x in ids {
        assert x in Elems(order) <==> x in Elems(ids);
      }
    }
    NoDupSameElems(order, ids);
  }

  // ---- Degrees and adjacency ----

  /** How many edges enter v from nodes not yet `done`, counting parallel edges. */
  function InDegree(es: seq<Edge>, done: set<string>, v: string): nat {
    if es == [] then 0
    else
      var n := |es| - 1;
      InDegree(es[..n], done, v) + if es[n].to == v && es[n].from !in done then 1 else 0
  }

  /** The consumers of u in the order in which their edges were added. */
  function OutList(es: seq<Edge>, u: string): seq<string> {
    if es == [] then []
    else
      var n := |es| - 1;
      OutList(es[..n], u) + if es[n].from == u then [es[n].to] else []
  }

  lemma InDegreeAppend(es: seq<Edge>, e: Edge, done: set<string>, v: string)
    ensures InDegree(es + [e], done, v) == InDegree(es, done, v) + if e.to == v && e.from !in done then 1 else 0
  {
    assert (es + [e])[..|es|] == es;
  }

  lemma OutListAppend(es: seq<Edge>, e: Edge, u: string)
    ensures OutList(es + [e], u) == OutList(es, u) + if e.from == u then [e.to] else []
  {
    assert (es + [e])[..|es|] == es;
  }

  lemma {:induction false} InDegreeZero(es: seq<Edge>, done: set<string>, v: string)
    ensures InDegree(es, done, v) == 0 <==> forall e :: e in es && e.to == v ==> e.from in done
  {
    if es != [] {
      var n := |es| - 1;
      InDegreeZero(es[..n], done, v);
      assert es == es[..n] + [es[n]];
    }
  }

  /** Finishing u takes its out-edges off the degrees of its consumers. */
  lemma {:induction false} InDegreeFinish(es: seq<Edge>, done: set<string>, u: string, v: string)
    requires u !in done
    ensures InDegree(es, done, v) == InDegree(es, done + {u}, v) + multiset(OutList(es, u))[v]
  {
    if es != [] {
      InDegreeFinish(es[..|es| - 1], done, u, v);
    }
  }

  lemma {:induction false} OutListMembers(es: seq<Edge>, u: string)
    ensures forall v :: v in OutList(es, u) <==> Edge(u, v) in es
  {
    if es != [] {
      var n := |es| - 1;
      OutListMembers(es[..n], u);
      assert es == es[..n] + [es[n]];
    }
  }

  /** Go's map read: the zero value for an absent key. */
  function At(m: map<string, seq<string>>, u: string): seq<string> {
    if u in m then m[u] else []
  }

  /** `inDegree` and `dependents` describe the multigraph `es` on the nodes `ids`, edge for edge, and
      hold no entry for a node without consumers. */
  ghost predicate Represents(ids: seq<string>, inDegree: map<string, int>, dependents: map<string, seq<string>>,
                             es: seq<Edge>) {
    && NoDup(ids)
    && inDegree.Keys == Elems(ids)
    && (forall v :: v in inDegree ==> inDegree[v] == InDegree(es, {}, v))
    && (forall u: string :: At(dependents, u) == OutList(es, u))
    && (forall u :: u in dependents ==> dependents[u] != [])
    && Within(es, ids)
  }

  /** Both maps are determined by the edges. */
  lemma RepresentationUnique(ids: seq<string>, d1: map<string, int>, a1: map<string, seq<string>>,
                             d2: map<string, int>, a2: map<string, seq<string>>, es: seq<Edge>)
    requires Represents(ids, d1, a1, es) && Represents(ids, d2, a2, es)
    ensures d1 == d2 && a1 == a2
  {
    forall u ensures u in a1 <==> u in a2 {
      assert At(a1, u) == At(a2, u);
    }
    forall u | u in a1 ensures a1[u] == a2[u] {
      assert At(a1, u) == At(a2, u);
    }
  }

  lemma RepresentsPush(ids: seq<string>, inDegree: map<string, int>, dependents: map<string, seq<string>>,
                       es: seq<Edge>, e: Edge)
    requires Represents(ids, inDegree, dependents, es) && e.from in ids && e.to in ids
    ensures e.to in inDegree
    ensures Represents(ids, inDegree[e.to := inDegree[e.to] + 1],
                       dependents[e.from := At(dependents, e.from) + [e.to]], es + [e])
  {
    hide InDegree, OutList;
    assert e.to in Elems(ids);
    var inDegree' := inDegree[e.to := inDegree[e.to] + 1];
    var dependents' := dependents[e.from := At(dependents, e.from) + [e.to]];
    forall v | v in inDegree' ensures inDegree'[v] == InDegree(es + [e], {}, v) { InDegreeAppend(es, e, {}, v); }
    forall u: string ensures At(dependents', u) == OutList(es + [e], u) { OutListAppend(es, e, u); }
  }

  lemma RepresentsPop(ids: seq<string>, inDegree: map<string, int>, dependents: map<string, seq<string>>,
                      es: seq<Edge>, e: Edge)
    requires Represents(ids, inDegree, dependents, es + [e])
    ensures e.to in inDegree && e.from in dependents && dependents[e.from] != []
    ensures var list := dependents[e.from][..|dependents[e.from]| - 1];
            Represents(ids, inDegree[e.to := inDegree[e.to] - 1],
                       if |list| == 0 then dependents[e.from := list] - {e.from} else dependents[e.from := list], es)
  {
    hide InDegree, OutList;
    assert e in es + [e] && e.to in Elems(ids);
    OutListAppend(es, e, e.from);
    assert At(dependents, e.from) == OutList(es + [e], e.from);
    var list := dependents[e.from][..|dependents[e.from]| - 1];
    assert list == OutList(es, e.from);
    var inDegree' := inDegree[e.to := inDegree[e.to] - 1];
    var dependents' := if |list| == 0 then dependents[e.from := list] - {e.from} else dependents[e.from := list];
    forall v | v in inDegree' ensures inDegree'[v] == InDegree(es, {}, v) { InDegreeAppend(es, e, {}, v); }
    forall u: string ensures At(dependents', u) == OutList(es, u) {
      OutListAppend(es, e, u);
      assert At(dependents, u) == OutList(es + [e], u);
    }
    assert Within(es, ids) by {
      forall x | x in es ensures x.from in ids && x.to in ids { assert x in es + [e]; }
    }
  }

  // ---- Kahn's algorithm ----

  /** Between two decrements: `done` are the nodes taken off the queue, the last of which still has the
      consumers `rest` to decrement; the queue holds exactly the other nodes of degree zero. */
  ghost predicate Kahn(ids: seq<string>, es: seq<Edge>, degrees: map<string, int>, queue: seq<string>,
                       done: seq<string>, rest: seq<string>) {
    && NoDup(ids) && Within(es, ids)
    && degrees.Keys == Elems(ids)
    && (forall v :: v in ids ==> degrees[v] == InDegree(es, Elems(done), v) + multiset(rest)[v])
    && NoDup(done + queue)
    && (forall v :: v in done + queue <==> v in ids && degrees[v] == 0)
    && RespectsEdges(es, done)
    && (forall v :: v in rest ==> v in ids)
  }

  lemma KahnStart(ids: seq<string>, es: seq<Edge>, degrees: map<string, int>, queue: seq<string>)
    requires NoDup(ids) && Within(es, ids) && degrees.Keys == Elems(ids)
    requires forall v :: v in degrees ==> degrees[v] == InDegree(es, {}, v)
    requires NoDup(queue) && forall v :: v in queue <==> v in ids && degrees[v] == 0
    ensures Kahn(ids, es, degrees, queue, [], [])
  {
    assert [] + queue == queue;
    assert Elems<string>([]) == {};
  }

  /** Taking the head of the queue off and turning to its consumers. */
  lemma KahnPop(ids: seq<string>, es: seq<Edge>, degrees: map<string, int>, queue: seq<string>, done: seq<string>,
                next: seq<string>)
    requires Kahn(ids, es, degrees, queue, done, []) && queue != []
    requires multiset(next) == multiset(OutList(es, queue[0]))
    ensures Kahn(ids, es, degrees, queue[1..], done + [queue[0]], next)
    ensures queue[0] in ids && queue[0] !in done
    ensures forall e :: e in es && e.to == queue[0] ==> e.from in done
  {
    var u := queue[0];
    assert done + queue == done + [u] + queue[1..];
    assert (done + queue)[|done|] == u;
    assert u in done + queue;
    forall i | 0 <= i < |done| ensures done[i] != u {
      assert (done + queue)[i] == done[i];
    }
    InDegreeZero(es, Elems(done), u);
    PopDegrees(ids, es, degrees, done, u, next);
    PopOrder(es, done, u);
    PermutationFacts(next, OutList(es, u));
    OutListMembers(es, u);
  }

  lemma PopDegrees(ids: seq<string>, es: seq<Edge>, degrees: map<string, int>, done: seq<string>, u: string,
                   next: seq<string>)
    requires degrees.Keys == Elems(ids) && u !in done && multiset(next) == multiset(OutList(es, u))
    requires forall v :: v in ids ==> degrees[v] == InDegree(es, Elems(done), v)
    ensures forall v :: v in ids ==> degrees[v] == InDegree(es, Elems(done + [u]), v) + multiset(next)[v]
  {
    assert Elems(done + [u]) == Elems(done) + {u};
    forall v | v in ids
      ensures degrees[v] == InDegree(es, Elems(done + [u]), v) + multiset(next)[v]
    {
      InDegreeFinish(es, Elems(done), u, v);
    }
  }

  lemma PopOrder(es: seq<Edge>, done: seq<string>, u: string)
    requires RespectsEdges(es, done) && forall e :: e in es && e.to == u ==> e.from in done
    ensures RespectsEdges(es, done + [u])
  {
    var done' := done + [u];
    forall k, e | 0 <= k < |done'| && e in es && e.to == done'[k] ensures e.from in done'[..k] {
      if k < |done| {
        assert done'[..k] == done[..k] && done'[k] == done[k];
      } else {
        assert done'[..k] == done;
      }
    }
  }

  lemma KahnPending(ids: seq<string>, es: seq<Edge>, degrees: map<string, int>, queue: seq<string>,
                    done: seq<string>, rest: seq<string>)
    requires Kahn(ids, es, degrees, queue, done, rest) && rest != []
    ensures rest[0] in degrees && degrees[rest[0]] > 0
  {
    assert rest[0] in rest && rest[0] in multiset(rest);
    assert rest[0] in Elems(ids);
  }

  /** One decrement; a consumer that drops to zero joins the queue, wherever sorting puts it. */
  lemma KahnDecrement(ids: seq<string>, es: seq<Edge>, degrees: map<string, int>, queue: seq<string>,
                      done: seq<string>, rest: seq<string>, queue': seq<string>)
    requires Kahn(ids, es, degrees, queue, done, rest) && rest != []
    ensures rest[0] in degrees && degrees[rest[0]] > 0
    ensures var degrees' := degrees[rest[0] := degrees[rest[0]] - 1];
            multiset(queue') == multiset(if degrees'[rest[0]] == 0 then queue + [rest[0]] else queue) ==>
              Kahn(ids, es, degrees', queue', done, rest[1..])
  {
    var v := rest[0];
    assert v in ids;
    var degrees' := degrees[v := degrees[v] - 1];
    assert v !in done + queue;
    var plain := if degrees'[v] == 0 then queue + [v] else queue;
    if multiset(queue') == multiset(plain) {
      DecrementQueue(done, queue, v, degrees'[v] == 0, queue');
      DecrementDegrees(ids, es, degrees, done, rest);
      DecrementKeys(ids, degrees, v);
      DecrementMembers(ids, degrees, done + queue, v, done + queue');
      hide InDegree, Within, RespectsEdges, NoDup, Elems;
      assert forall w :: w in rest[1..] ==> w in rest;
    }
  }

  lemma DecrementMembers(ids: seq<string>, degrees: map<string, int>, before: seq<string>, v: string,
                         after: seq<string>)
    requires v in ids && (forall w :: w in ids ==> w in degrees)
    requires forall w :: w in before <==> w in ids && degrees[w] == 0
    requires forall w :: w in after <==> w in before || (degrees[v] == 1 && w == v)
    requires v !in before
    ensures forall w :: w in after <==> w in ids && degrees[v := degrees[v] - 1][w] == 0
  {
    forall w ensures w in after <==> w in ids && degrees[v := degrees[v] - 1][w] == 0 {
      if w != v {
        assert w in ids ==> degrees[v := degrees[v] - 1][w] == degrees[w];
      }
    }
  }

  lemma DecrementKeys(ids: seq<string>, degrees: map<string, int>, v: string)
    requires degrees.Keys == Elems(ids) && v in ids
    ensures v in degrees && degrees[v := degrees[v] - 1].Keys == Elems(ids)
    ensures forall w :: w in ids ==> w in degrees
  {
    assert v in Elems(ids);
    forall w | w in ids ensures w in degrees { assert w in Elems(ids); }
  }

  lemma DecrementQueue(done: seq<string>, queue: seq<string>, v: string, zero: bool, queue': seq<string>)
    requires NoDup(done + queue) && v !in done + queue
    requires multiset(queue') == multiset(if zero then queue + [v] else queue)
    ensures NoDup(done + queue')
    ensures forall w :: w in done + queue' <==> w in done + queue || (zero && w == v)
  {
    var plain := if zero then queue + [v] else queue;
    assert done + (queue + [v]) == (done + queue) + [v];
    assert NoDup(done + plain);
    assert multiset(done + queue') == multiset(done + plain);
    PermutationFacts(done + queue', done + plain);
  }

  lemma DecrementDegrees(ids: seq<string>, es: seq<Edge>, degrees: map<string, int>, done: seq<string>,
                         rest: seq<string>)
    requires rest != [] && rest[0] in degrees && (forall v :: v in ids ==> v in degrees)
    requires forall v :: v in ids ==> degrees[v] == InDegree(es, Elems(done), v) + multiset(rest)[v]
    ensures forall v :: v in ids ==>
              degrees[rest[0] := degrees[rest[0]] - 1][v] == InDegree(es, Elems(done), v) + multiset(rest[1..])[v]
  {
    hide InDegree;
    assert rest == [rest[0]] + rest[1..];
    assert multiset(rest) == multiset{rest[0]} + multiset(rest[1..]);
  }

  /** When the queue runs dry, all nodes are done exactly if the graph is acyclic. */
  lemma KahnEnd(ids: seq<string>, es: seq<Edge>, degrees: map<string, int>, done: seq<string>)
    requires Kahn(ids, es, degrees, [], done, [])
    ensures |done| <= |ids|
    ensures |done| == |ids| <==> Acyclic(es)
    ensures |done| == |ids| ==> multiset(done) == multiset(ids)
  {
    assert done + [] == done;
    NoDupCard(done);
    NoDupCard(ids);
    SubsetCard(Elems(done), Elems(ids));
    if |done| == |ids| {
      assert Elems(done) == Elems(ids);
      forall v ensures v in ids ==> v in done {
        assert v in Elems(ids) ==> v in Elems(done);
      }
      TopologicalIsAcyclic(es, done);
      NoDupSameElems(done, ids);
    } else {
      var R := Elems(ids) - Elems(done);
      LargerLeaves(Elems(ids), Elems(done));
      forall v | v in R ensures HasPredecessorIn(es, R, v) {
        assert v in ids && v !in done && degrees[v] != 0;
        InDegreeZero(es, Elems(done), v);
        var e :| e in es && e.to == v && e.from !in Elems(done);
        assert e.from in R && Edge(e.from, v) in es;
      }
      StuckIsCyclic(es, R);
    }
  }

  lemma {:induction false} NoDupSameElems<T>(a: seq<T>, b: seq<T>)
    requires NoDup(a) && NoDup(b) && Elems(a) == Elems(b)
    ensures multiset(a) == multiset(b)
  {
    NoDupMultiset(a);
    NoDupMultiset(b);
    forall x ensures multiset(a)[x] == multiset(b)[x] {
      assert x in a <==> x in Elems(a);
      assert x in b <==> x in Elems(b);
      assert x in a <==> x in multiset(a);
      assert x in b <==> x in multiset(b);
    }
  }

  lemma KahnBound(ids: seq<string>, es: seq<Edge>, degrees: map<string, int>, queue: seq<string>, done: seq<string>)
    requires Kahn(ids, es, degrees, queue, done, [])
    ensures |done| + |queue| <= |ids|
  {
    NoDupCard(done + queue);
    NoDupCard(ids);
    SubsetCard(Elems(done + queue), Elems(ids));
  }
}
