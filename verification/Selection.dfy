/** Choosing one provider per required dependency so that the module graph is acyclic
    (`acyclicProviderSelection` and `isAcyclic` in pkg/module/compose.go). */
module Selection {
  import opened Text
  import opened Graph

  /** One required dependency: the consumer and its acceptable providers in preference order. */
  datatype Choice = Choice(consumer: string, providers: seq<string>)

  /** Every consumer and provider is one of the modules. */
  ghost predicate ChoicesWithin(choices: seq<Choice>, ids: seq<string>) {
    forall i :: 0 <= i < |choices| ==>
      choices[i].consumer in ids && forall p :: p in choices[i].providers ==> p in ids
  }

  /** Picks for the first |picks| choices: positions in their provider lists. */
  predicate ValidPicks(choices: seq<Choice>, picks: seq<nat>) {
    |picks| <= |choices| && forall i :: 0 <= i < |picks| ==> picks[i] < |choices[i].providers|
  }

  predicate FullPicks(choices: seq<Choice>, picks: seq<nat>) {
    |picks| == |choices| && ValidPicks(choices, picks)
  }

  /** The edges that a selection adds, in the order in which the search adds them. */
  function EdgesOf(choices: seq<Choice>, picks: seq<nat>): (es: seq<Edge>)
    requires ValidPicks(choices, picks)
    ensures |es| == |picks|
    ensures forall i :: 0 <= i < |picks| ==> es[i] == Edge(choices[i].providers[picks[i]], choices[i].consumer)
  {
    seq(|picks|, i requires 0 <= i < |picks| => Edge(choices[i].providers[picks[i]], choices[i].consumer))
  }

  /** `a` is preferred to `b`: at the first choice where they differ, `a` picks an earlier provider. */
  predicate Preferred(a: seq<nat>, b: seq<nat>) {
    exists k :: 0 <= k < |a| && k < |b| && a[..k] == b[..k] && a[k] < b[k]
  }

  /** A full selection that leaves the graph acyclic. */
  ghost predicate Solution(choices: seq<Choice>, picks: seq<nat>) {
    FullPicks(choices, picks) && Acyclic(EdgesOf(choices, picks))
  }

  ghost predicate Solvable(choices: seq<Choice>) {
    exists b :: Solution(choices, b)
  }

  /** The solution that the preference order puts first. */
  ghost predicate FirstSolution(choices: seq<Choice>, picks: seq<nat>) {
    && Solution(choices, picks)
    && forall b :: Solution(choices, b) ==> !Preferred(b, picks)
  }

  /** No solution starts with these picks. */
  ghost predicate DeadEnd(choices: seq<Choice>, picks: seq<nat>) {
    forall b :: Solution(choices, b) ==> !(picks <= b)
  }

  lemma FirstSolutionUnique(choices: seq<Choice>, a: seq<nat>, b: seq<nat>)
    requires FirstSolution(choices, a) && FirstSolution(choices, b)
    ensures a == b
  {
    PreferenceIsTotal(a, b);
  }

  lemma PreferenceIsTotal(a: seq<nat>, b: seq<nat>)
    requires |a| == |b|
    ensures a == b || Preferred(a, b) || Preferred(b, a)
  {
    if a != b {
      var k := FirstDifference(a, b);
      assert a[..k] == b[..k];
    }
  }

  lemma EdgesExtend(choices: seq<Choice>, picks: seq<nat>, p: nat)
    requires ValidPicks(choices, picks + [p])
    ensures ValidPicks(choices, picks)
    ensures EdgesOf(choices, picks + [p])
         == EdgesOf(choices, picks) + [Edge(choices[|picks|].providers[p], choices[|picks|].consumer)]
  {
    assert forall i :: 0 <= i < |picks| ==> (picks + [p])[i] == picks[i];
  }

  lemma PrefixOfSolution(choices: seq<Choice>, picks: seq<nat>, b: seq<nat>)
    requires ValidPicks(choices, picks) && FullPicks(choices, b) && picks <= b
    ensures !Acyclic(EdgesOf(choices, picks)) ==> !Acyclic(EdgesOf(choices, b))
  {
    forall e | e in EdgesOf(choices, picks) ensures e in EdgesOf(choices, b) {
      var i :| 0 <= i < |picks| && EdgesOf(choices, picks)[i] == e;
      assert EdgesOf(choices, b)[i] == e;
    }
    if !Acyclic(EdgesOf(choices, picks)) {
      CyclicStaysCyclic(EdgesOf(choices, picks), EdgesOf(choices, b));
    }
  }

  /** A cyclic prefix is a dead end: pruning loses no solution. */
  lemma CyclicPrefixIsDeadEnd(choices: seq<Choice>, picks: seq<nat>)
    requires ValidPicks(choices, picks) && !Acyclic(EdgesOf(choices, picks))
    ensures DeadEnd(choices, picks)
  {
    forall b | FullPicks(choices, b) && picks <= b ensures !Acyclic(EdgesOf(choices, b)) {
      PrefixOfSolution(choices, picks, b);
    }
  }

  /** A solution that extends the picks extends one of their branches, which is then no dead end. */
  lemma SolutionTakesABranch(choices: seq<Choice>, picks: seq<nat>)
    requires ValidPicks(choices, picks) && |picks| < |choices|
    ensures forall b :: Solution(choices, b) && picks <= b ==>
              && picks + [b[|picks|]] <= b && b[|picks|] < |choices[|picks|].providers|
              && !DeadEnd(choices, picks + [b[|picks|]])
  {
    forall b | Solution(choices, b) && picks <= b
      ensures picks + [b[|picks|]] <= b && !DeadEnd(choices, picks + [b[|picks|]])
    {
      assert picks + [b[|picks|]] == b[..|picks| + 1];
    }
  }

  /** If every pick for the next choice is a dead end, so is the prefix. */
  lemma AllBranchesDead(choices: seq<Choice>, picks: seq<nat>)
    requires ValidPicks(choices, picks) && |picks| < |choices|
    requires forall p :: 0 <= p < |choices[|picks|].providers| ==> DeadEnd(choices, picks + [p])
    ensures DeadEnd(choices, picks)
  {
    SolutionTakesABranch(choices, picks);
  }

  lemma EmptyPicksDeadEnd(choices: seq<Choice>)
    ensures DeadEnd(choices, []) <==> !Solvable(choices)
  {}

  /** The first solution among those that extend the picks. */
  ghost predicate FirstFrom(choices: seq<Choice>, picks: seq<nat>, full: seq<nat>) {
    && Solution(choices, full) && picks <= full
    && forall b :: Solution(choices, b) && picks <= b ==> !Preferred(b, full)
  }

  lemma LaterIsNotPreferred(b: seq<nat>, full: seq<nat>, n: nat)
    requires n < |b| && n < |full| && b[..n] == full[..n] && full[n] < b[n]
    ensures !Preferred(b, full)
  {
    forall k | 0 <= k < n ensures b[k] == full[k] {
      assert b[..n][k] == full[..n][k];
    }
    forall k | n < k < |b| && k < |full| ensures b[..k] != full[..k] {
      assert b[..k][n] == b[n] && full[..k][n] == full[n];
    }
  }

  /** If the earlier branches are dead ends, the first solution of a branch is first for the prefix. */
  lemma FirstOfBranch(choices: seq<Choice>, picks: seq<nat>, p: nat, full: seq<nat>)
    requires ValidPicks(choices, picks) && |picks| < |choices|
    requires forall q :: 0 <= q < p ==> DeadEnd(choices, picks + [q])
    requires FirstFrom(choices, picks + [p], full)
    ensures FirstFrom(choices, picks, full)
  {
    var n := |picks|;
    assert (picks + [p])[n] == p && full[n] == p;
    assert picks <= full by { assert picks <= picks + [p]; }
    SolutionTakesABranch(choices, picks);
    forall b | Solution(choices, b) && picks <= b ensures !Preferred(b, full) {
      assert b[n] >= p;
      if b[n] > p {
        assert b[..n] == picks == full[..n];
        LaterIsNotPreferred(b, full, n);
      }
    }
  }

  // ---- isAcyclic ----

  /** `isAcyclic`: true exactly when no module reaches itself. */
  method IsAcyclic(ids: seq<string>, inDegree: map<string, int>, dependents: map<string, seq<string>>,
                   ghost es: seq<Edge>) returns (ok: bool)
    requires Represents(ids, inDegree, dependents, es)
    ensures ok <==> Acyclic(es)
  {
    hide Kahn;
    var degrees := inDegree;
    var queue := Roots(ids, degrees);
    KahnStart(ids, es, degrees, queue);
    var visited := 0;
    ghost var done: seq<string> := [];
    while |queue| > 0
      invariant Kahn(ids, es, degrees, queue, done, [])
      invariant visited == |done|
      decreases |ids| - |done|
    {
      KahnBound(ids, es, degrees, queue, done);
      var current := queue[0];
      var next := At(dependents, current);
      KahnPop(ids, es, degrees, queue, done, next);
      visited := visited + 1;
      degrees, queue := Decrement(ids, degrees, queue[1..], next, es, done + [current]);
      done := done + [current];
    }
    KahnEnd(ids, es, degrees, done);
    ok := visited == |ids|;
  }

  /** The first loop of `isAcyclic`: the modules without unmet dependencies. */
  method Roots(ids: seq<string>, degrees: map<string, int>) returns (queue: seq<string>)
    requires NoDup(ids) && degrees.Keys == Elems(ids)
    ensures NoDup(queue) && forall v :: v in queue <==> v in ids && degrees[v] == 0
  {
    queue := [];
    assert forall v :: v in ids ==> v in degrees by {
      forall v | v in ids ensures v in degrees { assert v in Elems(ids); }
    }
    for i := 0 to |ids|
      invariant NoDup(queue)
      invariant forall v :: v in queue <==> v in ids[..i] && degrees[v] == 0
    {
      if degrees[ids[i]] == 0 {
        queue := queue + [ids[i]];
      }
      assert ids[..i+1] == ids[..i] + [ids[i]];
    }
    assert ids[..|ids|] == ids;
  }

  /** The inner loop of `isAcyclic`. */
  method Decrement(ids: seq<string>, degrees0: map<string, int>, queue0: seq<string>, next: seq<string>,
                   ghost es: seq<Edge>, ghost done: seq<string>)
    returns (degrees: map<string, int>, queue: seq<string>)
    requires Kahn(ids, es, degrees0, queue0, done, next)
    ensures Kahn(ids, es, degrees, queue, done, [])
  {
    hide Kahn;
    degrees, queue := degrees0, queue0;
    assert next[0..] == next;
    for k := 0 to |next|
      invariant Kahn(ids, es, degrees, queue, done, next[k..])
    {
      var dependent := next[k];
      assert next[k..][0] == dependent && next[k..][1..] == next[k+1..];
      KahnPending(ids, es, degrees, queue, done, next[k..]);
      KahnDecrement(ids, es, degrees, queue, done, next[k..],
                    if degrees[dependent] == 1 then queue + [dependent] else queue);
      degrees := degrees[dependent := degrees[dependent] - 1];
      if degrees[dependent] == 0 {
        queue := queue + [dependent];
      }
    }
    assert next[|next|..] == [];
  }

  lemma LeafIsFirst(choices: seq<Choice>, picks: seq<nat>)
    requires ValidPicks(choices, picks) && |picks| == |choices| && Acyclic(EdgesOf(choices, picks))
    ensures FirstFrom(choices, picks, picks)
  {
    hide Acyclic;
  }

  // ---- The backtracking search ----

  /** The variables that the closure `choose` shares between its recursive calls. */
  class Search {
    const ids: seq<string>
    const choices: seq<Choice>
    var inDegree: map<string, int>
    var dependents: map<string, seq<string>>

    /** The maps hold exactly the edges of these picks. */
    ghost predicate Holds(picks: seq<nat>)
      reads this
    {
      && NoDup(ids) && ChoicesWithin(choices, ids) && ValidPicks(choices, picks)
      && Represents(ids, inDegree, dependents, EdgesOf(choices, picks))
    }

    constructor (ids: seq<string>, choices: seq<Choice>)
      requires NoDup(ids) && ChoicesWithin(choices, ids)
      ensures this.ids == ids && this.choices == choices
      ensures Holds([])
    {
      this.ids := ids;
      this.choices := choices;
      this.inDegree := map id | id in ids :: 0;
      this.dependents := map[];
    }

    /** Takes a provider for the next choice. */
    method Push(consumer: string, providerID: string, ghost picks: seq<nat>, ghost p: nat)
      requires Holds(picks) && ValidPicks(choices, picks + [p])
      requires choices[|picks|].consumer == consumer && choices[|picks|].providers[p] == providerID
      modifies this
      ensures Holds(picks + [p])
    {
      EdgesExtend(choices, picks, p);
      RepresentsPush(ids, inDegree, dependents, EdgesOf(choices, picks), Edge(providerID, consumer));
      inDegree := inDegree[consumer := inDegree[consumer] + 1];
      dependents := dependents[providerID := At(dependents, providerID) + [consumer]];
    }

    /** Undoes the last take. */
    method Pop(consumer: string, providerID: string, ghost picks: seq<nat>, ghost p: nat)
      requires Holds(picks + [p]) && ValidPicks(choices, picks)
      requires choices[|picks|].consumer == consumer && choices[|picks|].providers[p] == providerID
      modifies this
      ensures Holds(picks)
    {
      EdgesExtend(choices, picks, p);
      RepresentsPop(ids, inDegree, dependents, EdgesOf(choices, picks), Edge(providerID, consumer));
      dependents := dependents[providerID := dependents[providerID][..|dependents[providerID]| - 1]];
      if |dependents[providerID]| == 0 {
        dependents := dependents - {providerID};
      }
      inDegree := inDegree[consumer := inDegree[consumer] - 1];
    }

    /** `choose`: on success the maps hold the first solution that extends the picks made so far; on
        failure there is none and both maps are exactly what they were. */
    method Choose(index: nat, ghost picks: seq<nat>) returns (ok: bool, ghost full: seq<nat>)
      requires Holds(picks) && index == |picks|
      modifies this
      ensures ok ==> FirstFrom(choices, picks, full) && Holds(full)
      ensures !ok ==> DeadEnd(choices, picks) && inDegree == old(inDegree) && dependents == old(dependents)
      decreases |choices| - index
    {
      hide Represents, Acyclic, FirstFrom, EdgesOf, ChoicesWithin, NoDup;
      full := picks;
      var acyclic := IsAcyclic(ids, inDegree, dependents, EdgesOf(choices, picks));
      if !acyclic {
        CyclicPrefixIsDeadEnd(choices, picks);
        return false, picks;
      }
      if index == |choices| {
        LeafIsFirst(choices, picks);
        return true, picks;
      }
      var choice := choices[index];
      for i := 0 to |choice.providers|
        invariant inDegree == old(inDegree) && dependents == old(dependents)
        invariant forall q :: 0 <= q < i ==> DeadEnd(choices, picks + [q])
      {
        var providerID := choice.providers[i];
        Push(choice.consumer, providerID, picks, i);
        ok, full := Choose(index + 1, picks + [i]);
        if ok {
          FirstOfBranch(choices, picks, i, full);
          return true, full;
        }
        Pop(choice.consumer, providerID, picks, i);
        RepresentationUnique(ids, inDegree, dependents, old(inDegree), old(dependents), EdgesOf(choices, picks));
      }
      AllBranchesDead(choices, picks);
      ok := false;
    }
  }

  /** `acyclicProviderSelection` fails exactly when no selection is acyclic; otherwise it returns the edge
      counts and adjacency of the first acyclic selection in preference order. */
  method AcyclicProviderSelection(ids: seq<string>, choices: seq<Choice>)
    returns (inDegree: map<string, int>, dependents: map<string, seq<string>>, ok: bool, ghost picks: seq<nat>)
    requires NoDup(ids) && ChoicesWithin(choices, ids)
    ensures ok <==> Solvable(choices)
    ensures ok ==> FirstSolution(choices, picks) && Represents(ids, inDegree, dependents, EdgesOf(choices, picks))
  {
    var search := new Search(ids, choices);
    ok, picks := search.Choose(0, []);
    inDegree, dependents := map[], map[];
    if ok {
      inDegree, dependents := search.inDegree, search.dependents;
    }
    EmptyPicksDeadEnd(choices);
  }
}
