/** What success of `Sort` and `Compose` (pkg/module/compose.go) means in terms of the modules alone, without
    mention of selections: an arrangement of the modules exists. */
module Arrangement {
  import opened Results
  import opened Text
  import opened Graph
  import opened Selection
  import opened Providers
  import opened Compose
  import V = Version

  /** Some other module than this one may serve the dependency. */
  ghost predicate OthersMayServe(refs: seq<Ref>, dep: Dependency, self: string) {
    exists id :: Admissible(refs, dep, id) && id != self
  }

  /** A module before position k may serve the dependency. */
  ghost predicate ServedBefore(refs: seq<Ref>, t: seq<Composable>, k: nat, dep: Dependency)
    requires k <= |t|
  {
    exists j :: 0 <= j < k && Admissible(refs, dep, IdOf(t[j]))
  }

  /** t lists the modules so that every required dependency which another module may serve is served by a module
      strictly earlier, the module's own offer notwithstanding. */
  ghost predicate Arranged(modules: seq<Composable>, t: seq<Composable>) {
    && multiset(t) == multiset(modules)
    && forall k, dep :: 0 <= k < |t| && Requires(t[k], dep) && OthersMayServe(RefsOf(modules), dep, IdOf(t[k])) ==>
         ServedBefore(RefsOf(modules), t, k, dep)
  }

  // ---- A selection gives an arrangement ----

  lemma SelectionArranges(modules: seq<Composable>, picks: seq<nat>, t: seq<Composable>)
    requires multiset(t) == multiset(modules)
    requires FullPicks(ChoicesOf(RefsOf(modules), RefsOf(modules)), picks)
    requires RespectsEdges(EdgesOf(ChoicesOf(RefsOf(modules), RefsOf(modules)), picks), Ids(RefsOf(t)))
    ensures Arranged(modules, t)
  {
    hide Admissible, FullPicks, RespectsEdges, ChoicesOf, EdgesOf;
    forall k, dep | 0 <= k < |t| && Requires(t[k], dep) && OthersMayServe(RefsOf(modules), dep, IdOf(t[k]))
      ensures ServedBefore(RefsOf(modules), t, k, dep)
    {
      var other :| Admissible(RefsOf(modules), dep, other) && other != IdOf(t[k]);
      var j := ProviderBefore(modules, t, picks, k, dep, other);
    }
  }

  /** The modules that stand behind an order of their IDs. */
  lemma ModulesInOrder(modules: seq<Composable>, order: seq<string>) returns (t: seq<Composable>)
    requires NoDup(Ids(RefsOf(modules))) && NoDup(order) && multiset(order) == multiset(Ids(RefsOf(modules)))
    ensures multiset(t) == multiset(modules) && Ids(RefsOf(t)) == order
  {
    var ids := Ids(RefsOf(modules));
    var byID := ByID(RefsOf(modules));
    SameElems(order, ids);
    hide NoDup;
    forall k | 0 <= k < |order| ensures order[k] in byID {
      assert order[k] in Elems(order);
      assert order[k] in ids;
    }
    t := seq(|order|, k requires 0 <= k < |order| => byID[order[k]]);
    ArrangedIsPermutation(modules, byID, order, t);
  }

  lemma SameElems(a: seq<string>, b: seq<string>)
    requires multiset(a) == multiset(b)
    ensures Elems(a) == Elems(b)
  {
    PermutationFacts(a, b);
    forall x ensures x in Elems(a) <==> x in Elems(b) {
      assert x in a <==> x in b;
    }
  }

  lemma {:induction false} ByID(refs: seq<Ref>) returns (byID: map<string, Composable>)
    requires NoDup(Ids(refs))
    ensures forall id :: id in byID <==> id in Ids(refs)
    ensures forall ref :: ref in refs ==> ref.id in byID && byID[ref.id] == ref.mod
  {
    if refs == [] {
      byID := map[];
    } else {
      var n := |refs| - 1;
      assert Ids(refs) == Ids(refs[..n]) + [refs[n].id];
      var before := ByID(refs[..n]);
      byID := before[refs[n].id := refs[n].mod];
      assert refs == refs[..n] + [refs[n]];
      forall ref | ref in refs[..n] ensures ref.id != refs[n].id {
        var i :| 0 <= i < n && refs[i] == ref;
        assert Ids(refs)[i] != Ids(refs)[n];
      }
    }
  }

  lemma SolutionArranges(modules: seq<Composable>, picks: seq<nat>) returns (t: seq<Composable>)
    requires WellNamed(modules) && Solution(ChoicesOf(RefsOf(modules), RefsOf(modules)), picks)
    ensures Arranged(modules, t)
  {
    hide ChoicesOf, WellNamed, Acyclic, EdgesOf, RespectsEdges, Arranged;
    var refs := RefsOf(modules);
    var choices := ChoicesOf(refs, refs);
    WellNamedRefs(modules);
    EdgesInside(refs, picks);
    var order := TopologicalExists(EdgesOf(choices, picks), Ids(refs));
    t := ModulesInOrder(modules, order);
    SelectionArranges(modules, picks, t);
  }

  lemma EdgesInside(refs: seq<Ref>, picks: seq<nat>)
    requires FullPicks(ChoicesOf(refs, refs), picks)
    ensures Within(EdgesOf(ChoicesOf(refs, refs), picks), Ids(refs))
  {
    hide ChoicesOf;
    forall ref | ref in refs ensures ref.id in Ids(refs) {
      var i :| 0 <= i < |refs| && refs[i] == ref;
      assert Ids(refs)[i] == ref.id;
    }
    ChoicesSound(refs, refs);
    var choices := ChoicesOf(refs, refs);
    var es := EdgesOf(choices, picks);
    forall e | e in es ensures e.from in Ids(refs) && e.to in Ids(refs) {
      var i :| 0 <= i < |es| && es[i] == e;
      assert choices[i] in choices && choices[i].providers[picks[i]] in choices[i].providers;
    }
  }

  // ---- An arrangement gives a selection ----

  /** The choice is what a required dependency of a module leaves to decide. */
  ghost predicate ComesFrom(refs: seq<Ref>, some: seq<Ref>, c: Choice) {
    exists ref, dep :: ref in some && Requires(ref.mod, dep) && Serves(refs, ref.id, dep, c)
  }

  lemma ChoiceServes(refs: seq<Ref>, consumer: string, dep: Dependency, c: Choice)
    requires c in ChoiceOf(refs, consumer, dep)
    ensures dep.required && |c.providers| > 0 && Serves(refs, consumer, dep, c)
  {
    hide Serves, SatisfyingProviders, CompatibleIDs, Others;
    SelectedServes(refs, consumer, dep);
  }

  lemma {:induction false} DepChoiceServes(refs: seq<Ref>, consumer: string, deps: seq<Dependency>, c: Choice)
    returns (dep: Dependency)
    requires c in ChoicesOfDeps(refs, consumer, deps)
    ensures dep in deps && dep.required && |c.providers| > 0 && Serves(refs, consumer, dep, c)
  {
    hide ChoiceOf, Serves;
    var n := |deps| - 1;
    if c in ChoicesOfDeps(refs, consumer, deps[..n]) {
      dep := DepChoiceServes(refs, consumer, deps[..n], c);
    } else {
      dep := deps[n];
      ChoiceServes(refs, consumer, dep, c);
    }
  }

  /** Conversely to ChoicesComplete, every choice comes from a required dependency, and leaves a provider. */
  lemma {:induction false} ChoicesComeFrom(refs: seq<Ref>, some: seq<Ref>, c: Choice)
    requires c in ChoicesOf(refs, some)
    ensures |c.providers| > 0 && ComesFrom(refs, some, c)
  {
    hide ChoicesOfDeps, Serves;
    var n := |some| - 1;
    if c in ChoicesOf(refs, some[..n]) {
      ChoicesComeFrom(refs, some[..n], c);
      var ref, dep :| ref in some[..n] && Requires(ref.mod, dep) && Serves(refs, ref.id, dep, c);
      assert ref in some;
    } else {
      FromModule(refs, some[n], c);
      assert some[n] in some;
    }
  }

  lemma FromModule(refs: seq<Ref>, ref: Ref, c: Choice)
    requires c in ChoicesOfDeps(refs, ref.id, if ref.mod.Module? then ref.mod.dependencies else [])
    ensures |c.providers| > 0 && exists dep :: Requires(ref.mod, dep) && Serves(refs, ref.id, dep, c)
  {
    hide Serves;
    var dep := DepChoiceServes(refs, ref.id, if ref.mod.Module? then ref.mod.dependencies else [], c);
  }

  /** In an arrangement every choice has a provider that stands before wherever its consumer stands. */
  lemma ArrangedPick(modules: seq<Composable>, t: seq<Composable>, c: Choice) returns (p: nat)
    requires WellNamed(modules) && Arranged(modules, t)
    requires c in ChoicesOf(RefsOf(modules), RefsOf(modules))
    ensures p < |c.providers|
    ensures forall k :: 0 <= k < |t| && IdOf(t[k]) == c.consumer ==> c.providers[p] in Ids(RefsOf(t))[..k]
  {
    hide Admissible, ChoicesOf, WellNamed;
    var refs := RefsOf(modules);
    ChoicesComeFrom(refs, refs, c);
    var ref, dep :| ref in refs && Requires(ref.mod, dep) && Serves(refs, ref.id, dep, c);
    var k := PositionOf(modules, t, ref);
    assert c.providers[0] in c.providers;
    assert OthersMayServe(refs, dep, ref.id);
    var j :| 0 <= j < k && Admissible(refs, dep, IdOf(t[j]));
    assert IdOf(t[j]) != ref.id;
    p :| 0 <= p < |c.providers| && c.providers[p] == IdOf(t[j]);
    assert Ids(RefsOf(t))[..k][j] == c.providers[p];
  }

  /** A module stands at one place only. */
  lemma PositionOf(modules: seq<Composable>, t: seq<Composable>, ref: Ref) returns (k: nat)
    requires WellNamed(modules) && multiset(t) == multiset(modules) && ref in RefsOf(modules)
    ensures k < |t| && t[k] == ref.mod && IdOf(t[k]) == ref.id
    ensures forall l :: 0 <= l < |t| && IdOf(t[l]) == ref.id ==> l == k
  {
    PermutationFacts(t, modules);
    var i :| 0 <= i < |modules| && RefsOf(modules)[i] == ref;
    assert modules[i] in t;
    k :| 0 <= k < |t| && t[k] == modules[i];
    DistinctIDs(modules, t);
  }

  lemma DistinctIDs(modules: seq<Composable>, t: seq<Composable>)
    requires WellNamed(modules) && multiset(t) == multiset(modules)
    ensures NoDup(Ids(RefsOf(t)))
    ensures forall i, j :: 0 <= i < |t| && 0 <= j < |t| && IdOf(t[i]) == IdOf(t[j]) ==> i == j
  {
    WellNamedRefs(modules);
    hide WellNamed;
    assert forall i :: 0 <= i < |modules| ==> Ids(RefsOf(modules))[i] == IdOf(modules[i]);
    NoDupModules(modules);
    PermutationFacts(t, modules);
    forall i, j | 0 <= i < j < |t| ensures IdOf(t[i]) != IdOf(t[j]) {
      assert t[i] in modules && t[j] in modules && t[i] != t[j];
      var k :| 0 <= k < |modules| && modules[k] == t[i];
      var l :| 0 <= l < |modules| && modules[l] == t[j];
      assert k != l;
    }
    assert forall i :: 0 <= i < |t| ==> Ids(RefsOf(t))[i] == IdOf(t[i]);
  }

  lemma NoDupModules(modules: seq<Composable>)
    requires NoDup(Ids(RefsOf(modules)))
    ensures NoDup(modules)
  {
    forall i, j | 0 <= i < j < |modules| ensures modules[i] != modules[j] {
      assert Ids(RefsOf(modules))[i] != Ids(RefsOf(modules))[j];
    }
  }

  lemma SameIDs(a: seq<Composable>, b: seq<Composable>)
    requires multiset(a) == multiset(b)
    ensures forall id :: id in Ids(RefsOf(a)) ==> id in Ids(RefsOf(b))
  {
    PermutationFacts(a, b);
    forall id | id in Ids(RefsOf(a)) ensures id in Ids(RefsOf(b)) {
      var i :| 0 <= i < |a| && Ids(RefsOf(a))[i] == id;
      assert a[i] in b;
      var j :| 0 <= j < |b| && b[j] == a[i];
      assert Ids(RefsOf(b))[j] == id;
    }
  }

  lemma {:induction false} ArrangedPicks(modules: seq<Composable>, t: seq<Composable>, choices: seq<Choice>)
    returns (picks: seq<nat>)
    requires WellNamed(modules) && Arranged(modules, t)
    requires forall c :: c in choices ==> c in ChoicesOf(RefsOf(modules), RefsOf(modules))
    ensures FullPicks(choices, picks) && RespectsEdges(EdgesOf(choices, picks), Ids(RefsOf(t)))
  {
    hide ChoicesOf, WellNamed, Arranged;
    if choices == [] {
      picks := [];
    } else {
      var n := |choices| - 1;
      var before := ArrangedPicks(modules, t, choices[..n]);
      var p := ArrangedPick(modules, t, choices[n]);
      picks := before + [p];
      assert EdgesOf(choices, picks)
          == EdgesOf(choices[..n], before) + [Edge(choices[n].providers[p], choices[n].consumer)];
    }
  }

  lemma ArrangementSelects(modules: seq<Composable>, t: seq<Composable>) returns (picks: seq<nat>)
    requires WellNamed(modules) && Arranged(modules, t)
    ensures Solution(ChoicesOf(RefsOf(modules), RefsOf(modules)), picks)
  {
    hide ChoicesOf, WellNamed, Acyclic, RespectsEdges, EdgesOf, Within;
    var refs := RefsOf(modules);
    var choices := ChoicesOf(refs, refs);
    picks := ArrangedPicks(modules, t, choices);
    DistinctIDs(modules, t);
    EdgesInside(refs, picks);
    SameIDs(modules, t);
    WithinSame(EdgesOf(choices, picks), Ids(refs), Ids(RefsOf(t)));
    TopologicalIsAcyclic(EdgesOf(choices, picks), Ids(RefsOf(t)));
  }

  lemma WithinSame(es: seq<Edge>, a: seq<string>, b: seq<string>)
    requires Within(es, a) && forall id :: id in a ==> id in b
    ensures Within(es, b)
  {}

  // ---- The condition, without selections ----

  /** Given well-formed declarations, `Sort` succeeds exactly when the modules can be arranged. */
  lemma SortableIff(modules: seq<Composable>)
    requires WellNamed(modules) && PortsValid(RefsOf(modules)) && DependenciesValid(RefsOf(modules))
    ensures Sortable(modules) <==> exists t :: Arranged(modules, t)
  {
    hide WellNamed, PortsValid, DependenciesValid, ChoicesOf, Solvable, Arranged;
    SolutionIff(modules);
  }

  lemma SolutionIff(modules: seq<Composable>)
    requires WellNamed(modules)
    ensures Solvable(ChoicesOf(RefsOf(modules), RefsOf(modules))) <==> exists t :: Arranged(modules, t)
  {
    hide WellNamed, ChoicesOf, Solution, Arranged;
    var choices := ChoicesOf(RefsOf(modules), RefsOf(modules));
    if b :| Solution(choices, b) {
      var t := SolutionArranges(modules, b);
    }
    if t :| Arranged(modules, t) {
      var b := ArrangementSelects(modules, t);
    }
  }

  /** `Compose` succeeds exactly when the requested modules can be built, all declarations are valid, every
      required dependency has an acceptable provider, and the modules can be arranged. */
  lemma ComposesIff(catalog: Catalog, ids: seq<string>)
    ensures Composes(catalog, ids) <==>
              var wanted := Requested(catalog, ids);
              && (forall id :: id in wanted ==> BuildModule(catalog, id).Ok?)
              && var modules := Built(catalog, wanted);
                 PortsValid(RefsOf(modules)) && AllMet(RefsOf(modules), RefsOf(modules))
                 && exists t :: Arranged(modules, t)
  {
    hide PortsValid, AllMet, ChoicesOf, Solvable, Arranged, BuildModule, WantedIDs, WellNamed;
    var wanted := Requested(catalog, ids);
    if forall id :: id in wanted ==> BuildModule(catalog, id).Ok? {
      BuiltWellNamed(catalog, if ids == [] then catalog.defaults else ids);
      SolutionIff(Built(catalog, wanted));
    }
  }

  // ---- A cycle that is not there ----

  /** Any version of the port will do, from any provider. */
  function Needs(port: string): Dependency {
    Dependency(Port(port, ""), true, "", "", [])
  }

  const VERSION_1: string := "1"

  /** It offers x and y and needs x, which it could serve itself. */
  const SELF_SUFFICIENT: Composable := Module("a", [Needs("x")], [Port("x", VERSION_1), Port("y", VERSION_1)], [], [])

  /** It offers x too and needs y. */
  const DEPENDENT: Composable := Module("b", [Needs("y")], [Port("x", VERSION_1)], [], [])

  lemma VersionOneIsValid()
    ensures V.ValidVersion(VERSION_1) && V.ValidConstraint("") && V.MatchesVersion(VERSION_1, "") == Ok(true)
  {
    var t := V.VersionText(false, [1], "");
    assert V.Decimal(1) == "1";
    assert V.Render(t) == "1";
    V.RenderParses(t, "", "");
    assert "" + V.Render(t) + "" == VERSION_1;
  }

  lemma OffersPort(m: Composable, port: string, i: nat)
    requires m.Module? && i < |m.ports| && m.ports[i] == Port(port, VERSION_1)
    ensures Offers(m, Needs(port))
  {
    hide V.MatchesVersion;
    VersionOneIsValid();
    assert m.ports[i] in m.ports;
  }

  lemma PlainAdmissible(refs: seq<Ref>, port: string, id: string)
    ensures Admissible(refs, Needs(port), id) <==> Compatible(refs, Needs(port), id)
  {
    hide Compatible;
    assert TrimSpace("") == "";
  }

  lemma ExampleIsNamed()
    ensures WellNamed([SELF_SUFFICIENT, DEPENDENT]) && TrimSpace("x") == "x" && TrimSpace("y") == "y"
    ensures IdOf(SELF_SUFFICIENT) == "a" && IdOf(DEPENDENT) == "b"
  {
    assert TrimSpace("a") == "a" && TrimSpace("b") == "b";
    assert TrimSpace("x") == "x" && TrimSpace("y") == "y";
  }

  lemma ExampleAdmits()
    ensures var refs := RefsOf([SELF_SUFFICIENT, DEPENDENT]);
            && Admissible(refs, Needs("x"), "a") && Admissible(refs, Needs("x"), "b")
            && Admissible(refs, Needs("y"), "a")
  {
    hide Offers, Admissible;
    var refs := RefsOf([SELF_SUFFICIENT, DEPENDENT]);
    ExampleIsNamed();
    OffersPort(SELF_SUFFICIENT, "x", 0);
    OffersPort(SELF_SUFFICIENT, "y", 1);
    OffersPort(DEPENDENT, "x", 0);
    assert refs[0] in refs && refs[1] in refs;
    PlainAdmissible(refs, "x", "a");
    PlainAdmissible(refs, "x", "b");
    PlainAdmissible(refs, "y", "a");
  }

  lemma ExampleRefs()
    ensures RefsOf([SELF_SUFFICIENT, DEPENDENT]) == [Ref(SELF_SUFFICIENT, "a"), Ref(DEPENDENT, "b")]
  {
    ExampleIsNamed();
  }

  lemma ExampleIsValid()
    ensures var refs := RefsOf([SELF_SUFFICIENT, DEPENDENT]); PortsValid(refs) && AllMet(refs, refs)
  {
    ExampleRefs();
    ExamplePorts();
    ExampleNeeds();
  }

  lemma ExamplePorts()
    ensures PortsValid([Ref(SELF_SUFFICIENT, "a"), Ref(DEPENDENT, "b")])
  {
    ExampleIsNamed();
    PlainPort("x");
    PlainPort("y");
    hide ValidPort, TrimSpace, WellNamed;
  }

  lemma ExampleNeeds()
    ensures var refs := [Ref(SELF_SUFFICIENT, "a"), Ref(DEPENDENT, "b")]; AllMet(refs, refs)
  {
    hide Met, Admissible, TrimSpace, WellNamed, RefsOf;
    ExampleIsNamed();
    ExampleRefs();
    ExampleAdmits();
    var refs := [Ref(SELF_SUFFICIENT, "a"), Ref(DEPENDENT, "b")];
    PlainMet(refs, "x", "a");
    PlainMet(refs, "y", "a");
    forall ref, dep | ref in refs && ref.mod.Module? && dep in ref.mod.dependencies
      ensures Met(refs, dep)
    {
      assert dep == if ref.id == "a" then Needs("x") else Needs("y");
    }
  }

  lemma PlainMet(refs: seq<Ref>, port: string, id: string)
    requires TrimSpace(port) == port != "" && Admissible(refs, Needs(port), id)
    ensures Met(refs, Needs(port))
  {
    hide Admissible, V.ValidConstraint;
    VersionOneIsValid();
    MayServe(refs, Needs(port), id);
  }

  lemma PlainPort(port: string)
    requires TrimSpace(port) == port != ""
    ensures ValidPort(Port(port, VERSION_1))
  {
    hide V.ValidVersion;
    VersionOneIsValid();
  }

  lemma MayServe(refs: seq<Ref>, dep: Dependency, id: string)
    requires Admissible(refs, dep, id)
    ensures Served(refs, dep)
  {}

  lemma ExampleIsServed(k: nat, dep: Dependency)
    requires k < 2 && Requires([SELF_SUFFICIENT, DEPENDENT][k], dep)
    ensures ServedBy([SELF_SUFFICIENT, DEPENDENT], k, dep)
  {
    ExampleIsNamed();
    ExampleAdmits();
    hide Admissible, RefsOf, TrimSpace;
    var modules := [SELF_SUFFICIENT, DEPENDENT];
    assert modules[0] == SELF_SUFFICIENT;
  }

  /** The order [a, b] serves every required dependency from the module itself or an earlier one, as a plan
      promises. But a module never serves itself once another module can, so b is picked for a and a for b, and
      `Sort` reports a cycle. */
  lemma SelfServiceMissed()
    ensures var modules := [SELF_SUFFICIENT, DEPENDENT];
            && WellNamed(modules) && PortsValid(RefsOf(modules)) && AllMet(RefsOf(modules), RefsOf(modules))
            && (forall k, dep :: 0 <= k < |modules| && Requires(modules[k], dep) ==> ServedBy(modules, k, dep))
            && !Sortable(modules)
  {
    var modules := [SELF_SUFFICIENT, DEPENDENT];
    ExampleIsNamed();
    ExampleIsValid();
    hide WellNamed, PortsValid, AllMet, ServedBy, Requires, Sortable, Arranged, TrimSpace;
    forall k, dep | 0 <= k < |modules| && Requires(modules[k], dep)
      ensures ServedBy(modules, k, dep)
    {
      ExampleIsServed(k, dep);
    }
    forall t ensures !Arranged(modules, t) {
      ExampleNotArranged(t);
    }
    MetIsValid(RefsOf(modules));
    SortableIff(modules);
  }

  lemma ExampleNotArranged(t: seq<Composable>)
    ensures !Arranged([SELF_SUFFICIENT, DEPENDENT], t)
  {
    var modules := [SELF_SUFFICIENT, DEPENDENT];
    var refs := RefsOf(modules);
    ExampleIsNamed();
    ExampleAdmits();
    hide Admissible, RefsOf, WellNamed, TrimSpace;
    if multiset(t) == multiset(modules) {
      PermutationFacts(t, modules);
      assert t[0] in modules;
      var need := if t[0] == SELF_SUFFICIENT then Needs("x") else Needs("y");
      assert Requires(t[0], need) && OthersMayServe(refs, need, IdOf(t[0]));
      assert !ServedBefore(refs, t, 0, need);
    }
  }
}
