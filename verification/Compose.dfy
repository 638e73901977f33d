/** `Sort`, `Validate` and `Compose` (pkg/module/compose.go) over a catalog (pkg/module/catalog.go). */
module Compose {
  import opened Results
  import opened Text
  import opened Listing
  import opened Graph
  import opened Selection
  import opened Ordering
  import opened Providers
  import V = Version

  /** A built catalog; an entry stands for what its constructor returns. */
  datatype Catalog = Catalog(entries: map<string, Composable>, defaults: seq<string>)

  datatype Plan = Plan(modules: seq<Composable>, providers: seq<Part>, invocations: seq<Part>)

  /** `Catalog.BuildModule`. */
  function BuildModule(catalog: Catalog, id: string): Result<Composable, ComposeError> {
    var key := TrimSpace(id);
    if key !in catalog.entries then Err(UnknownModule(id))
    else
      var m := catalog.entries[key];
      if m.NilModule? then Err(ConstructorReturnedNil(id))
      else match NormalizeID(m.id)
        case Err(e) => Err(e)
        case Ok(found) => if found != id then Err(EntryMismatch(id, found)) else Ok(m)
  }

  /** Exactly the module that the entry of this ID constructs, if it bears that ID. */
  lemma BuildsExactly(catalog: Catalog, id: string, m: Composable)
    ensures BuildModule(catalog, id) == Ok(m) <==>
              && TrimSpace(id) in catalog.entries && catalog.entries[TrimSpace(id)] == m
              && Named(m) && TrimSpace(m.id) == id
  {
    hide TrimSpace;
  }

  lemma BuiltIsNamed(catalog: Catalog, id: string)
    requires BuildModule(catalog, id).Ok?
    ensures Named(BuildModule(catalog, id).value) && IdOf(BuildModule(catalog, id).value) == id
  {}

  // ---- Requested IDs ----

  /** The requested IDs, trimmed, without blanks, each at its first occurrence. */
  function WantedIDs(ids: seq<string>): seq<string> {
    if ids == [] then []
    else
      var n := |ids| - 1;
      var before := WantedIDs(ids[..n]);
      var id := TrimSpace(ids[n]);
      if id == "" || id in before then before else before + [id]
  }

  method NormalizeIDs(ids: seq<string>) returns (out: seq<string>)
    ensures out == WantedIDs(ids)
  {
    hide TrimSpace;
    out := [];
    var seen: set<string> := {};
    for i := 0 to |ids|
      invariant out == WantedIDs(ids[..i]) && seen == Elems(out)
    {
      assert ids[..i+1][..i] == ids[..i];
      var id := TrimSpace(ids[i]);
      if id == "" { continue; }
      if id in seen { continue; }
      seen := seen + {id};
      out := out + [id];
    }
    assert ids[..|ids|] == ids;
  }

  lemma {:induction false} WantedFacts(ids: seq<string>)
    ensures NoDup(WantedIDs(ids))
    ensures forall id :: id in WantedIDs(ids) <==> id != "" && exists raw :: raw in ids && TrimSpace(raw) == id
  {
    hide TrimSpace;
    if ids != [] {
      var n := |ids| - 1;
      WantedFacts(ids[..n]);
      assert ids == ids[..n] + [ids[n]];
    }
  }

  /** A requested ID as it is kept: trimmed, if that leaves a name which no earlier request gives. */
  function WantedAt(ids: seq<string>, p: nat): Option<string>
    requires p < |ids|
  {
    var id := TrimSpace(ids[p]);
    if id != "" && forall q :: 0 <= q < p ==> TrimSpace(ids[q]) != id then Some(id) else None
  }

  function WantedImage(ids: seq<string>): (image: seq<Option<string>>)
    ensures |image| == |ids| && forall p :: 0 <= p < |ids| ==> image[p] == WantedAt(ids, p)
  {
    seq(|ids|, p requires 0 <= p < |ids| => WantedAt(ids, p))
  }

  /** The requests keep their order, each name standing where it is first requested. */
  lemma {:induction false} WantedInOrder(ids: seq<string>)
    ensures Lists(WantedIDs(ids), WantedImage(ids))
  {
    hide TrimSpace, Lists, WantedIDs;
    if ids == [] {
      assert WantedIDs(ids) == [] by { NothingWanted(); }
      ListsNothing<string>();
    } else {
      var n := |ids| - 1;
      WantedInOrder(ids[..n]);
      WantedStep(ids);
      ListsStep(WantedIDs(ids[..n]), WantedImage(ids[..n]), WantedAt(ids, n));
      assert WantedImage(ids) == WantedImage(ids[..n]) + [WantedAt(ids, n)];
    }
  }

  lemma NothingWanted()
    ensures WantedIDs([]) == []
  {}

  lemma WantedStep(ids: seq<string>)
    requires ids != []
    ensures WantedIDs(ids) == Append(WantedIDs(ids[..|ids| - 1]), WantedAt(ids, |ids| - 1))
  {
    hide TrimSpace;
    var n := |ids| - 1;
    var id := TrimSpace(ids[n]);
    WantedFacts(ids[..n]);
    if q :| 0 <= q < n && TrimSpace(ids[q]) == id {
      assert ids[..n][q] in ids[..n];
    }
  }

  // ---- Sort ----

  /** The declarations are well formed and some selection of providers is acyclic. */
  ghost predicate Sortable(modules: seq<Composable>) {
    && WellNamed(modules)
    && var refs := RefsOf(modules);
       PortsValid(refs) && DependenciesValid(refs) && Solvable(ChoicesOf(refs, refs))
  }

  /** `sorted` are the given modules in the least dependency order of the first acyclic selection. */
  ghost predicate SortedAs(modules: seq<Composable>, sorted: seq<Composable>, picks: seq<nat>) {
    var refs := RefsOf(modules);
    var choices := ChoicesOf(refs, refs);
    && multiset(sorted) == multiset(modules)
    && FirstSolution(choices, picks)
    && LeastTopological(Ids(refs), EdgesOf(choices, picks), Ids(RefsOf(sorted)))
  }

  method IndexByID(refs: seq<Ref>) returns (byID: map<string, Composable>)
    requires NoDup(Ids(refs))
    ensures byID.Keys == Elems(Ids(refs))
    ensures forall ref :: ref in refs ==> ref.id in byID && byID[ref.id] == ref.mod
  {
    byID := map[];
    for i := 0 to |refs|
      invariant byID.Keys == set k | 0 <= k < i :: refs[k].id
      invariant forall k :: 0 <= k < i ==> refs[k].id in byID && byID[refs[k].id] == refs[k].mod
    {
      assert forall k :: 0 <= k < i ==> Ids(refs)[k] != Ids(refs)[i];
      byID := byID[refs[i].id := refs[i].mod];
    }
    forall x ensures x in Elems(Ids(refs)) <==> x in byID {
      if x in byID {
        var k :| 0 <= k < |refs| && refs[k].id == x;
        assert Ids(refs)[k] == x;
      }
      if x in Ids(refs) {
        var k :| 0 <= k < |Ids(refs)| && Ids(refs)[k] == x;
        assert refs[k].id == x;
      }
    }
  }

  /** `sortedModuleIDs`: the map yields its keys in an order the caller cannot know. */
  method SortedModuleIDs(byID: map<string, Composable>) returns (ids: seq<string>)
    ensures IsSorted(ids) && NoDup(ids) && Elems(ids) == byID.Keys
  {
    ids := [];
    var left := byID.Keys;
    while left != {}
      invariant left <= byID.Keys && NoDup(ids) && Elems(ids) == byID.Keys - left
      decreases left
    {
      var id :| id in left;
      assert id !in Elems(ids);
      assert Elems(ids + [id]) == Elems(ids) + {id};
      left := left - {id};
      ids := ids + [id];
    }
    PermutationFacts(Sorted(ids), ids);
    assert Elems(Sorted(ids)) == Elems(ids);
    ids := Sorted(ids);
  }

  method Sort(modules: seq<Composable>)
    returns (r: Result<seq<Composable>, ComposeError>, ghost picks: seq<nat>)
    ensures r.Ok? <==> Sortable(modules)
    ensures r.Ok? ==> SortedAs(modules, r.value, picks)
    ensures r.Err? && WellNamed(modules) && PortsValid(RefsOf(modules)) && DependenciesValid(RefsOf(modules)) ==>
              && r.error.CycleDetected? && IsSorted(r.error.ids) && NoDup(r.error.ids)
              && Elems(r.error.ids) == Elems(Ids(RefsOf(modules)))
  {
    hide WellNamed, PortsValid, DependenciesValid, ChoicesOf, Indexes, Solution, FirstSolution, Represents,
         LeastTopological, ChoicesWithin, Acyclic;
    picks := [];
    var refs := NormalizeModuleRefs(modules);
    if refs.Err? { return Err(refs.error), []; }
    WellNamedRefs(modules);
    var byID := IndexByID(refs.value);
    var providers := ProviderIndex(refs.value);
    if providers.Err? { return Err(providers.error), []; }
    var choices := DependencyChoices(refs.value, providers.value, byID);
    if choices.Err? { return Err(choices.error), []; }
    var moduleIDs := SortedModuleIDs(byID);
    SelectionReady(refs.value, moduleIDs);
    var inDegree, dependents, ok;
    inDegree, dependents, ok, picks := AcyclicProviderSelection(moduleIDs, choices.value);
    if !ok { return Err(CycleDetected(moduleIDs)), picks; }
    FirstIsAcyclic(choices.value, picks);
    var order := KahnOrder(moduleIDs, inDegree, dependents, EdgesOf(choices.value, picks));
    OrderFacts(Ids(refs.value), moduleIDs, EdgesOf(choices.value, picks), order);
    if |order| != |refs.value| {
      assert false;  // an acyclic selection is never followed by the second cycle error
    }
    var sorted := Arrange(order, byID);
    ArrangedIsPermutation(modules, byID, order, sorted);
    r := Ok(sorted);
  }

  /** The modules behind the identifiers. */
  method Arrange(order: seq<string>, byID: map<string, Composable>) returns (sorted: seq<Composable>)
    requires Elems(order) <= byID.Keys
    ensures |sorted| == |order|
    ensures forall k :: 0 <= k < |order| ==> order[k] in byID && sorted[k] == byID[order[k]]
  {
    sorted := [];
    for i := 0 to |order|
      invariant |sorted| == i
      invariant forall k :: 0 <= k < i ==> order[k] in byID && sorted[k] == byID[order[k]]
    {
      assert order[i] in Elems(order);
      sorted := sorted + [byID[order[i]]];
    }
  }

  /** Sort is a function of its argument, and lists the modules in the lexicographically least of all orders
      that respect the selection: no iteration order of a map can influence it. */
  lemma SortDetermined(modules: seq<Composable>, a: seq<Composable>, pa: seq<nat>, b: seq<Composable>, pb: seq<nat>)
    requires WellNamed(modules) && SortedAs(modules, a, pa) && SortedAs(modules, b, pb)
    ensures a == b && pa == pb
    ensures forall t :: IsTopological(EdgesOf(ChoicesOf(RefsOf(modules), RefsOf(modules)), pa), Ids(RefsOf(modules)), t)
              ==> LexLe(Ids(RefsOf(a)), t)
  {
    hide ChoicesOf, LeastTopological, FirstSolution, Solution, IsTopological;
    var refs := RefsOf(modules);
    var choices := ChoicesOf(refs, refs);
    WellNamedRefs(modules);
    FirstSolutionUnique(choices, pa, pb);
    FirstIsAcyclic(choices, pa);
    var es := EdgesOf(choices, pa);
    LeastUnique(Ids(refs), es, Ids(RefsOf(a)), Ids(RefsOf(b)));
    SameByIds(modules, a, b);
    forall t | IsTopological(es, Ids(refs), t)
      ensures LexLe(Ids(RefsOf(a)), t)
    {
      GreedyIsLeast(Ids(refs), es, Ids(RefsOf(a)), t);
    }
  }

  lemma SameByIds(modules: seq<Composable>, a: seq<Composable>, b: seq<Composable>)
    requires NoDup(Ids(RefsOf(modules)))
    requires multiset(a) == multiset(modules) == multiset(b) && Ids(RefsOf(a)) == Ids(RefsOf(b))
    ensures a == b
  {
    PermutationFacts(a, modules);
    PermutationFacts(b, modules);
    assert |a| == |b|;
    forall k | 0 <= k < |a| ensures a[k] == b[k] {
      assert a[k] in modules && b[k] in modules;
      assert Ids(RefsOf(a))[k] == Ids(RefsOf(b))[k];
      SameByID(modules, a[k], b[k]);
    }
  }

  lemma SameByID(modules: seq<Composable>, x: Composable, y: Composable)
    requires NoDup(Ids(RefsOf(modules))) && x in modules && y in modules && IdOf(x) == IdOf(y)
    ensures x == y
  {
    var i :| 0 <= i < |modules| && modules[i] == x;
    var j :| 0 <= j < |modules| && modules[j] == y;
    assert Ids(RefsOf(modules))[i] == Ids(RefsOf(modules))[j];
  }

  lemma WellNamedRefs(modules: seq<Composable>)
    requires WellNamed(modules)
    ensures NoDup(Ids(RefsOf(modules))) && forall ref :: ref in RefsOf(modules) ==> ref.mod.Module?
  {
    forall ref | ref in RefsOf(modules) ensures ref.mod.Module? {
      var i :| 0 <= i < |modules| && RefsOf(modules)[i] == ref;
      assert modules[i] in modules && Named(modules[i]);
    }
  }

  lemma SelectionReady(refs: seq<Ref>, moduleIDs: seq<string>)
    requires Elems(moduleIDs) == Elems(Ids(refs))
    ensures ChoicesWithin(ChoicesOf(refs, refs), moduleIDs)
  {
    hide ChoicesOf;
    forall ref | ref in refs ensures ref.id in Ids(refs) {
      var i :| 0 <= i < |refs| && refs[i] == ref;
      assert Ids(refs)[i] == ref.id;
    }
    ChoicesSound(refs, refs);
    forall id | id in Ids(refs) ensures id in moduleIDs {
      assert id in Elems(Ids(refs));
    }
  }

  lemma FirstIsAcyclic(choices: seq<Choice>, picks: seq<nat>)
    requires FirstSolution(choices, picks)
    ensures FullPicks(choices, picks) && Acyclic(EdgesOf(choices, picks))
  {}

  lemma OrderFacts(ids: seq<string>, moduleIDs: seq<string>, es: seq<Edge>, order: seq<string>)
    requires NoDup(ids) && NoDup(moduleIDs) && Elems(moduleIDs) == Elems(ids)
    requires LeastTopological(moduleIDs, es, order)
    ensures LeastTopological(ids, es, order)
    ensures NoDup(order) && |order| == |ids| && Elems(order) == Elems(ids)
  {
    NoDupSameElems(moduleIDs, ids);
    PermutationFacts(moduleIDs, ids);
    PermutationFacts(order, ids);
  }

  lemma ArrangedIsPermutation(modules: seq<Composable>, byID: map<string, Composable>, order: seq<string>,
                              sorted: seq<Composable>)
    requires NoDup(Ids(RefsOf(modules))) && NoDup(order) && Elems(order) == Elems(Ids(RefsOf(modules)))
    requires forall ref :: ref in RefsOf(modules) ==> ref.id in byID && byID[ref.id] == ref.mod
    requires |sorted| == |order| && forall k :: 0 <= k < |order| ==> order[k] in byID && sorted[k] == byID[order[k]]
    ensures multiset(sorted) == multiset(modules) && Ids(RefsOf(sorted)) == order
  {
    var refs := RefsOf(modules);
    forall k | 0 <= k < |order| ensures sorted[k] in modules && IdOf(sorted[k]) == order[k] {
      assert order[k] in Elems(order);
      var i :| 0 <= i < |refs| && Ids(refs)[i] == order[k];
      assert refs[i] in refs;
    }
    forall i, j | 0 <= i < j < |modules| ensures modules[i] != modules[j] {
      assert Ids(refs)[i] != Ids(refs)[j];
    }
    forall m ensures m in sorted <==> m in modules {
      if m in modules {
        var i :| 0 <= i < |modules| && modules[i] == m;
        assert refs[i] in refs && Ids(refs)[i] in Elems(order);
        var k :| 0 <= k < |order| && order[k] == Ids(refs)[i];
      }
    }
    NoDupSameElems(sorted, modules);
  }

  // ---- Validate ----

  ghost predicate Served(refs: seq<Ref>, dep: Dependency) {
    exists id :: Admissible(refs, dep, id)
  }

  /** The declaration is valid and, if required, some selected module may serve it. */
  ghost predicate Met(refs: seq<Ref>, dep: Dependency) {
    ValidDependency(dep) && (dep.required ==> Served(refs, dep))
  }

  ghost predicate AllMet(refs: seq<Ref>, some: seq<Ref>) {
    forall ref, dep :: ref in some && ref.mod.Module? && dep in ref.mod.dependencies ==> Met(refs, dep)
  }

  /** The problem, if any, that a declaration has. */
  ghost predicate Faults(refs: seq<Ref>, consumer: string, dep: Dependency, x: Option<Problem>) {
    && (x.None? <==> Met(refs, dep))
    && (x.Some? ==>
          x.value == if TrimSpace(dep.port.name) == "" then BlankPortName(consumer)
                     else if V.ConstraintOf(dep.port.version).Err?
                     then InvalidDeclaration(consumer, V.ConstraintOf(dep.port.version).error)
                     else if exists id :: Compatible(refs, dep, id)
                     then MissingPreferred(consumer, dep.port.name, TrimSpace(dep.preferredProvider))
                     else MissingPort(consumer, dep.port.name))
  }

  ghost predicate FaultsOf(refs: seq<Ref>, consumer: string, deps: seq<Dependency>, image: seq<Option<Problem>>) {
    |image| == |deps| && forall j :: 0 <= j < |deps| ==> Faults(refs, consumer, deps[j], image[j])
  }

  /** The problems of one module's declarations, in the order in which it makes them. */
  ghost predicate ModuleReport(refs: seq<Ref>, ref: Ref, part: seq<Problem>) {
    ref.mod.Module? && exists image :: FaultsOf(refs, ref.id, ref.mod.dependencies, image) && Lists(part, image)
  }

  /** The problems of all modules, one module after the other. */
  ghost predicate Reported(refs: seq<Ref>, some: seq<Ref>, missing: seq<Problem>) {
    exists parts :: ReportParts(refs, some, missing, parts)
  }

  ghost predicate ReportParts(refs: seq<Ref>, some: seq<Ref>, missing: seq<Problem>, parts: seq<seq<Problem>>) {
    && |parts| == |some| && Concatenates(missing, parts)
    && forall i :: 0 <= i < |some| ==> ModuleReport(refs, some[i], parts[i])
  }

  lemma ReportStep(refs: seq<Ref>, some: seq<Ref>, missing: seq<Problem>, ref: Ref, part: seq<Problem>)
    requires Reported(refs, some, missing) && ModuleReport(refs, ref, part)
    ensures Reported(refs, some + [ref], missing + part)
  {
    hide Concatenates, ModuleReport;
    var parts :| ReportParts(refs, some, missing, parts);
    ConcatenatesStep(missing, parts, part);
    forall i | 0 <= i < |some + [ref]| ensures ModuleReport(refs, (some + [ref])[i], (parts + [part])[i]) {
      if i < |some| {
        assert ModuleReport(refs, some[i], parts[i]);
      }
    }
    assert ReportParts(refs, some + [ref], missing + part, parts + [part]);
  }

  lemma NothingReported(refs: seq<Ref>)
    ensures Reported(refs, [], [])
  {
    ConcatenatesNothing<Problem>();
    assert ReportParts(refs, [], [], []);
  }

  /** Succeeds exactly when every declaration is met, and otherwise reports every one that is not. */
  method Validate(modules: seq<Composable>) returns (r: Result<(), ComposeError>)
    ensures r.Ok? <==> WellNamed(modules) && PortsValid(RefsOf(modules)) && AllMet(RefsOf(modules), RefsOf(modules))
    ensures r.Err? && WellNamed(modules) && PortsValid(RefsOf(modules)) ==>
              r.error.ValidationFailed? && Reported(RefsOf(modules), RefsOf(modules), r.error.missing)
  {
    hide WellNamed, PortsValid, Indexes, Met, ModuleReport, Reported;
    var named := NormalizeModuleRefs(modules);
    if named.Err? { return Err(named.error); }
    var refs := named.value;
    WellNamedRefs(modules);
    var providers := ProviderIndex(refs);
    if providers.Err? { return Err(providers.error); }
    var missing: seq<Problem> := [];
    NothingReported(refs);
    for i := 0 to |refs|
      invariant missing == [] <==> AllMet(refs, refs[..i])
      invariant Reported(refs, refs[..i], missing)
    {
      assert refs[i] in refs && refs[..i+1] == refs[..i] + [refs[i]];
      var part := CheckModule(refs, refs[i], providers.value);
      ReportStep(refs, refs[..i], missing, refs[i], part);
      missing := missing + part;
    }
    assert refs[..|refs|] == refs;
    if |missing| > 0 { return Err(ValidationFailed(missing)); }
    r := Ok(());
  }

  /** The inner loop of `Validate`: one module's declarations. */
  method CheckModule(refs: seq<Ref>, ref: Ref, providers: map<string, seq<Provided>>) returns (part: seq<Problem>)
    requires PortsValid(refs) && Indexes(providers, refs) && ref.mod.Module?
    ensures part == [] <==> forall dep :: dep in ref.mod.dependencies ==> Met(refs, dep)
    ensures ModuleReport(refs, ref, part)
  {
    hide PortsValid, Indexes, Met, Faults, Lists;
    var deps := ref.mod.dependencies;
    part := [];
    ghost var image: seq<Option<Problem>> := [];
    ListsNothing<Problem>();
    for j := 0 to |deps|
      invariant part == [] <==> forall dep :: dep in deps[..j] ==> Met(refs, dep)
      invariant Lists(part, image) && FaultsOf(refs, ref.id, deps[..j], image)
    {
      assert deps[..j+1] == deps[..j] + [deps[j]];
      var problem := CheckDependency(refs, ref.id, deps[j], providers);
      ListsStep(part, image, problem);
      image := image + [problem];
      if problem.Some? {
        part := part + [problem.value];
      }
    }
    assert deps[..|deps|] == deps;
  }

  /** One round of that loop: which problem, if any, a dependency has. */
  method CheckDependency(refs: seq<Ref>, consumer: string, dep: Dependency, providers: map<string, seq<Provided>>)
    returns (problem: Option<Problem>)
    requires PortsValid(refs) && Indexes(providers, refs)
    ensures problem.None? <==> Met(refs, dep)
    ensures Faults(refs, consumer, dep, problem)
  {
    hide CompatibleIDs, SatisfyingProviders, Admissible, Compatible, TrimSpace, V.ConstraintOf;
    var valid := ValidateDependency(consumer, dep);
    if valid.Err? { return Some(valid.error); }
    if !dep.required { return None; }
    IndexedVersionsValid(providers, refs, dep.port.name);
    IndexOrderIrrelevant(providers, refs, dep);
    var candidates := CompatibleProviders(Lookup(providers, dep.port.name), dep.port.version);
    if candidates.Err? {
      assert false;  // the constraint and every indexed version were validated above
    }
    CandidateFacts(refs, dep);
    if |candidates.value| == 0 { return Some(MissingPort(consumer, dep.port.name)); }
    var satisfying := SelectSatisfying(candidates.value, dep);
    if |satisfying| == 0 {
      return Some(MissingPreferred(consumer, dep.port.name, TrimSpace(dep.preferredProvider)));
    }
    problem := None;
  }

  lemma CandidateFacts(refs: seq<Ref>, dep: Dependency)
    ensures |CompatibleIDs(refs, dep)| > 0 <==> exists id :: Compatible(refs, dep, id)
    ensures |SatisfyingProviders(CompatibleIDs(refs, dep), dep)| > 0 <==> Served(refs, dep)
    ensures Served(refs, dep) ==> exists id :: Compatible(refs, dep, id)
  {
    hide CompatibleIDs, SatisfyingProviders, Compatible;
    var candidates := CompatibleIDs(refs, dep);
    var satisfying := SatisfyingProviders(candidates, dep);
    forall id ensures id in candidates <==> Compatible(refs, dep, id) { CompatibleMembers(refs, dep, id); }
    SatisfyingIsAdmissible(refs, dep);
    assert |candidates| > 0 ==> candidates[0] in candidates;
    assert |satisfying| > 0 ==> satisfying[0] in satisfying;
  }

  // ---- Compose ----

  /** What a dependency accepts depends on which modules are selected, not on their order. */
  lemma AdmissibleSameModules(a: seq<Composable>, b: seq<Composable>, dep: Dependency)
    requires multiset(a) == multiset(b)
    ensures forall id :: Admissible(RefsOf(a), dep, id) <==> Admissible(RefsOf(b), dep, id)
  {
    PermutationFacts(a, b);
    forall ref ensures ref in RefsOf(a) <==> ref in RefsOf(b) {
      SameRef(a, b, ref);
      SameRef(b, a, ref);
    }
    forall id ensures Compatible(RefsOf(a), dep, id) <==> Compatible(RefsOf(b), dep, id) {}
  }

  lemma SameRef(a: seq<Composable>, b: seq<Composable>, ref: Ref)
    requires forall m :: m in a ==> m in b
    ensures ref in RefsOf(a) ==> ref in RefsOf(b)
  {
    if ref in RefsOf(a) {
      var i :| 0 <= i < |a| && RefsOf(a)[i] == ref;
      assert a[i] in b;
      var j :| 0 <= j < |b| && b[j] == a[i];
      assert RefsOf(b)[j] == ref;
    }
  }

  /** The module declares this dependency as required. */
  predicate Requires(m: Composable, dep: Dependency) {
    m.Module? && dep in m.dependencies && dep.required
  }

  /** The dependency is served by the module itself or by one that stands strictly earlier. */
  ghost predicate ServedBy(modules: seq<Composable>, k: nat, dep: Dependency) {
    exists j :: 0 <= j <= k && k < |modules| && Admissible(RefsOf(modules), dep, IdOf(modules[j]))
  }

  lemma ServedInOrder(modules: seq<Composable>, sorted: seq<Composable>, picks: seq<nat>, k: nat, dep: Dependency)
    requires SortedAs(modules, sorted, picks) && k < |sorted|
    requires Requires(sorted[k], dep)
    requires Served(RefsOf(modules), dep)
    ensures ServedBy(sorted, k, dep)
  {
    hide Admissible, ChoicesOf, FirstSolution, LeastTopological;
    var refs := RefsOf(modules);
    var order := Ids(RefsOf(sorted));
    AdmissibleSameModules(modules, sorted, dep);
    var self := IdOf(sorted[k]);
    if Admissible(refs, dep, self) {
      assert ServedBy(sorted, k, dep);
    } else {
      var other :| Admissible(refs, dep, other);
      var j := EarlierProvider(modules, sorted, picks, k, dep, other);
    }
  }

  lemma EarlierProvider(modules: seq<Composable>, sorted: seq<Composable>, picks: seq<nat>, k: nat, dep: Dependency,
                        other: string)
    returns (j: nat)
    requires SortedAs(modules, sorted, picks) && k < |sorted|
    requires Requires(sorted[k], dep)
    requires Admissible(RefsOf(modules), dep, other) && other != IdOf(sorted[k])
    ensures j < k && Admissible(RefsOf(modules), dep, IdOf(sorted[j]))
  {
    hide Admissible, ChoicesOf, LeastTopological, FirstSolution, Acyclic;
    var choices := ChoicesOf(RefsOf(modules), RefsOf(modules));
    FirstIsAcyclic(choices, picks);
    LeastRespects(Ids(RefsOf(modules)), EdgesOf(choices, picks), Ids(RefsOf(sorted)));
    j := ProviderBefore(modules, sorted, picks, k, dep, other);
  }

  /** The same of any order that respects the edges of a selection. */
  lemma ProviderBefore(modules: seq<Composable>, sorted: seq<Composable>, picks: seq<nat>, k: nat, dep: Dependency,
                       other: string)
    returns (j: nat)
    requires multiset(sorted) == multiset(modules) && k < |sorted|
    requires FullPicks(ChoicesOf(RefsOf(modules), RefsOf(modules)), picks)
    requires RespectsEdges(EdgesOf(ChoicesOf(RefsOf(modules), RefsOf(modules)), picks), Ids(RefsOf(sorted)))
    requires Requires(sorted[k], dep)
    requires Admissible(RefsOf(modules), dep, other) && other != IdOf(sorted[k])
    ensures j < k && Admissible(RefsOf(modules), dep, IdOf(sorted[j]))
  {
    hide Admissible, ChoicesOf, Serves, RespectsEdges, EdgesOf;
    var refs := RefsOf(modules);
    var choices := ChoicesOf(refs, refs);
    var order := Ids(RefsOf(sorted));
    PermutationFacts(sorted, modules);
    assert sorted[k] in modules;
    var i :| 0 <= i < |modules| && modules[i] == sorted[k];
    assert refs[i] in refs;
    ChoicesComplete(refs, refs, refs[i], dep, other);
    var c :| c in choices && Serves(refs, refs[i].id, dep, c);
    var ci :| 0 <= ci < |choices| && choices[ci] == c;
    ServesFacts(refs, refs[i].id, dep, c, picks[ci]);
    assert order[k] == refs[i].id;
    j := PickedEarlier(choices, picks, order, k, ci);
  }

  lemma ServesFacts(refs: seq<Ref>, consumer: string, dep: Dependency, c: Choice, pick: nat)
    requires Serves(refs, consumer, dep, c) && pick < |c.providers|
    ensures c.consumer == consumer && Admissible(refs, dep, c.providers[pick])
  {
    hide Admissible;
    assert c.providers[pick] in c.providers;
  }

  /** In an order that respects a selection, the provider picked for a choice precedes its consumer. */
  lemma PickedEarlier(choices: seq<Choice>, picks: seq<nat>, order: seq<string>, k: nat, ci: nat) returns (j: nat)
    requires FullPicks(choices, picks) && RespectsEdges(EdgesOf(choices, picks), order)
    requires ci < |choices| && k < |order| && order[k] == choices[ci].consumer
    ensures j < k && order[j] == choices[ci].providers[picks[ci]]
  {
    var es := EdgesOf(choices, picks);
    assert es[ci] in es;
    j :| 0 <= j < k && order[j] == es[ci].from;
  }

  lemma LeastRespects(ids: seq<string>, es: seq<Edge>, order: seq<string>)
    requires LeastTopological(ids, es, order)
    ensures RespectsEdges(es, order)
  {}

  /** What each module contributes to a plan. */
  function ProviderParts(modules: seq<Composable>): (parts: seq<seq<Part>>)
    ensures |parts| == |modules|
    ensures forall k :: 0 <= k < |modules| && modules[k].Module? ==> parts[k] == modules[k].providers
  {
    seq(|modules|, k requires 0 <= k < |modules| => if modules[k].Module? then modules[k].providers else [])
  }

  function InvocationParts(modules: seq<Composable>): (parts: seq<seq<Part>>)
    ensures |parts| == |modules|
    ensures forall k :: 0 <= k < |modules| && modules[k].Module? ==> parts[k] == modules[k].invocations
  {
    seq(|modules|, k requires 0 <= k < |modules| => if modules[k].Module? then modules[k].invocations else [])
  }

  /** The modules that the catalog builds for these IDs. */
  function Built(catalog: Catalog, ids: seq<string>): (modules: seq<Composable>)
    requires forall id :: id in ids ==> BuildModule(catalog, id).Ok?
    ensures |modules| == |ids|
    ensures forall i :: 0 <= i < |ids| ==> modules[i] == BuildModule(catalog, ids[i]).value
  {
    seq(|ids|, i requires 0 <= i < |ids| => BuildModule(catalog, ids[i]).value)
  }

  function Requested(catalog: Catalog, ids: seq<string>): seq<string> {
    WantedIDs(if ids == [] then catalog.defaults else ids)
  }

  /** When composition succeeds: every requested module can be built, all declarations are valid, every
      required dependency has an admissible provider, and some selection of providers is acyclic. */
  ghost predicate Composes(catalog: Catalog, ids: seq<string>) {
    var wanted := Requested(catalog, ids);
    && (forall id :: id in wanted ==> BuildModule(catalog, id).Ok?)
    && var refs := RefsOf(Built(catalog, wanted));
       && PortsValid(refs) && AllMet(refs, refs)
       && Solvable(ChoicesOf(refs, refs))
  }

  /** What a plan promises. */
  ghost predicate Planned(catalog: Catalog, wanted: seq<string>, plan: Plan) {
    && multiset(Ids(RefsOf(plan.modules))) == multiset(wanted)
    && (forall m :: m in plan.modules ==> BuildModule(catalog, IdOf(m)) == Ok(m))
    && (forall k, dep :: 0 <= k < |plan.modules| && Requires(plan.modules[k], dep) ==> ServedBy(plan.modules, k, dep))
    && (exists parts :: Concatenates(plan.providers, parts) && |parts| == |plan.modules|
          && forall k :: 0 <= k < |plan.modules| ==>
               plan.modules[k].Module? && parts[k] == plan.modules[k].providers)
    && (exists parts :: Concatenates(plan.invocations, parts) && |parts| == |plan.modules|
          && forall k :: 0 <= k < |plan.modules| ==>
               plan.modules[k].Module? && parts[k] == plan.modules[k].invocations)
  }

  /** A plan holds every requested module once, and no other: those named by the caller, or the defaults of the
      catalog if the caller names none. */
  lemma PlanIDs(catalog: Catalog, ids: seq<string>, plan: Plan)
    requires Planned(catalog, Requested(catalog, ids), plan)
    ensures var given := if |ids| > 0 then ids else catalog.defaults;
            && NoDup(Ids(RefsOf(plan.modules)))
            && forall id :: id in Ids(RefsOf(plan.modules)) <==>
                 id != "" && exists raw :: raw in given && TrimSpace(raw) == id
  {
    var given := if |ids| > 0 then ids else catalog.defaults;
    assert Requested(catalog, ids) == WantedIDs(given);
    WantedFacts(given);
    PermutationFacts(Ids(RefsOf(plan.modules)), WantedIDs(given));
  }

  method ComposePlan(catalog: Option<Catalog>, ids: seq<string>) returns (r: Result<Plan, ComposeError>)
    ensures r.Ok? <==> catalog.Some? && Composes(catalog.value, ids)
    ensures r.Ok? ==> Planned(catalog.value, Requested(catalog.value, ids), r.value)
    ensures catalog.None? ==> r == Err(NilCatalog)
    ensures catalog.Some?
            && (exists id :: id in Requested(catalog.value, ids) && BuildModule(catalog.value, id).Err?) ==>
              r.Err? && FirstUnbuilt(catalog.value, Requested(catalog.value, ids), r.error)
  {
    hide FirstUnbuilt, PortsValid, AllMet, Solution, ChoicesOf, BuildModule, Planned, SortedAs, WantedIDs, WellNamed,
         DependenciesValid, Concatenates;
    if catalog.None? { return Err(NilCatalog); }
    var requested := if |ids| == 0 then catalog.value.defaults else ids;
    var wanted := NormalizeIDs(requested);
    assert wanted == Requested(catalog.value, ids);
    if |wanted| == 0 {
      EmptyPlan(catalog.value);
      return Ok(Plan([], [], []));
    }
    var modules := BuildAll(catalog.value, wanted);
    if modules.Err? { return Err(modules.error); }
    BuiltWellNamed(catalog.value, requested);
    var sorted, picks := Sort(modules.value);
    MetIsValid(RefsOf(modules.value));
    if sorted.Err? { return Err(sorted.error); }
    var valid := Validate(sorted.value);
    SortedMet(modules.value, sorted.value, picks);
    if valid.Err? { return Err(valid.error); }
    var providers, invocations := CollectParts(sorted.value);
    r := Ok(Plan(sorted.value, providers, invocations));
    PlanFacts(catalog.value, wanted, modules.value, sorted.value, picks, r.value);
  }

  /** The error with which the first module that cannot be built fails. */
  ghost predicate FirstUnbuilt(catalog: Catalog, ids: seq<string>, e: ComposeError) {
    exists i :: && 0 <= i < |ids| && BuildModule(catalog, ids[i]) == Err(e)
                && forall k :: 0 <= k < i ==> BuildModule(catalog, ids[k]).Ok?
  }

  method BuildAll(catalog: Catalog, ids: seq<string>) returns (r: Result<seq<Composable>, ComposeError>)
    ensures r.Ok? <==> forall id :: id in ids ==> BuildModule(catalog, id).Ok?
    ensures r.Ok? ==> r.value == Built(catalog, ids)
    ensures r.Err? ==> FirstUnbuilt(catalog, ids, r.error)
  {
    hide BuildModule;
    var modules: seq<Composable> := [];
    for i := 0 to |ids|
      invariant |modules| == i
      invariant forall k :: 0 <= k < i ==> BuildModule(catalog, ids[k]) == Ok(modules[k])
    {
      assert ids[i] in ids;
      var built := BuildModule(catalog, ids[i]);
      if built.Err? { return Err(built.error); }
      modules := modules + [built.value];
    }
    r := Ok(modules);
  }

  method CollectParts(modules: seq<Composable>) returns (providers: seq<Part>, invocations: seq<Part>)
    requires forall m :: m in modules ==> m.Module?
    ensures Concatenates(providers, ProviderParts(modules)) && Concatenates(invocations, InvocationParts(modules))
  {
    hide Concatenates;
    providers, invocations := [], [];
    ConcatenatesNothing<Part>();
    assert ProviderParts(modules[..0]) == [] && InvocationParts(modules[..0]) == [];
    for i := 0 to |modules|
      invariant Concatenates(providers, ProviderParts(modules[..i]))
      invariant Concatenates(invocations, InvocationParts(modules[..i]))
    {
      assert modules[i] in modules;
      ConcatenatesStep(providers, ProviderParts(modules[..i]), modules[i].providers);
      ConcatenatesStep(invocations, InvocationParts(modules[..i]), modules[i].invocations);
      assert ProviderParts(modules[..i+1]) == ProviderParts(modules[..i]) + [modules[i].providers];
      assert InvocationParts(modules[..i+1]) == InvocationParts(modules[..i]) + [modules[i].invocations];
      providers := providers + modules[i].providers;
      invocations := invocations + modules[i].invocations;
    }
    assert modules[..|modules|] == modules;
  }

  lemma EmptyPlan(catalog: Catalog)
    ensures Planned(catalog, [], Plan([], [], []))
    ensures PortsValid([]) && AllMet([], []) && Solution(ChoicesOf([], []), [])
  {
    assert ProviderParts([]) == [] && InvocationParts([]) == [];
    ConcatenatesNothing<Part>();
    var es := EdgesOf([], []);
    assert es == [];
    TopologicalIsAcyclic(es, []);
  }

  lemma BuiltWellNamed(catalog: Catalog, requested: seq<string>)
    requires forall id :: id in WantedIDs(requested) ==> BuildModule(catalog, id).Ok?
    ensures var modules := Built(catalog, WantedIDs(requested));
            WellNamed(modules) && Ids(RefsOf(modules)) == WantedIDs(requested)
  {
    hide BuildModule, WantedIDs, Named;
    var wanted := WantedIDs(requested);
    var modules := Built(catalog, wanted);
    WantedFacts(requested);
    forall i | 0 <= i < |wanted| ensures Named(modules[i]) && IdOf(modules[i]) == wanted[i] {
      assert wanted[i] in wanted;
      BuiltIsNamed(catalog, wanted[i]);
    }
  }

  lemma MetIsValid(refs: seq<Ref>)
    ensures AllMet(refs, refs) ==> DependenciesValid(refs)
  {
    hide ValidDependency, Served;
    forall ref, dep | AllMet(refs, refs) && ref in refs && ref.mod.Module? && dep in ref.mod.dependencies
      ensures ValidDependency(dep)
    {
      assert Met(refs, dep);
    }
  }

  lemma SortedMet(modules: seq<Composable>, sorted: seq<Composable>, picks: seq<nat>)
    requires SortedAs(modules, sorted, picks) && WellNamed(modules)
    ensures WellNamed(sorted)
    ensures PortsValid(RefsOf(sorted)) <==> PortsValid(RefsOf(modules))
    ensures AllMet(RefsOf(sorted), RefsOf(sorted)) <==> AllMet(RefsOf(modules), RefsOf(modules))
    ensures forall m :: m in sorted ==> m.Module?
  {
    hide Admissible, FirstSolution, ChoicesOf, Named, ValidPort, ValidDependency;
    PermutationFacts(sorted, modules);
    PermutationFacts(Ids(RefsOf(sorted)), Ids(RefsOf(modules)));
    forall m | m in sorted ensures m.Module? { NamedIsModule(m); }
    forall ref ensures ref in RefsOf(sorted) <==> ref in RefsOf(modules) {
      SameRef(sorted, modules, ref);
      SameRef(modules, sorted, ref);
    }
    forall dep ensures Served(RefsOf(sorted), dep) <==> Served(RefsOf(modules), dep) {
      AdmissibleSameModules(sorted, modules, dep);
    }
    forall dep ensures Met(RefsOf(sorted), dep) <==> Met(RefsOf(modules), dep) {}
    AllMetSame(RefsOf(sorted), RefsOf(modules));
    AllMetSame(RefsOf(modules), RefsOf(sorted));
  }

  lemma AllMetSame(a: seq<Ref>, b: seq<Ref>)
    requires forall ref :: ref in a ==> ref in b
    requires forall dep :: Met(b, dep) ==> Met(a, dep)
    ensures AllMet(b, b) ==> AllMet(a, a)
  {
    hide Met;
  }

  lemma NamedIsModule(m: Composable)
    requires Named(m)
    ensures m.Module?
  {}

  lemma PlanFacts(catalog: Catalog, wanted: seq<string>, modules: seq<Composable>, sorted: seq<Composable>,
                  picks: seq<nat>, plan: Plan)
    requires (forall id :: id in wanted ==> BuildModule(catalog, id).Ok?) && modules == Built(catalog, wanted)
    requires Ids(RefsOf(modules)) == wanted
    requires SortedAs(modules, sorted, picks) && AllMet(RefsOf(modules), RefsOf(modules))
    requires plan.modules == sorted && Concatenates(plan.providers, ProviderParts(sorted))
    requires Concatenates(plan.invocations, InvocationParts(sorted)) && forall m :: m in sorted ==> m.Module?
    ensures Planned(catalog, wanted, plan)
  {
    hide BuildModule, FirstSolution, ChoicesOf, ServedBy, SortedAs, Concatenates, Requires, AllMet;
    SortedPermutes(modules, sorted, picks);
    PlannedBuilt(catalog, wanted, modules, sorted);
    forall k, dep | 0 <= k < |sorted| && Requires(sorted[k], dep)
      ensures ServedBy(sorted, k, dep)
    {
      PlannedServed(modules, sorted, picks, k, dep);
    }
    assert forall k :: 0 <= k < |sorted| ==> sorted[k] in sorted;
  }

  lemma PlannedBuilt(catalog: Catalog, wanted: seq<string>, modules: seq<Composable>, sorted: seq<Composable>)
    requires (forall id :: id in wanted ==> BuildModule(catalog, id).Ok?) && modules == Built(catalog, wanted)
    requires Ids(RefsOf(modules)) == wanted && multiset(sorted) == multiset(modules)
    ensures forall m :: m in sorted ==> BuildModule(catalog, IdOf(m)) == Ok(m)
  {
    hide BuildModule;
    PermutationFacts(sorted, modules);
    forall m | m in sorted ensures BuildModule(catalog, IdOf(m)) == Ok(m) {
      var i :| 0 <= i < |modules| && modules[i] == m;
      assert Ids(RefsOf(modules))[i] == wanted[i] && wanted[i] in wanted;
    }
  }

  lemma PlannedServed(modules: seq<Composable>, sorted: seq<Composable>, picks: seq<nat>, k: nat, dep: Dependency)
    requires SortedAs(modules, sorted, picks) && AllMet(RefsOf(modules), RefsOf(modules))
    requires k < |sorted| && Requires(sorted[k], dep)
    ensures ServedBy(sorted, k, dep)
  {
    hide FirstSolution, ChoicesOf, ServedBy, SortedAs;
    SortedPermutes(modules, sorted, picks);
    PermutationFacts(sorted, modules);
    assert sorted[k] in modules;
    var i :| 0 <= i < |modules| && modules[i] == sorted[k];
    assert RefsOf(modules)[i] in RefsOf(modules);
    assert Met(RefsOf(modules), dep);
    ServedInOrder(modules, sorted, picks, k, dep);
  }

  lemma SortedPermutes(modules: seq<Composable>, sorted: seq<Composable>, picks: seq<nat>)
    requires SortedAs(modules, sorted, picks)
    ensures multiset(sorted) == multiset(modules)
    ensures multiset(Ids(RefsOf(sorted))) == multiset(Ids(RefsOf(modules)))
  {}
}
