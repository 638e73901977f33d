/** Module declarations, the provider index and the choice of acceptable providers
    (pkg/module/types.go, pkg/module/compose.go). A module is a value: its interface methods are taken to
    return the same data each time they are called. */
module Providers {
  import opened Results
  import opened Text
  import opened Listing
  import opened Selection
  import V = Version

  datatype Port = Port(name: string, version: string)

  datatype Dependency = Dependency(
    port: Port, required: bool, purpose: string, preferredProvider: string, fallbackProviders: seq<string>)

  /** An opaque constructor or invocation handed to the dependency-injection container. */
  datatype Part = Part(handle: nat)

  datatype Composable =
    | NilModule
    | Module(id: string, dependencies: seq<Dependency>, ports: seq<Port>,
             providers: seq<Part>, invocations: seq<Part>)

  datatype Problem =
    | InvalidDeclaration(consumer: string, cause: V.VersionError)
    | BlankPortName(consumer: string)
    | IncompatibleDeclaration(consumer: string, port: string)
    | MissingPort(consumer: string, port: string)
    | MissingPreferred(consumer: string, port: string, preferred: string)

  datatype ComposeError =
    | NilCatalog
    | UnknownModule(id: string)
    | ConstructorReturnedNil(id: string)
    | EntryMismatch(id: string, found: string)
    | NilModuleAt(index: nat)
    | MetadataIDRequired
    | MetadataIDHasWhitespace(id: string)
    | DuplicateModuleID(id: string)
    | PortNameRequired(id: string)
    | InvalidPortVersion(id: string, version: string)
    | InvalidDependency(problem: Problem)
    | InvalidConstraint(constraint: string)
    | CycleDetected(ids: seq<string>)
    | ValidationFailed(missing: seq<Problem>)

  /** A module together with its normalized ID. */
  datatype Ref = Ref(mod: Composable, id: string)

  // ---- Metadata ----

  /** `strings.ContainsAny(s, " \t\n\r")`. */
  predicate ContainsBlank(s: string) {
    ' ' in s || '\t' in s || '\n' in s || '\r' in s
  }

  function NormalizeID(raw: string): Result<string, ComposeError> {
    var id := TrimSpace(raw);
    if id == "" then Err(MetadataIDRequired)
    else if ContainsBlank(id) then Err(MetadataIDHasWhitespace(id))
    else Ok(id)
  }

  lemma NormalizeIDOk(raw: string)
    ensures NormalizeID(raw).Ok? ==> NormalizeID(raw).value == TrimSpace(raw)
  {}

  predicate Named(m: Composable) {
    m.Module? && NormalizeID(m.id).Ok?
  }

  /** An ID must be there and be one word, white space around it aside. */
  lemma NamedIff(m: Composable)
    ensures Named(m) <==> && m.Module? && TrimSpace(m.id) != ""
                          && forall c :: c in TrimSpace(m.id) ==> c != ' ' && c != '\t' && c != '\n' && c != '\r'
  {
    hide TrimSpace;
  }

  function IdOf(m: Composable): string {
    if m.Module? then TrimSpace(m.id) else ""
  }

  function RefsOf(modules: seq<Composable>): (refs: seq<Ref>)
    ensures |refs| == |modules|
    ensures forall i :: 0 <= i < |refs| ==> refs[i] == Ref(modules[i], IdOf(modules[i]))
  {
    seq(|modules|, i requires 0 <= i < |modules| => Ref(modules[i], IdOf(modules[i])))
  }

  function Ids(refs: seq<Ref>): (ids: seq<string>)
    ensures |ids| == |refs|
    ensures forall i :: 0 <= i < |refs| ==> ids[i] == refs[i].id
  {
    seq(|refs|, i requires 0 <= i < |refs| => refs[i].id)
  }

  /** Distinct modules with valid metadata. */
  predicate WellNamed(modules: seq<Composable>) {
    (forall m :: m in modules ==> Named(m)) && NoDup(Ids(RefsOf(modules)))
  }

  /** Module i is nil, misnamed, or bears the ID of an earlier one. */
  predicate Faulty(modules: seq<Composable>, i: nat, e: ComposeError)
    requires i < |modules|
  {
    var m := modules[i];
    if m.NilModule? then e == NilModuleAt(i)
    else if NormalizeID(m.id).Err? then e == NormalizeID(m.id).error
    else e == DuplicateModuleID(IdOf(m)) && exists k :: 0 <= k < i && IdOf(modules[k]) == IdOf(m)
  }

  lemma WellNamedSoFar(modules: seq<Composable>, i: nat)
    requires i <= |modules| && (forall k :: 0 <= k < i ==> Named(modules[k])) && NoDup(Ids(RefsOf(modules)[..i]))
    ensures WellNamed(modules[..i])
  {
    hide Named;
    assert RefsOf(modules[..i]) == RefsOf(modules)[..i];
  }

  /** The error is that of the first module at fault. */
  ghost predicate FirstFault(modules: seq<Composable>, e: ComposeError) {
    exists i :: 0 <= i < |modules| && WellNamed(modules[..i]) && Faulty(modules, i, e)
  }

  /** A fault anywhere is a fault of the whole. */
  lemma FaultAt(modules: seq<Composable>, i: nat, e: ComposeError)
    requires i < |modules| && WellNamed(modules[..i]) && Faulty(modules, i, e)
    ensures FirstFault(modules, e) && !WellNamed(modules)
  {
    assert modules[i] in modules;
    var all := Ids(RefsOf(modules));
    assert all[i] == IdOf(modules[i]);
    if Named(modules[i]) {
      var k :| 0 <= k < i && IdOf(modules[k]) == IdOf(modules[i]);
      assert all[k] == all[i];
    }
  }

  method NormalizeModuleRefs(modules: seq<Composable>) returns (r: Result<seq<Ref>, ComposeError>)
    ensures r.Ok? <==> WellNamed(modules)
    ensures r.Ok? ==> r.value == RefsOf(modules)
    ensures r.Err? ==> FirstFault(modules, r.error)
  {
    hide TrimSpace, NormalizeID, WellNamed, FirstFault;
    var refs: seq<Ref> := [];
    var seen: set<string> := {};
    for i := 0 to |modules|
      invariant refs == RefsOf(modules)[..i]
      invariant forall k :: 0 <= k < i ==> Named(modules[k])
      invariant seen == set k | 0 <= k < i :: IdOf(modules[k])
      invariant NoDup(Ids(refs))
    {
      WellNamedSoFar(modules, i);
      if modules[i].NilModule? {
        FaultAt(modules, i, NilModuleAt(i));
        return Err(NilModuleAt(i));
      }
      NormalizeIDOk(modules[i].id);
      var id := NormalizeID(modules[i].id);
      if id.Err? {
        FaultAt(modules, i, id.error);
        return Err(id.error);
      }
      if id.value in seen {
        FaultAt(modules, i, DuplicateModuleID(id.value));
        return Err(DuplicateModuleID(id.value));
      }
      OneMoreID(Ids(refs), id.value);
      seen := seen + {id.value};
      refs := refs + [Ref(modules[i], id.value)];
      assert Ids(refs) == Ids(refs[..i]) + [id.value];
    }
    WellNamedSoFar(modules, |modules|);
    assert modules[..|modules|] == modules;
    r := Ok(refs);
  }

  lemma OneMoreID(ids: seq<string>, id: string)
    requires NoDup(ids) && id !in ids
    ensures NoDup(ids + [id])
  {}

  // ---- The provider index ----

  datatype Provided = Provided(moduleID: string, version: string)

  /** A port announcement: name, announcing module and version. */
  datatype Announcement = Announcement(port: string, provided: Provided)

  function PortsOf(id: string, ports: seq<Port>): seq<Announcement> {
    if ports == [] then []
    else
      var n := |ports| - 1;
      PortsOf(id, ports[..n]) + [Announcement(ports[n].name, Provided(id, ports[n].version))]
  }

  /** All announcements in the order in which the modules make them. */
  function Announced(refs: seq<Ref>): seq<Announcement> {
    if refs == [] then []
    else
      var n := |refs| - 1;
      Announced(refs[..n]) + PortsOf(refs[n].id, if refs[n].mod.Module? then refs[n].mod.ports else [])
  }

  /** The providers announced for one port name. */
  function OfPort(announced: seq<Announcement>, name: string): seq<Provided> {
    if announced == [] then []
    else
      var n := |announced| - 1;
      OfPort(announced[..n], name) + if announced[n].port == name then [announced[n].provided] else []
  }

  predicate ValidPort(p: Port) {
    TrimSpace(p.name) != "" && V.ValidVersion(p.version)
  }

  lemma ValidPortDef(p: Port)
    ensures ValidPort(p) <==> TrimSpace(p.name) != "" && V.ValidVersion(p.version)
  {}

  predicate PortsValid(refs: seq<Ref>) {
    forall ref, p :: ref in refs && ref.mod.Module? && p in ref.mod.ports ==> ValidPort(p)
  }

  function Lookup(providers: map<string, seq<Provided>>, name: string): seq<Provided> {
    if name in providers then providers[name] else []
  }

  /** The index lists, for every port name, exactly the announced providers, in some order. */
  ghost predicate Indexes(providers: map<string, seq<Provided>>, refs: seq<Ref>) {
    forall name: string :: multiset(Lookup(providers, name)) == multiset(OfPort(Announced(refs), name))
  }

  predicate SortedByModule(s: seq<Provided>) {
    forall i, j :: 0 <= i <= j < |s| ==> Le(s[i].moduleID, s[j].moduleID)
  }

  /** `slices.SortFunc` by module ID: some sorted permutation, not necessarily a stable one. */
  method SortByModule(s: seq<Provided>) returns (t: seq<Provided>)
    ensures multiset(t) == multiset(s) && SortedByModule(t)
  {
    hide Le;
    t := [];
    for i := 0 to |s|
      invariant multiset(t) == multiset(s[..i]) && SortedByModule(t)
    {
      var k := 0;
      while k < |t| && Le(t[k].moduleID, s[i].moduleID)
        invariant k <= |t|
        invariant forall j :: 0 <= j < k ==> Le(t[j].moduleID, s[i].moduleID)
      {
        k := k + 1;
      }
      InsertKeepsSorted(t, s[i], k);
      InsertedContents(t, s, i, k);
      t := t[..k] + [s[i]] + t[k..];
    }
    assert s[..|s|] == s;
  }

  lemma InsertedContents(t: seq<Provided>, s: seq<Provided>, i: nat, k: nat)
    requires i < |s| && k <= |t| && multiset(t) == multiset(s[..i])
    ensures multiset(t[..k] + [s[i]] + t[k..]) == multiset(s[..i+1])
  {
    assert t == t[..k] + t[k..];
    assert s[..i+1] == s[..i] + [s[i]];
  }

  lemma InsertKeepsSorted(t: seq<Provided>, x: Provided, k: nat)
    requires k <= |t| && SortedByModule(t)
    requires forall j :: 0 <= j < k ==> Le(t[j].moduleID, x.moduleID)
    requires k < |t| ==> !Le(t[k].moduleID, x.moduleID)
    ensures SortedByModule(t[..k] + [x] + t[k..])
  {
    LeReflexive(x.moduleID);
    forall j | k <= j < |t| ensures Le(x.moduleID, t[j].moduleID) {
      LeTotal(x.moduleID, t[k].moduleID);
      LeTransitive(x.moduleID, t[k].moduleID, t[j].moduleID);
    }
  }

  /** `providerIndex`: the second loop visits the ports in an order the caller cannot know. */
  method ProviderIndex(refs: seq<Ref>) returns (r: Result<map<string, seq<Provided>>, ComposeError>)
    requires forall ref :: ref in refs ==> ref.mod.Module?
    ensures r.Ok? <==> PortsValid(refs)
    ensures r.Ok? ==> Indexes(r.value, refs) && forall name :: name in r.value ==> SortedByModule(r.value[name])
  {
    var providers: map<string, seq<Provided>> := map[];
    for i := 0 to |refs|
      invariant PortsValid(refs[..i])
      invariant forall name: string :: Lookup(providers, name) == OfPort(Announced(refs[..i]), name)
    {
      assert refs[i] in refs;
      var ok;
      ok, providers := IndexPorts(refs[i].id, refs[i].mod.ports, providers, Announced(refs[..i]));
      if ok.Err? { return Err(ok.error); }
      assert refs[..i+1][..i] == refs[..i];
      assert refs[..i+1] == refs[..i] + [refs[i]];
    }
    assert refs[..|refs|] == refs;
    ghost var announced := providers;
    var left := providers.Keys;
    while left != {}
      invariant left <= providers.Keys && providers.Keys == announced.Keys
      invariant forall name: string :: multiset(Lookup(providers, name)) == multiset(Lookup(announced, name))
      invariant forall name :: name in providers && name !in left ==> SortedByModule(providers[name])
      decreases left
    {
      var port :| port in left;
      left := left - {port};
      var sorted := SortByModule(providers[port]);
      providers := providers[port := sorted];
    }
    r := Ok(providers);
  }

  /** The inner loop: one module's ports are validated and appended to the index. */
  method IndexPorts(id: string, ports: seq<Port>, providers0: map<string, seq<Provided>>,
                    ghost before: seq<Announcement>)
    returns (ok: Result<(), ComposeError>, providers: map<string, seq<Provided>>)
    requires forall name: string :: Lookup(providers0, name) == OfPort(before, name)
    ensures ok.Ok? <==> forall p :: p in ports ==> ValidPort(p)
    ensures ok.Ok? ==> forall name: string :: Lookup(providers, name) == OfPort(before + PortsOf(id, ports), name)
  {
    hide V.ValidVersion, TrimSpace, OfPort, PortsOf, ValidPort;
    providers := providers0;
    NoPortsYet(before, id, ports);
    for j := 0 to |ports|
      invariant forall p :: p in ports[..j] ==> ValidPort(p)
      invariant forall name: string :: Lookup(providers, name) == OfPort(before + PortsOf(id, ports[..j]), name)
    {
      var port := ports[j];
      assert port in ports;
      ValidPortDef(port);
      if TrimSpace(port.name) == "" { return Err(PortNameRequired(id)), providers; }
      if !V.ValidVersion(port.version) { return Err(InvalidPortVersion(id, port.version)), providers; }
      assert ValidPort(port);
      OfPortStep(before, id, ports, j);
      ghost var was := providers;
      providers := providers[port.name := Lookup(providers, port.name) + [Provided(id, port.version)]];
      forall name: string
        ensures Lookup(providers, name) == OfPort(before + PortsOf(id, ports[..j+1]), name)
      {
        assert Lookup(was, name) == OfPort(before + PortsOf(id, ports[..j]), name);
      }
      assert ports[..j+1] == ports[..j] + [port];
      assert forall p :: p in ports[..j+1] ==> p in ports[..j] || p == port;
    }
    assert ports[..|ports|] == ports;
    ok := Ok(());
  }

  lemma NoPortsYet(before: seq<Announcement>, id: string, ports: seq<Port>)
    ensures before + PortsOf(id, ports[..0]) == before
  {}

  lemma OfPortStep(before: seq<Announcement>, id: string, ports: seq<Port>, j: nat)
    requires j < |ports|
    ensures forall name :: OfPort(before + PortsOf(id, ports[..j+1]), name)
                        == var sofar := OfPort(before + PortsOf(id, ports[..j]), name);
                           if ports[j].name == name then sofar + [Provided(id, ports[j].version)] else sofar
  {
    var a := Announcement(ports[j].name, Provided(id, ports[j].version));
    var sofar := before + PortsOf(id, ports[..j]);
    assert ports[..j+1][..j] == ports[..j];
    assert before + PortsOf(id, ports[..j+1]) == sofar + [a];
    assert (sofar + [a])[..|sofar|] == sofar;
    forall name ensures OfPort(sofar + [a], name)
                     == if a.port == name then OfPort(sofar, name) + [a.provided] else OfPort(sofar, name) {
      assert OfPort(sofar, name) + [] == OfPort(sofar, name);
    }
  }

  // ---- Compatible providers ----

  /** The modules among the candidates whose version satisfies the constraint. */
  function MatchingIDs(candidates: seq<Provided>, constraint: string): seq<string> {
    if candidates == [] then []
    else
      var n := |candidates| - 1;
      MatchingIDs(candidates[..n], constraint)
      + if V.MatchesVersion(candidates[n].version, constraint) == Ok(true) then [candidates[n].moduleID] else []
  }

  lemma MatchingStep(candidates: seq<Provided>, constraint: string)
    ensures MatchingIDs(candidates[..0], constraint) == []
    ensures forall i :: 0 <= i < |candidates| ==>
              MatchingIDs(candidates[..i+1], constraint)
              == var sofar := MatchingIDs(candidates[..i], constraint);
                 if V.MatchesVersion(candidates[i].version, constraint) == Ok(true)
                 then sofar + [candidates[i].moduleID] else sofar
  {
    forall i | 0 <= i < |candidates|
      ensures MatchingIDs(candidates[..i+1], constraint)
              == var sofar := MatchingIDs(candidates[..i], constraint);
                 if V.MatchesVersion(candidates[i].version, constraint) == Ok(true)
                 then sofar + [candidates[i].moduleID] else sofar
    {
      assert candidates[..i+1][..i] == candidates[..i];
      assert MatchingIDs(candidates[..i], constraint) + [] == MatchingIDs(candidates[..i], constraint);
    }
  }

  method CompatibleProviders(candidates: seq<Provided>, constraint: string)
    returns (r: Result<seq<string>, ComposeError>)
    ensures r.Ok? <==> V.ValidConstraint(constraint) && forall c :: c in candidates ==> V.ValidVersion(c.version)
    ensures r.Ok? ==> r.value == Sorted(MatchingIDs(candidates, constraint))
  {
    if !V.ValidConstraint(constraint) { return Err(InvalidConstraint(constraint)); }
    hide V.MatchesVersion, V.ValidVersion, V.ValidConstraint, MatchingIDs;
    MatchingStep(candidates, constraint);
    var out := [];
    for i := 0 to |candidates|
      invariant forall c :: c in candidates[..i] ==> V.ValidVersion(c.version)
      invariant out == MatchingIDs(candidates[..i], constraint)
    {
      var candidate := candidates[i];
      assert candidate in candidates;
      assert candidates[..i+1] == candidates[..i] + [candidate];
      var ok := V.MatchesVersion(candidate.version, constraint);
      V.MatchDefined(candidate.version, constraint);
      if ok.Err? { return Err(InvalidPortVersion(candidate.moduleID, candidate.version)); }
      if ok.value {
        out := out + [candidate.moduleID];
      }
    }
    assert candidates[..|candidates|] == candidates;
    out := Sorted(out);
    r := Ok(out);
  }

  lemma {:induction false} MatchingAppend(a: seq<Provided>, b: seq<Provided>, constraint: string)
    ensures MatchingIDs(a + b, constraint) == MatchingIDs(a, constraint) + MatchingIDs(b, constraint)
  {
    hide V.MatchesVersion;
    if b == [] {
      assert a + b == a && MatchingIDs(a, constraint) + [] == MatchingIDs(a, constraint);
    } else {
      var n := |b| - 1;
      MatchingAppend(a, b[..n], constraint);
      assert (a + b)[..|a + b| - 1] == a + b[..n] && (a + b)[|a + b| - 1] == b[n];
    }
  }

  lemma {:induction false} MatchingPermuted(a: seq<Provided>, b: seq<Provided>, constraint: string)
    requires multiset(a) == multiset(b)
    ensures multiset(MatchingIDs(a, constraint)) == multiset(MatchingIDs(b, constraint))
  {
    PermutationFacts(a, b);
    if a != [] {
      var n := |a| - 1;
      assert a[n] in b;
      var j :| 0 <= j < |b| && b[j] == a[n];
      RemoveOne(a, b, j);
      MatchingPermuted(a[..n], b[..j] + b[j+1..], constraint);
      MatchingMove(b, j, constraint);
    }
  }

  /** Taking one candidate out takes its contribution out. */
  lemma MatchingMove(b: seq<Provided>, j: nat, constraint: string)
    requires j < |b|
    ensures multiset(MatchingIDs(b, constraint))
         == multiset(MatchingIDs(b[..j] + b[j+1..], constraint) + MatchingIDs([b[j]], constraint))
  {
    assert b == b[..j] + ([b[j]] + b[j+1..]);
    MatchingAppend(b[..j], [b[j]] + b[j+1..], constraint);
    MatchingAppend([b[j]], b[j+1..], constraint);
    MatchingAppend(b[..j], b[j+1..], constraint);
  }

  lemma RemoveOne<T>(a: seq<T>, b: seq<T>, j: nat)
    requires multiset(a) == multiset(b) && a != [] && j < |b| && b[j] == a[|a| - 1]
    ensures multiset(a[..|a| - 1]) == multiset(b[..j] + b[j+1..])
  {
    var n := |a| - 1;
    WithoutOne(a, n);
    WithoutOne(b, j);
    assert a[..n] + a[n+1..] == a[..n];
  }

  lemma WithoutOne<T>(s: seq<T>, j: nat)
    requires j < |s|
    ensures multiset(s[..j] + s[j+1..]) == multiset(s) - multiset{s[j]}
  {
    assert s == s[..j] + [s[j]] + s[j+1..];
    assert multiset(s) == multiset(s[..j]) + multiset{s[j]} + multiset(s[j+1..]);
  }

  /** The compatible providers of a dependency: a function of the announcements alone. */
  function CompatibleIDs(refs: seq<Ref>, dep: Dependency): (ids: seq<string>)
    ensures IsSorted(ids)
  {
    Sorted(MatchingIDs(OfPort(Announced(refs), dep.port.name), dep.port.version))
  }

  /** Neither map iteration nor the unstable sort of the index can change the compatible providers. */
  lemma IndexOrderIrrelevant(providers: map<string, seq<Provided>>, refs: seq<Ref>, dep: Dependency)
    requires Indexes(providers, refs)
    ensures Sorted(MatchingIDs(Lookup(providers, dep.port.name), dep.port.version)) == CompatibleIDs(refs, dep)
  {
    var a, b := Lookup(providers, dep.port.name), OfPort(Announced(refs), dep.port.name);
    MatchingPermuted(a, b, dep.port.version);
    SortedUnique(Sorted(MatchingIDs(a, dep.port.version)), Sorted(MatchingIDs(b, dep.port.version)));
  }

  /** The module offers the dependency's port in a version that satisfies its constraint. */
  predicate Offers(m: Composable, dep: Dependency) {
    m.Module? && exists p :: p in m.ports && p.name == dep.port.name
                             && V.MatchesVersion(p.version, dep.port.version) == Ok(true)
  }

  ghost predicate Compatible(refs: seq<Ref>, dep: Dependency, id: string) {
    exists ref :: ref in refs && ref.id == id && Offers(ref.mod, dep)
  }

  lemma {:induction false} PortsOfMembers(id: string, ports: seq<Port>)
    ensures forall a :: a in PortsOf(id, ports) <==>
              exists p :: p in ports && a == Announcement(p.name, Provided(id, p.version))
  {
    if ports != [] {
      var n := |ports| - 1;
      PortsOfMembers(id, ports[..n]);
      assert ports == ports[..n] + [ports[n]];
    }
  }

  ghost predicate Announces(ref: Ref, a: Announcement) {
    ref.mod.Module? && exists p :: p in ref.mod.ports && a == Announcement(p.name, Provided(ref.id, p.version))
  }

  lemma {:induction false} AnnouncedMembers(refs: seq<Ref>)
    ensures forall a :: a in Announced(refs) <==> exists ref :: ref in refs && Announces(ref, a)
  {
    if refs != [] {
      var n := |refs| - 1;
      AnnouncedMembers(refs[..n]);
      assert refs == refs[..n] + [refs[n]];
      var ports := if refs[n].mod.Module? then refs[n].mod.ports else [];
      PortsOfMembers(refs[n].id, ports);
      forall a ensures a in PortsOf(refs[n].id, ports) <==> Announces(refs[n], a) {}
    }
  }

  lemma {:induction false} OfPortMembers(announced: seq<Announcement>, name: string)
    ensures forall x :: x in OfPort(announced, name) <==> Announcement(name, x) in announced
  {
    if announced != [] {
      var n := |announced| - 1;
      OfPortMembers(announced[..n], name);
      assert announced == announced[..n] + [announced[n]];
    }
  }

  lemma {:induction false} MatchingMembers(candidates: seq<Provided>, constraint: string)
    ensures forall id :: id in MatchingIDs(candidates, constraint) <==>
              exists c :: c in candidates && c.moduleID == id && V.MatchesVersion(c.version, constraint) == Ok(true)
  {
    if candidates != [] {
      var n := |candidates| - 1;
      MatchingMembers(candidates[..n], constraint);
      assert candidates == candidates[..n] + [candidates[n]];
    }
  }

  /** The computed list holds exactly the modules that offer the port in an acceptable version. */
  lemma CompatibleMembers(refs: seq<Ref>, dep: Dependency, id: string)
    ensures id in CompatibleIDs(refs, dep) <==> Compatible(refs, dep, id)
  {
    var announced := Announced(refs);
    var name, constraint := dep.port.name, dep.port.version;
    AnnouncedMembers(refs);
    OfPortMembers(announced, name);
    MatchingMembers(OfPort(announced, name), constraint);
    if Compatible(refs, dep, id) {
      var ref :| ref in refs && ref.id == id && Offers(ref.mod, dep);
      var p :| p in ref.mod.ports && p.name == name && V.MatchesVersion(p.version, constraint) == Ok(true);
      assert Announces(ref, Announcement(name, Provided(id, p.version)));
      assert Provided(id, p.version) in OfPort(announced, name);
    }
    if id in CompatibleIDs(refs, dep) {
      var c :| c in OfPort(announced, name) && c.moduleID == id && V.MatchesVersion(c.version, constraint) == Ok(true);
      var ref :| ref in refs && Announces(ref, Announcement(name, c));
      assert ref.id == id && Offers(ref.mod, dep);
    }
  }

  // ---- Provider preference ----

  function TrimStrings(values: seq<string>): seq<string> {
    if values == [] then []
    else
      var n := |values| - 1;
      TrimStrings(values[..n]) + if TrimSpace(values[n]) != "" then [TrimSpace(values[n])] else []
  }

  function KeepIn(values: seq<string>, candidates: seq<string>): seq<string> {
    if values == [] then []
    else
      var n := |values| - 1;
      KeepIn(values[..n], candidates) + if values[n] in candidates then [values[n]] else []
  }

  function MatchingProviders(candidates: seq<string>, allowed: seq<string>): seq<string> {
    KeepIn(TrimStrings(allowed), candidates)
  }

  /** `trimStrings` and `matchingProviders` accumulate in loops. */
  method TrimStringsLoop(values: seq<string>) returns (out: seq<string>)
    ensures out == TrimStrings(values)
  {
    out := [];
    for i := 0 to |values|
      invariant out == TrimStrings(values[..i])
    {
      assert values[..i+1][..i] == values[..i];
      var trimmed := TrimSpace(values[i]);
      if trimmed != "" {
        out := out + [trimmed];
      }
    }
    assert values[..|values|] == values;
  }

  method MatchingProvidersLoop(candidates: seq<string>, allowed: seq<string>) returns (out: seq<string>)
    ensures out == MatchingProviders(candidates, allowed)
  {
    out := [];
    var trimmed := TrimStringsLoop(allowed);
    for i := 0 to |trimmed|
      invariant out == KeepIn(trimmed[..i], candidates)
    {
      assert trimmed[..i+1][..i] == trimmed[..i];
      if trimmed[i] in candidates {
        out := out + [trimmed[i]];
      }
    }
    assert trimmed[..|trimmed|] == trimmed;
  }

  function SatisfyingProviders(candidates: seq<string>, dep: Dependency): seq<string> {
    var preferred := TrimSpace(dep.preferredProvider);
    if preferred != "" then
      if preferred in candidates then [preferred] else MatchingProviders(candidates, dep.fallbackProviders)
    else
      var fallbacks := MatchingProviders(candidates, dep.fallbackProviders);
      if |fallbacks| > 0 then fallbacks else candidates
  }

  /** A listed name as it is kept: trimmed, if that leaves a name and it is among the candidates. */
  function KeptName(raw: string, candidates: seq<string>): Option<string> {
    var id := TrimSpace(raw);
    if id != "" && id in candidates then Some(id) else None
  }

  function KeptNames(listed: seq<string>, candidates: seq<string>): (names: seq<Option<string>>)
    ensures |names| == |listed|
    ensures forall p :: 0 <= p < |listed| ==> names[p] == KeptName(listed[p], candidates)
  {
    seq(|listed|, p requires 0 <= p < |listed| => KeptName(listed[p], candidates))
  }

  lemma KeepInStep(names: seq<string>, id: string, candidates: seq<string>)
    ensures KeepIn(names + [id], candidates) == KeepIn(names, candidates) + if id in candidates then [id] else []
  {
    assert (names + [id])[..|names|] == names;
  }

  lemma MatchingProvidersStep(candidates: seq<string>, listed: seq<string>)
    requires listed != []
    ensures MatchingProviders(candidates, listed)
         == Append(MatchingProviders(candidates, listed[..|listed| - 1]), KeptName(listed[|listed| - 1], candidates))
  {
    hide TrimSpace, KeepIn;
    var n := |listed| - 1;
    var before := TrimStrings(listed[..n]);
    var id := TrimSpace(listed[n]);
    if id == "" {
      assert TrimStrings(listed) == before;
    } else {
      assert TrimStrings(listed) == before + [id];
      KeepInStep(before, id, candidates);
      assert KeepIn(before, candidates) + [] == KeepIn(before, candidates);
    }
  }

  /** The listed fallbacks among the candidates come out in the order in which they are listed. */
  lemma {:induction false} MatchingInOrder(candidates: seq<string>, listed: seq<string>)
    ensures Lists(MatchingProviders(candidates, listed), KeptNames(listed, candidates))
  {
    hide TrimSpace, KeptName, Lists;
    if listed == [] {
      ListsNothing<string>();
    } else {
      var n := |listed| - 1;
      MatchingInOrder(candidates, listed[..n]);
      MatchingProvidersStep(candidates, listed);
      ListsStep(MatchingProviders(candidates, listed[..n]), KeptNames(listed[..n], candidates),
                KeptName(listed[n], candidates));
      assert KeptNames(listed, candidates) == KeptNames(listed[..n], candidates) + [KeptName(listed[n], candidates)];
    }
  }

  /** The dependency lists this module as a fallback. */
  ghost predicate ListedFallback(dep: Dependency, id: string) {
    id != "" && exists raw :: raw in dep.fallbackProviders && TrimSpace(raw) == id
  }

  lemma {:induction false} TrimStringsMembers(values: seq<string>)
    ensures forall id :: id in TrimStrings(values) <==> id != "" && exists raw :: raw in values && TrimSpace(raw) == id
  {
    if values != [] {
      var n := |values| - 1;
      TrimStringsMembers(values[..n]);
      assert values == values[..n] + [values[n]];
    }
  }

  lemma {:induction false} KeepInMembers(values: seq<string>, candidates: seq<string>)
    ensures forall id :: id in KeepIn(values, candidates) <==> id in values && id in candidates
  {
    if values != [] {
      var n := |values| - 1;
      KeepInMembers(values[..n], candidates);
      assert values == values[..n] + [values[n]];
    }
  }

  lemma MatchingMeans(candidates: seq<string>, dep: Dependency)
    ensures forall id :: id in MatchingProviders(candidates, dep.fallbackProviders)
                    <==> ListedFallback(dep, id) && id in candidates
  {
    hide TrimSpace, TrimStrings, KeepIn;
    TrimStringsMembers(dep.fallbackProviders);
    KeepInMembers(TrimStrings(dep.fallbackProviders), candidates);
  }

  /** What the preference step returns: the preferred provider alone if it is a candidate; the listed fallbacks
      among the candidates, in the listed order, if there is another preference or one of them is a candidate;
      otherwise the candidates as they are. */
  ghost predicate PreferenceOrder(out: seq<string>, candidates: seq<string>, dep: Dependency) {
    var preferred := TrimSpace(dep.preferredProvider);
    if preferred != "" && preferred in candidates then out == [preferred]
    else if preferred == "" && !FallbackIn(dep, candidates) then out == candidates
    else Lists(out, KeptNames(dep.fallbackProviders, candidates))
  }

  ghost predicate FallbackIn(dep: Dependency, candidates: seq<string>) {
    exists f :: ListedFallback(dep, f) && f in candidates
  }

  lemma SatisfyingInOrder(candidates: seq<string>, dep: Dependency)
    ensures PreferenceOrder(SatisfyingProviders(candidates, dep), candidates, dep)
  {
    hide TrimSpace, TrimStrings, KeepIn, Lists;
    MatchingInOrder(candidates, dep.fallbackProviders);
    MatchingMeans(candidates, dep);
    var fallbacks := MatchingProviders(candidates, dep.fallbackProviders);
    assert |fallbacks| > 0 ==> fallbacks[0] in fallbacks;
  }

  /** `satisfyingProviders`. */
  method SelectSatisfying(candidates: seq<string>, dep: Dependency) returns (out: seq<string>)
    ensures out == SatisfyingProviders(candidates, dep)
    ensures PreferenceOrder(out, candidates, dep)
  {
    hide TrimSpace, MatchingProviders, PreferenceOrder;
    SatisfyingInOrder(candidates, dep);
    var preferred := TrimSpace(dep.preferredProvider);
    if preferred != "" {
      if preferred in candidates {
        return [preferred];
      }
      out := MatchingProvidersLoop(candidates, dep.fallbackProviders);
      return;
    }
    var fallbacks := MatchingProvidersLoop(candidates, dep.fallbackProviders);
    if |fallbacks| > 0 {
      return fallbacks;
    }
    return candidates;
  }

  /** What a dependency accepts: a compatible provider, namely the preferred one if it is compatible and a
      listed fallback otherwise; without a preference, a listed fallback if any is compatible, else anyone. */
  ghost predicate Admissible(refs: seq<Ref>, dep: Dependency, id: string) {
    var preferred := TrimSpace(dep.preferredProvider);
    && Compatible(refs, dep, id)
    && if preferred != "" then
         if Compatible(refs, dep, preferred) then id == preferred else ListedFallback(dep, id)
       else
         (exists f :: ListedFallback(dep, f) && Compatible(refs, dep, f)) ==> ListedFallback(dep, id)
  }

  /** The preference rules select exactly the admissible providers. */
  lemma SatisfyingIsAdmissible(refs: seq<Ref>, dep: Dependency)
    ensures forall id :: id in SatisfyingProviders(CompatibleIDs(refs, dep), dep) <==> Admissible(refs, dep, id)
  {
    hide TrimSpace, CompatibleIDs, MatchingProviders, Compatible, ListedFallback;
    var candidates := CompatibleIDs(refs, dep);
    forall id ensures id in candidates <==> Compatible(refs, dep, id) { CompatibleMembers(refs, dep, id); }
    MatchingMeans(candidates, dep);
    var fallbacks := MatchingProviders(candidates, dep.fallbackProviders);
    assert |fallbacks| > 0 ==> fallbacks[0] in fallbacks;
  }

  // ---- Dependency declarations and choices ----

  function ValidateDependency(consumer: string, dep: Dependency): Result<(), Problem> {
    if TrimSpace(dep.port.name) == "" then Err(BlankPortName(consumer))
    else match V.ConstraintOf(dep.port.version)
      case Err(e) => Err(InvalidDeclaration(consumer, e))
      case Ok(_) => Ok(())
  }

  predicate ValidDependency(dep: Dependency) {
    TrimSpace(dep.port.name) != "" && V.ValidConstraint(dep.port.version)
  }

  predicate DependenciesValid(refs: seq<Ref>) {
    forall ref, dep :: ref in refs && ref.mod.Module? && dep in ref.mod.dependencies ==> ValidDependency(dep)
  }

  function Others(ids: seq<string>, self: string): seq<string> {
    if ids == [] then []
    else
      var n := |ids| - 1;
      Others(ids[..n], self) + if ids[n] == self then [] else [ids[n]]
  }

  lemma {:induction false} OthersMembers(ids: seq<string>, self: string)
    ensures forall id :: id in Others(ids, self) <==> id in ids && id != self
  {
    if ids != [] {
      var n := |ids| - 1;
      OthersMembers(ids[..n], self);
      assert ids == ids[..n] + [ids[n]];
    }
  }

  /** The choice a dependency leaves: none if it is optional or only its own module can serve it. */
  function ChoiceOf(refs: seq<Ref>, consumer: string, dep: Dependency): seq<Choice> {
    var selected := Others(SatisfyingProviders(CompatibleIDs(refs, dep), dep), consumer);
    if dep.required && |selected| > 0 then [Choice(consumer, selected)] else []
  }

  function ChoicesOfDeps(refs: seq<Ref>, consumer: string, deps: seq<Dependency>): seq<Choice> {
    if deps == [] then []
    else
      var n := |deps| - 1;
      ChoicesOfDeps(refs, consumer, deps[..n]) + ChoiceOf(refs, consumer, deps[n])
  }

  /** The choices of the modules `some`, with providers among all of `refs`. */
  function ChoicesOf(refs: seq<Ref>, some: seq<Ref>): seq<Choice> {
    if some == [] then []
    else
      var n := |some| - 1;
      ChoicesOf(refs, some[..n])
      + ChoicesOfDeps(refs, some[n].id, if some[n].mod.Module? then some[n].mod.dependencies else [])
  }

  lemma IndexedVersionsValid(providers: map<string, seq<Provided>>, refs: seq<Ref>, name: string)
    requires Indexes(providers, refs) && PortsValid(refs)
    ensures forall c :: c in Lookup(providers, name) ==> V.ValidVersion(c.version)
  {
    PermutationFacts(Lookup(providers, name), OfPort(Announced(refs), name));
    AnnouncedMembers(refs);
    OfPortMembers(Announced(refs), name);
    forall c | c in Lookup(providers, name) ensures V.ValidVersion(c.version) {
      assert Announcement(name, c) in Announced(refs);
      var ref :| ref in refs && Announces(ref, Announcement(name, c));
      var p :| p in ref.mod.ports && Announcement(name, c) == Announcement(p.name, Provided(ref.id, p.version));
      assert ValidPort(p);
    }
  }

  lemma SatisfyingAreModules(refs: seq<Ref>, dep: Dependency)
    ensures forall id :: id in SatisfyingProviders(CompatibleIDs(refs, dep), dep) ==> id in Ids(refs)
  {
    SatisfyingIsAdmissible(refs, dep);
    forall id | Admissible(refs, dep, id) ensures id in Ids(refs) {
      var ref :| ref in refs && ref.id == id && Offers(ref.mod, dep);
      var i :| 0 <= i < |refs| && refs[i] == ref;
      assert Ids(refs)[i] == id;
    }
  }

  method DependencyChoices(refs: seq<Ref>, providers: map<string, seq<Provided>>, byID: map<string, Composable>)
    returns (r: Result<seq<Choice>, ComposeError>)
    requires forall ref :: ref in refs ==> ref.mod.Module?
    requires PortsValid(refs) && Indexes(providers, refs) && byID.Keys == Elems(Ids(refs))
    ensures r.Ok? <==> DependenciesValid(refs)
    ensures r.Ok? ==> r.value == ChoicesOf(refs, refs)
  {
    hide ChoicesOfDeps, ValidDependency;
    var choices := [];
    for i := 0 to |refs|
      invariant DependenciesValid(refs[..i])
      invariant choices == ChoicesOf(refs, refs[..i])
    {
      var ref := refs[i];
      assert ref in refs && refs[..i+1][..i] == refs[..i];
      assert refs[..i+1] == refs[..i] + [ref];
      var more := ModuleChoices(refs, ref.id, ref.mod.dependencies, providers, byID);
      if more.Err? { return Err(more.error); }
      choices := choices + more.value;
    }
    assert refs[..|refs|] == refs;
    r := Ok(choices);
  }

  /** The inner loop of `dependencyChoices`: one module's dependencies. */
  method ModuleChoices(refs: seq<Ref>, consumer: string, deps: seq<Dependency>,
                       providers: map<string, seq<Provided>>, byID: map<string, Composable>)
    returns (r: Result<seq<Choice>, ComposeError>)
    requires PortsValid(refs) && Indexes(providers, refs) && byID.Keys == Elems(Ids(refs))
    ensures r.Ok? <==> forall dep :: dep in deps ==> ValidDependency(dep)
    ensures r.Ok? ==> r.value == ChoicesOfDeps(refs, consumer, deps)
  {
    hide ChoiceOf, ValidDependency;
    var choices := [];
    for j := 0 to |deps|
      invariant forall dep :: dep in deps[..j] ==> ValidDependency(dep)
      invariant choices == ChoicesOfDeps(refs, consumer, deps[..j])
    {
      assert deps[j] in deps && deps[..j+1][..j] == deps[..j];
      assert deps[..j+1] == deps[..j] + [deps[j]];
      var choice := DependencyChoice(refs, consumer, deps[j], providers, byID);
      if choice.Err? { return Err(choice.error); }
      choices := choices + choice.value;
    }
    assert deps[..|deps|] == deps;
    r := Ok(choices);
  }

  /** One round of that loop: at most one choice. */
  method DependencyChoice(refs: seq<Ref>, consumer: string, dep: Dependency,
                          providers: map<string, seq<Provided>>, byID: map<string, Composable>)
    returns (r: Result<seq<Choice>, ComposeError>)
    requires PortsValid(refs) && Indexes(providers, refs) && byID.Keys == Elems(Ids(refs))
    ensures r.Ok? <==> ValidDependency(dep)
    ensures r.Ok? <==> TrimSpace(dep.port.name) != "" && V.ConstraintOf(dep.port.version).Ok?
    ensures r.Ok? ==> r.value == ChoiceOf(refs, consumer, dep)
  {
    var valid := ValidateDependency(consumer, dep);
    if valid.Err? { return Err(InvalidDependency(valid.error)); }
    if !dep.required { return Ok([]); }
    IndexedVersionsValid(providers, refs, dep.port.name);
    IndexOrderIrrelevant(providers, refs, dep);
    var compatible := CompatibleProviders(Lookup(providers, dep.port.name), dep.port.version);
    if compatible.Err? {
      assert false;  // the constraint and every indexed version were validated above
    }
    var satisfying := SelectSatisfying(compatible.value, dep);
    SatisfyingAreModules(refs, dep);
    forall id | id in satisfying ensures id in byID { assert id in Elems(Ids(refs)); }
    var selected := SelectOthers(satisfying, consumer, byID);
    r := Ok(if |selected| > 0 then [Choice(consumer, selected)] else []);
  }

  /** The innermost loop: the consumer itself is never chosen. */
  method SelectOthers(satisfying: seq<string>, consumer: string, byID: map<string, Composable>)
    returns (selected: seq<string>)
    requires forall id :: id in satisfying ==> id in byID
    ensures selected == Others(satisfying, consumer)
  {
    selected := [];
    for k := 0 to |satisfying|
      invariant selected == Others(satisfying[..k], consumer)
    {
      assert satisfying[..k+1][..k] == satisfying[..k];
      if satisfying[k] == consumer { continue; }
      if satisfying[k] in byID {
        selected := selected + [satisfying[k]];
      }
    }
    assert satisfying[..|satisfying|] == satisfying;
  }

  // ---- What the choices mean ----

  lemma {:induction false} DepChoicesSound(refs: seq<Ref>, consumer: string, deps: seq<Dependency>)
    requires consumer in Ids(refs)
    ensures ChoicesWithin(ChoicesOfDeps(refs, consumer, deps), Ids(refs))
  {
    hide ChoiceOf;
    if deps != [] {
      var n := |deps| - 1;
      DepChoicesSound(refs, consumer, deps[..n]);
      ChoiceSound(refs, consumer, deps[n]);
    }
  }

  lemma ChoiceSound(refs: seq<Ref>, consumer: string, dep: Dependency)
    requires consumer in Ids(refs)
    ensures ChoicesWithin(ChoiceOf(refs, consumer, dep), Ids(refs))
  {
    hide SatisfyingProviders, CompatibleIDs, Others;
    SatisfyingAreModules(refs, dep);
    OthersMembers(SatisfyingProviders(CompatibleIDs(refs, dep), dep), consumer);
  }

  lemma {:induction false} ChoicesSound(refs: seq<Ref>, some: seq<Ref>)
    requires forall ref :: ref in some ==> ref.id in Ids(refs)
    ensures ChoicesWithin(ChoicesOf(refs, some), Ids(refs))
  {
    if some != [] {
      var n := |some| - 1;
      ChoicesSound(refs, some[..n]);
      assert some[n] in some;
      DepChoicesSound(refs, some[n].id, if some[n].mod.Module? then some[n].mod.dependencies else []);
    }
  }

  /** A listed fallback as it is offered to a consumer: a compatible module other than itself. */
  ghost function Fallback(refs: seq<Ref>, consumer: string, dep: Dependency, raw: string): Option<string> {
    var id := TrimSpace(raw);
    if id != "" && id != consumer && Compatible(refs, dep, id) then Some(id) else None
  }

  ghost function Fallbacks(refs: seq<Ref>, consumer: string, dep: Dependency, listed: seq<string>)
    : (names: seq<Option<string>>)
    ensures |names| == |listed|
    ensures forall p :: 0 <= p < |listed| ==> names[p] == Fallback(refs, consumer, dep, listed[p])
  {
    seq(|listed|, p requires 0 <= p < |listed| => Fallback(refs, consumer, dep, listed[p]))
  }

  /** The order in which providers are tried: fallbacks as they are listed, if the dependency has a preference
      that leads to them, and by name otherwise. */
  ghost predicate InDeclaredOrder(refs: seq<Ref>, consumer: string, dep: Dependency, names: seq<string>) {
    var preferred := TrimSpace(dep.preferredProvider);
    if preferred != "" && Compatible(refs, dep, preferred) then |names| <= 1
    else if preferred == "" && !exists f :: ListedFallback(dep, f) && Compatible(refs, dep, f) then IsSorted(names)
    else Lists(names, Fallbacks(refs, consumer, dep, dep.fallbackProviders))
  }

  /** A choice of this consumer whose providers are exactly the admissible ones other than itself, in the
      declared order. */
  ghost predicate Serves(refs: seq<Ref>, consumer: string, dep: Dependency, c: Choice) {
    && c.consumer == consumer
    && (forall id :: id in c.providers <==> Admissible(refs, dep, id) && id != consumer)
    && InDeclaredOrder(refs, consumer, dep, c.providers)
  }

  lemma OthersStep(names: seq<string>, x: Option<string>, self: string)
    ensures Others(Append(names, x), self) == Append(Others(names, self), if x == Some(self) then None else x)
  {
    if x.Some? {
      assert Append(names, x)[..|names|] == names;
      assert Others(names, self) + [] == Others(names, self);
    }
  }

  lemma {:induction false} FallbacksInOrder(refs: seq<Ref>, consumer: string, dep: Dependency,
                                            candidates: seq<string>, listed: seq<string>)
    requires forall id :: id in candidates <==> Compatible(refs, dep, id)
    ensures Lists(Others(MatchingProviders(candidates, listed), consumer), Fallbacks(refs, consumer, dep, listed))
  {
    hide TrimSpace, Lists, MatchingProviders, Others, Compatible, Append;
    if listed == [] {
      NoFallbacks(candidates, consumer);
      ListsNothing<string>();
    } else {
      var n := |listed| - 1;
      var x := Fallback(refs, consumer, dep, listed[n]);
      FallbacksInOrder(refs, consumer, dep, candidates, listed[..n]);
      MatchingProvidersStep(candidates, listed);
      OthersStep(MatchingProviders(candidates, listed[..n]), KeptName(listed[n], candidates), consumer);
      ListsStep(Others(MatchingProviders(candidates, listed[..n]), consumer),
                Fallbacks(refs, consumer, dep, listed[..n]), x);
      assert Fallbacks(refs, consumer, dep, listed) == Fallbacks(refs, consumer, dep, listed[..n]) + [x];
    }
  }

  lemma NoFallbacks(candidates: seq<string>, self: string)
    ensures Others(MatchingProviders(candidates, []), self) == []
  {}

  lemma {:induction false} OthersSorted(ids: seq<string>, self: string)
    requires IsSorted(ids)
    ensures IsSorted(Others(ids, self))
  {
    hide Le;
    if ids != [] {
      var n := |ids| - 1;
      OthersSorted(ids[..n], self);
      OthersMembers(ids[..n], self);
      var before := Others(ids[..n], self);
      LeReflexive(ids[n]);
      forall i | 0 <= i < |before| ensures Le(before[i], ids[n]) {
        assert before[i] in ids[..n];
      }
    }
  }

  /** What is left of the selected providers serves the dependency. */
  lemma SelectedServes(refs: seq<Ref>, consumer: string, dep: Dependency)
    ensures var names := Others(SatisfyingProviders(CompatibleIDs(refs, dep), dep), consumer);
            Serves(refs, consumer, dep, Choice(consumer, names))
  {
    hide SatisfyingProviders, CompatibleIDs, Others, Admissible, InDeclaredOrder;
    SatisfyingIsAdmissible(refs, dep);
    OthersMembers(SatisfyingProviders(CompatibleIDs(refs, dep), dep), consumer);
    SelectedInOrder(refs, consumer, dep);
  }

  lemma SelectedInOrder(refs: seq<Ref>, consumer: string, dep: Dependency)
    ensures InDeclaredOrder(refs, consumer, dep,
                            Others(SatisfyingProviders(CompatibleIDs(refs, dep), dep), consumer))
  {
    hide TrimSpace, Lists, MatchingProviders, Others, Compatible, IsSorted, ListedFallback;
    var candidates := CompatibleIDs(refs, dep);
    forall id ensures id in candidates <==> Compatible(refs, dep, id) { CompatibleMembers(refs, dep, id); }
    hide CompatibleIDs;
    var preferred := TrimSpace(dep.preferredProvider);
    AtMostOne(preferred, consumer);
    OthersSorted(candidates, consumer);
    FallbacksInOrder(refs, consumer, dep, candidates, dep.fallbackProviders);
    MatchingMeans(candidates, dep);
    var fallbacks := MatchingProviders(candidates, dep.fallbackProviders);
    assert |fallbacks| > 0 ==> fallbacks[0] in fallbacks;
  }

  lemma AtMostOne(id: string, self: string)
    ensures |Others([id], self)| <= 1
  {
    assert |Others([], self)| == 0;
  }

  lemma {:induction false} DepChoicesComplete(refs: seq<Ref>, consumer: string, deps: seq<Dependency>, dep: Dependency,
                                              other: string)
    requires dep in deps && dep.required && Admissible(refs, dep, other) && other != consumer
    ensures exists c :: c in ChoicesOfDeps(refs, consumer, deps) && Serves(refs, consumer, dep, c)
  {
    var n := |deps| - 1;
    assert deps == deps[..n] + [deps[n]];
    if deps[n] == dep {
      SelectedServes(refs, consumer, dep);
      var selected := Others(SatisfyingProviders(CompatibleIDs(refs, dep), dep), consumer);
      assert other in selected;
      var c := Choice(consumer, selected);
      assert c in ChoiceOf(refs, consumer, dep);
    } else {
      DepChoicesComplete(refs, consumer, deps[..n], dep, other);
    }
  }

  /** Every required dependency that another module can serve is one of the choices. */
  lemma {:induction false} ChoicesComplete(refs: seq<Ref>, some: seq<Ref>, ref: Ref, dep: Dependency, other: string)
    requires ref in some && ref.mod.Module? && dep in ref.mod.dependencies && dep.required
    requires Admissible(refs, dep, other) && other != ref.id
    ensures exists c :: c in ChoicesOf(refs, some) && Serves(refs, ref.id, dep, c)
  {
    var n := |some| - 1;
    assert some == some[..n] + [some[n]];
    if some[n] == ref {
      DepChoicesComplete(refs, ref.id, ref.mod.dependencies, dep, other);
    } else {
      ChoicesComplete(refs, some[..n], ref, dep, other);
    }
  }

  // ---- The order of the choices ----

  /** What one dependency leaves to decide: nothing, if it is optional or no other module may serve it. */
  ghost predicate Decides(refs: seq<Ref>, consumer: string, dep: Dependency, x: Option<Choice>) {
    match x
    case None => !dep.required || forall id :: Admissible(refs, dep, id) ==> id == consumer
    case Some(c) => dep.required && |c.providers| > 0 && Serves(refs, consumer, dep, c)
  }

  /** The choices of one module follow its dependencies in the order in which it declares them. */
  ghost predicate DecidesAll(refs: seq<Ref>, consumer: string, deps: seq<Dependency>, choices: seq<Choice>,
                             image: seq<Option<Choice>>) {
    && |image| == |deps| && Lists(choices, image)
    && forall j :: 0 <= j < |deps| ==> Decides(refs, consumer, deps[j], image[j])
  }

  ghost predicate ModuleDecides(refs: seq<Ref>, ref: Ref, choices: seq<Choice>) {
    var deps := if ref.mod.Module? then ref.mod.dependencies else [];
    exists image :: DecidesAll(refs, ref.id, deps, choices, image)
  }

  lemma ChoiceDecides(refs: seq<Ref>, consumer: string, dep: Dependency) returns (x: Option<Choice>)
    ensures Decides(refs, consumer, dep, x)
    ensures forall before: seq<Choice> :: before + ChoiceOf(refs, consumer, dep) == Append(before, x)
  {
    hide SatisfyingProviders, CompatibleIDs, Others, Admissible, InDeclaredOrder;
    SelectedServes(refs, consumer, dep);
    var selected := Others(SatisfyingProviders(CompatibleIDs(refs, dep), dep), consumer);
    if dep.required && |selected| > 0 {
      x := Some(Choice(consumer, selected));
    } else {
      x := None;
      assert forall before: seq<Choice> :: before + [] == before;
    }
  }

  lemma {:induction false} DepChoicesOrder(refs: seq<Ref>, consumer: string, deps: seq<Dependency>)
    returns (image: seq<Option<Choice>>)
    ensures DecidesAll(refs, consumer, deps, ChoicesOfDeps(refs, consumer, deps), image)
  {
    hide Lists, Decides, ChoiceOf, Append;
    if deps == [] {
      image := [];
      ListsNothing<Choice>();
    } else {
      var n := |deps| - 1;
      var before := DepChoicesOrder(refs, consumer, deps[..n]);
      var x := ChoiceDecides(refs, consumer, deps[n]);
      image := before + [x];
      ListsStep(ChoicesOfDeps(refs, consumer, deps[..n]), before, x);
      assert ChoicesOfDeps(refs, consumer, deps) == Append(ChoicesOfDeps(refs, consumer, deps[..n]), x);
      forall j | 0 <= j < |deps| ensures Decides(refs, consumer, deps[j], image[j]) {
        if j < n {
          assert Decides(refs, consumer, deps[..n][j], before[j]);
        }
      }
    }
  }

  lemma PartDecides(refs: seq<Ref>, ref: Ref) returns (part: seq<Choice>)
    ensures part == ChoicesOfDeps(refs, ref.id, if ref.mod.Module? then ref.mod.dependencies else [])
    ensures ModuleDecides(refs, ref, part)
  {
    hide DecidesAll, ChoicesOfDeps;
    var deps := if ref.mod.Module? then ref.mod.dependencies else [];
    var image := DepChoicesOrder(refs, ref.id, deps);
    part := ChoicesOfDeps(refs, ref.id, deps);
  }

  lemma NoChoices(refs: seq<Ref>)
    ensures ChoicesOf(refs, []) == []
  {}

  lemma ChoicesStep(refs: seq<Ref>, some: seq<Ref>, part: seq<Choice>)
    requires some != []
    requires var ref := some[|some| - 1];
             part == ChoicesOfDeps(refs, ref.id, if ref.mod.Module? then ref.mod.dependencies else [])
    ensures ChoicesOf(refs, some) == ChoicesOf(refs, some[..|some| - 1]) + part
  {
    hide ChoicesOfDeps;
  }

  /** The choices are those of the first module, then those of the second, and so on. */
  lemma {:induction false} ChoicesOrder(refs: seq<Ref>, some: seq<Ref>) returns (parts: seq<seq<Choice>>)
    ensures |parts| == |some| && Concatenates(ChoicesOf(refs, some), parts)
    ensures forall i :: 0 <= i < |some| ==> ModuleDecides(refs, some[i], parts[i])
  {
    hide Concatenates, ModuleDecides, ChoicesOf, ChoicesOfDeps;
    if some == [] {
      parts := [];
      NoChoices(refs);
      ConcatenatesNothing<Choice>();
    } else {
      var n := |some| - 1;
      var before := ChoicesOrder(refs, some[..n]);
      var part := PartDecides(refs, some[n]);
      parts := before + [part];
      ConcatenatesStep(ChoicesOf(refs, some[..n]), before, part);
      ChoicesStep(refs, some, part);
      forall i | 0 <= i < |some| ensures ModuleDecides(refs, some[i], parts[i]) {
        if i < n {
          assert ModuleDecides(refs, some[..n][i], before[i]);
        }
      }
    }
  }
}
