/** Exact code bundle closures: sorted, duplicate-free, resolved, exact and acyclic. */
module CodeBundles {
  import opened Results
  import opened Ordering
  import opened DependencyGraph
  import Acyclic

  datatype Dependency = Dependency(role: string, bundleId: string, apiVersion: int)

  datatype Manifest = Manifest(bundleId: string, role: string, apiVersion: int, dependencies: seq<Dependency>)

  /** A resolved component; its configuration only enters the root. */
  datatype Component = Component(role: string, bundleId: string, apiVersion: int, config: string)

  datatype Fault = Unsorted | Duplicate | Unresolved | Inexact | Cycle | RolesDiffer | ComponentDiffers | RootDiffers

  predicate RoleBefore(x: Manifest, y: Manifest) { TextLess(x.role, y.role) }

  /** Roles never step down. */
  ghost predicate SortedRoles(ms: seq<Manifest>) { Sorted(ms, RoleBefore) }

  ghost predicate DistinctRoles(ms: seq<Manifest>) {
    forall i, j :: 0 <= i < j < |ms| ==> ms[i].role != ms[j].role
  }

  lemma RolesCompare()
    ensures Comparison(RoleBefore)
  {
    TextCompares();
  }

  lemma {:induction false} SortFixesSorted(ms: seq<Manifest>)
    requires SortedRoles(ms)
    ensures Sort(ms, RoleBefore) == ms
  {
    if ms != [] {
      SortFixesSorted(ms[1..]);
      assert ms == [ms[0]] + ms[1..];
    }
  }

  lemma SortedIffFixed(ms: seq<Manifest>)
    ensures Sort(ms, RoleBefore) == ms <==> SortedRoles(ms)
  {
    RolesCompare();
    SortSorts(ms, RoleBefore);
    if SortedRoles(ms) {
      SortFixesSorted(ms);
    }
  }

  /** The manifest that carries a role; a later one wins, as in a dictionary built from a list. */
  function ByRole(ms: seq<Manifest>): map<string, Manifest> {
    if ms == [] then map[] else ByRole(ms[..|ms| - 1])[ms[|ms| - 1].role := ms[|ms| - 1]]
  }

  function Roles(ms: seq<Manifest>): seq<string> {
    seq(|ms|, i requires 0 <= i < |ms| => ms[i].role)
  }

  /** A manifest found by role is one of the list with that role. */
  lemma {:induction false} Found(ms: seq<Manifest>, r: string) returns (i: nat)
    requires r in ByRole(ms)
    ensures i < |ms| && ms[i].role == r && ByRole(ms)[r] == ms[i]
  {
    if r == ms[|ms| - 1].role {
      i := |ms| - 1;
    } else {
      i := Found(ms[..|ms| - 1], r);
    }
  }

  lemma {:induction false} Listed(ms: seq<Manifest>, i: nat)
    requires i < |ms|
    ensures ms[i].role in ByRole(ms)
  {
    if i < |ms| - 1 {
      Listed(ms[..|ms| - 1], i);
    }
  }

  lemma KeysAreRoles(ms: seq<Manifest>)
    ensures ByRole(ms).Keys == set r | r in Roles(ms)
  {
    forall r ensures r in ByRole(ms) <==> r in Roles(ms) {
      if r in ByRole(ms) {
        var i := Found(ms, r);
        assert Roles(ms)[i] == r;
      }
      if r in Roles(ms) {
        var i :| 0 <= i < |ms| && Roles(ms)[i] == r;
        Listed(ms, i);
      }
    }
  }

  lemma DistinctByRoles(ms: seq<Manifest>)
    ensures Distinct(Roles(ms)) <==> DistinctRoles(ms)
  {
    assert forall i :: 0 <= i < |ms| ==> Roles(ms)[i] == ms[i].role;
  }

  /** The dictionary is as large as the list only without duplicate roles. */
  lemma ByRoleSize(ms: seq<Manifest>)
    ensures |ByRole(ms)| == |ms| <==> DistinctRoles(ms)
  {
    KeysAreRoles(ms);
    DistinctSize(Roles(ms));
    DistinctByRoles(ms);
    assert |ByRole(ms)| == |ByRole(ms).Keys|;
  }

  function DependencyRoles(ds: seq<Dependency>): seq<string> {
    seq(|ds|, i requires 0 <= i < |ds| => ds[i].role)
  }

  /** Roles and the roles they depend on. */
  function GraphOf(ms: seq<Manifest>): Digraph {
    map r | r in ByRole(ms) :: DependencyRoles(ByRole(ms)[r].dependencies)
  }

  /** The dependency names a manifest of the closure by role, identity and version. */
  ghost predicate Exact(ms: seq<Manifest>, d: Dependency) {
    exists j ::
      0 <= j < |ms| && ms[j].role == d.role && ms[j].bundleId == d.bundleId && ms[j].apiVersion == d.apiVersion
  }

  ghost predicate AllExact(ms: seq<Manifest>) {
    forall i, k :: 0 <= i < |ms| && 0 <= k < |ms[i].dependencies| ==> Exact(ms, ms[i].dependencies[k])
  }

  /** Dependency `k` of manifest `i` is the first that is not exact, and `f` says what is wrong with it. */
  ghost predicate FirstFault(ms: seq<Manifest>, i: nat, k: nat, f: Fault) {
    && i < |ms| && k < |ms[i].dependencies|
    && (forall j, l {:trigger ms[j].dependencies[l]} :: 0 <= j < i && 0 <= l < |ms[j].dependencies| ==>
          Exact(ms, ms[j].dependencies[l]))
    && FaultIn(ms, ms[i], k, f)
  }

  ghost predicate FaultIn(ms: seq<Manifest>, m: Manifest, k: nat, f: Fault) {
    && k < |m.dependencies| && (forall l :: 0 <= l < k ==> Exact(ms, m.dependencies[l]))
    && !Exact(ms, m.dependencies[k])
    && f == if m.dependencies[k].role in Roles(ms) then Inexact else Unresolved
  }

  ghost predicate Raised(ms: seq<Manifest>, f: Fault) {
    exists i, k :: FirstFault(ms, i, k, f)
  }

  /** There is only one first fault. */
  lemma FirstFaultUnique(ms: seq<Manifest>, i: nat, k: nat, f: Fault, i': nat, k': nat, f': Fault)
    requires FirstFault(ms, i, k, f) && FirstFault(ms, i', k', f')
    ensures i == i' && k == k' && f == f'
  {
    assert !Exact(ms, ms[i].dependencies[k]) && !Exact(ms, ms[i'].dependencies[k']);
  }

  lemma RaisedOnce(ms: seq<Manifest>, f: Fault, f': Fault)
    requires Raised(ms, f) && Raised(ms, f')
    ensures f == f' && !AllExact(ms)
  {
    var i, k :| FirstFault(ms, i, k, f);
    var i', k' :| FirstFault(ms, i', k', f');
    FirstFaultUnique(ms, i, k, f, i', k', f');
  }

  lemma ExactLookup(ms: seq<Manifest>, d: Dependency)
    requires DistinctRoles(ms)
    ensures Exact(ms, d) <==>
            && d.role in ByRole(ms) && ByRole(ms)[d.role].bundleId == d.bundleId
            && ByRole(ms)[d.role].apiVersion == d.apiVersion
  {
  }

  /** The dependencies of one manifest, first fault first. */
  method CheckDependencies(ms: seq<Manifest>, byRole: map<string, Manifest>, m: Manifest) returns (fault: Option<Fault>)
    requires DistinctRoles(ms) && byRole == ByRole(ms)
    ensures fault.None? <==> forall k :: 0 <= k < |m.dependencies| ==> Exact(ms, m.dependencies[k])
    ensures fault.Some? ==> exists k :: FaultIn(ms, m, k, fault.value)
  {
    for k := 0 to |m.dependencies|
      invariant forall j :: 0 <= j < k ==> Exact(ms, m.dependencies[j])
    {
      var d := m.dependencies[k];
      ExactLookup(ms, d);
      KeysAreRoles(ms);
      if d.role !in byRole {
        assert FaultIn(ms, m, k, Unresolved);
        return Some(Unresolved);
      }
      var target := byRole[d.role];
      if target.bundleId != d.bundleId || target.apiVersion != d.apiVersion {
        assert FaultIn(ms, m, k, Inexact);
        return Some(Inexact);
      }
    }
    fault := None;
  }

  lemma ExactIsResolved(ms: seq<Manifest>)
    requires DistinctRoles(ms) && AllExact(ms)
    ensures Resolved(GraphOf(ms))
  {
    var g := GraphOf(ms);
    forall n, d | n in g && d in g[n] ensures d in g {
      var i := Found(ms, n);
      var k :| 0 <= k < |ms[i].dependencies| && g[n][k] == d;
      ExactLookup(ms, ms[i].dependencies[k]);
    }
  }

  method CheckAll(ms: seq<Manifest>, byRole: map<string, Manifest>) returns (fault: Option<Fault>)
    requires DistinctRoles(ms) && byRole == ByRole(ms)
    ensures fault.None? <==> AllExact(ms)
    ensures fault.Some? ==> Raised(ms, fault.value)
  {
    for i := 0 to |ms|
      invariant forall j, k :: 0 <= j < i && 0 <= k < |ms[j].dependencies| ==> Exact(ms, ms[j].dependencies[k])
    {
      fault := CheckDependencies(ms, byRole, ms[i]);
      if fault.Some? {
        ghost var k :| FaultIn(ms, ms[i], k, fault.value);
        assert FirstFault(ms, i, k, fault.value);
        return;
      }
    }
    fault := None;
  }

  lemma GraphKeys(ms: seq<Manifest>)
    ensures forall r :: r in Roles(ms) <==> r in GraphOf(ms)
  {
    KeysAreRoles(ms);
    assert GraphOf(ms).Keys == ByRole(ms).Keys;
  }

  /** A list of manifests is sorted without duplicates exactly when their roles strictly ascend. */
  lemma RolesAscend(ms: seq<Manifest>)
    ensures SortedRoles(ms) && DistinctRoles(ms)
            <==> forall i, j :: 0 <= i < j < |ms| ==> TextLess(ms[i].role, ms[j].role)
  {
    forall i, j | 0 <= i < j < |ms|
      ensures TextLess(ms[i].role, ms[j].role) <==> !TextLess(ms[j].role, ms[i].role) && ms[i].role != ms[j].role
    {
      TextTotal(ms[i].role, ms[j].role);
    }
    if SortedRoles(ms) {
      assert forall i, j :: 0 <= i < j < |ms| ==> !RoleBefore(ms[j], ms[i]);
    }
  }

  /** The dependency that names a manifest. */
  function Naming(m: Manifest): Dependency { Dependency(m.role, m.bundleId, m.apiVersion) }

  lemma ExactNames(ms: seq<Manifest>, d: Dependency)
    ensures Exact(ms, d) <==> exists m :: m in ms && d == Naming(m)
  {
    if Exact(ms, d) {
      var j :|
        0 <= j < |ms| && ms[j].role == d.role && ms[j].bundleId == d.bundleId && ms[j].apiVersion == d.apiVersion;
      assert ms[j] in ms && d == Naming(ms[j]);
    }
  }

  /** Without duplicate roles, the graph that must not have a cycle leads from every manifest's role to the
      roles of its own dependencies, and nowhere else. */
  lemma GraphLeads(ms: seq<Manifest>, n: string, d: string)
    requires DistinctRoles(ms)
    ensures Depends(GraphOf(ms), n, d) <==>
            exists i, k :: 0 <= i < |ms| && 0 <= k < |ms[i].dependencies|
                           && ms[i].role == n && ms[i].dependencies[k].role == d
  {
    if n in GraphOf(ms) {
      var i := Found(ms, n);
      if d in GraphOf(ms)[n] {
        var k :| 0 <= k < |ms[i].dependencies| && GraphOf(ms)[n][k] == d;
      }
    }
    forall i, k | 0 <= i < |ms| && 0 <= k < |ms[i].dependencies| && ms[i].role == n && ms[i].dependencies[k].role == d
      ensures Depends(GraphOf(ms), n, d)
    {
      Listed(ms, i);
      var j := Found(ms, n);
      assert i == j;
      assert GraphOf(ms)[n][k] == d;
    }
  }

  /** The closure check: which fault is raised, and when none is. */
  method Check(ms: seq<Manifest>) returns (fault: Option<Fault>, ghost order: seq<string>)
    ensures fault == Some(Unsorted) <==> ms == [] || !SortedRoles(ms)
    ensures fault == Some(Duplicate) <==> ms != [] && SortedRoles(ms) && !DistinctRoles(ms)
    ensures fault == Some(Unresolved) <==> ms != [] && SortedRoles(ms) && DistinctRoles(ms) && Raised(ms, Unresolved)
    ensures fault == Some(Inexact) <==> ms != [] && SortedRoles(ms) && DistinctRoles(ms) && Raised(ms, Inexact)
    ensures fault == Some(Unresolved) || fault == Some(Inexact) <==>
            ms != [] && SortedRoles(ms) && DistinctRoles(ms) && !AllExact(ms)
    ensures fault == Some(Cycle) <==>
            ms != [] && SortedRoles(ms) && DistinctRoles(ms) && AllExact(ms) && Cyclic(GraphOf(ms))
    ensures fault.None? <==>
            ms != [] && SortedRoles(ms) && DistinctRoles(ms) && AllExact(ms) && !Cyclic(GraphOf(ms))
    ensures fault.None? ==> Topological(GraphOf(ms), order) && forall r :: r in order <==> r in Roles(ms)
  {
    order := [];
    var ordered := Sort(ms, RoleBefore);
    SortedIffFixed(ms);
    if ordered == [] || ordered != ms {
      return Some(Unsorted), order;
    }
    var byRole := ByRole(ordered);
    ByRoleSize(ms);
    if |byRole| != |ordered| {
      return Some(Duplicate), order;
    }
    fault := CheckAll(ms, byRole);
    forall f, f' | Raised(ms, f) && Raised(ms, f') ensures f == f' && !AllExact(ms) {
      RaisedOnce(ms, f, f');
    }
    if fault.Some? {
      ghost var i, k :| FirstFault(ms, i, k, fault.value);
      return;
    }
    ExactIsResolved(ms);
    GraphKeys(ms);
    var raised;
    raised, order := Acyclic.RequireAcyclic(GraphOf(ms), Roles(ordered));
    fault := if raised then Some(Cycle) else None;
  }

  /** The component names exactly this manifest. */
  predicate Names(c: Component, m: Manifest) {
    c.role == m.role && c.bundleId == m.bundleId && c.apiVersion == m.apiVersion
  }

  /** `require_components`: the components are the closure's manifests in order, under their root. */
  method RequireComponents(ms: seq<Manifest>, cs: seq<Component>, root: string, merkle: seq<Component> -> string)
    returns (fault: Option<Fault>)
    ensures fault == Some(RolesDiffer) <==> |cs| != |ms| || exists i :: 0 <= i < |ms| && cs[i].role != ms[i].role
    ensures fault.None? <==> |cs| == |ms| && (forall i :: 0 <= i < |ms| ==> Names(cs[i], ms[i])) && merkle(cs) == root
    ensures fault == Some(RootDiffers)
            <==> |cs| == |ms| && (forall i :: 0 <= i < |ms| ==> Names(cs[i], ms[i])) && merkle(cs) != root
  {
    var actual := seq(|cs|, i requires 0 <= i < |cs| => cs[i].role);
    var expected := Roles(ms);
    if actual != expected {
      assert |cs| == |ms| ==> exists i :: 0 <= i < |ms| && actual[i] != expected[i];
      return Some(RolesDiffer);
    }
    assert forall i :: 0 <= i < |ms| ==> cs[i].role == actual[i] == expected[i] == ms[i].role;
    for i := 0 to |ms|
      invariant forall j :: 0 <= j < i ==> Names(cs[j], ms[j])
    {
      if cs[i].bundleId != ms[i].bundleId || cs[i].apiVersion != ms[i].apiVersion {
        assert !Names(cs[i], ms[i]);
        return Some(ComponentDiffers);
      }
    }
    fault := if merkle(cs) != root then Some(RootDiffers) else None;
  }

  /** The components that a closure calls for, with any configurations. */
  function ComponentsOf(ms: seq<Manifest>, configs: seq<string>): seq<Component>
    requires |configs| == |ms|
  {
    seq(|ms|, i requires 0 <= i < |ms| => Component(ms[i].role, ms[i].bundleId, ms[i].apiVersion, configs[i]))
  }

  /** Naming the manifests in order is being their components under some configurations. */
  lemma NamesAreComponents(ms: seq<Manifest>, cs: seq<Component>)
    ensures |cs| == |ms| && (forall i :: 0 <= i < |ms| ==> Names(cs[i], ms[i])) <==>
            exists configs: seq<string> :: |configs| == |ms| && cs == ComponentsOf(ms, configs)
  {
    if |cs| == |ms| && forall i :: 0 <= i < |ms| ==> Names(cs[i], ms[i]) {
      var configs := seq(|cs|, i requires 0 <= i < |cs| => cs[i].config);
      assert cs == ComponentsOf(ms, configs);
    }
  }
}
