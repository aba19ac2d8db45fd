/** The depth-first acyclicity check over bundle roles. */
module Acyclic {
  import opened DependencyGraph

  /** The two sets of the search, and the order in which roles were completed. */
  class Search {
    var visiting: set<string>
    var visited: set<string>
    ghost var order: seq<string>

    constructor ()
      ensures visiting == {} && visited == {} && order == []
    {
      visiting, visited, order := {}, {}, [];
    }

    /** `stack` is the chain of open calls. */
    ghost predicate Valid(g: Digraph, stack: seq<string>)
      reads this
    {
      && (forall n :: n in visiting <==> n in stack)
      && (forall n :: n in visited <==> n in order)
      && visiting <= g.Keys && visiting !! visited
      && Walk(g, stack) && Topological(g, order)
    }

    /** Visit one role; `ok` is false where the code raises. */
    method Visit(g: Digraph, role: string, ghost stack: seq<string>) returns (ok: bool)
      requires Resolved(g) && role in g && Valid(g, stack) && (stack != [] ==> Depends(g, stack[|stack| - 1], role))
      modifies this
      ensures ok ==> Valid(g, stack) && visiting == old(visiting) && role in visited && old(order) <= order
      ensures !ok ==> Cyclic(g)
      decreases g.Keys - visiting, 0
    {
      WalkExtend(g, stack, role);
      if role in visiting {
        ReturnIsCycle(g, stack, role);
        return false;
      }
      if role in visited {
        return true;
      }
      visiting := visiting + {role};
      ok := VisitAll(g, role, stack + [role]);
      if !ok {
        return;
      }
      visiting := visiting - {role};
      TopologicalAppend(g, order, role);
      visited := visited + {role};
      order := order + [role];
    }

    /** The loop over the direct dependencies of an open role. */
    method VisitAll(g: Digraph, role: string, ghost stack: seq<string>) returns (ok: bool)
      requires Resolved(g) && role in g && Valid(g, stack) && stack != [] && stack[|stack| - 1] == role
      modifies this
      ensures ok ==> Valid(g, stack) && visiting == old(visiting) && old(order) <= order
      ensures ok ==> forall d :: d in g[role] ==> d in order
      ensures !ok ==> Cyclic(g)
      decreases g.Keys - visiting, 1
    {
      for i := 0 to |g[role]|
        invariant Valid(g, stack) && visiting == old(visiting) && old(order) <= order
        invariant forall j :: 0 <= j < i ==> g[role][j] in order
      {
        ok := Visit(g, g[role][i], stack);
        if !ok {
          return;
        }
      }
      ok := true;
    }
  }

  /** `_require_acyclic`: raises exactly when the dependencies have a cycle; otherwise the roles are
      completed in a topological order of all of them. */
  method RequireAcyclic(g: Digraph, roles: seq<string>) returns (raised: bool, ghost order: seq<string>)
    requires Resolved(g) && forall n :: n in roles <==> n in g
    ensures raised <==> Cyclic(g)
    ensures !raised ==> Topological(g, order) && forall n :: n in order <==> n in g
  {
    var search := new Search();
    for i := 0 to |roles|
      invariant search.Valid(g, []) && search.visiting == {}
      invariant forall j :: 0 <= j < i ==> roles[j] in search.order
    {
      var ok := search.Visit(g, roles[i], []);
      if !ok {
        return true, [];
      }
    }
    raised, order := false, search.order;
    forall n | n in order ensures n in g {
      var i :| 0 <= i < |order| && order[i] == n;
      assert Ready(g, order, i);
    }
    OrderedIsAcyclic(g, order);
  }
}
