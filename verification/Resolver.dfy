/** `resolve_install_order`: the coloured depth-first search and the name-ordered Kahn sort. */
module Resolver {
  import opened Names
  import opened AppGraph
  import opened AppSearch
  import opened StableOrder

  datatype Error = Circular(names: seq<string>) | Missing(id: AppId) | Disabled(name: string)

  datatype Color = Gray | Black   // an id without a colour is white

  ghost predicate NoCycle(errors: seq<Error>) { forall e :: e in errors ==> !e.Circular? }

  /** The names along a cycle that can be reached, each application of it once. */
  ghost predicate NamesCycle(c: Catalog, roots: set<AppId>, names: seq<string>) {
    exists p :: IsCycle(c, p) && Reachable(c, roots, p[0]) && NamesAlong(c, p, names)
  }

  ghost predicate NamesAlong(c: Catalog, p: seq<AppId>, names: seq<string>) {
    && |p| == |names| + 1 && Distinct(p[1..])
    && forall i :: 0 <= i < |names| ==> p[i] in c && names[i] == c[p[i]].name
  }

  /** The chain from its element `id` on, followed by `id` again. */
  lemma ChainNamesCycle(c: Catalog, roots: set<AppId>, chain: seq<AppId>, id: AppId, start: nat, names: seq<string>)
    requires IsChain(c, roots, chain) && Due(c, roots, chain, id) && start < |chain| && chain[start] == id
    requires start + |names| == |chain| && forall i :: 0 <= i < |names| ==> names[i] == c[chain[start + i]].name
    ensures NamesCycle(c, roots, names)
  {
    DueIsReachable(c, roots, chain, id);
    var cycle := chain[start..] + [id];
    assert IsCycle(c, cycle) && Reachable(c, roots, cycle[0]);
    assert cycle[1..] == chain[start + 1..] + [id];
    assert NamesAlong(c, cycle, names);
  }

  /** The search has met all of `ids`, and listed those that exist as long as it found no cycle. */
  ghost predicate Met(c: Catalog, met: set<AppId>, required: seq<AppId>, errors: seq<Error>, ids: seq<AppId>) {
    forall x :: x in ids ==> x in met && (NoCycle(errors) && x in c ==> x in required)
  }

  lemma MetGrows(c: Catalog, met0: set<AppId>, required0: seq<AppId>, errors0: seq<Error>, met: set<AppId>,
                 required: seq<AppId>, errors: seq<Error>, ids: seq<AppId>, i: nat)
    requires i < |ids| && Met(c, met0, required0, errors0, ids[..i])
    requires met0 <= met && required0 <= required && errors0 <= errors
    requires Met(c, met, required, errors, [ids[i]])
    ensures Met(c, met, required, errors, ids[..i + 1])
  {
    assert ids[..i + 1] == ids[..i] + [ids[i]];
    assert ids[i] in [ids[i]];
    assert NoCycle(errors) ==> NoCycle(errors0);
  }

  /** `sorted(node.dependency_ids, key=str)`: ids have a fixed width, so text order is id order. */
  method SortedIds(ids: set<AppId>) returns (s: seq<AppId>)
    ensures s == AscendingOf(ids)
  {
    s := [];
    var rest := ids;
    while rest != {}
      invariant rest <= ids && Ascending(s) && forall x :: x in s <==> x in ids - rest
      decreases rest
    {
      var x :| x in rest;
      rest := rest - {x};
      var at := 0;
      while at < |s| && s[at] < x
        invariant at <= |s| && forall i :: 0 <= i < at ==> s[i] < x
      {
        at := at + 1;
      }
      assert forall i :: at <= i < |s| ==> x < s[i] by {
        assert at < |s| ==> s[at] in s;
      }
      ghost var before := s;
      s := s[..at] + [x] + s[at..];
      assert forall y :: y in s <==> y in before || y == x;
    }
    AscendingIsUnique(s, AscendingOf(ids));
  }

  // ---------------------------------------------------------------- what the search keeps

  /** The chain is the path of gray applications from a selected one. */
  ghost predicate ChainOk(c: Catalog, roots: set<AppId>, color: map<AppId, Color>, chain: seq<AppId>) {
    IsChain(c, roots, chain) && forall x :: x in chain <==> x in color && color[x].Gray?
  }

  /** Finished applications, dependencies first as long as there was no cycle. */
  ghost predicate RequiredOk(c: Catalog, roots: set<AppId>, color: map<AppId, Color>, required: seq<AppId>,
                             errors: seq<Error>) {
    && Distinct(required) && (forall x :: x in required <==> x in color && color[x].Black? && x in c)
    && (forall x :: x in required ==> Reachable(c, roots, x))
    && (forall x, d :: x in required && d in c[x].deps ==> d in color)
    && (NoCycle(errors) ==> Topological(Present(c), required))
  }

  /** One error for each missing application that was met, and one for each cycle. */
  ghost predicate ErrorsOk(c: Catalog, roots: set<AppId>, color: map<AppId, Color>, errors: seq<Error>) {
    && (forall x :: Missing(x) in errors <==> x in color && color[x].Black? && x !in c)
    && (forall x :: Missing(x) in errors ==> Reachable(c, roots, x))
    && (forall e :: e in errors && e.Circular? ==> NamesCycle(c, roots, e.names))
    && (forall e :: e in errors ==> !e.Disabled?)
    && (forall i, j :: 0 <= i < j < |errors| && errors[i].Missing? ==> errors[i] != errors[j])
  }

  /** All dependencies of `id` have been met, and listed if they exist and there was no cycle. */
  ghost predicate DependenciesMet(c: Catalog, color: map<AppId, Color>, required: seq<AppId>, errors: seq<Error>,
                                  id: AppId)
    requires id in c
  {
    forall d :: d in c[id].deps ==> d in color && (NoCycle(errors) && d in c ==> d in required)
  }

  lemma LeaveKeepsChain(c: Catalog, roots: set<AppId>, color: map<AppId, Color>, chain: seq<AppId>, id: AppId)
    requires ChainOk(c, roots, color, chain) && chain != [] && chain[|chain| - 1] == id
    ensures ChainOk(c, roots, color[id := Black], chain[..|chain| - 1]) && Reachable(c, roots, id)
    ensures id in c && id in color && color[id].Gray?
  {
    assert id in chain && PathTo(c, roots, chain, id);
    var rest := chain[..|chain| - 1];
    assert chain == rest + [id];
    assert rest != [] ==> IsPath(c, rest);
  }

  lemma LeaveKeepsRequired(c: Catalog, roots: set<AppId>, color: map<AppId, Color>, required: seq<AppId>,
                           errors: seq<Error>, id: AppId)
    requires RequiredOk(c, roots, color, required, errors) && id in color && color[id].Gray? && id in c
    requires Reachable(c, roots, id) && DependenciesMet(c, color, required, errors, id)
    ensures RequiredOk(c, roots, color[id := Black], required + [id], errors)
  {
    AppendDistinct(required, id);
    if NoCycle(errors) {
      EmitTopological(Present(c), required, id);
    }
  }

  lemma LeaveKeepsErrors(c: Catalog, roots: set<AppId>, color: map<AppId, Color>, errors: seq<Error>, id: AppId)
    requires ErrorsOk(c, roots, color, errors) && id in c
    ensures ErrorsOk(c, roots, color[id := Black], errors)
  {
  }

  lemma EnterKeepsChain(c: Catalog, roots: set<AppId>, color: map<AppId, Color>, chain: seq<AppId>, id: AppId)
    requires ChainOk(c, roots, color, chain) && Due(c, roots, chain, id) && id !in color && id in c
    ensures ChainOk(c, roots, color[id := Gray], chain + [id])
  {
    AppendDistinct(chain, id);
    assert IsPath(c, chain + [id]);
  }

  lemma EnterKeepsRest(c: Catalog, roots: set<AppId>, color: map<AppId, Color>, required: seq<AppId>,
                       errors: seq<Error>, id: AppId)
    requires RequiredOk(c, roots, color, required, errors) && ErrorsOk(c, roots, color, errors) && id !in color
    ensures RequiredOk(c, roots, color[id := Gray], required, errors) && ErrorsOk(c, roots, color[id := Gray], errors)
  {
  }

  lemma MissingKeepsErrors(c: Catalog, roots: set<AppId>, color: map<AppId, Color>, errors: seq<Error>, id: AppId)
    requires ErrorsOk(c, roots, color, errors) && id !in color && id !in c && Reachable(c, roots, id)
    ensures ErrorsOk(c, roots, color[id := Black], errors + [Missing(id)])
  {
    assert Missing(id) !in errors;
    assert forall e :: e in errors + [Missing(id)] <==> e in errors || e == Missing(id);
  }

  lemma MissingKeepsRest(c: Catalog, roots: set<AppId>, color: map<AppId, Color>, chain: seq<AppId>,
                         required: seq<AppId>, errors: seq<Error>, id: AppId)
    requires ChainOk(c, roots, color, chain) && RequiredOk(c, roots, color, required, errors)
    requires id !in color && id !in c
    ensures ChainOk(c, roots, color[id := Black], chain)
    ensures RequiredOk(c, roots, color[id := Black], required, errors + [Missing(id)])
  {
    assert NoCycle(errors + [Missing(id)]) ==> NoCycle(errors);
  }

  lemma CycleKeeps(c: Catalog, roots: set<AppId>, color: map<AppId, Color>, required: seq<AppId>,
                   errors: seq<Error>, names: seq<string>)
    requires RequiredOk(c, roots, color, required, errors) && ErrorsOk(c, roots, color, errors)
    requires NamesCycle(c, roots, names)
    ensures RequiredOk(c, roots, color, required, errors + [Circular(names)])
    ensures ErrorsOk(c, roots, color, errors + [Circular(names)])
  {
    assert (errors + [Circular(names)])[|errors|].Circular?;
    assert forall e :: e in errors + [Circular(names)] <==> e in errors || e == Circular(names);
  }

  class Walk {
    const catalog: Catalog
    ghost const roots: set<AppId>
    var color: map<AppId, Color>
    var chain: seq<AppId>
    var required: seq<AppId>    // the keys of the dictionary, in insertion order
    var errors: seq<Error>

    constructor (catalog: Catalog, ghost roots: set<AppId>)
      ensures this.catalog == catalog && this.roots == roots
      ensures color == map[] && chain == [] && required == [] && errors == []
    {
      this.catalog, this.roots := catalog, roots;
      color, chain, required, errors := map[], [], [], [];
    }

    ghost predicate Valid()
      reads this
    {
      && ChainOk(catalog, roots, color, chain) && RequiredOk(catalog, roots, color, required, errors)
      && ErrorsOk(catalog, roots, color, errors)
    }

    /** What the search has found so far. */
    ghost function Seen(): Found
      reads this
    {
      Found((set x | x in color && color[x].Black?), required)
    }

    /** All dependencies of the chain's last element were visited: it turns black. */
    method Leave(id: AppId)
      requires Valid() && chain != [] && chain[|chain| - 1] == id && id in catalog
      requires DependenciesMet(catalog, color, required, errors, id)
      modifies this
      ensures Valid() && chain == old(chain)[..|old(chain)| - 1] && color == old(color)[id := Black]
      ensures required == old(required) + [id] && errors == old(errors)
      ensures Seen().black == old(Seen().black) + {id}
    {
      LeaveKeepsChain(catalog, roots, color, chain, id);
      LeaveKeepsRequired(catalog, roots, color, required, errors, id);
      LeaveKeepsErrors(catalog, roots, color, errors, id);
      chain := chain[..|chain| - 1];
      color := color[id := Black];
      required := required + [id];
    }

    /** A white application that exists turns gray and joins the chain. */
    method Enter(id: AppId)
      requires Valid() && Due(catalog, roots, chain, id) && id !in color && id in catalog
      modifies this
      ensures Valid() && chain == old(chain) + [id] && color == old(color)[id := Gray]
      ensures required == old(required) && errors == old(errors) && Seen() == old(Seen())
      ensures Elements(chain) == old(Elements(chain)) + {id}
    {
      EnterKeepsChain(catalog, roots, color, chain, id);
      EnterKeepsRest(catalog, roots, color, required, errors, id);
      color := color[id := Gray];
      chain := chain + [id];
    }

    method RecordMissing(id: AppId)
      requires Valid() && Due(catalog, roots, chain, id) && id !in color && id !in catalog
      modifies this
      ensures Valid() && chain == old(chain) && color == old(color)[id := Black]
      ensures required == old(required) && errors == old(errors) + [Missing(id)]
      ensures Seen().black == old(Seen().black) + {id}
    {
      DueIsReachable(catalog, roots, chain, id);
      MissingKeepsErrors(catalog, roots, color, errors, id);
      MissingKeepsRest(catalog, roots, color, chain, required, errors, id);
      errors := errors + [Missing(id)];
      color := color[id := Black];
    }

    /** Meeting a gray application: the error names the chain from it on. */
    method RecordCycle(id: AppId)
      requires Valid() && Due(catalog, roots, chain, id) && id in color && color[id].Gray?
      modifies this
      ensures Valid() && chain == old(chain) && color == old(color) && required == old(required)
      ensures |errors| == |old(errors)| + 1 && old(errors) <= errors && errors[|old(errors)|].Circular?
      ensures NamesCycle(catalog, roots, errors[|old(errors)|].names)
    {
      var cycleStart :| 0 <= cycleStart < |chain| && chain[cycleStart] == id;
      var loop := chain[cycleStart..];
      var names := seq(|loop|, i requires 0 <= i < |loop| && loop[i] in catalog => catalog[loop[i]].name);
      ChainNamesCycle(catalog, roots, chain, id, cycleStart, names);
      CycleKeeps(catalog, roots, color, required, errors, names);
      errors := errors + [Circular(names)];
    }

    method Visit(id: AppId)
      requires Valid() && Due(catalog, roots, chain, id)
      modifies this
      ensures Valid() && chain == old(chain) && old(color.Keys) <= color.Keys
      ensures old(required) <= required && old(errors) <= errors
      ensures Met(catalog, color.Keys, required, errors, [id])
      ensures Seen() == old(Visited(catalog, Elements(chain), id, Seen()))
      decreases catalog.Keys - color.Keys, 1
    {
      if id in color && color[id].Black? {
        return;
      }
      if id in color && color[id].Gray? {
        RecordCycle(id);
        return;
      }
      if id !in catalog {
        RecordMissing(id);
        return;
      }
      VisitWhite(id);
    }

    /** The visit of an application that exists and was not met before. */
    method VisitWhite(id: AppId)
      requires Valid() && Due(catalog, roots, chain, id) && id !in color && id in catalog
      modifies this
      ensures Valid() && chain == old(chain) && old(color.Keys) <= color.Keys
      ensures old(required) <= required && old(errors) <= errors
      ensures Met(catalog, color.Keys, required, errors, [id])
      ensures Seen() == old(Visited(catalog, Elements(chain), id, Seen()))
      decreases catalog.Keys - color.Keys, 0
    {
      ghost var gray, before := Elements(chain), Seen();
      Enter(id);
      var deps := SortedIds(catalog[id].deps);
      VisitDependencies(id, deps);
      VisitEnds(catalog, gray, id, before, Seen());
      Leave(id);
    }

    /** The loop over the dependencies of the application that was entered last. */
    method VisitDependencies(id: AppId, deps: seq<AppId>)
      requires Valid() && chain != [] && chain[|chain| - 1] == id && forall d :: d in deps ==> d in catalog[id].deps
      modifies this
      ensures Valid() && chain == old(chain) && old(color.Keys) <= color.Keys
      ensures old(required) <= required && old(errors) <= errors
      ensures Met(catalog, color.Keys, required, errors, deps)
      ensures Seen() == old(VisitedAll(catalog, Elements(chain), deps, Seen()))
      decreases catalog.Keys - color.Keys, 2
    {
      ghost var gray, before := Elements(chain), Seen();
      assert deps[0..] == deps;
      for i := 0 to |deps|
        invariant Valid() && chain == old(chain) && old(color.Keys) <= color.Keys
        invariant old(required) <= required && old(errors) <= errors
        invariant Met(catalog, color.Keys, required, errors, deps[..i])
        invariant VisitedAll(catalog, gray, deps[i..], Seen()) == VisitedAll(catalog, gray, deps, before)
      {
        assert deps[i] in deps;
        VisitNext(catalog, gray, deps, i, Seen());
        ghost var met, listed, found := color.Keys, required, errors;
        Visit(deps[i]);
        MetGrows(catalog, met, listed, found, color.Keys, required, errors, deps, i);
      }
      assert deps[..|deps|] == deps;
    }
  }

  // ---------------------------------------------------------------- Kahn's sort

  ghost predicate InCatalog(c: Catalog, s: seq<AppId>) { forall x :: x in s ==> x in c }

  ghost predicate SortedByName(c: Catalog, s: seq<AppId>)
    requires InCatalog(c, s)
  {
    forall i, j :: 0 <= i < j < |s| ==> Le(c[s[i]].name, c[s[j]].name)
  }

  /** Stable: behind every element whose name is not greater. */
  function InsertByName(c: Catalog, s: seq<AppId>, x: AppId): (r: seq<AppId>)
    requires InCatalog(c, s) && x in c
    ensures forall y :: y in r <==> y in s || y == x
    ensures Distinct(s) && x !in s ==> Distinct(r)
    ensures SortedByName(c, s) ==> SortedByName(c, r)
  {
    if s == [] then [x]
    else if Le(c[s[0]].name, c[x].name) then
      var r := InsertByName(c, s[1..], x);
      InsertAfter(c, s, x, r);
      [s[0]] + r
    else
      InsertBefore(c, s, x);
      [x] + s
  }

  lemma InsertAfter(c: Catalog, s: seq<AppId>, x: AppId, r: seq<AppId>)
    requires InCatalog(c, s) && x in c && s != [] && Le(c[s[0]].name, c[x].name)
    requires forall y :: y in r <==> y in s[1..] || y == x
    ensures forall y :: y in [s[0]] + r <==> y in s || y == x
    ensures SortedByName(c, s) && SortedByName(c, r) ==> SortedByName(c, [s[0]] + r)
    ensures Distinct(s) && Distinct(r) && x !in s ==> Distinct([s[0]] + r)
  {
    assert s == [s[0]] + s[1..];
    assert Distinct(s) ==> s[0] !in s[1..];
    forall y | y in r && SortedByName(c, s) ensures Le(c[s[0]].name, c[y].name) {
      if y != x {
        var i :| 0 <= i < |s[1..]| && s[1..][i] == y;
        assert s[i + 1] == y;
      }
    }
  }

  lemma InsertBefore(c: Catalog, s: seq<AppId>, x: AppId)
    requires InCatalog(c, s) && x in c && s != [] && !Le(c[s[0]].name, c[x].name)
    ensures SortedByName(c, s) ==> SortedByName(c, [x] + s)
  {
    LeTotal(c[s[0]].name, c[x].name);
    forall i | 0 < i < |s| && SortedByName(c, s) ensures Le(c[x].name, c[s[i]].name) {
      LeTransitive(c[x].name, c[s[0]].name, c[s[i]].name);
    }
  }

  /** `sort(key=name)`. */
  function SortByName(c: Catalog, s: seq<AppId>): (r: seq<AppId>)
    requires InCatalog(c, s)
    ensures forall y :: y in r <==> y in s
    ensures Distinct(s) ==> Distinct(r)
    ensures InCatalog(c, r) && SortedByName(c, r)
  {
    if s == [] then []
    else
      var n := |s| - 1;
      assert s == s[..n] + [s[n]];
      InsertByName(c, SortByName(c, s[..n]), s[n])
  }

  /** The inner loop of the graph construction, for one application. */
  method AddDependencies(c: Catalog, app: AppId, indegree0: map<AppId, nat>, edges0: map<AppId, seq<AppId>>)
    returns (indegree: map<AppId, nat>, edges: map<AppId, seq<AppId>>)
    requires app in c && app in indegree0 && indegree0[app] == 0
    requires edges0.Keys == indegree0.Keys && c[app].deps <= edges0.Keys
    ensures indegree.Keys == indegree0.Keys && edges.Keys == edges0.Keys
    ensures forall x :: x in indegree ==> indegree[x] == if x == app then |c[app].deps| else indegree0[x]
    ensures forall d :: d in edges ==> edges[d] == if d in c[app].deps then edges0[d] + [app] else edges0[d]
  {
    indegree, edges := indegree0, edges0;
    var deps := c[app].deps;
    var visited: set<AppId> := {};
    while deps - visited != {}
      invariant visited <= deps && indegree.Keys == indegree0.Keys && edges.Keys == edges0.Keys
      invariant indegree[app] == |visited|
      invariant forall x :: x in indegree && x != app ==> indegree[x] == indegree0[x]
      invariant forall d :: d in edges ==> edges[d] == if d in visited then edges0[d] + [app] else edges0[d]
      decreases deps - visited
    {
      var dep :| dep in deps - visited;
      if dep in indegree {
        edges := edges[dep := edges[dep] + [app]];
        indegree := indegree[app := indegree[app] + 1];
      }
      visited := visited + {dep};
    }
    assert visited == deps;
  }

  /** `edges[d]` lists, once each, the applications in `seen` that depend on d, and `indegree`
      counts their dependencies. */
  ghost predicate GraphOf(c: Catalog, all: set<AppId>, seen: set<AppId>, indegree: map<AppId, nat>,
                          edges: map<AppId, seq<AppId>>)
  {
    && seen <= all <= c.Keys && indegree.Keys == all && edges.Keys == all
    && (forall d :: d in edges ==> Distinct(edges[d]))
    && (forall d, x :: d in edges ==> (x in edges[d] <==> x in seen && d in c[x].deps))
    && (forall x :: x in indegree ==> indegree[x] == if x in seen then |c[x].deps| else 0)
  }

  lemma GraphGrows(c: Catalog, all: set<AppId>, seen: set<AppId>, app: AppId, indegree0: map<AppId, nat>,
                   edges0: map<AppId, seq<AppId>>, indegree: map<AppId, nat>, edges: map<AppId, seq<AppId>>)
    requires GraphOf(c, all, seen, indegree0, edges0) && app in all && app !in seen
    requires edges.Keys == edges0.Keys && indegree.Keys == indegree0.Keys
    requires forall x :: x in indegree ==> indegree[x] == if x == app then |c[app].deps| else indegree0[x]
    requires forall d :: d in edges ==> edges[d] == if d in c[app].deps then edges0[d] + [app] else edges0[d]
    ensures GraphOf(c, all, seen + {app}, indegree, edges)
  {
  }

  /** Earlier elements are listed first in `required`. */
  ghost predicate InOrder(required: seq<AppId>, s: seq<AppId>) {
    forall i, j :: 0 <= i < j < |s| ==> ListedFirst(required, s[i], s[j])
  }

  ghost predicate EdgesInOrder(required: seq<AppId>, edges: map<AppId, seq<AppId>>) {
    forall d :: d in edges ==> InOrder(required, edges[d])
  }

  lemma AppendInOrder(required: seq<AppId>, s: seq<AppId>, k: nat)
    requires Distinct(required) && k < |required| && InOrder(required, s) && Elements(s) <= Elements(required[..k])
    ensures InOrder(required, s + [required[k]])
  {
    forall i | 0 <= i < |s| ensures ListedFirst(required, s[i], required[k]) {
      assert s[i] in Elements(s);
      var j :| 0 <= j < k && required[..k][j] == s[i];
      AtDistinct(required, j, k);
    }
  }

  lemma SeenDependents(c: Catalog, all: set<AppId>, seen: set<AppId>, indegree: map<AppId, nat>,
                       edges: map<AppId, seq<AppId>>, d: AppId)
    requires GraphOf(c, all, seen, indegree, edges) && d in edges
    ensures Elements(edges[d]) <= seen
  {
  }

  lemma EdgesStayInOrder(c: Catalog, required: seq<AppId>, k: nat, indegree0: map<AppId, nat>,
                     edges0: map<AppId, seq<AppId>>, edges: map<AppId, seq<AppId>>)
    requires Distinct(required) && k < |required| && edges.Keys == edges0.Keys && required[k] in c
    requires GraphOf(c, Elements(required), Elements(required[..k]), indegree0, edges0)
    requires EdgesInOrder(required, edges0)
    requires forall d :: d in edges ==>
               edges[d] == if d in c[required[k]].deps then edges0[d] + [required[k]] else edges0[d]
    ensures EdgesInOrder(required, edges)
  {
    forall d | d in edges ensures InOrder(required, edges[d]) {
      if d in c[required[k]].deps {
        SeenDependents(c, Elements(required), Elements(required[..k]), indegree0, edges0, d);
        AppendInOrder(required, edges0[d], k);
      }
    }
  }

  /** The first `k` required applications have been entered into the graph. */
  ghost predicate Graphed(c: Catalog, required: seq<AppId>, k: nat, indegree: map<AppId, nat>,
                          edges: map<AppId, seq<AppId>>)
    requires k <= |required|
  {
    GraphOf(c, Elements(required), Elements(required[..k]), indegree, edges) && EdgesInOrder(required, edges)
  }

  lemma GraphedNext(c: Catalog, required: seq<AppId>, k: nat, indegree0: map<AppId, nat>,
                    edges0: map<AppId, seq<AppId>>, indegree: map<AppId, nat>, edges: map<AppId, seq<AppId>>)
    requires k < |required| && Distinct(required) && required[k] in c && Graphed(c, required, k, indegree0, edges0)
    requires edges.Keys == edges0.Keys && indegree.Keys == indegree0.Keys
    requires forall x :: x in indegree ==>
               indegree[x] == if x == required[k] then |c[required[k]].deps| else indegree0[x]
    requires forall d :: d in edges ==>
               edges[d] == if d in c[required[k]].deps then edges0[d] + [required[k]] else edges0[d]
    ensures Graphed(c, required, k + 1, indegree, edges)
  {
    NextElement(required, k);
    GraphGrows(c, Elements(required), Elements(required[..k]), required[k], indegree0, edges0, indegree, edges);
    EdgesStayInOrder(c, required, k, indegree0, edges0, edges);
  }

  method BuildGraph(c: Catalog, required: seq<AppId>) returns (indegree: map<AppId, nat>, edges: map<AppId, seq<AppId>>)
    requires Distinct(required) && ClosedIn(c, Elements(required))
    ensures GraphOf(c, Elements(required), Elements(required), indegree, edges)
    ensures EdgesInOrder(required, edges)
  {
    indegree := map x | x in required :: 0;
    edges := map x | x in required :: [];
    for i := 0 to |required|
      invariant Graphed(c, required, i, indegree, edges)
    {
      NextElement(required, i);
      ghost var indegree0, edges0 := indegree, edges;
      indegree, edges := AddDependencies(c, required[i], indegree, edges);
      GraphedNext(c, required, i, indegree0, edges0, indegree, edges);
    }
    WholeSequence(required);
  }

  /** How many dependencies of x are still to come. */
  ghost predicate Counts(c: Catalog, all: set<AppId>, emitted: set<AppId>, indegree: map<AppId, nat>) {
    ClosedIn(c, all) && indegree.Keys == all && forall x :: x in all ==> indegree[x] == |c[x].deps - emitted|
  }

  lemma OneFewer(deps: set<AppId>, emitted: set<AppId>, x: AppId)
    requires x !in emitted
    ensures |deps - (emitted + {x})| == |deps - emitted| - if x in deps then 1 else 0
    ensures |deps - emitted| == 0 <==> deps <= emitted
    ensures |deps - (emitted + {x})| == 0 <==> deps <= emitted + {x}
  {
    assert deps - (emitted + {x}) == (deps - emitted) - {x};
    assert |deps - emitted| == 0 <==> deps - emitted == {};
    assert |deps - (emitted + {x})| == 0 <==> deps - (emitted + {x}) == {};
  }

  lemma AppendDistinct(s: seq<AppId>, x: AppId)
    requires Distinct(s) && x !in s
    ensures Distinct(s + [x]) && forall y :: y in s + [x] <==> y in s || y == x
  {
  }

  /** The dependents in `visited` have been told that `current` is emitted. */
  ghost predicate PartlyRelaxed(c: Catalog, all: set<AppId>, emitted: set<AppId>, current: AppId, visited: set<AppId>,
                                indegree: map<AppId, nat>) {
    && all <= c.Keys && indegree.Keys == all && visited <= all
    && (forall x :: x in all && x in visited ==> indegree[x] == |c[x].deps - (emitted + {current})|)
    && (forall x :: x in all && x !in visited ==> indegree[x] == |c[x].deps - emitted|)
  }

  lemma RelaxOne(c: Catalog, all: set<AppId>, emitted: set<AppId>, current: AppId, visited: set<AppId>,
                 dependent: AppId, indegree: map<AppId, nat>)
    requires PartlyRelaxed(c, all, emitted, current, visited, indegree) && current !in emitted
    requires dependent in all && dependent !in visited && current in c[dependent].deps
    ensures indegree[dependent] > 0
    ensures PartlyRelaxed(c, all, emitted, current, visited + {dependent},
                          indegree[dependent := indegree[dependent] - 1])
    ensures indegree[dependent] - 1 == 0 <==> c[dependent].deps <= emitted + {current}
  {
    OneFewer(c[dependent].deps, emitted, current);
  }

  lemma AllRelaxed(c: Catalog, all: set<AppId>, emitted: set<AppId>, current: AppId, visited: set<AppId>,
                   indegree: map<AppId, nat>)
    requires PartlyRelaxed(c, all, emitted, current, visited, indegree) && current !in emitted && ClosedIn(c, all)
    requires forall x :: x in all ==> (x in visited <==> current in c[x].deps)
    ensures Counts(c, all, emitted + {current}, indegree)
  {
    forall x | x in all ensures indegree[x] == |c[x].deps - (emitted + {current})| {
      OneFewer(c[x].deps, emitted, current);
    }
  }

  /** The applications of `visited` whose last missing dependency was `current`. */
  ghost predicate Freed(c: Catalog, all: set<AppId>, emitted: set<AppId>, visited: set<AppId>, freed: seq<AppId>) {
    Distinct(freed) && visited <= all <= c.Keys && forall x :: x in freed <==> x in visited && c[x].deps <= emitted
  }

  lemma FreedGrows(c: Catalog, all: set<AppId>, emitted: set<AppId>, visited: set<AppId>, freed: seq<AppId>, x: AppId)
    requires Freed(c, all, emitted, visited, freed) && x in all && x !in visited
    ensures Freed(c, all, emitted, visited + {x}, if c[x].deps <= emitted then freed + [x] else freed)
  {
    if c[x].deps <= emitted {
      AppendDistinct(freed, x);
    }
  }

  lemma LaterInOrder(required: seq<AppId>, s: seq<AppId>, k: nat, part: seq<AppId>)
    requires InOrder(required, s) && InOrder(required, part) && k < |s| && Elements(part) <= Elements(s[..k])
    ensures InOrder(required, part + [s[k]])
  {
    forall i | 0 <= i < |part| ensures ListedFirst(required, part[i], s[k]) {
      assert part[i] in Elements(part);
      var j :| 0 <= j < k && s[..k][j] == part[i];
    }
  }

  /** The loop over the dependents; `freed` is what it appends to `ready`. */
  method Relax(c: Catalog, ghost all: set<AppId>, ghost emitted: set<AppId>, ghost current: AppId,
               dependents: seq<AppId>, indegree0: map<AppId, nat>, ghost required: seq<AppId>)
    returns (indegree: map<AppId, nat>, freed: seq<AppId>)
    requires Counts(c, all, emitted, indegree0) && current !in emitted && Distinct(dependents)
    requires (forall x :: x in dependents <==> x in all && current in c[x].deps) && InOrder(required, dependents)
    ensures Counts(c, all, emitted + {current}, indegree)
    ensures Freed(c, all, emitted + {current}, Elements(dependents), freed) && InOrder(required, freed)
  {
    indegree, freed := indegree0, [];
    ghost var visited: set<AppId> := {};
    for i := 0 to |dependents|
      invariant visited == Elements(dependents[..i])
      invariant PartlyRelaxed(c, all, emitted, current, visited, indegree)
      invariant Freed(c, all, emitted + {current}, visited, freed) && InOrder(required, freed)
    {
      NextElement(dependents, i);
      var dependent := dependents[i];
      assert dependent in dependents;
      RelaxOne(c, all, emitted, current, visited, dependent, indegree);
      FreedGrows(c, all, emitted + {current}, visited, freed, dependent);
      indegree := indegree[dependent := indegree[dependent] - 1];
      if indegree[dependent] == 0 {
        LaterInOrder(required, dependents, i, freed);
        freed := freed + [dependent];
      }
      visited := visited + {dependent};
    }
    WholeSequence(dependents);
    AllRelaxed(c, all, emitted, current, visited, indegree);
  }

  // ---------------------------------------------------------------- the main loop

  ghost predicate KahnState(c: Catalog, all: set<AppId>, ordered: seq<AppId>, ready: seq<AppId>,
                            indegree: map<AppId, nat>)
  {
    && Counts(c, all, Elements(ordered), indegree) && Elements(ordered) <= all
    && Distinct(ordered) && Topological(c, ordered) && GreedyIn(c, all, ordered)
    && Distinct(ready) && InCatalog(c, ready) && SortedByName(c, ready)
    && (forall x :: x in ready <==> Available(c, all, Elements(ordered), x))
  }

  /** Available applications of one name stand in the order in which they became available. */
  ghost predicate TiesInOrder(c: Catalog, required: seq<AppId>, ordered: seq<AppId>, s: seq<AppId>) {
    InCatalog(c, s) && forall i, j :: 0 <= i < j < |s| && c[s[i]].name == c[s[j]].name ==>
      Sooner(c, required, ordered, s[i], s[j])
  }

  lemma {:induction false} InsertKeepsTies(c: Catalog, required: seq<AppId>, ordered: seq<AppId>, s: seq<AppId>,
                                           x: AppId)
    requires TiesInOrder(c, required, ordered, s) && SortedByName(c, s) && x in c
    requires forall y :: y in s && c[y].name == c[x].name ==> Sooner(c, required, ordered, y, x)
    ensures TiesInOrder(c, required, ordered, InsertByName(c, s, x))
  {
    if s != [] && Le(c[s[0]].name, c[x].name) {
      var r := InsertByName(c, s[1..], x);
      assert s == [s[0]] + s[1..];
      InsertKeepsTies(c, required, ordered, s[1..], x);
      forall y | y in r && c[s[0]].name == c[y].name ensures Sooner(c, required, ordered, s[0], y) {
        if y != x {
          var i :| 0 <= i < |s[1..]| && s[1..][i] == y;
          assert s[i + 1] == y;
        }
      }
      PrependKeepsTies(c, required, ordered, s[0], r);
    } else if s != [] {
      forall y | y in s ensures c[y].name != c[x].name {
        LeTotal(c[y].name, c[y].name);
        var i :| 0 <= i < |s| && s[i] == y;
      }
      PrependKeepsTies(c, required, ordered, x, s);
    }
  }

  /** The sort is stable. */
  lemma {:induction false} SortKeepsTies(c: Catalog, required: seq<AppId>, ordered: seq<AppId>, s: seq<AppId>)
    requires TiesInOrder(c, required, ordered, s)
    ensures TiesInOrder(c, required, ordered, SortByName(c, s))
  {
    if s != [] {
      var n := |s| - 1;
      SortKeepsTies(c, required, ordered, s[..n]);
      forall y | y in s[..n] && c[y].name == c[s[n]].name ensures Sooner(c, required, ordered, y, s[n]) {
        var i :| 0 <= i < n && s[i] == y;
      }
      InsertKeepsTies(c, required, ordered, SortByName(c, s[..n]), s[n]);
    }
  }

  /** The applications without dependencies were available from the start. */
  lemma FirstTies(c: Catalog, required: seq<AppId>, s: seq<AppId>)
    requires InOrder(required, s) && InCatalog(c, s)
    ensures TiesInOrder(c, required, [], s)
  {
  }

  lemma SinceFreed(c: Catalog, ordered: seq<AppId>, current: AppId, x: AppId)
    requires x in c
    ensures c[x].deps <= Elements(ordered) ==> Since(c, ordered + [current], x) == Since(c, ordered, x)
    ensures !(c[x].deps <= Elements(ordered)) ==> Since(c, ordered + [current], x) == |ordered| + 1
  {
    assert (ordered + [current])[..|ordered|] == ordered;
  }

  /** What `current` freed became available after everything in `ready`. */
  lemma NextTies(c: Catalog, required: seq<AppId>, ordered: seq<AppId>, ready: seq<AppId>, freed: seq<AppId>)
    requires ready != [] && TiesInOrder(c, required, ordered, ready) && InOrder(required, freed) && InCatalog(c, freed)
    requires forall x :: x in ready ==> x in c && c[x].deps <= Elements(ordered)
    requires forall x :: x in freed ==> !(c[x].deps <= Elements(ordered))
    ensures TiesInOrder(c, required, ordered + [ready[0]], ready[1..] + freed)
  {
    var s, next := ready[1..] + freed, ordered + [ready[0]];
    forall i, j | 0 <= i < j < |s| && c[s[i]].name == c[s[j]].name ensures Sooner(c, required, next, s[i], s[j]) {
      SinceFreed(c, ordered, ready[0], s[i]);
      SinceFreed(c, ordered, ready[0], s[j]);
      assert i < |ready| - 1 ==> s[i] == ready[i + 1];
      assert j < |ready| - 1 ==> s[j] == ready[j + 1];
      assert i >= |ready| - 1 ==> s[i] == freed[i - (|ready| - 1)];
      assert j >= |ready| - 1 ==> s[j] == freed[j - (|ready| - 1)];
    }
  }

  /** One turn of the main loop, with `all` the required applications. */
  lemma TurnKeepsTies(c: Catalog, required: seq<AppId>, ordered: seq<AppId>, ready: seq<AppId>,
                      indegree: map<AppId, nat>, dependents: set<AppId>, freed: seq<AppId>)
    requires KahnState(c, Elements(required), ordered, ready, indegree) && ready != []
    requires TiesKept(c, required, ordered) && TiesInOrder(c, required, ordered, ready)
    requires Freed(c, Elements(required), Elements(ordered) + {ready[0]}, dependents, freed)
    requires InOrder(required, freed) && forall x :: x in dependents ==> x in c && ready[0] in c[x].deps
    ensures TiesKept(c, required, ordered + [ready[0]])
    ensures InCatalog(c, ready[1..] + freed)
    ensures TiesInOrder(c, required, ordered + [ready[0]], SortByName(c, ready[1..] + freed))
  {
    assert ready[0] in ready;
    EmitTies(c, required, ordered, ready);
    NextTies(c, required, ordered, ready, freed);
    SortKeepsTies(c, required, ordered + [ready[0]], ready[1..] + freed);
  }

  lemma EmitTies(c: Catalog, required: seq<AppId>, ordered: seq<AppId>, ready: seq<AppId>)
    requires TiesKept(c, required, ordered) && TiesInOrder(c, required, ordered, ready)
    requires ready != [] && SortedByName(c, ready)
    requires forall x :: x in ready <==> Available(c, Elements(required), Elements(ordered), x)
    ensures TiesKept(c, required, ordered + [ready[0]])
  {
    forall y | Available(c, Elements(required), Elements(ordered), y)
      ensures y in c && Precedes(c, required, ordered, ready[0], y)
    {
      var i :| 0 <= i < |ready| && ready[i] == y;
      PrecedesEither(c, required, ordered, y, y);
    }
    AppendTiesKept(c, required, ordered, ready[0]);
  }

  lemma PrependKeepsTies(c: Catalog, required: seq<AppId>, ordered: seq<AppId>, x: AppId, r: seq<AppId>)
    requires TiesInOrder(c, required, ordered, r) && x in c
    requires forall y :: y in r && c[x].name == c[y].name ==> Sooner(c, required, ordered, x, y)
    ensures TiesInOrder(c, required, ordered, [x] + r)
  {
  }

  lemma EmitGreedy(c: Catalog, all: set<AppId>, ordered: seq<AppId>, ready: seq<AppId>)
    requires GreedyIn(c, all, ordered) && ready != [] && InCatalog(c, ready) && SortedByName(c, ready)
    requires forall x :: x in ready <==> Available(c, all, Elements(ordered), x)
    ensures GreedyIn(c, all, ordered + [ready[0]])
  {
    var next := ordered + [ready[0]];
    forall n, x | 0 <= n < |next| && next[n] in c && Available(c, all, Elements(next[..n]), x)
      ensures Le(c[next[n]].name, c[x].name)
    {
      if n < |ordered| {
        assert next[..n] == ordered[..n];
      } else {
        assert next[..n] == ordered;
        LeTotal(c[ready[0]].name, c[ready[0]].name);
      }
    }
  }

  lemma ConcatDistinct(s: seq<AppId>, t: seq<AppId>)
    requires Distinct(s) && Distinct(t) && forall x :: x in s ==> x !in t
    ensures Distinct(s + t)
  {
    var r := s + t;
    forall i, j | 0 <= i < j < |r| ensures r[i] != r[j] {
      if i < |s| <= j {
        assert r[i] in s && r[j] in t;
      }
    }
  }

  /** What is available after `current`: the rest of `ready` and what `current` freed. */
  lemma NewlyAvailable(c: Catalog, all: set<AppId>, emitted: set<AppId>, ready: seq<AppId>,
                       dependents: set<AppId>, freed: seq<AppId>)
    requires ready != [] && Distinct(ready) && forall x :: x in ready <==> Available(c, all, emitted, x)
    requires ClosedIn(c, all) && (forall x :: x in dependents <==> x in all && ready[0] in c[x].deps)
    requires Freed(c, all, emitted + {ready[0]}, dependents, freed)
    requires forall x :: x in emitted ==> x in c && c[x].deps <= emitted
    ensures Distinct(ready[1..] + freed)
    ensures forall x :: x in ready[1..] + freed <==> Available(c, all, emitted + {ready[0]}, x)
  {
    var current := ready[0];
    assert ready == [current] + ready[1..];
    assert current in ready && current !in ready[1..];
    forall x | x in ready[1..] ensures x !in freed {
      assert x in ready && Available(c, all, emitted, x);
    }
    ConcatDistinct(ready[1..], freed);
    forall x ensures x in ready[1..] || x in freed <==> Available(c, all, emitted + {current}, x) {
      assert x in ready <==> x == current || x in ready[1..];
    }
  }

  lemma EmittedIsClosed(c: Catalog, ordered: seq<AppId>)
    requires Topological(c, ordered)
    ensures forall x :: x in Elements(ordered) ==> x in c && c[x].deps <= Elements(ordered)
  {
    TopologicalIsClosed(c, ordered);
  }

  /** The applications without dependencies, by name. */
  method InitiallyReady(c: Catalog, required: seq<AppId>, indegree: map<AppId, nat>) returns (ready: seq<AppId>)
    requires Distinct(required) && Counts(c, Elements(required), {}, indegree)
    ensures Distinct(ready) && InCatalog(c, ready) && SortedByName(c, ready)
    ensures forall x :: x in ready <==> Available(c, Elements(required), {}, x)
    ensures TiesInOrder(c, required, [], ready)
  {
    ready := [];
    ghost var seen: set<AppId> := {};
    for i := 0 to |required|
      invariant seen == Elements(required[..i]) && seen <= Elements(required) && Distinct(ready)
      invariant forall x :: x in ready <==> x in seen && x in c && c[x].deps <= {}
      invariant InOrder(required, ready)
    {
      NextElement(required, i);
      OneFewer(c[required[i]].deps, {}, required[i]);
      if indegree[required[i]] == 0 {
        AppendDistinct(ready, required[i]);
        AppendInOrder(required, ready, i);
        ready := ready + [required[i]];
      }
      seen := seen + {required[i]};
    }
    WholeSequence(required);
    FirstTies(c, required, ready);
    SortKeepsTies(c, required, [], ready);
    ready := SortByName(c, ready);
  }

  method KahnSort(c: Catalog, required: seq<AppId>) returns (ordered: seq<AppId>)
    requires Distinct(required) && Topological(c, required)
    ensures IsResult(c, required, ordered)
  {
    TopologicalIsClosed(c, required);
    ghost var all := Elements(required);
    var indegree, edges := BuildGraph(c, required);
    ghost var degrees := indegree;
    NothingEmitted(c, all, indegree, edges);
    var ready := InitiallyReady(c, required, indegree);
    ordered := [];
    InitialState(c, all, ready, indegree);
    while ready != []
      invariant KahnState(c, all, ordered, ready, indegree)
      invariant TiesKept(c, required, ordered) && TiesInOrder(c, required, ordered, ready)
      decreases all - Elements(ordered)
    {
      var current := ready[0];
      ghost var emitted := Elements(ordered);
      DependentsOf(c, all, degrees, edges, ordered, ready, indegree);
      ghost var degreesBefore := indegree;
      var freed: seq<AppId>;
      indegree, freed := Relax(c, all, emitted, current, edges[current], indegree, required);
      NewlyAvailable(c, all, emitted, ready, Elements(edges[current]), freed);
      EmitGreedy(c, all, ordered, ready);
      TurnKeepsTies(c, required, ordered, ready, degreesBefore, Elements(edges[current]), freed);
      EmitTopological(c, ordered, current);
      ordered := ordered + [current];
      ready := SortByName(c, ready[1..] + freed);
    }
    assert forall x :: !Available(c, all, Elements(ordered), x);
    NothingLeft(c, required, ordered);
  }

  lemma InitialState(c: Catalog, all: set<AppId>, ready: seq<AppId>, indegree: map<AppId, nat>)
    requires Counts(c, all, {}, indegree) && Distinct(ready) && InCatalog(c, ready) && SortedByName(c, ready)
    requires forall x :: x in ready <==> Available(c, all, {}, x)
    ensures KahnState(c, all, [], ready, indegree)
  {
    assert Elements<AppId>([]) == {};
  }

  lemma DependentsOf(c: Catalog, all: set<AppId>, degrees: map<AppId, nat>, edges: map<AppId, seq<AppId>>,
                     ordered: seq<AppId>, ready: seq<AppId>, indegree: map<AppId, nat>)
    requires GraphOf(c, all, all, degrees, edges) && KahnState(c, all, ordered, ready, indegree) && ready != []
    ensures var current := ready[0];
            current in all && current in c && current !in Elements(ordered) && c[current].deps <= Elements(ordered)
            && current in edges && Distinct(edges[current])
            && forall x :: x in edges[current] <==> x in all && current in c[x].deps
    ensures forall x :: x in Elements(ordered) ==> x in c && c[x].deps <= Elements(ordered)
  {
    assert ready[0] in ready;
    EmittedIsClosed(c, ordered);
  }

  lemma NothingLeft(c: Catalog, required: seq<AppId>, ordered: seq<AppId>)
    requires Distinct(required) && Topological(c, required) && Distinct(ordered)
             && Elements(ordered) <= Elements(required)
    requires forall x :: !Available(c, Elements(required), Elements(ordered), x)
    ensures Elements(ordered) == Elements(required) && |ordered| == |required|
  {
    AllEmitted(c, required, Elements(ordered), |required|);
    WholeSequence(required);
    DistinctCount(ordered);
    DistinctCount(required);
  }

  lemma NothingEmitted(c: Catalog, all: set<AppId>, indegree: map<AppId, nat>, edges: map<AppId, seq<AppId>>)
    requires ClosedIn(c, all) && GraphOf(c, all, all, indegree, edges)
    ensures Counts(c, all, {}, indegree)
  {
    forall x | x in all ensures indegree[x] == |c[x].deps - {}| {
      assert c[x].deps - {} == c[x].deps;
    }
  }

  // ---------------------------------------------------------------- the whole resolution

  /** What the errors of the search tell of the catalog. */
  ghost predicate Reports(c: Catalog, roots: set<AppId>, errors: seq<Error>) {
    && (forall x :: Missing(x) in errors <==> Reachable(c, roots, x) && x !in c)
    && (NoCycle(errors) <==> Acyclic(c, roots))
    && (forall e :: e in errors && e.Circular? ==> NamesCycle(c, roots, e.names))
    && (forall e :: e in errors ==> !e.Disabled?)
    && (forall i, j :: 0 <= i < j < |errors| && errors[i].Missing? ==> errors[i] != errors[j])
  }

  /** Everything reachable has been met when all selected applications and all dependencies of the listed
      ones have been. */
  lemma AllMet(c: Catalog, roots: set<AppId>, met: set<AppId>, required: seq<AppId>)
    requires roots <= met && forall x :: x in required <==> x in met && x in c
    requires forall x, d :: x in required && d in c[x].deps ==> d in met
    ensures forall x :: Reachable(c, roots, x) ==> x in met
  {
    forall x | Reachable(c, roots, x) ensures x in met {
      var p :| PathTo(c, roots, p, x);
      ReachableInClosed(c, roots, met, p, |p| - 1);
    }
  }

  lemma CyclesReported(c: Catalog, roots: set<AppId>, required: seq<AppId>, errors: seq<Error>)
    requires Distinct(required) && forall x :: x in required <==> x in c && Reachable(c, roots, x)
    requires NoCycle(errors) ==> Topological(Present(c), required)
    requires forall e :: e in errors && e.Circular? ==> NamesCycle(c, roots, e.names)
    ensures NoCycle(errors) <==> Acyclic(c, roots)
  {
    if NoCycle(errors) {
      ListedIsAcyclic(c, roots, required);
    } else {
      var e :| e in errors && e.Circular?;
      var p :| IsCycle(c, p) && Reachable(c, roots, p[0]) && NamesAlong(c, p, e.names);
    }
  }

  /** Without an error the selection is sound and listed in topological order. */
  lemma NothingReported(c: Catalog, roots: set<AppId>, required: seq<AppId>, errors: seq<Error>)
    requires Reports(c, roots, errors) && forall x :: x in required <==> x in c && Reachable(c, roots, x)
    requires NoCycle(errors) ==> Topological(Present(c), required)
    ensures errors == [] <==> WellFounded(c, roots)
    ensures errors == [] ==> Topological(c, required)
  {
    if errors == [] {
      forall x, d | x in required && x in c && d in c[x].deps ensures d in c {
        EdgeReachable(c, roots, x, d);
      }
      PresentIsTopological(c, required);
    } else {
      assert errors[0] in errors;
      match errors[0]
      case Missing(x) => assert Missing(x) in errors;
      case Circular(_) =>
      case Disabled(_) =>
    }
  }

  method FindRequired(selected: seq<AppId>, catalog: Catalog) returns (required: seq<AppId>, errors: seq<Error>)
    ensures required == Search(catalog, selected) && Distinct(required)
    ensures forall x :: x in required <==> x in catalog && Reachable(catalog, Elements(selected), x)
    ensures Reports(catalog, Elements(selected), errors)
    ensures errors == [] <==> WellFounded(catalog, Elements(selected))
    ensures errors == [] ==> Topological(catalog, required)
  {
    ghost var roots := Elements(selected);
    var walk := new Walk(catalog, roots);
    assert walk.Seen() == NOTHING && selected[0..] == selected;
    for i := 0 to |selected|
      invariant walk.Valid() && walk.chain == [] && walk.catalog == catalog && walk.roots == roots
      invariant Met(catalog, walk.color.Keys, walk.required, walk.errors, selected[..i])
      invariant VisitedAll(catalog, {}, selected[i..], walk.Seen()) == VisitedAll(catalog, {}, selected, NOTHING)
    {
      assert Elements(walk.chain) == {};
      VisitNext(catalog, {}, selected, i, walk.Seen());
      ghost var met, listed, found := walk.color.Keys, walk.required, walk.errors;
      walk.Visit(selected[i]);
      MetGrows(catalog, met, listed, found, walk.color.Keys, walk.required, walk.errors, selected, i);
    }
    required, errors := walk.required, walk.errors;
    assert selected[..|selected|] == selected;
    WalkEnded(walk, required, errors, selected);
  }

  /** The search is over: no application is gray any more. */
  lemma WalkEnded(walk: Walk, required: seq<AppId>, errors: seq<Error>, selected: seq<AppId>)
    requires walk.Valid() && walk.chain == [] && required == walk.required && errors == walk.errors
    requires walk.roots == Elements(selected) && Met(walk.catalog, walk.color.Keys, required, errors, selected)
    ensures forall x :: x in required <==> x in walk.catalog && Reachable(walk.catalog, walk.roots, x)
    ensures Reports(walk.catalog, walk.roots, errors)
    ensures errors == [] <==> WellFounded(walk.catalog, walk.roots)
    ensures errors == [] ==> Topological(walk.catalog, required)
  {
    assert forall x :: x in walk.color ==> walk.color[x].Black? by {
      assert forall x :: x in walk.color && walk.color[x].Gray? ==> x in walk.chain;
    }
    AllMet(walk.catalog, walk.roots, walk.color.Keys, required);
    CyclesReported(walk.catalog, walk.roots, required, errors);
    NothingReported(walk.catalog, walk.roots, required, errors);
  }

  /** One error for each disabled application of the list, in the order of the list; `at` are their
      positions. */
  ghost predicate DisabledInTurn(c: Catalog, listed: seq<AppId>, reported: seq<Error>, at: seq<nat>) {
    && |at| == |reported| && (forall k, l :: 0 <= k < l < |at| ==> at[k] < at[l])
    && (forall j: nat :: j in at <==> j < |listed| && listed[j] in c && !c[listed[j]].enabled)
    && forall k :: 0 <= k < |at| ==>
         at[k] < |listed| && listed[at[k]] in c && reported[k] == Disabled(c[listed[at[k]]].name)
  }

  lemma ReportNext(c: Catalog, required: seq<AppId>, n: nat, reported: seq<Error>, at: seq<nat>)
    requires n < |required| && required[n] in c && DisabledInTurn(c, required[..n], reported, at)
    ensures c[required[n]].enabled ==> DisabledInTurn(c, required[..n + 1], reported, at)
    ensures !c[required[n]].enabled ==>
              DisabledInTurn(c, required[..n + 1], reported + [Disabled(c[required[n]].name)], at + [n])
  {
    var x, front, longer := required[n], required[..n], required[..n + 1];
    assert longer == front + [x];
    assert forall k :: 0 <= k < |at| ==> at[k] in at && at[k] < n;
    if !c[x].enabled {
      var next := at + [n];
      forall j: nat ensures j in next <==> j < |longer| && longer[j] in c && !c[longer[j]].enabled {
        assert j in next <==> j in at || j == n;
      }
    }
  }

  lemma DisabledMeans(c: Catalog, roots: set<AppId>, required: seq<AppId>, reported: seq<Error>, at: seq<nat>)
    requires DisabledInTurn(c, required, reported, at)
    requires forall x :: x in required <==> x in c && Reachable(c, roots, x)
    ensures forall e :: e in reported ==> e.Disabled?
    ensures forall name :: Disabled(name) in reported <==>
              exists x :: Reachable(c, roots, x) && x in c && !c[x].enabled && c[x].name == name
    ensures reported == [] <==> AllEnabled(c, roots)
  {
    forall x | Reachable(c, roots, x) && x in c && !c[x].enabled ensures Disabled(c[x].name) in reported {
      assert x in required;
      var j :| 0 <= j < |required| && required[j] == x;
      assert j in at;
      var k :| 0 <= k < |at| && at[k] == j;
      assert reported[k] == Disabled(c[x].name);
    }
    forall k | 0 <= k < |reported|
      ensures exists x :: Reachable(c, roots, x) && x in c && !c[x].enabled && reported[k] == Disabled(c[x].name)
    {
      assert at[k] in at && required[at[k]] in required;
    }
    if reported != [] {
      assert reported[0] in reported;
    }
  }

  /** The errors of the search and those of disabled applications. */
  lemma AllReported(c: Catalog, roots: set<AppId>, found: seq<Error>, reported: seq<Error>)
    requires Reports(c, roots, found) && forall e :: e in reported ==> e.Disabled?
    ensures forall name :: Disabled(name) in found + reported <==> Disabled(name) in reported
    ensures forall x :: Missing(x) in found + reported <==> Reachable(c, roots, x) && x !in c
    ensures NoCycle(found + reported) <==> Acyclic(c, roots)
    ensures forall e :: e in found + reported && e.Circular? ==> NamesCycle(c, roots, e.names)
  {
    assert forall e :: e in found + reported <==> e in found || e in reported;
  }

  /** Each application once, all of them in the catalog, and each after all its dependencies. */
  ghost predicate DependenciesFirst(c: Catalog, s: seq<AppId>) {
    && (forall i, j :: 0 <= i < j < |s| ==> s[i] != s[j])
    && forall i :: 0 <= i < |s| ==> s[i] in c && forall d :: d in c[s[i]].deps ==> d in s[..i]
  }

  /** Whatever is installed was selected, or something installed later depends on it. */
  ghost predicate NothingSuperfluous(c: Catalog, selected: seq<AppId>, s: seq<AppId>)
    requires DependenciesFirst(c, s)
  {
    forall i :: 0 <= i < |s| ==> s[i] in selected || exists j :: i < j < |s| && s[i] in c[s[j]].deps
  }

  /** Of two applications that could both be installed at a position the one first in the dictionary is. */
  ghost predicate Alphabetical(c: Catalog, s: seq<AppId>)
    requires DependenciesFirst(c, s)
  {
    forall n, m :: 0 <= n < m < |s| && (forall d :: d in c[s[m]].deps ==> d in s[..n]) ==>
      var a, b := c[s[n]].name, c[s[m]].name;
      a <= b || exists k: nat :: k < |a| && k < |b| && a[..k] == b[..k] && a[k] < b[k]
  }

  /** And of two such applications of one name see `TieSettled`. */
  ghost predicate TiesByMoment(c: Catalog, listed: seq<AppId>, s: seq<AppId>)
    requires DependenciesFirst(c, s)
  {
    forall n, m :: 0 <= n < m < |s| && c[s[n]].name == c[s[m]].name
                   && (forall d :: d in c[s[m]].deps ==> d in s[..n]) ==>
      TieSettled(c, listed, s, s[n], s[m], n)
  }

  lemma SelectedOrNeeded(c: Catalog, selected: seq<AppId>, ordered: seq<AppId>, i: nat)
    requires IsInstallOrder(c, Elements(selected), ordered) && i < |ordered|
    ensures ordered[i] in selected || exists j :: i < j < |ordered| && ordered[i] in c[ordered[j]].deps
  {
    assert ordered[i] in ordered;
    var p :| PathTo(c, Elements(selected), p, ordered[i]);
    if |p| > 1 {
      var y := p[|p| - 2];
      assert Edge(c, y, ordered[i]);
      assert PathTo(c, Elements(selected), p[..|p| - 1], y);
      assert y in ordered;
      var j :| 0 <= j < |ordered| && ordered[j] == y;
      assert ordered[i] in ordered[..j];
    }
  }

  /** The installation order of a sound selection, in the terms of the catalog. */
  lemma OrderMeans(c: Catalog, selected: seq<AppId>, s: seq<AppId>)
    requires WellFounded(c, Elements(selected)) && s == InstallOrder(c, selected)
    ensures DependenciesFirst(c, s) && NothingSuperfluous(c, selected, s)
    ensures forall x :: x in selected ==> x in s
    ensures Alphabetical(c, s) && TiesByMoment(c, Search(c, selected), s)
  {
    ResultIsInstallOrder(c, selected);
    SelectedInOrder(c, selected, s);
    AllNeeded(c, selected, s);
    SearchIsTopological(c, selected);
    NamesMean(c, Search(c, selected), s);
    TiesMean(c, Search(c, selected), s);
  }

  lemma SelectedInOrder(c: Catalog, selected: seq<AppId>, s: seq<AppId>)
    requires IsInstallOrder(c, Elements(selected), s)
    ensures DependenciesFirst(c, s) && forall x :: x in selected ==> x in s
  {
    forall x | x in selected ensures x in s {
      assert x in Elements(selected);
      RootReachable(c, Elements(selected), x);
    }
  }

  lemma AllNeeded(c: Catalog, selected: seq<AppId>, s: seq<AppId>)
    requires IsInstallOrder(c, Elements(selected), s) && DependenciesFirst(c, s)
    ensures NothingSuperfluous(c, selected, s)
  {
    forall i | 0 <= i < |s| ensures s[i] in selected || exists j :: i < j < |s| && s[i] in c[s[j]].deps {
      SelectedOrNeeded(c, selected, s, i);
    }
  }

  lemma NamesMean(c: Catalog, required: seq<AppId>, s: seq<AppId>)
    requires IsResult(c, required, s) && DependenciesFirst(c, s)
    ensures Alphabetical(c, s)
  {
    forall n, m | 0 <= n < m < |s| && forall d :: d in c[s[m]].deps ==> d in s[..n]
      ensures var a, b := c[s[n]].name, c[s[m]].name;
              a <= b || exists k: nat :: k < |a| && k < |b| && a[..k] == b[..k] && a[k] < b[k]
    {
      NameDecides(c, required, s, n, m);
    }
  }

  lemma TiesMean(c: Catalog, required: seq<AppId>, s: seq<AppId>)
    requires IsResult(c, required, s) && Distinct(required) && DependenciesFirst(c, s)
    ensures TiesByMoment(c, required, s)
  {
    forall n, m | 0 <= n < m < |s| && c[s[n]].name == c[s[m]].name && (forall d :: d in c[s[m]].deps ==> d in s[..n])
      ensures TieSettled(c, required, s, s[n], s[m], n)
    {
      TieDecides(c, required, s, n, m);
    }
  }

  /** A selection can be installed if and only if it is part of some list of enabled applications that
      has each of them once and after all its dependencies. */
  lemma ResolvableIff(c: Catalog, selected: seq<AppId>)
    ensures WellFounded(c, Elements(selected)) && AllEnabled(c, Elements(selected)) <==>
            exists s: seq<AppId> :: DependenciesFirst(c, s) && (forall x :: x in selected ==> x in s)
                                    && forall x :: x in s ==> x in c && c[x].enabled
  {
    if WellFounded(c, Elements(selected)) && AllEnabled(c, Elements(selected)) {
      OrderIsList(c, selected, InstallOrder(c, selected));
    }
    if s: seq<AppId> :| DependenciesFirst(c, s) && (forall x :: x in selected ==> x in s)
                        && forall x :: x in s ==> x in c && c[x].enabled {
      ListResolves(c, selected, s);
    }
  }

  lemma OrderIsList(c: Catalog, selected: seq<AppId>, s: seq<AppId>)
    requires WellFounded(c, Elements(selected)) && AllEnabled(c, Elements(selected)) && s == InstallOrder(c, selected)
    ensures DependenciesFirst(c, s) && (forall x :: x in selected ==> x in s)
    ensures forall x :: x in s ==> x in c && c[x].enabled
  {
    OrderMeans(c, selected, s);
    ResultIsInstallOrder(c, selected);
  }

  lemma ListResolves(c: Catalog, selected: seq<AppId>, s: seq<AppId>)
    requires DependenciesFirst(c, s) && (forall x :: x in selected ==> x in s)
    requires forall x :: x in s ==> x in c && c[x].enabled
    ensures WellFounded(c, Elements(selected)) && AllEnabled(c, Elements(selected))
  {
    TopologicalIsWellFounded(c, Elements(selected), s);
  }

  /** The loop that reports disabled applications. */
  method ReportDisabled(required: seq<AppId>, catalog: Catalog, found: seq<Error>)
    returns (errors: seq<Error>, ghost reported: seq<Error>, ghost at: seq<nat>)
    requires InCatalog(catalog, required)
    ensures errors == found + reported && DisabledInTurn(catalog, required, reported, at)
  {
    errors, reported, at := found, [], [];
    for i: nat := 0 to |required|
      invariant errors == found + reported && DisabledInTurn(catalog, required[..i], reported, at)
    {
      assert required[i] in required;
      ReportNext(catalog, required, i, reported, at);
      if !catalog[required[i]].enabled {
        errors := errors + [Disabled(catalog[required[i]].name)];
        reported, at := reported + [Disabled(catalog[required[i]].name)], at + [i];
      }
    }
    assert required[..|required|] == required;
  }

  /** Behind the errors of the search stand those of the disabled applications, as the search lists them. */
  ghost predicate DisabledLast(c: Catalog, listed: seq<AppId>, errors: seq<Error>) {
    exists n: nat, at: seq<nat> ::
      n <= |errors| && (forall i :: 0 <= i < n ==> !errors[i].Disabled?) && DisabledInTurn(c, listed, errors[n..], at)
  }

  lemma DisabledAreLast(c: Catalog, roots: set<AppId>, listed: seq<AppId>, found: seq<Error>, reported: seq<Error>,
                        at: seq<nat>)
    requires Reports(c, roots, found) && DisabledInTurn(c, listed, reported, at)
    ensures DisabledLast(c, listed, found + reported)
  {
    var errors := found + reported;
    assert errors[|found|..] == reported;
    assert forall i :: 0 <= i < |found| ==> errors[i] in found;
  }

  /** Returns the installation order, or all the reasons why there is none. */
  method ResolveInstallOrder(selected: seq<AppId>, catalog: Catalog) returns (ordered: seq<AppId>, errors: seq<Error>)
    ensures errors == [] <==> WellFounded(catalog, Elements(selected)) && AllEnabled(catalog, Elements(selected))
    ensures errors == [] ==> ordered == InstallOrder(catalog, selected)
    ensures errors == [] ==> IsInstallOrder(catalog, Elements(selected), ordered)
    ensures errors == [] ==> DependenciesFirst(catalog, ordered) && NothingSuperfluous(catalog, selected, ordered)
                             && (forall x :: x in selected ==> x in ordered)
                             && Alphabetical(catalog, ordered)
                             && TiesByMoment(catalog, Search(catalog, selected), ordered)
    ensures errors != [] ==> ordered == []
    ensures forall x :: Missing(x) in errors <==> Reachable(catalog, Elements(selected), x) && x !in catalog
    ensures NoCycle(errors) <==> Acyclic(catalog, Elements(selected))
    ensures forall e :: e in errors && e.Circular? ==> NamesCycle(catalog, Elements(selected), e.names)
    ensures forall name :: Disabled(name) in errors <==>
              exists x :: Reachable(catalog, Elements(selected), x) && x in catalog
                          && !catalog[x].enabled && catalog[x].name == name
    ensures DisabledLast(catalog, Search(catalog, selected), errors)
  {
    ghost var roots, reported, at := Elements(selected), [], [];
    var required;
    required, errors := FindRequired(selected, catalog);
    ghost var found := errors;
    errors, reported, at := ReportDisabled(required, catalog, errors);
    DisabledMeans(catalog, roots, required, reported, at);
    AllReported(catalog, roots, found, reported);
    DisabledAreLast(catalog, roots, required, found, reported, at);
    if errors != [] {
      return [], errors;
    }
    ordered := KahnSort(catalog, required);
    ResultIsUnique(catalog, required, ordered, InstallOrder(catalog, selected));
    ResultIsInstallOrder(catalog, selected);
    OrderMeans(catalog, selected, ordered);
  }
}
