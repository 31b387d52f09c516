/** The administrator's catalog of applications: its edits keep the graph sound, and the preflight
    check and the execution stage agree on it. */
module AdminCatalog {
  import opened AppGraph
  import opened AppSearch
  import opened Resolver
  import opened StableOrder

  /** All dependencies exist and nothing depends on itself: any selection can be ordered. */
  ghost predicate Sound(c: Catalog) { WellFounded(c, c.Keys) }

  // ---------------------------------------------------------------- the acyclicity check

  predicate OccursAt(text: string, word: string, i: nat) { i + |word| <= |text| && text[i..i + |word|] == word }

  predicate Contains(text: string, word: string) { exists i: nat :: i <= |text| && OccursAt(text, word, i) }

  /** The check keeps the error texts that contain one of two phrases.  Cycle and missing-dependency
      texts always do; a disabled application's text does when its name does. */
  predicate Structural(e: Error) {
    e.Disabled? ==> Contains(e.name, "Circular") || Contains(e.name, "does not exist")
  }

  ghost predicate Misleading(c: Catalog) {
    exists x :: x in c && !c[x].enabled && Structural(Disabled(c[x].name))
  }

  lemma ContainsMeans(text: string, word: string)
    ensures Contains(text, word) <==> exists before: string, after: string :: text == before + word + after
  {
    if i: nat :| i <= |text| && OccursAt(text, word, i) {
      assert text == text[..i] + word + text[i + |word|..];
    }
    if before: string, after: string :| text == before + word + after {
      assert OccursAt(text, word, |before|);
    }
  }

  /** A disabled application is misleading when one of the two phrases stands in its name. */
  lemma MisleadingMeans(c: Catalog)
    ensures Misleading(c) <==>
            exists x :: x in c && !c[x].enabled
                        && ((exists before: string, after: string :: c[x].name == before + "Circular" + after)
                            || exists before: string, after: string :: c[x].name == before + "does not exist" + after)
  {
    forall x | x in c && !c[x].enabled
      ensures Structural(Disabled(c[x].name)) <==>
              (exists before: string, after: string :: c[x].name == before + "Circular" + after)
              || exists before: string, after: string :: c[x].name == before + "does not exist" + after
    {
      ContainsMeans(c[x].name, "Circular");
      ContainsMeans(c[x].name, "does not exist");
    }
  }

  /** `list(catalog)`. */
  method AllIds(c: Catalog) returns (ids: seq<AppId>)
    ensures Elements(ids) == c.Keys
  {
    ids := [];
    var rest := c.Keys;
    while rest != {}
      invariant rest <= c.Keys && Elements(ids) == c.Keys - rest
      decreases rest
    {
      var id :| id in rest;
      assert Elements(ids + [id]) == Elements(ids) + {id};
      assert c.Keys - (rest - {id}) == (c.Keys - rest) + {id};
      ids, rest := ids + [id], rest - {id};
    }
  }

  method StructuralErrors(errors: seq<Error>) returns (kept: seq<Error>)
    ensures forall e :: e in kept <==> e in errors && Structural(e)
  {
    kept := [];
    for i := 0 to |errors|
      invariant forall e :: e in kept <==> e in errors[..i] && Structural(e)
    {
      if Structural(errors[i]) {
        kept := kept + [errors[i]];
      }
    }
    assert errors[..|errors|] == errors;
  }

  lemma StructuralIff(c: Catalog, errors: seq<Error>)
    requires forall x :: Missing(x) in errors <==> Reachable(c, c.Keys, x) && x !in c
    requires NoCycle(errors) <==> Acyclic(c, c.Keys)
    requires forall name :: Disabled(name) in errors <==>
               exists x :: Reachable(c, c.Keys, x) && x in c && !c[x].enabled && c[x].name == name
    ensures (exists e :: e in errors && Structural(e)) <==> !Sound(c) || Misleading(c)
  {
    forall x | x in c ensures Reachable(c, c.Keys, x) {
      RootReachable(c, c.Keys, x);
    }
    if !Complete(c, c.Keys) {
      var x :| Reachable(c, c.Keys, x) && x !in c;
      assert Missing(x) in errors && Structural(Missing(x));
    }
    if x :| x in c && !c[x].enabled && Structural(Disabled(c[x].name)) {
      assert Disabled(c[x].name) in errors;
    }
    if e :| e in errors && Structural(e) {
      match e
      case Missing(x) => assert Missing(x) in errors;
      case Disabled(name) => assert Disabled(name) in errors;
      case Circular(_) =>
    }
  }

  method AssertAcyclic(c: Catalog) returns (ok: bool)
    ensures ok <==> Sound(c) && !Misleading(c)
  {
    var ids := AllIds(c);
    var _, errors := ResolveInstallOrder(ids, c);
    StructuralIff(c, errors);
    var kept := StructuralErrors(errors);
    ok := kept == [];
    assert kept != [] ==> kept[0] in kept;
  }

  // ---------------------------------------------------------------- catalog edits

  lemma SubPath(c: Catalog, d: Catalog, p: seq<AppId>)
    requires IsPath(c, p) && forall a, b :: Edge(c, a, b) ==> Edge(d, a, b)
    ensures IsPath(d, p)
  {
  }

  /** Soundness in terms of the graph alone. */
  lemma SoundIff(c: Catalog)
    ensures Sound(c) <==> (forall x, y :: Edge(c, x, y) ==> y in c) && forall p :: !IsCycle(c, p)
  {
    forall x | x in c ensures Reachable(c, c.Keys, x) {
      RootReachable(c, c.Keys, x);
    }
    if Sound(c) {
      forall x, y | Edge(c, x, y) ensures y in c {
        EdgeReachable(c, c.Keys, x, y);
      }
      forall p ensures !IsCycle(c, p) {
        assert IsCycle(c, p) ==> Edge(c, p[0], p[1]);
      }
    }
    if forall x, y :: Edge(c, x, y) ==> y in c {
      forall x | Reachable(c, c.Keys, x) ensures x in c {
        var p :| PathTo(c, c.Keys, p, x);
        ReachableInClosed(c, c.Keys, c.Keys, p, |p| - 1);
      }
    }
  }

  /** Fewer dependencies between fewer applications cannot break a sound catalog. */
  lemma SmallerStaysSound(c: Catalog, d: Catalog)
    requires Sound(c) && (forall a, b :: Edge(d, a, b) ==> Edge(c, a, b) && b in d)
    ensures Sound(d)
  {
    SoundIff(c);
    SoundIff(d);
    forall p ensures !IsCycle(d, p) {
      if IsCycle(d, p) {
        SubPath(d, c, p);
      }
    }
  }

  /** `deps` as they are stored: every id known, the application itself not among them. */
  predicate UsableDeps(c: Catalog, id: AppId, deps: seq<AppId>) {
    id !in deps && forall d :: d in deps ==> d in c
  }

  predicate NameUsed(c: Catalog, name: string) { exists x :: x in c && c[x].name == name }

  datatype Edit =
    | Create(id: AppId, name: string, enabled: bool, deps: seq<AppId>)
    | Update(id: AppId, name: string, enabled: bool)
    | UpdateDeps(id: AppId, name: string, enabled: bool, deps: seq<AppId>)
    | Delete(id: AppId)

  /** The catalog an edit asks for. */
  function Edited(c: Catalog, e: Edit): Catalog {
    match e
    case Create(id, name, enabled, deps) => c[id := AppNode(name, enabled, Elements(deps))]
    case Update(id, name, enabled) => if id in c then c[id := AppNode(name, enabled, c[id].deps)] else c
    case UpdateDeps(id, name, enabled, deps) => c[id := AppNode(name, enabled, Elements(deps))]
    case Delete(id) => c - {id}
  }

  /** When the edit is committed; otherwise the transaction is rolled back.  New ids are fresh. */
  ghost predicate Commits(c: Catalog, e: Edit) {
    match e
    case Create(id, name, _, deps) =>
      id !in c && !NameUsed(c, name) && UsableDeps(c, id, deps) && Sound(Edited(c, e)) && !Misleading(Edited(c, e))
    case Update(id, _, _) => id in c
    case UpdateDeps(id, _, _, deps) =>
      id in c && UsableDeps(c, id, deps) && Sound(Edited(c, e)) && !Misleading(Edited(c, e))
    case Delete(id) => id in c && forall x :: x in c ==> id !in c[x].deps
  }

  lemma CommittedStaysSound(c: Catalog, e: Edit)
    requires Sound(c) && Commits(c, e)
    ensures Sound(Edited(c, e))
  {
    SoundIff(c);
    if e.Update? || e.Delete? {
      forall a, b | Edge(Edited(c, e), a, b) ensures Edge(c, a, b) && b in Edited(c, e) {
        assert Edge(c, a, b);
      }
      SmallerStaysSound(c, Edited(c, e));
    }
  }

  // ---------------------------------------------------------------- which edits are committed

  /** The part of a path up to its first visit of `id`. */
  lemma {:induction false} FirstVisit(p: seq<AppId>, id: AppId) returns (j: nat)
    requires id in p
    ensures j < |p| && p[j] == id && id !in p[..j]
  {
    if p[0] == id {
      j := 0;
    } else {
      assert p == [p[0]] + p[1..];
      var k := FirstVisit(p[1..], id);
      j := k + 1;
      assert p[..j] == [p[0]] + p[1..][..k];
    }
  }

  /** Catalogs that differ in one application have the same paths up to their first visit of it. */
  lemma PathAvoids(c: Catalog, d: Catalog, id: AppId, p: seq<AppId>, j: nat)
    requires IsPath(c, p) && j < |p| && id !in p[..j]
    requires forall x :: x != id && x in c ==> x in d && c[x] == d[x]
    ensures IsPath(d, p[..j + 1])
  {
    forall i | 0 <= i < j ensures Edge(d, p[i], p[i + 1]) {
      assert Edge(c, p[i], p[i + 1]) && p[i] in p[..j];
    }
  }

  lemma CycleFrom(d: Catalog, id: AppId, q: seq<AppId>) returns (t: seq<AppId>)
    requires IsCycle(d, q) && id in q[..|q| - 1]
    ensures IsPath(d, t) && Edge(d, id, t[0]) && t[|t| - 1] == id
  {
    var k :| 0 <= k < |q| - 1 && q[k] == id;
    t := q[k + 1..] + q[1..k + 1];
    assert Edge(d, q[k], q[k + 1]);
    forall i | 0 <= i < |t| - 1 ensures Edge(d, t[i], t[i + 1]) {
      if i < |q| - k - 1 {
        assert t[i] == q[k + 1 + i] && (i < |q| - k - 2 ==> t[i + 1] == q[k + 2 + i]);
        assert i < |q| - k - 2 ==> Edge(d, q[k + 1 + i], q[k + 2 + i]);
        assert i == |q| - k - 2 ==> Edge(d, q[0], q[1]);
      } else {
        assert t[i] == q[i - (|q| - k - 2)] && t[i + 1] == q[i - (|q| - k - 2) + 1];
        assert Edge(d, q[i - (|q| - k - 2)], q[i - (|q| - k - 2) + 1]);
      }
    }
  }

  /** Giving an application new dependencies closes a cycle if and only if they lead to it already. */
  lemma ReplacedIsSound(c: Catalog, id: AppId, node: AppNode)
    requires Sound(c) && node.deps <= c.Keys
    ensures Sound(c[id := node]) <==> !Reachable(c, node.deps, id)
  {
    var d := c[id := node];
    SoundIff(c);
    SoundIff(d);
    forall x, y | Edge(d, x, y) ensures y in d {
      assert x != id ==> Edge(c, x, y);
    }
    if Reachable(c, node.deps, id) {
      var q := ReachedClosesCycle(c, id, node);
    } else {
      forall q ensures !IsCycle(d, q) {
        if IsCycle(d, q) {
          if id in q[..|q| - 1] {
            CycleNeedsReach(c, id, node, q);
          } else {
            CycleWasThere(c, id, node, q);
          }
        }
      }
    }
  }

  lemma ReachedClosesCycle(c: Catalog, id: AppId, node: AppNode) returns (q: seq<AppId>)
    requires Reachable(c, node.deps, id)
    ensures IsCycle(c[id := node], q)
  {
    var d := c[id := node];
    var p :| PathTo(c, node.deps, p, id);
    var j := FirstVisit(p, id);
    PathAvoids(c, d, id, p, j);
    q := [id] + p[..j + 1];
    assert Edge(d, id, p[0]);
    assert IsPath(d, q) by {
      forall i | 0 <= i < |q| - 1 ensures Edge(d, q[i], q[i + 1]) {
        assert i > 0 ==> Edge(d, p[..j + 1][i - 1], p[..j + 1][i]);
      }
    }
  }

  lemma CycleNeedsReach(c: Catalog, id: AppId, node: AppNode, q: seq<AppId>)
    requires IsCycle(c[id := node], q) && id in q[..|q| - 1]
    ensures Reachable(c, node.deps, id)
  {
    var d := c[id := node];
    var t := CycleFrom(d, id, q);
    var j := FirstVisit(t, id);
    PathAvoids(d, c, id, t, j);
    assert PathTo(c, node.deps, t[..j + 1], id);
  }

  lemma CycleWasThere(c: Catalog, id: AppId, node: AppNode, q: seq<AppId>)
    requires IsCycle(c[id := node], q) && id !in q[..|q| - 1]
    ensures IsCycle(c, q)
  {
    PathAvoids(c[id := node], c, id, q, |q| - 1);
    assert q[..|q| - 1 + 1] == q;
  }

  /** Whether a dependency that the request names leads to `id`. */
  ghost predicate LeadsTo(c: Catalog, deps: seq<AppId>, id: AppId) { Reachable(c, Elements(deps), id) }

  /** A new application is refused for its name, for unknown dependencies, or because of a misleading
      entry; it cannot close a cycle. */
  lemma CreateCommitsIff(c: Catalog, id: AppId, name: string, enabled: bool, deps: seq<AppId>)
    requires Sound(c) && id !in c
    ensures Commits(c, Create(id, name, enabled, deps)) <==>
            && (forall x :: x in c ==> c[x].name != name) && (forall d :: d in deps ==> d in c)
            && !Misleading(c[id := AppNode(name, enabled, set d | d in deps)])
  {
    var node := AppNode(name, enabled, Elements(deps));
    if forall d :: d in deps ==> d in c {
      ReplacedIsSound(c, id, node);
      SoundIff(c);
      if Reachable(c, node.deps, id) {
        var p :| PathTo(c, node.deps, p, id);
        ReachableInClosed(c, node.deps, c.Keys, p, |p| - 1);
      }
    }
  }

  /** New dependencies are refused for being unknown, for leading back to the application, or because of
      a misleading entry. */
  lemma UpdateCommitsIff(c: Catalog, id: AppId, name: string, enabled: bool, deps: seq<AppId>)
    requires Sound(c)
    ensures Commits(c, UpdateDeps(id, name, enabled, deps)) <==>
            && id in c && (forall d :: d in deps ==> d in c) && !LeadsTo(c, deps, id)
            && !Misleading(c[id := AppNode(name, enabled, set d | d in deps)])
  {
    var node := AppNode(name, enabled, Elements(deps));
    if id in c && forall d :: d in deps ==> d in c {
      ReplacedIsSound(c, id, node);
      if id in deps {
        RootReachable(c, node.deps, id);
      }
    }
  }

  /** Committed and rolled-back edits from the empty catalog. */
  ghost predicate EditHistory(cs: seq<Catalog>, es: seq<Edit>) {
    && |cs| == |es| + 1 && cs[0] == map[]
    && forall k: nat :: k < |es| ==> cs[k + 1] == if Commits(cs[k], es[k]) then Edited(cs[k], es[k]) else cs[k]
  }

  /** Whatever administrators do, every selection of existing applications stays resolvable up to
      disabled entries. */
  lemma {:induction false} EveryCatalogIsSound(cs: seq<Catalog>, es: seq<Edit>, k: nat)
    requires EditHistory(cs, es) && k < |cs|
    ensures Sound(cs[k])
  {
    if k == 0 {
      SoundIff(map[]);
    } else {
      EveryCatalogIsSound(cs, es, k - 1);
      if Commits(cs[k - 1], es[k - 1]) {
        CommittedStaysSound(cs[k - 1], es[k - 1]);
      }
    }
  }

  /** The condition under which a sound dependency edit is refused, read off the request and the
      catalog before it: the edited application is to be disabled under such a name, or another one is. */
  lemma MisleadingBefore(c: Catalog, e: Edit)
    requires e.UpdateDeps? && e.id in c
    ensures Misleading(Edited(c, e)) <==>
            (!e.enabled && Structural(Disabled(e.name)))
            || exists x :: x in c && x != e.id && !c[x].enabled && Structural(Disabled(c[x].name))
  {
    var d := Edited(c, e);
    assert d[e.id] == AppNode(e.name, e.enabled, Elements(e.deps));
    if x :| x in c && x != e.id && !c[x].enabled && Structural(Disabled(c[x].name)) {
      assert x in d && d[x] == c[x];
    }
    if x :| x in d && !d[x].enabled && Structural(Disabled(d[x].name)) {
      assert x != e.id ==> x in c && c[x] == d[x];
    }
  }

  lemma EdgelessIsSound(c: Catalog)
    requires c.Keys == {0, 1} && c[0].deps == {} && c[1].deps == {}
    ensures Sound(c)
  {
    TopologicalIsWellFounded(c, c.Keys, [0, 1]);
  }

  lemma SoundEditRefused() returns (c: Catalog, e: Edit)
    ensures Sound(c) && e.UpdateDeps? && e.id in c && UsableDeps(c, e.id, e.deps) && Sound(Edited(c, e))
            && !Commits(c, e)
  {
    c := map[0 := AppNode("Agent", true, {}), 1 := AppNode("Circular", false, {})];
    e := UpdateDeps(0, "Agent", true, []);
    EdgelessIsSound(c);
    EdgelessIsSound(Edited(c, e));
    assert OccursAt("Circular", "Circular", 0);
    assert 1 in Edited(c, e) && Structural(Disabled(Edited(c, e)[1].name));
  }

  class ApplicationCatalog {
    var apps: Catalog

    constructor ()
      ensures apps == map[]
    {
      apps := map[];
    }

    /** Returns whether the dependencies may be stored. */
    method CheckDependencies(id: AppId, deps: seq<AppId>) returns (ok: bool)
      ensures ok <==> UsableDeps(apps, id, deps)
    {
      if id in deps {
        return false;
      }
      for i := 0 to |deps|
        invariant forall j :: 0 <= j < i ==> deps[j] in apps
      {
        if deps[i] !in apps {
          return false;
        }
      }
      return true;
    }

    method CreateApplication(id: AppId, name: string, enabled: bool, deps: seq<AppId>) returns (ok: bool)
      requires id !in apps
      modifies this
      ensures ok <==> Commits(old(apps), Create(id, name, enabled, deps))
      ensures apps == if ok then Edited(old(apps), Create(id, name, enabled, deps)) else old(apps)
      ensures apps == if ok then old(apps)[id := AppNode(name, enabled, set d | d in deps)] else old(apps)
      ensures Sound(old(apps)) ==>
                (ok <==> && (forall x :: x in old(apps) ==> old(apps)[x].name != name)
                         && (forall d :: d in deps ==> d in old(apps))
                         && !Misleading(old(apps)[id := AppNode(name, enabled, set d | d in deps)]))
    {
      if Sound(apps) {
        CreateCommitsIff(apps, id, name, enabled, deps);
      }
      if exists x :: x in apps && apps[x].name == name {
        return false;
      }
      ok := CheckDependencies(id, deps);
      if ok {
        var candidate := apps[id := AppNode(name, enabled, Elements(deps))];
        ok := AssertAcyclic(candidate);
        if ok {
          apps := candidate;
        }
      }
    }

    /** `deps` is absent when the request does not mention dependencies. */
    method UpdateApplication(id: AppId, name: string, enabled: bool, replaceDeps: bool, deps: seq<AppId>)
      returns (ok: bool)
      modifies this
      ensures var e := if replaceDeps then UpdateDeps(id, name, enabled, deps) else Update(id, name, enabled);
              (ok <==> Commits(old(apps), e)) && apps == if ok then Edited(old(apps), e) else old(apps)
      ensures !ok ==> apps == old(apps)
      ensures ok ==> id in old(apps)
                     && (replaceDeps ==> apps == old(apps)[id := AppNode(name, enabled, set d | d in deps)])
                     && (!replaceDeps ==> apps == old(apps)[id := AppNode(name, enabled, old(apps)[id].deps)])
      ensures !replaceDeps ==> (ok <==> id in old(apps))
      ensures Sound(old(apps)) && replaceDeps ==>
                (ok <==> && id in old(apps) && (forall d :: d in deps ==> d in old(apps))
                         && !LeadsTo(old(apps), deps, id)
                         && !Misleading(old(apps)[id := AppNode(name, enabled, set d | d in deps)]))
    {
      if Sound(apps) {
        UpdateCommitsIff(apps, id, name, enabled, deps);
      }
      if id !in apps {
        return false;
      }
      var candidate := apps[id := AppNode(name, enabled, apps[id].deps)];
      ok := true;
      if replaceDeps {
        ok := CheckDependencies(id, deps);
        if ok {
          candidate := apps[id := AppNode(name, enabled, Elements(deps))];
          ok := AssertAcyclic(candidate);
        }
      }
      if ok {
        apps := candidate;
      }
    }

    method DeleteApplication(id: AppId) returns (ok: bool)
      modifies this
      ensures ok <==> Commits(old(apps), Delete(id))
      ensures apps == if ok then Edited(old(apps), Delete(id)) else old(apps)
      ensures ok <==> id in old(apps) && forall x :: x in old(apps) ==> id !in old(apps)[x].deps
      ensures ok ==> apps.Keys == old(apps).Keys - {id} && forall x :: x in apps ==> apps[x] == old(apps)[x]
    {
      if id !in apps {
        return false;
      }
      if exists x :: x in apps && id in apps[x].deps {
        return false;
      }
      apps := apps - {id};
      return true;
    }
  }

  // ---------------------------------------------------------------- preflight and execution

  function EnabledOnly(c: Catalog): Catalog { map x | x in c && c[x].enabled :: c[x] }

  ghost predicate Resolvable(c: Catalog, roots: set<AppId>) { WellFounded(c, roots) && AllEnabled(c, roots) }

  lemma ReachableInBoth(c: Catalog, roots: set<AppId>, x: AppId)
    ensures Reachable(EnabledOnly(c), roots, x) ==> Reachable(c, roots, x)
    ensures Resolvable(EnabledOnly(c), roots) && Reachable(c, roots, x) ==> Reachable(EnabledOnly(c), roots, x)
    ensures Resolvable(c, roots) && Reachable(c, roots, x) ==> Reachable(EnabledOnly(c), roots, x)
  {
    if Reachable(EnabledOnly(c), roots, x) {
      var p :| PathTo(EnabledOnly(c), roots, p, x);
      SubPath(EnabledOnly(c), c, p);
      assert PathTo(c, roots, p, x);
    }
    if Reachable(c, roots, x) && (Resolvable(EnabledOnly(c), roots) || Resolvable(c, roots)) {
      var p :| PathTo(c, roots, p, x);
      PathStaysEnabled(c, roots, p, |p| - 1);
    }
  }

  lemma {:induction false} PathStaysEnabled(c: Catalog, roots: set<AppId>, p: seq<AppId>, i: nat)
    requires IsPath(c, p) && p[0] in roots && i < |p|
    requires Resolvable(EnabledOnly(c), roots) || Resolvable(c, roots)
    ensures p[i] in EnabledOnly(c) && Reachable(EnabledOnly(c), roots, p[i])
    ensures Reachable(c, roots, p[i])
  {
    if i == 0 {
      RootReachable(c, roots, p[0]);
      RootReachable(EnabledOnly(c), roots, p[0]);
    } else {
      PathStaysEnabled(c, roots, p, i - 1);
      assert Edge(c, p[i - 1], p[i]) && Edge(EnabledOnly(c), p[i - 1], p[i]);
      EdgeReachable(c, roots, p[i - 1], p[i]);
      EdgeReachable(EnabledOnly(c), roots, p[i - 1], p[i]);
    }
  }

  lemma CyclesAgree(c: Catalog, roots: set<AppId>, p: seq<AppId>)
    requires Resolvable(EnabledOnly(c), roots) || Resolvable(c, roots)
    requires p != [] && Reachable(c, roots, p[0])
    ensures IsCycle(c, p) <==> IsCycle(EnabledOnly(c), p)
  {
    if IsCycle(EnabledOnly(c), p) {
      SubPath(EnabledOnly(c), c, p);
    }
    if IsCycle(c, p) {
      var q :| PathTo(c, roots, q, p[0]);
      forall i | 0 <= i < |p| - 1 ensures Edge(EnabledOnly(c), p[i], p[i + 1]) {
        var r := q + p[1..i + 1];
        assert Edge(c, p[i], p[i + 1]);
        assert IsPath(c, r) by {
          forall j | 0 <= j < |r| - 1 ensures Edge(c, r[j], r[j + 1]) {
            if j >= |q| - 1 {
              assert Edge(c, p[j - |q| + 1], p[j - |q| + 2]);
            } else {
              assert Edge(c, q[j], q[j + 1]);
            }
          }
        }
        PathStaysEnabled(c, roots, r, |r| - 1);
        assert r[|r| - 1] == p[i];
      }
    }
  }

  /** Either both catalogs resolve or neither does, and they admit the same orders. */
  lemma SameResolvable(c: Catalog, roots: set<AppId>, order: seq<AppId>)
    ensures Resolvable(EnabledOnly(c), roots) <==> Resolvable(c, roots)
    ensures Resolvable(c, roots) ==> (IsInstallOrder(EnabledOnly(c), roots, order) <==> IsInstallOrder(c, roots, order))
  {
    forall x ensures Resolvable(EnabledOnly(c), roots) || Resolvable(c, roots) ==>
        (Reachable(c, roots, x) <==> Reachable(EnabledOnly(c), roots, x))
        && (Reachable(c, roots, x) ==> x in EnabledOnly(c)) {
      ReachableInBoth(c, roots, x);
      if Reachable(c, roots, x) && (Resolvable(EnabledOnly(c), roots) || Resolvable(c, roots)) {
        var p :| PathTo(c, roots, p, x);
        PathStaysEnabled(c, roots, p, |p| - 1);
      }
    }
    forall p | p != [] && Reachable(c, roots, p[0]) && (Resolvable(EnabledOnly(c), roots) || Resolvable(c, roots))
      ensures IsCycle(c, p) <==> IsCycle(EnabledOnly(c), p)
    {
      CyclesAgree(c, roots, p);
    }
  }

  /** The preflight resolves against the enabled applications only, the execution stage against all
      of them: for every catalog and list of selected applications both succeed or neither does, and
      then they return the same order, also where names are tied. */
  lemma PreflightAgreesWithExecution(c: Catalog, selected: seq<AppId>)
    ensures Resolvable(EnabledOnly(c), Elements(selected)) <==> Resolvable(c, Elements(selected))
    ensures Resolvable(c, Elements(selected)) ==>
              InstallOrder(EnabledOnly(c), selected) == InstallOrder(c, selected)
  {
    var roots := Elements(selected);
    SameResolvable(c, roots, []);
    if Resolvable(c, roots) {
      var required := Search(c, selected);
      SearchIsTopological(c, selected);
      TopologicalIsClosed(c, required);
      forall x | x in Elements(required) ensures x in c && c[x].enabled {
        assert Reachable(c, roots, x);
      }
      OrderSame(c, EnabledOnly(c), selected);
    }
  }

  lemma SelectedAreUsable(selected: seq<AppId>, c: Catalog)
    requires Resolvable(c, Elements(selected))
    ensures forall j :: 0 <= j < |selected| ==> selected[j] in c && c[selected[j]].enabled
  {
    forall j | 0 <= j < |selected| ensures selected[j] in c && c[selected[j]].enabled {
      RootReachable(c, Elements(selected), selected[j]);
    }
  }

  lemma NothingSelected(c: Catalog)
    ensures Resolvable(c, Elements([])) && InstallOrder(c, []) == []
  {
    assert Elements<AppId>([]) == {};
    DistinctCount(InstallOrder(c, []));
  }

  /** The preflight's verdict on the selected applications, and the order it reports if they pass: the
      one that the execution installs. */
  method CheckApplications(selected: seq<AppId>, c: Catalog) returns (pass: bool, order: seq<AppId>)
    ensures pass <==> Resolvable(c, Elements(selected))
    ensures pass ==> order == InstallOrder(c, selected)
  {
    order := [];
    if selected == [] {
      NothingSelected(c);
      return true, [];
    }
    var missing, disabled := [], [];
    for i := 0 to |selected|
      invariant missing == [] && disabled == [] <==>
                forall j :: 0 <= j < i ==> selected[j] in c && c[selected[j]].enabled
    {
      if selected[i] !in c {
        missing := missing + [selected[i]];
      } else if !c[selected[i]].enabled {
        disabled := disabled + [c[selected[i]].name];
      }
    }
    var ordered, errors := ResolveInstallOrder(selected, EnabledOnly(c));
    assert errors == [] <==> Resolvable(EnabledOnly(c), Elements(selected));
    PreflightAgreesWithExecution(c, selected);
    pass := missing == [] && disabled == [] && errors == [];
    if Resolvable(c, Elements(selected)) {
      SelectedAreUsable(selected, c);
    }
    if pass {
      order := ordered;
    }
  }
}
