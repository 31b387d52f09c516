/** When the installation order depends on the order of the selection. */
module InstallOrders {
  import opened Names
  import opened AppGraph
  import opened AppSearch
  import opened StableOrder
  import opened AdminCatalog

  // ---------------------------------------------------------------- how many orders are admissible

  lemma GreedyWithin(c: Catalog, s: seq<AppId>)
    requires Greedy(c, s) && Topological(c, s)
    ensures GreedyIn(c, Elements(s), s)
  {
    forall n, y | 0 <= n < |s| && s[n] in c && Available(c, Elements(s), Elements(s[..n]), y)
      ensures Le(c[s[n]].name, c[y].name)
    {
      assert s == s[..n] + s[n..];
      assert y in s[n..];
    }
  }

  lemma PrefixBegun(c: Catalog, s: seq<AppId>, n: nat)
    requires Distinct(s) && Topological(c, s) && GreedyIn(c, Elements(s), s) && n <= |s|
    ensures Begun(c, Elements(s), s[..n])
  {
    var p := s[..n];
    forall i | 0 <= i < |p| ensures p[..i] == s[..i] {
    }
  }

  /** Another order goes on with the tied application. */
  lemma TieSplits(c: Catalog, roots: set<AppId>, s: seq<AppId>, n: nat, x: AppId) returns (t: seq<AppId>)
    requires IsInstallOrder(c, roots, s) && TieAt(c, s, n, x)
    ensures IsInstallOrder(c, roots, t) && t != s
  {
    GreedyWithin(c, s);
    PrefixBegun(c, s, n);
    var p := s[..n];
    TiedIsAvailable(c, s, n, x);
    AppendBegun(c, Elements(s), p, x);
    t := Completion(c, s, p + [x]);
    GreedyFrom(c, t);
    assert t[n] == (p + [x])[n];
    assert forall y :: y in t <==> y in Elements(t);
  }

  lemma TiedIsAvailable(c: Catalog, s: seq<AppId>, n: nat, x: AppId)
    requires Distinct(s) && Topological(c, s) && GreedyIn(c, Elements(s), s) && TieAt(c, s, n, x)
    ensures x != s[n] && Available(c, Elements(s), Elements(s[..n]), x)
    ensures forall y :: Available(c, Elements(s), Elements(s[..n]), y) ==> y in c && Le(c[x].name, c[y].name)
  {
    TiedDiffer(c, s, n, x);
    var k :| 0 <= k < |s[n + 1..]| && s[n + 1..][k] == x;
    forall i | 0 <= i < n ensures s[i] != x {
      assert s[n + 1 + k] == x;
    }
  }

  /** The specification that knows the selection only as a set admits exactly one order if and only if
      at no position of it another application of the same name was available. */
  lemma OneOrderIff(c: Catalog, roots: set<AppId>, s: seq<AppId>)
    requires IsInstallOrder(c, roots, s)
    ensures (forall t :: IsInstallOrder(c, roots, t) ==> t == s) <==> !Tie(c, s)
  {
    if Tie(c, s) {
      var n, x :| TieAt(c, s, n, x);
      var t := TieSplits(c, roots, s, n, x);
    } else {
      forall t | IsInstallOrder(c, roots, t) ensures t == s {
        NoTieIsUnique(c, roots, s, t);
      }
    }
  }

  // ---------------------------------------------------------------- which order the resolver returns

  /** Another application of the same name became available together with the one at position `n`. */
  ghost predicate TogetherAt(c: Catalog, s: seq<AppId>, n: nat, x: AppId) {
    TieAt(c, s, n, x) && Since(c, s[..n], x) == Since(c, s[..n], s[n])
  }

  /** Wherever two applications of one name became available together, every selected application that
      leads to either of them, searched on its own, lists the one first that is installed first. */
  ghost predicate Settled(c: Catalog, selected: seq<AppId>)
    requires WellFounded(c, Elements(selected))
  {
    var s := InstallOrder(c, selected);
    forall n: nat, x, r :: TogetherAt(c, s, n, x) && r in selected ==> ListedFirst(Search(c, [r]), s[n], x)
  }

  lemma TiesKeptElsewhere(c: Catalog, selected: seq<AppId>, t: seq<AppId>, n: nat, x: AppId)
    requires WellFounded(c, Elements(selected)) && Elements(t) == Elements(selected) && Settled(c, selected)
    requires var s, required := InstallOrder(c, selected), Search(c, selected);
             && n < |s| && Available(c, Elements(required), Elements(s[..n]), x)
             && s[n] in c && c[x].name == c[s[n]].name
    ensures var s := InstallOrder(c, selected); Sooner(c, Search(c, t), s[..n], s[n], x)
  {
    var s, required := InstallOrder(c, selected), Search(c, selected);
    assert Sooner(c, required, s[..n], s[n], x);
    if x == s[n] {
      FirstInEither(Search(c, t), x, x);
    } else if Since(c, s[..n], x) == Since(c, s[..n], s[n]) {
      LaterInResult(c, required, s, n, x);
      assert TogetherAt(c, s, n, x);
      forall r | r in t ensures ListedFirst(Search(c, [r]), s[n], x) {
        assert r in Elements(t);
      }
      AllListFirst(c, t, s[n], x);
    }
  }

  lemma LaterInResult(c: Catalog, required: seq<AppId>, s: seq<AppId>, n: nat, x: AppId)
    requires IsResult(c, required, s) && n < |s| && x != s[n]
    requires Available(c, Elements(required), Elements(s[..n]), x)
    ensures x in s[n + 1..]
  {
    assert x in Elements(s);
    assert s == s[..n] + [s[n]] + s[n + 1..];
  }

  lemma SameRequired(c: Catalog, selected: seq<AppId>, t: seq<AppId>)
    requires WellFounded(c, Elements(selected)) && Elements(t) == Elements(selected)
    ensures Elements(Search(c, t)) == Elements(Search(c, selected))
  {
    SearchIsTopological(c, selected);
    SearchIsTopological(c, t);
  }

  lemma SettledKeepsOrder(c: Catalog, selected: seq<AppId>, t: seq<AppId>)
    requires WellFounded(c, Elements(selected)) && Elements(t) == Elements(selected) && Settled(c, selected)
    ensures InstallOrder(c, t) == InstallOrder(c, selected)
  {
    var s := InstallOrder(c, selected);
    SameRequired(c, selected, t);
    forall n, x | 0 <= n < |s| && s[n] in c && Available(c, Elements(Search(c, t)), Elements(s[..n]), x)
                  && c[x].name == c[s[n]].name
      ensures Sooner(c, Search(c, t), s[..n], s[n], x)
    {
      TiesKeptElsewhere(c, selected, t, n, x);
    }
    ResultIsUnique(c, Search(c, t), s, InstallOrder(c, t));
  }

  /** Selecting `r` first changes the order. */
  lemma LeaderChangesOrder(c: Catalog, selected: seq<AppId>, t: seq<AppId>, n: nat, x: AppId)
    requires WellFounded(c, Elements(selected)) && Elements(t) == Elements(selected) && t != []
    requires TogetherAt(c, InstallOrder(c, selected), n, x)
    requires !ListedFirst(Search(c, [t[0]]), InstallOrder(c, selected)[n], x)
    ensures InstallOrder(c, t) != InstallOrder(c, selected)
  {
    var s := InstallOrder(c, selected);
    assert t == [t[0]] + t[1..];
    LeaderDecides(c, t[0], t[1..], s[n], x);
    SameRequired(c, selected, t);
    TiedWasAvailable(c, Search(c, selected), s, n, x);
    assert !Sooner(c, Search(c, t), s[..n], s[n], x);
  }

  lemma TiedWasAvailable(c: Catalog, required: seq<AppId>, s: seq<AppId>, n: nat, x: AppId)
    requires IsResult(c, required, s) && TieAt(c, s, n, x)
    ensures Available(c, Elements(required), Elements(s[..n]), x)
  {
    TiedDiffer(c, s, n, x);
    assert x in Elements(s);
    var k :| 0 <= k < |s[n + 1..]| && s[n + 1..][k] == x;
    forall i | 0 <= i < n ensures s[i] != x {
      assert s[n + 1 + k] == x;
    }
  }

  /** One of the selected applications moved to the front. */
  lemma Front(selected: seq<AppId>, r: AppId) returns (t: seq<AppId>)
    requires r in selected
    ensures t != [] && t[0] == r && multiset(t) == multiset(selected) && Elements(t) == Elements(selected)
  {
    var k :| 0 <= k < |selected| && selected[k] == r;
    t := [r] + (selected[..k] + selected[k + 1..]);
    assert selected == selected[..k] + [selected[k]] + selected[k + 1..];
    forall x ensures x in t <==> x in selected {
      assert x in multiset(t) <==> x in multiset(selected);
    }
  }

  ghost predicate OrderStays(c: Catalog, selected: seq<AppId>, t: seq<AppId>)
    requires WellFounded(c, Elements(selected)) && Elements(t) == Elements(selected)
  {
    InstallOrder(c, t) == InstallOrder(c, selected)
  }

  /** The resolver's result is the same for every order (and repetition) of the selected applications if
      and only if the ties are settled; otherwise some permutation of the selection changes it. */
  lemma OrderKeptIff(c: Catalog, selected: seq<AppId>)
    requires WellFounded(c, Elements(selected))
    ensures (forall t: seq<AppId> :: Elements(t) == Elements(selected) ==> OrderStays(c, selected, t)) <==>
            Settled(c, selected)
    ensures !Settled(c, selected) ==>
              exists t: seq<AppId> :: Elements(t) == Elements(selected) && multiset(t) == multiset(selected)
                                      && !OrderStays(c, selected, t)
  {
    if Settled(c, selected) {
      forall t: seq<AppId> | Elements(t) == Elements(selected) ensures OrderStays(c, selected, t) {
        SettledKeepsOrder(c, selected, t);
      }
    } else {
      var s := InstallOrder(c, selected);
      var n: nat, x, r :| TogetherAt(c, s, n, x) && r in selected && !ListedFirst(Search(c, [r]), s[n], x);
      var t := Front(selected, r);
      LeaderChangesOrder(c, selected, t, n, x);
      assert !OrderStays(c, selected, t);
    }
  }

  lemma NoTieSettles(c: Catalog, selected: seq<AppId>)
    requires WellFounded(c, Elements(selected)) && !Tie(c, InstallOrder(c, selected))
    ensures Settled(c, selected)
  {
  }

  /** With distinct names there is nothing to settle. */
  lemma DistinctNamesSettle(c: Catalog, selected: seq<AppId>)
    requires WellFounded(c, Elements(selected)) && DistinctNames(c, Elements(selected))
    ensures Settled(c, selected)
  {
    ResultIsInstallOrder(c, selected);
    DistinctNamesDoNotTie(c, Elements(selected), InstallOrder(c, selected));
    NoTieSettles(c, selected);
  }

  /** Application 2 has the name of application 1, but becomes available only after application 0. */
  const LATE: Catalog := map[0 := AppNode("A", true, {}), 1 := AppNode("B", true, {}), 2 := AppNode("B", true, {0})]

  lemma VisitAlone(c: Catalog, gray: set<AppId>, x: AppId)
    requires x in c && c[x].deps == {} && x !in gray
    ensures Visited(c, gray, x, NOTHING) == Found({x}, [x])
  {
    assert AscendingOf({}) == [];
  }

  lemma {:induction false} VisitWithOne(c: Catalog, x: AppId, d: AppId)
    requires x in c && d in c && x != d && c[x].deps == {d} && c[d].deps == {}
    ensures Visited(c, {}, x, NOTHING) == Found({d, x}, [d, x])
  {
    var none: set<AppId> := {};
    OnlyOne(d);
    VisitAlone(c, none + {x}, d);
    VisitOne(c, none + {x}, d, NOTHING);
    VisitEnds(c, none, x, NOTHING, Found({d}, [d]));
    assert {d} + {x} == {d, x} && [d] + [x] == [d, x];
  }

  lemma OnlyOne(d: AppId)
    ensures AscendingOf({d}) == [d]
  {
    AscendingIsUnique(AscendingOf({d}), [d]);
  }

  lemma SearchOfTwo(c: Catalog, a: AppId, b: AppId)
    ensures var first, second := Visited(c, {}, a, NOTHING), Visited(c, {}, b, NOTHING);
            Search(c, [a, b]) == first.required + Without(second.required, first.black)
  {
    SearchInTurn(c, a, [b]);
    SearchInTurn(c, b, []);
    assert [a] + [b] == [a, b];
  }

  lemma LateSearch()
    ensures Search(LATE, [1, 2]) == [1, 0, 2]
  {
    SearchOfTwo(LATE, 1, 2);
    VisitAlone(LATE, {}, 1);
    VisitWithOne(LATE, 2, 0);
    WithoutOther(0, 2, 1);
  }

  lemma WithoutOther(x: AppId, y: AppId, z: AppId)
    requires z != x && z != y
    ensures Without([x, y], {z}) == [x, y]
  {
    assert [x, y][1..] == [y] && [y][1..] == [];
    assert Without([y], {z}) == [y];
  }

  lemma LateIsTopological(s: seq<AppId>)
    requires s == [1, 0, 2] || s == [0, 1, 2]
    ensures Distinct(s) && Topological(LATE, s) && Elements(s) == {0, 1, 2}
  {
    assert s[..2] == [s[0], s[1]];
  }

  /** What is available where. */
  lemma LateAvailable(n: nat, x: AppId)
    requires n < 3 && Available(LATE, {0, 1, 2}, Elements([0, 1, 2][..n]), x)
    ensures n == 0 ==> x == 0 || x == 1
    ensures n == 1 ==> x == 1 || (x == 2 && Since(LATE, [0, 1, 2][..n], x) == 1 && Since(LATE, [0, 1, 2][..n], 1) == 0)
    ensures n == 2 ==> x == 2
  {
    var p: seq<AppId> := [0, 1, 2][..n];
    assert n == 0 ==> p == [];
    assert n == 1 ==> p == [0] && p[..0] == [];
    assert n == 2 ==> p == [0, 1];
  }

  lemma LateResult()
    ensures IsResult(LATE, [1, 0, 2], [0, 1, 2])
  {
    var s: seq<AppId>, required: seq<AppId> := [0, 1, 2], [1, 0, 2];
    LateIsTopological(required);
    LateIsTopological(s);
    forall n: nat, x | n < 3 && Available(LATE, {0, 1, 2}, Elements(s[..n]), x)
      ensures Le(LATE[s[n]].name, LATE[x].name)
      ensures LATE[x].name == LATE[s[n]].name ==> Sooner(LATE, required, s[..n], s[n], x)
    {
      LateAvailable(n, x);
      LeTotal(LATE[x].name, LATE[x].name);
      FirstInEither(required, x, x);
    }
  }

  /** There is a tie, so the specification admits two orders, but the resolver returns the same one for
      every order of the selection. */
  lemma LateTieIsSettled()
    ensures WellFounded(LATE, Elements([1, 2])) && Settled(LATE, [1, 2])
    ensures InstallOrder(LATE, [1, 2]) == [0, 1, 2] && TieAt(LATE, [0, 1, 2], 1, 2)
  {
    var s: seq<AppId> := [0, 1, 2];
    LateIsTopological(s);
    TopologicalIsWellFounded(LATE, Elements([1, 2]), s);
    LateSearch();
    LateResult();
    ResultIsUnique(LATE, [1, 0, 2], s, InstallOrder(LATE, [1, 2]));
    LateTies();
  }

  lemma LateTies()
    ensures TieAt(LATE, [0, 1, 2], 1, 2) && forall n: nat, x :: !TogetherAt(LATE, [0, 1, 2], n, x)
  {
    var s: seq<AppId> := [0, 1, 2];
    LateIsTopological(s);
    assert s[2..] == [2] && s[..1] == [0] && s[..1][..0] == [];
    forall n: nat, x ensures !TogetherAt(LATE, s, n, x) {
      if TieAt(LATE, s, n, x) {
        TiedDiffer(LATE, s, n, x);
        assert n == 1 ==> x == 2;
      }
    }
  }

  // ---------------------------------------------------------------- which edits keep names distinct

  predicate UniqueNames(c: Catalog) { forall x, y :: x in c && y in c && c[x].name == c[y].name ==> x == y }

  /** Creating and deleting keep the names of a catalog distinct; an update does if and only if no
      other application has the new name, which nothing checks. */
  lemma EditKeepsNamesIff(c: Catalog, e: Edit)
    requires UniqueNames(c) && Commits(c, e)
    ensures UniqueNames(Edited(c, e)) <==>
            (e.Update? || e.UpdateDeps? ==> forall x :: x in c && x != e.id ==> c[x].name != e.name)
  {
    var d := Edited(c, e);
    if (e.Update? || e.UpdateDeps?) && UniqueNames(d) {
      forall x | x in c && x != e.id ensures c[x].name != e.name {
        assert x in d && e.id in d && d[x] == c[x] && d[e.id].name == e.name;
      }
    }
  }

  /** Two applications without dependencies. */
  function Pair(second: string): Catalog { map[0 := AppNode("Agent", true, {}), 1 := AppNode(second, true, {})] }

  lemma FirstIsCreated()
    ensures Commits(map[], Create(0, "Agent", true, []))
    ensures Edited(map[], Create(0, "Agent", true, [])) == map[0 := AppNode("Agent", true, {})]
  {
    var c: Catalog := map[0 := AppNode("Agent", true, {})];
    assert Elements<AppId>([]) == {};
    TopologicalIsWellFounded(c, c.Keys, [0]);
  }

  lemma SecondIsCreated()
    ensures var c: Catalog, e := map[0 := AppNode("Agent", true, {})], Create(1, "Console", true, []);
            Commits(c, e) && Edited(c, e) == Pair("Console")
  {
    assert Elements<AppId>([]) == {};
    EdgelessIsSound(Pair("Console"));
  }

  /** After renaming one application like another, the order in which the two are selected is the order
      in which they are installed. */
  lemma RenamingChangesOrder() returns (cs: seq<Catalog>, es: seq<Edit>)
    ensures EditHistory(cs, es) && WellFounded(cs[|es|], Elements([0, 1])) && WellFounded(cs[|es|], Elements([1, 0]))
    ensures InstallOrder(cs[|es|], [0, 1]) == [0, 1] && InstallOrder(cs[|es|], [1, 0]) == [1, 0]
  {
    cs := [map[], map[0 := AppNode("Agent", true, {})], Pair("Console"), Pair("Agent")];
    es := [Create(0, "Agent", true, []), Create(1, "Console", true, []), Update(1, "Agent", true)];
    FirstIsCreated();
    SecondIsCreated();
    OrderOfPair(Pair("Agent"), 0, 1);
    OrderOfPair(Pair("Agent"), 1, 0);
  }

  lemma OrderOfPair(c: Catalog, a: AppId, b: AppId)
    requires c.Keys == {0, 1} && c[0].deps == {} && c[1].deps == {} && c[0].name == c[1].name
    requires (a == 0 && b == 1) || (a == 1 && b == 0)
    ensures WellFounded(c, Elements([a, b])) && InstallOrder(c, [a, b]) == [a, b]
  {
    var s := [a, b];
    EdgelessTopological(c, s);
    TopologicalIsWellFounded(c, Elements(s), s);
    SearchOfPair(c, a, b);
    ResultOfPair(c, a, b);
    ResultIsUnique(c, s, s, InstallOrder(c, s));
  }

  lemma SearchOfPair(c: Catalog, a: AppId, b: AppId)
    requires a in c && b in c && c[a].deps == {} && c[b].deps == {} && a != b
    ensures Search(c, [a, b]) == [a, b]
  {
    SearchOfTwo(c, a, b);
    VisitAlone(c, {}, a);
    VisitAlone(c, {}, b);
  }

  lemma ResultOfPair(c: Catalog, a: AppId, b: AppId)
    requires c.Keys == {0, 1} && c[0].deps == {} && c[1].deps == {} && c[0].name == c[1].name
    requires (a == 0 && b == 1) || (a == 1 && b == 0)
    ensures IsResult(c, [a, b], [a, b])
  {
    var s := [a, b];
    EdgelessTopological(c, s);
    LeTotal(c[a].name, c[a].name);
    FirstInEither(s, b, b);
    forall n: nat, x | n < |s| && Available(c, Elements(s), Elements(s[..n]), x) ensures Sooner(c, s, s[..n], s[n], x) {
      assert x in Elements(s) && (n == 1 ==> s[..n] == [a]);
    }
  }

  lemma EdgelessTopological(c: Catalog, s: seq<AppId>)
    requires c.Keys == {0, 1} && c[0].deps == {} && c[1].deps == {} && (s == [0, 1] || s == [1, 0])
    ensures Distinct(s) && Topological(c, s) && Elements(s) == {0, 1}
  {
  }
}
