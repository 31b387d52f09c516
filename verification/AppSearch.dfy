/** The depth-first search as a function: which applications it lists, and in which order. */
module AppSearch {
  import opened AppGraph

  // ---------------------------------------------------------------- ids in order

  ghost predicate Ascending(s: seq<AppId>) { forall i, j :: 0 <= i < j < |s| ==> s[i] < s[j] }

  lemma {:induction false} Least(ids: set<AppId>) returns (x: AppId)
    requires ids != {}
    ensures x in ids && forall y :: y in ids ==> x <= y
  {
    var a :| a in ids;
    if ids == {a} {
      x := a;
    } else {
      assert ids - {a} != {};
      var b := Least(ids - {a});
      x := if a <= b then a else b;
      assert ids == (ids - {a}) + {a};
    }
  }

  lemma HasLeast(ids: set<AppId>)
    requires ids != {}
    ensures exists x :: x in ids && forall y :: y in ids ==> x <= y
  {
    var x := Least(ids);
    assert x in ids && forall y :: y in ids ==> x <= y;
  }

  ghost function AscendingOf(ids: set<AppId>): (s: seq<AppId>)
    ensures Ascending(s) && forall x :: x in s <==> x in ids
  {
    if ids == {} then []
    else
      HasLeast(ids);
      var x :| x in ids && forall y :: y in ids ==> x <= y;
      [x] + AscendingOf(ids - {x})
  }

  lemma AscendingTail(s: seq<AppId>, x: AppId)
    requires Ascending(s) && s != []
    ensures x in s[1..] <==> x in s && x != s[0]
    ensures x in s ==> s[0] <= x
  {
    assert s == [s[0]] + s[1..];
    if x in s {
      var i :| 0 <= i < |s| && s[i] == x;
      assert i > 0 ==> s[1..][i - 1] == x;
    }
  }

  lemma BothEmpty(s: seq<AppId>, t: seq<AppId>)
    requires forall x :: x in s <==> x in t
    ensures s == [] <==> t == []
    ensures s != [] ==> s[0] in t && t[0] in s
  {
    if s != [] {
      assert s[0] in s;
    }
    if t != [] {
      assert t[0] in t;
    }
  }

  lemma {:induction false} AscendingIsUnique(s: seq<AppId>, t: seq<AppId>)
    requires Ascending(s) && Ascending(t) && forall x :: x in s <==> x in t
    ensures s == t
  {
    BothEmpty(s, t);
    if s != [] {
      AscendingTail(s, t[0]);
      AscendingTail(t, s[0]);
      forall x ensures x in s[1..] <==> x in t[1..] {
        AscendingTail(s, x);
        AscendingTail(t, x);
      }
      AscendingIsUnique(s[1..], t[1..]);
      assert s == [s[0]] + s[1..] && t == [t[0]] + t[1..];
    }
  }

  // ---------------------------------------------------------------- the search

  /** The black ids, and those of them that exist in the order in which they turned black. */
  datatype Found = Found(black: set<AppId>, required: seq<AppId>)

  const NOTHING := Found({}, [])

  ghost function Visited(c: Catalog, gray: set<AppId>, id: AppId, f: Found): Found
    decreases c.Keys - gray, 0, 0
  {
    if id in f.black || id in gray then f
    else if id !in c then f.(black := f.black + {id})
    else
      var g := VisitedAll(c, gray + {id}, AscendingOf(c[id].deps), f);
      Found(g.black + {id}, g.required + [id])
  }

  ghost function VisitedAll(c: Catalog, gray: set<AppId>, ids: seq<AppId>, f: Found): Found
    decreases c.Keys - gray, 1, |ids|
  {
    if ids == [] then f else VisitedAll(c, gray, ids[1..], Visited(c, gray, ids[0], f))
  }

  lemma VisitEnds(c: Catalog, gray: set<AppId>, id: AppId, f: Found, g: Found)
    requires id !in f.black && id !in gray && id in c && g == VisitedAll(c, gray + {id}, AscendingOf(c[id].deps), f)
    ensures Visited(c, gray, id, f) == Found(g.black + {id}, g.required + [id])
  {
  }

  lemma {:induction false} VisitOne(c: Catalog, gray: set<AppId>, id: AppId, f: Found)
    ensures VisitedAll(c, gray, [id], f) == Visited(c, gray, id, f)
  {
    assert [id][1..] == [];
  }

  /** One turn of a loop over `ids`. */
  lemma VisitNext(c: Catalog, gray: set<AppId>, ids: seq<AppId>, i: nat, f: Found)
    requires i < |ids|
    ensures VisitedAll(c, gray, ids[i..], f) == VisitedAll(c, gray, ids[i + 1..], Visited(c, gray, ids[i], f))
  {
    assert ids[i..][1..] == ids[i + 1..];
  }

  /** What the search lists for a selection. */
  ghost function Search(c: Catalog, selected: seq<AppId>): seq<AppId> { VisitedAll(c, {}, selected, NOTHING).required }

  // ---------------------------------------------------------------- what every visit keeps

  /** The listed ids are the black ones that exist, each once. */
  ghost predicate Lists(c: Catalog, f: Found) {
    Distinct(f.required) && forall x :: x in f.required <==> x in f.black && x in c
  }

  /** Whatever a member depends on is a member or gray. */
  ghost predicate ClosedBut(c: Catalog, gray: set<AppId>, s: set<AppId>) {
    forall x, d :: x in s && x in c && d in c[x].deps ==> d in s || d in gray
  }

  ghost predicate Grows(f: Found, g: Found) { f.black <= g.black && f.required <= g.required }

  lemma {:induction false} VisitKeeps(c: Catalog, gray: set<AppId>, id: AppId, f: Found)
    requires Lists(c, f) && f.black !! gray && ClosedBut(c, gray, f.black)
    ensures var g := Visited(c, gray, id, f);
            && Lists(c, g) && g.black !! gray && ClosedBut(c, gray, g.black) && Grows(f, g)
            && (id in g.black || id in gray)
    decreases c.Keys - gray, 0, 0
  {
    if id !in f.black && id !in gray && id in c {
      var deps := AscendingOf(c[id].deps);
      VisitsKeep(c, gray + {id}, deps, f);
      var g := VisitedAll(c, gray + {id}, deps, f);
      assert id !in g.black && forall d :: d in c[id].deps ==> d in deps;
    }
  }

  lemma {:induction false} VisitsKeep(c: Catalog, gray: set<AppId>, ids: seq<AppId>, f: Found)
    requires Lists(c, f) && f.black !! gray && ClosedBut(c, gray, f.black)
    ensures var g := VisitedAll(c, gray, ids, f);
            && Lists(c, g) && g.black !! gray && ClosedBut(c, gray, g.black) && Grows(f, g)
            && (forall x :: x in ids ==> x in g.black || x in gray)
    decreases c.Keys - gray, 1, |ids|
  {
    if ids != [] {
      VisitKeeps(c, gray, ids[0], f);
      VisitsKeep(c, gray, ids[1..], Visited(c, gray, ids[0], f));
      assert ids == [ids[0]] + ids[1..];
    }
  }

  /** A visit does not leave a closed set. */
  lemma {:induction false} VisitStaysIn(c: Catalog, gray: set<AppId>, id: AppId, f: Found, s: set<AppId>)
    requires f.black <= s && ClosedBut(c, gray, s) && (id in s || id in gray)
    ensures Visited(c, gray, id, f).black <= s
    decreases c.Keys - gray, 0, 0
  {
    if id !in f.black && id !in gray && id in c {
      VisitsStayIn(c, gray + {id}, AscendingOf(c[id].deps), f, s);
    }
  }

  lemma {:induction false} VisitsStayIn(c: Catalog, gray: set<AppId>, ids: seq<AppId>, f: Found, s: set<AppId>)
    requires f.black <= s && ClosedBut(c, gray, s) && forall x :: x in ids ==> x in s || x in gray
    ensures VisitedAll(c, gray, ids, f).black <= s
    decreases c.Keys - gray, 1, |ids|
  {
    if ids != [] {
      VisitStaysIn(c, gray, ids[0], f, s);
      VisitsStayIn(c, gray, ids[1..], Visited(c, gray, ids[0], f), s);
    }
  }

  // ---------------------------------------------------------------- searching after other searches

  function Without(s: seq<AppId>, b: set<AppId>): (r: seq<AppId>)
    ensures forall x :: x in r <==> x in s && x !in b
  {
    if s == [] then []
    else
      assert s == [s[0]] + s[1..];
      if s[0] in b then Without(s[1..], b) else [s[0]] + Without(s[1..], b)
  }

  lemma {:induction false} WithoutConcat(s: seq<AppId>, t: seq<AppId>, b: set<AppId>)
    ensures Without(s + t, b) == Without(s, b) + Without(t, b)
  {
    if s == [] {
      assert s + t == t;
    } else {
      assert (s + t)[1..] == s[1..] + t;
      WithoutConcat(s[1..], t, b);
    }
  }

  lemma {:induction false} WithoutTwice(s: seq<AppId>, a: set<AppId>, b: set<AppId>)
    ensures Without(Without(s, a), b) == Without(s, a + b)
  {
    if s != [] {
      WithoutTwice(s[1..], a, b);
      if s[0] !in a {
        assert Without(s, a) == [s[0]] + Without(s[1..], a);
        assert Without(s, a)[1..] == Without(s[1..], a);
      }
    }
  }

  lemma {:induction false} WithoutAll(s: seq<AppId>, b: set<AppId>)
    requires forall x :: x in s ==> x in b
    ensures Without(s, b) == []
  {
    if Without(s, b) != [] {
      assert Without(s, b)[0] in Without(s, b);
    }
  }

  /** `g` is `f` and then what `e` found on its own, less what `f` had already. */
  ghost predicate Adds(f: Found, e: Found, g: Found) {
    g.black == f.black + e.black && g.required == f.required + Without(e.required, f.black)
  }

  lemma AgainAddsNothing(c: Catalog, gray: set<AppId>, id: AppId, f: Found)
    requires ClosedBut(c, gray, f.black) && id in f.black
    ensures Adds(f, Visited(c, gray, id, NOTHING), f)
  {
    var e := Visited(c, gray, id, NOTHING);
    VisitStaysIn(c, gray, id, NOTHING, f.black);
    VisitKeeps(c, gray, id, NOTHING);
    WithoutAll(e.required, f.black);
  }

  /** What a visit adds does not depend on earlier visits, but for leaving out what they found. */
  lemma {:induction false} VisitAdds(c: Catalog, gray: set<AppId>, id: AppId, f: Found)
    requires Lists(c, f) && f.black !! gray && ClosedBut(c, gray, f.black)
    ensures Adds(f, Visited(c, gray, id, NOTHING), Visited(c, gray, id, f))
    decreases c.Keys - gray, 0, 0
  {
    if id in f.black {
      AgainAddsNothing(c, gray, id, f);
    } else if id !in gray && id in c {
      var deps := AscendingOf(c[id].deps);
      VisitsAdd(c, gray + {id}, deps, f);
      WithoutConcat(VisitedAll(c, gray + {id}, deps, NOTHING).required, [id], f.black);
    }
  }

  lemma {:induction false} VisitsAdd(c: Catalog, gray: set<AppId>, ids: seq<AppId>, f: Found)
    requires Lists(c, f) && f.black !! gray && ClosedBut(c, gray, f.black)
    ensures Adds(f, VisitedAll(c, gray, ids, NOTHING), VisitedAll(c, gray, ids, f))
    decreases c.Keys - gray, 1, |ids|
  {
    if ids != [] {
      VisitAdds(c, gray, ids[0], f);
      VisitKeeps(c, gray, ids[0], f);
      VisitKeeps(c, gray, ids[0], NOTHING);
      VisitsAdd(c, gray, ids[1..], Visited(c, gray, ids[0], f));
      VisitsAdd(c, gray, ids[1..], Visited(c, gray, ids[0], NOTHING));
      AddsInTurn(f, Visited(c, gray, ids[0], NOTHING), Visited(c, gray, ids[0], f),
                 VisitedAll(c, gray, ids[1..], NOTHING), VisitedAll(c, gray, ids, NOTHING),
                 VisitedAll(c, gray, ids, f));
    }
  }

  lemma Associative(a: seq<AppId>, b: seq<AppId>, d: seq<AppId>)
    ensures (a + b) + d == a + (b + d)
  {
  }

  lemma AddsInTurn(f: Found, e1: Found, g1: Found, e2: Found, e: Found, g: Found)
    requires Adds(f, e1, g1) && Adds(e1, e2, e) && Adds(g1, e2, g)
    ensures Adds(f, e, g)
  {
    var own, late := Without(e1.required, f.black), Without(e2.required, g1.black);
    WithoutConcat(e1.required, Without(e2.required, e1.black), f.black);
    WithoutTwice(e2.required, e1.black, f.black);
    assert e1.black + f.black == g1.black;
    assert Without(e.required, f.black) == own + late;
    Associative(f.required, own, late);
  }

  // ---------------------------------------------------------------- searching two catalogs

  /** The catalogs agree on a set that no dependency leaves. */
  ghost predicate AgreeOn(c: Catalog, d: Catalog, s: set<AppId>) {
    forall x :: x in s ==> x in c && x in d && c[x] == d[x] && c[x].deps <= s
  }

  lemma {:induction false} VisitSame(c: Catalog, d: Catalog, s: set<AppId>, gray: set<AppId>, id: AppId, f: Found)
    requires AgreeOn(c, d, s) && id in s
    ensures Visited(c, gray, id, f) == Visited(d, gray, id, f)
    decreases c.Keys - gray, 0, 0
  {
    if id !in f.black && id !in gray {
      VisitsSame(c, d, s, gray + {id}, AscendingOf(c[id].deps), f);
    }
  }

  lemma {:induction false} VisitsSame(c: Catalog, d: Catalog, s: set<AppId>, gray: set<AppId>, ids: seq<AppId>,
                                      f: Found)
    requires AgreeOn(c, d, s) && forall x :: x in ids ==> x in s
    ensures VisitedAll(c, gray, ids, f) == VisitedAll(d, gray, ids, f)
    decreases c.Keys - gray, 1, |ids|
  {
    if ids != [] {
      VisitSame(c, d, s, gray, ids[0], f);
      VisitsSame(c, d, s, gray, ids[1..], Visited(c, gray, ids[0], f));
    }
  }

  // ---------------------------------------------------------------- who is listed first

  /** Going through the list, `b` is not met before `a`. */
  predicate ListedFirst(s: seq<AppId>, a: AppId, b: AppId) {
    s != [] ==> s[0] == a || (s[0] != b && ListedFirst(s[1..], a, b))
  }

  lemma {:induction false} FirstInEither(s: seq<AppId>, a: AppId, b: AppId)
    ensures ListedFirst(s, a, b) || ListedFirst(s, b, a)
    ensures ListedFirst(s, a, b) && ListedFirst(s, b, a) && (a in s || b in s) ==> a == b
    ensures ListedFirst(s, a, b) && b in s ==> a in s
  {
    if s != [] {
      FirstInEither(s[1..], a, b);
      assert s == [s[0]] + s[1..];
    }
  }

  lemma {:induction false} FirstTransitive(s: seq<AppId>, a: AppId, b: AppId, d: AppId)
    requires ListedFirst(s, a, b) && ListedFirst(s, b, d)
    ensures ListedFirst(s, a, d)
  {
    if s != [] && s[0] != a {
      FirstTransitive(s[1..], a, b, d);
    }
  }

  lemma {:induction false} FirstInConcat(s: seq<AppId>, t: seq<AppId>, a: AppId, b: AppId)
    ensures ListedFirst(s + t, a, b) <==> if a in s || b in s then ListedFirst(s, a, b) else ListedFirst(t, a, b)
  {
    if s == [] {
      assert s + t == t;
    } else {
      assert (s + t)[1..] == s[1..] + t && s == [s[0]] + s[1..];
      FirstInConcat(s[1..], t, a, b);
      FirstInEither(s[1..], a, b);
    }
  }

  lemma {:induction false} FirstInWithout(s: seq<AppId>, black: set<AppId>, a: AppId, b: AppId)
    requires ListedFirst(s, a, b) && a !in black
    ensures ListedFirst(Without(s, black), a, b)
  {
    if s != [] && s[0] != a {
      FirstInWithout(s[1..], black, a, b);
      assert s[0] !in black ==> Without(s, black)[1..] == Without(s[1..], black);
    }
  }

  lemma {:induction false} AtDistinct(s: seq<AppId>, i: nat, j: nat)
    requires Distinct(s) && i < |s| && j < |s|
    ensures ListedFirst(s, s[i], s[j]) <==> i <= j
  {
    if i > 0 && j > 0 {
      assert s[1..][i - 1] == s[i] && s[1..][j - 1] == s[j];
      AtDistinct(s[1..], i - 1, j - 1);
    }
  }

  /** The search for several applications: that for the first, then what the others add. */
  lemma SearchInTurn(c: Catalog, r: AppId, rest: seq<AppId>)
    ensures var first := Visited(c, {}, r, NOTHING);
            && Search(c, [r] + rest) == first.required + Without(Search(c, rest), first.black)
            && Search(c, [r]) == first.required && Lists(c, first)
  {
    var first := Visited(c, {}, r, NOTHING);
    VisitKeeps(c, {}, r, NOTHING);
    VisitsAdd(c, {}, rest, first);
    assert ([r] + rest)[1..] == rest && [r][1..] == [];
    assert VisitedAll(c, {}, [], first) == first;
  }

  /** If every selected application, searched alone, lists `a` first, so does the whole search. */
  lemma {:induction false} AllListFirst(c: Catalog, selected: seq<AppId>, a: AppId, b: AppId)
    requires a in c && forall r :: r in selected ==> ListedFirst(Search(c, [r]), a, b)
    ensures ListedFirst(Search(c, selected), a, b)
  {
    if selected != [] {
      var r, rest := selected[0], selected[1..];
      assert selected == [r] + rest;
      AllListFirst(c, rest, a, b);
      SearchInTurn(c, r, rest);
      var first := Visited(c, {}, r, NOTHING);
      FirstInConcat(first.required, Without(Search(c, rest), first.black), a, b);
      if a !in first.required {
        FirstInWithout(Search(c, rest), first.black, a, b);
      }
    }
  }

  /** The application searched first decides, if it leads to either. */
  lemma LeaderDecides(c: Catalog, r: AppId, rest: seq<AppId>, a: AppId, b: AppId)
    requires !ListedFirst(Search(c, [r]), a, b)
    ensures !ListedFirst(Search(c, [r] + rest), a, b)
  {
    SearchInTurn(c, r, rest);
    var first := Visited(c, {}, r, NOTHING);
    FirstInConcat(first.required, Without(Search(c, rest), first.black), a, b);
    NotFirstIsListed(first.required, a, b);
  }

  lemma {:induction false} NotFirstIsListed(s: seq<AppId>, a: AppId, b: AppId)
    requires !ListedFirst(s, a, b)
    ensures b in s
  {
    if s[0] != b {
      NotFirstIsListed(s[1..], a, b);
    }
  }

  // ---------------------------------------------------------------- the search of a sound selection

  /** The gray applications: a path from a selected one. */
  ghost predicate IsChain(c: Catalog, roots: set<AppId>, chain: seq<AppId>) {
    && Distinct(chain) && (forall x :: x in chain ==> x in c)
    && (chain != [] ==> chain[0] in roots && IsPath(c, chain))
  }

  /** A dependency of the chain's last element, or a selected application. */
  ghost predicate Due(c: Catalog, roots: set<AppId>, chain: seq<AppId>, id: AppId) {
    if chain == [] then id in roots else Edge(c, chain[|chain| - 1], id)
  }

  lemma DueIsReachable(c: Catalog, roots: set<AppId>, chain: seq<AppId>, id: AppId)
    requires IsChain(c, roots, chain) && Due(c, roots, chain, id)
    ensures Reachable(c, roots, id)
    ensures forall i :: 0 <= i < |chain| ==> Reachable(c, roots, chain[i])
  {
    forall i | 0 <= i < |chain| ensures Reachable(c, roots, chain[i]) {
      assert PathTo(c, roots, chain[..i + 1], chain[i]);
    }
    if chain == [] {
      RootReachable(c, roots, id);
    } else {
      EdgeReachable(c, roots, chain[|chain| - 1], id);
    }
  }

  /** Meeting a gray application again means a cycle. */
  lemma GrayMeansCycle(c: Catalog, roots: set<AppId>, chain: seq<AppId>, id: AppId, start: nat)
    requires IsChain(c, roots, chain) && Due(c, roots, chain, id) && start < |chain| && chain[start] == id
    ensures !WellFounded(c, roots)
  {
    DueIsReachable(c, roots, chain, id);
    var cycle := chain[start..] + [id];
    assert IsCycle(c, cycle);
  }

  /** Dependencies first, and nothing unreachable or missing. */
  ghost predicate InTurn(c: Catalog, roots: set<AppId>, f: Found) {
    && Distinct(f.required) && Topological(c, f.required) && Elements(f.required) == f.black
    && forall x :: x in f.required ==> Reachable(c, roots, x)
  }

  lemma {:induction false} VisitInTurn(c: Catalog, roots: set<AppId>, chain: seq<AppId>, id: AppId, f: Found)
    requires WellFounded(c, roots) && IsChain(c, roots, chain) && Due(c, roots, chain, id)
    requires InTurn(c, roots, f) && f.black !! Elements(chain)
    ensures var g := Visited(c, Elements(chain), id, f);
            InTurn(c, roots, g) && g.black !! Elements(chain) && f.black + {id} <= g.black
    decreases c.Keys - Elements(chain), 0, 0
  {
    DueIsReachable(c, roots, chain, id);
    if id in Elements(chain) {
      var start :| 0 <= start < |chain| && chain[start] == id;
      GrayMeansCycle(c, roots, chain, id, start);
    }
    if id !in f.black {
      var next, deps := chain + [id], AscendingOf(c[id].deps);
      assert Elements(next) == Elements(chain) + {id};
      assert IsChain(c, roots, next);
      VisitsInTurn(c, roots, next, deps, f);
      AppendInTurn(c, roots, VisitedAll(c, Elements(chain) + {id}, deps, f), id);
    }
  }

  lemma {:induction false} VisitsInTurn(c: Catalog, roots: set<AppId>, chain: seq<AppId>, ids: seq<AppId>, f: Found)
    requires WellFounded(c, roots) && IsChain(c, roots, chain) && forall x :: x in ids ==> Due(c, roots, chain, x)
    requires InTurn(c, roots, f) && f.black !! Elements(chain)
    ensures var g := VisitedAll(c, Elements(chain), ids, f);
            InTurn(c, roots, g) && g.black !! Elements(chain) && f.black + Elements(ids) <= g.black
    decreases c.Keys - Elements(chain), 1, |ids|
  {
    if ids != [] {
      VisitInTurn(c, roots, chain, ids[0], f);
      VisitsInTurn(c, roots, chain, ids[1..], Visited(c, Elements(chain), ids[0], f));
      assert ids == [ids[0]] + ids[1..];
    }
  }

  lemma AppendInTurn(c: Catalog, roots: set<AppId>, f: Found, id: AppId)
    requires InTurn(c, roots, f) && id in c && id !in f.black && Reachable(c, roots, id) && c[id].deps <= f.black
    ensures InTurn(c, roots, Found(f.black + {id}, f.required + [id]))
  {
    var s := f.required + [id];
    forall i | 0 <= i < |s| ensures s[i] in c && forall d :: d in c[s[i]].deps ==> d in s[..i] {
      assert s[..i] == f.required[..i];
      assert f.required[..|f.required|] == f.required;
    }
  }

  /** A sound selection is searched without missing anything, dependencies first. */
  lemma SearchIsTopological(c: Catalog, selected: seq<AppId>)
    requires WellFounded(c, Elements(selected))
    ensures var s := Search(c, selected);
            && Distinct(s) && Topological(c, s)
            && forall x :: x in s <==> Reachable(c, Elements(selected), x)
  {
    var roots := Elements(selected);
    assert Elements<AppId>([]) == {};
    VisitsInTurn(c, roots, [], selected, NOTHING);
    assert forall x :: x in roots ==> x in Search(c, selected);
    TopologicalIsWellFounded(c, roots, Search(c, selected));
  }

  // ---------------------------------------------------------------- what determines the search

  /** Gray applications that a topological beginning does not hold play no part in searching it. */
  lemma {:induction false} GrayAside(c: Catalog, s: seq<AppId>, gray: set<AppId>, i: nat, f: Found)
    requires Distinct(s) && Topological(c, s) && i < |s| && forall x :: x in gray ==> x !in s[..i + 1]
    ensures Visited(c, gray, s[i], f) == Visited(c, {}, s[i], f)
    decreases i, 1, 0
  {
    var id, deps := s[i], AscendingOf(c[s[i]].deps);
    assert id in s[..i + 1];
    var none: set<AppId> := {};
    GraysAside(c, s, gray + {id}, i, deps, f);
    GraysAside(c, s, none + {id}, i, deps, f);
  }

  lemma {:induction false} GraysAside(c: Catalog, s: seq<AppId>, gray: set<AppId>, k: nat, ids: seq<AppId>, f: Found)
    requires Distinct(s) && Topological(c, s) && k <= |s| && forall x :: x in gray ==> x !in s[..k]
    requires forall x :: x in ids ==> x in s[..k]
    ensures VisitedAll(c, gray, ids, f) == VisitedAll(c, {}, ids, f)
    decreases k, 0, |ids|
  {
    if ids != [] {
      assert ids[0] in s[..k];
      var i :| 0 <= i < k && s[i] == ids[0];
      GrayAside(c, s, gray, i, f);
      GraysAside(c, s, gray, k, ids[1..], Visited(c, {}, ids[0], f));
    }
  }

  /** Searching one application of a sound catalog: its dependencies in ascending order, and then itself. */
  lemma SearchOfOne(c: Catalog, r: AppId, deps: seq<AppId>)
    requires r in c && WellFounded(c, {r})
    requires (forall x :: x in deps <==> x in c[r].deps) && forall i, j :: 0 <= i < j < |deps| ==> deps[i] < deps[j]
    ensures Search(c, [r]) == Search(c, deps) + [r]
  {
    assert Elements([r]) == {r};
    SearchIsTopological(c, [r]);
    VisitOne(c, {}, r, NOTHING);
    AscendingIsUnique(deps, AscendingOf(c[r].deps));
    DependenciesAlone(c, r, deps, VisitedAll(c, {} + {r}, deps, NOTHING).required);
  }

  lemma DependenciesAlone(c: Catalog, r: AppId, deps: seq<AppId>, front: seq<AppId>)
    requires r in c && forall x :: x in deps <==> x in c[r].deps
    requires front == VisitedAll(c, {} + {r}, deps, NOTHING).required
    requires Distinct(front + [r]) && Topological(c, front + [r])
    ensures front == Search(c, deps)
  {
    var s, n := front + [r], |front|;
    assert s[..n] == front && s[n] == r;
    GraysAside(c, s, {} + {r}, n, deps, NOTHING);
  }

  lemma {:induction false} VisitLast(c: Catalog, ids: seq<AppId>, id: AppId, f: Found)
    ensures VisitedAll(c, {}, ids + [id], f) == Visited(c, {}, id, VisitedAll(c, {}, ids, f))
  {
    if ids == [] {
      assert ids + [id] == [id];
      VisitOne(c, {}, id, f);
    } else {
      assert (ids + [id])[0] == ids[0] && (ids + [id])[1..] == ids[1..] + [id];
      VisitLast(c, ids[1..], id, Visited(c, {}, ids[0], f));
    }
  }

  /** Leaving elements out keeps the others in order. */
  lemma WithoutKeepsOrder(s: seq<AppId>, b: set<AppId>, i: nat, j: nat) returns (k: nat, l: nat)
    requires i < j < |s| && s[i] !in b && s[j] !in b
    ensures k < l < |Without(s, b)| && Without(s, b)[k] == s[i] && Without(s, b)[l] == s[j]
  {
    k, l := |Without(s[..i], b)|, |Without(s[..j], b)|;
    WithoutAt(s, b, j);
    WithoutAt(s[..j], b, i);
    assert s[..j][..i] == s[..i];
    WithoutAt(s, b, i);
  }

  lemma WithoutAt(s: seq<AppId>, b: set<AppId>, i: nat)
    requires i < |s| && s[i] !in b
    ensures var k := |Without(s[..i], b)|; k < |Without(s, b)| && Without(s, b)[k] == s[i]
  {
    assert s == s[..i] + ([s[i]] + s[i + 1..]);
    WithoutConcat(s[..i], [s[i]] + s[i + 1..], b);
    assert ([s[i]] + s[i + 1..])[0] == s[i];
  }

  /** Searching one application more: what it lists on its own and was not listed before is added at the
      end, in the same order. */
  lemma SearchOfMore(c: Catalog, selected: seq<AppId>, r: AppId)
    ensures Search(c, []) == []
    ensures var before, own, all := Search(c, selected), Search(c, [r]), Search(c, selected + [r]);
            && before <= all && (forall i, j :: 0 <= i < j < |all| ==> all[i] != all[j])
            && (forall x :: x in all <==> x in before || x in own)
            && forall i, j :: 0 <= i < j < |own| && own[i] !in before && own[j] !in before ==>
                 exists k, l :: |before| <= k < l < |all| && all[k] == own[i] && all[l] == own[j]
  {
    var f, e := VisitedAll(c, {}, selected, NOTHING), Visited(c, {}, r, NOTHING);
    var before, own, all := Search(c, selected), Search(c, [r]), Search(c, selected + [r]);
    VisitLast(c, selected, r, NOTHING);
    VisitOne(c, {}, r, NOTHING);
    VisitsKeep(c, {}, selected, NOTHING);
    VisitsKeep(c, {}, selected + [r], NOTHING);
    VisitKeeps(c, {}, r, NOTHING);
    VisitAdds(c, {}, r, f);
    assert all == before + Without(own, f.black);
    AddedKeepsOrder(own, f.black, before, all);
  }

  lemma AddedKeepsOrder(own: seq<AppId>, b: set<AppId>, before: seq<AppId>, all: seq<AppId>)
    requires all == before + Without(own, b) && forall x :: x in own ==> (x in b <==> x in before)
    ensures forall i, j :: 0 <= i < j < |own| && own[i] !in before && own[j] !in before ==>
              exists k, l :: |before| <= k < l < |all| && all[k] == own[i] && all[l] == own[j]
  {
    forall i, j | 0 <= i < j < |own| && own[i] !in before && own[j] !in before
      ensures exists k, l :: |before| <= k < l < |all| && all[k] == own[i] && all[l] == own[j]
    {
      var k, l := WithoutKeepsOrder(own, b, i, j);
      assert all[|before| + k] == own[i] && all[|before| + l] == own[j];
    }
  }
}
