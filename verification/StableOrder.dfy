/** The installation order as a function of the catalog and the list of selected applications. */
module StableOrder {
  import opened Names
  import opened AppGraph
  import opened AppSearch

  // ---------------------------------------------------------------- what is available next

  ghost predicate ClosedIn(c: Catalog, all: set<AppId>) {
    all <= c.Keys && forall x :: x in all ==> c[x].deps <= all
  }

  lemma TopologicalIsClosed(c: Catalog, s: seq<AppId>)
    requires Topological(c, s)
    ensures ClosedIn(c, Elements(s))
  {
    forall x | x in Elements(s) ensures x in c && c[x].deps <= Elements(s) {
      var i :| 0 <= i < |s| && s[i] == x;
    }
  }

  lemma NextElement(s: seq<AppId>, i: nat)
    requires Distinct(s) && i < |s|
    ensures Elements(s[..i + 1]) == Elements(s[..i]) + {s[i]}
    ensures s[i] in Elements(s) && s[i] !in Elements(s[..i])
  {
    assert s[..i + 1] == s[..i] + [s[i]];
  }

  lemma WholeSequence(s: seq<AppId>)
    ensures Elements(s[..|s|]) == Elements(s)
  {
    assert s[..|s|] == s;
  }

  /** Installed next or later: not yet emitted, all dependencies emitted. */
  predicate Available(c: Catalog, all: set<AppId>, emitted: set<AppId>, x: AppId) {
    x in all && x in c && x !in emitted && c[x].deps <= emitted
  }

  /** Each emitted application has the least name among those that were available. */
  ghost predicate GreedyIn(c: Catalog, all: set<AppId>, ordered: seq<AppId>) {
    forall n, x :: 0 <= n < |ordered| && ordered[n] in c && Available(c, all, Elements(ordered[..n]), x) ==>
      Le(c[ordered[n]].name, c[x].name)
  }

  lemma EmitTopological(c: Catalog, ordered: seq<AppId>, x: AppId)
    requires Topological(c, ordered) && Distinct(ordered)
    requires x in c && x !in Elements(ordered) && c[x].deps <= Elements(ordered)
    ensures Topological(c, ordered + [x]) && Distinct(ordered + [x])
    ensures Elements(ordered + [x]) == Elements(ordered) + {x}
  {
    var next := ordered + [x];
    forall i | 0 <= i < |next| ensures next[i] in c && forall d :: d in c[next[i]].deps ==> d in next[..i] {
      assert next[..i] == ordered[..i];
      assert ordered[..|ordered|] == ordered;
    }
  }

  /** While anything is left, the earliest one in dependency order is available: nothing is stuck. */
  lemma {:induction false} AllEmitted(c: Catalog, required: seq<AppId>, emitted: set<AppId>, n: nat)
    requires Topological(c, required) && n <= |required|
    requires forall x :: !Available(c, Elements(required), emitted, x)
    ensures Elements(required[..n]) <= emitted
  {
    if n > 0 {
      AllEmitted(c, required, emitted, n - 1);
      var x := required[n - 1];
      assert c[x].deps <= Elements(required[..n - 1]);
      assert !Available(c, Elements(required), emitted, x);
      assert required[..n] == required[..n - 1] + [x];
    }
  }

  // ---------------------------------------------------------------- ties

  /** How many applications had to be emitted before `x` became available. */
  ghost function Since(c: Catalog, s: seq<AppId>, x: AppId): (r: nat)
    requires x in c
    ensures r <= |s|
  {
    if s == [] then 0
    else
      var front := s[..|s| - 1];
      if c[x].deps <= Elements(front) then Since(c, front, x) else |s|
  }

  /** Of two available applications of one name, `x` became available first, or at the same moment
      and the search had listed it first. */
  ghost predicate Sooner(c: Catalog, required: seq<AppId>, emitted: seq<AppId>, x: AppId, y: AppId)
    requires x in c && y in c
  {
    || Since(c, emitted, x) < Since(c, emitted, y)
    || (Since(c, emitted, x) == Since(c, emitted, y) && ListedFirst(required, x, y))
  }

  /** Before `y` in the list of available applications. */
  ghost predicate Precedes(c: Catalog, required: seq<AppId>, emitted: seq<AppId>, x: AppId, y: AppId)
    requires x in c && y in c
  {
    Le(c[x].name, c[y].name) && (c[x].name == c[y].name ==> Sooner(c, required, emitted, x, y))
  }

  ghost predicate TiesKept(c: Catalog, required: seq<AppId>, ordered: seq<AppId>) {
    forall n, x {:trigger Available(c, Elements(required), Elements(ordered[..n]), x)} ::
      0 <= n < |ordered| && ordered[n] in c && Available(c, Elements(required), Elements(ordered[..n]), x)
      && c[x].name == c[ordered[n]].name ==>
        Sooner(c, required, ordered[..n], ordered[n], x)
  }

  /** Dependencies first, the least name among the available ones next; of several with that name the
      one that became available first, and of several that did so at once the one listed first. */
  ghost predicate IsResult(c: Catalog, required: seq<AppId>, ordered: seq<AppId>) {
    && Distinct(ordered) && Topological(c, ordered) && Elements(ordered) == Elements(required)
    && GreedyIn(c, Elements(required), ordered) && TiesKept(c, required, ordered)
  }

  // ---------------------------------------------------------------- the result is unique

  /** The other result's next application was available here as well. */
  lemma NextIsAvailable(c: Catalog, required: seq<AppId>, s: seq<AppId>, t: seq<AppId>, n: nat)
    requires IsResult(c, required, s) && IsResult(c, required, t) && n < |s| && n < |t| && s[..n] == t[..n]
    ensures t[n] in c && s[n] in c && Available(c, Elements(required), Elements(s[..n]), t[n])
  {
    NextElement(t, n);
    assert s[n] in Elements(s);
  }

  lemma ResultsAgreeAt(c: Catalog, required: seq<AppId>, s: seq<AppId>, t: seq<AppId>, n: nat)
    requires IsResult(c, required, s) && IsResult(c, required, t) && n < |s| && n < |t| && s[..n] == t[..n]
    ensures s[n] == t[n]
  {
    NextIsAvailable(c, required, s, t, n);
    NextIsAvailable(c, required, t, s, n);
    LeAntisymmetric(c[s[n]].name, c[t[n]].name);
    FirstInEither(required, s[n], t[n]);
  }

  lemma {:induction false} ResultsAgreeUpTo(c: Catalog, required: seq<AppId>, s: seq<AppId>, t: seq<AppId>, n: nat)
    requires IsResult(c, required, s) && IsResult(c, required, t) && n <= |s| && n <= |t|
    ensures s[..n] == t[..n]
  {
    if n > 0 {
      ResultsAgreeUpTo(c, required, s, t, n - 1);
      ResultsAgreeAt(c, required, s, t, n - 1);
      OneLonger(s, t, n - 1);
    }
  }

  /** There is only one such order for a list of required applications. */
  lemma ResultIsUnique(c: Catalog, required: seq<AppId>, s: seq<AppId>, t: seq<AppId>)
    requires IsResult(c, required, s) && IsResult(c, required, t)
    ensures s == t
  {
    DistinctCount(s);
    DistinctCount(t);
    ResultsAgreeUpTo(c, required, s, t, |s|);
    WholePrefixes(s, t);
  }

  // ---------------------------------------------------------------- the result exists

  /** The first part of some greedy order of `all`. */
  ghost predicate Begun(c: Catalog, all: set<AppId>, p: seq<AppId>) {
    Distinct(p) && Topological(c, p) && GreedyIn(c, all, p) && Elements(p) <= all
  }

  lemma PrecedesEither(c: Catalog, required: seq<AppId>, p: seq<AppId>, x: AppId, y: AppId)
    requires x in c && y in c
    ensures Precedes(c, required, p, x, y) || Precedes(c, required, p, y, x)
  {
    LeTotal(c[x].name, c[y].name);
    FirstInEither(required, x, y);
    if Le(c[x].name, c[y].name) && Le(c[y].name, c[x].name) {
      LeAntisymmetric(c[x].name, c[y].name);
    }
  }

  lemma PrecedesTransitive(c: Catalog, required: seq<AppId>, p: seq<AppId>, x: AppId, y: AppId, z: AppId)
    requires x in c && y in c && z in c && Precedes(c, required, p, x, y) && Precedes(c, required, p, y, z)
    ensures Precedes(c, required, p, x, z)
  {
    LeTransitive(c[x].name, c[y].name, c[z].name);
    if c[x].name == c[z].name {
      LeAntisymmetric(c[x].name, c[y].name);
      if ListedFirst(required, x, y) && ListedFirst(required, y, z) {
        FirstTransitive(required, x, y, z);
      }
    }
  }

  lemma {:induction false} Foremost(c: Catalog, required: seq<AppId>, p: seq<AppId>, ids: set<AppId>) returns (x: AppId)
    requires ids != {} && ids <= c.Keys
    ensures x in ids && forall y :: y in ids ==> Precedes(c, required, p, x, y)
  {
    var a :| a in ids;
    PrecedesEither(c, required, p, a, a);
    if ids == {a} {
      x := a;
    } else {
      assert ids - {a} != {};
      x := Foremost(c, required, p, ids - {a});
      PrecedesEither(c, required, p, a, x);
      if Precedes(c, required, p, a, x) {
        forall y | y in ids ensures Precedes(c, required, p, a, y) {
          if y != a {
            PrecedesTransitive(c, required, p, a, x, y);
          }
        }
        x := a;
      }
    }
  }

  /** While something is left, one of the available applications precedes all others. */
  lemma NextStep(c: Catalog, required: seq<AppId>, p: seq<AppId>) returns (x: AppId)
    requires Topological(c, required) && Distinct(required)
    requires Begun(c, Elements(required), p) && Elements(p) != Elements(required)
    ensures Available(c, Elements(required), Elements(p), x)
    ensures forall y :: Available(c, Elements(required), Elements(p), y) ==>
              x in c && y in c && Precedes(c, required, p, x, y)
  {
    var open := set y | y in Elements(required) && Available(c, Elements(required), Elements(p), y);
    if open == {} {
      forall y ensures !Available(c, Elements(required), Elements(p), y) {
        assert y !in open;
      }
      AllEmitted(c, required, Elements(p), |required|);
      WholeSequence(required);
    }
    x := Foremost(c, required, p, open);
  }

  lemma AppendBegun(c: Catalog, all: set<AppId>, p: seq<AppId>, x: AppId)
    requires Begun(c, all, p) && Available(c, all, Elements(p), x)
    requires forall y :: Available(c, all, Elements(p), y) ==> x in c && y in c && Le(c[x].name, c[y].name)
    ensures Begun(c, all, p + [x]) && Elements(p + [x]) == Elements(p) + {x}
  {
    EmitTopological(c, p, x);
    var q := p + [x];
    forall n, y | 0 <= n < |q| && q[n] in c && Available(c, all, Elements(q[..n]), y)
      ensures Le(c[q[n]].name, c[y].name)
    {
      if n < |p| {
        assert q[..n] == p[..n];
      } else {
        assert q[..n] == p;
      }
    }
  }

  lemma AppendTiesKept(c: Catalog, required: seq<AppId>, p: seq<AppId>, x: AppId)
    requires TiesKept(c, required, p) && x in c
    requires forall y :: Available(c, Elements(required), Elements(p), y) ==>
               y in c && Precedes(c, required, p, x, y)
    ensures TiesKept(c, required, p + [x])
  {
    var q := p + [x];
    forall n, y | 0 <= n < |q| && q[n] in c && Available(c, Elements(required), Elements(q[..n]), y)
                  && c[y].name == c[q[n]].name
      ensures Sooner(c, required, q[..n], q[n], y)
    {
      if n < |p| {
        assert q[..n] == p[..n];
      } else {
        assert q[..n] == p;
      }
    }
  }

  /** A greedy beginning can be completed; one that keeps the ties is completed to the result. */
  lemma {:induction false} Completion(c: Catalog, required: seq<AppId>, p: seq<AppId>) returns (t: seq<AppId>)
    requires Topological(c, required) && Distinct(required) && Begun(c, Elements(required), p)
    ensures Begun(c, Elements(required), t) && Elements(t) == Elements(required) && p <= t
    ensures TiesKept(c, required, p) ==> IsResult(c, required, t)
    decreases Elements(required) - Elements(p)
  {
    if Elements(p) == Elements(required) {
      t := p;
    } else {
      var x := NextStep(c, required, p);
      AppendBegun(c, Elements(required), p, x);
      if TiesKept(c, required, p) {
        AppendTiesKept(c, required, p, x);
      }
      t := Completion(c, required, p + [x]);
    }
  }

  lemma ResultExists(c: Catalog, required: seq<AppId>)
    requires Topological(c, required) && Distinct(required)
    ensures exists ordered :: IsResult(c, required, ordered)
  {
    assert Elements<AppId>([]) == {};
    var ordered := Completion(c, required, []);
    assert IsResult(c, required, ordered);
  }

  /** The installation order of a sound selection. */
  ghost function InstallOrder(c: Catalog, selected: seq<AppId>): (ordered: seq<AppId>)
    requires WellFounded(c, Elements(selected))
    ensures IsResult(c, Search(c, selected), ordered)
  {
    SearchIsTopological(c, selected);
    ResultExists(c, Search(c, selected));
    var ordered :| IsResult(c, Search(c, selected), ordered);
    ordered
  }

  // ---------------------------------------------------------------- the result in two catalogs

  lemma {:induction false} SinceSame(c: Catalog, d: Catalog, s: seq<AppId>, x: AppId)
    requires x in c && x in d && c[x] == d[x]
    ensures Since(c, s, x) == Since(d, s, x)
  {
    if s != [] {
      SinceSame(c, d, s[..|s| - 1], x);
    }
  }

  /** The result depends on nothing but the required applications. */
  lemma ResultSame(c: Catalog, d: Catalog, required: seq<AppId>, ordered: seq<AppId>)
    requires AgreeOn(c, d, Elements(required)) && IsResult(c, required, ordered)
    ensures IsResult(d, required, ordered)
  {
    forall x | x in ordered ensures x in c && x in d && c[x] == d[x] {
      assert x in Elements(ordered);
    }
    forall n, x | 0 <= n < |ordered| && Available(d, Elements(required), Elements(ordered[..n]), x)
      ensures Le(d[ordered[n]].name, d[x].name)
      ensures d[x].name == d[ordered[n]].name ==> Sooner(d, required, ordered[..n], ordered[n], x)
    {
      assert ordered[n] in ordered && Available(c, Elements(required), Elements(ordered[..n]), x);
      SinceSame(c, d, ordered[..n], x);
      SinceSame(c, d, ordered[..n], ordered[n]);
    }
  }

  /** A catalog that agrees with a sound one on all that is reachable returns the same order. */
  lemma OrderSame(c: Catalog, d: Catalog, selected: seq<AppId>)
    requires WellFounded(c, Elements(selected)) && WellFounded(d, Elements(selected))
    requires AgreeOn(c, d, Elements(Search(c, selected)))
    ensures InstallOrder(d, selected) == InstallOrder(c, selected)
  {
    var s := Elements(Search(c, selected));
    SearchIsTopological(c, selected);
    forall x | x in selected ensures x in s {
      assert x in Elements(selected);
      RootReachable(c, Elements(selected), x);
    }
    VisitsSame(c, d, s, {}, selected, NOTHING);
    ResultSame(c, d, Search(c, selected), InstallOrder(c, selected));
    ResultIsUnique(d, Search(d, selected), InstallOrder(c, selected), InstallOrder(d, selected));
  }

  // ---------------------------------------------------------------- it is an installation order

  lemma GreedyFrom(c: Catalog, ordered: seq<AppId>)
    requires Distinct(ordered) && GreedyIn(c, Elements(ordered), ordered)
    ensures Greedy(c, ordered)
  {
    forall n, x | 0 <= n < |ordered| && x in ordered[n..] && x in c && ordered[n] in c
                  && (forall d :: d in c[x].deps ==> d in ordered[..n])
      ensures Le(c[ordered[n]].name, c[x].name)
    {
      var i :| n <= i < |ordered| && ordered[i] == x;
      assert Available(c, Elements(ordered), Elements(ordered[..n]), x);
    }
  }

  /** It meets the specification that does not look at the order of the selection. */
  lemma ResultIsInstallOrder(c: Catalog, selected: seq<AppId>)
    requires WellFounded(c, Elements(selected))
    ensures IsInstallOrder(c, Elements(selected), InstallOrder(c, selected))
  {
    var ordered := InstallOrder(c, selected);
    SearchIsTopological(c, selected);
    GreedyFrom(c, ordered);
    forall x ensures x in ordered <==> Reachable(c, Elements(selected), x) {
      assert x in ordered <==> x in Elements(ordered);
      assert x in Search(c, selected) <==> x in Elements(Search(c, selected));
    }
  }

  // ---------------------------------------------------------------- what it says of each position

  /** `Since` is the first moment at which all dependencies had been emitted. */
  lemma {:induction false} SinceMeans(c: Catalog, s: seq<AppId>, x: AppId, k: nat)
    requires x in c && c[x].deps <= Elements(s) && k <= |s|
    ensures Since(c, s, x) <= k <==> forall d :: d in c[x].deps ==> d in s[..k]
  {
    if s == [] || k == |s| {
      assert s[..k] == s;
    } else {
      var front := s[..|s| - 1];
      assert s[..k] == front[..k];
      if c[x].deps <= Elements(front) {
        SinceMeans(c, front, x, k);
      } else {
        var d :| d in c[x].deps && d !in front;
        assert forall y :: y in front[..k] ==> y in front;
      }
    }
  }

  /** When `m` could have come instead of `n`, the name at `n` is not the later one. */
  lemma NameDecides(c: Catalog, required: seq<AppId>, s: seq<AppId>, n: nat, m: nat)
    requires IsResult(c, required, s) && n < m < |s|
    requires s[n] in c && s[m] in c && forall d :: d in c[s[m]].deps ==> d in s[..n]
    ensures Available(c, Elements(required), Elements(s[..n]), s[m])
    ensures var a, b := c[s[n]].name, c[s[m]].name;
            a <= b || exists k: nat :: k < |a| && k < |b| && a[..k] == b[..k] && a[k] < b[k]
  {
    assert s[m] in Elements(s);
    LeMeans(c[s[n]].name, c[s[m]].name);
  }

  lemma SoonerMeans(c: Catalog, required: seq<AppId>, p: seq<AppId>, x: AppId, y: AppId)
    requires x in c && y in c && c[x].deps <= Elements(p) && c[y].deps <= Elements(p)
    requires Distinct(required) && x in required && y in required && x != y && Sooner(c, required, p, x, y)
    ensures forall k :: 0 <= k <= |p| && (forall d :: d in c[y].deps ==> d in p[..k]) ==>
              forall d :: d in c[x].deps ==> d in p[..k]
    ensures || (exists k :: 0 <= k <= |p| && (forall d :: d in c[x].deps ==> d in p[..k])
                            && exists d :: d in c[y].deps && d !in p[..k])
            || exists i, j :: 0 <= i < j < |required| && required[i] == x && required[j] == y
  {
    forall k | 0 <= k <= |p| && forall d :: d in c[y].deps ==> d in p[..k]
      ensures forall d :: d in c[x].deps ==> d in p[..k]
    {
      SinceMeans(c, p, x, k);
      SinceMeans(c, p, y, k);
    }
    if Since(c, p, x) < Since(c, p, y) {
      SinceMeans(c, p, x, Since(c, p, x));
      SinceMeans(c, p, y, Since(c, p, x));
    } else {
      var i :| 0 <= i < |required| && required[i] == x;
      var j :| 0 <= j < |required| && required[j] == y;
      AtDistinct(required, i, j);
    }
  }

  /** Of two applications of one name the one that could be installed earlier comes first, and of two that
      could be installed from the same moment on the one that stands first in `listed`. */
  ghost predicate TieSettled(c: Catalog, listed: seq<AppId>, s: seq<AppId>, x: AppId, y: AppId, n: nat)
    requires x in c && y in c && n <= |s|
  {
    && (forall k :: 0 <= k <= n && (forall d :: d in c[y].deps ==> d in s[..k]) ==>
          forall d :: d in c[x].deps ==> d in s[..k])
    && (|| (exists k :: 0 <= k <= n && (forall d :: d in c[x].deps ==> d in s[..k])
                        && exists d :: d in c[y].deps && d !in s[..k])
        || exists i, j :: 0 <= i < j < |listed| && listed[i] == x && listed[j] == y)
  }

  lemma TieDecides(c: Catalog, required: seq<AppId>, s: seq<AppId>, n: nat, m: nat)
    requires IsResult(c, required, s) && Distinct(required) && n < m < |s|
    requires s[n] in c && s[m] in c && c[s[n]].name == c[s[m]].name && forall d :: d in c[s[m]].deps ==> d in s[..n]
    ensures TieSettled(c, required, s, s[n], s[m], n)
  {
    var p := s[..n];
    NameDecides(c, required, s, n, m);
    assert s[n] in Elements(s) && s[m] in Elements(s) && c[s[n]].deps <= Elements(p);
    assert forall k :: 0 <= k <= n ==> p[..k] == s[..k];
    SoonerMeans(c, required, p, s[n], s[m]);
  }
}
