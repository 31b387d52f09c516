/** The application catalog as a graph, and what an installation order has to satisfy. */
module AppGraph {
  import opened Names

  type AppId = nat

  datatype AppNode = AppNode(name: string, enabled: bool, deps: set<AppId>)

  type Catalog = map<AppId, AppNode>

  ghost predicate Edge(c: Catalog, a: AppId, b: AppId) { a in c && b in c[a].deps }

  ghost predicate IsPath(c: Catalog, p: seq<AppId>) {
    p != [] && forall i :: 0 <= i < |p| - 1 ==> Edge(c, p[i], p[i + 1])
  }

  ghost predicate PathTo(c: Catalog, roots: set<AppId>, p: seq<AppId>, x: AppId) {
    IsPath(c, p) && p[0] in roots && p[|p| - 1] == x
  }

  ghost predicate Reachable(c: Catalog, roots: set<AppId>, x: AppId) {
    exists p :: PathTo(c, roots, p, x)
  }

  ghost predicate IsCycle(c: Catalog, p: seq<AppId>) {
    IsPath(c, p) && |p| >= 2 && p[0] == p[|p| - 1]
  }

  ghost predicate Acyclic(c: Catalog, roots: set<AppId>) {
    forall p :: IsCycle(c, p) ==> !Reachable(c, roots, p[0])
  }

  ghost predicate Complete(c: Catalog, roots: set<AppId>) {
    forall x :: Reachable(c, roots, x) ==> x in c
  }

  /** Everything reachable exists and no reachable application depends on itself, even indirectly. */
  ghost predicate WellFounded(c: Catalog, roots: set<AppId>) {
    Complete(c, roots) && Acyclic(c, roots)
  }

  ghost predicate AllEnabled(c: Catalog, roots: set<AppId>) {
    forall x :: Reachable(c, roots, x) && x in c ==> c[x].enabled
  }

  lemma RootReachable(c: Catalog, roots: set<AppId>, x: AppId)
    requires x in roots
    ensures Reachable(c, roots, x)
  {
    assert PathTo(c, roots, [x], x);
  }

  lemma EdgeReachable(c: Catalog, roots: set<AppId>, x: AppId, y: AppId)
    requires Reachable(c, roots, x) && Edge(c, x, y)
    ensures Reachable(c, roots, y)
  {
    var p :| PathTo(c, roots, p, x);
    assert PathTo(c, roots, p + [y], y);
  }

  /** A set that holds the roots and is closed under dependencies holds everything reachable. */
  lemma {:induction false} ReachableInClosed(c: Catalog, roots: set<AppId>, s: set<AppId>, p: seq<AppId>, i: nat)
    requires IsPath(c, p) && p[0] in s && i < |p|
    requires forall x, y :: x in s && Edge(c, x, y) ==> y in s
    ensures p[i] in s
  {
    if i > 0 {
      ReachableInClosed(c, roots, s, p, i - 1);
      assert Edge(c, p[i - 1], p[i]);
    }
  }

  // ---------------------------------------------------------------- orders

  ghost predicate Distinct<T>(s: seq<T>) { forall i, j :: 0 <= i < j < |s| ==> s[i] != s[j] }

  /** Every element comes after all its dependencies. */
  ghost predicate Topological(c: Catalog, s: seq<AppId>) {
    forall i :: 0 <= i < |s| ==> s[i] in c && forall d :: d in c[s[i]].deps ==> d in s[..i]
  }

  /** A topological order cannot go round in a circle: along a path the positions go down. */
  lemma {:induction false} PathGoesDown(c: Catalog, s: seq<AppId>, p: seq<AppId>, at: nat) returns (pos: nat)
    requires Topological(c, s) && Distinct(s) && IsPath(c, p) && at < |s| && s[at] == p[0]
    ensures pos < |s| && s[pos] == p[|p| - 1] && pos + |p| - 1 <= at
    decreases |p|
  {
    if |p| == 1 {
      pos := at;
    } else {
      assert Edge(c, p[0], p[1]);
      var next :| 0 <= next < at && s[next] == p[1];
      assert IsPath(c, p[1..]) by {
        forall i | 0 <= i < |p[1..]| - 1 ensures Edge(c, p[1..][i], p[1..][i + 1]) {
          assert Edge(c, p[i + 1], p[i + 2]);
        }
      }
      pos := PathGoesDown(c, s, p[1..], next);
    }
  }

  /** A duplicate-free topological sequence holding the roots shows that nothing is missing and
      nothing cyclic, and contains everything reachable. */
  lemma TopologicalIsWellFounded(c: Catalog, roots: set<AppId>, s: seq<AppId>)
    requires Topological(c, s) && Distinct(s) && forall x :: x in roots ==> x in s
    ensures WellFounded(c, roots)
    ensures forall x :: Reachable(c, roots, x) ==> x in s
  {
    var all := Elements(s);
    forall x | Reachable(c, roots, x) ensures x in s {
      var p :| PathTo(c, roots, p, x);
      ReachableInClosed(c, roots, all, p, |p| - 1);
    }
    forall p | IsCycle(c, p) ensures !Reachable(c, roots, p[0]) {
      if p[0] in s {
        var at :| 0 <= at < |s| && s[at] == p[0];
        var pos := PathGoesDown(c, s, p, at);
      }
    }
  }

  // ---------------------------------------------------------------- cycles beside missing applications

  /** The catalog without the dependencies that do not exist. */
  ghost function Present(c: Catalog): Catalog { map x | x in c :: c[x].(deps := c[x].deps * c.Keys) }

  lemma CycleIsPresent(c: Catalog, p: seq<AppId>)
    requires IsCycle(c, p)
    ensures IsCycle(Present(c), p) && forall i :: 0 <= i < |p| ==> p[i] in c
  {
    forall i | 0 <= i < |p| ensures p[i] in c {
      var j := if i < |p| - 1 then i else 0;
      assert Edge(c, p[j], p[j + 1]);
    }
    forall i | 0 <= i < |p| - 1 ensures Edge(Present(c), p[i], p[i + 1]) {
      assert Edge(c, p[i], p[i + 1]);
    }
  }

  /** A topological order of all reachable applications that exist shows that none of them is cyclic,
      whether or not others are missing. */
  lemma ListedIsAcyclic(c: Catalog, roots: set<AppId>, s: seq<AppId>)
    requires Distinct(s) && Topological(Present(c), s)
    requires forall x :: Reachable(c, roots, x) && x in c ==> x in s
    ensures Acyclic(c, roots)
  {
    forall p | IsCycle(c, p) ensures !Reachable(c, roots, p[0]) {
      CycleIsPresent(c, p);
      if p[0] in s {
        var at :| 0 <= at < |s| && s[at] == p[0];
        var pos := PathGoesDown(Present(c), s, p, at);
      }
    }
  }

  lemma PresentIsTopological(c: Catalog, s: seq<AppId>)
    requires Topological(Present(c), s) && forall x, d :: x in s && x in c && d in c[x].deps ==> d in c
    ensures Topological(c, s)
  {
    forall i | 0 <= i < |s| ensures s[i] in c && forall d :: d in c[s[i]].deps ==> d in s[..i] {
      assert s[i] in s && s[i] in Present(c);
    }
  }

  // ---------------------------------------------------------------- the installation order

  /** At each position stands the least name among the applications whose dependencies precede it. */
  ghost predicate Greedy(c: Catalog, s: seq<AppId>) {
    forall n, x ::
      0 <= n < |s| && x in s[n..] && x in c && s[n] in c && (forall d :: d in c[x].deps ==> d in s[..n]) ==>
        Le(c[s[n]].name, c[x].name)
  }

  ghost predicate IsInstallOrder(c: Catalog, roots: set<AppId>, s: seq<AppId>) {
    Distinct(s) && Topological(c, s) && Greedy(c, s) && forall x :: x in s <==> Reachable(c, roots, x)
  }

  ghost predicate DistinctNames(c: Catalog, roots: set<AppId>) {
    forall x, y :: Reachable(c, roots, x) && Reachable(c, roots, y) && x in c && y in c && c[x].name == c[y].name ==>
      x == y
  }

  /** At some position another application of the same name was available as well. */
  ghost predicate TieAt(c: Catalog, s: seq<AppId>, n: nat, x: AppId) {
    && n < |s| && x in s[n + 1..] && x in c && s[n] in c && c[x].name == c[s[n]].name
    && forall d :: d in c[x].deps ==> d in s[..n]
  }

  ghost predicate Tie(c: Catalog, s: seq<AppId>) { exists n, x :: TieAt(c, s, n, x) }

  lemma {:induction false} OrdersAgreeUpTo(c: Catalog, roots: set<AppId>, s: seq<AppId>, t: seq<AppId>, n: nat)
    requires IsInstallOrder(c, roots, s) && IsInstallOrder(c, roots, t) && !Tie(c, s)
    requires n <= |s| && n <= |t|
    ensures s[..n] == t[..n]
  {
    if n > 0 {
      OrdersAgreeUpTo(c, roots, s, t, n - 1);
      NextAgrees(c, roots, s, t, n - 1);
      OneLonger(s, t, n - 1);
    }
  }

  lemma NextAgrees(c: Catalog, roots: set<AppId>, s: seq<AppId>, t: seq<AppId>, n: nat)
    requires IsInstallOrder(c, roots, s) && IsInstallOrder(c, roots, t) && !Tie(c, s)
    requires n < |s| && n < |t| && s[..n] == t[..n]
    ensures s[n] == t[n]
  {
    NextIsLeast(c, roots, s, t, n);
    NextIsLeast(c, roots, t, s, n);
    LeAntisymmetric(c[s[n]].name, c[t[n]].name);
    if s[n] != t[n] {
      OtherIsLater(c, roots, s, t, n);
      assert TieAt(c, s, n, t[n]);
    }
  }

  /** The other order's next application comes later in this one, and could have come now. */
  lemma OtherIsLater(c: Catalog, roots: set<AppId>, s: seq<AppId>, t: seq<AppId>, n: nat)
    requires IsInstallOrder(c, roots, s) && IsInstallOrder(c, roots, t)
    requires n < |s| && n < |t| && s[..n] == t[..n] && s[n] != t[n]
    ensures t[n] in c && t[n] in s[n + 1..] && forall d :: d in c[t[n]].deps ==> d in s[..n]
  {
    assert t[n] in t;
    var k :| 0 <= k < |s| && s[k] == t[n];
    forall i | 0 <= i < n ensures s[i] == t[i] {
      assert s[i] == s[..n][i];
    }
    assert k > n;
    assert s[n + 1..][k - n - 1] == t[n];
  }

  lemma OneLonger(s: seq<AppId>, t: seq<AppId>, n: nat)
    requires n < |s| && n < |t| && s[..n] == t[..n] && s[n] == t[n]
    ensures s[..n + 1] == t[..n + 1]
  {
    assert s[..n + 1] == s[..n] + [s[n]] && t[..n + 1] == t[..n] + [t[n]];
  }

  lemma NextIsLeast(c: Catalog, roots: set<AppId>, s: seq<AppId>, t: seq<AppId>, n: nat)
    requires IsInstallOrder(c, roots, s) && IsInstallOrder(c, roots, t) && n < |s| && n < |t| && s[..n] == t[..n]
    ensures s[n] in c && t[n] in c && Le(c[t[n]].name, c[s[n]].name)
  {
    assert s[n] in s;
    assert s[n] in t;
    assert s[n] !in t[..n];
    assert t == t[..n] + t[n..];
    assert s[n] in t[n..];
  }

  lemma SameLength(s: seq<AppId>, t: seq<AppId>)
    requires Distinct(s) && Distinct(t) && forall x :: x in s <==> x in t
    ensures |s| == |t|
  {
    DistinctCount(s);
    DistinctCount(t);
    assert Elements(s) == Elements(t);
  }

  function Elements<T(==)>(s: seq<T>): set<T> { set x | x in s }

  lemma {:induction false} DistinctCount<T>(s: seq<T>)
    requires Distinct(s)
    ensures |Elements(s)| == |s|
  {
    if s != [] {
      var n := |s| - 1;
      DistinctCount(s[..n]);
      assert Elements(s) == Elements(s[..n]) + {s[n]};
    }
  }

  /** Without a tie there is one installation order. */
  lemma NoTieIsUnique(c: Catalog, roots: set<AppId>, s: seq<AppId>, t: seq<AppId>)
    requires IsInstallOrder(c, roots, s) && IsInstallOrder(c, roots, t) && !Tie(c, s)
    ensures s == t
  {
    SameLength(s, t);
    OrdersAgreeUpTo(c, roots, s, t, |s|);
    WholePrefixes(s, t);
  }

  lemma WholePrefixes(s: seq<AppId>, t: seq<AppId>)
    requires |s| == |t| && s[..|s|] == t[..|s|]
    ensures s == t
  {
    assert s == s[..|s|] && t == t[..|s|];
  }

  /** With pairwise distinct names there is one installation order, and it depends on nothing but
      the catalog and the set of selected applications. */
  lemma InstallOrderIsUnique(c: Catalog, roots: set<AppId>, s: seq<AppId>, t: seq<AppId>)
    requires IsInstallOrder(c, roots, s) && IsInstallOrder(c, roots, t) && DistinctNames(c, roots)
    ensures s == t
  {
    DistinctNamesDoNotTie(c, roots, s);
    NoTieIsUnique(c, roots, s, t);
  }

  lemma DistinctNamesDoNotTie(c: Catalog, roots: set<AppId>, s: seq<AppId>)
    requires IsInstallOrder(c, roots, s) && DistinctNames(c, roots)
    ensures !Tie(c, s)
  {
    if Tie(c, s) {
      var n, x :| TieAt(c, s, n, x);
      TiedDiffer(c, s, n, x);
    }
  }

  lemma TiedDiffer(c: Catalog, s: seq<AppId>, n: nat, x: AppId)
    requires Distinct(s) && TieAt(c, s, n, x)
    ensures x in s && s[n] in s && x != s[n]
  {
    var k :| 0 <= k < |s[n + 1..]| && s[n + 1..][k] == x;
    assert s[n + 1 + k] == x;
  }
}
