/** Python's `strip` and its relatives. */
module Text {
  /** White space in Python's sense. */
  predicate IsSpace(c: char) {
    var n := c as int;
    9 <= n <= 13 || 28 <= n <= 32 || n == 0x85 || n == 0xA0 || n == 0x1680 || 0x2000 <= n <= 0x200A
    || n in {0x2028, 0x2029, 0x202F, 0x205F, 0x3000}
  }

  lemma SpaceMeans(c: char)
    ensures IsSpace(c) <==>
            c as int in {9, 10, 11, 12, 13, 28, 29, 30, 31, 32, 133, 160, 5760, 8192, 8193, 8194, 8195, 8196, 8197,
                         8198, 8199, 8200, 8201, 8202, 8232, 8233, 8239, 8287, 12288}
  {
  }

  /** `r` is `s` without the white space at its ends. */
  predicate IsTrim(r: string, s: string) {
    exists i: nat :: i + |r| <= |s| && TrimmedAt(r, s, i)
  }

  predicate TrimmedAt(r: string, s: string, i: nat)
    requires i + |r| <= |s|
  {
    && s[i..i + |r|] == r && (r == [] || (!IsSpace(r[0]) && !IsSpace(r[|r| - 1])))
    && (forall k :: 0 <= k < i ==> IsSpace(s[k])) && forall k :: i + |r| <= k < |s| ==> IsSpace(s[k])
  }

  function LStrip(s: string, drop: char -> bool): (r: string)
    ensures r == [] || !drop(r[0])
    ensures |r| <= |s| && r == s[|s| - |r|..] && forall i :: 0 <= i < |s| - |r| ==> drop(s[i])
  {
    if s != [] && drop(s[0]) then LStrip(s[1..], drop) else s
  }

  function RStrip(s: string, drop: char -> bool): (r: string)
    ensures r == [] || !drop(r[|r| - 1])
    ensures r <= s && forall i :: |r| <= i < |s| ==> drop(s[i])
  {
    if s != [] && drop(s[|s| - 1]) then RStrip(s[..|s| - 1], drop) else s
  }

  /** The text between the outermost characters that are not white space. */
  function Strip(s: string): (r: string)
    ensures r == [] || (!IsSpace(r[0]) && !IsSpace(r[|r| - 1]))
  {
    RStrip(LStrip(s, IsSpace), IsSpace)
  }

  lemma EndsAreSpace(s: string, t: string, r: string, n: nat)
    requires n + |t| == |s| && t == s[n..] && r <= t
    requires r == [] || (!IsSpace(r[0]) && !IsSpace(r[|r| - 1]))
    requires (forall k :: 0 <= k < n ==> IsSpace(s[k])) && forall k :: |r| <= k < |t| ==> IsSpace(t[k])
    ensures TrimmedAt(r, s, n)
  {
    forall k | n + |r| <= k < |s| ensures IsSpace(s[k]) {
      assert s[k] == t[k - n];
    }
    assert s[n..n + |r|] == t[..|r|];
  }

  lemma {:induction false} StripTrims(s: string)
    ensures IsTrim(Strip(s), s)
  {
    var t := LStrip(s, IsSpace);
    EndsAreSpace(s, t, RStrip(t, IsSpace), |s| - |t|);
  }

  lemma TrimIsEmptyIff(r: string, s: string)
    requires IsTrim(r, s)
    ensures r == [] <==> forall i :: 0 <= i < |s| ==> IsSpace(s[i])
  {
    var i: nat :| i + |r| <= |s| && TrimmedAt(r, s, i);
    if r != [] {
      assert s[i] == s[i..i + |r|][0];
    }
  }

  lemma StripIsIdentity(s: string)
    requires s == [] || (!IsSpace(s[0]) && !IsSpace(s[|s| - 1]))
    ensures Strip(s) == s
  {
  }

  // ---------------------------------------------------------------- splitting and joining

  function Split(s: string, sep: char): (r: seq<string>)
    ensures |r| >= 1
  {
    if s == [] then [""] else if s[0] == sep then [""] + Split(s[1..], sep) else Grown([s[0]], Split(s[1..], sep))
  }

  /** The first part made longer at its front. */
  function Grown(u: string, parts: seq<string>): (r: seq<string>)
    requires |parts| >= 1
    ensures |r| == |parts| && r[0] == u + parts[0] && r[1..] == parts[1..]
  {
    [u + parts[0]] + parts[1..]
  }

  function Join(parts: seq<string>, sep: char): string
    requires |parts| >= 1
  {
    if |parts| == 1 then parts[0] else parts[0] + ([sep] + Join(parts[1..], sep))
  }

  lemma Assoc(a: string, b: string, c: string)
    ensures (a + b) + c == a + (b + c)
  {
  }

  lemma JoinGrown(u: string, parts: seq<string>, sep: char)
    requires |parts| >= 1
    ensures Join(Grown(u, parts), sep) == u + Join(parts, sep)
  {
    if |parts| > 1 {
      Assoc(u, parts[0], [sep] + Join(parts[1..], sep));
    }
  }

  lemma {:induction false} JoinSplit(s: string, sep: char)
    ensures Join(Split(s, sep), sep) == s
  {
    if s != [] {
      JoinSplit(s[1..], sep);
      if s[0] == sep {
        assert Split(s, sep)[1..] == Split(s[1..], sep);
      } else {
        JoinGrown([s[0]], Split(s[1..], sep), sep);
      }
      assert s == [s[0]] + s[1..];
    }
  }

  lemma {:induction false} JoinConcat(a: seq<string>, b: seq<string>, sep: char)
    requires |a| >= 1 && |b| >= 1
    ensures Join(a + b, sep) == Join(a, sep) + ([sep] + Join(b, sep))
  {
    assert (a + b)[1..] == a[1..] + b && (a + b)[0] == a[0];
    if |a| > 1 {
      JoinConcat(a[1..], b, sep);
      Assoc([sep], Join(a[1..], sep), [sep] + Join(b, sep));
      Assoc(a[0], [sep] + Join(a[1..], sep), [sep] + Join(b, sep));
    }
  }

  lemma SplitCons(c: char, s: string, sep: char)
    ensures Split([c] + s, sep) == if c == sep then [""] + Split(s, sep) else Grown([c], Split(s, sep))
  {
    assert ([c] + s)[1..] == s;
  }

  lemma GrownAppend(u: string, a: seq<string>, b: seq<string>)
    requires |a| >= 1
    ensures Grown(u, a + b) == Grown(u, a) + b
  {
    assert (a + b)[1..] == a[1..] + b;
  }

  lemma {:induction false} SplitConcat(a: string, b: string, sep: char)
    ensures Split(a + ([sep] + b), sep) == Split(a, sep) + Split(b, sep)
    decreases |a|
  {
    if a == [] {
      SplitCons(sep, b, sep);
      assert a + ([sep] + b) == [sep] + b;
    } else {
      SplitConcat(a[1..], b, sep);
      SplitFirst(a[0], a[1..], [sep] + b, Split(b, sep), sep);
      assert a == [a[0]] + a[1..];
    }
  }

  lemma SplitFirst(c: char, t: string, rest: string, parts: seq<string>, sep: char)
    requires Split(t + rest, sep) == Split(t, sep) + parts
    ensures Split(([c] + t) + rest, sep) == Split([c] + t, sep) + parts
  {
    Assoc([c], t, rest);
    SplitCons(c, t + rest, sep);
    SplitCons(c, t, sep);
    GrownAppend([c], Split(t, sep), parts);
    assert [""] + (Split(t, sep) + parts) == ([""] + Split(t, sep)) + parts;
  }

  lemma {:induction false} SplitAfter(u: string, s: string, sep: char)
    requires sep !in u
    ensures Split(u + s, sep) == Grown(u, Split(s, sep))
  {
    if u == [] {
      assert u + s == s && u + Split(s, sep)[0] == Split(s, sep)[0];
    } else {
      SplitAfter(u[1..], s, sep);
      Assoc([u[0]], u[1..], s);
      SplitCons(u[0], u[1..] + s, sep);
      GrownTwice([u[0]], u[1..], Split(s, sep));
      assert u == [u[0]] + u[1..];
    }
  }

  lemma GrownTwice(u: string, v: string, parts: seq<string>)
    requires |parts| >= 1
    ensures Grown(u, Grown(v, parts)) == Grown(u + v, parts)
  {
    Assoc(u, v, parts[0]);
  }

  lemma SplitWhole(u: string, sep: char)
    requires sep !in u
    ensures Split(u, sep) == [u]
  {
    SplitAfter(u, [], sep);
    assert u + [] == u;
  }

  /** Splitting undoes joining when no part holds the separator. */
  lemma {:induction false} SplitJoin(parts: seq<string>, sep: char)
    requires |parts| >= 1 && forall i :: 0 <= i < |parts| ==> sep !in parts[i]
    ensures Split(Join(parts, sep), sep) == parts
  {
    SplitWhole(parts[0], sep);
    if |parts| > 1 {
      SplitJoin(parts[1..], sep);
      SplitConcat(parts[0], Join(parts[1..], sep), sep);
      assert parts == [parts[0]] + parts[1..];
    }
  }

  // ---------------------------------------------------------------- the parts, by their places

  /** From `i` up to `j` there is no separator, and one or the end of the text on both sides. */
  ghost predicate PartAt(s: string, sep: char, i: nat, j: nat) {
    i <= j <= |s| && (i == 0 || s[i - 1] == sep) && (j == |s| || s[j] == sep) && sep !in s[i..j]
  }

  lemma SliceShift(s: string, n: nat, i: nat, j: nat)
    requires i <= j && n + j <= |s|
    ensures s[n..][i..j] == s[n + i..n + j]
  {
  }

  /** Behind a separator the places of the parts are counted anew. */
  lemma PartShift(s: string, sep: char, n: nat, i: nat, j: nat)
    requires 0 < n <= |s| && s[n - 1] == sep
    ensures PartAt(s[n..], sep, i, j) <==> PartAt(s, sep, n + i, n + j)
    ensures PartAt(s[n..], sep, i, j) ==> s[n..][i..j] == s[n + i..n + j]
  {
    var t := s[n..];
    if i <= j && n + j <= |s| {
      SliceShift(s, n, i, j);
      assert i > 0 ==> t[i - 1] == s[n + i - 1];
      assert j < |t| ==> t[j] == s[n + j];
    }
  }

  lemma {:induction false} FirstSeparator(s: string, sep: char) returns (n: nat)
    ensures n <= |s| && sep !in s[..n] && (n < |s| ==> s[n] == sep)
  {
    if s == [] || s[0] == sep {
      n := 0;
    } else {
      var m := FirstSeparator(s[1..], sep);
      n := m + 1;
      assert s[..n] == [s[0]] + s[1..][..m];
    }
  }

  lemma SplitAt(s: string, sep: char, n: nat)
    requires n < |s| && sep !in s[..n] && s[n] == sep
    ensures Split(s, sep) == [s[..n]] + Split(s[n + 1..], sep)
  {
    assert s == s[..n] + ([sep] + s[n + 1..]);
    SplitConcat(s[..n], s[n + 1..], sep);
    SplitWhole(s[..n], sep);
  }

  lemma FirstPart(s: string, sep: char) returns (n: nat)
    ensures n <= |s| && sep !in s[..n] && (n < |s| ==> s[n] == sep)
    ensures Split(s, sep) == if n == |s| then [s] else [s[..n]] + Split(s[n + 1..], sep)
  {
    n := FirstSeparator(s, sep);
    if n == |s| {
      assert s[..n] == s;
      SplitWhole(s, sep);
    } else {
      SplitAt(s, sep, n);
    }
  }

  /** `parts` cuts a text at its first separator, which is at `n`, and goes on behind it. */
  ghost predicate CutsAt(parts: string -> seq<string>, sep: char, s: string, n: nat) {
    n <= |s| && sep !in s[..n] && (n < |s| ==> s[n] == sep) ==>
      && |parts(s)| >= 1 && parts(s)[0] == s[..n] && (n == |s| ==> |parts(s)| == 1)
      && (n < |s| ==> parts(s)[1..] == parts(s[n + 1..]))
  }

  lemma SplitCuts(sep: char, s: string, n: nat)
    ensures CutsAt(t => Split(t, sep), sep, s, n)
  {
    if n <= |s| && sep !in s[..n] && (n < |s| ==> s[n] == sep) {
      if n == |s| {
        assert s[..n] == s;
        SplitWhole(s, sep);
      } else {
        SplitAt(s, sep, n);
      }
    }
  }

  lemma PartBehind(s: string, sep: char, n: nat, a: nat, b: nat)
    requires n < |s| && s[n] == sep && PartAt(s[n + 1..], sep, a, b)
    ensures PartAt(s, sep, n + 1 + a, n + 1 + b) && s[n + 1..][a..b] == s[n + 1 + a..n + 1 + b]
  {
    PartShift(s, sep, n + 1, a, b);
  }

  lemma PlaceBehind(s: string, sep: char, n: nat, i: nat, j: nat)
    requires n < |s| && s[n] == sep && n < i && PartAt(s, sep, i, j)
    ensures PartAt(s[n + 1..], sep, i - (n + 1), j - (n + 1))
    ensures s[n + 1..][i - (n + 1)..j - (n + 1)] == s[i..j]
  {
    PartShift(s, sep, n + 1, i - (n + 1), j - (n + 1));
  }

  lemma FirstPlace(s: string, sep: char, n: nat)
    requires n <= |s| && sep !in s[..n] && (n < |s| ==> s[n] == sep)
    ensures PartAt(s, sep, 0, n) && s[0..n] == s[..n]
  {
  }

  lemma {:induction false} CutHasPlace(parts: string -> seq<string>, sep: char, s: string, k: nat)
    returns (i: nat, j: nat)
    requires (forall t: string, n: nat :: CutsAt(parts, sep, t, n)) && k < |parts(s)|
    ensures PartAt(s, sep, i, j) && parts(s)[k] == s[i..j] && (i == 0 <==> k == 0)
    decreases |s|
  {
    var n := FirstSeparator(s, sep);
    assert CutsAt(parts, sep, s, n);
    if k == 0 {
      i, j := 0, n;
      FirstPlace(s, sep, n);
    } else {
      var rest := s[n + 1..];
      var a, b := CutHasPlace(parts, sep, rest, k - 1);
      i, j := n + 1 + a, n + 1 + b;
      PartBehind(s, sep, n, a, b);
      assert parts(s)[k] == parts(rest)[k - 1];
    }
  }

  /** Each part stands somewhere, the first one at the beginning. */
  lemma PartHasPlace(s: string, sep: char, k: nat) returns (i: nat, j: nat)
    requires k < |Split(s, sep)|
    ensures PartAt(s, sep, i, j) && Split(s, sep)[k] == s[i..j] && (i == 0 <==> k == 0)
  {
    var parts := (t: string) => Split(t, sep);
    forall t: string, n: nat ensures CutsAt(parts, sep, t, n) {
      SplitCuts(sep, t, n);
    }
    i, j := CutHasPlace(parts, sep, s, k);
  }

  lemma {:induction false} PlaceHasCut(parts: string -> seq<string>, sep: char, s: string, i: nat, j: nat)
    returns (k: nat)
    requires (forall t: string, n: nat :: CutsAt(parts, sep, t, n)) && PartAt(s, sep, i, j)
    ensures k < |parts(s)| && parts(s)[k] == s[i..j] && (i == 0 <==> k == 0)
    decreases |s|
  {
    var n := FirstSeparator(s, sep);
    assert CutsAt(parts, sep, s, n);
    if i == 0 {
      k := 0;
      SameEnd(s, sep, n, j);
    } else {
      Behind(s, sep, n, i);
      PlaceBehind(s, sep, n, i, j);
      var rest := s[n + 1..];
      var m := PlaceHasCut(parts, sep, rest, i - (n + 1), j - (n + 1));
      k := m + 1;
      assert parts(s)[k] == parts(rest)[m];
    }
  }

  /** And whatever stands between separators is a part. */
  lemma PlaceHasPart(s: string, sep: char, i: nat, j: nat) returns (k: nat)
    requires PartAt(s, sep, i, j)
    ensures k < |Split(s, sep)| && Split(s, sep)[k] == s[i..j] && (i == 0 <==> k == 0)
  {
    var parts := (t: string) => Split(t, sep);
    forall t: string, n: nat ensures CutsAt(parts, sep, t, n) {
      SplitCuts(sep, t, n);
    }
    k := PlaceHasCut(parts, sep, s, i, j);
  }

  lemma SameEnd(s: string, sep: char, n: nat, j: nat)
    requires n <= |s| && sep !in s[..n] && (n < |s| ==> s[n] == sep) && PartAt(s, sep, 0, j)
    ensures n == j && s[0..j] == s[..n]
  {
    forall k | 0 <= k < n ensures s[k] != sep {
      assert s[..n][k] == s[k];
    }
    forall k | 0 <= k < j ensures s[k] != sep {
      assert s[0..j][k] == s[k];
    }
  }

  lemma Behind(s: string, sep: char, n: nat, i: nat)
    requires n <= |s| && sep !in s[..n] && 0 < i <= |s| && s[i - 1] == sep
    ensures n < i && n < |s|
  {
    forall k | 0 <= k < n ensures s[k] != sep {
      assert s[..n][k] == s[k];
    }
  }
}
