/** Installer paths: validation, and the approved-root check on segment boundaries. */
module InstallerPaths {
  import opened Options
  import opened Text

  const BACKSLASH := '\\'

  /** The string test for being inside is the test on segments: a proper prefix. */
  lemma InsideIffProperPrefix(path: string, root: string)
    ensures root + [BACKSLASH] <= path <==> Split(root, BACKSLASH) < Split(path, BACKSLASH)
  {
    if root + [BACKSLASH] <= path {
      var rest := path[|root| + 1..];
      assert path == root + ([BACKSLASH] + rest);
      SplitConcat(root, rest, BACKSLASH);
    }
    if Split(root, BACKSLASH) < Split(path, BACKSLASH) {
      var tail := Split(path, BACKSLASH)[|Split(root, BACKSLASH)|..];
      assert Split(path, BACKSLASH) == Split(root, BACKSLASH) + tail;
      JoinConcat(Split(root, BACKSLASH), tail, BACKSLASH);
      JoinSplit(root, BACKSLASH);
      JoinSplit(path, BACKSLASH);
    }
  }

  // ---------------------------------------------------------------- case folding

  /** Case folding works character by character and neither makes nor removes a backslash. */
  ghost predicate CaseFolding(fold: char -> string) {
    fold(BACKSLASH) == [BACKSLASH] && forall c :: c != BACKSLASH ==> BACKSLASH !in fold(c)
  }

  function Fold(fold: char -> string, s: string): string { if s == [] then [] else fold(s[0]) + Fold(fold, s[1..]) }

  function FoldAll(fold: char -> string, parts: seq<string>): (r: seq<string>)
    ensures |r| == |parts| && forall i :: 0 <= i < |r| ==> r[i] == Fold(fold, parts[i])
  {
    seq(|parts|, i requires 0 <= i < |parts| => Fold(fold, parts[i]))
  }

  /** Folding a path folds each of its segments. */
  lemma {:induction false} SplitFold(fold: char -> string, s: string)
    requires CaseFolding(fold)
    ensures Split(Fold(fold, s), BACKSLASH) == FoldAll(fold, Split(s, BACKSLASH))
  {
    if s != [] {
      var rest := Split(s[1..], BACKSLASH);
      SplitFold(fold, s[1..]);
      if s[0] == BACKSLASH {
        SplitCons(BACKSLASH, Fold(fold, s[1..]), BACKSLASH);
      } else {
        SplitAfter(fold(s[0]), Fold(fold, s[1..]), BACKSLASH);
        assert ([s[0]] + rest[0])[1..] == rest[0];
        assert FoldAll(fold, Split(s, BACKSLASH))[0] == fold(s[0]) + Fold(fold, rest[0]);
      }
    }
  }

  // ---------------------------------------------------------------- validation

  predicate IsAlnum(c: char) { 'A' <= c <= 'Z' || 'a' <= c <= 'z' || '0' <= c <= '9' }

  predicate IsLetter(c: char) { 'A' <= c <= 'Z' || 'a' <= c <= 'z' }

  /** What Windows allows in a file name. */
  predicate SegmentChar(c: char) { c as int > 0x1F && c !in "\\/:*?\"<>|" }

  predicate IsSegment(s: string) { s != [] && forall i :: 0 <= i < |s| ==> SegmentChar(s[i]) }

  predicate IsHost(s: string) {
    && 1 <= |s| <= 253 && IsAlnum(s[0]) && IsAlnum(s[|s| - 1])
    && forall i :: 0 <= i < |s| ==> IsAlnum(s[i]) || s[i] == '.' || s[i] == '-'
  }

  predicate AllSegments(parts: seq<string>) { forall i :: 0 <= i < |parts| ==> IsSegment(parts[i]) }

  /** `\\host\share\...` */
  predicate IsUnc(parts: seq<string>) {
    |parts| >= 4 && parts[0] == "" && parts[1] == "" && IsHost(parts[2]) && AllSegments(parts[3..])
  }

  /** `C:\...` */
  predicate IsDrive(parts: seq<string>) {
    |parts| >= 2 && |parts[0]| == 2 && IsLetter(parts[0][0]) && parts[0][1] == ':' && AllSegments(parts[1..])
  }

  predicate IsDot(c: char) { c == ' ' || c == '.' }

  predicate CleanEnd(segment: string) {
    Strip(segment) != "." && Strip(segment) != ".." && segment == RStrip(segment, IsDot)
  }

  /** The normalised path, or nothing if it is refused. */
  function ValidateWindowsPath(value: string): (r: Option<string>)
    ensures r.Some? ==> r.value == Strip(value)
    ensures r.Some? ==> IsUnc(Split(r.value, BACKSLASH)) || IsDrive(Split(r.value, BACKSLASH))
  {
    var path := Strip(value);
    var parts := Split(path, BACKSLASH);
    if path == [] || '/' in path || !(IsUnc(parts) || IsDrive(parts)) then None
    else if exists i :: 0 <= i < |parts| && parts[i] != [] && !CleanEnd(parts[i]) then None
    else Some(path)
  }

  predicate IsBackslash(c: char) { c == BACKSLASH }

  function ValidateInstallerRoot(value: string): Option<string> {
    ValidateWindowsPath(RStrip(Strip(value), IsBackslash))
  }

  function Normalise(fold: char -> string, path: string): string { Fold(fold, RStrip(Strip(path), IsBackslash)) }

  function PathWithinRoots(fold: char -> string, path: string, roots: seq<string>): bool {
    var candidate := ValidateWindowsPath(path);
    candidate.Some? && InsideSome(fold, Normalise(fold, candidate.value), roots)
  }

  /** The loop over the roots; a root that is not valid is passed over. */
  function InsideSome(fold: char -> string, normalised: string, roots: seq<string>): bool {
    if roots == [] then false
    else
      var root := ValidateInstallerRoot(roots[0]);
      (root.Some? && Normalise(fold, root.value) + [BACKSLASH] <= normalised)
      || InsideSome(fold, normalised, roots[1..])
  }

  // ---------------------------------------------------------------- what the root check means

  lemma {:induction false} LastPart(s: string)
    requires s != [] && s[|s| - 1] == BACKSLASH
    ensures Split(s, BACKSLASH)[|Split(s, BACKSLASH)| - 1] == ""
  {
    var front := s[..|s| - 1];
    assert s == front + ([BACKSLASH] + []);
    SplitConcat(front, [], BACKSLASH);
  }

  /** A valid path is already stripped and does not end in a backslash. */
  lemma ValidIsNormal(value: string)
    requires ValidateWindowsPath(value).Some?
    ensures var p := ValidateWindowsPath(value).value;
            RStrip(Strip(p), IsBackslash) == p && ValidateWindowsPath(p) == Some(p)
  {
    var p := ValidateWindowsPath(value).value;
    StripIsIdentity(p);
    var parts := Split(p, BACKSLASH);
    assert IsUnc(parts) ==> IsSegment(parts[3..][|parts| - 4]);
    assert IsDrive(parts) ==> IsSegment(parts[1..][|parts| - 2]);
    if p[|p| - 1] == BACKSLASH {
      LastPart(p);
    }
  }

  /** The folded segments of a valid path. */
  function Segments(fold: char -> string, path: string): seq<string> { FoldAll(fold, Split(path, BACKSLASH)) }

  ghost predicate InsideRoot(fold: char -> string, path: string, root: string) {
    var p, r := ValidateWindowsPath(path), ValidateInstallerRoot(root);
    p.Some? && r.Some? && Segments(fold, r.value) < Segments(fold, p.value)
  }

  lemma NormaliseIsFold(fold: char -> string, value: string)
    requires CaseFolding(fold) && ValidateWindowsPath(value).Some?
    ensures var p := ValidateWindowsPath(value).value; Split(Normalise(fold, p), BACKSLASH) == Segments(fold, p)
  {
    var p := ValidateWindowsPath(value).value;
    ValidIsNormal(value);
    SplitFold(fold, p);
  }

  lemma OneRootIff(fold: char -> string, path: string, root: string)
    requires CaseFolding(fold) && ValidateWindowsPath(path).Some? && ValidateInstallerRoot(root).Some?
    ensures Normalise(fold, ValidateInstallerRoot(root).value) + [BACKSLASH] <=
            Normalise(fold, ValidateWindowsPath(path).value)
            <==> InsideRoot(fold, path, root)
  {
    NormaliseIsFold(fold, path);
    NormaliseIsFold(fold, RStrip(Strip(root), IsBackslash));
    InsideIffProperPrefix(Normalise(fold, ValidateWindowsPath(path).value),
                          Normalise(fold, ValidateInstallerRoot(root).value));
  }

  ghost predicate InsideOneOf(fold: char -> string, path: string, roots: seq<string>) {
    exists root :: root in roots && InsideRoot(fold, path, root)
  }

  lemma {:induction false} InsideSomeIff(fold: char -> string, path: string, roots: seq<string>)
    requires CaseFolding(fold) && ValidateWindowsPath(path).Some?
    ensures InsideSome(fold, Normalise(fold, ValidateWindowsPath(path).value), roots) <==>
            InsideOneOf(fold, path, roots)
  {
    if roots != [] {
      InsideSomeIff(fold, path, roots[1..]);
      assert forall root :: root in roots <==> root == roots[0] || root in roots[1..];
      if ValidateInstallerRoot(roots[0]).Some? {
        OneRootIff(fold, path, roots[0]);
      }
    }
  }

  /** A path is within the roots exactly when it is valid and the case-folded segments of some valid
      root are a proper prefix of its own. */
  lemma WithinIffSegmentPrefix(fold: char -> string, path: string, roots: seq<string>)
    requires CaseFolding(fold)
    ensures PathWithinRoots(fold, path, roots) <==> InsideOneOf(fold, path, roots)
  {
    if ValidateWindowsPath(path).Some? {
      InsideSomeIff(fold, path, roots);
    }
  }

  /** A root on a drive never contains a network path, and the other way round. */
  lemma KindsNeverMix(fold: char -> string, path: string, root: string)
    requires CaseFolding(fold) && InsideRoot(fold, path, root) && forall c :: fold(c) != []
    ensures IsUnc(Split(ValidateWindowsPath(path).value, BACKSLASH)) <==>
            IsUnc(Split(ValidateInstallerRoot(root).value, BACKSLASH))
  {
    var p, r := Split(ValidateWindowsPath(path).value, BACKSLASH), Split(ValidateInstallerRoot(root).value, BACKSLASH);
    assert Fold(fold, p[0]) == Fold(fold, r[0]);
    assert Fold(fold, p[0]) == [] <==> p[0] == [];
    assert Fold(fold, r[0]) == [] <==> r[0] == [];
  }

  // ---------------------------------------------------------------- which paths are valid, character by character

  /** A name between two backslashes: none of the characters that Windows refuses, no blank or dot at the
      end, and not one or two dots with nothing but white space around them. */
  ghost predicate GoodName(s: string) {
    && s != [] && s[|s| - 1] != ' ' && s[|s| - 1] != '.'
    && (forall i :: 0 <= i < |s| ==>
          s[i] as int >= 32 && s[i] !in {'\\', '/', ':', '*', '?', '"', '<', '>', '|'})
    && !IsTrim(".", s) && !IsTrim("..", s)
  }

  /** A server name: letters, digits, dots and hyphens, at most 253 of them, a letter or a digit at both ends. */
  ghost predicate GoodHost(s: string) {
    && 1 <= |s| <= 253 && s[0] !in {'.', '-'} && s[|s| - 1] !in {'.', '-'}
    && forall i :: 0 <= i < |s| ==>
         'A' <= s[i] <= 'Z' || 'a' <= s[i] <= 'z' || '0' <= s[i] <= '9' || s[i] == '.' || s[i] == '-'
  }

  /** All names from position `from` on are good. */
  ghost predicate GoodFrom(p: string, from: nat) {
    forall i: nat, j: nat :: from <= i && PartAt(p, '\\', i, j) ==> GoodName(p[i..j])
  }

  /** A drive, a colon and a backslash, and good names behind it. */
  ghost predicate DrivePath(p: string) {
    && |p| >= 3 && ('A' <= p[0] <= 'Z' || 'a' <= p[0] <= 'z') && p[1] == ':' && p[2] == '\\' && GoodFrom(p, 3)
  }

  /** Two backslashes, a server name and a backslash, and good names behind it. */
  ghost predicate NetworkPath(p: string) {
    && |p| >= 2 && p[0] == '\\' && p[1] == '\\'
    && exists k: nat :: 2 <= k < |p| && p[k] == '\\' && GoodHost(p[2..k]) && GoodFrom(p, k + 1)
  }

  lemma DotsMean(s: string)
    requires s != []
    ensures CleanEnd(s) <==> s[|s| - 1] != ' ' && s[|s| - 1] != '.' && !IsTrim(".", s) && !IsTrim("..", s)
  {
    StripTrims(s);
    OnlyTrim(s, ".");
    OnlyTrim(s, "..");
  }

  /** Whatever is a trimmed form of a text is what stripping gives. */
  lemma OnlyTrim(s: string, r: string)
    requires r != []
    ensures IsTrim(r, s) <==> Strip(s) == r
  {
    StripTrims(s);
    if IsTrim(r, s) {
      TrimIsUnique(s, r, Strip(s));
    }
  }

  lemma TrimIsUnique(s: string, a: string, b: string)
    requires IsTrim(a, s) && IsTrim(b, s) && a != []
    ensures a == b
  {
    var i: nat :| i + |a| <= |s| && TrimmedAt(a, s, i);
    var j: nat :| j + |b| <= |s| && TrimmedAt(b, s, j);
    assert s[i] == s[i..i + |a|][0] && s[i + |a| - 1] == s[i..i + |a|][|a| - 1];
    if b != [] {
      assert s[j] == s[j..j + |b|][0] && s[j + |b| - 1] == s[j..j + |b|][|b| - 1];
    }
  }

  lemma SegmentCharMeans(c: char)
    ensures SegmentChar(c) <==> c as int >= 32 && c !in {'\\', '/', ':', '*', '?', '"', '<', '>', '|'}
  {
  }

  lemma SegmentMeans(s: string)
    ensures IsSegment(s) <==>
            s != [] && forall i :: 0 <= i < |s| ==>
              s[i] as int >= 32 && s[i] !in {'\\', '/', ':', '*', '?', '"', '<', '>', '|'}
  {
    forall i | 0 <= i < |s|
      ensures SegmentChar(s[i]) <==>
              s[i] as int >= 32 && s[i] !in {'\\', '/', ':', '*', '?', '"', '<', '>', '|'}
    {
      SegmentCharMeans(s[i]);
    }
  }

  lemma GoodNameIff(s: string)
    requires s != []
    ensures GoodName(s) <==> IsSegment(s) && CleanEnd(s)
  {
    DotsMean(s);
    SegmentMeans(s);
  }

  /** The parts of a text that are good names, by their places. */
  lemma GoodPartsIff(q: string)
    ensures GoodFrom(q, 0) <==> AllSegments(Split(q, BACKSLASH)) && forall k :: 0 <= k < |Split(q, BACKSLASH)| ==>
              CleanEnd(Split(q, BACKSLASH)[k])
  {
    var parts := Split(q, BACKSLASH);
    if GoodFrom(q, 0) {
      forall k: nat | k < |parts| ensures IsSegment(parts[k]) && CleanEnd(parts[k]) {
        var i, j := PartHasPlace(q, BACKSLASH, k);
        assert GoodName(q[i..j]);
        GoodNameIff(parts[k]);
      }
    }
    if AllSegments(parts) && forall k :: 0 <= k < |parts| ==> CleanEnd(parts[k]) {
      forall i: nat, j: nat | PartAt(q, BACKSLASH, i, j) ensures GoodName(q[i..j]) {
        var k := PlaceHasPart(q, BACKSLASH, i, j);
        GoodNameIff(parts[k]);
      }
    }
  }

  /** What stands behind a backslash is judged on its own. */
  lemma GoodFromShift(p: string, n: nat)
    requires 0 < n <= |p| && p[n - 1] == BACKSLASH
    ensures GoodFrom(p, n) <==> GoodFrom(p[n..], 0)
  {
    var q := p[n..];
    if GoodFrom(p, n) {
      forall i: nat, j: nat | PartAt(q, BACKSLASH, i, j) ensures GoodName(q[i..j]) {
        PartShift(p, BACKSLASH, n, i, j);
      }
    }
    if GoodFrom(q, 0) {
      forall i: nat, j: nat | n <= i && PartAt(p, BACKSLASH, i, j) ensures GoodName(p[i..j]) {
        PartShift(p, BACKSLASH, n, i - n, j - n);
      }
    }
  }

  predicate CleanParts(parts: seq<string>) { forall k :: 0 <= k < |parts| ==> CleanEnd(parts[k]) }

  lemma SplitTwo(a: string, b: string)
    requires BACKSLASH !in a
    ensures Split(a + ([BACKSLASH] + b), BACKSLASH) == [a] + Split(b, BACKSLASH)
  {
    SplitConcat(a, b, BACKSLASH);
    SplitWhole(a, BACKSLASH);
  }

  lemma DriveIff(p: string)
    ensures var parts := Split(p, BACKSLASH); IsDrive(parts) && CleanParts(parts[1..]) <==> DrivePath(p)
  {
    var parts := Split(p, BACKSLASH);
    if DrivePath(p) {
      assert p == p[..2] + ([BACKSLASH] + p[3..]);
      SplitTwo(p[..2], p[3..]);
      GoodFromShift(p, 3);
      GoodPartsIff(p[3..]);
      assert parts[1..] == Split(p[3..], BACKSLASH);
    }
    if IsDrive(parts) && CleanParts(parts[1..]) {
      var n := FirstPart(p, BACKSLASH);
      assert parts[0] == p[..2] && parts[0][0] == p[0] && parts[0][1] == p[1];
      assert parts[1..] == Split(p[3..], BACKSLASH);
      GoodPartsIff(p[3..]);
      GoodFromShift(p, 3);
    }
  }

  lemma HostIff(s: string)
    ensures IsHost(s) <==> GoodHost(s)
    ensures GoodHost(s) ==> BACKSLASH !in s
  {
  }

  /** Neither white space nor a dot at either end. */
  lemma EndsClean(s: string)
    requires s != [] && !IsSpace(s[0]) && !IsSpace(s[|s| - 1]) && s[0] != '.' && !IsDot(s[|s| - 1])
    ensures CleanEnd(s)
  {
    StripIsIdentity(s);
  }

  lemma HostIsClean(s: string)
    requires GoodHost(s)
    ensures CleanEnd(s)
  {
    EndsClean(s);
  }

  lemma SplitLeading(s: string)
    requires s != [] && s[0] == BACKSLASH
    ensures Split(s, BACKSLASH) == [""] + Split(s[1..], BACKSLASH)
  {
  }

  lemma NetworkParts(p: string, k: nat)
    requires 2 <= k < |p| && p[0] == BACKSLASH && p[1] == BACKSLASH && p[k] == BACKSLASH && BACKSLASH !in p[2..k]
    ensures Split(p, BACKSLASH) == ["", "", p[2..k]] + Split(p[k + 1..], BACKSLASH)
  {
    var rest := Split(p[k + 1..], BACKSLASH);
    HostAndRest(p, k);
    HostParts(p[2..], p[2..k], p[k + 1..]);
    SplitLeading(p);
    SplitLeading(p[1..]);
    SecondTail(p);
    ThreeParts(p[2..k], rest);
  }

  lemma HostAndRest(p: string, k: nat)
    requires 2 <= k < |p| && p[k] == BACKSLASH
    ensures p[2..] == p[2..k] + ([BACKSLASH] + p[k + 1..])
  {
  }

  lemma SecondTail(p: string)
    requires |p| >= 2
    ensures p[1..][1..] == p[2..] && p[1..][0] == p[1]
  {
  }

  lemma HostParts(q: string, host: string, rest: string)
    requires BACKSLASH !in host && q == host + ([BACKSLASH] + rest)
    ensures Split(q, BACKSLASH) == [host] + Split(rest, BACKSLASH)
  {
    SplitTwo(host, rest);
  }

  lemma ThreeParts(host: string, rest: seq<string>)
    ensures [""] + ([""] + ([host] + rest)) == ["", "", host] + rest
  {
  }

  lemma EmptyFirst(p: string)
    requires |Split(p, BACKSLASH)| >= 2 && Split(p, BACKSLASH)[0] == ""
    ensures p != [] && p[0] == BACKSLASH && Split(p[1..], BACKSLASH) == Split(p, BACKSLASH)[1..]
  {
    var n := FirstPart(p, BACKSLASH);
  }

  lemma FirstEnds(q: string) returns (n: nat)
    requires |Split(q, BACKSLASH)| >= 2
    ensures n < |q| && q[n] == BACKSLASH && q[..n] == Split(q, BACKSLASH)[0] && BACKSLASH !in q[..n]
  {
    n := FirstPart(q, BACKSLASH);
  }

  /** Where the server name of a network path ends. */
  lemma HostEnds(p: string) returns (k: nat)
    requires IsUnc(Split(p, BACKSLASH))
    ensures 2 <= k < |p| && p[0] == BACKSLASH && p[1] == BACKSLASH && p[k] == BACKSLASH
    ensures p[2..k] == Split(p, BACKSLASH)[2] && BACKSLASH !in p[2..k]
  {
    EmptyFirst(p);
    EmptyFirst(p[1..]);
    assert p[1..][1..] == p[2..];
    var n := FirstEnds(p[2..]);
    k := n + 2;
    assert p[2..][..n] == p[2..k];
  }

  lemma NetworkIff(p: string)
    ensures var parts := Split(p, BACKSLASH); IsUnc(parts) && CleanParts(parts[3..]) <==> NetworkPath(p)
  {
    var parts := Split(p, BACKSLASH);
    if NetworkPath(p) {
      var k: nat :| 2 <= k < |p| && p[k] == BACKSLASH && GoodHost(p[2..k]) && GoodFrom(p, k + 1);
      HostIff(p[2..k]);
      NetworkParts(p, k);
      BehindHost(p, k);
    }
    if IsUnc(parts) && CleanParts(parts[3..]) {
      var k := HostEnds(p);
      HostIff(p[2..k]);
      NetworkParts(p, k);
      BehindHost(p, k);
    }
  }

  lemma BehindHost(p: string, k: nat)
    requires k < |p| && p[k] == BACKSLASH
    ensures GoodFrom(p, k + 1) <==>
            AllSegments(Split(p[k + 1..], BACKSLASH)) && CleanParts(Split(p[k + 1..], BACKSLASH))
  {
    GoodFromShift(p, k + 1);
    GoodPartsIff(p[k + 1..]);
  }

  /** No slash in a path all parts of which are without one. */
  lemma {:induction false} NoSlash(parts: seq<string>)
    requires |parts| >= 1 && forall k :: 0 <= k < |parts| ==> '/' !in parts[k]
    ensures '/' !in Join(parts, BACKSLASH)
  {
    if |parts| > 1 {
      NoSlash(parts[1..]);
    }
  }

  lemma FormHasNoSlash(p: string)
    requires IsUnc(Split(p, BACKSLASH)) || IsDrive(Split(p, BACKSLASH))
    ensures p != [] && '/' !in p
  {
    var parts := Split(p, BACKSLASH);
    forall k | 0 <= k < |parts| ensures '/' !in parts[k] {
      if IsUnc(parts) && k >= 3 {
        assert IsSegment(parts[3..][k - 3]);
      }
      if IsDrive(parts) && k >= 1 {
        assert IsSegment(parts[1..][k - 1]);
      }
    }
    NoSlash(parts);
    JoinSplit(p, BACKSLASH);
    assert p == [] ==> parts == [""];
  }

  /** All parts but the empty ones have clean ends. */
  predicate CleanNames(parts: seq<string>) {
    forall i :: 0 <= i < |parts| && parts[i] != [] ==> CleanEnd(parts[i])
  }

  lemma NoneEmpty(parts: seq<string>, n: nat)
    requires n <= |parts| && AllSegments(parts[n..])
    ensures forall i :: n <= i < |parts| ==> parts[i] != []
  {
    forall i | n <= i < |parts| ensures parts[i] != [] {
      assert IsSegment(parts[n..][i - n]);
    }
  }

  lemma CleanTail(parts: seq<string>, n: nat)
    requires n <= |parts|
    ensures CleanParts(parts[n..]) <==> forall i :: n <= i < |parts| ==> CleanEnd(parts[i])
  {
    if CleanParts(parts[n..]) {
      forall i | n <= i < |parts| ensures CleanEnd(parts[i]) {
        assert parts[n..][i - n] == parts[i];
      }
    }
  }

  lemma CleanBehind(parts: seq<string>, n: nat, clean: string)
    requires n <= |parts| && AllSegments(parts[n..]) && CleanEnd(clean)
    requires forall i :: 0 <= i < n ==> parts[i] == [] || parts[i] == clean
    ensures CleanNames(parts) <==> CleanParts(parts[n..])
  {
    NoneEmpty(parts, n);
    CleanTail(parts, n);
  }

  lemma CleanNetwork(parts: seq<string>)
    requires IsUnc(parts)
    ensures CleanNames(parts) <==> CleanParts(parts[3..])
  {
    var host := parts[2];
    HostIff(host);
    HostIsClean(host);
    FirstThree(parts, host);
    CleanBehind(parts, 3, host);
  }

  lemma FirstThree(parts: seq<string>, host: string)
    requires |parts| >= 3 && parts[0] == "" && parts[1] == "" && parts[2] == host
    ensures forall i :: 0 <= i < 3 ==> parts[i] == [] || parts[i] == host
  {
    forall i | 0 <= i < 3 ensures parts[i] == [] || parts[i] == host {
      if i == 0 {
      } else if i == 1 {
      } else {
        assert i == 2;
      }
    }
  }

  lemma CleanDrive(parts: seq<string>)
    requires IsDrive(parts)
    ensures CleanNames(parts) <==> CleanParts(parts[1..])
  {
    EndsClean(parts[0]);
    CleanBehind(parts, 1, parts[0]);
  }

  /** Validation in terms of the parts. */
  lemma ValidByParts(value: string)
    ensures var parts := Split(Strip(value), BACKSLASH);
            ValidateWindowsPath(value).Some? <==>
              (IsUnc(parts) && CleanParts(parts[3..])) || (IsDrive(parts) && CleanParts(parts[1..]))
  {
    var p := Strip(value);
    var parts := Split(p, BACKSLASH);
    if IsUnc(parts) || IsDrive(parts) {
      FormHasNoSlash(p);
      if IsUnc(parts) {
        CleanNetwork(parts);
      } else {
        CleanDrive(parts);
      }
    }
  }

  /** A path is accepted if and only if, without the white space at its ends, it is a drive path or a
      network path with good names only; and what is returned is that. */
  lemma ValidPathIff(value: string)
    ensures ValidateWindowsPath(value).Some? <==> DrivePath(Strip(value)) || NetworkPath(Strip(value))
    ensures ValidateWindowsPath(value).Some? ==>
              ValidateWindowsPath(value).value == Strip(value) && IsTrim(Strip(value), value)
  {
    StripTrims(value);
    ValidByParts(value);
    DriveIff(Strip(value));
    NetworkIff(Strip(value));
  }

  /** No name in an accepted path is empty, a dot or two, or ends in a blank or a dot. */
  lemma NoTraversal(value: string, i: nat, j: nat)
    requires ValidateWindowsPath(value).Some? && PartAt(ValidateWindowsPath(value).value, '\\', i, j) && i >= 3
    ensures var name := ValidateWindowsPath(value).value[i..j];
            && name != "." && name != ".." && name != "" && name[|name| - 1] != ' ' && name[|name| - 1] != '.'
  {
    var p := ValidateWindowsPath(value).value;
    ValidPathIff(value);
    if NetworkPath(p) {
      NetworkNameIsGood(p, i, j);
    }
    assert GoodName(p[i..j]);
  }

  lemma NetworkNameIsGood(p: string, i: nat, j: nat)
    requires NetworkPath(p) && PartAt(p, BACKSLASH, i, j) && i >= 3
    ensures GoodName(p[i..j])
  {
    var k: nat :| 2 <= k < |p| && p[k] == BACKSLASH && GoodHost(p[2..k]) && GoodFrom(p, k + 1);
    forall m | 2 <= m < k ensures p[m] != BACKSLASH {
      assert p[2..k][m - 2] == p[m];
    }
  }

  /** A root is the valid path in front of the backslashes at its end. */
  lemma RootIff(value: string, r: string)
    ensures ValidateInstallerRoot(value) == Some(r) <==>
            exists i: nat :: EndsInBackslashes(Strip(value), i) && ValidateWindowsPath(Strip(value)[..i]) == Some(r)
  {
    var s := Strip(value);
    var q := RStrip(s, IsBackslash);
    assert EndsInBackslashes(s, |q|) && s[..|q|] == q;
    forall k | 0 <= k < |q| ensures s[k] == q[k] {
    }
    assert forall i: nat :: EndsInBackslashes(s, i) ==> i == |q|;
  }

  /** From position `i` on there are backslashes only, and none just before it. */
  ghost predicate EndsInBackslashes(s: string, i: nat) {
    i <= |s| && (forall k :: i <= k < |s| ==> s[k] == '\\') && (i > 0 ==> s[i - 1] != '\\')
  }
}
