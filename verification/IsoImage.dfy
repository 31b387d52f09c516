/** `build_answer_iso`: the image is written sector by sector into one growing byte array. */
module IsoImage {
  import opened Options
  import opened AppGraph
  import opened IsoBuilder
  import opened IsoFormat
  import opened IsoLayout
  import opened IsoNumbers
  import opened Numbers
  import opened IsoPlan

  // ---------------------------------------------------------------- sorting

  /** `x` put in front of the first element it comes before. */
  function Insert(o: Order, s: seq<Name>, x: Name): (r: seq<Name>)
    requires SortedBy(o, s) && Distinct(s) && x !in s
    ensures SortedBy(o, r) && Distinct(r) && forall n :: n in r <==> n in s || n == x
  {
    if s == [] then [x]
    else if Before(o, x, s[0]) then
      InsertFirst(o, s, x);
      [x] + s
    else
      RestIsSorted(o, s);
      var rest := Insert(o, s[1..], x);
      InsertLater(o, s, x, rest);
      [s[0]] + rest
  }

  lemma RestIsSorted(o: Order, s: seq<Name>)
    requires SortedBy(o, s) && Distinct(s) && s != []
    ensures SortedBy(o, s[1..]) && Distinct(s[1..]) && forall n :: n in s <==> n == s[0] || n in s[1..]
  {
    assert s == [s[0]] + s[1..];
  }

  lemma InsertFirst(o: Order, s: seq<Name>, x: Name)
    requires SortedBy(o, s) && Distinct(s) && x !in s && s != [] && Before(o, x, s[0])
    ensures SortedBy(o, [x] + s) && Distinct([x] + s)
  {
    var r := [x] + s;
    forall i, j | 0 <= i < j < |r| ensures Before(o, r[i], r[j]) && r[i] != r[j] {
      if i == 0 && j > 1 {
        BeforeTransitive(o, x, s[0], s[j - 1]);
      }
    }
  }

  lemma InsertLater(o: Order, s: seq<Name>, x: Name, rest: seq<Name>)
    requires SortedBy(o, s) && Distinct(s) && x !in s && s != [] && !Before(o, x, s[0])
    requires SortedBy(o, rest) && Distinct(rest) && forall n :: n in rest <==> n in s[1..] || n == x
    ensures SortedBy(o, [s[0]] + rest) && Distinct([s[0]] + rest)
    ensures forall n :: n in [s[0]] + rest <==> n in s || n == x
  {
    BeforeTotal(o, x, s[0]);
    SameElements(s, x, rest);
    forall n | n in rest ensures Before(o, s[0], n) && s[0] != n {
      if n != x {
        FirstIsLeast(o, s, n);
      }
    }
    PrependLeast(o, s[0], rest);
  }

  lemma PrependLeast(o: Order, a: Name, rest: seq<Name>)
    requires SortedBy(o, rest) && Distinct(rest) && forall n :: n in rest ==> Before(o, a, n) && a != n
    ensures SortedBy(o, [a] + rest) && Distinct([a] + rest)
  {
    var r := [a] + rest;
    forall i, j | 0 <= i < j < |r| ensures Before(o, r[i], r[j]) && r[i] != r[j] {
      assert r[j] == rest[j - 1] && rest[j - 1] in rest;
    }
  }

  lemma SameElements(s: seq<Name>, x: Name, rest: seq<Name>)
    requires s != [] && forall n :: n in rest <==> n in s[1..] || n == x
    ensures forall n :: n in [s[0]] + rest <==> n in s || n == x
  {
    assert s == [s[0]] + s[1..];
  }

  lemma FirstIsLeast(o: Order, s: seq<Name>, n: Name)
    requires SortedBy(o, s) && Distinct(s) && s != [] && n in s[1..]
    ensures Before(o, s[0], n) && s[0] != n
  {
    var k :| 0 <= k < |s[1..]| && s[1..][k] == n;
    assert s[k + 1] == n;
  }

  /** `sorted(files)`, by name or by identifier and name. */
  method Sorted(o: Order, files: Files) returns (s: seq<Name>)
    ensures IsListing(o, files, s)
  {
    s := [];
    var rest := files.Keys;
    while rest != {}
      invariant SortedBy(o, s) && Distinct(s) && rest <= files.Keys
      invariant forall n :: n in s <==> n in files && n !in rest
      decreases rest
    {
      var n :| n in rest;
      s := Insert(o, s, n);
      rest := rest - {n};
    }
  }

  // ---------------------------------------------------------------- writing a sector

  /** `image[sector * 2048:sector * 2048 + len(payload)] = payload`: a slice past the end makes the
      byte array longer. */
  function PutSector(image: Bytes, sector: nat, payload: Bytes): (r: Bytes)
    requires sector * SECTOR <= |image|
    ensures |r| == Max(|image|, sector * SECTOR + |payload|)
    ensures SameOn(image, r, 0, sector * SECTOR) && At(r, sector * SECTOR, payload)
    ensures forall i :: sector * SECTOR + |payload| <= i < |image| ==> r[i] == image[i]
  {
    var at := sector * SECTOR;
    var end := if at + |payload| <= |image| then at + |payload| else |image|;
    image[..at] + payload + image[end..]
  }

  lemma BlockKept(b: Bytes, c: Bytes, to: nat, sector: nat, span: nat, payload: Bytes)
    requires Block(b, sector, span, payload) && SameOn(b, c, 0, to) && (sector + span) * SECTOR <= to
    ensures Block(c, sector, span, payload)
  {
  }

  /** Nothing is written from sector `sector` on. */
  predicate Unwritten(image: Bytes, sector: nat, total: nat) {
    |image| == total * SECTOR && sector <= total && ZeroRange(image, sector * SECTOR, |image|)
  }

  method WriteBlock(image: Bytes, sector: nat, ghost span: nat, payload: Bytes, ghost total: nat) returns (r: Bytes)
    requires Unwritten(image, sector, total) && sector + span <= total && |payload| <= span * SECTOR
    ensures Unwritten(r, sector + span, total) && Block(r, sector, span, payload)
            && SameOn(image, r, 0, sector * SECTOR)
    ensures r == PutSector(image, sector, payload)
  {
    r := PutSector(image, sector, payload);
  }

  // ---------------------------------------------------------------- the sectors before the files

  /** The sectors from 16 on hold these payloads, one each. */
  ghost predicate Written(image: Bytes, payloads: seq<Bytes>) {
    forall k :: 0 <= k < |payloads| ==> Block(image, PVD + k, 1, payloads[k])
  }

  lemma WrittenKept(b: Bytes, c: Bytes, payloads: seq<Bytes>)
    requires Written(b, payloads) && SameOn(b, c, 0, (PVD + |payloads|) * SECTOR)
    ensures Written(c, payloads)
  {
    forall k | 0 <= k < |payloads| ensures Block(c, PVD + k, 1, payloads[k]) {
      BlockKept(b, c, (PVD + |payloads|) * SECTOR, PVD + k, 1, payloads[k]);
    }
  }

  method WriteNext(image: Bytes, sector: nat, ghost done: seq<Bytes>, payload: Bytes, ghost total: nat)
    returns (r: Bytes)
    requires sector == PVD + |done| && sector < total && |payload| <= SECTOR
    requires Unwritten(image, sector, total) && Written(image, done) && ZeroRange(image, 0, PVD * SECTOR)
    ensures Unwritten(r, sector + 1, total) && Written(r, done + [payload]) && ZeroRange(r, 0, PVD * SECTOR)
  {
    r := WriteBlock(image, sector, 1, payload, total);
    WrittenKept(image, r, done);
  }

  lemma DescriptorBlock(image: Bytes, sector: nat, d: Bytes, joliet: bool, total: nat)
    requires total < U32 && Block(image, sector, 1, d) && IsDescriptor(d, LayoutOf(joliet, total))
    ensures DescriptorIn(image, sector, joliet, total)
  {
    assert image[sector * SECTOR..(sector + 1) * SECTOR] == d;
  }

  lemma FrontFrom(image: Bytes, total: nat, done: seq<Bytes>)
    requires total < U32 && Written(image, done) && ZeroRange(image, 0, PVD * SECTOR) && |done| == 7
    requires IsDescriptor(done[0], LayoutOf(false, total)) && IsDescriptor(done[1], LayoutOf(true, total))
    requires done[2] == TERMINATOR_BYTES && done[3] == PathTable(RootExtent(false), false)
    requires done[4] == PathTable(RootExtent(false), true) && done[5] == PathTable(RootExtent(true), false)
    requires done[6] == PathTable(RootExtent(true), true)
    ensures Front(image, total)
  {
    assert Block(image, PVD + 0, 1, done[0]) && Block(image, PVD + 1, 1, done[1]) && Block(image, PVD + 2, 1, done[2]);
    assert Block(image, PVD + 3, 1, done[3]) && Block(image, PVD + 4, 1, done[4]);
    assert Block(image, PVD + 5, 1, done[5]) && Block(image, PVD + 6, 1, done[6]);
    DescriptorBlock(image, PVD, done[0], false, total);
    DescriptorBlock(image, SVD, done[1], true, total);
  }

  lemma DescriptorKept(b: Bytes, c: Bytes, sector: nat, joliet: bool, total: nat)
    requires total < U32 && DescriptorIn(b, sector, joliet, total) && SameOn(b, c, 0, (sector + 1) * SECTOR)
    ensures DescriptorIn(c, sector, joliet, total)
  {
    assert b[sector * SECTOR..(sector + 1) * SECTOR] == c[sector * SECTOR..(sector + 1) * SECTOR];
  }

  lemma PathTablesKept(b: Bytes, c: Bytes, joliet: bool)
    requires PathTablesIn(b, joliet) && SameOn(b, c, 0, RootExtent(false) * SECTOR)
    ensures PathTablesIn(c, joliet)
  {
    BlockKept(b, c, RootExtent(false) * SECTOR, LTable(joliet), 1, PathTable(RootExtent(joliet), false));
    BlockKept(b, c, RootExtent(false) * SECTOR, MTable(joliet), 1, PathTable(RootExtent(joliet), true));
  }

  lemma FrontKept(b: Bytes, c: Bytes, total: nat)
    requires total < U32 && Front(b, total) && SameOn(b, c, 0, RootExtent(false) * SECTOR)
    ensures Front(c, total)
  {
    DescriptorKept(b, c, PVD, false, total);
    DescriptorKept(b, c, SVD, true, total);
    BlockKept(b, c, RootExtent(false) * SECTOR, TERMINATOR, 1, TERMINATOR_BYTES);
    PathTablesKept(b, c, false);
    PathTablesKept(b, c, true);
  }

  method WriteDescriptors(total: nat) returns (image: Bytes, ghost done: seq<Bytes>)
    requires FIRST_FILE <= total < U32
    ensures Unwritten(image, 19, total) && Written(image, done) && ZeroRange(image, 0, PVD * SECTOR) && |done| == 3
    ensures IsDescriptor(done[0], LayoutOf(false, total)) && IsDescriptor(done[1], LayoutOf(true, total))
    ensures done[2] == TERMINATOR_BYTES
  {
    image, done := Zeros(total * SECTOR), [];
    var pvd := VolumeDescriptor(LayoutOf(false, total));
    image := WriteNext(image, PVD, done, pvd, total);
    done := done + [pvd];
    var svd := VolumeDescriptor(LayoutOf(true, total));
    image := WriteNext(image, SVD, done, svd, total);
    done := done + [svd];
    image := WriteNext(image, TERMINATOR, done, TERMINATOR_BYTES, total);
    done := done + [TERMINATOR_BYTES];
  }

  method WritePathTables(image0: Bytes, ghost done0: seq<Bytes>, ghost total: nat)
    returns (image: Bytes, ghost done: seq<Bytes>)
    requires Unwritten(image0, 19, total) && Written(image0, done0) && ZeroRange(image0, 0, PVD * SECTOR)
    requires |done0| == 3 && FIRST_FILE <= total
    ensures Unwritten(image, 23, total) && Written(image, done) && ZeroRange(image, 0, PVD * SECTOR)
    ensures |done| == 7 && done[..3] == done0
    ensures done[3] == PathTable(RootExtent(false), false) && done[4] == PathTable(RootExtent(false), true)
    ensures done[5] == PathTable(RootExtent(true), false) && done[6] == PathTable(RootExtent(true), true)
  {
    image, done := image0, done0;
    var lPrimary, mPrimary := PathTable(RootExtent(false), false), PathTable(RootExtent(false), true);
    var lJoliet, mJoliet := PathTable(RootExtent(true), false), PathTable(RootExtent(true), true);
    image := WriteNext(image, LTable(false), done, lPrimary, total);
    done := done + [lPrimary];
    image := WriteNext(image, MTable(false), done, mPrimary, total);
    done := done + [mPrimary];
    image := WriteNext(image, LTable(true), done, lJoliet, total);
    done := done + [lJoliet];
    image := WriteNext(image, MTable(true), done, mJoliet, total);
    done := done + [mJoliet];
  }

  method WriteFront(total: nat) returns (image: Bytes)
    requires FIRST_FILE <= total < U32
    ensures Unwritten(image, RootExtent(false), total) && Front(image, total)
  {
    ghost var descriptors, done;
    image, descriptors := WriteDescriptors(total);
    image, done := WritePathTables(image, descriptors, total);
    assert done[0] == done[..3][0] && done[1] == done[..3][1] && done[2] == done[..3][2];
    FrontFrom(image, total, done);
  }

  // ---------------------------------------------------------------- the directories

  lemma {:induction false} DirectoryAppend(es: seq<Entry>, e: Entry)
    requires AllRecordable(es) && Recordable(e)
    ensures AllRecordable(es + [e]) && DirectoryBytes(es + [e]) == DirectoryBytes(es) + RecordBytes(e)
  {
    if es == [] {
      assert es + [e] == [e];
    } else {
      var first, rest := es[0], es[1..];
      DirectoryAppend(rest, e);
      assert es + [e] == [first] + (rest + [e]);
      DirectoryOf(first, rest + [e]);
      BytesAssoc(RecordBytes(first), DirectoryBytes(rest), RecordBytes(e));
    }
  }

  lemma BytesAssoc(a: Bytes, b: Bytes, c: Bytes)
    ensures a + (b + c) == (a + b) + c
  {
  }

  /** The records of a directory one after the other, unless one of them does not fit its fields. */
  method EncodeDirectory(entries: seq<Entry>) returns (r: Option<Bytes>)
    ensures r.Some? <==> AllRecordable(entries)
    ensures r.Some? ==> r.value == DirectoryBytes(entries)
  {
    var bytes: Bytes := [];
    for k := 0 to |entries|
      invariant AllRecordable(entries[..k]) && bytes == DirectoryBytes(entries[..k])
    {
      if !Recordable(entries[k]) {
        return None;
      }
      DirectoryAppend(entries[..k], entries[k]);
      assert entries[..k + 1] == entries[..k] + [entries[k]];
      var record := DirectoryRecord(entries[k]);
      bytes := bytes + record;
    }
    assert entries[..|entries|] == entries;
    r := Some(bytes);
  }

  // ---------------------------------------------------------------- the files

  ghost predicate PlacedAt(files: Files, names: seq<Name>, extents: map<Name, nat>, k: nat)
    requires k < |names| && forall x :: x in names ==> x in files
  {
    names[k] in extents && extents[names[k]] == Start(files, names, k)
  }

  ghost predicate PlacedUpTo(files: Files, names: seq<Name>, extents: map<Name, nat>, n: nat)
    requires n <= |names| && forall x :: x in names ==> x in files
  {
    forall k: nat :: k < n ==> PlacedAt(files, names, extents, k)
  }

  lemma StillPlaced(files: Files, names: seq<Name>, extents: map<Name, nat>, n: nat, start: nat, k: nat)
    requires Lists(files, names) && k < n < |names| && PlacedAt(files, names, extents, k)
    ensures PlacedAt(files, names, extents[names[n] := start], k)
  {
  }

  lemma PlaceNext(files: Files, names: seq<Name>, extents: map<Name, nat>, n: nat)
    requires Lists(files, names) && n < |names| && PlacedUpTo(files, names, extents, n)
    ensures PlacedUpTo(files, names, extents[names[n] := Start(files, names, n)], n + 1)
  {
    var next := extents[names[n] := Start(files, names, n)];
    forall k: nat | k < n ensures PlacedAt(files, names, next, k) {
      StillPlaced(files, names, extents, n, Start(files, names, n), k);
    }
  }

  lemma AllPlaced(files: Files, names: seq<Name>, extents: map<Name, nat>)
    requires Lists(files, names) && PlacedUpTo(files, names, extents, |names|) && extents.Keys <= files.Keys
    ensures Placed(files, names, extents) && extents.Keys == files.Keys
  {
    forall n | n in files ensures n in extents {
      assert n in names;
      var k: nat :| k < |names| && names[k] == n;
      assert PlacedAt(files, names, extents, k);
    }
    forall k: nat | k < |names| ensures names[k] in extents && extents[names[k]] == Start(files, names, k) {
      assert PlacedAt(files, names, extents, k);
    }
  }

  /** Where each file begins, and the number of sectors in all. */
  method PlaceFiles(files: Files, names: seq<Name>) returns (extents: map<Name, nat>, total: nat)
    requires Lists(files, names)
    ensures Placed(files, names, extents) && extents.Keys == files.Keys && total == Start(files, names, |names|)
  {
    extents, total := map[], FIRST_FILE;
    for k: nat := 0 to |names|
      invariant total == Start(files, names, k) && PlacedUpTo(files, names, extents, k) && extents.Keys <= files.Keys
    {
      PlaceNext(files, names, extents, k);
      var name := names[k];
      extents := extents[name := total];
      total := total + Span(|files[name]|);
    }
    AllPlaced(files, names, extents);
  }

  /** The contents of the file at position `k` lie where the plan says. */
  ghost predicate FileAt(image: Bytes, files: Files, names: seq<Name>, k: nat)
    requires k < |names| && forall n :: n in names ==> n in files
  {
    At(image, Start(files, names, k) * SECTOR, files[names[k]])
  }

  /** Byte `i` belongs to the file at position `k`. */
  ghost predicate Covers(files: Files, names: seq<Name>, k: nat, i: nat)
    requires k < |names| && forall n :: n in names ==> n in files
  {
    Start(files, names, k) * SECTOR <= i < Start(files, names, k) * SECTOR + |files[names[k]]|
  }

  /** The first `n` files are written, and no other byte. */
  ghost predicate FilesWritten(image0: Bytes, image: Bytes, files: Files, names: seq<Name>, n: nat)
    requires n <= |names| && forall x :: x in names ==> x in files
  {
    && |image| == |image0| && (forall k: nat :: k < n ==> FileAt(image, files, names, k))
    && forall i: nat :: i < |image| && (forall k: nat :: k < n ==> !Covers(files, names, k, i)) ==>
       image[i] == image0[i]
  }

  lemma FileKept(b: Bytes, c: Bytes, files: Files, names: seq<Name>, n: nat, k: nat)
    requires k < n <= |names| && (forall x :: x in names ==> x in files) && FileAt(b, files, names, k)
    requires SameOn(b, c, 0, Start(files, names, n) * SECTOR)
    ensures FileAt(c, files, names, k)
  {
    StartMonotone(files, names, k + 1, n);
    AtKept(b, c, 0, Start(files, names, n) * SECTOR, Start(files, names, k) * SECTOR, files[names[k]]);
  }

  /** A byte outside the first `n + 1` files is not touched by the last of them. */
  lemma {:induction false} OutsideKept(image0: Bytes, b: Bytes, c: Bytes, files: Files, names: seq<Name>, n: nat,
                                       i: nat)
    requires n < |names| && (forall x :: x in names ==> x in files) && FilesWritten(image0, b, files, names, n)
    requires names[n] in files && Start(files, names, n) * SECTOR <= |b|
    requires c == PutSector(b, Start(files, names, n), files[names[n]]) && |c| == |b|
    requires i < |c| && forall k: nat :: k < n + 1 ==> !Covers(files, names, k, i)
    ensures c[i] == image0[i]
  {
    assert !Covers(files, names, n, i);
    assert c[i] == b[i];
  }

  lemma {:induction false} FilesStay(image0: Bytes, b: Bytes, c: Bytes, files: Files, names: seq<Name>, n: nat, k: nat)
    requires k < n < |names| && (forall x :: x in names ==> x in files) && FilesWritten(image0, b, files, names, n)
    requires SameOn(b, c, 0, Start(files, names, n) * SECTOR)
    ensures FileAt(c, files, names, k)
  {
    assert FileAt(b, files, names, k);
    FileKept(b, c, files, names, n, k);
  }

  /** Writing one more file. */
  lemma {:induction false} FileWritten(image0: Bytes, b: Bytes, c: Bytes, files: Files, names: seq<Name>, n: nat)
    requires n < |names| && (forall x :: x in names ==> x in files) && FilesWritten(image0, b, files, names, n)
    requires names[n] in files && (Start(files, names, n) + Span(|files[names[n]]|)) * SECTOR <= |b|
    requires c == PutSector(b, Start(files, names, n), files[names[n]])
    ensures FilesWritten(image0, c, files, names, n + 1)
  {
    assert |c| == |b| && FileAt(c, files, names, n);
    forall k: nat | k < n ensures FileAt(c, files, names, k) {
      FilesStay(image0, b, c, files, names, n, k);
    }
    forall i: nat | i < |c| && (forall k: nat :: k < n + 1 ==> !Covers(files, names, k, i)) ensures c[i] == image0[i] {
      OutsideKept(image0, b, c, files, names, n, i);
    }
  }

  /** The last loop. */
  method WriteFiles(image0: Bytes, files: Files, names: seq<Name>, extents: map<Name, nat>) returns (image: Bytes)
    requires Lists(files, names) && Placed(files, names, extents)
    requires |image0| >= Start(files, names, |names|) * SECTOR
    ensures FilesWritten(image0, image, files, names, |names|)
  {
    image := image0;
    for k: nat := 0 to |names|
      invariant FilesWritten(image0, image, files, names, k)
    {
      FileEnds(files, names, k);
      ghost var before := image;
      image := PutSector(image, extents[names[k]], files[names[k]]);
      FileWritten(image0, before, image, files, names, k);
    }
  }

  // ---------------------------------------------------------------- the whole image

  /** The two root directories. */
  method WriteDirectories(image0: Bytes, primary: Bytes, joliet: Bytes, ghost total: nat) returns (image: Bytes)
    requires FIRST_FILE <= total && Unwritten(image0, RootExtent(false), total)
    ensures |image| == ImageLength(total, primary, joliet) && SameOn(image0, image, 0, RootExtent(false) * SECTOR)
    ensures forall i: nat :: RootExtent(false) * SECTOR <= i < |image| ==> image[i] == Left(primary, joliet, i)
  {
    var withPrimary := PutSector(image0, RootExtent(false), primary);
    image := PutSector(withPrimary, RootExtent(true), joliet);
    DirectoriesLeave(image0, withPrimary, image, primary, joliet, total);
  }

  lemma JolietLeaves(b: Bytes, c: Bytes, joliet: Bytes, i: nat)
    requires RootExtent(true) * SECTOR <= |b| && c == PutSector(b, RootExtent(true), joliet) && i < |c|
    ensures var j := RootExtent(true) * SECTOR;
            if j <= i < j + |joliet| then c[i] == joliet[i - j] else i < |b| && c[i] == b[i]
  {
    var j := RootExtent(true) * SECTOR;
    assert j <= i < j + |joliet| ==> c[j + (i - j)] == joliet[i - j];
  }

  lemma PrimaryLeaves(image0: Bytes, b: Bytes, primary: Bytes, total: nat, i: nat)
    requires FIRST_FILE <= total && Unwritten(image0, RootExtent(false), total)
    requires b == PutSector(image0, RootExtent(false), primary) && RootExtent(false) * SECTOR <= i < |b|
    ensures b[i] == if i < RootExtent(false) * SECTOR + |primary| then primary[i - RootExtent(false) * SECTOR] else 0
  {
    var p := RootExtent(false) * SECTOR;
    assert i < p + |primary| ==> b[p + (i - p)] == primary[i - p];
    assert i >= p + |primary| ==> i < |image0| && b[i] == image0[i];
  }

  lemma DirectoriesLeave(image0: Bytes, b: Bytes, c: Bytes, primary: Bytes, joliet: Bytes, total: nat)
    requires FIRST_FILE <= total && Unwritten(image0, RootExtent(false), total)
    requires b == PutSector(image0, RootExtent(false), primary) && c == PutSector(b, RootExtent(true), joliet)
    ensures forall i: nat :: RootExtent(false) * SECTOR <= i < |c| ==> c[i] == Left(primary, joliet, i)
  {
    forall i: nat | RootExtent(false) * SECTOR <= i < |c| ensures c[i] == Left(primary, joliet, i) {
      JolietLeaves(b, c, joliet, i);
      if i < |b| {
        PrimaryLeaves(image0, b, primary, total, i);
      }
    }
  }

  /** A byte outside all files is outside those of the listing. */
  lemma OutsideFiles(files: Files, plan: Plan, i: nat, k: nat)
    requires IsPlan(files, plan) && !InFile(files, plan.extents, i) && k < |plan.names|
    ensures !Covers(files, plan.names, k, i)
  {
    PlanLists(files, plan, false);
    assert plan.names[k] in plan.names;
  }

  lemma FilesOfPlan(directories: Bytes, image: Bytes, files: Files, plan: Plan)
    requires IsPlan(files, plan) && FilesWritten(directories, image, files, plan.names, |plan.names|)
    ensures forall n :: n in files ==> At(image, plan.extents[n] * SECTOR, files[n])
    ensures forall i: nat :: i < |image| && !InFile(files, plan.extents, i) ==> image[i] == directories[i]
  {
    PlanLists(files, plan, false);
    forall n | n in files ensures At(image, plan.extents[n] * SECTOR, files[n]) {
      assert n in plan.names;
      var k: nat :| k < |plan.names| && plan.names[k] == n;
      assert FileAt(image, files, plan.names, k);
    }
    forall i: nat | i < |image| && !InFile(files, plan.extents, i) ensures image[i] == directories[i] {
      forall k: nat | k < |plan.names| ensures !Covers(files, plan.names, k, i) {
        OutsideFiles(files, plan, i, k);
      }
    }
  }

  lemma ImageComplete(front: Bytes, directories: Bytes, image: Bytes, files: Files, plan: Plan)
    requires IsPlan(files, plan) && Encodable(files) && plan.total < U32
    requires Front(front, plan.total) && SameOn(front, directories, 0, RootExtent(false) * SECTOR)
    requires var primary, joliet := RootBytes(files, plan, false), RootBytes(files, plan, true);
             && |directories| == ImageLength(plan.total, primary, joliet)
             && forall i: nat :: RootExtent(false) * SECTOR <= i < |directories| ==>
                directories[i] == Left(primary, joliet, i)
    requires FilesWritten(directories, image, files, plan.names, |plan.names|)
    ensures IsImage(image, files, plan)
  {
    FilesOfPlan(directories, image, files, plan);
    forall i: nat | i < RootExtent(false) * SECTOR ensures front[i] == image[i] {
      BeforeFiles(files, plan, i);
    }
    FrontKept(front, image, plan.total);
  }

  /** The directories and the files, behind the front. */
  method WriteContents(front: Bytes, files: Files, ghost plan: Plan, names: seq<Name>, extents: map<Name, nat>,
                       primary: Bytes, joliet: Bytes)
    returns (image: Bytes)
    requires IsPlan(files, plan) && Encodable(files) && FIRST_FILE <= plan.total < U32
    requires names == plan.names && extents == plan.extents
    requires Unwritten(front, RootExtent(false), plan.total) && Front(front, plan.total)
    requires primary == RootBytes(files, plan, false) && joliet == RootBytes(files, plan, true)
    ensures IsImage(image, files, plan)
  {
    PlanLists(files, plan, false);
    var directories := WriteDirectories(front, primary, joliet, plan.total);
    image := WriteFiles(directories, files, names, extents);
    ImageComplete(front, directories, image, files, plan);
  }

  /** The image of `files`, unless a number or a record does not fit its field. */
  method BuildAnswerIso(files: Files) returns (image: Option<Bytes>, ghost plan: Plan)
    ensures IsPlan(files, plan)
    ensures image.Some? <==> Encodable(files)
    ensures PlacesInNumbers(files, plan)
    ensures image.Some? <==>
            plan.total < 0x1_0000_0000 && forall n :: n in files ==> |n| <= 110 && |files[n]| < 0x1_0000_0000
    ensures image.Some? ==> IsImage(image.value, files, plan)
    ensures image.Some? ==> ImageInNumbers(image.value, files, plan)
  {
    var names := Sorted(ByName, files);
    var extents, total := PlaceFiles(files, names);
    StartMonotone(files, names, 0, |names|);
    var primary := Sorted(ById(false), files);
    var joliet := Sorted(ById(true), files);
    plan := Plan(names, primary, joliet, extents, total);
    EncodableIff(files, plan);
    PlacesMean(files, plan);
    TotalOfPlan(files, names);
    if total >= U32 {
      return None, plan;
    }
    var front := WriteFront(total);
    var primaryRoot := EncodeDirectory(Directory(false, FileEntries(files, extents, false, primary)));
    var jolietRoot := EncodeDirectory(Directory(true, FileEntries(files, extents, true, joliet)));
    if primaryRoot.None? || jolietRoot.None? {
      return None, plan;
    }
    var bytes := WriteContents(front, files, plan, names, extents, primaryRoot.value, jolietRoot.value);
    ImageMeans(bytes, files, plan);
    image := Some(bytes);
  }
}
