/** A reader of the answer image recovers the files: through the Joliet tree if its directory fits its
    sector, through the primary tree if its own does and no two names share an identifier. */
module IsoRecovery {
  import opened Options
  import opened AppGraph
  import opened IsoFormat
  import opened IsoReader
  import opened IsoLayout
  import opened IsoPlan

  // ---------------------------------------------------------------- descriptors

  lemma SliceReads(image: Bytes, at: nat, from: nat, field: Bytes)
    requires At(image, at + from, field)
    ensures image[at + from..at + from + |field|] == field
  {
    forall i | 0 <= i < |field| ensures image[at + from..at + from + |field|][i] == field[i] {
      assert image[at + from + i] == field[i];
    }
  }

  /** A descriptor `d` that lies at `at` reads as its layout says. */
  lemma ReadsIdentification(image: Bytes, at: nat, d: Bytes, l: Layout)
    requires Identification(d, l) && At(image, at, d)
    ensures image[at] == (if l.joliet then 2 else 1) && image[at + 1..at + 6] == CD001 && image[at + 6] == 1
    ensures image[at + 40..at + 72] == VolumeId(l.joliet)
  {
    SubAt(image, at, d, 1, CD001);
    SubAt(image, at, d, 40, VolumeId(l.joliet));
    SliceReads(image, at, 1, CD001);
    SliceReads(image, at, 40, VolumeId(l.joliet));
    assert d[0] == image[at + 0] && d[6] == image[at + 6];
  }

  lemma ReadsSizes(image: Bytes, at: nat, d: Bytes, l: Layout)
    requires Small(l) && Sizes(d, l) && At(image, at, d)
    ensures ReadBoth32(image, at + 80) == Some(l.sectors) && ReadBoth16(image, at + 128) == Some(SECTOR)
  {
    ReadsBoth32Within(image, at, d, 80, l.sectors);
    SubAt(image, at, d, 128, Both16(SECTOR));
    ReadsBoth16(image, at + 128, SECTOR);
  }

  lemma ReadsBoth32Within(image: Bytes, at: nat, d: Bytes, from: nat, v: nat)
    requires v < U32 && At(image, at, d) && At(d, from, Both32(v))
    ensures at + from + 8 <= |image| && ReadBoth32(image, at + from) == Some(v)
  {
    SubAt(image, at, d, from, Both32(v));
    ReadsBoth32(image, at + from, v);
  }

  lemma ReadsLe32Within(image: Bytes, at: nat, d: Bytes, from: nat, v: nat)
    requires v < U32 && At(image, at, d) && At(d, from, Le32(v))
    ensures at + from + 4 <= |image| && ReadLe32(image, at + from) == v
  {
    SubAt(image, at, d, from, Le32(v));
    ReadsLe32(image, at + from, v);
  }

  lemma ReadsBe32Within(image: Bytes, at: nat, d: Bytes, from: nat, v: nat)
    requires v < U32 && At(image, at, d) && At(d, from, Be32(v))
    ensures at + from + 4 <= |image| && ReadBe32(image, at + from) == v
  {
    SubAt(image, at, d, from, Be32(v));
    ReadsBe32(image, at + from, v);
  }

  lemma ReadsPlaces(image: Bytes, at: nat, d: Bytes, l: Layout)
    requires Small(l) && Tables(d, l) && At(image, at, d)
    ensures ReadBoth32(image, at + 132) == Some(l.pathTableSize)
    ensures ReadLe32(image, at + 140) == l.lTable && ReadBe32(image, at + 148) == l.mTable
  {
    ReadsBoth32Within(image, at, d, 132, l.pathTableSize);
    ReadsLe32Within(image, at, d, 140, l.lTable);
    ReadsBe32Within(image, at, d, 148, l.mTable);
  }

  lemma ReadsRootRecord(image: Bytes, at: nat, d: Bytes, l: Layout)
    requires Small(l) && Tables(d, l) && At(image, at, d)
    ensures ReadRecord(image, at + 156) == Some(RootEntry(0, l.root))
  {
    SubAt(image, at, d, 156, RecordBytes(RootEntry(0, l.root)));
    RecordRoundTrip(RootEntry(0, l.root), image, at + 156);
  }

  lemma PathTableFields(root: nat, big: bool)
    requires root < U32
    ensures var p := PathTable(root, big);
            && p[0] == 1 && p[1] == 0 && p[8] == 0 && p[9] == 0
            && At(p, 2, if big then Be32(root) else Le32(root)) && p[6] == (if big then 0 else 1)
            && p[7] == (if big then 1 else 0)
  {
  }

  lemma ReadsPathTable(image: Bytes, sector: nat, root: nat, big: bool)
    requires root < U32 && Block(image, sector, 1, PathTable(root, big))
    ensures ReadPathTable(image, sector, big) == Some(root)
  {
    var at, p := sector * SECTOR, PathTable(root, big);
    PathTableFields(root, big);
    assert forall i :: 0 <= i < 10 ==> image[at + i] == p[i];
    assert image[at + 0] == p[0] && image[at + 1] == p[1] && image[at + 8] == p[8] && image[at + 9] == p[9];
    assert image[at + 6] == p[6] && image[at + 7] == p[7];
    SubAt(image, at, p, 2, if big then Be32(root) else Le32(root));
    if big {
      ReadsBe32(image, at + 2, root);
    } else {
      ReadsLe32(image, at + 2, root);
    }
  }

  function Descriptor(joliet: bool): nat { if joliet then SVD else PVD }

  lemma AssembleVolume(image: Bytes, sector: nat, kind: Byte, id: Bytes, total: nat, l: nat, m: nat, root: Entry)
    requires HasSector(image, sector) && HasSector(image, l) && HasSector(image, m) && kind in {1, 2} && root.directory
    requires var at := sector * SECTOR;
             && image[at] == kind && image[at + 1..at + 6] == CD001 && image[at + 6] == 1
             && image[at + 40..at + 72] == id
             && ReadBoth32(image, at + 80) == Some(total) && ReadBoth16(image, at + 128) == Some(SECTOR)
             && ReadBoth32(image, at + 132) == Some(PATH_TABLE_SIZE)
             && ReadLe32(image, at + 140) == l && ReadBe32(image, at + 148) == m
             && ReadRecord(image, at + 156) == Some(root)
    requires ReadPathTable(image, l, false) == Some(root.extent) && ReadPathTable(image, m, true) == Some(root.extent)
    ensures ReadVolume(image, sector) == Some(Volume(kind == 2, id, total, root))
  {
  }

  /** Both descriptors read as written: kind, label, number of sectors, root directory; the path
      tables agree with them, and so do the two byte orders of every number. */
  lemma VolumeReads(image: Bytes, joliet: bool, total: nat)
    requires total < U32 && VolumeIn(image, joliet, total)
    ensures ReadVolume(image, Descriptor(joliet)) ==
            Some(Volume(joliet, VolumeId(joliet), total, RootEntry(0, RootExtent(joliet))))
  {
    var sector, l := Descriptor(joliet), LayoutOf(joliet, total);
    var at, d := sector * SECTOR, image[sector * SECTOR..(sector + 1) * SECTOR];
    assert At(image, at, d);
    ReadsIdentification(image, at, d, l);
    ReadsSizes(image, at, d, l);
    ReadsPlaces(image, at, d, l);
    ReadsRootRecord(image, at, d, l);
    ReadsPathTable(image, LTable(joliet), RootExtent(joliet), false);
    ReadsPathTable(image, MTable(joliet), RootExtent(joliet), true);
    AssembleVolume(image, sector, if joliet then 2 else 1, VolumeId(joliet), total,
                   LTable(joliet), MTable(joliet), RootEntry(0, RootExtent(joliet)));
  }

  ghost predicate VolumeIn(image: Bytes, joliet: bool, total: nat)
    requires total < U32
  {
    DescriptorIn(image, Descriptor(joliet), joliet, total) && PathTablesIn(image, joliet)
  }

  lemma FrontParts(image: Bytes, joliet: bool, total: nat)
    requires total < U32 && Front(image, total)
    ensures VolumeIn(image, joliet, total)
  {
  }

  // ---------------------------------------------------------------- directories

  ghost predicate RootKnown(image: Bytes, joliet: bool) {
    var volume := ReadVolume(image, Descriptor(joliet));
    volume.Some? && volume.value.root == RootEntry(0, RootExtent(joliet))
  }

  lemma AssembleRoot(image: Bytes, joliet: bool, bytes: Bytes, entries: seq<Entry>)
    requires RootKnown(image, joliet) && ReadExtent(image, RootExtent(joliet), SECTOR) == Some(bytes)
    requires ReadRecords(bytes, 0) == Directory(joliet, entries)
    ensures ReadRoot(image, Descriptor(joliet)) == Some(entries)
  {
    assert Directory(joliet, entries)[2..] == entries;
  }

  lemma RootReads(image: Bytes, joliet: bool, entries: seq<Entry>)
    requires RootKnown(image, joliet) && AllRecordable(Directory(joliet, entries))
    requires Block(image, RootExtent(joliet), 1, DirectoryBytes(Directory(joliet, entries)))
    ensures ReadRoot(image, Descriptor(joliet)) == Some(entries)
  {
    var es, at := Directory(joliet, entries), RootExtent(joliet) * SECTOR;
    var bytes := image[at..at + SECTOR];
    assert ReadExtent(image, RootExtent(joliet), SECTOR) == Some(bytes);
    assert At(bytes, 0, DirectoryBytes(es));
    assert |DirectoryBytes(es)| < SECTOR ==> bytes[|DirectoryBytes(es)|] == image[at + |DirectoryBytes(es)|] == 0;
    DirectoryRoundTrip(es, bytes, 0);
    AssembleRoot(image, joliet, bytes, entries);
  }

  /** A root directory of one sector cannot list more than the sector holds. */
  lemma ListedFits(image: Bytes, joliet: bool, entries: seq<Entry>)
    requires RootKnown(image, joliet) && AllRecordable(Directory(joliet, entries))
    requires ReadRoot(image, Descriptor(joliet)) == Some(entries)
    ensures |DirectoryBytes(Directory(joliet, entries))| <= SECTOR
  {
    var bytes := ReadExtent(image, RootExtent(joliet), SECTOR).value;
    var found := ReadRecords(bytes, 0);
    assert found == Directory(joliet, entries) by {
      assert found[0] == RootEntry(0, RootExtent(joliet)) && found[1] == RootEntry(1, RootExtent(joliet));
      assert found == found[..2] + found[2..];
      assert found[..2] == [found[0], found[1]];
    }
    FoundRecordsFit(bytes, 0);
  }

  ghost predicate ListsAll(image: Bytes, files: Files, plan: Plan, joliet: bool)
    requires IsPlan(files, plan)
  {
    ReadRoot(image, Descriptor(joliet)) == Some(Tree(files, plan, joliet))
  }

  /** Whatever else the image holds, a tree whose directory does not fit its sector lists too little. */
  lemma FitsIfListed(image: Bytes, files: Files, plan: Plan, joliet: bool)
    requires IsPlan(files, plan) && Encodable(files) && IsImage(image, files, plan)
             && ListsAll(image, files, plan, joliet)
    ensures Fits(files, joliet)
  {
    EncodableIff(files, plan);
    FrontParts(image, joliet, plan.total);
    VolumeReads(image, joliet, plan.total);
    ListedFits(image, joliet, Tree(files, plan, joliet));
    RootLength(files, plan, joliet);
  }

  // ---------------------------------------------------------------- an image whose directories fit

  lemma {:induction false} PositionsApart(files: Files, names: seq<Name>, i: nat, j: nat)
    requires i < j < |names| && forall n :: n in names ==> n in files
    ensures names[i] in files && Start(files, names, i) + Span(|files[names[i]]|) <= Start(files, names, j)
  {
    StartNext(files, names, i);
    StartMonotone(files, names, i + 1, j);
  }

  /** Files do not share sectors. */
  lemma FilesApart(files: Files, names: seq<Name>, extents: map<Name, nat>, i: nat, j: nat)
    requires Lists(files, names) && Placed(files, names, extents) && i < |names| && j < |names| && i != j
    ensures names[i] in files && names[j] in files
    ensures var a, b := names[i], names[j];
            extents[a] + Span(|files[a]|) <= extents[b] || extents[b] + Span(|files[b]|) <= extents[a]
  {
    if i < j {
      PositionsApart(files, names, i, j);
    } else {
      PositionsApart(files, names, j, i);
    }
  }

  lemma OtherFileOutside(files: Files, names: seq<Name>, extents: map<Name, nat>, name: Name, n: Name, i: nat)
    requires Lists(files, names) && Placed(files, names, extents) && extents.Keys == files.Keys
    requires name in files && n in files && n != name
    requires extents[name] * SECTOR <= i < (extents[name] + Span(|files[name]|)) * SECTOR
    ensures !(extents[n] * SECTOR <= i < extents[n] * SECTOR + |files[n]|)
  {
    assert name in names && n in names;
    var a: nat :| a < |names| && names[a] == name;
    var b: nat :| b < |names| && names[b] == n;
    FilesApart(files, names, extents, a, b);
  }

  /** The bytes behind a file, up to the end of its last sector, belong to no file. */
  lemma PaddingOutside(files: Files, plan: Plan, name: Name, i: nat)
    requires IsPlan(files, plan) && name in files
    requires plan.extents[name] * SECTOR + |files[name]| <= i < (plan.extents[name] + Span(|files[name]|)) * SECTOR
    ensures !InFile(files, plan.extents, i)
  {
    PlanLists(files, plan, false);
    forall n | n in files ensures !(plan.extents[n] * SECTOR <= i < plan.extents[n] * SECTOR + |files[n]|) {
      if n != name {
        OtherFileOutside(files, plan.names, plan.extents, name, n, i);
      }
    }
  }

  /** A byte outside all files is what the directories left. */
  lemma LeftOutside(image: Bytes, files: Files, plan: Plan, i: nat)
    requires IsPlan(files, plan) && Encodable(files) && IsImage(image, files, plan)
    requires RootExtent(false) * SECTOR <= i < |image| && !InFile(files, plan.extents, i)
    ensures image[i] == Left(RootBytes(files, plan, false), RootBytes(files, plan, true), i)
  {
  }

  lemma ContentsAt(image: Bytes, files: Files, plan: Plan, name: Name)
    requires IsPlan(files, plan) && Encodable(files) && IsImage(image, files, plan) && name in files
    ensures name in plan.extents && At(image, plan.extents[name] * SECTOR, files[name])
  {
  }

  /** Where the Joliet directory fits, the image is exactly as long as its sectors, and the Joliet
      directory has overwritten whatever part of the primary one went beyond its sector. */
  lemma FittingLength(image: Bytes, files: Files, plan: Plan)
    requires IsPlan(files, plan) && Encodable(files) && IsImage(image, files, plan) && Fits(files, true)
    ensures |image| == plan.total * SECTOR && FIRST_FILE <= plan.total
    ensures |RootBytes(files, plan, true)| <= SECTOR
    ensures |RootBytes(files, plan, false)| <= SECTOR + |RootBytes(files, plan, true)|
  {
    PlanLists(files, plan, false);
    StartMonotone(files, plan.names, 0, |plan.names|);
    PrimaryEnds(files, plan);
    RootLength(files, plan, true);
    assert |image| == ImageLength(plan.total, RootBytes(files, plan, false), RootBytes(files, plan, true));
  }

  /** The primary directory is at most two bytes longer than the Joliet one, so it never reaches beyond
      the end of that. */
  lemma PrimaryEnds(files: Files, plan: Plan)
    requires IsPlan(files, plan) && Encodable(files)
    ensures |RootBytes(files, plan, false)| <= |RootBytes(files, plan, true)| + 2
  {
    RootLength(files, plan, false);
    RootLength(files, plan, true);
    PrimaryIsShorter(files.Keys);
  }

  /** In the overlap of the two directories the Joliet one prevails. */
  lemma LeftBlocks(image: Bytes, primary: Bytes, joliet: Bytes, tree: bool)
    requires |if tree then joliet else primary| <= SECTOR && FIRST_FILE * SECTOR <= |image|
    requires |primary| <= SECTOR + |joliet|
    requires forall i: nat :: RootExtent(false) * SECTOR <= i < FIRST_FILE * SECTOR ==>
             image[i] == Left(primary, joliet, i)
    ensures Block(image, RootExtent(tree), 1, if tree then joliet else primary)
  {
    var p, j := RootExtent(false) * SECTOR, RootExtent(true) * SECTOR;
    if tree {
      forall i | 0 <= i < |joliet| ensures image[j + i] == joliet[i] {
        assert image[j + i] == Left(primary, joliet, j + i);
      }
    } else {
      forall i | 0 <= i < |primary| ensures image[p + i] == primary[i] {
        assert image[p + i] == Left(primary, joliet, p + i);
      }
    }
  }

  /** A directory that fits its sector has it to itself, whether or not the other one fits. */
  lemma DirectoryBlock(image: Bytes, files: Files, plan: Plan, joliet: bool)
    requires IsPlan(files, plan) && Encodable(files) && IsImage(image, files, plan) && Fits(files, joliet)
    ensures Block(image, RootExtent(joliet), 1, RootBytes(files, plan, joliet))
  {
    var primary, other := RootBytes(files, plan, false), RootBytes(files, plan, true);
    PrimaryEnds(files, plan);
    RootLength(files, plan, joliet);
    LongEnough(image, files, plan);
    forall i: nat | RootExtent(false) * SECTOR <= i < FIRST_FILE * SECTOR ensures image[i] == Left(primary, other, i) {
      BeforeFiles(files, plan, i);
      LeftOutside(image, files, plan, i);
    }
    LeftBlocks(image, primary, other, joliet);
  }

  lemma LongEnough(image: Bytes, files: Files, plan: Plan)
    requires IsPlan(files, plan) && Encodable(files) && IsImage(image, files, plan)
    ensures FIRST_FILE <= plan.total && plan.total * SECTOR <= |image|
  {
    PlanLists(files, plan, false);
    StartMonotone(files, plan.names, 0, |plan.names|);
  }

  /** Where the Joliet directory fits, each file has its sectors to itself. */
  lemma FileBlock(image: Bytes, files: Files, plan: Plan, name: Name)
    requires IsPlan(files, plan) && Encodable(files) && IsImage(image, files, plan) && Fits(files, true)
    requires name in files
    ensures name in plan.extents && Block(image, plan.extents[name], Span(|files[name]|), files[name])
  {
    FittingLength(image, files, plan);
    ContentsAt(image, files, plan, name);
    FileWithin(files, plan, name);
    var from, to := plan.extents[name] * SECTOR + |files[name]|, (plan.extents[name] + Span(|files[name]|)) * SECTOR;
    forall i: nat | from <= i < to ensures image[i] == 0 {
      PaddingIsZero(image, files, plan, name, i);
    }
  }

  lemma FileWithin(files: Files, plan: Plan, name: Name)
    requires IsPlan(files, plan) && name in files
    ensures name in plan.extents && FIRST_FILE <= plan.extents[name]
    ensures plan.extents[name] + Span(|files[name]|) <= plan.total
  {
    PlanLists(files, plan, false);
    ExtentInImage(files, plan.names, plan.extents, name);
  }

  lemma PaddingIsZero(image: Bytes, files: Files, plan: Plan, name: Name, i: nat)
    requires IsPlan(files, plan) && Encodable(files) && IsImage(image, files, plan) && Fits(files, true)
    requires name in files
    requires FIRST_FILE <= plan.extents[name] && i < |image|
    requires plan.extents[name] * SECTOR + |files[name]| <= i < (plan.extents[name] + Span(|files[name]|)) * SECTOR
    ensures image[i] == 0
  {
    FittingLength(image, files, plan);
    PaddingOutside(files, plan, name, i);
    LeftOutside(image, files, plan, i);
  }

  lemma ListsIfFits(image: Bytes, files: Files, plan: Plan, joliet: bool)
    requires IsPlan(files, plan) && Encodable(files) && IsImage(image, files, plan) && Fits(files, joliet)
    ensures ListsAll(image, files, plan, joliet)
  {
    EncodableIff(files, plan);
    FrontParts(image, joliet, plan.total);
    VolumeReads(image, joliet, plan.total);
    DirectoryBlock(image, files, plan, joliet);
    RootReads(image, joliet, Tree(files, plan, joliet));
  }

  /** Each tree lists exactly its files if and only if its own directory fits the sector it has. */
  lemma ListsAllIffFits(image: Bytes, files: Files, plan: Plan, joliet: bool)
    requires IsPlan(files, plan) && Encodable(files) && IsImage(image, files, plan)
    ensures ListsAll(image, files, plan, joliet) <==> Fits(files, joliet)
  {
    if Fits(files, joliet) {
      ListsIfFits(image, files, plan, joliet);
    }
    if ListsAll(image, files, plan, joliet) {
      FitsIfListed(image, files, plan, joliet);
    }
  }

  // ---------------------------------------------------------------- what a reader is shown

  /** What the two records before those of the files leave of a sector. */
  const ROOM: nat := SECTOR - 68

  /** The leading names whose records fit in `room` bytes. */
  function Shown(joliet: bool, listing: seq<Name>, room: nat): seq<Name> {
    if listing == [] || RecordSize(joliet)(listing[0]) > room then []
    else [listing[0]] + Shown(joliet, listing[1..], room - RecordSize(joliet)(listing[0]))
  }

  function ShownBy(plan: Plan, joliet: bool): seq<Name> { Shown(joliet, plan.Listing(joliet), ROOM) }

  lemma {:induction false} ShownIsPrefix(joliet: bool, listing: seq<Name>, room: nat)
    ensures Shown(joliet, listing, room) <= listing
    decreases |listing|
  {
    if listing != [] && RecordSize(joliet)(listing[0]) <= room {
      ShownIsPrefix(joliet, listing[1..], room - RecordSize(joliet)(listing[0]));
      assert listing == [listing[0]] + listing[1..];
    }
  }

  lemma SameRest(listing: seq<Name>, rest: seq<Name>)
    requires listing != []
    ensures [listing[0]] + rest == listing <==> rest == listing[1..]
  {
    assert ([listing[0]] + rest)[1..] == rest;
    assert listing == [listing[0]] + listing[1..];
  }

  lemma {:induction false} ShownIff(joliet: bool, listing: seq<Name>, room: nat)
    requires Distinct(listing)
    ensures Shown(joliet, listing, room) == listing <==> Sum(Elements(listing), RecordSize(joliet)) <= room
    decreases |listing|
  {
    if listing != [] {
      FirstElement(listing);
      SumAdd(Elements(listing[1..]), listing[0], RecordSize(joliet));
      var size := RecordSize(joliet)(listing[0]);
      if size <= room {
        ShownIff(joliet, listing[1..], room - size);
        SameRest(listing, Shown(joliet, listing[1..], room - size));
      }
    }
  }

  lemma AllShownIff(files: Files, plan: Plan, joliet: bool)
    requires IsPlan(files, plan)
    ensures ShownBy(plan, joliet) == plan.Listing(joliet) <==> Fits(files, joliet)
  {
    PlanLists(files, plan, joliet);
    ListedElements(files, plan.Listing(joliet));
    ShownIff(joliet, plan.Listing(joliet), ROOM);
  }

  lemma {:induction false} WholeNames(files: Files, extents: map<Name, nat>, joliet: bool, listing: seq<Name>,
                                      room: nat)
    requires (forall n :: n in listing ==> n in files && n in extents)
    requires AllRecordable(FileEntries(files, extents, joliet, listing))
    requires forall n :: n in Shown(joliet, listing, room) ==> n in files && n in extents
    ensures Whole(FileEntries(files, extents, joliet, listing), room) ==
            FileEntries(files, extents, joliet, Shown(joliet, listing, room))
    decreases |listing|
  {
    if listing != [] {
      EntriesTail(files, extents, joliet, listing);
      RecordLength(files, extents, joliet, listing[0]);
      var size := RecordSize(joliet)(listing[0]);
      if size <= room {
        var rest := Shown(joliet, listing[1..], room - size);
        assert Shown(joliet, listing, room) == [listing[0]] + rest;
        FirstLength(FileEntry(files, extents, joliet, listing[0]), FileEntries(files, extents, joliet, listing[1..]));
        WholeNames(files, extents, joliet, listing[1..], room - size);
        EntriesTail(files, extents, joliet, Shown(joliet, listing, room));
      }
    }
  }

  lemma WholeDirectory(joliet: bool, entries: seq<Entry>)
    requires AllRecordable(Directory(joliet, entries)) && AllRecordable(entries)
    ensures Whole(Directory(joliet, entries), SECTOR) == Directory(joliet, Whole(entries, ROOM))
  {
    var self, parent := RootEntry(0, RootExtent(joliet)), RootEntry(1, RootExtent(joliet));
    assert Directory(joliet, entries)[1..] == [parent] + entries && ([parent] + entries)[1..] == entries;
    assert |RecordBytes(self)| == 34 && |RecordBytes(parent)| == 34;
    assert Whole([parent] + entries, SECTOR - 34) == [parent] + Whole(entries, ROOM);
  }

  /** The sector of a root directory that is too long holds the beginning of it. */
  lemma DirectoryCut(image: Bytes, files: Files, plan: Plan, joliet: bool)
    requires IsPlan(files, plan) && Encodable(files) && IsImage(image, files, plan) && !Fits(files, joliet)
    ensures (RootExtent(joliet) + 1) * SECTOR <= |image| && |RootBytes(files, plan, joliet)| > SECTOR
    ensures image[RootExtent(joliet) * SECTOR..(RootExtent(joliet) + 1) * SECTOR] ==
            RootBytes(files, plan, joliet)[..SECTOR]
  {
    RootLength(files, plan, joliet);
    LongEnough(image, files, plan);
    var at := RootExtent(joliet) * SECTOR;
    forall i: nat | i < SECTOR ensures image[at + i] == RootBytes(files, plan, joliet)[i] {
      DirectoryByte(image, files, plan, joliet, i);
    }
    SameSlice(image, at, RootBytes(files, plan, joliet));
  }

  lemma DirectoryByte(image: Bytes, files: Files, plan: Plan, joliet: bool, i: nat)
    requires IsPlan(files, plan) && Encodable(files) && IsImage(image, files, plan)
    requires i < SECTOR && i < |RootBytes(files, plan, joliet)| && RootExtent(joliet) * SECTOR + i < |image|
    ensures image[RootExtent(joliet) * SECTOR + i] == RootBytes(files, plan, joliet)[i]
  {
    var at := RootExtent(joliet) * SECTOR + i;
    BeforeFiles(files, plan, at);
    LeftOutside(image, files, plan, at);
    LeftInSector(RootBytes(files, plan, false), RootBytes(files, plan, true), joliet, i);
  }

  lemma LeftInSector(primary: Bytes, joliet: Bytes, tree: bool, i: nat)
    requires i < SECTOR && i < |if tree then joliet else primary|
    ensures Left(primary, joliet, RootExtent(tree) * SECTOR + i) == (if tree then joliet else primary)[i]
  {
  }

  lemma SameSlice(image: Bytes, at: nat, d: Bytes)
    requires at + SECTOR <= |image| && SECTOR <= |d| && forall i: nat :: i < SECTOR ==> image[at + i] == d[i]
    ensures image[at..at + SECTOR] == d[..SECTOR]
  {
    forall i | 0 <= i < SECTOR ensures image[at..at + SECTOR][i] == d[..SECTOR][i] {
      assert image[at + i] == d[i];
    }
  }

  lemma CutRootReads(image: Bytes, joliet: bool, entries: seq<Entry>)
    requires RootKnown(image, joliet) && AllRecordable(Directory(joliet, entries)) && AllRecordable(entries)
    requires |DirectoryBytes(Directory(joliet, entries))| > SECTOR && (RootExtent(joliet) + 1) * SECTOR <= |image|
    requires image[RootExtent(joliet) * SECTOR..(RootExtent(joliet) + 1) * SECTOR] ==
             DirectoryBytes(Directory(joliet, entries))[..SECTOR]
    ensures ReadRoot(image, Descriptor(joliet)) == Some(Whole(entries, ROOM))
  {
    var es, at := Directory(joliet, entries), RootExtent(joliet) * SECTOR;
    var bytes := image[at..at + SECTOR];
    assert ReadExtent(image, RootExtent(joliet), SECTOR) == Some(bytes);
    assert bytes == DirectoryBytes(es)[..SECTOR];
    CutRoundTrip(es, bytes, 0);
    WholeDirectory(joliet, entries);
    AssembleRoot(image, joliet, bytes, Whole(entries, ROOM));
  }

  /** What a reader of any image is shown by a tree: the files whose records fit the sector, in order, up
      to the first one that does not. */
  lemma RootShows(image: Bytes, files: Files, plan: Plan, joliet: bool)
    requires IsPlan(files, plan) && Encodable(files) && IsImage(image, files, plan)
    ensures forall n :: n in ShownBy(plan, joliet) ==> n in files && n in plan.extents
    ensures ReadRoot(image, Descriptor(joliet)) == Some(FileEntries(files, plan.extents, joliet, ShownBy(plan, joliet)))
  {
    PlanLists(files, plan, joliet);
    ShownIsPrefix(joliet, plan.Listing(joliet), ROOM);
    AllShownIff(files, plan, joliet);
    if Fits(files, joliet) {
      ListsIfFits(image, files, plan, joliet);
    } else {
      EncodableIff(files, plan);
      FrontParts(image, joliet, plan.total);
      VolumeReads(image, joliet, plan.total);
      DirectoryRecordableIff(joliet, Tree(files, plan, joliet));
      DirectoryCut(image, files, plan, joliet);
      CutRootReads(image, joliet, Tree(files, plan, joliet));
      WholeNames(files, plan.extents, joliet, plan.Listing(joliet), ROOM);
    }
  }

  /** Seven files always fit the root directories. */
  lemma FewFilesFit(files: Files, joliet: bool)
    requires Encodable(files) && |files| <= 7
    ensures Fits(files, joliet)
  {
    SumAtMost(files.Keys, RecordSize(joliet), 254);
  }

  /** Fifty-nine files never fit a directory: a record takes at least 34 bytes. */
  lemma ManyFilesDoNotFit(files: Files, joliet: bool)
    requires |files| >= 59
    ensures !Fits(files, joliet)
  {
    SumAtLeast(files.Keys, RecordSize(joliet), 34);
  }

  function Repeated(k: nat): (n: Name)
    ensures |n| == k
  {
    seq(k, _ => 'a')
  }

  /** `n` empty files with names of every length below `n`. */
  function Numbered(n: nat): (files: Files)
    ensures forall name :: name in files ==> |name| < n && files[name] == []
  {
    if n == 0 then map[] else Numbered(n - 1)[Repeated(n - 1) := []]
  }

  lemma {:induction false} NumberedSize(n: nat)
    ensures |Numbered(n)| == n
  {
    if n > 0 {
      NumberedSize(n - 1);
      assert Repeated(n - 1) !in Numbered(n - 1);
    }
  }

  lemma NumberedEncodable(n: nat)
    requires n <= 110
    ensures Encodable(Numbered(n))
  {
    NumberedSize(n);
    SumAtMost(Numbered(n).Keys, SpanOf(Numbered(n)), 1);
  }

  /** From fifty-nine on such files, though they can be encoded, are listed by neither tree. */
  lemma NumberedNotListed(n: nat, image: Bytes, plan: Plan, joliet: bool)
    requires 59 <= n && Encodable(Numbered(n)) && IsPlan(Numbered(n), plan) && IsImage(image, Numbered(n), plan)
    ensures !ListsAll(image, Numbered(n), plan, joliet)
  {
    var files := Numbered(n);
    NumberedSize(n);
    ManyFilesDoNotFit(files, joliet);
    if ListsAll(image, files, plan, joliet) {
      FitsIfListed(image, files, plan, joliet);
    }
  }

  // ---------------------------------------------------------------- files

  /** The listing has a name with the identifier of `name`. */
  ghost predicate Named(joliet: bool, listing: seq<Name>, name: Name) {
    exists n :: n in listing && Id(joliet, n) == Id(joliet, name)
  }

  /** The first such name. */
  ghost function FirstNamed(joliet: bool, listing: seq<Name>, name: Name): (r: Name)
    requires Named(joliet, listing, name)
    ensures r in listing && Id(joliet, r) == Id(joliet, name)
  {
    NamedLater(joliet, listing, name);
    if Id(joliet, listing[0]) == Id(joliet, name) then listing[0] else FirstNamed(joliet, listing[1..], name)
  }

  lemma NamedLater(joliet: bool, listing: seq<Name>, name: Name)
    ensures Named(joliet, listing, name) <==>
            listing != [] && (Id(joliet, listing[0]) == Id(joliet, name) || Named(joliet, listing[1..], name))
  {
    if listing != [] {
      assert forall n :: n in listing <==> n == listing[0] || n in listing[1..];
    }
  }

  lemma FindIn(e: Entry, es: seq<Entry>, id: Bytes)
    ensures Find([e] + es, id) == if e.id == id then Some(e) else Find(es, id)
  {
    assert ([e] + es)[1..] == es;
  }

  lemma {:induction false} FindsFirst(files: Files, extents: map<Name, nat>, joliet: bool, listing: seq<Name>,
                                      name: Name)
    requires forall n :: n in listing ==> n in files && n in extents
    ensures Find(FileEntries(files, extents, joliet, listing), Id(joliet, name)) ==
            if !Named(joliet, listing, name) then None
            else Some(FileEntry(files, extents, joliet, FirstNamed(joliet, listing, name)))
    decreases |listing|
  {
    NamedLater(joliet, listing, name);
    if listing != [] {
      EntriesTail(files, extents, joliet, listing);
      FindIn(FileEntry(files, extents, joliet, listing[0]), FileEntries(files, extents, joliet, listing[1..]),
             Id(joliet, name));
      FindsFirst(files, extents, joliet, listing[1..], name);
    }
  }

  /** Whether or not the directories fit, the contents of every file lie where the plan says. */
  lemma ContentsInPlace(image: Bytes, files: Files, plan: Plan, name: Name)
    requires IsPlan(files, plan) && Encodable(files) && IsImage(image, files, plan) && name in files
    ensures ReadExtent(image, plan.extents[name], |files[name]|) == Some(files[name])
  {
    ContentsAt(image, files, plan, name);
    ExtentReads(image, plan.extents[name], files[name]);
  }

  lemma ExtentReads(image: Bytes, sector: nat, payload: Bytes)
    requires At(image, sector * SECTOR, payload)
    ensures ReadExtent(image, sector, |payload|) == Some(payload)
  {
    assert image[sector * SECTOR..sector * SECTOR + |payload|] == payload;
  }

  /** A tree lists some of the files, and the contents of all lie where they should. */
  ghost predicate Readable(image: Bytes, files: Files, extents: map<Name, nat>, joliet: bool, listing: seq<Name>) {
    && extents.Keys == files.Keys && (forall n :: n in listing ==> n in files)
    && ReadRoot(image, Descriptor(joliet)) == Some(FileEntries(files, extents, joliet, listing))
    && forall n :: n in files ==> ReadExtent(image, extents[n], |files[n]|) == Some(files[n])
  }

  lemma ImageReadable(image: Bytes, files: Files, plan: Plan, joliet: bool)
    requires IsPlan(files, plan) && Encodable(files) && IsImage(image, files, plan)
    ensures Readable(image, files, plan.extents, joliet, ShownBy(plan, joliet))
  {
    RootShows(image, files, plan, joliet);
    PlanLists(files, plan, joliet);
    ShownIsPrefix(joliet, plan.Listing(joliet), ROOM);
    forall n | n in files ensures ReadExtent(image, plan.extents[n], |files[n]|) == Some(files[n]) {
      ContentsInPlace(image, files, plan, n);
    }
  }

  /** What a lookup by the identifier of `name` yields. */
  lemma LookupReads(image: Bytes, files: Files, extents: map<Name, nat>, joliet: bool, listing: seq<Name>, name: Name)
    requires Readable(image, files, extents, joliet, listing)
    ensures Named(joliet, listing, name) ==> FirstNamed(joliet, listing, name) in files
    ensures ReadFile(image, Descriptor(joliet), Id(joliet, name)) ==
            if Named(joliet, listing, name) then Some(files[FirstNamed(joliet, listing, name)]) else None
  {
    FindsFirst(files, extents, joliet, listing, name);
  }

  lemma JolietIdInjective(a: Name, b: Name)
    requires Id(true, a) == Id(true, b)
    ensures a == b
  {
    forall i | 0 <= i < |a| ensures a[i] == b[i] {
      assert Id(true, a)[2 * i + 1] == Id(true, b)[2 * i + 1];
    }
  }

  /** If the two names have the same identifier in the tree, they have the same contents. */
  ghost predicate Harmless(files: Files, joliet: bool, a: Name, b: Name) {
    a in files && b in files && Id(joliet, a) == Id(joliet, b) ==> files[a] == files[b]
  }

  ghost predicate Recovers(image: Bytes, files: Files, joliet: bool, name: Name) {
    name in files ==> ReadFile(image, Descriptor(joliet), Id(joliet, name)) == Some(files[name])
  }

  lemma {:induction false} FirstNamedSame(joliet: bool, listing: seq<Name>, a: Name, b: Name)
    requires Named(joliet, listing, a) && Named(joliet, listing, b) && Id(joliet, a) == Id(joliet, b)
    ensures FirstNamed(joliet, listing, a) == FirstNamed(joliet, listing, b)
    decreases |listing|
  {
    NamedLater(joliet, listing, a);
    NamedLater(joliet, listing, b);
    if Id(joliet, listing[0]) != Id(joliet, a) {
      FirstNamedSame(joliet, listing[1..], a, b);
    }
  }

  lemma RecoveredAreHarmless(image: Bytes, files: Files, extents: map<Name, nat>, joliet: bool, listing: seq<Name>,
                             a: Name, b: Name)
    requires Readable(image, files, extents, joliet, listing)
    requires Recovers(image, files, joliet, a) && Recovers(image, files, joliet, b)
    ensures Harmless(files, joliet, a, b)
  {
    if a in files && b in files && Id(joliet, a) == Id(joliet, b) {
      LookupReads(image, files, extents, joliet, listing, a);
      LookupReads(image, files, extents, joliet, listing, b);
      FirstNamedSame(joliet, listing, a, b);
    }
  }

  lemma HarmlessAreRecovered(image: Bytes, files: Files, extents: map<Name, nat>, joliet: bool, listing: seq<Name>,
                             name: Name)
    requires Readable(image, files, extents, joliet, listing) && forall a, b :: Harmless(files, joliet, a, b)
    requires name in files ==> Named(joliet, listing, name)
    ensures Recovers(image, files, joliet, name)
  {
    if name in files {
      LookupReads(image, files, extents, joliet, listing, name);
      assert Harmless(files, joliet, FirstNamed(joliet, listing, name), name);
    }
  }

  lemma RecoveredAreNamed(image: Bytes, files: Files, extents: map<Name, nat>, joliet: bool, listing: seq<Name>,
                          name: Name)
    requires Readable(image, files, extents, joliet, listing) && Recovers(image, files, joliet, name)
    ensures name in files ==> Named(joliet, listing, name)
  {
    LookupReads(image, files, extents, joliet, listing, name);
  }

  lemma ReadableRecoversIff(image: Bytes, files: Files, extents: map<Name, nat>, joliet: bool, listing: seq<Name>)
    requires Readable(image, files, extents, joliet, listing)
    ensures (forall name :: Recovers(image, files, joliet, name)) <==>
            (forall a, b :: Harmless(files, joliet, a, b))
            && forall name :: name in files ==> Named(joliet, listing, name)
  {
    if forall name :: Recovers(image, files, joliet, name) {
      forall a, b ensures Harmless(files, joliet, a, b) {
        RecoveredAreHarmless(image, files, extents, joliet, listing, a, b);
      }
      forall name | name in files ensures Named(joliet, listing, name) {
        RecoveredAreNamed(image, files, extents, joliet, listing, name);
      }
    }
    if (forall a, b :: Harmless(files, joliet, a, b)) && forall name :: name in files ==> Named(joliet, listing, name) {
      forall name ensures Recovers(image, files, joliet, name) {
        HarmlessAreRecovered(image, files, extents, joliet, listing, name);
      }
    }
  }

  /** Whether or not its directory fits, a tree recovers every file exactly when no two files of different
      contents share an identifier in it, and every identifier is among those of the records that fit. */
  lemma RecoversIff(image: Bytes, files: Files, plan: Plan, joliet: bool)
    requires IsPlan(files, plan) && Encodable(files) && IsImage(image, files, plan)
    ensures (forall name :: Recovers(image, files, joliet, name)) <==>
            (forall a, b :: Harmless(files, joliet, a, b))
            && forall name :: name in files ==> Named(joliet, ShownBy(plan, joliet), name)
  {
    ImageReadable(image, files, plan, joliet);
    ReadableRecoversIff(image, files, plan.extents, joliet, ShownBy(plan, joliet));
  }

  /** Where its directory fits, the primary tree recovers every file exactly when no two files of
      different contents share an identifier. */
  lemma PrimaryRecoversIff(image: Bytes, files: Files, plan: Plan)
    requires IsPlan(files, plan) && Encodable(files) && IsImage(image, files, plan) && Fits(files, false)
    ensures (forall name :: Recovers(image, files, false, name)) <==> (forall a, b :: Harmless(files, false, a, b))
  {
    RecoversIff(image, files, plan, false);
    AllNamed(files, plan, false);
  }

  lemma AllNamed(files: Files, plan: Plan, joliet: bool)
    requires IsPlan(files, plan) && Fits(files, joliet)
    ensures forall name :: name in files ==> Named(joliet, ShownBy(plan, joliet), name)
  {
    AllShownIff(files, plan, joliet);
    PlanLists(files, plan, joliet);
    forall name | name in files ensures Named(joliet, ShownBy(plan, joliet), name) {
      assert name in plan.Listing(joliet);
    }
  }

  /** The Joliet tree recovers every file, under its exact name, if and only if its directory fits. */
  lemma JolietRecoversIff(image: Bytes, files: Files, plan: Plan)
    requires IsPlan(files, plan) && Encodable(files) && IsImage(image, files, plan)
    ensures (forall name :: Recovers(image, files, true, name)) <==> Fits(files, true)
  {
    RecoversIff(image, files, plan, true);
    JolietNamedIff(files, plan);
    forall a, b ensures Harmless(files, true, a, b) {
      if Id(true, a) == Id(true, b) {
        JolietIdInjective(a, b);
      }
    }
  }

  lemma JolietNamedIff(files: Files, plan: Plan)
    requires IsPlan(files, plan)
    ensures (forall name :: name in files ==> Named(true, ShownBy(plan, true), name)) <==> Fits(files, true)
  {
    if Fits(files, true) {
      AllNamed(files, plan, true);
    } else {
      var listing, shown := plan.Listing(true), ShownBy(plan, true);
      AllShownIff(files, plan, true);
      PlanLists(files, plan, true);
      ShownIsPrefix(true, listing, ROOM);
      FirstUnshown(listing, shown);
      assert listing[|shown|] in files;
    }
  }

  /** The first name that is left out shares its Joliet identifier with no name that is shown. */
  lemma FirstUnshown(listing: seq<Name>, shown: seq<Name>)
    requires Distinct(listing) && shown < listing
    ensures !Named(true, shown, listing[|shown|])
  {
    forall n | n in shown ensures Id(true, n) != Id(true, listing[|shown|]) {
      var i :| 0 <= i < |shown| && shown[i] == n;
      assert listing[i] == n;
      if Id(true, n) == Id(true, listing[|shown|]) {
        JolietIdInjective(n, listing[|shown|]);
      }
    }
  }

  /** Where the Joliet directory fits, every file is found under its exact name through the Joliet tree. */
  lemma JolietRecoversEveryFile(image: Bytes, files: Files, plan: Plan, name: Name)
    requires IsPlan(files, plan) && Encodable(files) && IsImage(image, files, plan) && Fits(files, true)
    requires name in files
    ensures ReadFile(image, SVD, Id(true, name)) == Some(files[name])
  {
    JolietRecoversIff(image, files, plan);
    assert Recovers(image, files, true, name);
  }

  /** Two files whose names become the same upper-case identifier. */
  const CLASHING: Files := map["a-b" := [1], "a_b" := [2]]

  lemma NamesClash()
    ensures !Harmless(CLASHING, false, "a-b", "a_b")
  {
    assert Id(false, "a-b") == Id(false, "a_b");
  }

  /** There is an image of them, and its directories fit. */
  lemma ClashingIsBuilt()
    ensures Encodable(CLASHING) && Fits(CLASHING, false) && Fits(CLASHING, true)
  {
    assert CLASHING.Keys == {"a-b", "a_b"};
    SumAtMost(CLASHING.Keys, SpanOf(CLASHING), 1);
    FewFilesFit(CLASHING, false);
    FewFilesFit(CLASHING, true);
  }

  /** One of them is not found under its identifier. */
  lemma ClashLosesAFile(image: Bytes, plan: Plan)
    requires IsPlan(CLASHING, plan) && Encodable(CLASHING) && IsImage(image, CLASHING, plan)
    ensures exists name :: !Recovers(image, CLASHING, false, name)
  {
    NamesClash();
    ClashingIsBuilt();
    PrimaryRecoversIff(image, CLASHING, plan);
  }
}
