/** Where the files of an image go, what the image then contains, and when it can be made at all. */
module IsoPlan {
  import opened AppGraph
  import opened IsoFormat
  import opened IsoLayout
  import opened Numbers

  // ---------------------------------------------------------------- sums over names

  ghost function Sum(names: set<Name>, weight: Name -> nat): nat {
    if names == {} then 0 else var n :| n in names; weight(n) + Sum(names - {n}, weight)
  }

  /** The sum does not depend on the order in which names are taken. */
  lemma {:induction false} SumSplit(names: set<Name>, n: Name, weight: Name -> nat)
    requires n in names
    ensures Sum(names, weight) == weight(n) + Sum(names - {n}, weight)
    decreases names
  {
    var m :| m in names && Sum(names, weight) == weight(m) + Sum(names - {m}, weight);
    if m != n {
      SumSplit(names - {m}, n, weight);
      SumSplit(names - {n}, m, weight);
      assert names - {m} - {n} == names - {n} - {m};
    }
  }

  lemma SumAdd(names: set<Name>, n: Name, weight: Name -> nat)
    requires n !in names
    ensures Sum(names + {n}, weight) == Sum(names, weight) + weight(n)
  {
    SumSplit(names + {n}, n, weight);
    assert names + {n} - {n} == names;
  }

  lemma OneLess(a: nat, names: set<Name>, n: Name)
    requires n in names
    ensures a * |names| == a * |names - {n}| + a
  {
    var k := |names - {n}|;
    assert |names| == k + 1;
    assert a * (k + 1) == a * k + a;
  }

  lemma {:induction false} SumAtLeast(names: set<Name>, weight: Name -> nat, least: nat)
    requires forall n :: n in names ==> weight(n) >= least
    ensures Sum(names, weight) >= least * |names|
    decreases names
  {
    if names != {} {
      var n :| n in names;
      SumSplit(names, n, weight);
      SumAtLeast(names - {n}, weight, least);
      OneLess(least, names, n);
    }
  }

  lemma {:induction false} SumAtMost(names: set<Name>, weight: Name -> nat, most: nat)
    requires forall n :: n in names ==> weight(n) <= most
    ensures Sum(names, weight) <= most * |names|
    decreases names
  {
    if names != {} {
      var n :| n in names;
      SumSplit(names, n, weight);
      SumAtMost(names - {n}, weight, most);
      OneLess(most, names, n);
    }
  }

  // ---------------------------------------------------------------- sizes, from the files alone

  /** The sectors a file of `n` bytes takes: at least one. */
  function Span(n: nat): (r: nat)
    ensures r >= 1 && (r - 1) * SECTOR <= n <= r * SECTOR && (r > 1 ==> (r - 1) * SECTOR < n)
  {
    if n == 0 then 1 else (n + SECTOR - 1) / SECTOR
  }

  function SpanOf(files: Files): Name -> nat { n => if n in files then Span(|files[n]|) else 0 }

  /** The length of the record of a file, padding included. */
  function RecordSize(joliet: bool): Name -> nat { n => (34 + |Id(joliet, n)|) / 2 * 2 }

  lemma PaddedLess(m: nat)
    ensures (36 + m) / 2 * 2 <= (34 + 2 * m) / 2 * 2 + if m == 0 then 2 else 0
  {
  }

  lemma {:induction false} RecordIsShorter(n: Name)
    ensures RecordSize(false)(n) <= RecordSize(true)(n) + if n == "" then 2 else 0
  {
    var primary, joliet := |Id(false, n)|, |Id(true, n)|;
    assert primary == |n| + 2 && joliet == 2 * |n|;
    PaddedLess(|n|);
  }

  /** A primary record is longer than the Joliet one only for the empty name, and then by two bytes. */
  lemma {:induction false} PrimaryIsShorter(names: set<Name>)
    ensures RootSize(names, false) <= RootSize(names, true) + if "" in names then 2 else 0
    decreases names
  {
    if names != {} {
      var n :| n in names;
      SumSplit(names, n, RecordSize(false));
      SumSplit(names, n, RecordSize(true));
      RecordIsShorter(n);
      PrimaryIsShorter(names - {n});
      assert "" in names <==> n == "" || "" in names - {n};
    }
  }

  ghost function TotalSectors(files: Files): nat { FIRST_FILE + Sum(files.Keys, SpanOf(files)) }

  /** The length of a root directory with records for these files. */
  ghost function RootSize(names: set<Name>, joliet: bool): nat { 68 + Sum(names, RecordSize(joliet)) }

  /** Every number fits its field and every record its length byte. */
  ghost predicate Encodable(files: Files) {
    TotalSectors(files) < U32 && forall n :: n in files ==> |n| <= 110 && |files[n]| < U32
  }

  /** The root directory of the tree fits the one sector it has. */
  ghost predicate Fits(files: Files, joliet: bool) { RootSize(files.Keys, joliet) <= SECTOR }

  // ---------------------------------------------------------------- places

  /** Files follow one another in the order of their names. */
  function Start(files: Files, names: seq<Name>, k: nat): (r: nat)
    requires k <= |names| && forall n :: n in names ==> n in files
    ensures r >= FIRST_FILE
  {
    if k == 0 then FIRST_FILE else Start(files, names, k - 1) + Span(|files[names[k - 1]]|)
  }

  ghost predicate Placed(files: Files, names: seq<Name>, extents: map<Name, nat>)
    requires forall n :: n in names ==> n in files
  {
    forall k :: 0 <= k < |names| ==> names[k] in extents && extents[names[k]] == Start(files, names, k)
  }

  lemma {:induction false} StartMonotone(files: Files, names: seq<Name>, j: nat, k: nat)
    requires j <= k <= |names| && forall n :: n in names ==> n in files
    ensures Start(files, names, j) <= Start(files, names, k)
    decreases k
  {
    if j < k {
      StartMonotone(files, names, j, k - 1);
    }
  }

  lemma StartNext(files: Files, names: seq<Name>, k: nat)
    requires k < |names| && forall n :: n in names ==> n in files
    ensures names[k] in files && Start(files, names, k) + Span(|files[names[k]]|) == Start(files, names, k + 1)
  {
    assert names[k] in names;
  }

  lemma FileEnds(files: Files, names: seq<Name>, k: nat)
    requires k < |names| && forall n :: n in names ==> n in files
    ensures names[k] in files
    ensures Start(files, names, k) + Span(|files[names[k]]|) == Start(files, names, k + 1) <=
            Start(files, names, |names|)
  {
    assert names[k] in names;
    StartMonotone(files, names, k + 1, |names|);
  }

  lemma PrefixElements(names: seq<Name>, k: nat)
    requires Distinct(names) && k < |names|
    ensures names[k] !in Elements(names[..k]) && Elements(names[..k + 1]) == Elements(names[..k]) + {names[k]}
  {
    assert names[..k + 1] == names[..k] + [names[k]];
  }

  lemma {:induction false} SumNext(files: Files, names: seq<Name>, k: nat)
    requires Lists(files, names) && k < |names| && names[k] in files
    ensures Sum(Elements(names[..k + 1]), SpanOf(files)) ==
            Sum(Elements(names[..k]), SpanOf(files)) + Span(|files[names[k]]|)
  {
    PrefixElements(names, k);
    SumAdd(Elements(names[..k]), names[k], SpanOf(files));
  }

  lemma {:induction false} StartIsSum(files: Files, names: seq<Name>, k: nat)
    requires Lists(files, names) && k <= |names|
    ensures Start(files, names, k) == FIRST_FILE + Sum(Elements(names[..k]), SpanOf(files))
  {
    if k > 0 {
      StartIsSum(files, names, k - 1);
      StartNext(files, names, k - 1);
      SumNext(files, names, k - 1);
    }
  }

  datatype Plan = Plan(names: seq<Name>, primary: seq<Name>, joliet: seq<Name>, extents: map<Name, nat>, total: nat) {
    function Listing(tree: bool): seq<Name> { if tree then joliet else primary }
  }

  ghost predicate IsPlan(files: Files, plan: Plan) {
    && IsListing(ByName, files, plan.names) && IsListing(ById(false), files, plan.primary)
    && IsListing(ById(true), files, plan.joliet)
    && Placed(files, plan.names, plan.extents) && plan.extents.Keys == files.Keys
    && plan.total == Start(files, plan.names, |plan.names|)
  }

  /** What a plan means for the listings, without their order. */
  lemma PlanLists(files: Files, plan: Plan, joliet: bool)
    requires IsPlan(files, plan)
    ensures Lists(files, plan.names) && Lists(files, plan.Listing(joliet))
    ensures Placed(files, plan.names, plan.extents) && plan.extents.Keys == files.Keys
    ensures plan.total == Start(files, plan.names, |plan.names|)
  {
  }

  lemma ListedElements(files: Files, names: seq<Name>)
    requires Lists(files, names)
    ensures Elements(names) == files.Keys && |names| == |files| && names[..|names|] == names
  {
    DistinctCount(names);
  }

  lemma TotalOfPlan(files: Files, names: seq<Name>)
    requires Lists(files, names)
    ensures Start(files, names, |names|) == TotalSectors(files)
  {
    ListedElements(files, names);
    StartIsSum(files, names, |names|);
  }

  lemma {:induction false} ExtentInImage(files: Files, names: seq<Name>, extents: map<Name, nat>, name: Name)
    requires Lists(files, names) && Placed(files, names, extents) && name in files && name in extents
    ensures FIRST_FILE <= extents[name] && extents[name] + Span(|files[name]|) <= Start(files, names, |names|)
  {
    assert name in names;
    var k: nat :| k < |names| && names[k] == name;
    FileEnds(files, names, k);
  }

  // ---------------------------------------------------------------- directories

  function FileEntry(files: Files, extents: map<Name, nat>, joliet: bool, name: Name): Entry
    requires name in files && name in extents
  {
    Entry(Id(joliet, name), extents[name], |files[name]|, false)
  }

  function FileEntries(files: Files, extents: map<Name, nat>, joliet: bool, listing: seq<Name>): (r: seq<Entry>)
    requires forall n :: n in listing ==> n in files && n in extents
    ensures |r| == |listing| && forall i :: 0 <= i < |r| ==> r[i] == FileEntry(files, extents, joliet, listing[i])
  {
    seq(|listing|, i requires 0 <= i < |listing| => FileEntry(files, extents, joliet, listing[i]))
  }

  lemma EntriesTail(files: Files, extents: map<Name, nat>, joliet: bool, listing: seq<Name>)
    requires (forall n :: n in listing ==> n in files && n in extents) && listing != []
    ensures listing[0] in listing && forall n :: n in listing[1..] ==> n in listing
    ensures FileEntries(files, extents, joliet, listing) ==
            [FileEntry(files, extents, joliet, listing[0])] + FileEntries(files, extents, joliet, listing[1..])
  {
  }

  function Tree(files: Files, plan: Plan, joliet: bool): seq<Entry>
    requires forall n :: n in plan.Listing(joliet) ==> n in files && n in plan.extents
  {
    FileEntries(files, plan.extents, joliet, plan.Listing(joliet))
  }

  lemma RecordableEntry(files: Files, extents: map<Name, nat>, joliet: bool, name: Name)
    requires name in files && name in extents && extents[name] < U32
    ensures Recordable(FileEntry(files, extents, joliet, name)) <==> |Id(joliet, name)| <= 221 && |files[name]| < U32
  {
  }

  lemma RecordableEntries(files: Files, extents: map<Name, nat>, joliet: bool, listing: seq<Name>)
    requires Lists(files, listing) && extents.Keys == files.Keys && forall n :: n in files ==> extents[n] < U32
    ensures AllRecordable(FileEntries(files, extents, joliet, listing)) <==>
            forall n :: n in files ==> |Id(joliet, n)| <= 221 && |files[n]| < U32
  {
    var es := FileEntries(files, extents, joliet, listing);
    forall i | 0 <= i < |listing|
      ensures Recordable(es[i]) <==> |Id(joliet, listing[i])| <= 221 && |files[listing[i]]| < U32
    {
      assert listing[i] in listing;
      RecordableEntry(files, extents, joliet, listing[i]);
    }
    if AllRecordable(es) {
      forall n | n in files ensures |Id(joliet, n)| <= 221 && |files[n]| < U32 {
        assert n in listing;
        var i :| 0 <= i < |listing| && listing[i] == n;
        assert Recordable(es[i]);
      }
    }
    if forall n :: n in files ==> |Id(joliet, n)| <= 221 && |files[n]| < U32 {
      forall i | 0 <= i < |es| ensures Recordable(es[i]) {
        assert listing[i] in listing;
      }
    }
  }

  lemma DirectoryRecordableIff(joliet: bool, entries: seq<Entry>)
    ensures AllRecordable(Directory(joliet, entries)) <==> AllRecordable(entries)
  {
    var d := Directory(joliet, entries);
    assert forall i :: 0 <= i < |entries| ==> d[i + 2] == entries[i];
  }

  /** A directory can be recorded if and only if its names are short enough and its files small enough. */
  lemma RootRecordableIff(files: Files, plan: Plan, joliet: bool)
    requires IsPlan(files, plan) && plan.total < U32
    ensures AllRecordable(Directory(joliet, Tree(files, plan, joliet))) <==>
            forall n :: n in files ==> |Id(joliet, n)| <= 221 && |files[n]| < U32
  {
    PlanLists(files, plan, joliet);
    forall n | n in files ensures plan.extents[n] < U32 {
      ExtentInImage(files, plan.names, plan.extents, n);
    }
    RecordableEntries(files, plan.extents, joliet, plan.Listing(joliet));
    DirectoryRecordableIff(joliet, Tree(files, plan, joliet));
  }

  /** The condition on the files is exactly what packing numbers and records needs. */
  lemma EncodableIff(files: Files, plan: Plan)
    requires IsPlan(files, plan)
    ensures Encodable(files) <==>
            && plan.total < U32 && AllRecordable(Directory(false, Tree(files, plan, false)))
            && AllRecordable(Directory(true, Tree(files, plan, true)))
  {
    PlanLists(files, plan, false);
    TotalOfPlan(files, plan.names);
    if plan.total < U32 {
      RootRecordableIff(files, plan, false);
      RootRecordableIff(files, plan, true);
    }
  }

  /** The bytes of a root directory. */
  function RootBytes(files: Files, plan: Plan, joliet: bool): Bytes
    requires IsPlan(files, plan) && Encodable(files)
  {
    EncodableIff(files, plan);
    DirectoryBytes(Directory(joliet, Tree(files, plan, joliet)))
  }

  lemma {:induction false} EntriesLength(files: Files, extents: map<Name, nat>, joliet: bool, listing: seq<Name>)
    requires (forall n :: n in listing ==> n in files && n in extents) && Distinct(listing)
    requires AllRecordable(FileEntries(files, extents, joliet, listing))
    ensures |DirectoryBytes(FileEntries(files, extents, joliet, listing))| == Sum(Elements(listing), RecordSize(joliet))
    decreases |listing|
  {
    if listing != [] {
      var rest := listing[1..];
      EntriesTail(files, extents, joliet, listing);
      FirstElement(listing);
      FirstLength(FileEntry(files, extents, joliet, listing[0]), FileEntries(files, extents, joliet, rest));
      EntriesLength(files, extents, joliet, rest);
      RecordLength(files, extents, joliet, listing[0]);
      SumAdd(Elements(rest), listing[0], RecordSize(joliet));
    }
  }

  lemma FirstLength(e: Entry, es: seq<Entry>)
    requires AllRecordable([e] + es)
    ensures AllRecordable(es) && Recordable(e)
    ensures |DirectoryBytes([e] + es)| == |RecordBytes(e)| + |DirectoryBytes(es)|
  {
    DirectoryOf(e, es);
  }

  lemma RecordLength(files: Files, extents: map<Name, nat>, joliet: bool, name: Name)
    requires name in files && name in extents && Recordable(FileEntry(files, extents, joliet, name))
    ensures |RecordBytes(FileEntry(files, extents, joliet, name))| == RecordSize(joliet)(name)
  {
  }

  lemma FirstElement(listing: seq<Name>)
    requires Distinct(listing) && listing != []
    ensures Distinct(listing[1..]) && listing[0] !in Elements(listing[1..])
    ensures Elements(listing) == Elements(listing[1..]) + {listing[0]}
  {
    assert listing == [listing[0]] + listing[1..];
  }

  /** The length of a root directory is the sum of its record lengths, whatever the plan. */
  lemma RootLength(files: Files, plan: Plan, joliet: bool)
    requires IsPlan(files, plan) && Encodable(files)
    ensures |RootBytes(files, plan, joliet)| == RootSize(files.Keys, joliet)
  {
    EncodableIff(files, plan);
    PlanLists(files, plan, joliet);
    var listing := plan.Listing(joliet);
    DirectoryRecordableIff(joliet, Tree(files, plan, joliet));
    EntriesLength(files, plan.extents, joliet, listing);
    ListedElements(files, listing);
    DotsLength(joliet, Tree(files, plan, joliet));
  }

  lemma DotsLength(joliet: bool, entries: seq<Entry>)
    requires AllRecordable(Directory(joliet, entries)) && AllRecordable(entries)
    ensures |DirectoryBytes(Directory(joliet, entries))| == 68 + |DirectoryBytes(entries)|
  {
    var self, parent := RootEntry(0, RootExtent(joliet)), RootEntry(1, RootExtent(joliet));
    assert Directory(joliet, entries) == [self] + ([parent] + entries);
    DirectoryOf(self, [parent] + entries);
    DirectoryOf(parent, entries);
  }

  // ---------------------------------------------------------------- the image

  /** Byte `i` belongs to the contents of a file. */
  ghost predicate InFile(files: Files, extents: map<Name, nat>, i: nat) {
    exists n :: n in files && n in extents && extents[n] * SECTOR <= i < extents[n] * SECTOR + |files[n]|
  }

  /** No file lies before the first file sector. */
  lemma BeforeFiles(files: Files, plan: Plan, i: nat)
    requires IsPlan(files, plan) && i < FIRST_FILE * SECTOR
    ensures !InFile(files, plan.extents, i)
  {
    PlanLists(files, plan, false);
    forall n | n in files ensures plan.extents[n] * SECTOR > i {
      ExtentInImage(files, plan.names, plan.extents, n);
    }
  }

  /** What the two root directories leave at byte `i`: the second is written over the end of the first
      where that is too long. */
  function Left(primary: Bytes, joliet: Bytes, i: nat): Byte {
    var p, j := RootExtent(false) * SECTOR, RootExtent(true) * SECTOR;
    if j <= i < j + |joliet| then joliet[i - j] else if p <= i < p + |primary| then primary[i - p] else 0
  }

  /** A slice past the end has made the byte array longer. */
  function ImageLength(total: nat, primary: Bytes, joliet: Bytes): nat {
    Max(total * SECTOR, Max(RootExtent(false) * SECTOR + |primary|, RootExtent(true) * SECTOR + |joliet|))
  }

  /** The image of a plan: this fixes every byte, also where a directory is too long for its sector. */
  ghost predicate IsImage(image: Bytes, files: Files, plan: Plan)
    requires IsPlan(files, plan) && Encodable(files)
  {
    var primary, joliet := RootBytes(files, plan, false), RootBytes(files, plan, true);
    EncodableIff(files, plan);
    && |image| == ImageLength(plan.total, primary, joliet) && Front(image, plan.total)
    && (forall n :: n in files ==> At(image, plan.extents[n] * SECTOR, files[n]))
    && forall i: nat :: RootExtent(false) * SECTOR <= i < |image| && !InFile(files, plan.extents, i) ==>
         image[i] == Left(primary, joliet, i)
  }
}
