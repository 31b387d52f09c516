/** The same files always give the same image, byte for byte. */
module IsoDeterminism {
  import opened Names
  import opened AppGraph
  import opened IsoFormat
  import opened IsoLayout
  import opened IsoPlan
  import opened IsoReader

  // ---------------------------------------------------------------- one listing, one plan

  lemma BeforeAntisymmetric(o: Order, a: Name, b: Name)
    requires Before(o, a, b) && Before(o, b, a)
    ensures a == b
  {
    LeAntisymmetric(Latin1(Key(o, a)), Latin1(Key(o, b)));
    Latin1Injective(Key(o, a), Key(o, b));
    LeAntisymmetric(a, b);
  }

  /** The next name of one listing does not come after the next of the other. */
  lemma {:induction false} NextBefore(o: Order, files: Files, s: seq<Name>, t: seq<Name>, n: nat)
    requires IsListing(o, files, s) && IsListing(o, files, t) && n < |s| && n < |t| && s[..n] == t[..n]
    ensures s[n] == t[n] || Before(o, s[n], t[n])
  {
    ListedAt(files, s, t, n);
    var k: nat :| k < |s| && s[k] == t[n];
    NotEarlier(s, t, n, k);
    if k > n {
      assert Before(o, s[n], s[k]);
    }
  }

  lemma ListedAt(files: Files, s: seq<Name>, t: seq<Name>, n: nat)
    requires Lists(files, s) && Lists(files, t) && n < |t|
    ensures t[n] in s
  {
    assert t[n] in t;
  }

  lemma NotEarlier(s: seq<Name>, t: seq<Name>, n: nat, k: nat)
    requires Distinct(t) && n < |s| && n < |t| && s[..n] == t[..n] && k < |s| && s[k] == t[n]
    ensures k >= n
  {
    forall i | 0 <= i < n ensures s[i] == t[i] {
      assert s[i] == s[..n][i];
    }
  }

  lemma {:induction false} ListingsAgree(o: Order, files: Files, s: seq<Name>, t: seq<Name>, n: nat)
    requires IsListing(o, files, s) && IsListing(o, files, t) && n <= |s| && n <= |t|
    ensures s[..n] == t[..n]
  {
    if n > 0 {
      ListingsAgree(o, files, s, t, n - 1);
      NextBefore(o, files, s, t, n - 1);
      NextBefore(o, files, t, s, n - 1);
      if s[n - 1] != t[n - 1] {
        BeforeAntisymmetric(o, s[n - 1], t[n - 1]);
      }
      assert s[..n] == s[..n - 1] + [s[n - 1]] && t[..n] == t[..n - 1] + [t[n - 1]];
    }
  }

  lemma ListingIsUnique(o: Order, files: Files, s: seq<Name>, t: seq<Name>)
    requires IsListing(o, files, s) && IsListing(o, files, t)
    ensures s == t
  {
    DistinctCount(s);
    DistinctCount(t);
    assert Elements(s) == Elements(t);
    ListingsAgree(o, files, s, t, |s|);
    assert s == s[..|s|] && t == t[..|s|];
  }

  lemma SameExtents(files: Files, names: seq<Name>, e: map<Name, nat>, f: map<Name, nat>)
    requires Lists(files, names) && Placed(files, names, e) && Placed(files, names, f)
    requires e.Keys == files.Keys && f.Keys == files.Keys
    ensures e == f
  {
    forall n | n in files ensures e[n] == f[n] {
      assert n in names;
      var k :| 0 <= k < |names| && names[k] == n;
    }
  }

  lemma PlanIsUnique(files: Files, p: Plan, q: Plan)
    requires IsPlan(files, p) && IsPlan(files, q)
    ensures p == q
  {
    ListingIsUnique(ByName, files, p.names, q.names);
    ListingIsUnique(ById(false), files, p.primary, q.primary);
    ListingIsUnique(ById(true), files, p.joliet, q.joliet);
    SameExtents(files, p.names, p.extents, q.extents);
  }

  // ---------------------------------------------------------------- one descriptor

  lemma IdentificationDetermines(b: Bytes, c: Bytes, l: Layout)
    requires Identification(b, l) && Identification(c, l)
    ensures SameOn(b, c, 0, 80)
  {
    AtDetermines(b, c, 1, CD001);
    AtDetermines(b, c, 8, Identifier(l.joliet, "", 32));
    AtDetermines(b, c, 40, VolumeId(l.joliet));
  }

  lemma SizesDetermine(b: Bytes, c: Bytes, l: Layout)
    requires Small(l) && Sizes(b, l) && Sizes(c, l)
    ensures SameOn(b, c, 80, 132)
  {
    AtDetermines(b, c, 80, Both32(l.sectors));
    AtDetermines(b, c, 88, if l.joliet then UCS2_LEVEL_3 else IsoFormat.Zeros(3));
    AtDetermines(b, c, 120, Both16(1));
    AtDetermines(b, c, 124, Both16(1));
    AtDetermines(b, c, 128, Both16(SECTOR));
  }

  lemma TablesDetermine(b: Bytes, c: Bytes, l: Layout)
    requires Small(l) && Tables(b, l) && Tables(c, l)
    ensures SameOn(b, c, 132, 190)
  {
    AtDetermines(b, c, 132, Both32(l.pathTableSize));
    AtDetermines(b, c, 140, Le32(l.lTable));
    AtDetermines(b, c, 148, Be32(l.mTable));
    AtDetermines(b, c, 156, RecordBytes(RootEntry(0, l.root)));
  }

  lemma {:induction false} BlanksDetermine(b: Bytes, c: Bytes, joliet: bool, n: nat)
    requires n <= 7 && Blank(b, joliet, 7) && Blank(c, joliet, 7)
    ensures SameOn(b, c, 190, if n == 0 then 190 else BlankField(n - 1).0 + BlankField(n - 1).1)
  {
    if n > 0 {
      BlanksDetermine(b, c, joliet, n - 1);
      AtDetermines(b, c, BlankField(n - 1).0, Identifier(joliet, "", BlankField(n - 1).1));
    }
  }

  lemma DatesDetermine(b: Bytes, c: Bytes)
    requires Dates(b) && Dates(c)
    ensures SameOn(b, c, 813, SECTOR)
  {
    var recorded, never := VOLUME_DATE, NO_DATE;
    assert |recorded| == 17 && |never| == 17;
    AtDetermines(b, c, 813, recorded);
    AtDetermines(b, c, 830, recorded);
    AtDetermines(b, c, 847, never);
    AtDetermines(b, c, 864, recorded);
  }

  lemma DescriptorIsUnique(b: Bytes, c: Bytes, l: Layout)
    requires Small(l) && IsDescriptor(b, l) && IsDescriptor(c, l)
    ensures b == c
  {
    IdentificationDetermines(b, c, l);
    SizesDetermine(b, c, l);
    TablesDetermine(b, c, l);
    BlanksDetermine(b, c, l.joliet, 7);
    DatesDetermine(b, c);
    assert SameOn(b, c, 0, SECTOR);
  }

  // ---------------------------------------------------------------- one image

  lemma DescriptorsAgree(b: Bytes, c: Bytes, sector: nat, joliet: bool, total: nat)
    requires total < U32 && DescriptorIn(b, sector, joliet, total) && DescriptorIn(c, sector, joliet, total)
    ensures SameOn(b, c, sector * SECTOR, (sector + 1) * SECTOR)
  {
    var d, e := b[sector * SECTOR..(sector + 1) * SECTOR], c[sector * SECTOR..(sector + 1) * SECTOR];
    DescriptorIsUnique(d, e, LayoutOf(joliet, total));
    forall i | sector * SECTOR <= i < (sector + 1) * SECTOR ensures b[i] == c[i] {
      assert d[i - sector * SECTOR] == b[i] && e[i - sector * SECTOR] == c[i];
    }
  }

  lemma BlocksAgree(b: Bytes, c: Bytes, sector: nat, span: nat, payload: Bytes)
    requires Block(b, sector, span, payload) && Block(c, sector, span, payload)
    ensures SameOn(b, c, sector * SECTOR, (sector + span) * SECTOR)
  {
    AtDetermines(b, c, sector * SECTOR, payload);
  }

  lemma FrontsAgree(b: Bytes, c: Bytes, total: nat)
    requires total < U32 && Front(b, total) && Front(c, total)
    ensures SameOn(b, c, 0, RootExtent(false) * SECTOR)
  {
    DescriptorsAgree(b, c, PVD, false, total);
    DescriptorsAgree(b, c, SVD, true, total);
    SameOnJoins(b, c, 0, PVD * SECTOR, SVD * SECTOR);
    SameOnJoins(b, c, 0, SVD * SECTOR, TERMINATOR * SECTOR);
    BlocksAgree(b, c, TERMINATOR, 1, TERMINATOR_BYTES);
    SameOnJoins(b, c, 0, TERMINATOR * SECTOR, LTable(false) * SECTOR);
    TreeTablesAgree(b, c, false);
    SameOnJoins(b, c, 0, LTable(false) * SECTOR, LTable(true) * SECTOR);
    TreeTablesAgree(b, c, true);
    SameOnJoins(b, c, 0, LTable(true) * SECTOR, RootExtent(false) * SECTOR);
  }

  lemma TreeTablesAgree(b: Bytes, c: Bytes, joliet: bool)
    requires PathTablesIn(b, joliet) && PathTablesIn(c, joliet)
    ensures SameOn(b, c, LTable(joliet) * SECTOR, (MTable(joliet) + 1) * SECTOR)
  {
    BlocksAgree(b, c, LTable(joliet), 1, PathTable(RootExtent(joliet), false));
    BlocksAgree(b, c, MTable(joliet), 1, PathTable(RootExtent(joliet), true));
  }

  /** However the files are enumerated, two images of the same files are equal, also where their
      directories do not fit. */
  lemma SameFilesSameImage(files: Files, p: Plan, q: Plan, b: Bytes, c: Bytes)
    requires IsPlan(files, p) && IsPlan(files, q) && Encodable(files) && IsImage(b, files, p) && IsImage(c, files, q)
    ensures p == q && b == c
  {
    PlanIsUnique(files, p, q);
    PlannedImagesAgree(b, c, files, p);
  }

  lemma PlannedImagesAgree(b: Bytes, c: Bytes, files: Files, plan: Plan)
    requires IsPlan(files, plan) && Encodable(files) && IsImage(b, files, plan) && IsImage(c, files, plan)
    ensures b == c
  {
    EncodableIff(files, plan);
    FrontsAgree(b, c, plan.total);
    forall i: nat | RootExtent(false) * SECTOR <= i < |b| ensures b[i] == c[i] {
      ByteAgrees(b, c, files, plan, i);
    }
  }

  /** A byte behind the front belongs to a file, or is what the directories left. */
  lemma ByteAgrees(b: Bytes, c: Bytes, files: Files, plan: Plan, i: nat)
    requires IsPlan(files, plan) && Encodable(files) && IsImage(b, files, plan) && IsImage(c, files, plan)
    requires RootExtent(false) * SECTOR <= i < |b| && |b| == |c|
    ensures b[i] == c[i]
  {
    if InFile(files, plan.extents, i) {
      var n :| n in files && n in plan.extents && plan.extents[n] * SECTOR <= i < plan.extents[n] * SECTOR + |files[n]|;
      AtDetermines(b, c, plan.extents[n] * SECTOR, files[n]);
    }
  }
}
